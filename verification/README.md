# Verified model of EmuRPC and the Boost headers it ships with

Five parts of the repository are modelled, each with the fields, branches and loops of the source, and each is proved
against an independent specification.

* **`boost::rational`** (`NumberTheory`, `Fractions`, `FieldLaws`, `FastForms`, `ContinuedFractions`, `Rational`).
  Class `Rational` updates `num` and `den` in place, also when the right-hand side is the object itself. Each operator
  is proved equal to the one-line form "cross-multiply, then reduce", although it cancels before it multiplies. `Value`
  maps a fraction in lowest terms injectively into the real numbers, and the operators become the operators of the
  reals; so the stored components obey the laws of an ordered field. `operator<` compares continued fractions without
  multiplying; its loop is proved to decide the order of the values, and no number it stores exceeds the numerators and
  denominators it was given.
* **`asio::basic_streambuf`** (`ByteQueue`, `StreamBuf`). One growable array with four positions refines a byte queue
  with a size cap. The class invariant carries the history, so it speaks about every run.
* **The tokenizers** (`TokenFunctions`, `CharSeparatorLaws`, `EscapedListLaws`, `OffsetLaws`, `Separators`,
  `TokenIterator`). `TokenFunctions` gives one call of each function object as a step on values and `Iterate` as the
  whole run; the laws say what a run computes; the classes have the loops of the source and refine the steps, and
  `TokenIterator` refines the list of tokens still to come.
* **Base64** (`Bits`, `TransformWidth`, `Base64`). The adaptor `transform_width` is modelled for any two word widths and
  proved to regroup a bit stream; encoding is then the encoding of section 4 of RFC 4648, and decoding an encoding is
  computed for every input.
* **The RPC engine** (`Protocol`, `RpcSystem`, `RpcGuarantees`, `RpcHistories`, `RpcServer`). The three threads form a transition system
  with atomic steps. One invariant holds over every interleaving; the guarantees about accounting, order, routing,
  survival and loss follow from it. The classes of `RpcServer` refine the steps.

Conventions: an exception is a returned `false`, `null`, `None` or error value; the contract says exactly when it is
raised. Integers are unbounded unless a width matters (the 32-bit client ids, the bytes, the size cap of the buffer).
`Quot` and `Rem` are the truncating `/` and `%` of C++.

## Properties that hold only under a condition

For these the code is modelled as it is, and the exact condition is proved.

* Decoding an encoding appends one zero byte per `=`, so a memory write sent through JSON writes one or two extra zero
  bytes unless the number of bytes is a multiple of three (`Base64.RoundTripIsExact`, `Protocol.WriteMessageIsPadded`).
* `DecodeBase64` reads past the end of its input exactly when the input has valid characters only and 4k + 1 of them
  (`Base64.Decode`, established for the method by `Base64.DecodeBase64`).
* Client ids are 32-bit numbers that wrap: responses always reach the session that asked if and only if at most 2^32
  sessions are ever accepted (`RpcGuarantees.RoutingNeedsDistinctIds`).
* A pass of the server loop loses responses if and only if it completes more than 1024 requests, which needs arrivals
  during the pass (`RpcGuarantees.PassLosesResponses`); `RpcGuarantees.LossyPass` is such a pass.
* Two exceptions leave their thread and end the process: that of `OnRead` for a message that does not parse, and that of
  `HandleRequest` for a read of more bytes than a vector can have. The server survives a run if and only if every message
  received in it parses and no read handled in it is that large (`RpcGuarantees.SurvivesExactly`). It survives all runs
  that receive messages of a given set if and only if no message of the set is of either kind
  (`RpcGuarantees.SafeMessages`).
* `char_separator::reset` does nothing and every run with keep_empty_tokens ends with the flag set, so a used object
  splits the next input like a fresh one if and only if that starts with a character that is no delimiter
  (`CharSeparatorLaws.ReusedObject`).
* The two empty-token policies differ only in the empty tokens if and only if no character is both kept and dropped
  (`CharSeparatorLaws.PoliciesDifferInEmptyTokens`).
* Quoted fields survive `escaped_list_separator` if and only if `n` is neither an escape nor a quote character; fields
  written with escapes only do so for every list but the single blank field, again up to `n`
  (`EscapedListLaws.RoundTripCondition`, `EscapedListLaws.BareRoundTripCondition`).
* With `return_partial_last` off, every token of an `offset_separator` run is whole if and only if the last cut is not
  exactly one character short (`OffsetLaws.WholeTokensCondition`).
* `reserve` moves the bytes before it throws, and the positions stay; what can then be read is unchanged if and only if
  the input sequence repeats with the period of the bytes consumed (`StreamBufs.StreamBuf.Prepare`), and unchanged
  whatever the bytes are if and only if no byte or at least half had been consumed (`StreamBufs.FailedShiftAlwaysKeeps`;
  `StreamBufs.FailedPrepareChangesInput` is a buffer where it does not).
* Normalising throws for a most negative denominator if and only if it is coprime to a non-zero numerator
  (`Rationals.SingularCondition`).

## Model

| member | source | states |
|---|---|---|
| NumberTheory.QuotRem | externals/boost/boost/rational.hpp:774-777 | truncating quotient and remainder: they recompose, and the remainder is smaller than the divisor and has the sign of the dividend |
| NumberTheory.GcdIsGcd | externals/boost/boost/rational.hpp:98-104 | the gcd is a non-negative common divisor and an integer combination of its arguments; it is zero only for two zeros |
| NumberTheory.GcdIsUnique | externals/boost/boost/rational.hpp:98-104 | nothing else is a common divisor and an integer combination |
| NumberTheory.LcmTimesGcd | externals/boost/boost/rational.hpp:106-111 | gcd times lcm is the absolute product; the lcm is zero exactly when an argument is |
| NumberTheory.LcmIsLeast | externals/boost/boost/rational.hpp:106-111 | the lcm is a common multiple that divides every common multiple, zeros included |
| NumberTheory.Gauss | externals/boost/boost/rational.hpp:501-507 | a divisor of a product that is coprime to one factor divides the other |
| Fractions.LowestTermsAreUnique | externals/boost/boost/rational.hpp:842-847 | fractions in lowest terms are equal exactly when their cross products are |
| Fractions.ValueIsInjective | externals/boost/boost/rational.hpp:842-847 | comparing components decides equality of the real values |
| Fractions.ReduceIsUnique | externals/boost/boost/rational.hpp:396-401 | a fraction in lowest terms is the reduced form of n / d exactly when it has that value |
| Fractions.ReduceKeepsValue | externals/boost/boost/rational.hpp:860-890 | normalising keeps the value, for every non-zero denominator of either sign |
| Fractions.ValueOfAdd | externals/boost/boost/rational.hpp:491-523 | the specification of addition is addition of real values |
| Fractions.ValueOfSub | externals/boost/boost/rational.hpp:526-542 | likewise for subtraction |
| Fractions.ValueOfMul | externals/boost/boost/rational.hpp:545-557 | likewise for multiplication |
| Fractions.ValueOfDiv | externals/boost/boost/rational.hpp:560-586 | likewise for division by anything but zero |
| Fractions.ValueOfLess | externals/boost/boost/rational.hpp:759-840 | comparing cross products is comparing real values |
| FastForms.SumInLowestTerms | externals/boost/boost/rational.hpp:496-509 | with g = gcd(b, d), cancelling the new numerator by its gcd with g alone leaves coprime numbers of the exact value |
| FastForms.FastSum | externals/boost/boost/rational.hpp:515-520 | the numbers computed by += satisfy the class invariant and are the exact sum |
| FastForms.FastDifference | externals/boost/boost/rational.hpp:534-539 | the numbers computed by -= satisfy the class invariant and are the exact difference |
| FastForms.FastProduct | externals/boost/boost/rational.hpp:551-555 | cross-cancelling leaves a coprime pair of the exact value; also the pair before the sign fix-up of /= |
| Rationals.Rational.New | externals/boost/boost/rational.hpp:159-164 | null, for the exception, exactly when the denominator is zero or singular; otherwise an object in lowest terms with the value n / d |
| Rationals.Rational.Normalize | externals/boost/boost/rational.hpp:860-890 | the two exceptions and what they leave behind; otherwise lowest terms with a positive denominator and the same value |
| Rationals.SingularCondition | externals/boost/boost/rational.hpp:879-881 | in two's complement, normalising throws for a denominator of the least value that is coprime to the non-zero numerator, and for no other non-zero one |
| Rationals.Rational.Assign | externals/boost/boost/rational.hpp:187-194 | assigns the reduced value, or fails and leaves the object alone |
| Rationals.Rational.AddAssign | externals/boost/boost/rational.hpp:490-523 | the exact sum in lowest terms, also for x += x |
| Rationals.Rational.SubAssign | externals/boost/boost/rational.hpp:525-542 | the exact difference in lowest terms, also for x -= x |
| Rationals.Rational.MulAssign | externals/boost/boost/rational.hpp:544-557 | the exact product in lowest terms, also for x *= x |
| Rationals.Rational.DivAssign | externals/boost/boost/rational.hpp:559-586 | fails exactly for divisor zero and changes nothing then; otherwise the exact quotient in lowest terms with positive denominator |
| Rationals.Rational.AddAssignInt | externals/boost/boost/rational.hpp:266-271 | adding an integer is adding the fraction i / 1 and keeps lowest terms without a gcd |
| Rationals.Rational.SubAssignInt | externals/boost/boost/rational.hpp:272-277 | the same for subtraction |
| Rationals.Rational.MulAssignInt | externals/boost/boost/rational.hpp:278-286 | the same for multiplication, by cancelling against the denominator |
| Rationals.Rational.DivAssignInt | externals/boost/boost/rational.hpp:287-307 | the same for division, with the sign fix-up, zero numerator and zero divisor |
| Rationals.Rational.Increment | externals/boost/boost/rational.hpp:310 | adds one and keeps lowest terms |
| Rationals.Rational.Decrement | externals/boost/boost/rational.hpp:311 | subtracts one and keeps lowest terms |
| Rationals.Rational.Negated | externals/boost/boost/rational.hpp:482-487 | the negated value in lowest terms |
| Rationals.Rational.Absolute | externals/boost/boost/rational.hpp:979-984 | the absolute value in lowest terms |
| Rationals.Rational.IntMinus | externals/boost/boost/rational.hpp:632-640 | i - a, although computed as -(a - i) |
| Rationals.Rational.IntDividedBy | externals/boost/boost/rational.hpp:670-678 | i / a, failing exactly for a zero |
| Rationals.Rational.TestInvariant | externals/boost/boost/rational.hpp:850-856 | decides the class invariant |
| Rationals.Rational.Equal | externals/boost/boost/rational.hpp:842-847 | component-wise comparison decides equality of values |
| Rationals.Rational.LessThan | externals/boost/boost/rational.hpp:757-840 | terminates and is true exactly when the value is smaller; the returned trace is the whole pair of Euclidean expansions the loop went through |
| Rationals.Rational.LessThanInt | externals/boost/boost/rational.hpp:352-368 | comparing the floor decides the order against an integer |
| Rationals.Rational.GreaterThanInt | externals/boost/boost/rational.hpp:369-373 | the combination of == and < decides "greater" |
| Rationals.FirstCycle | externals/boost/boost/rational.hpp:774-786 | the truncating quotient and remainder, adjusted by the loop, are floor division |
| Rationals.NextCycle | externals/boost/boost/rational.hpp:811-814 | one further Euclidean step, of divisor by remainder |
| Rationals.InnerGcdIsGcd | externals/boost/boost/rational.hpp:387-390 | the recursion with the signed remainder terminates and is the gcd up to sign |
| Rationals.IsNormalizedIsInvariant | externals/boost/boost/rational.hpp:403-409 | the check on components is the class invariant |
| ContinuedFractions.QuotientsDecide | externals/boost/boost/rational.hpp:791-800 | different quotients order the two fractions as the quotients are ordered |
| ContinuedFractions.NextCycleReverses | externals/boost/boost/rational.hpp:802-814 | going on to the reciprocals of the remainders reverses the order, which is what the flag records |
| ContinuedFractions.EndedExpansionDecides | externals/boost/boost/rational.hpp:817-839 | after equal quotients, the expansion that has ended belongs to the smaller fraction of that cycle |
| ContinuedFractions.ExpansionStaysNarrow | externals/boost/boost/rational.hpp:771-815 | every stored n, d, q and r, in every cycle, stays within the magnitudes of the numerator and denominator of its own fraction, and the divisors fall |
| ContinuedFractions.ExpansionIsShort | externals/boost/boost/rational.hpp:788-815 | n cycles need denominators of at least the n-th Fibonacci number, so the loop is logarithmic in the smaller denominator |
| ContinuedFractions.ExpansionBoundIsAttained | externals/boost/boost/rational.hpp:788-815 | no better bound holds: for every n a comparison with denominators equal to the n-th Fibonacci number takes n cycles |
| FieldLaws.AdditionIsAnAbelianGroup | externals/boost/boost/rational.hpp:490-542 | commutative, associative, with zero and negatives, as equality of stored components |
| FieldLaws.MultiplicationIsACommutativeMonoid | externals/boost/boost/rational.hpp:544-557 | commutative, associative, with one |
| FieldLaws.MultiplicationDistributes | externals/boost/boost/rational.hpp:490-557 | multiplication distributes over addition |
| FieldLaws.SubtractionUndoesAddition | externals/boost/boost/rational.hpp:490-542 | (x + y) - y and (x - y) + y are x |
| FieldLaws.DivisionUndoesMultiplication | externals/boost/boost/rational.hpp:544-586 | (x * y) / y and (x / y) * y are x for y not zero |
| FieldLaws.LessIsAStrictTotalOrder | externals/boost/boost/rational.hpp:757-847 | irreflexive, transitive, asymmetric, and total up to == |
| FieldLaws.LessIsCompatible | externals/boost/boost/rational.hpp:490-840 | adding anything, and multiplying by anything positive, keeps and reflects the order |
| FieldLaws.ValueOfAbs | externals/boost/boost/rational.hpp:979-984 | the absolute value of the real value, and which components it has |
| FieldLaws.EvaluatorsBuildLowestTerms | externals/boost/boost/rational.hpp:988-1014 | the fractions the gcd and lcm evaluators construct are in lowest terms already, unless zero |
| FieldLaws.GcdOfIsGreatest | externals/boost/boost/rational.hpp:988-1000 | the gcd of two fractions is not negative, divides both with integer quotients, and every common divisor divides it |
| FieldLaws.LcmOfIsLeast | externals/boost/boost/rational.hpp:1002-1014 | the lcm of two fractions is not negative, a multiple of both, and divides every common multiple |
| FieldLaws.GcdTimesLcm | externals/boost/boost/rational.hpp:988-1014 | gcd times lcm is the absolute product, as stored components |
| ByteQueues.RunConservesBytes | externals/boost/boost/asio/basic_streambuf.hpp:215-307 | over every run of calls, taken and pending bytes are everything appended, in order, and the size never exceeds the cap |
| StreamBufs.StreamBuf.constructor | externals/boost/boost/asio/basic_streambuf.hpp:132-142 | an empty queue with the given cap, for every cap including zero |
| StreamBufs.StreamBuf.Prepare | externals/boost/boost/asio/basic_streambuf.hpp:215-220 | fails exactly when the size plus n exceeds the cap; otherwise the queue is unchanged and n bytes can be written; after a failure the input reads as before exactly when it repeats with the period of the bytes consumed |
| StreamBufs.StreamBuf.Fill | externals/boost/boost/asio/basic_streambuf.hpp:199-209 | storing into the prepared area does not change the queue |
| StreamBufs.StreamBuf.Commit | externals/boost/boost/asio/basic_streambuf.hpp:234-239 | appends the first bytes of the output area, at most all of it |
| StreamBufs.StreamBuf.Consume | externals/boost/boost/asio/basic_streambuf.hpp:248-255 | removes that many bytes from the front, at most all of them |
| StreamBufs.StreamBuf.Underflow | externals/boost/boost/asio/basic_streambuf.hpp:264-275 | shows the first pending byte without consuming it, or end of file for an empty queue |
| StreamBufs.StreamBuf.Overflow | externals/boost/boost/asio/basic_streambuf.hpp:284-307 | appends one byte, failing exactly when the queue is full, with the input kept; end of file is ignored |
| StreamBufs.StreamBuf.Reserve | externals/boost/boost/asio/basic_streambuf.hpp:309-347 | makes room by sliding, then growing by just what is missing; the contents are kept; when it fails, exactly which bytes have moved |
| StreamBufs.StreamBuf.ReadSizeHelper | externals/boost/boost/asio/basic_streambuf.hpp:353-360 | the largest size that Prepare grants within the given maximum and the spare capacity, or 512 bytes if that is less |
| StreamBufs.FailedShiftKeepsContents | externals/boost/boost/asio/basic_streambuf.hpp:322-341 | when the bytes readable after a failed call are the old ones |
| StreamBufs.FailedShiftAlwaysKeeps | externals/boost/boost/asio/basic_streambuf.hpp:322-341 | for which positions a failed call keeps every content |
| StreamBufs.FailedPrepareChangesInput | externals/boost/boost/asio/basic_streambuf.hpp:322-341 | a buffer of three bytes whose input sequence a failed prepare changes |
| StreamBufs.MoveToFront | externals/boost/boost/asio/basic_streambuf.hpp:322-327 | the overlapping move puts the bytes in front and leaves the rest |
| TokenFunctions.StepDecreases | externals/boost/boost/token_iterator.hpp:53-56 | twice the remaining input plus the pending flag falls with every token, although some calls consume nothing |
| TokenFunctions.RunsToTheEnd | externals/boost/boost/token_iterator.hpp:53-56 | a run that no exception ends has read the whole input, save that of offsets that do not wrap |
| Separators.EscapedListSeparator.Next | externals/boost/boost/token_functions.hpp:162-199 | one call is one step: token, position and flag, also after an exception |
| Separators.EscapedListSeparator.DoEscape | externals/boost/boost/token_functions.hpp:127-149 | which characters may follow an escape, what each stands for, and the two exceptions |
| Separators.CharSeparator.Next | externals/boost/boost/token_functions.hpp:459-529 | one call is one step under both policies, and the token is the same whether built as a slice or character by character |
| Separators.CharSeparator.NextNonEmpty | externals/boost/boost/token_functions.hpp:470-491 | the branch for drop_empty_tokens is its step |
| Separators.CharSeparator.NextPiece | externals/boost/boost/token_functions.hpp:492-528 | the branch for keep_empty_tokens is its step, also for the flag |
| Separators.CharSeparator.TakeRun | externals/boost/boost/token_functions.hpp:489-490 | stops at the first delimiter, having appended exactly the characters before it |
| Separators.OffsetSeparator.Next | externals/boost/boost/token_functions.hpp:367-406 | one call is one step, for offsets of any sign and both flags, with the same token in both forms |
| TokenIterators.TokenIterator.constructor | externals/boost/boost/token_iterator.hpp:70-80 | the first call is that of a reset object, whatever the function object did before: offset 0, no blank field pending; if its offsets are positive, the tokens to come are those of the run; an empty input has none |
| TokenIterators.TokenIterator.Increment | externals/boost/boost/token_iterator.hpp:53-56 | one more call; if offsets are positive, drops the current token from the tokens to come and keeps the state in which the function object will end |
| TokenIterators.TokenIterator.Dereference | externals/boost/boost/token_iterator.hpp:58-61 | the first of the tokens to come |
| TokenIterators.TokenIterator.AtEnd | externals/boost/boost/token_iterator.hpp:100 | true exactly when no token is to come; the function object is then in the final state of its run |
| CharSeparatorLaws.KeepIsSplit | externals/boost/boost/token_functions.hpp:492-528 | with keep_empty_tokens a run is the split at every delimiter, each kept delimiter a token of its own; also from the middle of a run |
| CharSeparatorLaws.SplitCount | externals/boost/boost/token_functions.hpp:492-528 | one token, plus one per dropped and two per kept delimiter |
| CharSeparatorLaws.SplitConcatenates | externals/boost/boost/token_functions.hpp:492-528 | the tokens concatenate to the input without its dropped delimiters |
| CharSeparatorLaws.SplitPieces | externals/boost/boost/token_functions.hpp:492-528 | every token is a kept delimiter or free of delimiters |
| CharSeparatorLaws.DropIsNonEmptySplit | externals/boost/boost/token_functions.hpp:470-491 | with drop_empty_tokens a run gives the non-empty tokens of the split |
| CharSeparatorLaws.DropTokens | externals/boost/boost/token_functions.hpp:470-491 | no token is empty, and they concatenate to the input without its dropped delimiters |
| CharSeparatorLaws.PoliciesDifferInEmptyTokens | externals/boost/boost/token_functions.hpp:459-529 | the policies agree up to empty tokens exactly when no character is both kept and dropped |
| CharSeparatorLaws.StaleFlag | externals/boost/boost/token_functions.hpp:457 | what a run that starts with the flag set yields, and when that is the split |
| CharSeparatorLaws.KeepEndsDone | externals/boost/boost/token_functions.hpp:494-528 | a keep_empty_tokens run ends with the flag set, from every position and state |
| CharSeparatorLaws.ReusedObject | externals/boost/boost/token_functions.hpp:457 | a used and reset object splits a second input like a fresh one exactly when that starts with no delimiter; otherwise it misses the first, blank token |
| EscapedListLaws.IterateIsParse | externals/boost/boost/token_functions.hpp:162-199 | the calls together read the same fields, and throw the same exception, as one automaton over the whole input |
| EscapedListLaws.FirstCharacter | externals/boost/boost/token_functions.hpp:162-199 | outside quotes, what an escape, a separator, a quote or any other character does to the rest of the run; together with the next row this fixes every run |
| EscapedListLaws.FirstQuoted | externals/boost/boost/token_functions.hpp:162-199 | the same inside quotes, where separators are part of the field and quotes need not be closed |
| EscapedListLaws.EscapeInField | externals/boost/boost/token_functions.hpp:127-149 | an escape behind plain characters fails exactly at the end or before a character that is not n and in none of the sets, and without a token |
| EscapedListLaws.RunFailsBehindEscape | externals/boost/boost/token_functions.hpp:127-149 | an exception leaves the position behind an escape character, and which of the two it is |
| EscapedListLaws.EveryRunEndsFresh | externals/boost/boost/token_functions.hpp:165-171 | every run leaves the flag cleared, also after an exception |
| EscapedListLaws.RunAfterReset | externals/boost/boost/token_functions.hpp:160 | whatever the flag was, a reset object runs like a fresh one |
| EscapedListLaws.TokensOfJoined | externals/boost/boost/token_functions.hpp:127-199 | what reading back quoted and joined fields gives, for every list of fields |
| EscapedListLaws.RoundTripCondition | externals/boost/boost/token_functions.hpp:127-199 | quoted fields always come back exactly when n is neither an escape nor a quote character |
| EscapedListLaws.DefaultRoundTrips | externals/boost/boost/token_functions.hpp:153-155 | so they do for the default characters |
| EscapedListLaws.BareRoundTripCondition | externals/boost/boost/token_functions.hpp:127-199 | when fields written with escapes only come back |
| OffsetLaws.WrappingConcatenates | externals/boost/boost/token_functions.hpp:367-406 | with positive offsets and wrapping, the tokens concatenate to the input |
| OffsetLaws.TokenLengths | externals/boost/boost/token_functions.hpp:367-406 | with the flag on, token k has the length of the k-th offset in cyclic order, but the last may be shorter |
| OffsetLaws.UnwrappedCoversPrefix | externals/boost/boost/token_functions.hpp:384-390 | without wrapping the tokens cover a prefix as long as the offsets together |
| OffsetLaws.RunAfterReset | externals/boost/boost/token_functions.hpp:363-406 | after reset, whatever offsets were used before, token k has the length of offset k in cyclic order and the tokens concatenate to the input, or to its prefix without wrapping |
| OffsetLaws.UnwrappedStops | externals/boost/boost/token_functions.hpp:384-390 | without wrapping a run leaves the position behind the last offset, or at the end of a shorter input, with either flag |
| OffsetLaws.OffsetsUsed | externals/boost/boost/token_functions.hpp:367-406 | after a run an object has used, in cyclic order, as many offsets as it returned tokens, with either flag |
| OffsetLaws.BlankToken | externals/boost/boost/token_functions.hpp:367-406 | an offset of zero or less yields a blank token and consumes nothing |
| OffsetLaws.PartialTokenSuppressed | externals/boost/boost/token_functions.hpp:367-406 | a run with the flag off yields the tokens of the run with the flag on, without the last one exactly when that lacks two or more characters |
| OffsetLaws.LastTokenLacks | externals/boost/boost/token_functions.hpp:392-402 | how many characters the last token lacks, from the length of the input alone |
| OffsetLaws.WholeTokensCondition | externals/boost/boost/token_functions.hpp:400-402 | with the flag off every token is whole exactly when the last cut is not one character short |
| OffsetLaws.PartialTokenReturned | externals/boost/boost/token_functions.hpp:400-402 | a cut token that is returned with the flag off |
| TransformWidths.TransformWidth.constructor | externals/boost/boost/archive/iterators/transform_width.hpp:110-121 | all bits of the input are still to be delivered |
| TransformWidths.TransformWidth.Fill | externals/boost/boost/archive/iterators/transform_width.hpp:133-171 | delivers the next bitsOut bits, filled up with zeros once the end was noted, and reads past the end exactly when bits are missing and it was not |
| TransformWidths.TransformWidth.Dereference | externals/boost/boost/archive/iterators/transform_width.hpp:68-72 | the word of the next bits, filling only when needed |
| TransformWidths.TransformWidth.AtEnd | externals/boost/boost/archive/iterators/transform_width.hpp:74-90 | narrowing ends when no bit is left, widening when no word is |
| TransformWidths.TakeBits | externals/boost/boost/archive/iterators/transform_width.hpp:154-161 | shift and mask take the top bits and leave the others |
| Bits.ShiftAndMask | externals/boost/boost/archive/iterators/transform_width.hpp:157-161 | shift and mask are quotient and remainder by a power of two |
| Bits.FlattenRegroup | externals/boost/boost/archive/iterators/transform_width.hpp:133-171 | regrouping with zero fill loses no bit |
| Bits.RegroupFlatten | externals/boost/boost/archive/iterators/transform_width.hpp:74-76 | regrouping that discards leftovers returns whole words unchanged |
| Base64.AlphabetIsLetters | externals/boost/boost/archive/iterators/base64_from_binary.hpp:41-52 | the 64 entries of the encoding table |
| Base64.TablesAreInverse | externals/boost/boost/archive/iterators/binary_from_base64.hpp:37-63 | the decoding table inverts the encoding table, which has no = |
| Base64.SixBitsExactly | externals/boost/boost/archive/iterators/binary_from_base64.hpp:37-63 | exactly which character is read as which sextet: the letters, = as 0, and nothing else |
| Base64.EncodeBase64 | src/json_protocol.cpp:21-26 | the iterators and the appended padding give the encoding of section 4 of RFC 4648, of length 4 * ceil(n / 3) |
| Base64.RegroupIsRfc4648 | src/json_protocol.cpp:21-26 | regrouping the bit stream, looking up and padding is the group-wise encoding of the standard |
| Base64.DecodeBase64 | src/json_protocol.cpp:13-19 | decoding of every string: bytes, invalid character, or a read past the end |
| Base64.RegroupIsBytewise | src/json_protocol.cpp:13-19 | regrouping sextets into bytes is the arithmetic of groups of four, short last groups included |
| Base64.DecodeExactly | src/json_protocol.cpp:13-19 | for every string: which exception or read past the end, or which bytes, in terms of its characters |
| Base64.RoundTrip | src/json_protocol.cpp:13-26 | decoding an encoding gives the bytes followed by one zero byte per = |
| Base64.RoundTripIsExact | src/json_protocol.cpp:13-26 | the round trip is exact for lengths that are multiples of three and for no others |
| Base64.EncodingIsInjective | src/json_protocol.cpp:21-26 | different byte strings have different encodings |
| Protocol.OnlyMemoryPackets | src/json_protocol.cpp:207-226 | exactly which messages are parsed as which kind of request, and that ids are kept |
| Protocol.ReadMessageIsParsed | src/json_protocol.cpp:121-125 | a read message arrives with its own id, address and length |
| Protocol.ParsedContents | src/json_protocol.cpp:106-125 | id, address, length and data of every request are those of its message |
| Protocol.ErrorsExactly | src/json_protocol.cpp:207-226 | which exception each message that is not parsed raises |
| Protocol.WriteMessageIsPadded | src/json_protocol.cpp:106-112 | the bytes a standard write message makes the server write, and when they are those asked for |
| Protocol.ReadRepliesAreFaithful | src/json_protocol.cpp:167-172 | different results of memory reads are serialized differently |
| Protocol.RepliesExactly | src/json_protocol.cpp:165-185 | version, id and text of every reply; the text of a read decodes to the bytes read, padded as for writes |
| Protocol.RepliesDiffer | src/json_protocol.cpp:165-185 | two responses serialize alike exactly when they are equal, or a finished write and a read of nothing with one id |
| RpcSystem.StepKeepsInvariant | src/emurpc.cpp:35-118 | every atomic step of every thread keeps the invariant on queues, history, ids, deliveries and memory writes |
| RpcSystem.RunKeepsInvariant | src/emurpc.cpp:35-118 | so does every interleaving |
| RpcGuarantees.EachRequestIsInOnePlace | src/emurpc.cpp:44-50 | an accepted request is queued in order, or was answered, lost its response, was drained, or threw and ended the process, exactly one of these; a handled one threw exactly when it is an oversized read |
| RpcGuarantees.AnswerIsResponse | src/emurpc.cpp:45-50 | the answer to an answered request is among the responses sent or waiting, with its client id, packet id and kind |
| RpcGuarantees.ResponsesFollowAcceptance | src/emurpc.cpp:38-42 | of two answered requests, the one accepted first has its response come out first |
| RpcGuarantees.ResponseHasRequest | src/emurpc.cpp:38-50 | every response sent or waiting answers exactly one accepted request |
| RpcGuarantees.HandledWriteIsMade | src/emurpc.cpp:102-108 | a handled memory write is made with its own address and data, whether or not its response is lost |
| RpcGuarantees.WritesFollowAcceptance | src/emurpc.cpp:102-108 | every write made comes from one handled request, in the order of acceptance |
| RpcGuarantees.SendReachesItsSession | src/rpc_server.cpp:124-128 | with unique ids, sending reaches the session that asked if it lives, and nobody else |
| RpcGuarantees.SendReachesLatestSession | src/rpc_server.cpp:124-128 | however many sessions were accepted, sending reaches the last one with the id of the session that asked, if it lives, and nobody else |
| RpcGuarantees.ReceiveAccepts | src/rpc_server.cpp:65-82 | a message that parses is accepted exactly when fewer than 1024 requests wait, and else dropped without a trace; one that does not parse ends the process |
| RpcGuarantees.SurvivesExactly | src/rpc_server.cpp:65-82 | the process survives a run exactly when every message received in it parses and no read handled in it is larger than a vector can be |
| RpcGuarantees.WhatTerminates | src/emurpc.cpp:95-99 | the process ends by a last message that does not parse, or by a last handled request that is an oversized read |
| RpcGuarantees.SafeMessages | src/rpc_server.cpp:65-82 | every run over a set of messages survives exactly when each message of the set parses and is no oversized read |
| RpcGuarantees.TerminatedRun | src/emurpc.cpp:95-99 | any other message ends the process in a run with one client that sends nothing else |
| RpcGuarantees.UnsafeMessages | src/protocol.h:118-119 | a message without a method and a read of 2^64 - 1 bytes are such messages; which reads are |
| RpcGuarantees.RoutingNeedsDistinctIds | src/rpc_server.cpp:136-146 | responses always reach the right session exactly when at most 2^32 sessions are accepted |
| RpcGuarantees.MisroutedRun | src/rpc_server.cpp:136-151 | a run with one more accept whose response goes to the wrong session |
| RpcGuarantees.LostInRequestLoop | src/emurpc.cpp:45-50 | how many responses a stretch of the request loop loses, under any interleaving, also when it ends with an exception |
| RpcGuarantees.CompletedHandles | src/emurpc.cpp:45-50 | all handled requests of a run are completed, but for one if the process was ended by it |
| RpcGuarantees.PassLosesResponses | src/emurpc.cpp:36-53 | when a pass loses responses, and that none is lost if nothing arrives |
| RpcGuarantees.LossyPass | src/emurpc.cpp:36-53 | a reachable pass that loses a response |
| RpcHistories.AliveExactly | src/rpc_server.cpp:136-146 | a session is alive after a run exactly when it was accepted and not closed in it |
| RpcHistories.DeparturesAdd | src/emurpc.cpp:45-50 | each handling takes one request off the queue and each drain as many as it says, and only drains discard |
| RpcHistories.HandledReadAnswers | src/emurpc.cpp:95-101 | a handled read answers as many bytes as it asks for, from its own address on |
| RpcHistories.HandledWriteAnswers | src/emurpc.cpp:102-108 | a handled write is made with its own address and data and answered with its id |
| RpcHistories.HandledOtherIsSilent | src/emurpc.cpp:92-117 | a request of any other kind has no answer and no effect |
| RpcHistories.AnswersReadMemory | src/emurpc.cpp:95-101 | over every run, the answer to a read holds what memory contained at its address when it was handled |
| RpcServer.Sessions.OnAccept | src/rpc_server.cpp:136-146 | files the new session under the next id and increments the id as a 32-bit number |
| RpcServer.Sessions.Send | src/rpc_server.cpp:124-128 | finds the live session behind an id; an unknown id gets an empty entry |
| RpcServer.Engine.OnRead | src/rpc_server.cpp:65-82 | pushes a parsed request; a full queue or an empty read changes nothing; an exception ends the process |
| RpcServer.Engine.SendResponses | src/emurpc.cpp:37-42 | the first loop is a run of sends that empties the response queue |
| RpcServer.Engine.HandleRequests | src/emurpc.cpp:45-50 | the second loop is a run of handles, through all waiting requests or up to the first oversized read, which ends the process |
| RpcServer.Engine.HandleRequest | src/emurpc.cpp:89-118 | one request is answered, a read with the bytes at its address, or loses its response to a full queue, has none, or throws for an oversized read; a memory write is made in each case |
| RpcServer.Engine.ProcessPass | src/emurpc.cpp:35-54 | an undisturbed pass sends everything waiting, handles everything waiting up to the first oversized read, and loses nothing |
| RpcServer.Engine.HandleTiming | src/emurpc.cpp:57-86 | without callbacks and blocking, discards every waiting request |

## Left out

- Fixed-width overflow of `rational` apart from the bound on `operator<` and the check on the denominator in `normalize`.
- Stream input and output of fractions, conversions between integer types, and the enable_if machinery.
- The bodies of `integer::gcd` and `integer::lcm`: the mathematical functions stand for them.
- Rationals.Rational.Equal: `operator==` with an integer and the operators derived by negation or swapping (`>`, `<=`, `>=`, `!=`) add nothing and have no members.
- `basic_streambuf` after a thrown length_error is described only up to that call; the casts to int in pbump and gbump, allocators and pointer overflow are not modelled. The vector's capacity is a parameter of ReadSizeHelper.
- The base-class members of std::streambuf that call overflow and underflow are not part of this model.
- TokenFunctions.Iterate: whole runs of `offset_separator` are for positive offsets, since others need not end; one call is modelled for all offsets.
- The deprecated `char_delimiters_separator`, and `token_iterator::equal`, which compares positions only.
- The locale: ispunct and isspace are parameters of CharSeparator.
- Base64.DecodeBase64: looks all characters up before regrouping, while the source looks each up when it is read; results and exceptions are the same. Bytes are numbers, so the signed intermediate char of the decoder does not appear.
- JSON text: messages are given as their members, None for an absent one, and enum members other than the method are only required to be present. MsgPack is a stub in the source.
- Real threads and the lock-free memory order: queue operations are atomic, although two threads pop the request queue. A decoder that reads past the end of its input, undefined in the source, counts as an exception.
- RpcServer.Engine.HandleTiming: `callbacks` is empty since nothing fills it, and the blocked branch and the Continue command are unfinished in the source.
- The memory of the guest: a read sees any memory, a write is recorded, and the two are not connected.
- Running out of memory (std::bad_alloc), which a read far below the limit of a vector can cause, and the length limits of the strings built when a response is serialized. MAX_VECTOR is the limit on 64-bit systems.
- Sockets, timers, strands, the websocket write buffer, and the C interface.
