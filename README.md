# MAB.RegexUtils numeric-range compiler, modelled in Dafny

MAB.RegexUtils turns an integer range `[min, max]` into a regular expression
that matches exactly the decimal numbers of the range. Its core is
`Functions.cs` together with the `PatternInfo` record it fills in:

- `SplitToRanges` picks breakpoints: `max`, the "all nines" values obtained
  by setting the last k digits of `min` to 9, and the values one below
  `max + 1` with its last z digits set to 0. It collects them in a
  `HashSet` and sorts them. Consecutive breakpoints bound sub-ranges whose
  two ends have the same number of digits.
- `RangeToPattern` zips the digits of a sub-range's two bounds. Each
  position gives a digit, a character class such as `[3-7]` or `[34]`, or,
  for a full 0-9 position, nothing: the full positions are only counted,
  and a single `[0-9]` is appended at the end.
- `SplitToPatterns` walks the sub-ranges. A sub-range whose pattern equals
  the previous token's pattern is merged into it, in place, through the
  token's `Count` stack. `ToQuantifier` renders that stack as `{n}` or
  `{n,m}` into `OptimisedPattern`.
- `GenerateNumericRangeRegex` is the public entry point. It rejects
  `max <= min`, answers two shortcut cases (an alternation of the two numbers for neighbours and
  `[min-max]` below 10) and returns null otherwise, without calling
  `SplitToPatterns`.

The model has one Dafny module per concern:

- `Wrappers` (wrappers.dfy): Option, Result and the exceptions the code throws.
- `Collections` (collections.dfy): Array.Reverse, Array.Copy, Zip, and sorting a HashSet.
- `DigitMath` (digit_math.dfy): digit counts and digit arrays, `ReplaceLastNDigitsWithNines`, `CountZeros`.
- `PatternInfos` (pattern_info.dfy): the `PatternInfo` class and a value view of it.
- `RangeSplitter` (range_splitter.dfy): `SplitToRanges`.
- `RangePatterns` (range_pattern.dfy): `RangeToPattern`.
- `Quantifiers` (quantifier.dfy): `ToQuantifier`.
- `Merger` (merger.dfy): `SplitToPatterns`.
- `Entry` (entry.dfy): `GenerateNumericRangeRegex`.

The model follows the code's form:

- Loops are methods with loop invariants: GetDigits, Fill, the digit
  accumulation of ReplaceLastNDigitsWithNines, the two loops of
  SplitToRanges, and the loops of RangeToPattern and SplitToPatterns.
  Each method is proved against a specification function.
- `PatternInfo` is a class whose fields the merge updates in place.
  `SplitToPatterns` is proved equal to a fold over values (`Merger.Fold`).
- C# `int` is an unbounded integer kept inside `IsInt`. The one
  subtraction whose wrap-around matters (`max - min`) is wrapped
  explicitly (`Entry.Wrap32`).
- A `Stack<int>` is a sequence with its bottom first. So `Stack.ToArray()`
  is the reversed sequence.
- A thrown exception is a `Failure` of the matching kind.

## Model

| member | source | states |
|---|---|---|
| Entry.GenerateNumericRangeRegex | src/MAB.RegexUtils/Functions.cs:10-30 | fails with ArgumentOutOfRange exactly when max <= min; gives the post-processed alternation of min and max when max is min + 1; gives the post-processed `[min-max]` when max < 10 in any other case; gives null for every other valid range; postProcess may itself return null on the shortcut paths, and when it is missing (the identity) null comes exactly from the other ranges |
| Entry.Wrap32 | src/MAB.RegexUtils/Functions.cs:19 | the unchecked int subtraction: an int congruent to the exact difference modulo 2^32, and equal to it whenever it fits |
| Entry.WrappedDifference | src/MAB.RegexUtils/Functions.cs:19 | for int bounds with min < max, the wrapped max - min is 1 exactly when max == min + 1 (wrap-around never fakes the neighbour case) |
| Entry.PostProcessor | src/MAB.RegexUtils/Functions.cs:17 | with no postProcess given, the processor returns every string unchanged and never null |
| Entry.AlternationRoundTrip | src/MAB.RegexUtils/Functions.cs:21 | for non-negative neighbours, the alternation has its first bar right after the digits of min, and the parts before and after the bar read back as min and min + 1 |
| Entry.DigitClassShape | src/MAB.RegexUtils/Functions.cs:26 | for single-digit bounds, the class is the five characters '[', the digit of min, '-', the digit of max, ']' |
| Quantifiers.ToQuantifier | src/MAB.RegexUtils/Functions.cs:72-92 | an empty stack gives ""; a single entry n gives `{n}` when n > 1 and "" otherwise; two or more entries give `{a,b}` from the two oldest entries (ToArray is top first, then reversed back) |
| Quantifiers.QuantifierRoundTrip | src/MAB.RegexUtils/Functions.cs:72-92 | parsing the rendered quantifier gives back the repetition the stack asks for (from a to b, exactly n times, or once), so the rendering loses nothing |
| Quantifiers.ParseNatOfIntToString | src/MAB.RegexUtils/Functions.cs:88 | the decimal string of a non-negative int is all digits and reads back as the number |
| Quantifiers.SingleRoundTrip | src/MAB.RegexUtils/Functions.cs:88 | `{n}` parses as exactly n repetitions |
| Quantifiers.PairRoundTrip | src/MAB.RegexUtils/Functions.cs:88 | `{a,b}` parses as a to b repetitions |
| RangePatterns.RangeToPattern | src/MAB.RegexUtils/Functions.cs:94-138 | returns a fresh PatternInfo whose contents are RangeShape(min, max): the literal number with no count for min == max, and otherwise the per-position pieces, then `[0-9]` when some position is free, Count = [free positions] and Digits = the shorter width |
| RangePatterns.WalkPairs | src/MAB.RegexUtils/Functions.cs:109-125 | the loop builds exactly the concatenated pieces of all digit pairs and counts exactly the (0, 9) pairs |
| RangePatterns.RangeShapeCount | src/MAB.RegexUtils/Functions.cs:104-137 | for min != max: Digits is the smaller digit count of the two bounds; Count holds the number of 0-9 positions, between 0 and Digits; the pattern ends in `[0-9]` exactly when that number is positive |
| RangePatterns.LiteralPattern | src/MAB.RegexUtils/Functions.cs:96-101 | a one-number sub-range gives its decimal string, which holds no '[', with an empty Count and Digits 0 |
| RangePatterns.RangedPatternHasClass | src/MAB.RegexUtils/Functions.cs:104-137 | two different bounds of the same width give a pattern containing a character class, one Count entry and Digits equal to the width |
| RangePatterns.IntToStringInjective | src/MAB.RegexUtils/Functions.cs:100 | different non-negative numbers have different decimal strings |
| RangePatterns.FreeClassSuffix | src/MAB.RegexUtils/Functions.cs:109-130 | `[0-9]` closes the pattern of digit pairs exactly when some position runs over the full 0-9 |
| RangePatterns.NoFreeClassSuffix | src/MAB.RegexUtils/Functions.cs:113-120 | the pieces of digit pairs never end in `[0-9]`, so that suffix appears only when the free-position counter is positive |
| RangePatterns.ClassPieceShape | src/MAB.RegexUtils/Functions.cs:119 | a class piece is '[', the start digit, '-' unless the digits are adjacent, the stop digit and ']': `[ab]` or `[a-b]`, and never `[0-9]` outside the free pair |
| RangeSplitter.SplitToRanges | src/MAB.RegexUtils/Functions.cs:140-169 | for any int max and non-negative min: throws Overflow exactly when no all-nines candidate lands in (max, int.MaxValue], which is always the case at max = int.MaxValue; otherwise returns the breakpoints (max, the all-nines candidates within max, the zero candidates above min) strictly ascending and ending with max, each in [min, max] when min <= max, and just [max] when max < min |
| RangeSplitter.ReversedBreakpoints | src/MAB.RegexUtils/Functions.cs:145-162 | when max < min, no all-nines candidate and no zero candidate is kept, so max is the only breakpoint |
| RangeSplitter.ZeroStopsEmpty | src/MAB.RegexUtils/Functions.cs:155-162 | when max < min, the second loop adds nothing |
| RangeSplitter.ZeroLoopNeverExits | src/MAB.RegexUtils/Functions.cs:155-162 | for min <= -2 and max >= -1, every candidate of the second loop satisfies its condition, so the loop does not end while the int `zeros` counts up, about 2^31 turns |
| RangeSplitter.CollectNineStops | src/MAB.RegexUtils/Functions.cs:142-153 | for any int max, the first loop throws Overflow under the same condition, and otherwise leaves the set holding max and exactly the all-nines candidates within max |
| RangeSplitter.CollectZeroStops | src/MAB.RegexUtils/Functions.cs:155-162 | the second loop adds exactly the zero candidates that lie above min |
| RangeSplitter.OverflowAt | src/MAB.RegexUtils/Functions.cs:148-153 | a candidate above int.MaxValue reached while all earlier ones stayed within max means the first loop throws |
| RangeSplitter.OverflowAcrossNineDigits | src/MAB.RegexUtils/Functions.cs:148-153 | every range with min <= 999999999 <= max throws Overflow |
| RangeSplitter.NoOverflowBelowNineDigits | src/MAB.RegexUtils/Functions.cs:148-153 | every range with max < 999999999 is split without overflow |
| RangeSplitter.DigitBoundaryIsBreakpoint | src/MAB.RegexUtils/Functions.cs:148-153 | every number 10^j - 1 inside [min, max] is a breakpoint |
| RangeSplitter.BreakpointsInRange | src/MAB.RegexUtils/Functions.cs:146-162 | every breakpoint lies in [min, max] |
| RangeSplitter.SubrangeSameWidth | src/MAB.RegexUtils/Functions.cs:140-169 | each sub-range between consecutive breakpoints is non-empty, lies in [min, max], and has two bounds with the same number of digits |
| RangeSplitter.SubrangeCovers | src/MAB.RegexUtils/Functions.cs:140-169 | every x in [min, max] lies in exactly one sub-range |
| RangeSplitter.ZeroStopMonotone | src/MAB.RegexUtils/Functions.cs:155-162 | zeroing more digits of max + 1 gives a smaller candidate, never above max |
| RangeSplitter.ZeroStopBound | src/MAB.RegexUtils/Functions.cs:157-162 | a zero candidate above min can only come from zeroing fewer than 10 digits, so the second loop ends |
| DigitMath.NumberOfDigits | src/MAB.RegexUtils/Functions.cs:246-292 | the threshold ladder gives 1 to 19 for a non-negative long and 2 to 20 for a negative one |
| DigitMath.IntToString | src/MAB.RegexUtils/Functions.cs:100 | int.ToString() under a culture whose NegativeSign is '-': a non-empty string that starts with '-' exactly for a negative number and is decimal digits after that |
| DigitMath.NumberOfDigitsIsDecimalLength | src/MAB.RegexUtils/Functions.cs:246-292 | for every long, the threshold ladder gives the length of its decimal string: the digit count of n, plus one for the minus sign |
| DigitMath.NumberOfDigitsAndAbs | src/MAB.RegexUtils/Functions.cs:237-244 | returns abs(n) and its digit count |
| DigitMath.GetDigits | src/MAB.RegexUtils/Functions.cs:214-235 | the array holds the decimal digits of abs(n), most significant first, and is [0] for 0 |
| DigitMath.PushLowDigits | src/MAB.RegexUtils/Functions.cs:224-230 | the division loop fills the array with the digits of abs, least significant first |
| DigitMath.Fill | src/MAB.RegexUtils/Functions.cs:294-300 | every element of the array becomes v |
| DigitMath.ValueOfDigitsOf | src/MAB.RegexUtils/Functions.cs:214-235 | reading the digits of n back in base 10 gives n |
| DigitMath.DigitsOfValue | src/MAB.RegexUtils/Functions.cs:214-235 | a digit sequence without a leading zero is the digit array of its own value |
| DigitMath.ReplaceLastNDigitsWithNines | src/MAB.RegexUtils/Functions.cs:174-212 | returns abs(n) with its last k digits set to 9 (k nines when abs(n) is shorter), and throws Overflow exactly when that value exceeds int.MaxValue |
| DigitMath.TrailingNinesDigits | src/MAB.RegexUtils/Functions.cs:176-197 | the new array is the digits with the last k replaced by 9, or k nines when there are fewer than k digits |
| DigitMath.ReadDigits | src/MAB.RegexUtils/Functions.cs:199-204 | the accumulation loop computes the base-10 value of the array |
| DigitMath.NinesValueIsLeast | src/MAB.RegexUtils/Functions.cs:174-212 | the trailing-nines value is the least x >= n whose last k digits are all 9 |
| DigitMath.NinesValueDigits | src/MAB.RegexUtils/Functions.cs:174-212 | the digits of the trailing-nines value are exactly n's digits with the last k overwritten by 9 |
| DigitMath.NinesValueMonotone | src/MAB.RegexUtils/Functions.cs:174-212 | replacing more digits never gives a smaller value, so the first loop's candidates only grow |
| DigitMath.NinesValueLowerBounds | src/MAB.RegexUtils/Functions.cs:174-212 | the trailing-nines value is at least n and at least 10^k - 1 |
| DigitMath.CountZeros | src/MAB.RegexUtils/Functions.cs:171-172 | n less its truncated remainder: a multiple of 10^zeros, on the side of zero and within 10^zeros of n |
| DigitMath.CountZerosIsGreatest | src/MAB.RegexUtils/Functions.cs:171-172 | for n >= 0 it is the greatest multiple of 10^zeros that is at most n |
| DigitMath.CountZerosMonotone | src/MAB.RegexUtils/Functions.cs:171-172 | zeroing more digits never gives a larger value |
| Collections.ReverseInPlace | src/MAB.RegexUtils/Functions.cs:232 | Array.Reverse leaves the array holding its old contents in reverse order |
| Collections.ReversedTwice | src/MAB.RegexUtils/Functions.cs:79-81 | reversing twice restores a sequence, so ToQuantifier sees the stack bottom first |
| Collections.Copy | src/MAB.RegexUtils/Functions.cs:190 | Array.Copy overwrites exactly the target slice with the source slice |
| Collections.Insert | src/MAB.RegexUtils/Functions.cs:164-166 | HashSet.Add into an ascending sequence keeps it strictly ascending and adds exactly x |
| Collections.SortAscending | src/MAB.RegexUtils/Functions.cs:164-166 | the sorted array of a HashSet is strictly ascending and holds exactly its elements |
| Collections.Zip | src/MAB.RegexUtils/Functions.cs:104 | Zip pairs the elements position by position and stops at the shorter input |
| PatternInfos.PatternInfo.constructor | src/MAB.RegexUtils/PatternInfo.cs:5-15 | a new PatternInfo has the given Pattern, a null OptimisedPattern, an empty Count stack and Digits 0 |
| PatternInfos.StackToArray | src/MAB.RegexUtils/Functions.cs:51 | Stack.ToArray() has one element per stack entry and starts with the top, the element the merge pushes |
| PatternInfos.PatternInfo.Push | src/MAB.RegexUtils/PatternInfo.cs:11-12 | Count.Push puts v on top and changes nothing else |
| PatternInfos.PatternInfo.Pop | src/MAB.RegexUtils/PatternInfo.cs:11-12 | Count.Pop returns the top and removes it, on a non-empty stack, and changes nothing else |
| PatternInfos.PatternInfo.SetOptimisedPattern | src/MAB.RegexUtils/PatternInfo.cs:9 | the setter changes OptimisedPattern only |
| PatternInfos.PushThenPop | src/MAB.RegexUtils/PatternInfo.cs:11-12 | a Pop right after a Push returns the pushed value and restores the PatternInfo |
| Merger.SplitToPatterns | src/MAB.RegexUtils/Functions.cs:32-70 | throws Overflow exactly when SplitToRanges does; otherwise returns a fresh array whose contents are the fold of the sub-ranges' RangeToPattern tokens; every element is a new PatternInfo and no PatternInfo appears twice |
| Merger.WalkRanges | src/MAB.RegexUtils/Functions.cs:35-67 | the loop over the sub-ranges, updating previous in place, leaves a token list whose contents are the fold of the sub-range tokens, made of new PatternInfo objects, none listed twice |
| Merger.Advance | src/MAB.RegexUtils/Functions.cs:41-66 | one iteration takes the list from the fold of the first i sub-ranges to the fold of the first i + 1, and only ever appends one new PatternInfo not yet in the list |
| Merger.Turn | src/MAB.RegexUtils/Functions.cs:44-66 | merging into previous or appending current is one step of the fold on the tokens' contents; the list keeps its prefix and grows only by current, which then becomes previous |
| Merger.Absorb | src/MAB.RegexUtils/Functions.cs:44-57 | the match branch leaves the list unchanged, with previous, its last element, holding the merge: one step of the fold |
| Merger.Append | src/MAB.RegexUtils/Functions.cs:60-66 | the other branch renders current's OptimisedPattern and appends it: one step of the fold |
| Merger.AllNewDistinct | src/MAB.RegexUtils/Functions.cs:42-62 | a list built by appending objects RangeToPattern has just made holds only new objects, none twice |
| Merger.MergeInto | src/MAB.RegexUtils/Functions.cs:46-53 | the in-place merge (pop when two entries, push current's top, re-render) yields exactly Merge of the two tokens |
| Merger.ToArray | src/MAB.RegexUtils/Functions.cs:69 | List.ToArray gives a fresh array of the same tokens in order |
| Merger.Merge | src/MAB.RegexUtils/Functions.cs:44-57 | fails with IndexOutOfRange exactly when current's stack is empty; keeps Pattern and Digits; a stack of at most two becomes its oldest entry followed by current's top; OptimisedPattern is the pattern and its quantifier |
| Merger.Emit | src/MAB.RegexUtils/Functions.cs:60 | a token that starts a new run keeps its fields and gets the pattern plus its quantifier |
| Merger.NoLiteralMerge | src/MAB.RegexUtils/Functions.cs:44 | two consecutive same-width sub-ranges with equal patterns both have a count, so a literal is never merged |
| Merger.TokensSucceed | src/MAB.RegexUtils/Functions.cs:52 | on every split of a valid range the walk succeeds and yields at least one token: `ToArray()[0]` never fails |
| Merger.SplitTokens | src/MAB.RegexUtils/Functions.cs:32-70 | each OptimisedPattern is its pattern and quantifier over at most two counts; the token patterns are the sub-range patterns with runs of equal neighbours collapsed; no two neighbouring tokens share a pattern |
| Merger.FoldCollapsesPatterns | src/MAB.RegexUtils/Functions.cs:44-66 | the walk's patterns are the input patterns with equal neighbours collapsed into one |
| Merger.CollapseFacts | src/MAB.RegexUtils/Functions.cs:44-66 | collapsing keeps every pattern that occurs and leaves no equal neighbours |
| Merger.FoldRendered | src/MAB.RegexUtils/Functions.cs:51-60 | every token's OptimisedPattern is its pattern followed by ToQuantifier of its stack, which holds at most two entries |
| Merger.MergedQuantifier | src/MAB.RegexUtils/Functions.cs:46-53 | after a merge, the quantifier reads back as the range from the run's first count to the newest one |

## Left out

- Negative ranges: SplitToRanges and SplitToPatterns are modelled only
  for 0 <= min. For negative bounds `GetDigits` drops the sign, and
  `Math.Abs(int.MinValue)` throws. GenerateNumericRangeRegex itself takes
  any ints.
- RangeSplitter.SplitToRanges requires 0 <= min. For a negative min
  the second loop does not end within 2^31 turns: with min <= -2 and
  max >= -1 every candidate `CountZeros(max + 1, zeros) - 1` lies in
  [-1, max], and it is -1 once 10^zeros exceeds max + 1, so it stays
  inside (min, max]
  (RangeSplitter.ZeroLoopNeverExits). For SplitToRanges(-5, 20) the
  candidates are 19, -1, -1, ... Once the int `zeros` wraps, the outcome
  depends on how the runtime converts the double `n % 0.0` (NaN) to int,
  and that is not modelled.
- Merger.SplitToPatterns requires min <= max. For max < min the source
  still runs: SplitToRanges gives [max], and the single token is
  `RangeToPattern(min, max)`, e.g. `[2-1]0` for (20, 10), or an
  OverflowException from `Math.Abs` when max is int.MinValue. The model's
  walk relates each sub-range to the ascending breakpoints of a range
  with min <= max, so that path is not modelled.
- DigitMath.ReplaceLastNDigitsWithNines requires digitsToReplace <= 18.
  Beyond that, `(long)Math.Pow(10, ...)` and the long accumulator leave
  exact arithmetic. SplitToRanges never asks for more than 10.
- Floating point: `Math.Pow` and the double `%` in CountZeros are exact
  for every power of ten an int reaches. They are modelled as integer
  arithmetic with C#'s truncated remainder.
- HashSet and Array.Sort are modelled as one function (a duplicate-free
  ascending sequence). Hash order is not modelled.
- Entry.GenerateNumericRangeRegex: the postProcess delegate is a Dafny
  function value that returns an Option, so a null result is modelled.
  An exception thrown by the delegate, and any side effects it has, are
  not modelled.
- What the produced pattern matches: no regex engine is modelled. The
  properties are about the strings.
- GenerateNumericRangeRegex never calls SplitToPatterns: for
  max - min >= 2 and max >= 10 it returns null, and the model does the
  same.
- Where the documented behaviour and the code differ, the model follows
  the code:
  - ToQuantifier renders the two OLDEST stack entries as `{first,newest}`,
    not the most recent entry first.
  - GenerateNumericRangeRegex returns its shortcut answers and null as
    written.
- For a negative min with max < 10, GenerateNumericRangeRegex builds a
  class such as `[-3-5]`. Under a culture whose NegativeSign is '-', the
  model gives the same string. Entry.DigitClassShape describes only
  single-digit bounds.
- DigitMath.IntToString renders a negative number with the invariant
  culture's '-'. `int.ToString()` and the string interpolations of
  GenerateNumericRangeRegex use the current culture's NegativeSign, which
  is U+2212 under some cultures (sv-SE, fi-FI). Culture settings are
  outside the model. Non-negative numbers, the only ones SplitToPatterns
  sees, have no sign in any culture.
