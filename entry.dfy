/**
 * GenerateNumericRangeRegex: the public entry point. It rejects an empty or
 * reversed range and answers two shortcut cases; every other range gives
 * null, without reaching SplitToPatterns.
 */
module Entry {
  import opened Wrappers
  import opened DigitMath
  import opened Quantifiers

  const TwoTo32: int := 0x1_0000_0000

  /** An int subtraction in C#'s default unchecked context: the exact difference wrapped into 32 bits. */
  function Wrap32(x: int): (r: int)
    ensures IsInt(r) && (x - r) % TwoTo32 == 0
    ensures IsInt(x) ==> r == x
  {
    var m := x % TwoTo32;
    if m > IntMax then m - TwoTo32 else m
  }

  /** For min < max, the wrapped max - min is 1 exactly when max follows min. */
  lemma WrappedDifference(min: int, max: int)
    requires IsInt(min) && IsInt(max) && min < max
    ensures Wrap32(max - min) == 1 <==> max == min + 1
  {
    var d := max - min;
    assert 0 < d < TwoTo32;
    if d > IntMax {
      assert d % TwoTo32 == d;
    }
  }

  /** `$"{min}|{max}"`. */
  function Alternation(min: int, max: int): string {
    IntToString(min) + "|" + IntToString(max)
  }

  /** `$"[{min}-{max}]"`. */
  function DigitClass(min: int, max: int): string {
    "[" + IntToString(min) + "-" + IntToString(max) + "]"
  }

  /**
   * `postProcess ?? (s => s)`. A Func<string, string> may return null, so
   * the delegate's result is an Option: None stands for null.
   */
  function PostProcessor(postProcess: Option<string -> Option<string>>): (f: string -> Option<string>)
    ensures postProcess.None? ==> forall s :: f(s) == Some(s)
  {
    if postProcess.Some? then postProcess.value else s => Some(s)
  }

  /**
   * GenerateNumericRangeRegex: ArgumentOutOfRange when max <= min; what
   * postProcess makes of the alternation for two neighbouring numbers, or
   * of the class when max is below 10, null included; null (None) otherwise.
   */
  function GenerateNumericRangeRegex(min: int, max: int, postProcess: Option<string -> Option<string>>): (r: Result<Option<string>>)
    requires IsInt(min) && IsInt(max)
    ensures r.Failure? <==> max <= min
    ensures r.Failure? ==> r.error == ArgumentOutOfRange
    ensures r.Success? && max == min + 1 ==> r.value == PostProcessor(postProcess)(Alternation(min, max))
    ensures r.Success? && max != min + 1 && max < 10 ==> r.value == PostProcessor(postProcess)(DigitClass(min, max))
    ensures r.Success? && max != min + 1 && 10 <= max ==> r.value == None
    ensures postProcess.None? ==> (r == Success(None) <==> min < max && max != min + 1 && 10 <= max)
  {
    if max <= min then Failure(ArgumentOutOfRange)
    else
      var post := PostProcessor(postProcess);
      WrappedDifference(min, max);
      if Wrap32(max - min) == 1 then Success(post(Alternation(min, max)))
      else if max < 10 then Success(post(DigitClass(min, max)))
      else Success(None)
  }

  // ---------------------------------------------------------------------
  // Reading the shortcut answers back

  lemma NoBarInIntToString(n: nat)
    ensures '|' !in IntToString(n)
  {
    ParseNatOfIntToString(n);
  }

  /**
   * For non-negative neighbours, the alternation splits at its only '|'
   * into the decimal strings of min and max, which read back as the two
   * numbers.
   */
  lemma AlternationRoundTrip(min: nat)
    requires IsInt(min + 1)
    ensures var t := Alternation(min, min + 1); var k := |IntToString(min)|;
      && IndexOf(t, '|') == Some(k)
      && ParseNat(t[..k]) == Some(min) && ParseNat(t[k + 1..]) == Some(min + 1)
  {
    var t := Alternation(min, min + 1);
    var a, b := IntToString(min), IntToString(min + 1);
    var k := |a|;
    NoBarInIntToString(min);
    ParseNatOfIntToString(min);
    ParseNatOfIntToString(min + 1);
    assert t[..k] == a && t[k] == '|' && t[k + 1..] == b;
    IndexOfFirst(t, '|', k);
  }

  lemma IndexOfFirst(s: string, c: char, k: nat)
    requires k < |s| && s[k] == c && c !in s[..k]
    ensures IndexOf(s, c) == Some(k)
  {
    if k > 0 {
      assert s[0] in s[..k];
      assert s[1..][..k - 1] == s[1..k];
      assert s[1..k] <= s[..k][1..];
      IndexOfFirst(s[1..], c, k - 1);
    }
  }

  /**
   * For single-digit bounds the class is '[', the digit of min, '-', the
   * digit of max and ']': a character range from min to max.
   */
  lemma DigitClassShape(min: int, max: int)
    requires 0 <= min < max < 10
    ensures DigitClass(min, max) == ['[', DigitChar(min), '-', DigitChar(max), ']']
  {
    assert IntToString(min) == [DigitChar(min)];
    assert IntToString(max) == [DigitChar(max)];
  }
}
