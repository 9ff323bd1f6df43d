/**
 * ToQuantifier: renders a PatternInfo's Count stack as a regular-expression
 * repetition suffix, and a reader for such suffixes that shows the
 * rendering loses nothing it means to say.
 */
module Quantifiers {
  import opened Wrappers
  import opened Collections
  import opened DigitMath
  import opened PatternInfos

  /**
   * ToQuantifier: "" for an empty stack; otherwise, after reversing
   * ToArray() back to oldest-first, "{start,stop}" from the two oldest
   * entries, "{start}" for a single entry above 1, and "" for a single 0 or 1.
   */
  function ToQuantifier(digits: seq<int>): (r: string)
    ensures digits == [] ==> r == ""
    ensures |digits| == 1 ==> r == if digits[0] > 1 then "{" + IntToString(digits[0]) + "}" else ""
    ensures |digits| >= 2 ==> r == "{" + IntToString(digits[0]) + "," + IntToString(digits[1]) + "}"
  {
    if |digits| == 0 then ""
    else
      var d := Reversed(StackToArray(digits));
      ReversedTwice(digits);
      var start := d[0];
      var stop := if |d| > 1 then Some(d[1]) else None;
      if stop.Some? || start > 1 then
        "{" + IntToString(start) + (if stop.Some? then "," + IntToString(stop.value) else "") + "}"
      else ""
  }

  // ---------------------------------------------------------------------
  // Reading a quantifier back

  /** How many times the preceding element may repeat: from lo to hi. */
  datatype Repeat = Repeat(lo: nat, hi: nat)

  /** The repetitions a stack of free-digit counts asks for: its two oldest entries, or one entry, or once. */
  function Meaning(digits: seq<nat>): Repeat {
    if |digits| >= 2 then Repeat(digits[0], digits[1])
    else if |digits| == 1 && digits[0] > 1 then Repeat(digits[0], digits[0])
    else Repeat(1, 1)
  }

  predicate IsDigitChar(c: char) {
    '0' <= c <= '9'
  }

  /** A non-empty run of decimal digits, read in base 10. */
  function ParseNat(s: string): (r: Option<nat>)
    ensures r.Some? <==> s != [] && forall i :: 0 <= i < |s| ==> IsDigitChar(s[i])
  {
    if s != [] && forall i :: 0 <= i < |s| ==> IsDigitChar(s[i]) then
      var ds := seq(|s|, i requires 0 <= i < |s| => s[i] as int - 48);
      ValueBounds(ds);
      Some(Value(ds))
    else None
  }

  /** The first position of c in s. */
  function IndexOf(s: string, c: char): (r: Option<nat>)
    ensures r.None? <==> c !in s
    ensures r.Some? ==> r.value < |s| && s[r.value] == c && c !in s[..r.value]
  {
    if s == [] then None
    else if s[0] == c then Some(0)
    else match IndexOf(s[1..], c)
      case None => None
      case Some(i) => assert s[1..][..i] == s[1..i + 1]; Some(i + 1)
  }

  /** Reads "" as once, "{n}" as exactly n, "{a,b}" as a to b; anything else is not a quantifier. */
  function ParseQuantifier(q: string): Option<Repeat> {
    if q == "" then Some(Repeat(1, 1))
    else if |q| < 2 || q[0] != '{' || q[|q| - 1] != '}' then None
    else
      var body := q[1..|q| - 1];
      match IndexOf(body, ',')
      case None =>
        (match ParseNat(body)
         case Some(n) => Some(Repeat(n, n))
         case None => None)
      case Some(i) =>
        (match (ParseNat(body[..i]), ParseNat(body[i + 1..]))
         case (Some(lo), Some(hi)) => Some(Repeat(lo, hi))
         case _ => None)
  }

  /** The decimal string of a non-negative int is all digits and reads back as the number. */
  lemma ParseNatOfIntToString(n: nat)
    ensures forall i :: 0 <= i < |IntToString(n)| ==> IsDigitChar(IntToString(n)[i])
    ensures ParseNat(IntToString(n)) == Some(n)
  {
    var ds := DigitsOf(n);
    var s := IntToString(n);
    assert s == DigitString(ds);
    forall i | 0 <= i < |s|
      ensures IsDigitChar(s[i]) && s[i] as int - 48 == ds[i]
    {
      assert s[i] == DigitChar(ds[i]);
    }
    assert seq(|s|, i requires 0 <= i < |s| => s[i] as int - 48) == ds;
    ValueOfDigitsOf(n);
  }

  lemma NoCommaInIntToString(n: nat)
    ensures ',' !in IntToString(n)
  {
    ParseNatOfIntToString(n);
  }

  /** "{n}" reads back as exactly n. */
  lemma SingleRoundTrip(n: nat)
    ensures ParseQuantifier("{" + IntToString(n) + "}") == Some(Repeat(n, n))
  {
    var q := "{" + IntToString(n) + "}";
    ParseNatOfIntToString(n);
    NoCommaInIntToString(n);
    assert q[1..|q| - 1] == IntToString(n);
  }

  lemma PairOfStrings(sa: string, sb: string, a: nat, b: nat)
    requires ParseNat(sa) == Some(a) && ParseNat(sb) == Some(b) && ',' !in sa
    ensures ParseQuantifier("{" + sa + "," + sb + "}") == Some(Repeat(a, b))
  {
    var q := "{" + sa + "," + sb + "}";
    var body := q[1..|q| - 1];
    assert body == sa + "," + sb;
    assert body[..|sa|] == sa && body[|sa|] == ',' && body[|sa| + 1..] == sb;
    assert IndexOf(body, ',') == Some(|sa|);
  }

  /** "{a,b}" reads back as a to b. */
  lemma PairRoundTrip(a: nat, b: nat)
    ensures ParseQuantifier("{" + IntToString(a) + "," + IntToString(b) + "}") == Some(Repeat(a, b))
  {
    ParseNatOfIntToString(a);
    ParseNatOfIntToString(b);
    NoCommaInIntToString(a);
    PairOfStrings(IntToString(a), IntToString(b), a, b);
  }

  /** ToQuantifier is read back as the repetitions its stack asks for: the rendering is unambiguous. */
  lemma QuantifierRoundTrip(digits: seq<nat>)
    ensures ParseQuantifier(ToQuantifier(digits)) == Some(Meaning(digits))
  {
    if |digits| == 1 && digits[0] > 1 {
      SingleRoundTrip(digits[0]);
    } else if |digits| >= 2 {
      PairRoundTrip(digits[0], digits[1]);
    }
  }
}
