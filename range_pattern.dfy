/**
 * RangeToPattern: the pattern for one sub-range, built from the zipped
 * digits of its two bounds.
 */
module RangePatterns {
  import opened Wrappers
  import opened Collections
  import opened DigitMath
  import opened PatternInfos

  /**
   * What one position contributes: the digit itself when both bounds agree,
   * nothing for a full 0-9 position (it is counted instead), and a
   * character class otherwise, without the dash when the digits are adjacent.
   */
  function Piece(startDigit: int, stopDigit: int): (piece: string) {
    if startDigit == stopDigit then IntToString(startDigit)
    else if startDigit != 0 || stopDigit != 9 then
      "[" + IntToString(startDigit) + (if stopDigit - startDigit == 1 then "" else "-") + IntToString(stopDigit) + "]"
    else ""
  }

  /** The pieces of all positions, in order. */
  function PairsPattern(zip: seq<(int, int)>): (pattern: string) {
    if zip == [] then "" else PairsPattern(zip[..|zip| - 1]) + Piece(zip[|zip| - 1].0, zip[|zip| - 1].1)
  }

  /** How many positions run over the full 0-9. */
  function FreeCount(zip: seq<(int, int)>): nat {
    if zip == [] then 0 else FreeCount(zip[..|zip| - 1]) + (if zip[|zip| - 1] == (0, 9) then 1 else 0)
  }

  /** The class that stands for all free positions, appended once. */
  const FreeClass: string := "[0-9]"

  /** The PatternInfo RangeToPattern returns, as a value. */
  function RangeShape(min: int, max: int): (shape: Token) {
    if min == max then Token(IntToString(min), None, [], 0)
    else
      var zip := Zip(DigitsOf(Abs(min)), DigitsOf(Abs(max)));
      var count := FreeCount(zip);
      Token(PairsPattern(zip) + (if count > 0 then FreeClass else ""), None, [count], |zip|)
  }

  /** RangeToPattern: walks the zipped digits of min and max with a StringBuilder and a counter. */
  method RangeToPattern(min: int, max: int) returns (info: PatternInfo)
    requires IsInt(min) && IsInt(max)
    requires min == max || (min != IntMin && max != IntMin)
    ensures fresh(info) && info.Snapshot() == RangeShape(min, max)
  {
    if min == max {
      info := new PatternInfo(IntToString(min));
      return;
    }

    var first := GetDigits(min);
    var second := GetDigits(max);
    var zip := Zip(first[..], second[..]);
    var digits := |zip|;
    var pattern, count := WalkPairs(zip);

    if count > 0 {
      pattern := pattern + FreeClass;
    }

    info := new PatternInfo(pattern);
    info.Count := [count];
    info.Digits := digits;
  }

  /** The loop of RangeToPattern over the zipped digit pairs. */
  method WalkPairs(zip: seq<(int, int)>) returns (pattern: string, count: int)
    ensures pattern == PairsPattern(zip) && count == FreeCount(zip)
  {
    pattern := "";
    count := 0;
    for i := 0 to |zip|
      invariant pattern == PairsPattern(zip[..i]) && count == FreeCount(zip[..i])
    {
      var (startDigit, stopDigit) := zip[i];
      PairsStep(zip, i);
      if startDigit == stopDigit {
        var digit := IntToString(startDigit);
        assert digit == Piece(startDigit, stopDigit);
        pattern := pattern + digit;
      } else if startDigit != 0 || stopDigit != 9 {
        var cls := "[" + IntToString(startDigit) + (if stopDigit - startDigit == 1 then "" else "-") + IntToString(stopDigit) + "]";
        assert cls == Piece(startDigit, stopDigit);
        pattern := pattern + cls;
      } else {
        assert Piece(startDigit, stopDigit) == "";
        count := count + 1;
      }
    }
    assert zip[..|zip|] == zip;
  }

  lemma PairsStep(zip: seq<(int, int)>, i: nat)
    requires i < |zip|
    ensures PairsPattern(zip[..i + 1]) == PairsPattern(zip[..i]) + Piece(zip[i].0, zip[i].1)
    ensures FreeCount(zip[..i + 1]) == FreeCount(zip[..i]) + (if zip[i] == (0, 9) then 1 else 0)
  {
    assert zip[..i + 1][..i] == zip[..i];
  }

  // ---------------------------------------------------------------------
  // What the pattern of a sub-range looks like

  /** A decimal string of a non-negative number holds only digit characters. */
  lemma IntToStringDigits(n: nat)
    ensures forall i :: 0 <= i < |IntToString(n)| ==> '0' <= IntToString(n)[i] <= '9'
  {
  }

  /** Different non-negative numbers have different decimal strings. */
  lemma IntToStringInjective(a: nat, b: nat)
    requires IntToString(a) == IntToString(b)
    ensures a == b
  {
    var da, db := DigitsOf(a), DigitsOf(b);
    assert |da| == |IntToString(a)|;
    forall i | 0 <= i < |da|
      ensures da[i] == db[i]
    {
      assert IntToString(a)[i] == DigitChar(da[i]);
      assert IntToString(b)[i] == DigitChar(db[i]);
    }
    assert da == db;
    ValueOfDigitsOf(a);
    ValueOfDigitsOf(b);
  }

  /** Every position whose pair is neither equal nor 0-9 puts a '[' into the pattern. */
  lemma {:induction false} ClassPieceInPattern(zip: seq<(int, int)>, p: nat)
    requires p < |zip| && zip[p].0 != zip[p].1 && zip[p] != (0, 9)
    ensures '[' in PairsPattern(zip)
  {
    var last := |zip| - 1;
    if p == last {
      var piece := Piece(zip[last].0, zip[last].1);
      assert piece[0] == '[';
      assert PairsPattern(zip)[|PairsPattern(zip[..last])|] == '[';
    } else {
      ClassPieceInPattern(zip[..last], p);
      var k :| 0 <= k < |PairsPattern(zip[..last])| && PairsPattern(zip[..last])[k] == '[';
      assert PairsPattern(zip)[k] == '[';
    }
  }

  /** Every 0-9 position is counted. */
  lemma {:induction false} FreePositionCounted(zip: seq<(int, int)>, p: nat)
    requires p < |zip| && zip[p] == (0, 9)
    ensures FreeCount(zip) > 0
  {
    if p < |zip| - 1 {
      FreePositionCounted(zip[..|zip| - 1], p);
    }
  }

  /** The digits of two different numbers of the same width differ somewhere. */
  lemma DifferingPosition(lo: nat, hi: nat) returns (p: nat)
    requires lo != hi && DigitCount(lo) == DigitCount(hi)
    ensures p < DigitCount(lo) && DigitsOf(lo)[p] != DigitsOf(hi)[p]
  {
    ValueOfDigitsOf(lo);
    ValueOfDigitsOf(hi);
    var da, db := DigitsOf(lo), DigitsOf(hi);
    assert da != db;
    p :| 0 <= p < |da| && da[p] != db[p];
  }

  /**
   * The pattern of a sub-range whose bounds differ but have the same width
   * holds a character class, so it never equals a literal number.
   */
  lemma RangedPatternHasClass(lo: nat, hi: nat)
    requires lo != hi && DigitCount(lo) == DigitCount(hi)
    ensures '[' in RangeShape(lo, hi).pattern
    ensures |RangeShape(lo, hi).count| == 1 && RangeShape(lo, hi).digits == DigitCount(lo)
  {
    var zip := Zip(DigitsOf(lo), DigitsOf(hi));
    var p := DifferingPosition(lo, hi);
    assert zip[p] == (DigitsOf(lo)[p], DigitsOf(hi)[p]);
    ClassInZipPattern(zip, p);
  }

  /** A position whose digits differ puts a '[' into the pattern: its own class, or the closing "[0-9]". */
  lemma ClassInZipPattern(zip: seq<(int, int)>, p: nat)
    requires p < |zip| && zip[p].0 != zip[p].1
    ensures '[' in PairsPattern(zip) + (if FreeCount(zip) > 0 then FreeClass else "")
  {
    var body := PairsPattern(zip);
    if zip[p] == (0, 9) {
      FreePositionCounted(zip, p);
      assert (body + FreeClass)[|body|] == '[';
    } else {
      ClassPieceInPattern(zip, p);
      var k :| 0 <= k < |body| && body[k] == '[';
      assert (body + (if FreeCount(zip) > 0 then FreeClass else ""))[k] == '[';
    }
  }

  /** A one-number sub-range gives the number itself, no count and no width. */
  lemma LiteralPattern(n: nat)
    ensures RangeShape(n, n).pattern == IntToString(n) && '[' !in IntToString(n)
    ensures RangeShape(n, n).count == [] && RangeShape(n, n).digits == 0
  {
    IntToStringDigits(n);
  }

  /**
   * For bounds of any width, Digits is the length of the shorter digit
   * array, Count holds the number of 0-9 positions, and "[0-9]" closes the
   * pattern exactly when that number is positive.
   */
  lemma RangeShapeCount(min: int, max: int)
    requires min != max
    ensures var shape := RangeShape(min, max);
      && shape.digits == (if DigitCount(Abs(min)) < DigitCount(Abs(max)) then DigitCount(Abs(min)) else DigitCount(Abs(max)))
      && shape.count == [FreeCount(Zip(DigitsOf(Abs(min)), DigitsOf(Abs(max))))]
      && 0 <= shape.count[0] <= shape.digits
      && (shape.count[0] > 0 <==> |shape.pattern| >= 5 && shape.pattern[|shape.pattern| - 5..] == FreeClass)
  {
    var zip := Zip(DigitsOf(Abs(min)), DigitsOf(Abs(max)));
    FreeCountBound(zip);
    FreeClassSuffix(zip);
  }

  /** "[0-9]" closes the pattern of digit pairs exactly when some position is free. */
  lemma FreeClassSuffix(zip: seq<(int, int)>)
    requires DigitPairs(zip)
    ensures var p := PairsPattern(zip) + (if FreeCount(zip) > 0 then FreeClass else "");
      FreeCount(zip) > 0 <==> |p| >= 5 && p[|p| - 5..] == FreeClass
  {
    var body := PairsPattern(zip);
    if FreeCount(zip) > 0 {
      var p := body + FreeClass;
      assert p[|p| - 5..] == FreeClass;
    } else if |body| >= 5 {
      NoFreeClassSuffix(zip);
    }
  }

  lemma {:induction false} FreeCountBound(zip: seq<(int, int)>)
    ensures FreeCount(zip) <= |zip|
  {
    if zip != [] {
      FreeCountBound(zip[..|zip| - 1]);
    }
  }

  predicate DigitPairs(zip: seq<(int, int)>) {
    forall i :: 0 <= i < |zip| ==> 0 <= zip[i].0 <= 9 && 0 <= zip[i].1 <= 9
  }

  lemma SingleDigitString(d: int)
    requires 0 <= d <= 9
    ensures IntToString(d) == [DigitChar(d)]
  {
  }

  /** A class piece of two digits is "[ab]" or "[a-b]", and only the free pair would give "[0-9]". */
  lemma ClassPieceShape(a: int, b: int)
    requires 0 <= a <= 9 && 0 <= b <= 9 && a != b && (a, b) != (0, 9)
    ensures Piece(a, b) == ['[', DigitChar(a)] + (if b - a == 1 then [] else ['-']) + [DigitChar(b), ']']
    ensures var p := Piece(a, b);
      && p[0] == '[' && p[|p| - 1] == ']' && (|p| == 4 || (|p| == 5 && p != FreeClass))
  {
    SingleDigitString(a);
    SingleDigitString(b);
    var p := Piece(a, b);
    assert p[1] == DigitChar(a) && p[|p| - 2] == DigitChar(b);
  }

  /**
   * No pattern of digit pairs ends in "[0-9]": a digit piece ends in a
   * digit, a dashed class is "[0-9]" only for the free pair, and an
   * undashed class "[ab]" is preceded by something other than '['.
   */
  lemma {:induction false} NoFreeClassSuffix(zip: seq<(int, int)>)
    requires DigitPairs(zip) && |PairsPattern(zip)| >= 5
    ensures PairsPattern(zip)[|PairsPattern(zip)| - 5..] != FreeClass
  {
    var last := |zip| - 1;
    var a, b := zip[last].0, zip[last].1;
    var pre := PairsPattern(zip[..last]);
    assert PairsPattern(zip) == pre + Piece(a, b);
    if (a, b) == (0, 9) {
      assert PairsPattern(zip) == pre;
      NoFreeClassSuffix(zip[..last]);
    } else {
      NoFreeClassAfterPiece(pre, a, b);
    }
  }

  /** Text that ends in the piece of a pair other than (0, 9) does not end in "[0-9]". */
  lemma NoFreeClassAfterPiece(pre: string, a: int, b: int)
    requires 0 <= a <= 9 && 0 <= b <= 9 && (a, b) != (0, 9) && |pre + Piece(a, b)| >= 5
    ensures var s := pre + Piece(a, b); s[|s| - 5..] != FreeClass
  {
    var piece := Piece(a, b);
    var s := pre + piece;
    if a == b {
      SingleDigitString(a);
      assert s[|s| - 5..][4] == s[|s| - 1] == DigitChar(a) != FreeClass[4];
    } else {
      ClassPieceShape(a, b);
      if |piece| == 5 {
        assert s[|s| - 5..] == piece;
      } else {
        assert s[|s| - 5..][1] == s[|s| - 4] == piece[0] != FreeClass[1];
      }
    }
  }
}
