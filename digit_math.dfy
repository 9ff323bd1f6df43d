/**
 * Decimal digit arithmetic of the range compiler: digit counts, digit
 * arrays, "replace the last k digits with 9" and "zero the last k digits".
 * C# int and long are modelled as unbounded integers inside IsInt / IsLong.
 */
module DigitMath {
  import opened Wrappers
  import opened Collections

  const IntMax: int := 0x7fff_ffff
  const IntMin: int := -0x8000_0000
  const LongMax: int := 0x7fff_ffff_ffff_ffff
  const LongMin: int := -0x8000_0000_0000_0000

  predicate IsInt(n: int) { IntMin <= n <= IntMax }

  predicate IsLong(n: int) { LongMin <= n <= LongMax }

  function Abs(n: int): nat { if n < 0 then -n else n }

  /** 10^k; its one stated fact is the positivity every division by it needs. */
  function Pow10(k: nat): (r: nat)
    ensures r >= 1
  {
    if k == 0 then 1 else 10 * Pow10(k - 1)
  }

  predicate IsDigits(ds: seq<int>) {
    forall i :: 0 <= i < |ds| ==> 0 <= ds[i] <= 9
  }

  /** The decimal digits of n, most significant first: [0] for 0, otherwise without a leading zero. */
  function DigitsOf(n: nat): (ds: seq<int>)
    ensures |ds| >= 1 && IsDigits(ds)
    ensures ds[0] != 0 || n == 0
    decreases n
  {
    if n < 10 then [n] else DigitsOf(n / 10) + [n % 10]
  }

  /** The length of n's decimal representation. */
  function DigitCount(n: nat): nat {
    |DigitsOf(n)|
  }

  /** Reads a digit sequence, most significant first, in base 10. */
  function Value(ds: seq<int>): int {
    if ds == [] then 0 else 10 * Value(ds[..|ds| - 1]) + ds[|ds| - 1]
  }

  function DigitChar(d: int): char
    requires 0 <= d <= 9
  {
    (48 + d) as char
  }

  function DigitString(ds: seq<int>): (s: string)
    requires IsDigits(ds)
  {
    seq(|ds|, i requires 0 <= i < |ds| => DigitChar(ds[i]))
  }

  /** int.ToString(): an optional minus sign followed by the digits of |n|. */
  function IntToString(n: int): (s: string)
    ensures |s| >= 1 && (n < 0 <==> s[0] == '-')
    ensures forall i :: (if n < 0 then 1 else 0) <= i < |s| ==> '0' <= s[i] <= '9'
  {
    (if n < 0 then "-" else "") + DigitString(DigitsOf(Abs(n)))
  }

  // ---------------------------------------------------------------------
  // Facts about digit sequences

  lemma {:induction false} Pow10Monotone(i: nat, j: nat)
    requires i <= j
    ensures Pow10(i) <= Pow10(j)
    decreases j
  {
    if i < j {
      Pow10Monotone(i, j - 1);
    }
  }

  /** Digits round-trip: reading DigitsOf(n) back in base 10 gives n. */
  lemma {:induction false} ValueOfDigitsOf(n: nat)
    ensures Value(DigitsOf(n)) == n
    decreases n
  {
    if n >= 10 {
      ValueOfDigitsOf(n / 10);
      var ds := DigitsOf(n);
      assert ds[..|ds| - 1] == DigitsOf(n / 10);
    }
  }

  /** A k-digit sequence reads as less than 10^k, and as at least 10^(k-1) without a leading zero. */
  lemma {:induction false} ValueBounds(ds: seq<int>)
    requires IsDigits(ds)
    ensures 0 <= Value(ds) < Pow10(|ds|)
    ensures |ds| > 0 && ds[0] != 0 ==> Pow10(|ds| - 1) <= Value(ds)
  {
    if ds != [] {
      var init := ds[..|ds| - 1];
      ValueBounds(init);
      if |init| > 0 {
        assert init[0] == ds[0];
      }
    }
  }

  /** The other direction of the round trip: a canonical digit sequence is DigitsOf its value. */
  lemma {:induction false} DigitsOfValue(ds: seq<int>)
    requires IsDigits(ds) && |ds| >= 1 && (ds[0] != 0 || |ds| == 1)
    ensures Value(ds) >= 0 && DigitsOf(Value(ds)) == ds
  {
    ValueBounds(ds);
    if |ds| > 1 {
      var init := ds[..|ds| - 1];
      assert init[0] == ds[0];
      DigitsOfValue(init);
      ValueBounds(init);
      assert init + [ds[|ds| - 1]] == ds;
    }
  }

  lemma {:induction false} ValueAppend(a: seq<int>, b: seq<int>)
    ensures Value(a + b) == Value(a) * Pow10(|b|) + Value(b)
    decreases |b|
  {
    if b == [] {
      assert a + b == a;
    } else {
      var b' := b[..|b| - 1];
      assert (a + b)[..|a + b| - 1] == a + b';
      ValueAppend(a, b');
      calc {
        Value(a + b);
        10 * Value(a + b') + b[|b| - 1];
        10 * (Value(a) * Pow10(|b'|) + Value(b')) + b[|b| - 1];
        { assert 10 * (Value(a) * Pow10(|b'|)) == Value(a) * (10 * Pow10(|b'|)); }
        Value(a) * Pow10(|b|) + Value(b);
      }
    }
  }

  lemma ValuePrepend(d: int, s: seq<int>)
    ensures Value([d] + s) == Pow10(|s|) * d + Value(s)
  {
    assert Value([d]) == d by {
      assert [d][..0] == [];
    }
    ValueAppend([d], s);
    MulCommutes(d, Pow10(|s|));
  }

  lemma MulCommutes(a: int, b: int)
    ensures a * b == b * a
  {
  }

  /** Reading s from position i: its digit there, scaled, plus the rest. */
  lemma ValueOfSuffix(s: seq<int>, i: nat)
    requires i < |s|
    ensures Value(s[i..]) == Pow10(|s| - i - 1) * s[i] + Value(s[i + 1..])
  {
    assert s[i..] == [s[i]] + s[i + 1..];
    ValuePrepend(s[i], s[i + 1..]);
  }

  /** DigitCount(n) is the d with 10^(d-1) <= n < 10^d (and 1 for 0). */
  lemma DigitCountBounds(n: nat)
    ensures (n == 0 || Pow10(DigitCount(n) - 1) <= n) && n < Pow10(DigitCount(n))
  {
    ValueOfDigitsOf(n);
    ValueBounds(DigitsOf(n));
  }

  lemma DigitCountUnique(n: nat, d: nat)
    requires 1 <= d && (d == 1 || Pow10(d - 1) <= n) && n < Pow10(d)
    ensures DigitCount(n) == d
  {
    DigitCountBounds(n);
    var c := DigitCount(n);
    if c < d {
      Pow10Monotone(c, d - 1);
    } else if c > d {
      Pow10Monotone(d, c - 1);
    }
  }

  lemma DigitCountMonotone(a: nat, b: nat)
    requires a <= b
    ensures DigitCount(a) <= DigitCount(b)
  {
    DigitCountBounds(a);
    DigitCountBounds(b);
    if DigitCount(a) > DigitCount(b) {
      Pow10Monotone(DigitCount(b), DigitCount(a) - 1);
    }
  }

  lemma Pow10Table()
    ensures Pow10(1) == 10 && Pow10(2) == 100 && Pow10(3) == 1000 && Pow10(4) == 10000
    ensures Pow10(5) == 100000 && Pow10(6) == 1000000 && Pow10(7) == 10000000
    ensures Pow10(8) == 100000000 && Pow10(9) == 1000000000 && Pow10(10) == 10000000000
    ensures Pow10(11) == 100000000000 && Pow10(12) == 1000000000000
    ensures Pow10(13) == 10000000000000 && Pow10(14) == 100000000000000
    ensures Pow10(15) == 1000000000000000 && Pow10(16) == 10000000000000000
    ensures Pow10(17) == 100000000000000000 && Pow10(18) == 1000000000000000000
    ensures Pow10(19) == 10000000000000000000
  {
  }

  // ---------------------------------------------------------------------
  // NumberOfDigits and NumberOfDigitsAndAbs

  /** The threshold ladder over long: the length of n's decimal string, minus sign included. */
  function NumberOfDigits(n: int): (r: int)
    requires IsLong(n)
    ensures n >= 0 ==> 1 <= r <= 19
    ensures n < 0 ==> 2 <= r <= 20
  {
    if n >= 0 then
      if n < 10 then 1
      else if n < 100 then 2
      else if n < 1000 then 3
      else if n < 10000 then 4
      else if n < 100000 then 5
      else if n < 1000000 then 6
      else if n < 10000000 then 7
      else if n < 100000000 then 8
      else if n < 1000000000 then 9
      else if n < 10000000000 then 10
      else if n < 100000000000 then 11
      else if n < 1000000000000 then 12
      else if n < 10000000000000 then 13
      else if n < 100000000000000 then 14
      else if n < 1000000000000000 then 15
      else if n < 10000000000000000 then 16
      else if n < 100000000000000000 then 17
      else if n < 1000000000000000000 then 18
      else 19
    else
      if n > -10 then 2
      else if n > -100 then 3
      else if n > -1000 then 4
      else if n > -10000 then 5
      else if n > -100000 then 6
      else if n > -1000000 then 7
      else if n > -10000000 then 8
      else if n > -100000000 then 9
      else if n > -1000000000 then 10
      else if n > -10000000000 then 11
      else if n > -100000000000 then 12
      else if n > -1000000000000 then 13
      else if n > -10000000000000 then 14
      else if n > -100000000000000 then 15
      else if n > -1000000000000000 then 16
      else if n > -10000000000000000 then 17
      else if n > -100000000000000000 then 18
      else if n > -1000000000000000000 then 19
      else 20
  }

  /**
   * The ladder agrees with the digit count of |n| for every long, plus one
   * for the minus sign, and so with the length of n.ToString().
   */
  lemma NumberOfDigitsIsDecimalLength(n: int)
    requires IsLong(n)
    ensures n >= 0 ==> NumberOfDigits(n) == DigitCount(n)
    ensures n < 0 ==> NumberOfDigits(n) == DigitCount(-n) + 1
    ensures NumberOfDigits(n) == |IntToString(n)|
  {
    Pow10Table();
    var d := if n >= 0 then NumberOfDigits(n) else NumberOfDigits(n) - 1;
    DigitCountUnique(Abs(n), d);
  }

  /** NumberOfDigitsAndAbs: the digit count of |n| together with |n|; Math.Abs throws on int.MinValue. */
  function NumberOfDigitsAndAbs(n: int): (r: (int, int))
    requires IsInt(n) && n != IntMin
    ensures r.1 == Abs(n) && r.0 == DigitCount(r.1)
  {
    var abs := Abs(n);
    NumberOfDigitsIsDecimalLength(abs);
    (NumberOfDigits(abs), abs)
  }

  // ---------------------------------------------------------------------
  // Fill and GetDigits

  /** Sets every element of a to v. */
  method Fill<T>(a: array<T>, v: T)
    modifies a
    ensures a[..] == seq(a.Length, _ => v)
  {
    for i := 0 to a.Length
      invariant a[..i] == seq(i, _ => v)
    {
      a[i] := v;
      assert a[..i + 1] == a[..i] + [v];
    }
  }

  /** The digits of a, least significant first, none for 0: what GetDigits' loop collects. */
  function LowFirst(a: nat): seq<int>
    decreases a
  {
    if a == 0 then [] else [a % 10] + LowFirst(a / 10)
  }

  lemma {:induction false} LowFirstReversed(a: nat)
    requires a > 0
    ensures Reversed(LowFirst(a)) == DigitsOf(a)
    decreases a
  {
    var s := LowFirst(a);
    assert s[1..] == LowFirst(a / 10);
    if a >= 10 {
      LowFirstReversed(a / 10);
    }
  }

  /** GetDigits: the decimal digits of |n|, most significant first; [0] for 0. */
  method GetDigits(n: int) returns (res: array<int>)
    requires IsInt(n) && n != IntMin
    ensures res[..] == DigitsOf(Abs(n))
  {
    if n == 0 {
      res := new int[] [0];
      return;
    }
    var (digits, abs) := NumberOfDigitsAndAbs(n);
    LowFirstReversed(abs);
    res := new int[digits];
    PushLowDigits(res, abs);
    ReverseInPlace(res);
  }

  /** The loop of GetDigits: abs % 10 goes into the next cell until abs is 0. */
  method PushLowDigits(res: array<int>, abs: nat)
    requires res.Length == |LowFirst(abs)|
    modifies res
    ensures res[..] == LowFirst(abs)
  {
    var rest := abs;
    var count := 0;
    while rest > 0
      invariant 0 <= count <= res.Length
      invariant LowFirst(rest) == LowFirst(abs)[count..]
      invariant forall j :: 0 <= j < count ==> res[j] == LowFirst(abs)[j]
      decreases rest
    {
      LowFirstStep(abs, rest, count);
      res[count] := rest % 10;
      count := count + 1;
      rest := rest / 10;
    }
  }

  /** One turn of that loop: the next digit is rest % 10, and rest / 10 holds the ones after it. */
  lemma LowFirstStep(abs: nat, rest: nat, count: nat)
    requires rest > 0 && count <= |LowFirst(abs)| && LowFirst(rest) == LowFirst(abs)[count..]
    ensures count < |LowFirst(abs)| && LowFirst(abs)[count] == rest % 10
    ensures LowFirst(rest / 10) == LowFirst(abs)[count + 1..]
  {
    var tail := LowFirst(abs)[count..];
    assert tail[1..] == LowFirst(abs)[count + 1..];
  }

  // ---------------------------------------------------------------------
  // ReplaceLastNDigitsWithNines

  function Nines(k: nat): seq<int> {
    seq(k, _ => 9)
  }

  /** The digits ds with the last k set to 9; k nines when ds has fewer than k digits. */
  function WithTrailingNines(ds: seq<int>, k: nat): seq<int> {
    if k > |ds| then Nines(k) else ds[..|ds| - k] + Nines(k)
  }

  /** The value ReplaceLastNDigitsWithNines computes for a non-negative n. */
  function NinesValue(n: nat, k: nat): int {
    Value(WithTrailingNines(DigitsOf(n), k))
  }

  lemma {:induction false} ValueOfNines(k: nat)
    ensures Value(Nines(k)) == Pow10(k) - 1
  {
    if k > 0 {
      assert Nines(k)[..k - 1] == Nines(k - 1);
      ValueOfNines(k - 1);
    }
  }

  /** The array-building half of ReplaceLastNDigitsWithNines. */
  method TrailingNinesDigits(digits: array<int>, digitsToReplace: nat) returns (newDigits: array<int>)
    ensures newDigits[..] == WithTrailingNines(digits[..], digitsToReplace)
  {
    if digitsToReplace > digits.Length {
      newDigits := new int[digitsToReplace];
      Fill(newDigits, 9);
    } else {
      var keep := digits.Length - digitsToReplace;
      newDigits := new int[digits.Length];
      Copy(digits, 0, newDigits, 0, keep);
      ghost var copied := newDigits[..];
      assert copied[..keep] == digits[..keep];
      var replacementDigits := new int[digitsToReplace];
      Fill(replacementDigits, 9);
      Copy(replacementDigits, 0, newDigits, keep, replacementDigits.Length);
      assert copied[keep + digitsToReplace..] == [];
    }
  }

  /** The accumulation loop of ReplaceLastNDigitsWithNines: reads the digits in base 10. */
  method ReadDigits(newDigits: array<int>) returns (newValue: int)
    ensures newValue == Value(newDigits[..])
  {
    ghost var target := newDigits[..];
    newValue := 0;
    var i := newDigits.Length - 1;
    while i >= 0
      invariant -1 <= i < newDigits.Length
      invariant newValue == Value(target[i + 1..])
    {
      ValueOfSuffix(target, i);
      newValue := newValue + Pow10(newDigits.Length - i - 1) * newDigits[i];
      i := i - 1;
    }
    assert target[0..] == target;
  }

  /**
   * ReplaceLastNDigitsWithNines: |n| with its last digitsToReplace digits set
   * to 9, or Overflow when that value exceeds int.MaxValue.
   */
  method ReplaceLastNDigitsWithNines(n: int, digitsToReplace: nat) returns (r: Result<int>)
    requires IsInt(n) && n != IntMin
    requires digitsToReplace <= 18
    ensures var v := NinesValue(Abs(n), digitsToReplace);
            r == if v > IntMax then Failure(Overflow) else Success(v)
  {
    var digits := GetDigits(n);
    var newDigits := TrailingNinesDigits(digits, digitsToReplace);
    var newValue := ReadDigits(newDigits);
    if newValue > IntMax {
      return Failure(Overflow);
    }
    return Success(newValue);
  }

  // ---------------------------------------------------------------------
  // Division facts used below

  lemma MulMonotone(a: int, b: int, c: int)
    requires a <= b && c >= 0
    ensures a * c <= b * c
  {
    assert b * c - a * c == (b - a) * c;
  }

  /** Euclidean division is determined by a quotient and an in-range remainder. */
  lemma DivModUnique(n: int, d: int, q: int, r: int)
    requires d > 0 && 0 <= r < d && n == q * d + r
    ensures n / d == q && n % d == r
  {
    var q', r' := n / d, n % d;
    assert q' * d + r' == q * d + r;
    if q' < q {
      MulMonotone(q' + 1, q, d);
    } else if q < q' {
      MulMonotone(q + 1, q', d);
    }
  }

  /** A positive multiple of p is at least p. */
  lemma PositiveMultiple(r: int, p: int)
    requires p > 0 && r > 0 && r % p == 0
    ensures r >= p
  {
    var q := r / p;
    assert r == q * p;
    if q <= 0 {
      MulMonotone(q, 0, p);
    } else {
      MulMonotone(1, q, p);
    }
  }

  // ---------------------------------------------------------------------
  // What ReplaceLastNDigitsWithNines computes, arithmetically

  /**
   * Splits the trailing-nines value of n at the replaced digits: the kept
   * leading digits read as `high`, and n's replaced digits read as `low`.
   */
  lemma NinesValueSplit(n: nat, k: nat) returns (high: nat, low: nat)
    requires k <= DigitCount(n)
    ensures n == high * Pow10(k) + low && low < Pow10(k)
    ensures NinesValue(n, k) == high * Pow10(k) + Pow10(k) - 1
  {
    var ds := DigitsOf(n);
    var pre, suf := ds[..|ds| - k], ds[|ds| - k..];
    assert 0 <= Value(pre) && 0 <= Value(suf) < Pow10(k) by {
      ValueBounds(pre);
      ValueBounds(suf);
    }
    high, low := Value(pre), Value(suf);
    assert n == high * Pow10(k) + low by {
      assert ds == pre + suf;
      ValueOfDigitsOf(n);
      ValueAppend(pre, suf);
    }
    assert NinesValue(n, k) == high * Pow10(k) + Pow10(k) - 1 by {
      assert WithTrailingNines(ds, k) == pre + Nines(k);
      ValueOfNines(k);
      ValueAppend(pre, Nines(k));
      assert |Nines(k)| == k;
    }
  }

  /** Without enough digits to keep, the value is k nines. */
  lemma NinesValueAllNines(n: nat, k: nat)
    requires k > DigitCount(n)
    ensures n < Pow10(k) && NinesValue(n, k) == Pow10(k) - 1
  {
    ValueOfNines(k);
    DigitCountBounds(n);
    Pow10Monotone(DigitCount(n), k);
  }

  /** The trailing-nines value is at least n, and at least k nines. */
  lemma NinesValueLowerBounds(n: nat, k: nat)
    ensures n <= NinesValue(n, k) && Pow10(k) - 1 <= NinesValue(n, k)
  {
    if k > DigitCount(n) {
      NinesValueAllNines(n, k);
      DigitCountBounds(n);
      Pow10Monotone(DigitCount(n), k);
    } else {
      var high, low := NinesValueSplit(n, k);
      MulMonotone(0, high, Pow10(k));
    }
  }

  /** With j <= k <= |ds|, the j-nines sequence is the k-nines one's prefix followed by a k-digit tail. */
  lemma TrailingNinesTail(ds: seq<int>, j: nat, k: nat) returns (rest: seq<int>)
    requires IsDigits(ds) && j <= k <= |ds|
    ensures WithTrailingNines(ds, j) == ds[..|ds| - k] + rest
    ensures |rest| == k && IsDigits(rest)
  {
    rest := ds[|ds| - k..|ds| - j] + Nines(j);
  }

  lemma TrailingNinesMonotone(ds: seq<int>, j: nat, k: nat)
    requires IsDigits(ds) && j <= k
    ensures Value(WithTrailingNines(ds, j)) <= Value(WithTrailingNines(ds, k))
  {
    var wj := WithTrailingNines(ds, j);
    ValueOfNines(k);
    if k > |ds| {
      assert IsDigits(wj);
      ValueBounds(wj);
      Pow10Monotone(|wj|, k);
    } else {
      // Both keep ds[..|ds| - k]; below it wj holds a k-digit tail, k nines at most.
      var pre := ds[..|ds| - k];
      var rest := TrailingNinesTail(ds, j, k);
      ValueBounds(rest);
      ValueAppend(pre, rest);
      ValueAppend(pre, Nines(k));
    }
  }

  /** The value has max(k, digits of n) digits, so stays below that power of ten. */
  lemma NinesValueUpperBound(n: nat, k: nat)
    ensures NinesValue(n, k) < Pow10(if k > DigitCount(n) then k else DigitCount(n))
  {
    var w := WithTrailingNines(DigitsOf(n), k);
    assert IsDigits(w);
    ValueBounds(w);
  }

  /** Replacing every digit of n gives the all-nines number of n's width. */
  lemma NinesValueFullWidth(n: nat)
    ensures NinesValue(n, DigitCount(n)) == Pow10(DigitCount(n)) - 1
  {
    var ds := DigitsOf(n);
    assert WithTrailingNines(ds, |ds|) == Nines(|ds|);
    ValueOfNines(|ds|);
  }

  /** For n < 10^j, replacing the last j digits gives 10^j - 1 (n has at most j digits). */
  lemma NinesValueAtPowerOfTen(n: nat, j: nat)
    requires n < Pow10(j)
    ensures NinesValue(n, j) == Pow10(j) - 1
  {
    DigitCountBounds(n);
    var width := DigitCount(n);
    if width > j {
      Pow10Monotone(j, width - 1);
    }
    if width < j {
      NinesValueAllNines(n, j);
    } else {
      NinesValueFullWidth(n);
    }
  }

  /** Replacing more digits never gives a smaller value. */
  lemma NinesValueMonotone(n: nat, j: nat, k: nat)
    requires j <= k
    ensures NinesValue(n, j) <= NinesValue(n, k)
  {
    TrailingNinesMonotone(DigitsOf(n), j, k);
  }

  /** The value has exactly the digits of n with the last k overwritten by 9 (k nines if n is shorter). */
  lemma NinesValueDigits(n: nat, k: nat)
    ensures NinesValue(n, k) >= 0 && DigitsOf(NinesValue(n, k)) == WithTrailingNines(DigitsOf(n), k)
  {
    var ds := DigitsOf(n);
    var w := WithTrailingNines(ds, k);
    if k > |ds| {
      assert w[0] == 9;
    } else if k < |ds| {
      assert w[0] == ds[0];
    } else if k > 0 {
      assert w[0] == 9;
    }
    DigitsOfValue(w);
  }

  /** In both cases the value is n rounded up to just below a multiple of 10^k. */
  lemma NinesValueRoundsUp(n: nat, k: nat) returns (high: nat)
    ensures high * Pow10(k) <= n < (high + 1) * Pow10(k)
    ensures NinesValue(n, k) + 1 == (high + 1) * Pow10(k)
  {
    var low: nat;
    if k > DigitCount(n) {
      NinesValueAllNines(n, k);
      high, low := 0, n;
    } else {
      high, low := NinesValueSplit(n, k);
    }
    Bracket(n, high, low, Pow10(k));
  }

  /** n = high * p + low with low < p lies in [high * p, (high + 1) * p). */
  lemma Bracket(n: int, high: nat, low: nat, p: int)
    requires p > 0 && n == high * p + low && low < p
    ensures high * p <= n < (high + 1) * p && (high + 1) * p == high * p + p
  {
  }

  /** Arithmetic core: (h + 1) * p is the least multiple of p above h * p + low. */
  lemma NextMultiple(p: int, h: int, x: int)
    requires p > 0 && h * p <= x && (x + 1) % p == 0
    ensures ((h + 1) * p) % p == 0 && (h + 1) * p <= x + 1
  {
    DivModUnique((h + 1) * p, p, h + 1, 0);
    var m := (x + 1) / p;
    assert x + 1 == m * p;
    if m <= h {
      MulMonotone(m, h, p);
    } else {
      MulMonotone(h + 1, m, p);
    }
  }

  /**
   * Reference definition: the trailing-nines value is the least x >= n whose
   * last k decimal digits are all 9, that is, with x + 1 a multiple of 10^k.
   */
  lemma NinesValueIsLeast(n: nat, k: nat, x: int)
    requires n <= x && (x + 1) % Pow10(k) == 0
    ensures (NinesValue(n, k) + 1) % Pow10(k) == 0 && NinesValue(n, k) <= x
  {
    var high := NinesValueRoundsUp(n, k);
    NextMultiple(Pow10(k), high, x);
  }

  // ---------------------------------------------------------------------
  // CountZeros

  /** The remainder of C#'s % (and of double %): it takes the sign of the dividend. */
  function TruncatedRem(a: int, b: int): int
    requires b > 0
  {
    if a >= 0 then a % b else -((-a) % b)
  }

  /** m less its remainder is the multiple of p just at or below m. */
  lemma RoundDown(m: nat, p: int)
    requires p > 0
    ensures (m - m % p) % p == 0 && 0 <= m - m % p <= m < m - m % p + p
  {
    var q := m / p;
    assert m - m % p == q * p;
    MulMonotone(0, q, p);
    DivModUnique(q * p, p, q, 0);
  }

  lemma NegatedMultiple(x: int, p: int)
    requires p > 0 && x % p == 0
    ensures (-x) % p == 0
  {
    var q := x / p;
    assert -x == (-q) * p;
    DivModUnique(-x, p, -q, 0);
  }

  lemma RoundTowardZero(n: int, p: int)
    requires p > 0
    ensures (n - TruncatedRem(n, p)) % p == 0
    ensures 0 <= n ==> 0 <= n - TruncatedRem(n, p) <= n < n - TruncatedRem(n, p) + p
    ensures n < 0 ==> n - TruncatedRem(n, p) - p < n <= n - TruncatedRem(n, p) <= 0
  {
    if n >= 0 {
      RoundDown(n, p);
    } else {
      RoundDown(-n, p);
      NegatedMultiple(-n - (-n) % p, p);
    }
  }

  /**
   * CountZeros: n with its last `zeros` decimal digits set to 0, the
   * multiple of 10^zeros next to n on the side of zero.
   */
  function CountZeros(n: int, zeros: nat): (r: int)
    ensures r % Pow10(zeros) == 0
    ensures 0 <= n ==> 0 <= r <= n < r + Pow10(zeros)
    ensures n < 0 ==> r - Pow10(zeros) < n <= r <= 0
  {
    RoundTowardZero(n, Pow10(zeros));
    n - TruncatedRem(n, Pow10(zeros))
  }

  /** Arithmetic core: a multiple r of p with n < r + p is the greatest multiple of p up to n. */
  lemma GreatestMultiple(p: int, n: int, r: int, y: int)
    requires p > 0 && r % p == 0 && n < r + p
    requires y <= n && y % p == 0
    ensures y <= r
  {
    var a, b := y / p, r / p;
    DivExact(y, p);
    DivExact(r, p);
    if b < a {
      MulMonotone(b + 1, a, p);
      MulSucc(b, p);
    }
  }

  lemma DivExact(y: int, p: int)
    requires p > 0 && y % p == 0
    ensures (y / p) * p == y
  {
  }

  lemma MulSucc(b: int, p: int)
    ensures (b + 1) * p == b * p + p
  {
  }

  /** For n >= 0, CountZeros is the greatest multiple of 10^zeros that is at most n. */
  lemma CountZerosIsGreatest(n: nat, zeros: nat, y: int)
    requires y <= n && y % Pow10(zeros) == 0
    ensures y <= CountZeros(n, zeros)
  {
    GreatestMultiple(Pow10(zeros), n, CountZeros(n, zeros), y);
  }

  lemma MultipleOfFactor(x: int, a: int, b: int)
    requires a > 0 && b > 0 && x % (a * b) == 0
    ensures x % b == 0
  {
    var m := x / (a * b);
    assert x == m * (a * b) == (m * a) * b;
    DivModUnique(x, b, m * a, 0);
  }

  /** A multiple of 10^k is a multiple of every smaller power of ten. */
  lemma MultipleOfSmallerPower(x: int, j: nat, k: nat)
    requires j <= k && x % Pow10(k) == 0
    ensures x % Pow10(j) == 0
  {
    Pow10Add(k - j, j);
    MultipleOfFactor(x, Pow10(k - j), Pow10(j));
  }

  lemma Pow10Add(i: nat, j: nat)
    ensures Pow10(i + j) == Pow10(i) * Pow10(j)
    decreases j
  {
    if j > 0 {
      Pow10Add(i, j - 1);
      assert Pow10(i + j) == 10 * Pow10(i + j - 1);
      assert Pow10(i) * Pow10(j) == Pow10(i) * (10 * Pow10(j - 1));
    }
  }

  /** Zeroing more digits never gives a larger value. */
  lemma CountZerosMonotone(n: nat, j: nat, k: nat)
    requires j <= k
    ensures CountZeros(n, k) <= CountZeros(n, j)
  {
    MultipleOfSmallerPower(CountZeros(n, k), j, k);
    CountZerosIsGreatest(n, j, CountZeros(n, k));
  }
}
