/**
 * Stand-ins for the .NET library routines the range compiler calls:
 * Array.Reverse, Array.Copy, Enumerable.Zip, and Array.Sort of a HashSet's
 * elements.
 */
module Collections {

  predicate StrictlyAscending(s: seq<int>) {
    forall i, j :: 0 <= i < j < |s| ==> s[i] < s[j]
  }

  /** No element of s occurs twice; stated one element at a time, from the end. */
  predicate Distinct<T(==)>(s: seq<T>) {
    s == [] || (Distinct(s[..|s| - 1]) && s[|s| - 1] !in s[..|s| - 1])
  }

  /** Distinct, position by position: different positions hold different elements. */
  lemma {:induction false} DistinctIndices<T>(s: seq<T>)
    requires Distinct(s)
    ensures forall j, k :: 0 <= j < k < |s| ==> s[j] != s[k]
  {
    if s != [] {
      var init := s[..|s| - 1];
      DistinctIndices(init);
      forall j, k | 0 <= j < k < |s|
        ensures s[j] != s[k]
      {
        if k == |s| - 1 {
          assert s[j] == init[j];
        } else {
          assert s[j] == init[j] && s[k] == init[k];
        }
      }
    }
  }

  /** The elements of s in the opposite order. */
  function Reversed<T>(s: seq<T>): (r: seq<T>)
    ensures |r| == |s|
    ensures forall i :: 0 <= i < |s| ==> r[i] == s[|s| - 1 - i]
  {
    if s == [] then [] else Reversed(s[1..]) + [s[0]]
  }

  lemma ReversedTwice<T>(s: seq<T>)
    ensures Reversed(Reversed(s)) == s
  {
    var r := Reversed(Reversed(s));
    assert |r| == |s|;
    forall i | 0 <= i < |s|
      ensures r[i] == s[i]
    {
      assert r[i] == Reversed(s)[|s| - 1 - i];
    }
  }

  /** Array.Reverse: reverses a in place. */
  method ReverseInPlace<T>(a: array<T>)
    modifies a
    ensures a[..] == Reversed(old(a[..]))
  {
    var lo, hi := 0, a.Length - 1;
    while lo < hi
      invariant 0 <= lo <= a.Length && -1 <= hi < a.Length && lo + hi == a.Length - 1
      invariant forall k :: 0 <= k < lo ==> a[k] == old(a[a.Length - 1 - k])
      invariant forall k :: hi < k < a.Length ==> a[k] == old(a[a.Length - 1 - k])
      invariant forall k :: lo <= k <= hi ==> a[k] == old(a[k])
    {
      a[lo], a[hi] := a[hi], a[lo];
      lo, hi := lo + 1, hi - 1;
    }
  }

  /** Array.Copy(src, srcIndex, dst, dstIndex, length) between two distinct arrays. */
  method Copy<T>(src: array<T>, srcIndex: nat, dst: array<T>, dstIndex: nat, length: nat)
    requires srcIndex + length <= src.Length && dstIndex + length <= dst.Length
    requires src != dst
    modifies dst
    ensures dst[..] == old(dst[..dstIndex]) + src[srcIndex..srcIndex + length] + old(dst[dstIndex + length..])
  {
    forall i | 0 <= i < length {
      dst[dstIndex + i] := src[srcIndex + i];
    }
  }

  /** x placed into the strictly ascending s, unless it is already there. */
  function Insert(x: int, s: seq<int>): (r: seq<int>)
    requires StrictlyAscending(s)
    ensures StrictlyAscending(r)
    ensures forall y :: y in r <==> y == x || y in s
  {
    if s == [] then [x]
    else if x < s[0] then AscendingCons(x, s); [x] + s
    else if x == s[0] then s
    else
      var rest := Insert(x, s[1..]);
      AscendingCons(s[0], rest);
      [s[0]] + rest
  }

  /** h before a strictly ascending t whose elements all lie above h. */
  lemma AscendingCons(h: int, t: seq<int>)
    requires StrictlyAscending(t) && forall y :: y in t ==> h < y
    ensures StrictlyAscending([h] + t)
  {
    var r := [h] + t;
    forall i, j | 0 <= i < j < |r|
      ensures r[i] < r[j]
    {
      assert r[j] == t[j - 1] && r[j] in t;
      if i > 0 {
        assert r[i] == t[i - 1];
      }
    }
  }

  /**
   * Array.Sort, ascending, of the elements a HashSet holds: the distinct
   * elements of s in increasing order.
   */
  function SortAscending(s: seq<int>): (r: seq<int>)
    ensures StrictlyAscending(r)
    ensures forall y :: y in r <==> y in s
  {
    if s == [] then [] else Insert(s[|s| - 1], SortAscending(s[..|s| - 1]))
  }

  /** Enumerable.Zip into pairs: stops at the end of the shorter sequence. */
  function Zip<A, B>(a: seq<A>, b: seq<B>): (r: seq<(A, B)>)
    ensures |r| == if |a| < |b| then |a| else |b|
    ensures forall i :: 0 <= i < |r| ==> r[i] == (a[i], b[i])
  {
    if a == [] || b == [] then [] else [(a[0], b[0])] + Zip(a[1..], b[1..])
  }
}
