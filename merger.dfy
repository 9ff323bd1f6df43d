/**
 * SplitToPatterns: one PatternInfo per run of neighbouring sub-ranges that
 * share a pattern, with the run's free-digit counts kept on its Count stack
 * and rendered into OptimisedPattern.
 */
module Merger {
  import opened Wrappers
  import opened Collections
  import opened DigitMath
  import opened PatternInfos
  import opened Quantifiers
  import opened RangeSplitter
  import opened RangePatterns

  // ---------------------------------------------------------------------
  // The loop of SplitToPatterns on values

  /** The token RangeToPattern gives for the i-th sub-range of the breakpoints r. */
  function SubShape(min: int, r: seq<int>, i: nat): Token
    requires i < |r|
  {
    RangeShape(SubrangeStart(min, r, i), r[i])
  }

  /**
   * A token that matches the previous one's pattern is folded into it: the
   * newest entry of the previous stack is dropped when it holds two, and
   * the top of the current stack (element 0 of its ToArray) is pushed; an
   * empty current stack makes that element 0 fail.
   */
  function Merge(prev: Token, cur: Token): (r: Result<Token>)
    ensures r.Failure? <==> cur.count == []
    ensures r.Failure? ==> r.error == IndexOutOfRange
    ensures r.Success? ==> r.value.pattern == prev.pattern && r.value.digits == prev.digits
    ensures r.Success? && |prev.count| <= 2 ==>
      r.value.count == (if prev.count == [] then [] else [prev.count[0]]) + [cur.count[|cur.count| - 1]]
    ensures r.Success? ==> r.value.optimised == Some(r.value.pattern + ToQuantifier(r.value.count))
  {
    if cur.count == [] then Failure(IndexOutOfRange)
    else
      var kept := if |prev.count| > 1 then prev.count[..|prev.count| - 1] else prev.count;
      var count := kept + [StackToArray(cur.count)[0]];
      Success(prev.(count := count, optimised := Some(prev.pattern + ToQuantifier(count))))
  }

  /** A token that starts a new run: its OptimisedPattern is its pattern and quantifier. */
  function Emit(cur: Token): (r: Token)
    ensures r.pattern == cur.pattern && r.count == cur.count && r.digits == cur.digits
    ensures r.optimised == Some(cur.pattern + ToQuantifier(cur.count))
  {
    cur.(optimised := Some(cur.pattern + ToQuantifier(cur.count)))
  }

  /** One turn of the loop: merge into the last token when the patterns match, otherwise append. */
  function Step(tokens: seq<Token>, cur: Token): Result<seq<Token>> {
    if tokens != [] && tokens[|tokens| - 1].pattern == cur.pattern then
      var merged :- Merge(tokens[|tokens| - 1], cur);
      Success(tokens[..|tokens| - 1] + [merged])
    else
      Success(tokens + [Emit(cur)])
  }

  /** The whole loop over the tokens RangeToPattern gives, in order. */
  function Fold(shapes: seq<Token>): Result<seq<Token>> {
    if shapes == [] then Success([])
    else
      var tokens :- Fold(shapes[..|shapes| - 1]);
      Step(tokens, shapes[|shapes| - 1])
  }

  /** The tokens of the first n sub-ranges of the breakpoints r. */
  function SubShapes(min: int, r: seq<int>, n: nat): (shapes: seq<Token>)
    requires n <= |r|
    ensures |shapes| == n && forall i :: 0 <= i < n ==> shapes[i] == SubShape(min, r, i)
  {
    seq(n, i requires 0 <= i < n => SubShape(min, r, i))
  }

  // ---------------------------------------------------------------------
  // SplitToPatterns

  /** The body of the match branch: previous absorbs current through its Count stack. */
  method MergeInto(previous: PatternInfo, current: PatternInfo)
    requires previous != current && current.Count != []
    modifies previous
    ensures Merge(old(previous.Snapshot()), current.Snapshot()) == Success(previous.Snapshot())
  {
    if |previous.Count| > 1 {
      var _ := previous.Pop();
    }
    previous.Push(StackToArray(current.Count)[0]);
    previous.SetOptimisedPattern(previous.Pattern + ToQuantifier(previous.Count));
  }

  /**
   * SplitToPatterns: the sub-ranges of SplitToRanges, walked in order; an
   * overflow in SplitToRanges propagates. Every token is a new PatternInfo,
   * and no two tokens share one.
   */
  method SplitToPatterns(min: int, max: int) returns (r: Result<array<PatternInfo>>, ghost ranges: seq<int>)
    requires 0 <= min <= max <= IntMax
    ensures r.Failure? <==> NinesOverflow(min, max)
    ensures r.Failure? ==> r.error == Overflow
    ensures r.Success? ==> IsSplit(min, max, ranges) && fresh(r.value)
    ensures r.Success? ==> Fold(SubShapes(min, ranges, |ranges|)) == Success(Snapshots(r.value[..]))
    ensures r.Success? ==> Distinct(r.value[..]) && forall t :: t in r.value[..] ==> fresh(t)
  {
    var split := SplitToRanges(min, max);
    if split.Failure? {
      return Failure(split.error), [];
    }
    assert max < IntMax;
    ranges := split.value;
    SplitIsWalkable(min, max, split.value);
    ghost var shapes := SubShapes(min, split.value, |split.value|);
    AgreeWithItself(shapes, |shapes|);
    var tokens := WalkRanges(min, split.value, shapes);
    var result := ToArray(tokens);
    r := Success(result);
  }

  /** List<PatternInfo>.ToArray(): a fresh array of the same references, in order. */
  method ToArray(tokens: seq<PatternInfo>) returns (result: array<PatternInfo>)
    ensures fresh(result) && result[..] == tokens
  {
    result := new PatternInfo[|tokens|](j requires 0 <= j < |tokens| => tokens[j]);
  }

  /** Every sub-range of r is a non-empty range of non-negative ints below int.MaxValue. */
  predicate Walkable(min: int, r: seq<int>) {
    forall i :: 0 <= i < |r| ==> 0 <= SubrangeStart(min, r, i) <= r[i] < IntMax
  }

  lemma SplitIsWalkable(min: nat, max: int, r: seq<int>)
    requires max < IntMax && IsSplit(min, max, r)
    ensures Walkable(min, r) && Mergeable(SubShapes(min, r, |r|))
  {
    SplitIsSameWidth(min, max, r);
    SplitShapesMergeable(min, r);
  }

  /** Every sub-range is a non-empty range of non-negative ints below int.MaxValue whose bounds have the same width. */
  predicate SameWidth(min: int, r: seq<int>) {
    forall i :: 0 <= i < |r| ==>
      && 0 <= SubrangeStart(min, r, i) <= r[i] < IntMax
      && DigitCount(SubrangeStart(min, r, i)) == DigitCount(r[i])
  }

  lemma SplitIsSameWidth(min: nat, max: int, r: seq<int>)
    requires max < IntMax && IsSplit(min, max, r)
    ensures SameWidth(min, r)
  {
    forall i | 0 <= i < |r|
      ensures 0 <= SubrangeStart(min, r, i) <= r[i] < IntMax
      ensures DigitCount(SubrangeStart(min, r, i)) == DigitCount(r[i])
    {
      SubrangeSameWidth(min, max, r, i);
    }
  }

  /**
   * The list of tokens and the previous token as the loop keeps them: the
   * previous token is the last of the list and appears there once, and
   * ts holds their contents.
   */
  ghost predicate Mirrors(tokens: seq<PatternInfo>, previous: PatternInfo?, ts: seq<Token>)
    reads set t | t in tokens
  {
    && |tokens| == |ts|
    && (previous == null <==> tokens == [])
    && (tokens != [] ==> previous == tokens[|tokens| - 1])
    && (forall j :: 0 <= j < |tokens| - 1 ==> tokens[j] != tokens[|tokens| - 1])
    && (forall j :: 0 <= j < |tokens| ==> tokens[j].Snapshot() == ts[j])
  }

  /**
   * One turn of the loop on the objects: current is merged into previous
   * when their patterns match, and otherwise gets its OptimisedPattern and
   * joins the list as the new previous.
   */
  method Turn(tokens: seq<PatternInfo>, previous: PatternInfo?, current: PatternInfo, ghost ts: seq<Token>)
    returns (tokens': seq<PatternInfo>, previous': PatternInfo, ghost ts': seq<Token>)
    requires Mirrors(tokens, previous, ts) && current !in tokens
    requires ts != [] && ts[|ts| - 1].pattern == current.Pattern ==> current.Count != []
    modifies previous, current
    ensures Mirrors(tokens', previous', ts')
    ensures Step(ts, old(current.Snapshot())) == Success(ts')
    ensures tokens <= tokens' && |tokens'| <= |tokens| + 1
    ensures |tokens'| == |tokens| ==> previous' == previous
    ensures |tokens'| == |tokens| + 1 ==> tokens'[|tokens|] == current && previous' == current
  {
    if previous != null && previous.Pattern == current.Pattern {
      ts' := Absorb(tokens, previous, current, ts);
      tokens', previous' := tokens, previous;
    } else {
      ts' := Append(tokens, previous, current, ts);
      tokens', previous' := tokens + [current], current;
    }
  }

  /** The match branch of a turn: previous, the last token, absorbs current. */
  method Absorb(tokens: seq<PatternInfo>, previous: PatternInfo, current: PatternInfo, ghost ts: seq<Token>)
    returns (ghost ts': seq<Token>)
    requires Mirrors(tokens, previous, ts) && current !in tokens
    requires previous.Pattern == current.Pattern && current.Count != []
    modifies previous
    ensures Mirrors(tokens, previous, ts')
    ensures Step(ts, current.Snapshot()) == Success(ts')
  {
    MergeInto(previous, current);
    ts' := ts[..|ts| - 1] + [previous.Snapshot()];
  }

  /** The other branch: current gets its OptimisedPattern and joins the list. */
  method Append(tokens: seq<PatternInfo>, previous: PatternInfo?, current: PatternInfo, ghost ts: seq<Token>)
    returns (ghost ts': seq<Token>)
    requires Mirrors(tokens, previous, ts) && current !in tokens
    requires previous == null || previous.Pattern != current.Pattern
    modifies current
    ensures Mirrors(tokens + [current], current, ts')
    ensures Step(ts, old(current.Snapshot())) == Success(ts')
  {
    current.SetOptimisedPattern(current.Pattern + ToQuantifier(current.Count));
    ts' := ts + [current.Snapshot()];
  }

  /**
   * The loop of SplitToPatterns over its sub-ranges. The previous token is
   * updated in place, so the list of tokens sees each merge. The ghost
   * shapes are what RangeToPattern gives for each sub-range.
   */
  method WalkRanges(min: int, bounds: seq<int>, ghost shapes: seq<Token>) returns (tokens: seq<PatternInfo>)
    requires Walkable(min, bounds) && |shapes| == |bounds| && Agree(shapes, SubShapes(min, bounds, |bounds|), |bounds|)
    requires Mergeable(shapes)
    ensures Fold(shapes) == Success(Snapshots(tokens))
    ensures Distinct(tokens) && forall j :: 0 <= j < |tokens| ==> fresh(tokens[j])
  {
    tokens := [];
    var start := min;
    var previous: PatternInfo? := null;
    ghost var ts: seq<Token> := [];

    for i := 0 to |bounds|
      invariant start == if i == 0 then min else bounds[i - 1] + 1
      invariant Mirrors(tokens, previous, ts)
      invariant AllNew(tokens)
      invariant Fold(shapes[..i]) == Success(ts)
    {
      var end := bounds[i];
      ghost var before := tokens;
      tokens, previous, ts := Advance(min, bounds, shapes, i, start, tokens, previous, ts);
      AllNewGrows(before, tokens);
      start := end + 1;
    }
    assert shapes[..|bounds|] == shapes;
    MirroredSnapshots(tokens, previous, ts);
    AllNewDistinct(tokens);
  }

  /** The body of the loop: the pattern of the i-th sub-range, merged into previous or appended. */
  method Advance(min: int, bounds: seq<int>, ghost shapes: seq<Token>, i: nat, start: int,
                 tokens: seq<PatternInfo>, previous: PatternInfo?, ghost ts: seq<Token>)
    returns (tokens': seq<PatternInfo>, previous': PatternInfo, ghost ts': seq<Token>)
    requires Walkable(min, bounds) && |shapes| == |bounds| && Agree(shapes, SubShapes(min, bounds, |bounds|), |bounds|)
    requires Mergeable(shapes) && i < |bounds|
    requires start == if i == 0 then min else bounds[i - 1] + 1
    requires Mirrors(tokens, previous, ts) && Fold(shapes[..i]) == Success(ts)
    modifies previous
    ensures Mirrors(tokens', previous', ts') && (previous' == previous || fresh(previous'))
    ensures tokens <= tokens' && |tokens'| <= |tokens| + 1
    ensures |tokens'| == |tokens| + 1 ==> fresh(tokens'[|tokens|]) && tokens'[|tokens|] !in tokens
    ensures Fold(shapes[..i + 1]) == Success(ts')
  {
    WalkableAt(min, bounds, shapes, i, start);
    var current := RangeToPattern(start, bounds[i]);
    NextTurn(shapes, i, ts);
    tokens', previous', ts' := Turn(tokens, previous, current, ts);
  }

  /**
   * Every token was made since the state the caller names as old, and none
   * is listed twice; stated one token at a time, from the end.
   */
  twostate predicate AllNew(new tokens: seq<PatternInfo>) {
    tokens == [] ||
    (AllNew(tokens[..|tokens| - 1]) && fresh(tokens[|tokens| - 1]) && tokens[|tokens| - 1] !in tokens[..|tokens| - 1])
  }

  /** A turn of the loop that appends at most one new token keeps AllNew. */
  twostate lemma AllNewGrows(new before: seq<PatternInfo>, new after: seq<PatternInfo>)
    requires AllNew(before) && before <= after && |after| <= |before| + 1
    requires |after| == |before| + 1 ==> fresh(after[|before|]) && after[|before|] !in before
    ensures AllNew(after)
  {
    if |after| == |before| + 1 {
      assert after[..|before|] == before;
    } else {
      assert after == before;
    }
  }

  /** AllNew, unfolded: every token is new and no two positions share one. */
  twostate lemma {:induction false} AllNewDistinct(new tokens: seq<PatternInfo>)
    requires AllNew(tokens)
    ensures Distinct(tokens) && forall j :: 0 <= j < |tokens| ==> fresh(tokens[j])
  {
    if tokens != [] {
      var init := tokens[..|tokens| - 1];
      AllNewDistinct(init);
      forall j | 0 <= j < |tokens|
        ensures fresh(tokens[j])
      {
        if j < |init| {
          assert tokens[j] == init[j];
        }
      }
    }
  }

  /**
   * shapes and reference agree on their first n elements. Stated one
   * element at a time, so that a proof sees only the elements it asks for.
   */
  ghost predicate Agree(shapes: seq<Token>, reference: seq<Token>, n: nat)
    requires n <= |shapes| && n <= |reference|
  {
    n == 0 || (Agree(shapes, reference, n - 1) && shapes[n - 1] == reference[n - 1])
  }

  lemma {:induction false} AgreeAt(shapes: seq<Token>, reference: seq<Token>, n: nat, i: nat)
    requires n <= |shapes| && n <= |reference| && Agree(shapes, reference, n) && i < n
    ensures shapes[i] == reference[i]
  {
    if i < n - 1 {
      AgreeAt(shapes, reference, n - 1, i);
    }
  }

  lemma {:induction false} AgreeWithItself(shapes: seq<Token>, n: nat)
    requires n <= |shapes|
    ensures Agree(shapes, shapes, n)
  {
    if n > 0 {
      AgreeWithItself(shapes, n - 1);
    }
  }

  /** The i-th turn of the loop asks RangeToPattern for the i-th sub-range, which it accepts. */
  lemma WalkableAt(min: int, bounds: seq<int>, shapes: seq<Token>, i: nat, start: int)
    requires Walkable(min, bounds) && |shapes| == |bounds| && Agree(shapes, SubShapes(min, bounds, |bounds|), |bounds|)
    requires i < |bounds| && start == if i == 0 then min else bounds[i - 1] + 1
    ensures 0 <= start <= bounds[i] < IntMax
    ensures RangeShape(start, bounds[i]) == shapes[i]
  {
    AgreeAt(shapes, SubShapes(min, bounds, |bounds|), |bounds|, i);
    assert start == SubrangeStart(min, bounds, i);
  }

  lemma MirroredSnapshots(tokens: seq<PatternInfo>, previous: PatternInfo?, ts: seq<Token>)
    requires Mirrors(tokens, previous, ts)
    ensures Snapshots(tokens) == ts
  {
  }

  /**
   * One more token of input is one more turn of the loop, and on mergeable
   * tokens a turn that merges finds a count to take.
   */
  lemma NextTurn(shapes: seq<Token>, i: nat, ts: seq<Token>)
    requires Mergeable(shapes) && i < |shapes| && Fold(shapes[..i]) == Success(ts)
    ensures Fold(shapes[..i + 1]) == Step(ts, shapes[i])
    ensures ts != [] && ts[|ts| - 1].pattern == shapes[i].pattern ==> shapes[i].count != []
  {
    assert shapes[..i + 1][..i] == shapes[..i];
    StepSucceeds(shapes, i, ts);
  }

  // ---------------------------------------------------------------------
  // The walk never reaches the empty-stack failure

  /** Wherever two neighbouring tokens share a pattern, the second has a count to give. */
  predicate Mergeable(shapes: seq<Token>) {
    forall i :: 0 < i < |shapes| && shapes[i - 1].pattern == shapes[i].pattern ==> shapes[i].count != []
  }

  /**
   * Two consecutive same-width sub-ranges with the same pattern both span
   * more than one number: a one-number pattern is a decimal literal, which
   * differs from the neighbouring literal and holds no '[' that a wider
   * pattern has.
   */
  lemma NoLiteralMerge(lo0: nat, hi0: nat, lo1: nat, hi1: nat)
    requires lo0 <= hi0 < lo1 <= hi1
    requires DigitCount(lo0) == DigitCount(hi0) && DigitCount(lo1) == DigitCount(hi1)
    requires RangeShape(lo0, hi0).pattern == RangeShape(lo1, hi1).pattern
    ensures RangeShape(lo0, hi0).count != [] && RangeShape(lo1, hi1).count != []
  {
    if lo0 == hi0 && lo1 == hi1 {
      LiteralPattern(lo0);
      LiteralPattern(lo1);
      IntToStringInjective(lo0, lo1);
    } else if lo0 == hi0 {
      LiteralPattern(lo0);
      RangedPatternHasClass(lo1, hi1);
    } else if lo1 == hi1 {
      LiteralPattern(lo1);
      RangedPatternHasClass(lo0, hi0);
    } else {
      RangedPatternHasClass(lo0, hi0);
      RangedPatternHasClass(lo1, hi1);
    }
  }

  /** The sub-ranges of a split never ask a literal to be merged. */
  lemma SplitShapesMergeable(min: int, r: seq<int>)
    requires SameWidth(min, r)
    ensures Mergeable(SubShapes(min, r, |r|))
  {
    var shapes := SubShapes(min, r, |r|);
    forall i | 0 < i < |r| && shapes[i - 1].pattern == shapes[i].pattern
      ensures shapes[i].count != []
    {
      var lo0, hi0, lo1, hi1 := SubrangeStart(min, r, i - 1), r[i - 1], SubrangeStart(min, r, i), r[i];
      assert lo1 == hi0 + 1;
      NoLiteralMerge(lo0, hi0, lo1, hi1);
    }
  }

  /** On mergeable tokens the loop does not fail, and its last token has the newest token's pattern. */
  lemma {:induction false} FoldLast(shapes: seq<Token>)
    requires Mergeable(shapes) && shapes != []
    ensures Fold(shapes).Success?
    ensures var ts := Fold(shapes).value; ts != [] && ts[|ts| - 1].pattern == shapes[|shapes| - 1].pattern
  {
    var init := shapes[..|shapes| - 1];
    if init != [] {
      assert Mergeable(init);
      FoldLast(init);
    }
  }

  /** On mergeable tokens, turn i of the loop does not fail. */
  lemma StepSucceeds(shapes: seq<Token>, i: nat, ts: seq<Token>)
    requires Mergeable(shapes) && i < |shapes| && Fold(shapes[..i]) == Success(ts)
    ensures Step(ts, shapes[i]).Success?
  {
    var init := shapes[..i];
    if init != [] {
      assert Mergeable(init);
      FoldLast(init);
    }
  }

  /** SplitToPatterns over a valid split yields tokens, never the IndexOutOfRange of an empty stack. */
  lemma TokensSucceed(min: nat, max: int, r: seq<int>)
    requires max < IntMax && IsSplit(min, max, r)
    ensures Fold(SubShapes(min, r, |r|)).Success? && Fold(SubShapes(min, r, |r|)).value != []
  {
    SplitIsWalkable(min, max, r);
    FoldLast(SubShapes(min, r, |r|));
  }

  // ---------------------------------------------------------------------
  // What the tokens look like

  /** Every OptimisedPattern is the pattern followed by the quantifier of the stack, which holds at most two entries. */
  predicate Rendered(ts: seq<Token>) {
    forall j :: 0 <= j < |ts| ==> ts[j].optimised == Some(ts[j].pattern + ToQuantifier(ts[j].count)) && |ts[j].count| <= 2
  }

  predicate AtMostOneCount(shapes: seq<Token>) {
    forall j :: 0 <= j < |shapes| ==> |shapes[j].count| <= 1
  }

  /** One turn of the loop keeps the tokens rendered, for a token of at most one count. */
  lemma StepKeepsRendered(ts: seq<Token>, cur: Token)
    requires Rendered(ts) && |cur.count| <= 1 && Step(ts, cur).Success?
    ensures Rendered(Step(ts, cur).value)
  {
    var n := |ts|;
    if ts != [] && ts[n - 1].pattern == cur.pattern {
      var merged := Merge(ts[n - 1], cur).value;
      assert Step(ts, cur).value == ts[..n - 1] + [merged];
      MergeRendered(ts[n - 1], cur);
      RenderedReplaceLast(ts, merged);
    } else {
      assert Step(ts, cur).value == ts + [Emit(cur)];
      RenderedAppend(ts, Emit(cur));
    }
  }

  /** A merge keeps at most two entries on the stack and renders them. */
  lemma MergeRendered(prev: Token, cur: Token)
    requires |prev.count| <= 2 && Merge(prev, cur).Success?
    ensures var m := Merge(prev, cur).value;
      m.optimised == Some(m.pattern + ToQuantifier(m.count)) && |m.count| <= 2
  {
  }

  lemma RenderedReplaceLast(ts: seq<Token>, t: Token)
    requires Rendered(ts) && ts != []
    requires t.optimised == Some(t.pattern + ToQuantifier(t.count)) && |t.count| <= 2
    ensures Rendered(ts[..|ts| - 1] + [t])
  {
    var next := ts[..|ts| - 1] + [t];
    forall j | 0 <= j < |next|
      ensures next[j].optimised == Some(next[j].pattern + ToQuantifier(next[j].count)) && |next[j].count| <= 2
    {
      if j < |ts| - 1 {
        assert next[j] == ts[j];
      }
    }
  }

  lemma RenderedAppend(ts: seq<Token>, t: Token)
    requires Rendered(ts)
    requires t.optimised == Some(t.pattern + ToQuantifier(t.count)) && |t.count| <= 2
    ensures Rendered(ts + [t])
  {
  }

  /** All tokens of the loop are rendered. */
  lemma {:induction false} FoldRendered(shapes: seq<Token>)
    requires AtMostOneCount(shapes) && Fold(shapes).Success?
    ensures Rendered(Fold(shapes).value)
  {
    if shapes != [] {
      var init := shapes[..|shapes| - 1];
      assert AtMostOneCount(init);
      FoldRendered(init);
      StepKeepsRendered(Fold(init).value, shapes[|shapes| - 1]);
    }
  }

  /** Neighbouring equal strings collapsed into one: the reference for what merging does to patterns. */
  function Collapse(ps: seq<string>): (r: seq<string>)
    ensures |r| <= |ps| && (ps != [] ==> r != [] && r[|r| - 1] == ps[|ps| - 1])
  {
    if ps == [] then []
    else
      var c := Collapse(ps[..|ps| - 1]);
      if c != [] && c[|c| - 1] == ps[|ps| - 1] then c else c + [ps[|ps| - 1]]
  }

  /** Collapsing keeps every string that occurs and leaves no two equal neighbours. */
  lemma {:induction false} CollapseFacts(ps: seq<string>)
    ensures forall p :: p in Collapse(ps) <==> p in ps
    ensures forall j :: 0 < j < |Collapse(ps)| ==> Collapse(ps)[j - 1] != Collapse(ps)[j]
  {
    if ps != [] {
      var init := ps[..|ps| - 1];
      CollapseFacts(init);
      assert ps == init + [ps[|ps| - 1]];
    }
  }

  function PatternsOf(ts: seq<Token>): (r: seq<string>)
    ensures |r| == |ts| && forall j :: 0 <= j < |ts| ==> r[j] == ts[j].pattern
  {
    seq(|ts|, j requires 0 <= j < |ts| => ts[j].pattern)
  }

  /** One turn of the loop adds the new pattern unless it repeats the last one. */
  lemma StepPatterns(ts: seq<Token>, cur: Token)
    requires Step(ts, cur).Success?
    ensures var ps := PatternsOf(ts);
      PatternsOf(Step(ts, cur).value) == if ps != [] && ps[|ps| - 1] == cur.pattern then ps else ps + [cur.pattern]
  {
    var n := |ts|;
    if ts != [] && ts[n - 1].pattern == cur.pattern {
      PatternsReplaceLast(ts, Merge(ts[n - 1], cur).value);
    } else {
      PatternsAppend(ts, Emit(cur));
    }
  }

  lemma PatternsReplaceLast(ts: seq<Token>, t: Token)
    requires ts != [] && t.pattern == ts[|ts| - 1].pattern
    ensures PatternsOf(ts[..|ts| - 1] + [t]) == PatternsOf(ts)
  {
    var next := ts[..|ts| - 1] + [t];
    forall j | 0 <= j < |ts|
      ensures PatternsOf(next)[j] == PatternsOf(ts)[j]
    {
      if j < |ts| - 1 {
        assert next[j] == ts[j];
      }
    }
  }

  lemma PatternsAppend(ts: seq<Token>, t: Token)
    ensures PatternsOf(ts + [t]) == PatternsOf(ts) + [t.pattern]
  {
    var next := ts + [t];
    forall j | 0 <= j < |next|
      ensures PatternsOf(next)[j] == (PatternsOf(ts) + [t.pattern])[j]
    {
      if j < |ts| {
        assert next[j] == ts[j];
      }
    }
  }

  /**
   * The tokens' patterns are the incoming patterns with each run of equal
   * neighbours collapsed into one: the loop merges exactly the neighbouring
   * sub-ranges that share a pattern.
   */
  lemma {:induction false} FoldCollapsesPatterns(shapes: seq<Token>)
    requires Fold(shapes).Success?
    ensures PatternsOf(Fold(shapes).value) == Collapse(PatternsOf(shapes))
  {
    if shapes != [] {
      var init := shapes[..|shapes| - 1];
      FoldCollapsesPatterns(init);
      assert PatternsOf(shapes)[..|shapes| - 1] == PatternsOf(init);
      StepPatterns(Fold(init).value, shapes[|shapes| - 1]);
    }
  }

  /**
   * The tokens of SplitToPatterns: each OptimisedPattern is the pattern and
   * its quantifier, the patterns are those of the sub-ranges with
   * neighbouring repeats collapsed, so no two neighbouring tokens share one.
   */
  lemma SplitTokens(min: nat, max: int, r: seq<int>)
    requires max < IntMax && IsSplit(min, max, r)
    ensures Fold(SubShapes(min, r, |r|)).Success?
    ensures var ts := Fold(SubShapes(min, r, |r|)).value;
      && Rendered(ts)
      && PatternsOf(ts) == Collapse(PatternsOf(SubShapes(min, r, |r|)))
      && forall j :: 0 < j < |ts| ==> ts[j - 1].pattern != ts[j].pattern
  {
    var shapes := SubShapes(min, r, |r|);
    TokensSucceed(min, max, r);
    forall j | 0 <= j < |shapes|
      ensures |shapes[j].count| <= 1
    {
      RangeShapeCountLength(SubrangeStart(min, r, j), r[j]);
    }
    FoldRendered(shapes);
    FoldCollapsesPatterns(shapes);
    CollapseFacts(PatternsOf(shapes));
    var ts := Fold(shapes).value;
    forall j | 0 < j < |ts|
      ensures ts[j - 1].pattern != ts[j].pattern
    {
      assert PatternsOf(ts)[j - 1] == ts[j - 1].pattern && PatternsOf(ts)[j] == ts[j].pattern;
    }
  }

  /** RangeToPattern leaves at most one entry on the stack. */
  lemma RangeShapeCountLength(min: int, max: int)
    ensures |RangeShape(min, max).count| <= 1
  {
  }

  /**
   * A merged token's quantifier reads back as "from the first merged
   * count to the newest one".
   */
  lemma MergedQuantifier(prev: Token, cur: Token)
    requires |prev.count| in {1, 2} && |cur.count| == 1 && prev.count[0] >= 0 && cur.count[0] >= 0
    ensures Merge(prev, cur).Success?
    ensures ParseQuantifier(Merge(prev, cur).value.optimised.value[|prev.pattern|..]) == Some(Repeat(prev.count[0], cur.count[0]))
  {
    var merged := Merge(prev, cur).value;
    var counts: seq<nat> := [prev.count[0], cur.count[0]];
    assert merged.count == counts;
    QuantifierRoundTrip(counts);
    assert merged.optimised.value[|prev.pattern|..] == ToQuantifier(counts);
  }
}
