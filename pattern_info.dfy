/**
 * PatternInfo: the mutable record the range compiler fills in for each
 * token, and the value view of it that the specifications use.
 */
module PatternInfos {
  import opened Wrappers
  import opened Collections

  /** The contents of a PatternInfo at one moment. */
  datatype Token = Token(pattern: string, optimised: Option<string>, count: seq<int>, digits: int)

  /**
   * A token of the compiled range. Count is a Stack<int>, held bottom first:
   * its top is the last element. OptimisedPattern is None while the C#
   * property is still null.
   */
  class PatternInfo {
    var Pattern: string
    var OptimisedPattern: Option<string>
    var Count: seq<int>
    var Digits: int

    /** `new PatternInfo { Pattern = pattern }`: every other property keeps its default. */
    constructor (pattern: string)
      ensures Pattern == pattern && OptimisedPattern == None
      ensures Count == [] && Digits == 0
    {
      Pattern := pattern;
      OptimisedPattern := None;
      Count := [];
      Digits := 0;
    }

    function Snapshot(): Token
      reads this
    {
      Token(Pattern, OptimisedPattern, Count, Digits)
    }

    /** Count.Push(v). */
    method Push(v: int)
      modifies this
      ensures Count == old(Count) + [v]
      ensures Pattern == old(Pattern) && OptimisedPattern == old(OptimisedPattern) && Digits == old(Digits)
    {
      Count := Count + [v];
    }

    /** Count.Pop(): removes and returns the top; the C# Stack throws when empty. */
    method Pop() returns (top: int)
      requires Count != []
      modifies this
      ensures top == old(Count[|Count| - 1]) && Count == old(Count[..|Count| - 1])
      ensures Pattern == old(Pattern) && OptimisedPattern == old(OptimisedPattern) && Digits == old(Digits)
    {
      top := Count[|Count| - 1];
      Count := Count[..|Count| - 1];
    }

    /** The OptimisedPattern setter: the other properties are separate storage. */
    method SetOptimisedPattern(p: string)
      modifies this
      ensures OptimisedPattern == Some(p)
      ensures Pattern == old(Pattern) && Count == old(Count) && Digits == old(Digits)
    {
      OptimisedPattern := Some(p);
    }
  }

  /** Count is last-in-first-out: a Pop right after a Push returns the pushed value and restores the stack. */
  method PushThenPop(info: PatternInfo, v: int) returns (top: int)
    modifies info
    ensures top == v && info.Snapshot() == old(info.Snapshot())
  {
    info.Push(v);
    top := info.Pop();
  }

  /** Stack<int>.ToArray() of a stack held bottom first: the entries, top first. */
  function StackToArray(stack: seq<int>): (r: seq<int>)
    ensures |r| == |stack| && (stack != [] ==> r[0] == stack[|stack| - 1])
  {
    Reversed(stack)
  }

  /** The contents of a list of PatternInfo objects. */
  function Snapshots(infos: seq<PatternInfo>): (r: seq<Token>)
    reads set t | t in infos
    ensures |r| == |infos|
    ensures forall i :: 0 <= i < |infos| ==> r[i] == infos[i].Snapshot()
  {
    if infos == [] then [] else Snapshots(infos[..|infos| - 1]) + [infos[|infos| - 1].Snapshot()]
  }
}
