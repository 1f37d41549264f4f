/**
  The fold in place, on the arrays of the profiler.
 */
module ProfilerThread {
  import opened ProfilerEntry
  import opened ProfilerFold

  /** Folding the entries of a range, one by one. */
  function RangeOps(log: seq<Entry>, start: nat, end: nat): seq<Op>
    requires start <= end
    decreases end - start
  {
    if start == end then [] else [FoldAt(log, start)] + RangeOps(log, start + 1, end)
  }

  /** The two ranges of a frame and its end. */
  function FrameOps(log: seq<Entry>, start0: nat, end0: nat, start1: nat, end1: nat): seq<Op>
    requires start0 <= end0 && start1 <= end1
  {
    RangeOps(log, start0, end0) + (RangeOps(log, start1, end1) + [EndFrame])
  }

  lemma FirstOfRange(groups: seq<nat>, s: Fold, log: seq<Entry>, k: nat, end: nat)
    requires k < end && AllPossible(groups, s, RangeOps(log, k, end))
    ensures Foldable(groups, log, s, k)
    ensures var next := FoldEntry(groups, log, s, k);
            AllPossible(groups, next, RangeOps(log, k + 1, end))
            && Run(groups, s, RangeOps(log, k, end)) == Run(groups, next, RangeOps(log, k + 1, end))
  {
    assert RangeOps(log, k, end)[1..] == RangeOps(log, k + 1, end);
  }

  class MicroProfileThread {
    const groups: seq<nat>
    const nStack: array<nat>
    const nChildTickStack: array<int>
    const nGroupStackPos: array<nat>
    const frameTicks: array<int>
    const frameCount: array<int>
    const frameExclusive: array<int>
    const nGroupTicks: array<int>
    const accumExclusive: array<int>
    const threadGroupTicks: array<int>
    var nStackPos: nat

    constructor (groups: seq<nat>)
      requires forall i :: 0 <= i < |groups| ==> groups[i] < MAX_GROUPS
      ensures Valid() && this.groups == groups && View() == Cleared(groups)
      ensures fresh(nStack) && fresh(nChildTickStack) && fresh(nGroupStackPos) && fresh(frameTicks) && fresh(frameCount)
      ensures fresh(frameExclusive) && fresh(nGroupTicks) && fresh(accumExclusive) && fresh(threadGroupTicks)
    {
      var stack := Positions(STACK_MAX);
      var groupPos := Positions(MAX_GROUPS);
      var child := Zeros(STACK_MAX);
      var ticks := Zeros(|groups|);
      var count := Zeros(|groups|);
      var exclusive := Zeros(|groups|);
      var group := Zeros(MAX_GROUPS);
      var accum := Zeros(|groups|);
      var threadGroup := Zeros(MAX_GROUPS);
      this.groups, nStackPos := groups, 0;
      nStack, nChildTickStack, nGroupStackPos := stack, child, groupPos;
      frameTicks, frameCount, frameExclusive, nGroupTicks := ticks, count, exclusive, group;
      accumExclusive, threadGroupTicks := accum, threadGroup;
    }

    ghost predicate Valid()
      reads this, nStack, nChildTickStack, nGroupStackPos, frameTicks, frameCount, frameExclusive, nGroupTicks,
          accumExclusive, threadGroupTicks
    {
      && nStack != nGroupStackPos
      && nChildTickStack !in {frameTicks, frameCount, frameExclusive, nGroupTicks, accumExclusive, threadGroupTicks}
      && frameTicks !in {frameCount, frameExclusive, nGroupTicks, accumExclusive, threadGroupTicks}
      && frameCount !in {frameExclusive, nGroupTicks, accumExclusive, threadGroupTicks}
      && frameExclusive !in {nGroupTicks, accumExclusive, threadGroupTicks}
      && nGroupTicks !in {accumExclusive, threadGroupTicks}
      && accumExclusive != threadGroupTicks
      && WellFormed(groups, View())
    }

    ghost function View(): Fold
      reads this, nStack, nChildTickStack, nGroupStackPos, frameTicks, frameCount, frameExclusive, nGroupTicks,
          accumExclusive, threadGroupTicks
    {
      Fold(nStack[..], nChildTickStack[..], nStackPos, nGroupStackPos[..], frameTicks[..], frameCount[..],
           frameExclusive[..], nGroupTicks[..], accumExclusive[..], threadGroupTicks[..])
    }

    method EnterScope(timer: nat, k: nat)
      requires Valid() && timer < |groups| && nStackPos + 1 < STACK_MAX
      modifies `nStackPos, nStack, nChildTickStack, nGroupStackPos
      ensures Valid() && View() == Enter(groups, old(View()), timer, k)
    {
      var group := groups[timer];
      nGroupStackPos[group] := (nGroupStackPos[group] + 1) % 256;
      nStack[nStackPos] := k;
      nStackPos := nStackPos + 1;
      nChildTickStack[nStackPos] := 0;
    }

    method LeaveScope(timer: nat, ticks: int)
      requires Valid() && timer < |groups| && nStackPos > 0
      modifies `nStackPos, nChildTickStack, frameTicks, frameExclusive, frameCount, nGroupStackPos, nGroupTicks
      ensures Valid() && View() == Leave(groups, old(View()), timer, ticks)
    {
      var childTicks := PopScope(ticks);
      ChargeTimer(timer, ticks, ticks - childTicks);
      LeaveGroupScope(groups[timer], ticks);
    }

    method PopScope(ticks: int) returns (childTicks: int)
      requires Valid() && nStackPos > 0
      modifies `nStackPos, nChildTickStack
      ensures Valid() && View() == Popped(old(View()), ticks) && childTicks == old(nChildTickStack[nStackPos])
    {
      childTicks := nChildTickStack[nStackPos];
      nStackPos := nStackPos - 1;
      nChildTickStack[nStackPos] := nChildTickStack[nStackPos] + ticks;
    }

    method ChargeTimer(timer: nat, ticks: int, exclusive: int)
      requires Valid() && timer < |groups|
      modifies frameTicks, frameExclusive, frameCount
      ensures Valid() && View() == ChargedTo(old(View()), timer, ticks, exclusive)
    {
      frameTicks[timer] := frameTicks[timer] + ticks;
      frameExclusive[timer] := frameExclusive[timer] + exclusive;
      frameCount[timer] := frameCount[timer] + 1;
    }

    method LeaveGroupScope(group: nat, ticks: int)
      requires Valid() && group < MAX_GROUPS
      modifies nGroupStackPos, nGroupTicks
      ensures Valid() && View() == LeaveGroup(old(View()), group, ticks)
    {
      var groupStackPos := nGroupStackPos[group];
      if groupStackPos > 0 {
        groupStackPos := groupStackPos - 1;
        if groupStackPos == 0 {
          nGroupTicks[group] := nGroupTicks[group] + ticks;
        }
        nGroupStackPos[group] := groupStackPos;
      }
    }

    method FoldLogEntry(log: array<Entry>, k: nat)
      requires Valid() && Foldable(groups, log[..], View(), k)
      modifies `nStackPos, nStack, nChildTickStack, frameTicks, frameExclusive, frameCount, nGroupStackPos, nGroupTicks
      ensures Valid() && View() == FoldEntry(groups, old(log[..]), old(View()), k) && log[..] == old(log[..])
    {
      ghost var words := log[..];
      var e := log[k];
      if LogType(e) == ENTER {
        EnterScope(TimerIndex(e), k);
      } else if LogType(e) == LEAVE && nStackPos > 0 {
        assert log[..][nStack[nStackPos - 1]] == log[nStack[nStackPos - 1]];
        LeaveScope(TimerIndex(e), TickDifference(log[nStack[nStackPos - 1]], e));
      }
    }

    /** One of the two ranges of a frame. */
    method FoldRange(log: array<Entry>, start: nat, end: nat)
      requires Valid() && start <= end && AllPossible(groups, View(), RangeOps(log[..], start, end))
      modifies `nStackPos, nStack, nChildTickStack, frameTicks, frameExclusive, frameCount, nGroupStackPos, nGroupTicks
      ensures Valid() && View() == Run(groups, old(View()), RangeOps(old(log[..]), start, end))
              && log[..] == old(log[..])
    {
      ghost var words := log[..];
      for k := start to end
        invariant Valid() && log[..] == words && AllPossible(groups, View(), RangeOps(words, k, end))
        invariant Run(groups, View(), RangeOps(words, k, end)) == Run(groups, old(View()), RangeOps(words, start, end))
      {
        FirstOfRange(groups, View(), words, k, end);
        FoldLogEntry(log, k);
      }
    }

    /** A frame: both of its ranges are folded, one after the other, and its sums are added up. */
    method FoldFrame(log: array<Entry>, start0: nat, end0: nat, start1: nat, end1: nat)
      requires Valid() && start0 <= end0 && start1 <= end1
      requires AllPossible(groups, View(), FrameOps(log[..], start0, end0, start1, end1))
      modifies `nStackPos, nStack, nChildTickStack, frameTicks, frameExclusive, frameCount, nGroupStackPos, nGroupTicks
      modifies accumExclusive, threadGroupTicks
      ensures Valid() && View() == Run(groups, old(View()), FrameOps(old(log[..]), start0, end0, start1, end1))
    {
      ghost var second := RangeOps(log[..], start1, end1);
      RunOfTwo(groups, View(), RangeOps(log[..], start0, end0), second + [Op.EndFrame]);
      FoldRange(log, start0, end0);
      RunOfTwo(groups, View(), second, [Op.EndFrame]);
      FoldRange(log, start1, end1);
      EndFrame();
    }

    /** The sums of the frame go to the sums over the frames and start again from zero. */
    method EndFrame()
      requires Valid()
      modifies frameTicks, frameExclusive, frameCount, nGroupTicks, accumExclusive, threadGroupTicks
      ensures Valid() && View() == NextFrame(groups, old(View()))
    {
      AddTo(accumExclusive, frameExclusive);
      AddTo(threadGroupTicks, nGroupTicks);
      Clear(frameTicks);
      Clear(frameCount);
      Clear(frameExclusive);
      Clear(nGroupTicks);
    }
  }

  method Zeros(n: nat) returns (a: array<int>)
    ensures fresh(a) && a[..] == seq(n, _ => 0)
  {
    a := new int[n](_ => 0);
  }

  method Positions(n: nat) returns (a: array<nat>)
    ensures fresh(a) && a[..] == seq(n, _ => 0)
  {
    a := new nat[n](_ => 0);
  }

  method AddTo(total: array<int>, part: array<int>)
    requires total != part && total.Length == part.Length
    modifies total
    ensures total[..] == Added(old(total[..]), part[..])
  {
    for i := 0 to total.Length
      invariant forall j :: 0 <= j < i ==> total[j] == old(total[j]) + part[j]
      invariant forall j :: i <= j < total.Length ==> total[j] == old(total[j])
    {
      total[i] := total[i] + part[i];
    }
  }

  method Clear(a: array<int>)
    modifies a
    ensures a[..] == seq(a.Length, _ => 0)
  {
    for i := 0 to a.Length
      invariant forall j :: 0 <= j < i ==> a[j] == 0
    {
      a[i] := 0;
    }
  }
}
