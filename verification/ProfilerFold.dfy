/**
  The fold of a thread's log entries into per-timer and per-group ticks, with a scope stack that lives
  across frames.
 */
module ProfilerFold {
  import opened ProfilerEntry

  const STACK_MAX: nat := 32
  const MAX_GROUPS: nat := 48

  /** The part of the profiler that folding one thread reads and writes: the scope stack of log positions,
      the ticks of the children at each depth, the open scopes per group (one byte each), the sums of the
      frame, and the sums over the frames. */
  datatype Fold = Fold(stack: seq<nat>, child: seq<int>, stackPos: nat, groupPos: seq<nat>,
                       frameTicks: seq<int>, frameCount: seq<int>, frameExclusive: seq<int>, frameGroup: seq<int>,
                       accumExclusive: seq<int>, threadGroup: seq<int>)

  /** `groups` is the group of each timer. */
  predicate WellFormed(groups: seq<nat>, s: Fold) {
    && (forall i :: 0 <= i < |groups| ==> groups[i] < 48)
    && |s.stack| == 32 && |s.child| == 32 && s.stackPos < 32
    && |s.groupPos| == 48 && |s.frameGroup| == 48 && |s.threadGroup| == 48
    && |s.frameTicks| == |s.frameCount| == |s.frameExclusive| == |s.accumExclusive| == |groups|
  }

  /** Nothing open and nothing charged. */
  function Cleared(groups: seq<nat>): Fold {
    Fold(seq(32, _ => 0), seq(32, _ => 0), 0, seq(48, _ => 0), seq(|groups|, _ => 0), seq(|groups|, _ => 0),
         seq(|groups|, _ => 0), seq(48, _ => 0), seq(|groups|, _ => 0), seq(48, _ => 0))
  }

  function TopStart(log: seq<Entry>, s: Fold): (e: Entry)
    requires 0 < s.stackPos <= |s.stack| && s.stack[s.stackPos - 1] < |log|
  {
    log[s.stack[s.stackPos - 1]]
  }

  /** What folding the entry at `k` may rely on: a registered timer, room on the stack for one more slot
      above a new scope, and a log that still has the position on top of the stack. */
  predicate Foldable(groups: seq<nat>, log: seq<Entry>, s: Fold, k: nat) {
    && WellFormed(groups, s) && k < |log|
    && (LogType(log[k]) == ENTER || LogType(log[k]) == LEAVE ==> TimerIndex(log[k]) < |groups|)
    && (LogType(log[k]) == ENTER ==> s.stackPos + 1 < 32)
    && (s.stackPos > 0 ==> s.stack[s.stackPos - 1] < |log|)
  }

  function Enter(groups: seq<nat>, s: Fold, timer: nat, k: nat): (r: Fold)
    requires WellFormed(groups, s) && timer < |groups| && s.stackPos + 1 < 32
    ensures WellFormed(groups, r)
  {
    var g := groups[timer];
    s.(groupPos := s.groupPos[g := (s.groupPos[g] + 1) % 256],
       stack := s.stack[s.stackPos := k], stackPos := s.stackPos + 1, child := s.child[s.stackPos + 1 := 0])
  }

  /** The group's share of closing a scope: its ticks count when the last open scope of the group closes. */
  function LeaveGroup(s: Fold, g: nat, ticks: int): Fold
    requires g < |s.groupPos| && g < |s.frameGroup|
  {
    if s.groupPos[g] == 0 then s
    else s.(groupPos := s.groupPos[g := s.groupPos[g] - 1],
            frameGroup := if s.groupPos[g] == 1 then s.frameGroup[g := s.frameGroup[g] + ticks] else s.frameGroup)
  }

  /** The stack without its top, whose ticks count as ticks of a child of the scope below. */
  function Popped(s: Fold, ticks: int): Fold
    requires 0 < s.stackPos <= |s.child|
  {
    s.(stackPos := s.stackPos - 1, child := s.child[s.stackPos - 1 := s.child[s.stackPos - 1] + ticks])
  }

  /** The ticks of a closed scope, those of its children among them or not, in the sums of its timer. */
  function ChargedTo(s: Fold, timer: nat, ticks: int, exclusive: int): Fold
    requires timer < |s.frameTicks| && timer < |s.frameExclusive| && timer < |s.frameCount|
  {
    s.(frameTicks := s.frameTicks[timer := s.frameTicks[timer] + ticks],
       frameExclusive := s.frameExclusive[timer := s.frameExclusive[timer] + exclusive],
       frameCount := s.frameCount[timer := s.frameCount[timer] + 1])
  }

  function Leave(groups: seq<nat>, s: Fold, timer: nat, ticks: int): (r: Fold)
    requires WellFormed(groups, s) && timer < |groups| && s.stackPos > 0
    ensures WellFormed(groups, r)
  {
    LeaveGroup(ChargedTo(Popped(s, ticks), timer, ticks, ticks - s.child[s.stackPos]), groups[timer], ticks)
  }

  /** One entry of the log. */
  function FoldEntry(groups: seq<nat>, log: seq<Entry>, s: Fold, k: nat): (r: Fold)
    requires Foldable(groups, log, s, k)
    ensures WellFormed(groups, r)
  {
    var e := log[k];
    if LogType(e) == ENTER then Enter(groups, s, TimerIndex(e), k)
    else if LogType(e) == LEAVE && s.stackPos > 0 then
      Leave(groups, s, TimerIndex(e), TickDifference(TopStart(log, s), e))
    else s
  }

  function Added(a: seq<int>, b: seq<int>): (r: seq<int>)
    requires |a| == |b|
    ensures |r| == |a| && forall i :: 0 <= i < |r| ==> r[i] == a[i] + b[i]
  {
    seq(|a|, i requires 0 <= i < |a| && |a| == |b| => a[i] + b[i])
  }

  /** The end of a frame: its sums are added to the sums over the frames and cleared. */
  function NextFrame(groups: seq<nat>, s: Fold): (r: Fold)
    requires WellFormed(groups, s)
    ensures WellFormed(groups, r)
  {
    s.(accumExclusive := Added(s.accumExclusive, s.frameExclusive), threadGroup := Added(s.threadGroup, s.frameGroup),
       frameTicks := seq(|groups|, _ => 0), frameCount := seq(|groups|, _ => 0),
       frameExclusive := seq(|groups|, _ => 0), frameGroup := seq(48, _ => 0))
  }

  // ---------------------------------------------------------------- runs over frames

  /** The log may change between any two operations. */
  datatype Op = FoldAt(log: seq<Entry>, k: nat) | EndFrame

  predicate Possible(groups: seq<nat>, s: Fold, op: Op) {
    match op
    case FoldAt(log, k) => Foldable(groups, log, s, k)
    case EndFrame => WellFormed(groups, s)
  }

  function Apply(groups: seq<nat>, s: Fold, op: Op): (r: Fold)
    requires Possible(groups, s, op)
    ensures WellFormed(groups, r)
  {
    match op
    case FoldAt(log, k) => FoldEntry(groups, log, s, k)
    case EndFrame => NextFrame(groups, s)
  }

  predicate AllPossible(groups: seq<nat>, s: Fold, ops: seq<Op>)
    decreases |ops|
  {
    ops == [] || (Possible(groups, s, ops[0]) && AllPossible(groups, Apply(groups, s, ops[0]), ops[1..]))
  }

  function Run(groups: seq<nat>, s: Fold, ops: seq<Op>): Fold
    requires AllPossible(groups, s, ops)
    decreases |ops|
  {
    if ops == [] then s else Run(groups, Apply(groups, s, ops[0]), ops[1..])
  }

  lemma {:induction false} RunOfTwo(groups: seq<nat>, s: Fold, a: seq<Op>, b: seq<Op>)
    ensures AllPossible(groups, s, a + b) <==> AllPossible(groups, s, a) && AllPossible(groups, Run(groups, s, a), b)
    ensures AllPossible(groups, s, a + b) ==> Run(groups, s, a + b) == Run(groups, Run(groups, s, a), b)
    decreases |a|
  {
    if a == [] {
      assert a + b == b;
    } else {
      assert (a + b)[1..] == a[1..] + b;
      if Possible(groups, s, a[0]) {
        RunOfTwo(groups, Apply(groups, s, a[0]), a[1..], b);
      }
    }
  }

  // ---------------------------------------------------------------- conservation

  function Sum(s: seq<int>): int {
    if s == [] then 0 else Sum(s[..|s| - 1]) + s[|s| - 1]
  }

  lemma SumOneMore(s: seq<int>, v: int)
    ensures Sum(s + [v]) == Sum(s) + v
  {
    assert (s + [v])[..|s|] == s;
  }

  lemma {:induction false} SumAfterUpdate(s: seq<int>, i: nat, v: int)
    requires i < |s|
    ensures Sum(s[i := v]) == Sum(s) - s[i] + v
  {
    var last := |s| - 1;
    if i < last {
      SumAfterUpdate(s[..last], i, v);
      assert s[i := v][..last] == s[..last][i := v];
    } else {
      assert s[i := v][..last] == s[..last];
    }
  }

  lemma {:induction false} SumOfAdded(a: seq<int>, b: seq<int>)
    requires |a| == |b|
    ensures Sum(Added(a, b)) == Sum(a) + Sum(b)
  {
    if a != [] {
      var last := |a| - 1;
      SumOfAdded(a[..last], b[..last]);
      assert Added(a, b)[..last] == Added(a[..last], b[..last]);
    }
  }

  lemma {:induction false} SumOfZeros(n: nat)
    ensures Sum(seq(n, _ => 0)) == 0
  {
    if n > 0 {
      SumOfZeros(n - 1);
      var zeros := seq(n, _ => 0);
      assert zeros[..n - 1] == seq(n - 1, _ => 0);
    }
  }

  /** The exclusive ticks charged so far, of all timers and frames. */
  function TotalExclusive(s: Fold): int {
    Sum(s.accumExclusive) + Sum(s.frameExclusive)
  }

  /** The child ticks of the open scopes and of the bottom slot. */
  function Live(s: Fold): int
    requires s.stackPos < |s.child|
  {
    Sum(s.child[..s.stackPos + 1])
  }

  lemma EnterKeepsBalance(groups: seq<nat>, s: Fold, timer: nat, k: nat)
    requires WellFormed(groups, s) && timer < |groups| && s.stackPos + 1 < 32
    ensures var r := Enter(groups, s, timer, k);
            TotalExclusive(r) == TotalExclusive(s) && Live(r) == Live(s) && r.child[0] == s.child[0]
  {
    var p := s.stackPos;
    assert s.child[p + 1 := 0][..p + 2] == s.child[..p + 1] + [0];
    SumOneMore(s.child[..p + 1], 0);
  }

  lemma LiveAfterLeave(child: seq<int>, p: nat, ticks: int)
    requires p + 1 < |child|
    ensures Sum(child[p := child[p] + ticks][..p + 1]) == Sum(child[..p + 2]) - child[p + 1] + ticks
  {
    assert child[..p + 2] == child[..p + 1] + [child[p + 1]];
    SumOneMore(child[..p + 1], child[p + 1]);
    assert child[p := child[p] + ticks][..p + 1] == child[..p + 1][p := child[p] + ticks];
    SumAfterUpdate(child[..p + 1], p, child[p] + ticks);
  }

  lemma LeaveKeepsBalance(groups: seq<nat>, s: Fold, timer: nat, ticks: int)
    requires WellFormed(groups, s) && timer < |groups| && s.stackPos > 0
    ensures var r := Leave(groups, s, timer, ticks);
            TotalExclusive(r) - Live(r) == TotalExclusive(s) - Live(s)
            && r.child[0] == s.child[0] + (if s.stackPos == 1 then ticks else 0)
  {
    var p := s.stackPos - 1;
    LiveAfterLeave(s.child, p, ticks);
    SumAfterUpdate(s.frameExclusive, timer, s.frameExclusive[timer] + (ticks - s.child[p + 1]));
  }

  lemma FrameKeepsBalance(groups: seq<nat>, s: Fold)
    requires WellFormed(groups, s)
    ensures TotalExclusive(NextFrame(groups, s)) == TotalExclusive(s)
  {
    SumOfAdded(s.accumExclusive, s.frameExclusive);
    SumOfZeros(|groups|);
  }

  /** The inclusive ticks of the scope that an operation closes, if it is an outermost one. */
  function OutermostTicks(s: Fold, op: Op): int
    requires s.stackPos > 0 && op.FoldAt? ==>
               op.k < |op.log| && s.stackPos <= |s.stack| && s.stack[s.stackPos - 1] < |op.log|
  {
    if op.FoldAt? && s.stackPos == 1 && LogType(op.log[op.k]) == LEAVE
    then TickDifference(TopStart(op.log, s), op.log[op.k]) else 0
  }

  /** Closing a scope moves its ticks between the exclusive sums and the live children, and loses none. */
  lemma OpKeepsBalance(groups: seq<nat>, s: Fold, op: Op)
    requires Possible(groups, s, op)
    ensures var r := Apply(groups, s, op);
            TotalExclusive(r) - Live(r) == TotalExclusive(s) - Live(s)
            && r.child[0] == s.child[0] + OutermostTicks(s, op)
  {
    match op
    case EndFrame => FrameKeepsBalance(groups, s);
    case FoldAt(log, k) =>
      var e := log[k];
      if LogType(e) == ENTER {
        EnterKeepsBalance(groups, s, TimerIndex(e), k);
      } else if LogType(e) == LEAVE && s.stackPos > 0 {
        LeaveKeepsBalance(groups, s, TimerIndex(e), TickDifference(TopStart(log, s), e));
      }
  }
}
