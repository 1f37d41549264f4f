/**
  All threads of the profiler: each has its own scope stack, and all of them are folded into one set of sums.
 */
module ProfilerThreads {
  import opened ProfilerEntry
  import opened ProfilerFold

  /** What belongs to one thread. */
  datatype Stacks = Stacks(stack: seq<nat>, child: seq<int>, stackPos: nat, groupPos: seq<nat>, frameGroup: seq<int>,
                           threadGroup: seq<int>)

  /** What all threads share. */
  datatype Sums = Sums(frameTicks: seq<int>, frameCount: seq<int>, frameExclusive: seq<int>, accumExclusive: seq<int>)

  datatype Machine = Machine(threads: seq<Stacks>, sums: Sums)

  /** What folding one thread reads and writes. */
  function FoldOf(t: Stacks, u: Sums): Fold {
    Fold(t.stack, t.child, t.stackPos, t.groupPos, u.frameTicks, u.frameCount, u.frameExclusive, t.frameGroup,
         u.accumExclusive, t.threadGroup)
  }

  function StacksOf(s: Fold): Stacks {
    Stacks(s.stack, s.child, s.stackPos, s.groupPos, s.frameGroup, s.threadGroup)
  }

  function SumsOf(s: Fold): Sums {
    Sums(s.frameTicks, s.frameCount, s.frameExclusive, s.accumExclusive)
  }

  predicate SumsFit(groups: seq<nat>, u: Sums) {
    |u.frameTicks| == |u.frameCount| == |u.frameExclusive| == |u.accumExclusive| == |groups|
  }

  predicate Fits(groups: seq<nat>, m: Machine) {
    SumsFit(groups, m.sums) && forall i :: 0 <= i < |m.threads| ==> WellFormed(groups, FoldOf(m.threads[i], m.sums))
  }

  /** An entry of one thread is folded, or the frame ends for all of them. */
  datatype ThreadOp = FoldThread(i: nat, log: seq<Entry>, k: nat) | EndFrames

  predicate CanDo(groups: seq<nat>, m: Machine, op: ThreadOp) {
    Fits(groups, m)
    && (op.FoldThread? ==> op.i < |m.threads| && Foldable(groups, op.log, FoldOf(m.threads[op.i], m.sums), op.k))
  }

  /** At the end of a frame the shared sums are added up once, and each thread adds up its group ticks. */
  function NextSums(u: Sums): Sums
    requires |u.accumExclusive| == |u.frameExclusive|
  {
    var zeros := seq(|u.frameExclusive|, _ => 0);
    Sums(zeros, zeros, zeros, Added(u.accumExclusive, u.frameExclusive))
  }

  function NextStacks(t: Stacks): Stacks
    requires |t.threadGroup| == |t.frameGroup|
  {
    t.(threadGroup := Added(t.threadGroup, t.frameGroup), frameGroup := seq(48, _ => 0))
  }

  function Do(groups: seq<nat>, m: Machine, op: ThreadOp): (r: Machine)
    requires CanDo(groups, m, op)
    ensures Fits(groups, r) && |r.threads| == |m.threads|
  {
    match op
    case FoldThread(i, log, k) =>
      var r := FoldEntry(groups, log, FoldOf(m.threads[i], m.sums), k);
      Machine(m.threads[i := StacksOf(r)], SumsOf(r))
    case EndFrames =>
      Machine(seq(|m.threads|, i requires 0 <= i < |m.threads| && Fits(groups, m) => NextStacks(m.threads[i])),
              NextSums(m.sums))
  }

  /** For each thread the end of the frame is that of its fold. */
  lemma EndsAlike(groups: seq<nat>, m: Machine, i: nat)
    requires Fits(groups, m) && i < |m.threads|
    ensures FoldOf(Do(groups, m, EndFrames).threads[i], Do(groups, m, EndFrames).sums)
            == NextFrame(groups, FoldOf(m.threads[i], m.sums))
  {
  }

  predicate CanDoAll(groups: seq<nat>, m: Machine, ops: seq<ThreadOp>)
    decreases |ops|
  {
    ops == [] || (CanDo(groups, m, ops[0]) && CanDoAll(groups, Do(groups, m, ops[0]), ops[1..]))
  }

  function DoAll(groups: seq<nat>, m: Machine, ops: seq<ThreadOp>): Machine
    requires CanDoAll(groups, m, ops)
    decreases |ops|
  {
    if ops == [] then m else DoAll(groups, Do(groups, m, ops[0]), ops[1..])
  }

  // ---------------------------------------------------------------- conservation

  function Charges(u: Sums): int {
    Sum(u.accumExclusive) + Sum(u.frameExclusive)
  }

  /** The child ticks of the open scopes and of the bottom slot of one thread. */
  function LiveOf(t: Stacks): int {
    if t.stackPos < |t.child| then Sum(t.child[..t.stackPos + 1]) else 0
  }

  function BottomOf(t: Stacks): int {
    if t.child == [] then 0 else t.child[0]
  }

  function PerThread(threads: seq<Stacks>, f: Stacks -> int): (r: seq<int>)
    ensures |r| == |threads| && forall i :: 0 <= i < |r| ==> r[i] == f(threads[i])
  {
    seq(|threads|, i requires 0 <= i < |threads| => f(threads[i]))
  }

  /** The child ticks that are live on any thread. */
  function AllLive(m: Machine): int {
    Sum(PerThread(m.threads, LiveOf))
  }

  function AllBottoms(m: Machine): int {
    Sum(PerThread(m.threads, BottomOf))
  }

  lemma OneThreadChanges(threads: seq<Stacks>, i: nat, t: Stacks, f: Stacks -> int)
    requires i < |threads|
    ensures Sum(PerThread(threads[i := t], f)) == Sum(PerThread(threads, f)) - f(threads[i]) + f(t)
  {
    assert PerThread(threads[i := t], f) == PerThread(threads, f)[i := f(t)];
    SumAfterUpdate(PerThread(threads, f), i, f(t));
  }

  /** The inclusive ticks of the scope that an operation closes, if it is an outermost one of its thread. */
  function ClosedTicks(groups: seq<nat>, m: Machine, op: ThreadOp): int
    requires CanDo(groups, m, op)
  {
    match op
    case EndFrames => 0
    case FoldThread(i, log, k) => OutermostTicks(FoldOf(m.threads[i], m.sums), FoldAt(log, k))
  }

  function AllClosedTicks(groups: seq<nat>, m: Machine, ops: seq<ThreadOp>): int
    requires CanDoAll(groups, m, ops)
    decreases |ops|
  {
    if ops == [] then 0
    else ClosedTicks(groups, m, ops[0]) + AllClosedTicks(groups, Do(groups, m, ops[0]), ops[1..])
  }

  lemma FoldConserves(groups: seq<nat>, m: Machine, i: nat, log: seq<Entry>, k: nat)
    requires CanDo(groups, m, FoldThread(i, log, k))
    ensures var op := FoldThread(i, log, k);
            var r := Do(groups, m, op);
            Charges(r.sums) - AllLive(r) == Charges(m.sums) - AllLive(m)
            && AllBottoms(r) == AllBottoms(m) + ClosedTicks(groups, m, op)
  {
    var s := FoldOf(m.threads[i], m.sums);
    var r := FoldEntry(groups, log, s, k);
    OpKeepsBalance(groups, s, FoldAt(log, k));
    OneThreadChanges(m.threads, i, StacksOf(r), LiveOf);
    OneThreadChanges(m.threads, i, StacksOf(r), BottomOf);
  }

  lemma FrameConserves(groups: seq<nat>, m: Machine)
    requires Fits(groups, m)
    ensures var r := Do(groups, m, EndFrames);
            Charges(r.sums) == Charges(m.sums) && AllLive(r) == AllLive(m) && AllBottoms(r) == AllBottoms(m)
  {
    var r := Do(groups, m, EndFrames);
    SumOfAdded(m.sums.accumExclusive, m.sums.frameExclusive);
    SumOfZeros(|groups|);
    assert PerThread(r.threads, LiveOf) == PerThread(m.threads, LiveOf);
    assert PerThread(r.threads, BottomOf) == PerThread(m.threads, BottomOf);
  }

  /** Conservation over any number of threads and frames and any trace, balanced or not: exclusive ticks less
      the live child ticks do not change, and the bottom slots grow by the ticks of outermost scopes. */
  lemma {:induction false} ExclusiveTimeIsConserved(groups: seq<nat>, m: Machine, ops: seq<ThreadOp>)
    requires Fits(groups, m) && CanDoAll(groups, m, ops)
    ensures var r := DoAll(groups, m, ops);
            Fits(groups, r) && |r.threads| == |m.threads|
            && Charges(r.sums) - AllLive(r) == Charges(m.sums) - AllLive(m)
            && AllBottoms(r) == AllBottoms(m) + AllClosedTicks(groups, m, ops)
    decreases |ops|
  {
    if ops != [] {
      match ops[0] {
        case FoldThread(i, log, k) => FoldConserves(groups, m, i, log, k);
        case EndFrames => FrameConserves(groups, m);
      }
      ExclusiveTimeIsConserved(groups, Do(groups, m, ops[0]), ops[1..]);
    }
  }

  predicate AllEmpty(m: Machine) {
    forall i :: 0 <= i < |m.threads| ==> m.threads[i].stackPos == 0
  }

  lemma EmptyIsBottom(groups: seq<nat>, m: Machine)
    requires Fits(groups, m) && AllEmpty(m)
    ensures AllLive(m) == AllBottoms(m)
  {
    forall i | 0 <= i < |m.threads|
      ensures LiveOf(m.threads[i]) == BottomOf(m.threads[i])
    {
      var t := m.threads[i];
      assert WellFormed(groups, FoldOf(t, m.sums));
      assert t.child[..1] == [] + [t.child[0]];
      SumOneMore([], t.child[0]);
    }
    assert PerThread(m.threads, LiveOf) == PerThread(m.threads, BottomOf);
  }

  /** From empty stacks to empty stacks the exclusive ticks of all threads add up to the inclusive ticks of their
      outermost scopes. */
  lemma ExclusiveAddsUpToInclusive(groups: seq<nat>, m: Machine, ops: seq<ThreadOp>)
    requires Fits(groups, m) && CanDoAll(groups, m, ops) && AllEmpty(m) && AllEmpty(DoAll(groups, m, ops))
    ensures Charges(DoAll(groups, m, ops).sums) == Charges(m.sums) + AllClosedTicks(groups, m, ops)
  {
    ExclusiveTimeIsConserved(groups, m, ops);
    EmptyIsBottom(groups, m);
    EmptyIsBottom(groups, DoAll(groups, m, ops));
  }
}
