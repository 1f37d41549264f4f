/**
  A whole flip of one thread, and what whole runs of puts and flips charge to a group.
 */
module ProfilerFlip {
  import opened ProfilerEntry
  import opened ProfilerFold
  import opened ProfilerGroups
  import opened ProfilerThread
  import Log = ProfilerLog

  // ---------------------------------------------------------------- the flip as operations of the fold

  /** Folding `n` entries of the ring from `pos` on, and the end of the frame. */
  function RingOps(log: seq<Entry>, pos: nat, n: nat): seq<Op>
    decreases n
  {
    if n == 0 then [EndFrame] else [FoldAt(log, pos)] + RingOps(log, Log.NextPut(pos), n - 1)
  }

  function FlipOps(l: Log.ThreadLog): seq<Op>
    requires Log.WellFormed(l)
  {
    RingOps(l.log, Log.AfterFlip(l).1.start, Log.AfterFlip(l).1.count)
  }

  lemma {:induction false} RingOpAt(log: seq<Entry>, pos: nat, n: nat)
    requires pos < 262144
    ensures |RingOps(log, pos, n)| == n + 1 && RingOps(log, pos, n)[n] == EndFrame
    ensures forall i :: 0 <= i < n ==> RingOps(log, pos, n)[i] == FoldAt(log, (pos + i) % 262144)
    decreases n
  {
    if n > 0 {
      var next := Log.NextPut(pos);
      RingOpAt(log, next, n - 1);
      forall i | 0 < i < n
        ensures RingOps(log, pos, n)[i] == FoldAt(log, (pos + i) % 262144)
      {
        assert RingOps(log, pos, n)[i] == RingOps(log, next, n - 1)[i - 1];
        Log.SlotOf(pos + 1, i - 1);
      }
    }
  }

  lemma {:induction false} RangeOpAt(log: seq<Entry>, start: nat, end: nat)
    requires start <= end
    ensures |RangeOps(log, start, end)| == end - start
    ensures forall i :: 0 <= i < end - start ==> RangeOps(log, start, end)[i] == FoldAt(log, start + i)
    decreases end - start
  {
    if start < end {
      RangeOpAt(log, start + 1, end);
    }
  }

  /** The two ranges of a flip are the entries of its part of the ring. */
  lemma RangesAreRing(log: seq<Entry>, r: Log.Ranges, start: nat, n: nat)
    requires start < 262144 && Log.GoesAround(r, start, n)
    ensures RingOps(log, start, n)
            == FrameOps(log, r.start0, r.end0, r.start1, r.end1)
  {
    var ring := RingOps(log, start, n);
    var ranges := FrameOps(log, r.start0, r.end0, r.start1, r.end1);
    RingOpAt(log, start, n);
    RangeOpAt(log, r.start0, r.end0);
    RangeOpAt(log, r.start1, r.end1);
    forall i | 0 <= i < n
      ensures ring[i] == ranges[i]
    {
      assert Log.PositionAt(r, i) == (start + i) % 262144;
    }
  }

  /** A flip in place: the log moves on, the two ranges of the frame are folded one after the other, and the sums
      of the frame are added up. */
  method Flip(log: Log.MicroProfileThreadLog, thread: MicroProfileThread)
    requires log.Valid() && thread.Valid() && log.frames !in {thread.nStack, thread.nGroupStackPos}
    requires AllPossible(thread.groups, thread.View(), FlipOps(log.View()))
    modifies log`framePut, log`get, log.frames, thread`nStackPos, thread.nStack, thread.nChildTickStack
    modifies thread.nGroupStackPos, thread.frameTicks, thread.frameCount, thread.frameExclusive, thread.nGroupTicks
    modifies thread.accumExclusive, thread.threadGroupTicks
    ensures log.Valid() && thread.Valid() && log.View() == Log.AfterFlip(old(log.View())).0
    ensures thread.View() == Run(thread.groups, old(thread.View()), FlipOps(old(log.View())))
  {
    ghost var words, part := log.log[..], Log.AfterFlip(log.View()).1;
    var r := log.Flip();
    RangesAreRing(words, r, part.start, part.count);
    thread.FoldFrame(log.log, r.start0, r.end0, r.start1, r.end1);
  }

  /** The operations of a run of puts and flips. */
  function RunOps(framePut: nat, actions: seq<Log.Action>): seq<Op>
    requires framePut < 512
  {
    if actions == [] then []
    else
      var init := actions[..|actions| - 1];
      match actions[|actions| - 1]
      case Put(_) => RunOps(framePut, init)
      case DoFlip => RunOps(framePut, init) + FlipOps(Log.After(framePut, init).0)
  }

  // ---------------------------------------------------------------- the events of a thread

  /** Event `i` of the thread, whose word is put at its position on the ring. */
  function StepAt(events: seq<Event>, i: nat, log: seq<Entry>): Step
    requires i < |events|
  {
    Logged(events[i], log, i % 262144)
  }

  /** The first `n` events are well nested. */
  predicate WellNested(groups: seq<nat>, start: int, events: seq<Event>, n: nat)
    requires n <= |events|
    decreases n, 0
  {
    n == 0 || (WellNested(groups, start, events, n - 1)
               && Nested(groups, HistoryOf(groups, start, events, n - 1), events[n - 1]))
  }

  function HistoryOf(groups: seq<nat>, start: int, events: seq<Event>, n: nat): History
    requires n <= |events| && WellNested(groups, start, events, n)
    decreases n, 1
  {
    if n == 0 then History([], [], start)
    else Follow(HistoryOf(groups, start, events, n - 1), StepAt(events, n - 1, []))
  }

  /** Which events have opened the scopes that are open after the first `n`. */
  function OpenedBy(events: seq<Event>, n: nat): seq<nat>
    requires n <= |events|
  {
    if n == 0 then []
    else
      var before := OpenedBy(events, n - 1);
      if events[n - 1].Begin? then before + [n - 1]
      else if before == [] then [] else before[..|before| - 1]
  }

  lemma {:induction false} NestedBefore(groups: seq<nat>, start: int, events: seq<Event>, m: nat, n: nat)
    requires m <= n <= |events| && WellNested(groups, start, events, n)
    ensures WellNested(groups, start, events, m)
    decreases n
  {
    if m < n {
      NestedBefore(groups, start, events, m, n - 1);
    }
  }

  /** The open scope is the one that event `i` has opened. */
  ghost predicate OpenIs(o: Open, events: seq<Event>, i: nat, n: nat) {
    i < n <= |events| && o == Open(events[i].timer, events[i].time, i % 262144)
  }

  lemma {:induction false} OpensAre(groups: seq<nat>, start: int, events: seq<Event>, n: nat)
    requires n <= |events| && WellNested(groups, start, events, n)
    ensures var open, openers := HistoryOf(groups, start, events, n).open, OpenedBy(events, n);
            |open| == |openers| && forall j :: 0 <= j < |open| ==> OpenIs(open[j], events, openers[j], n)
    decreases n
  {
    if n > 0 {
      OpensAre(groups, start, events, n - 1);
      var open, openers := HistoryOf(groups, start, events, n - 1).open, OpenedBy(events, n - 1);
      assert forall j :: 0 <= j < |open| ==>
               OpenIs(open[j], events, openers[j], n - 1) ==> OpenIs(open[j], events, openers[j], n);
    }
  }

  ghost predicate InOrderOfTime(start: int, events: seq<Event>, n: nat) {
    n <= |events| && (forall i :: 0 <= i < n ==> start <= events[i].time)
    && forall i, j :: 0 <= i <= j < n ==> events[i].time <= events[j].time
  }

  lemma {:induction false} TimesInOrder(groups: seq<nat>, start: int, events: seq<Event>, n: nat)
    requires n <= |events| && WellNested(groups, start, events, n)
    ensures HistoryOf(groups, start, events, n).now == if n == 0 then start else events[n - 1].time
    ensures InOrderOfTime(start, events, n)
    decreases n
  {
    if n > 0 {
      TimesInOrder(groups, start, events, n - 1);
    }
  }

  /** The clock: less than half the range of the tick counter passes while the ring goes around once. */
  ghost predicate Clocked(events: seq<Event>) {
    forall i, j :: 0 <= i <= j < |events| && j < i + 262144 ==> events[j].time - events[i].time < 0x8000_0000_0000
  }

  /** Time has moved on by the time the ring has gone around once. */
  ghost predicate MovesOn(events: seq<Event>) {
    forall i :: 0 <= i < |events| - 262144 ==> events[i].time < events[i + 262144].time
  }

  /** Nothing is lost where the words were kept, and only there if time moves on. */
  ghost predicate LossIs(events: seq<Event>, lost: int, kept: bool) {
    lost >= 0 && (kept ==> lost == 0) && (MovesOn(events) && lost == 0 ==> kept)
  }

  lemma ShortLap(start: int, events: seq<Event>, i: nat, j: nat)
    requires Clocked(events) && InOrderOfTime(start, events, |events|) && i < |events| && j < |events|
    requires i < j + 262144 && j < i + 262144
    ensures -0x8000_0000_0000 < events[j].time - events[i].time < 0x8000_0000_0000
  {
  }

  // ---------------------------------------------------------------- words that have been overwritten

  /** Of `p` puts the last one into the slot of put `i`. */
  function LastInSlot(p: nat, i: nat): nat
    requires i < p
  {
    i + (p - 1 - i) / 262144 * 262144
  }

  lemma {:induction false} SameSlot(i: nat, laps: nat)
    ensures (i + laps * 262144) % 262144 == i % 262144
  {
    if laps > 0 {
      SameSlot(i, laps - 1);
    }
  }

  lemma LastInSlotIs(p: nat, i: nat)
    requires i < p
    ensures var r := LastInSlot(p, i);
      i <= r < p <= r + 262144 && r % 262144 == i % 262144
      && (r == i <==> p <= i + 262144) && (r > i ==> r >= i + 262144)
  {
    SameSlot(i, (p - 1 - i) / 262144);
  }

  /** The ring after `p` of the events have been put. */
  ghost predicate RingHolds(log: seq<Entry>, events: seq<Event>, p: nat) {
    |log| == 262144 && p <= |events|
    && forall i :: Log.Oldest(p) <= i < p ==> log[i % 262144] == EntryOf(events[i])
  }

  lemma WordInSlot(log: seq<Entry>, events: seq<Event>, p: nat, i: nat)
    requires RingHolds(log, events, p) && i < p
    ensures LastInSlot(p, i) < |events| && log[i % 262144] == EntryOf(events[LastInSlot(p, i)])
  {
    LastInSlotIs(p, i);
  }

  function Opener(events: seq<Event>, n: nat): nat
    requires n <= |events| && OpenedBy(events, n) != []
  {
    OpenedBy(events, n)[|OpenedBy(events, n)| - 1]
  }

  /** If event `n` closes the group, its scope was opened less than a lap before the `p`-th put: fewer puts than the
      ring holds lie between the two. */
  predicate KeptAt(groups: seq<nat>, start: int, events: seq<Event>, p: nat, n: nat, g: nat)
    requires n < |events|
  {
    WellNested(groups, start, events, n)
    && (ClosesGroup(groups, HistoryOf(groups, start, events, n), events[n], g) && OpenedBy(events, n) != [] ==>
          p <= Opener(events, n) + 262144)
  }

  lemma EntryOfTime(event: Event) returns (kind: nat)
    ensures kind < 4 && EntryOf(event) == MakeLogIndex(kind, event.timer, event.time)
  {
    kind := if event.Begin? then ENTER else LEAVE;
  }

  /** The ticks read for a scope run from the event whose word is now in the slot of its opener. */
  lemma TicksFromSlot(groups: seq<nat>, start: int, events: seq<Event>, log: seq<Entry>, p: nat, n: nat)
    requires RingHolds(log, events, p) && Log.Oldest(p) <= n < p && WellNested(groups, start, events, n)
    requires Clocked(events) && InOrderOfTime(start, events, |events|)
    requires HistoryOf(groups, start, events, n).open != []
    ensures var h := HistoryOf(groups, start, events, n);
      OpenedBy(events, n) != [] && Opener(events, n) < n && h.open[|h.open| - 1].k < |log|
      && h.open[|h.open| - 1].time == events[Opener(events, n)].time
      && LastInSlot(p, Opener(events, n)) < |events|
      && TicksRead(h, events[n], log) == events[n].time - events[LastInSlot(p, Opener(events, n))].time
  {
    OpensAre(groups, start, events, n);
    var open := HistoryOf(groups, start, events, n).open;
    var i := Opener(events, n);
    assert OpenIs(open[|open| - 1], events, i, n);
    WordInSlot(log, events, p, i);
    LastInSlotIs(p, i);
    ShortLap(start, events, LastInSlot(p, i), n);
    var kind0 := EntryOfTime(events[LastInSlot(p, i)]);
    var kind1 := EntryOfTime(events[n]);
    DifferenceOfTimes(kind0, events[LastInSlot(p, i)].timer, events[LastInSlot(p, i)].time,
                      kind1, events[n].timer, events[n].time);
  }

  /** A word that has been overwritten is one of a later time. */
  lemma OverwrittenLater(start: int, events: seq<Event>, p: nat, i: nat)
    requires i < p <= |events| && InOrderOfTime(start, events, |events|)
    ensures LastInSlot(p, i) < |events|
    ensures LossIs(events, events[LastInSlot(p, i)].time - events[i].time, p <= i + 262144)
  {
    LastInSlotIs(p, i);
    var r := LastInSlot(p, i);
    if r > i && MovesOn(events) {
      assert events[i].time < events[i + 262144].time <= events[r].time;
    }
  }

  lemma StepIsGood(groups: seq<nat>, start: int, events: seq<Event>, log: seq<Entry>, p: nat, n: nat)
    requires RingHolds(log, events, p) && Log.Oldest(p) <= n < p && WellNested(groups, start, events, n + 1)
    ensures Good(groups, HistoryOf(groups, start, events, n), StepAt(events, n, log))
  {
    OpensAre(groups, start, events, n);
    var open, openers := HistoryOf(groups, start, events, n).open, OpenedBy(events, n);
    forall j | 0 <= j < |open|
      ensures open[j].k < |log|
    {
      assert OpenIs(open[j], events, openers[j], n);
    }
  }

  /** What one event loses of a group's time. */
  lemma LossOfStep(groups: seq<nat>, start: int, events: seq<Event>, log: seq<Entry>, p: nat, n: nat, g: nat)
    requires RingHolds(log, events, p) && Log.Oldest(p) <= n < p && WellNested(groups, start, events, n + 1)
    requires Clocked(events) && InOrderOfTime(start, events, |events|)
    ensures Good(groups, HistoryOf(groups, start, events, n), StepAt(events, n, log))
    ensures var lost := LostAt(groups, HistoryOf(groups, start, events, n), StepAt(events, n, log), g);
            LossIs(events, lost, KeptAt(groups, start, events, p, n, g))
  {
    StepIsGood(groups, start, events, log, p, n);
    if ClosesGroup(groups, HistoryOf(groups, start, events, n), events[n], g) {
      TicksFromSlot(groups, start, events, log, p, n);
      OverwrittenLater(start, events, p, Opener(events, n));
    }
  }

  // ---------------------------------------------------------------- frames and runs

  ghost predicate KeptIn(groups: seq<nat>, start: int, events: seq<Event>, p: nat, b: nat, c: nat, g: nat)
    requires c <= |events|
  {
    forall n :: b <= n < c ==> KeptAt(groups, start, events, p, n, g)
  }

  /** How the fold stands after the first `n` events. */
  ghost predicate StandsAt(groups: seq<nat>, start: int, events: seq<Event>, n: nat, s: Fold, g: nat, before: int)
    requires n <= |events| && WellNested(groups, start, events, n)
  {
    StackInv(groups, HistoryOf(groups, start, events, n), s)
    && GroupInv(groups, HistoryOf(groups, start, events, n), s, g, before)
  }

  /** A frame: the events from `b` up to `c`, with their words in the log, and its end. */
  function FrameSteps(events: seq<Event>, log: seq<Entry>, b: nat, c: nat): seq<Step>
    requires b <= c <= |events|
    decreases c - b
  {
    if b == c then [Frame] else [StepAt(events, b, log)] + FrameSteps(events, log, b + 1, c)
  }

  lemma {:induction false} StepsAreRing(events: seq<Event>, log: seq<Entry>, b: nat, c: nat, pos: nat, n: nat)
    requires b <= c <= |events| && pos == b % 262144 && n == c - b
    ensures OpsOf(FrameSteps(events, log, b, c)) == RingOps(log, pos, n)
    decreases n
  {
    var steps := FrameSteps(events, log, b, c);
    if n == 0 {
      assert OpsOf(steps[1..]) == [];
    } else {
      Log.NextSlot(b);
      StepsAreRing(events, log, b + 1, c, Log.NextPut(pos), n - 1);
      assert steps[1..] == FrameSteps(events, log, b + 1, c);
    }
  }

  /** The steps of a frame that is folded when `p` events have been put lead on in the trace, and lose of a group's
      time as its opening words were kept or not. */
  ghost predicate FrameLeads(groups: seq<nat>, start: int, events: seq<Event>, log: seq<Entry>, p: nat, b: nat, c: nat,
                             g: nat)
    requires b <= c <= |events| && WellNested(groups, start, events, b) && WellNested(groups, start, events, c)
  {
    var h, steps := HistoryOf(groups, start, events, b), FrameSteps(events, log, b, c);
    Traced(groups, h, steps) && HistoryAfter(groups, h, steps) == HistoryOf(groups, start, events, c)
    && LossIs(events, Lost(groups, h, steps, g), KeptIn(groups, start, events, p, b, c, g))
  }

  lemma StepThenMore(groups: seq<nat>, h: History, step: Step, more: seq<Step>, g: nat)
    requires Good(groups, h, step) && Traced(groups, Follow(h, step), more)
    ensures Traced(groups, h, [step] + more)
    ensures HistoryAfter(groups, h, [step] + more) == HistoryAfter(groups, Follow(h, step), more)
    ensures Lost(groups, h, [step] + more, g) == LostAt(groups, h, step, g) + Lost(groups, Follow(h, step), more, g)
  {
    assert ([step] + more)[1..] == more;
  }

  lemma {:induction false} FrameTraced(groups: seq<nat>, start: int, events: seq<Event>, log: seq<Entry>, p: nat,
                                       b: nat, c: nat, g: nat)
    requires RingHolds(log, events, p) && Log.Oldest(p) <= b <= c <= p && WellNested(groups, start, events, c)
    requires Clocked(events) && InOrderOfTime(start, events, |events|) && WellNested(groups, start, events, b)
    ensures FrameLeads(groups, start, events, log, p, b, c, g)
    decreases c - b
  {
    if b == c {
      OneStep(groups, HistoryOf(groups, start, events, b), Frame, g);
    } else {
      NestedBefore(groups, start, events, b + 1, c);
      FrameTraced(groups, start, events, log, p, b + 1, c, g);
      LossOfStep(groups, start, events, log, p, b, g);
      LeadsOn(groups, start, events, log, p, b, c, g);
    }
  }

  lemma KeptFromNext(groups: seq<nat>, start: int, events: seq<Event>, p: nat, b: nat, c: nat, g: nat)
    requires b < c <= |events|
    ensures KeptIn(groups, start, events, p, b, c, g)
            <==> KeptAt(groups, start, events, p, b, g) && KeptIn(groups, start, events, p, b + 1, c, g)
  {
  }

  lemma LeadsOn(groups: seq<nat>, start: int, events: seq<Event>, log: seq<Entry>, p: nat, b: nat, c: nat, g: nat)
    requires b < c <= |events| && WellNested(groups, start, events, b) && WellNested(groups, start, events, c)
    requires WellNested(groups, start, events, b + 1) && FrameLeads(groups, start, events, log, p, b + 1, c, g)
    requires Good(groups, HistoryOf(groups, start, events, b), StepAt(events, b, log))
    requires var lost := LostAt(groups, HistoryOf(groups, start, events, b), StepAt(events, b, log), g);
             LossIs(events, lost, KeptAt(groups, start, events, p, b, g))
    ensures FrameLeads(groups, start, events, log, p, b, c, g)
  {
    var h := HistoryOf(groups, start, events, b);
    assert Follow(h, StepAt(events, b, log)) == HistoryOf(groups, start, events, b + 1);
    StepThenMore(groups, h, StepAt(events, b, log), FrameSteps(events, log, b + 1, c), g);
    KeptFromNext(groups, start, events, p, b, c, g);
  }

  lemma FrameKeepsInv(groups: seq<nat>, start: int, events: seq<Event>, log: seq<Entry>, p: nat, b: nat, c: nat,
                      s: Fold, ops: seq<Op>, g: nat, before: int) returns (lost: int)
    requires b <= c <= |events| && WellNested(groups, start, events, b) && WellNested(groups, start, events, c)
    requires FrameLeads(groups, start, events, log, p, b, c, g) && ops == OpsOf(FrameSteps(events, log, b, c))
    requires StandsAt(groups, start, events, b, s, g, before) && g < 48
    ensures AllPossible(groups, s, ops) && StandsAt(groups, start, events, c, Run(groups, s, ops), g, before - lost)
    ensures LossIs(events, lost, KeptIn(groups, start, events, p, b, c, g))
  {
    var h, steps := HistoryOf(groups, start, events, b), FrameSteps(events, log, b, c);
    lost := Lost(groups, h, steps, g);
    RunKeepsInv(groups, h, s, steps, g, before);
  }

  /** The puts are the words of the first events. */
  ghost predicate WordsOf(puts: seq<Entry>, events: seq<Event>) {
    |puts| <= |events| && forall i :: 0 <= i < |puts| ==> puts[i] == EntryOf(events[i])
  }

  /** No flip of the run folds the end of an outermost scope of the group when as many puts as the ring holds have
      come since its beginning. */
  ghost predicate AllKept(groups: seq<nat>, start: int, events: seq<Event>, actions: seq<Log.Action>, g: nat)
    requires |Log.Puts(actions)| <= |events| && WellNested(groups, start, events, |events|)
    decreases |actions|
  {
    actions == [] ||
    (var init := actions[..|actions| - 1];
     AllKept(groups, start, events, init, g)
     && (actions[|actions| - 1].DoFlip? ==> KeptInFlip(groups, start, events, init, g)))
  }

  ghost predicate KeptInFlip(groups: seq<nat>, start: int, events: seq<Event>, before: seq<Log.Action>, g: nat)
    requires |Log.Puts(before)| <= |events| && WellNested(groups, start, events, |events|)
  {
    var b, c := Log.PutsAtFlip(before, 3), Log.PutsAtFlip(before, 2);
    KeptIn(groups, start, events, |Log.Puts(before)|, b, c, g)
  }

  lemma RingOfPuts(l: Log.ThreadLog, puts: seq<Entry>, events: seq<Event>, b: nat, c: nat, d: nat, e: nat)
    requires Log.Inv(l, puts, b, c, d, e) && WordsOf(puts, events)
    ensures RingHolds(l.log, events, |puts|) && Log.Oldest(|puts|) <= b
    ensures FlipOps(l) == RingOps(l.log, b % 262144, c - b)
  {
    Log.FlipKeepsInv(l, puts, b, c, d, e);
  }

  /** The flip after `init` folds a frame of the trace. */
  lemma FlipLeads(groups: seq<nat>, start: int, events: seq<Event>, framePut: nat, init: seq<Log.Action>, g: nat)
    requires framePut < 512 && Log.Calm(init) && WordsOf(Log.Puts(init), events)
    requires WellNested(groups, start, events, |events|) && Clocked(events)
    requires WellNested(groups, start, events, Log.PutsAtFlip(init, 3))
    ensures WellNested(groups, start, events, Log.PutsAtFlip(init, 2))
    ensures var l, b, c := Log.After(framePut, init).0, Log.PutsAtFlip(init, 3), Log.PutsAtFlip(init, 2);
            b <= c && FrameLeads(groups, start, events, l.log, |Log.Puts(init)|, b, c, g)
            && FlipOps(l) == OpsOf(FrameSteps(events, l.log, b, c))
  {
    var l, puts := Log.After(framePut, init).0, Log.Puts(init);
    var b, c := Log.PutsAtFlip(init, 3), Log.PutsAtFlip(init, 2);
    Log.RunKeepsInv(framePut, init);
    RingOfPuts(l, puts, events, b, c, Log.PutsAtFlip(init, 1), Log.PutsAtFlip(init, 0));
    TimesInOrder(groups, start, events, |events|);
    NestedBefore(groups, start, events, c, |events|);
    StepsAreRing(events, l.log, b, c, b % 262144, c - b);
    FrameTraced(groups, start, events, l.log, |puts|, b, c, g);
  }

  lemma FlipFolds(groups: seq<nat>, start: int, events: seq<Event>, framePut: nat, init: seq<Log.Action>, s: Fold,
                  g: nat, before: int)
    returns (lost: int)
    requires framePut < 512 && Log.Calm(init) && WordsOf(Log.Puts(init), events)
    requires WellNested(groups, start, events, |events|) && Clocked(events) && g < 48
    requires WellNested(groups, start, events, Log.PutsAtFlip(init, 3))
    requires StandsAt(groups, start, events, Log.PutsAtFlip(init, 3), s, g, before)
    ensures WellNested(groups, start, events, Log.PutsAtFlip(init, 2))
    ensures var ops := FlipOps(Log.After(framePut, init).0);
            AllPossible(groups, s, ops)
            && StandsAt(groups, start, events, Log.PutsAtFlip(init, 2), Run(groups, s, ops), g, before - lost)
    ensures LossIs(events, lost, KeptInFlip(groups, start, events, init, g))
  {
    var l, puts := Log.After(framePut, init).0, Log.Puts(init);
    var b, c := Log.PutsAtFlip(init, 3), Log.PutsAtFlip(init, 2);
    FlipLeads(groups, start, events, framePut, init, g);
    lost := FrameKeepsInv(groups, start, events, l.log, |puts|, b, c, s, FlipOps(l), g, before);
  }

  lemma RunThenFlip(groups: seq<nat>, start: int, events: seq<Event>, framePut: nat, init: seq<Log.Action>, s: Fold,
                    ops: seq<Op>, g: nat, before: int) returns (lost: int)
    requires framePut < 512 && Log.Calm(init) && WordsOf(Log.Puts(init), events)
    requires WellNested(groups, start, events, |events|) && Clocked(events) && g < 48
    requires WellNested(groups, start, events, Log.PutsAtFlip(init, 3)) && AllPossible(groups, s, ops)
    requires StandsAt(groups, start, events, Log.PutsAtFlip(init, 3), Run(groups, s, ops), g, before)
    ensures WellNested(groups, start, events, Log.PutsAtFlip(init, 2))
    ensures var all := ops + FlipOps(Log.After(framePut, init).0);
            AllPossible(groups, s, all)
            && StandsAt(groups, start, events, Log.PutsAtFlip(init, 2), Run(groups, s, all), g, before - lost)
    ensures LossIs(events, lost, KeptInFlip(groups, start, events, init, g))
  {
    lost := FlipFolds(groups, start, events, framePut, init, Run(groups, s, ops), g, before);
    RunOfTwo(groups, s, ops, FlipOps(Log.After(framePut, init).0));
  }

  /** The events that a run puts, in its order, and a clock that suits the ring. */
  ghost predicate Traces(groups: seq<nat>, start: int, events: seq<Event>, actions: seq<Log.Action>) {
    Log.Calm(actions) && WordsOf(Log.Puts(actions), events)
    && WellNested(groups, start, events, |events|) && Clocked(events)
  }

  /** The fold stands at the event that has been folded last, and the group has lost as its opening words were kept
      or not. */
  ghost predicate HasFolded(groups: seq<nat>, start: int, events: seq<Event>, framePut: nat, actions: seq<Log.Action>,
                            s: Fold, g: nat, lost: int)
    requires framePut < 512 && Traces(groups, start, events, actions)
  {
    && g < |s.threadGroup| && g < |s.frameGroup| && WellNested(groups, start, events, Log.PutsAtFlip(actions, 3))
    && AllPossible(groups, s, RunOps(framePut, actions))
    && StandsAt(groups, start, events, Log.PutsAtFlip(actions, 3), Run(groups, s, RunOps(framePut, actions)), g,
                Charged(s, g) - lost)
    && LossIs(events, lost, AllKept(groups, start, events, actions, g))
  }

  lemma TracesBefore(groups: seq<nat>, start: int, events: seq<Event>, init: seq<Log.Action>, last: Log.Action)
    requires Traces(groups, start, events, init + [last])
    ensures Traces(groups, start, events, init)
    ensures Log.Puts(init + [last]) == if last.Put? then Log.Puts(init) + [last.e] else Log.Puts(init)
  {
    assert (init + [last])[..|init|] == init;
  }

  lemma FoldedAfterPut(groups: seq<nat>, start: int, events: seq<Event>, framePut: nat, init: seq<Log.Action>, e: Entry,
                       s: Fold, g: nat, lost: int)
    requires framePut < 512 && Traces(groups, start, events, init) && Traces(groups, start, events, init + [Log.Put(e)])
    requires HasFolded(groups, start, events, framePut, init, s, g, lost)
    ensures HasFolded(groups, start, events, framePut, init + [Log.Put(e)], s, g, lost)
  {
    assert (init + [Log.Put(e)])[..|init|] == init;
  }

  lemma OneMoreFlip(groups: seq<nat>, start: int, events: seq<Event>, framePut: nat, init: seq<Log.Action>,
                    actions: seq<Log.Action>, g: nat)
    requires framePut < 512 && actions == init + [Log.DoFlip]
    requires Traces(groups, start, events, init) && Traces(groups, start, events, actions)
    ensures Log.PutsAtFlip(actions, 3) == Log.PutsAtFlip(init, 2)
    ensures RunOps(framePut, actions) == RunOps(framePut, init) + FlipOps(Log.After(framePut, init).0)
    ensures AllKept(groups, start, events, actions, g)
            <==> AllKept(groups, start, events, init, g) && KeptInFlip(groups, start, events, init, g)
  {
    assert actions[..|actions| - 1] == init;
  }

  lemma FoldedAfterFlip(groups: seq<nat>, start: int, events: seq<Event>, framePut: nat, init: seq<Log.Action>,
                        actions: seq<Log.Action>, s: Fold, g: nat, lost: int)
    returns (all: int)
    requires framePut < 512 && actions == init + [Log.DoFlip]
    requires Traces(groups, start, events, init) && Traces(groups, start, events, actions)
    requires HasFolded(groups, start, events, framePut, init, s, g, lost) && g < 48
    ensures HasFolded(groups, start, events, framePut, actions, s, g, all)
  {
    OneMoreFlip(groups, start, events, framePut, init, actions, g);
    var more := RunThenFlip(groups, start, events, framePut, init, s, RunOps(framePut, init), g, Charged(s, g) - lost);
    all := lost + more;
  }

  lemma NothingFolded(groups: seq<nat>, start: int, events: seq<Event>, framePut: nat, s: Fold, g: nat)
    requires framePut < 512 && Traces(groups, start, events, []) && AtRest(groups, s) && g < 48
    ensures HasFolded(groups, start, events, framePut, [], s, g, 0)
  {
    RestInv(groups, s, start, g);
  }

  lemma {:induction false} RunFolds(groups: seq<nat>, start: int, events: seq<Event>, framePut: nat,
                                    actions: seq<Log.Action>, s: Fold, g: nat) returns (lost: int)
    requires framePut < 512 && Traces(groups, start, events, actions) && AtRest(groups, s) && g < 48
    ensures HasFolded(groups, start, events, framePut, actions, s, g, lost)
    decreases |actions|
  {
    if actions == [] {
      lost := 0;
      NothingFolded(groups, start, events, framePut, s, g);
    } else {
      var init, last := actions[..|actions| - 1], actions[|actions| - 1];
      assert actions == init + [last];
      TracesBefore(groups, start, events, init, last);
      lost := RunFolds(groups, start, events, framePut, init, s, g);
      match last
      case Put(e) => FoldedAfterPut(groups, start, events, framePut, init, e, s, g, lost);
      case DoFlip => lost := FoldedAfterFlip(groups, start, events, framePut, init, actions, s, g, lost);
    }
  }

  /** The scopes of the events that have been folded. */
  function FoldedHistory(groups: seq<nat>, start: int, events: seq<Event>, actions: seq<Log.Action>): History
    requires WellNested(groups, start, events, |events|) && |Log.Puts(actions)| <= |events|
  {
    NestedBefore(groups, start, events, Log.PutsAtFlip(actions, 3), |events|);
    HistoryOf(groups, start, events, Log.PutsAtFlip(actions, 3))
  }

  /** Group time over a whole run of puts and flips with fewer puts than the ring holds in any four consecutive
      frames: a group with no open scope has never been charged more than its scopes cover, and exactly that when
      each of its outermost scopes was folded before the ring had gone around once since it was opened; and only
      then, if time moves on while the ring goes around. */
  lemma GroupTimeOfRun(groups: seq<nat>, start: int, events: seq<Event>, framePut: nat, actions: seq<Log.Action>,
                       s: Fold, g: nat)
    requires framePut < 512 && Traces(groups, start, events, actions) && AtRest(groups, s) && g < 48
    requires OpenCount(groups, FoldedHistory(groups, start, events, actions).open, g) == 0
    ensures AllPossible(groups, s, RunOps(framePut, actions))
    ensures WellFormed(groups, Run(groups, s, RunOps(framePut, actions)))
    ensures var charged := Charged(Run(groups, s, RunOps(framePut, actions)), g) - Charged(s, g);
            var covered := |Covered(groups, FoldedHistory(groups, start, events, actions).closed, g)|;
            charged <= covered && (AllKept(groups, start, events, actions, g) ==> charged == covered)
            && (MovesOn(events) && charged == covered ==> AllKept(groups, start, events, actions, g))
  {
    var lost := RunFolds(groups, start, events, framePut, actions, s, g);
    NothingOpen(groups, FoldedHistory(groups, start, events, actions),
                Run(groups, s, RunOps(framePut, actions)), g, Charged(s, g) - lost);
  }
}
