/**
  Group time never double-counts recursion: what the fold charges to a group is the number of ticks that
  the scopes of the group cover, however they nest and however the trace is cut into frames, less what is
  lost where the word that opened a scope is no longer in the log when the scope is closed.
 */
module ProfilerGroups {
  import opened ProfilerEntry
  import opened ProfilerFold

  // ---------------------------------------------------------------- scopes of a well-nested trace

  datatype Event = Begin(timer: nat, time: int) | End(timer: nat, time: int)

  function EntryOf(event: Event): Entry {
    match event
    case Begin(timer, time) => MakeLogIndex(ENTER, timer, time)
    case End(timer, time) => MakeLogIndex(LEAVE, timer, time)
  }

  /** A scope that is open, with the position of its entry in the log, and one that has been closed. */
  datatype Open = Open(timer: nat, time: int, k: nat)

  datatype Scope = Scope(timer: nat, start: int, end: int)

  datatype History = History(open: seq<Open>, closed: seq<Scope>, now: int)

  /** An event of the thread whose entry is at `k` of the log, or the end of a frame. */
  datatype Step = Logged(event: Event, log: seq<Entry>, k: nat) | Frame

  function Follow(h: History, step: Step): History
    requires step.Logged? && step.event.End? ==> h.open != []
  {
    match step
    case Frame => h
    case Logged(Begin(timer, time), _, k) => History(h.open + [Open(timer, time, k)], h.closed, time)
    case Logged(End(timer, time), _, _) =>
      var last := |h.open| - 1;
      History(h.open[..last], h.closed + [Scope(timer, h.open[last].time, time)], time)
  }

  /** Brackets match and time does not go back. */
  predicate Nested(groups: seq<nat>, h: History, event: Event) {
    event.time >= h.now && event.timer < |groups| && event.timer < 0x4000 &&
    match event
    case Begin(_, _) => |h.open| + 1 < 32
    case End(timer, time) =>
      h.open != [] && h.open[|h.open| - 1].timer == timer
  }

  /** The log holds the event at its place, and the positions of the open scopes, whatever is there now. */
  predicate Present(h: History, event: Event, log: seq<Entry>, k: nat) {
    k < |log| && log[k] == EntryOf(event) && forall j :: 0 <= j < |h.open| ==> h.open[j].k < |log|
  }

  predicate Good(groups: seq<nat>, h: History, step: Step) {
    step.Logged? ==> Nested(groups, h, step.event) && Present(h, step.event, step.log, step.k)
  }

  predicate Traced(groups: seq<nat>, h: History, steps: seq<Step>)
    decreases |steps|
  {
    steps == [] ||
    (Good(groups, h, steps[0]) && Traced(groups, Follow(h, steps[0]), steps[1..]))
  }

  function HistoryAfter(groups: seq<nat>, h: History, steps: seq<Step>): History
    requires Traced(groups, h, steps)
    decreases |steps|
  {
    if steps == [] then h else HistoryAfter(groups, Follow(h, steps[0]), steps[1..])
  }

  /** The scope that an event closes, with the group open nowhere else. */
  predicate ClosesGroup(groups: seq<nat>, h: History, event: Event, g: nat) {
    event.End? && h.open != [] && InGroup(groups, event.timer, g) && OpenCount(groups, h.open[..|h.open| - 1], g) == 0
  }

  /** The ticks that the fold takes a scope to have, from the word that is now where it was opened. */
  function TicksRead(h: History, event: Event, log: seq<Entry>): int
    requires h.open != [] && h.open[|h.open| - 1].k < |log|
  {
    TickDifference(log[h.open[|h.open| - 1].k], EntryOf(event))
  }

  /** What a step loses of the time of a group: the ticks of the scope that closes the group, less those read
      from the log. */
  function LostAt(groups: seq<nat>, h: History, step: Step, g: nat): int
    requires Good(groups, h, step)
  {
    if step.Logged? && ClosesGroup(groups, h, step.event, g)
    then step.event.time - h.open[|h.open| - 1].time - TicksRead(h, step.event, step.log)
    else 0
  }

  function Lost(groups: seq<nat>, h: History, steps: seq<Step>, g: nat): int
    requires Traced(groups, h, steps)
    decreases |steps|
  {
    if steps == [] then 0 else LostAt(groups, h, steps[0], g) + Lost(groups, Follow(h, steps[0]), steps[1..], g)
  }

  function OpOf(step: Step): Op {
    match step
    case Frame => EndFrame
    case Logged(_, log, k) => FoldAt(log, k)
  }

  function OpsOf(steps: seq<Step>): seq<Op> {
    if steps == [] then [] else [OpOf(steps[0])] + OpsOf(steps[1..])
  }

  // ---------------------------------------------------------------- covered ticks

  function Interval(start: int, end: int): (r: set<int>)
    ensures forall t :: t in r <==> start <= t < end
    ensures start <= end ==> |r| == end - start
    decreases end - start
  {
    if start >= end then {} else Interval(start, end - 1) + {end - 1}
  }

  predicate InGroup(groups: seq<nat>, timer: nat, g: nat) {
    timer < |groups| && groups[timer] == g
  }

  /** The ticks that the closed scopes of a group cover. */
  function Covered(groups: seq<nat>, closed: seq<Scope>, g: nat): set<int> {
    if closed == [] then {}
    else
      var last := |closed| - 1;
      Covered(groups, closed[..last], g)
      + if InGroup(groups, closed[last].timer, g) then Interval(closed[last].start, closed[last].end) else {}
  }

  lemma CoveredOneMore(groups: seq<nat>, closed: seq<Scope>, s: Scope, g: nat)
    ensures Covered(groups, closed + [s], g)
            == Covered(groups, closed, g) + if InGroup(groups, s.timer, g) then Interval(s.start, s.end) else {}
  {
    assert (closed + [s])[..|closed|] == closed;
  }

  function Below(ticks: set<int>, bound: int): set<int> {
    set t | t in ticks && t < bound
  }

  predicate AllBelow(ticks: set<int>, bound: int) {
    forall t :: t in ticks ==> t < bound
  }

  // ---------------------------------------------------------------- open scopes of a group

  function OpenCount(groups: seq<nat>, open: seq<Open>, g: nat): (n: nat)
    ensures n <= |open|
  {
    if open == [] then 0
    else
      var last := |open| - 1;
      OpenCount(groups, open[..last], g) + if InGroup(groups, open[last].timer, g) then 1 else 0
  }

  /** When the outermost open scope of the group began, or now if there is none. */
  function Frontier(groups: seq<nat>, open: seq<Open>, g: nat, now: int): int {
    if open == [] then now
    else
      var last := |open| - 1;
      if OpenCount(groups, open[..last], g) > 0 then Frontier(groups, open[..last], g, now)
      else if InGroup(groups, open[last].timer, g) then open[last].time
      else now
  }

  lemma OpenOneMore(groups: seq<nat>, open: seq<Open>, o: Open, g: nat, now: int)
    ensures OpenCount(groups, open + [o], g)
            == OpenCount(groups, open, g) + if InGroup(groups, o.timer, g) then 1 else 0
    ensures Frontier(groups, open + [o], g, now)
            == if OpenCount(groups, open, g) > 0 then Frontier(groups, open, g, now)
               else if InGroup(groups, o.timer, g) then o.time else now
  {
    assert (open + [o])[..|open|] == open;
  }

  lemma {:induction false} FrontierWithoutOpen(groups: seq<nat>, open: seq<Open>, g: nat, now: int, later: int)
    ensures if OpenCount(groups, open, g) == 0 then Frontier(groups, open, g, now) == now
            else Frontier(groups, open, g, now) == Frontier(groups, open, g, later)
  {
    if open != [] {
      FrontierWithoutOpen(groups, open[..|open| - 1], g, now, later);
    }
  }

  predicate InOrder(open: seq<Open>, now: int) {
    (forall i, j :: 0 <= i < j < |open| ==> open[i].time <= open[j].time)
    && forall i :: 0 <= i < |open| ==> open[i].time <= now
  }

  lemma {:induction false} FrontierIsEarliest(groups: seq<nat>, open: seq<Open>, g: nat, now: int)
    requires InOrder(open, now) && OpenCount(groups, open, g) > 0
    ensures open != [] && Frontier(groups, open, g, now) <= open[|open| - 1].time
  {
    var last := |open| - 1;
    if OpenCount(groups, open[..last], g) > 0 {
      FrontierIsEarliest(groups, open[..last], g, now);
      assert open[..last][last - 1] == open[last - 1];
    }
  }

  // ---------------------------------------------------------------- the invariant

  function Charged(s: Fold, g: nat): int
    requires g < |s.threadGroup| && g < |s.frameGroup|
  {
    s.threadGroup[g] + s.frameGroup[g]
  }

  /** The scope stack of the fold is that of the trace. */
  predicate SameStack(h: History, s: Fold) {
    s.stackPos == |h.open| < 32 && |s.stack| == 32 && forall j :: 0 <= j < |h.open| ==> s.stack[j] == h.open[j].k
  }

  ghost predicate GroupCounted(groups: seq<nat>, h: History, s: Fold, q: nat) {
    q < |s.groupPos| && s.groupPos[q] == OpenCount(groups, h.open, q)
  }

  ghost predicate StackInv(groups: seq<nat>, h: History, s: Fold) {
    WellFormed(groups, s) && SameStack(h, s) && InOrder(h.open, h.now)
    && forall q :: 0 <= q < 48 ==> GroupCounted(groups, h, s, q)
  }

  /** Charged are the covered ticks before the outermost open scope of the group. */
  ghost predicate GroupInv(groups: seq<nat>, h: History, s: Fold, g: nat, before: int) {
    && g < |s.threadGroup| && g < |s.frameGroup| && AllBelow(Covered(groups, h.closed, g), h.now)
    && Charged(s, g) - before == |Below(Covered(groups, h.closed, g), Frontier(groups, h.open, g, h.now))|
  }

  lemma BelowAll(ticks: set<int>, bound: int)
    requires AllBelow(ticks, bound)
    ensures Below(ticks, bound) == ticks
  {
  }

  /** Opening a scope charges nothing. */
  lemma BeginKeepsCover(groups: seq<nat>, h: History, o: Open, g: nat)
    requires InOrder(h.open, h.now) && h.now <= o.time && AllBelow(Covered(groups, h.closed, g), h.now)
    ensures InOrder(h.open + [o], o.time) && AllBelow(Covered(groups, h.closed, g), o.time)
    ensures Below(Covered(groups, h.closed, g), Frontier(groups, h.open + [o], g, o.time))
            == Below(Covered(groups, h.closed, g), Frontier(groups, h.open, g, h.now))
  {
    var ticks := Covered(groups, h.closed, g);
    OpenOneMore(groups, h.open, o, g, o.time);
    FrontierWithoutOpen(groups, h.open, g, h.now, o.time);
    BelowAll(ticks, h.now);
    BelowAll(ticks, o.time);
  }

  /** Closing the outermost scope of a group charges exactly the ticks that it adds to the cover. */
  lemma OutermostAdds(ticks: set<int>, start: int, now: int, end: int)
    requires AllBelow(ticks, now) && start <= now <= end
    ensures AllBelow(ticks + Interval(start, end), end)
    ensures |Below(ticks + Interval(start, end), end)| == |Below(ticks, start)| + (end - start)
  {
    var both := ticks + Interval(start, end);
    BelowAll(both, end);
    assert both == Below(ticks, start) + Interval(start, end);
    assert Below(ticks, start) !! Interval(start, end);
  }

  /** Closing a scope inside another one of its group charges nothing. */
  lemma InnerAdds(ticks: set<int>, frontier: int, start: int, end: int)
    requires frontier <= start
    ensures Below(ticks + Interval(start, end), frontier) == Below(ticks, frontier)
  {
  }

  lemma EndKeepsCover(groups: seq<nat>, h: History, init: seq<Open>, o: Open, end: int, g: nat)
    requires h.open == init + [o] && InOrder(h.open, h.now) && h.now <= end
             && AllBelow(Covered(groups, h.closed, g), h.now)
    ensures InOrder(init, end)
    ensures var ticks := Covered(groups, h.closed, g);
            var after := Covered(groups, h.closed + [Scope(o.timer, o.time, end)], g);
      AllBelow(after, end)
      && |Below(after, Frontier(groups, init, g, end))| == |Below(ticks, Frontier(groups, h.open, g, h.now))|
         + if InGroup(groups, o.timer, g) && OpenCount(groups, init, g) == 0 then end - o.time else 0
  {
    var ticks := Covered(groups, h.closed, g);
    CoveredOneMore(groups, h.closed, Scope(o.timer, o.time, end), g);
    OpenOneMore(groups, init, o, g, h.now);
    FrontierWithoutOpen(groups, init, g, h.now, end);
    InitInOrder(init, o, h.now, end);
    if InGroup(groups, o.timer, g) {
      if OpenCount(groups, init, g) == 0 {
        OutermostAdds(ticks, o.time, h.now, end);
      } else {
        FrontierIsEarliest(groups, init, g, end);
        InnerAdds(ticks, Frontier(groups, init, g, end), o.time, end);
      }
    } else if OpenCount(groups, init, g) == 0 {
      BelowAll(ticks, h.now);
      BelowAll(ticks, end);
    }
  }

  lemma InitInOrder(init: seq<Open>, o: Open, now: int, end: int)
    requires InOrder(init + [o], now) && now <= end
    ensures InOrder(init, end) && o.time <= now && (init != [] ==> init[|init| - 1].time <= o.time)
  {
    var open := init + [o];
    assert open[|init|] == o;
    assert forall i :: 0 <= i < |init| ==> init[i] == open[i];
  }

  // ---------------------------------------------------------------- the fold follows the trace

  lemma BeginFolds(groups: seq<nat>, h: History, s: Fold, timer: nat, time: int, log: seq<Entry>, k: nat)
    requires WellFormed(groups, s) && SameStack(h, s) && Nested(groups, h, Begin(timer, time))
             && Present(h, Begin(timer, time), log, k)
    ensures Foldable(groups, log, s, k) && FoldEntry(groups, log, s, k) == Enter(groups, s, timer, k)
    ensures SameStack(Follow(h, Logged(Begin(timer, time), log, k)), Enter(groups, s, timer, k))
  {
    FieldsReadBack(ENTER, timer, time);
    if h.open != [] {
      assert h.open[|h.open| - 1].k < |log|;
    }
  }

  lemma EndFolds(groups: seq<nat>, h: History, s: Fold, timer: nat, time: int, log: seq<Entry>, k: nat)
    requires WellFormed(groups, s) && SameStack(h, s)
    requires Nested(groups, h, End(timer, time)) && Present(h, End(timer, time), log, k)
    ensures Foldable(groups, log, s, k)
    ensures var ticks := TicksRead(h, End(timer, time), log);
            FoldEntry(groups, log, s, k) == Leave(groups, s, timer, ticks)
            && SameStack(Follow(h, Logged(End(timer, time), log, k)), Leave(groups, s, timer, ticks))
  {
    FieldsReadBack(LEAVE, timer, time);
    assert s.stack[s.stackPos - 1] == h.open[|h.open| - 1].k;
  }

  /** Nothing is lost where the word that opened the scope is still there and the scope is shorter than half
      the range of the tick counter. */
  lemma NothingLost(groups: seq<nat>, h: History, event: Event, log: seq<Entry>, k: nat, g: nat)
    requires Nested(groups, h, event) && Present(h, event, log, k) && ClosesGroup(groups, h, event, g)
    requires var top := h.open[|h.open| - 1];
             log[top.k] == EntryOf(Begin(top.timer, top.time)) && 0 <= event.time - top.time < 0x8000_0000_0000
    ensures LostAt(groups, h, Logged(event, log, k), g) == 0
  {
    var top := h.open[|h.open| - 1];
    DifferenceOfTimes(ENTER, top.timer, top.time, LEAVE, event.timer, event.time);
  }

  lemma EnterCounts(groups: seq<nat>, s: Fold, timer: nat, k: nat, g: nat)
    requires WellFormed(groups, s) && timer < |groups| && s.stackPos + 1 < 32 && g < 48 && s.groupPos[g] < 255
    ensures var r := Enter(groups, s, timer, k);
      r.groupPos[g] == s.groupPos[g] + (if groups[timer] == g then 1 else 0) && Charged(r, g) == Charged(s, g)
  {
  }

  /** What closing a scope does to the account of one group. */
  lemma LeaveCharges(groups: seq<nat>, s: Fold, timer: nat, ticks: int, g: nat)
    requires WellFormed(groups, s) && timer < |groups| && s.stackPos > 0 && g < 48 && s.groupPos[groups[timer]] > 0
    ensures var r := Leave(groups, s, timer, ticks);
      r.groupPos[g] == s.groupPos[g] - (if groups[timer] == g then 1 else 0)
      && Charged(r, g) == Charged(s, g) + if groups[timer] == g && s.groupPos[g] == 1 then ticks else 0
  {
  }

  lemma BeginKeepsInv(groups: seq<nat>, h: History, s: Fold, o: Open, r: Fold, g: nat, before: int)
    requires StackInv(groups, h, s) && GroupInv(groups, h, s, g, before) && g < 48 && h.now <= o.time
    requires o.timer < |groups| && s.stackPos + 1 < 32 && r == Enter(groups, s, o.timer, o.k)
    requires SameStack(History(h.open + [o], h.closed, o.time), r)
    ensures StackInv(groups, History(h.open + [o], h.closed, o.time), r)
    ensures GroupInv(groups, History(h.open + [o], h.closed, o.time), r, g, before)
  {
    BeginKeepsCover(groups, h, o, g);
    forall q | 0 <= q < 48
      ensures GroupCounted(groups, History(h.open + [o], h.closed, o.time), r, q)
    {
      assert GroupCounted(groups, h, s, q);
      EnterCounts(groups, s, o.timer, o.k, q);
      OpenOneMore(groups, h.open, o, q, o.time);
    }
    assert GroupCounted(groups, h, s, g);
    EnterCounts(groups, s, o.timer, o.k, g);
  }

  function Closed(h: History, init: seq<Open>, o: Open, time: int): History {
    History(init, h.closed + [Scope(o.timer, o.time, time)], time)
  }

  lemma EndCounts(groups: seq<nat>, h: History, s: Fold, init: seq<Open>, o: Open, time: int, ticks: int, r: Fold,
                  q: nat)
    requires WellFormed(groups, s) && s.stackPos > 0 && q < 48
    requires h.open == init + [o] && o.timer < |groups| && r == Leave(groups, s, o.timer, ticks)
    requires GroupCounted(groups, h, s, q) && GroupCounted(groups, h, s, groups[o.timer])
    ensures GroupCounted(groups, Closed(h, init, o, time), r, q)
    ensures Charged(r, q)
            == Charged(s, q) + if InGroup(groups, o.timer, q) && OpenCount(groups, init, q) == 0 then ticks else 0
  {
    OpenOneMore(groups, init, o, groups[o.timer], time);
    OpenOneMore(groups, init, o, q, time);
    LeaveCharges(groups, s, o.timer, ticks, q);
  }

  lemma EndKeepsStack(groups: seq<nat>, h: History, s: Fold, init: seq<Open>, o: Open, time: int, ticks: int, r: Fold)
    requires StackInv(groups, h, s) && h.now <= time
    requires h.open == init + [o] && o.timer < |groups| && r == Leave(groups, s, o.timer, ticks)
    requires SameStack(Closed(h, init, o, time), r)
    ensures StackInv(groups, Closed(h, init, o, time), r)
  {
    InitInOrder(init, o, h.now, time);
    assert GroupCounted(groups, h, s, groups[o.timer]);
    forall q | 0 <= q < 48
      ensures GroupCounted(groups, Closed(h, init, o, time), r, q)
    {
      assert GroupCounted(groups, h, s, q);
      EndCounts(groups, h, s, init, o, time, ticks, r, q);
    }
  }

  function LostTicks(groups: seq<nat>, init: seq<Open>, o: Open, time: int, ticks: int, g: nat): int {
    if InGroup(groups, o.timer, g) && OpenCount(groups, init, g) == 0 then time - o.time - ticks else 0
  }

  lemma EndKeepsCharge(groups: seq<nat>, h: History, s: Fold, init: seq<Open>, o: Open, time: int, ticks: int, r: Fold,
                       g: nat, before: int)
    requires StackInv(groups, h, s) && GroupInv(groups, h, s, g, before) && g < 48 && h.now <= time
    requires h.open == init + [o] && o.timer < |groups| && r == Leave(groups, s, o.timer, ticks)
    ensures GroupInv(groups, Closed(h, init, o, time), r, g, before - LostTicks(groups, init, o, time, ticks, g))
  {
    assert GroupCounted(groups, h, s, g) && GroupCounted(groups, h, s, groups[o.timer]);
    EndKeepsCover(groups, h, init, o, time, g);
    EndCounts(groups, h, s, init, o, time, ticks, r, g);
  }

  lemma FrameKeepsInv(groups: seq<nat>, h: History, s: Fold, g: nat, before: int)
    requires StackInv(groups, h, s) && GroupInv(groups, h, s, g, before)
    ensures StackInv(groups, h, NextFrame(groups, s)) && GroupInv(groups, h, NextFrame(groups, s), g, before)
  {
    var r := NextFrame(groups, s);
    assert forall q :: 0 <= q < 48 ==> GroupCounted(groups, h, s, q) ==> GroupCounted(groups, h, r, q);
  }

  lemma LoggedBeginKeepsInv(groups: seq<nat>, h: History, s: Fold, timer: nat, time: int, log: seq<Entry>, k: nat,
                            g: nat, before: int)
    requires StackInv(groups, h, s) && GroupInv(groups, h, s, g, before) && g < 48
    requires Nested(groups, h, Begin(timer, time)) && Present(h, Begin(timer, time), log, k)
    ensures Foldable(groups, log, s, k)
    ensures var after := Follow(h, Logged(Begin(timer, time), log, k));
      StackInv(groups, after, FoldEntry(groups, log, s, k))
        && GroupInv(groups, after, FoldEntry(groups, log, s, k), g, before)
  {
    BeginFolds(groups, h, s, timer, time, log, k);
    BeginKeepsInv(groups, h, s, Open(timer, time, k), Enter(groups, s, timer, k), g, before);
  }

  lemma EndFollows(groups: seq<nat>, h: History, timer: nat, time: int, log: seq<Entry>, k: nat)
    returns (init: seq<Open>, o: Open)
    requires Nested(groups, h, End(timer, time))
    ensures h.open == init + [o] && o.timer == timer && o == h.open[|h.open| - 1]
    ensures Follow(h, Logged(End(timer, time), log, k)) == Closed(h, init, o, time)
  {
    var last := |h.open| - 1;
    init, o := h.open[..last], h.open[last];
  }

  lemma LoggedEndKeepsInv(groups: seq<nat>, h: History, s: Fold, timer: nat, time: int, log: seq<Entry>, k: nat,
                          g: nat, before: int)
    requires StackInv(groups, h, s) && GroupInv(groups, h, s, g, before) && g < 48
    requires Nested(groups, h, End(timer, time)) && Present(h, End(timer, time), log, k)
    ensures Foldable(groups, log, s, k)
    ensures var after := Follow(h, Logged(End(timer, time), log, k));
      StackInv(groups, after, FoldEntry(groups, log, s, k))
      && GroupInv(groups, after, FoldEntry(groups, log, s, k), g,
                  before - LostAt(groups, h, Logged(End(timer, time), log, k), g))
  {
    EndFolds(groups, h, s, timer, time, log, k);
    var r := FoldEntry(groups, log, s, k);
    var ticks := TicksRead(h, End(timer, time), log);
    var init, o := EndFollows(groups, h, timer, time, log, k);
    EndKeepsStack(groups, h, s, init, o, time, ticks, r);
    EndKeepsCharge(groups, h, s, init, o, time, ticks, r, g, before);
    assert init == h.open[..|h.open| - 1];
  }

  lemma StepKeepsInv(groups: seq<nat>, h: History, s: Fold, step: Step, g: nat, before: int)
    requires StackInv(groups, h, s) && GroupInv(groups, h, s, g, before) && g < 48 && Good(groups, h, step)
    ensures Possible(groups, s, OpOf(step))
    ensures StackInv(groups, Follow(h, step), Apply(groups, s, OpOf(step)))
    ensures GroupInv(groups, Follow(h, step), Apply(groups, s, OpOf(step)), g, before - LostAt(groups, h, step, g))
  {
    match step
    case Frame => FrameKeepsInv(groups, h, s, g, before);
    case Logged(Begin(timer, time), log, k) => LoggedBeginKeepsInv(groups, h, s, timer, time, log, k, g, before);
    case Logged(End(timer, time), log, k) => LoggedEndKeepsInv(groups, h, s, timer, time, log, k, g, before);
  }

  lemma {:induction false} RunKeepsInv(groups: seq<nat>, h: History, s: Fold, steps: seq<Step>, g: nat, before: int)
    requires StackInv(groups, h, s) && GroupInv(groups, h, s, g, before) && g < 48 && Traced(groups, h, steps)
    ensures AllPossible(groups, s, OpsOf(steps))
    ensures StackInv(groups, HistoryAfter(groups, h, steps), Run(groups, s, OpsOf(steps)))
    ensures GroupInv(groups, HistoryAfter(groups, h, steps), Run(groups, s, OpsOf(steps)), g,
                     before - Lost(groups, h, steps, g))
    decreases |steps|
  {
    if steps != [] {
      StepKeepsInv(groups, h, s, steps[0], g, before);
      RunKeepsInv(groups, Follow(h, steps[0]), Apply(groups, s, OpOf(steps[0])), steps[1..], g,
                  before - LostAt(groups, h, steps[0], g));
      assert OpsOf(steps)[1..] == OpsOf(steps[1..]);
    }
  }

  /** Nothing open, nothing pending. */
  predicate AtRest(groups: seq<nat>, s: Fold) {
    WellFormed(groups, s) && s.stackPos == 0 && forall q :: 0 <= q < 48 ==> s.groupPos[q] == 0
  }

  lemma RestInv(groups: seq<nat>, s: Fold, start: int, g: nat)
    requires AtRest(groups, s) && g < 48
    ensures StackInv(groups, History([], [], start), s) && GroupInv(groups, History([], [], start), s, g, Charged(s, g))
  {
    var h := History([], [], start);
    assert forall q :: 0 <= q < 48 ==> GroupCounted(groups, h, s, q);
    assert Below(Covered(groups, [], g), start) == {};
  }

  lemma NothingOpen(groups: seq<nat>, h: History, s: Fold, g: nat, before: int)
    requires GroupInv(groups, h, s, g, before) && OpenCount(groups, h.open, g) == 0
    ensures Charged(s, g) - before == |Covered(groups, h.closed, g)|
  {
    FrontierWithoutOpen(groups, h.open, g, h.now, h.now);
    BelowAll(Covered(groups, h.closed, g), h.now);
  }

  /** Over any well-nested trace, in any number of frames and whatever the log holds, a group with no open
      scope has been charged exactly as many ticks as its scopes cover together, less what was lost. */
  lemma GroupTimeIsCover(groups: seq<nat>, s: Fold, start: int, steps: seq<Step>, g: nat)
    requires AtRest(groups, s) && g < 48 && Traced(groups, History([], [], start), steps)
    requires OpenCount(groups, HistoryAfter(groups, History([], [], start), steps).open, g) == 0
    ensures AllPossible(groups, s, OpsOf(steps))
    ensures WellFormed(groups, Run(groups, s, OpsOf(steps)))
    ensures Charged(Run(groups, s, OpsOf(steps)), g) - Charged(s, g)
            == |Covered(groups, HistoryAfter(groups, History([], [], start), steps).closed, g)|
               - Lost(groups, History([], [], start), steps, g)
  {
    var h := History([], [], start);
    RestInv(groups, s, start, g);
    RunKeepsInv(groups, h, s, steps, g, Charged(s, g));
    NothingOpen(groups, HistoryAfter(groups, h, steps), Run(groups, s, OpsOf(steps)), g,
                Charged(s, g) - Lost(groups, h, steps, g));
  }

  /** The trace is folded: its scopes of the group cover so many ticks, and so many are charged. */
  ghost predicate CoversAndCharges(groups: seq<nat>, s: Fold, start: int, steps: seq<Step>, g: nat, covered: int,
                                   charged: int) {
    var h := History([], [], start);
    && Traced(groups, h, steps) && |Covered(groups, HistoryAfter(groups, h, steps).closed, g)| == covered
    && AllPossible(groups, s, OpsOf(steps)) && WellFormed(groups, s) && WellFormed(groups, Run(groups, s, OpsOf(steps)))
    && g < 48 && Charged(Run(groups, s, OpsOf(steps)), g) - Charged(s, g) == charged
  }

  lemma OneScopeCovers(groups: seq<nat>, timer: nat, begin: int, end: int)
    requires timer < |groups| && begin <= end
    ensures |Covered(groups, [Scope(timer, begin, end)], groups[timer])| == end - begin
  {
    CoveredOneMore(groups, [], Scope(timer, begin, end), groups[timer]);
    assert [] + [Scope(timer, begin, end)] == [Scope(timer, begin, end)];
    assert {} + Interval(begin, end) == Interval(begin, end);
  }

  lemma TwoSteps(groups: seq<nat>, h: History, first: Step, second: Step, g: nat)
    requires Good(groups, h, first) && Good(groups, Follow(h, first), second)
    ensures Traced(groups, h, [first, second])
    ensures HistoryAfter(groups, h, [first, second]) == Follow(Follow(h, first), second)
    ensures Lost(groups, h, [first, second], g)
            == LostAt(groups, h, first, g) + LostAt(groups, Follow(h, first), second, g)
  {
    assert [first, second][1..] == [second];
    OneStep(groups, Follow(h, first), second, g);
  }

  lemma OneStep(groups: seq<nat>, h: History, step: Step, g: nat)
    requires Good(groups, h, step)
    ensures Traced(groups, h, [step]) && HistoryAfter(groups, h, [step]) == Follow(h, step)
    ensures Lost(groups, h, [step], g) == LostAt(groups, h, step, g)
  {
    assert [step][1..] == [];
  }

  /** An input on which the group time is wrong: a scope whose opening word has been overwritten by a word of
      time `w` is charged `end - w` ticks and not the `end - begin` that it covers. */
  lemma OverwrittenScope(groups: seq<nat>, s: Fold, timer: nat, begin: int, end: int, log: seq<Entry>, j: nat,
                         later: seq<Entry>, k: nat, kind: nat, token: nat, w: int)
    requires AtRest(groups, s) && timer < |groups| && timer < 0x4000 && groups[timer] < 48 && begin <= end
    requires j < |log| && log[j] == EntryOf(Begin(timer, begin)) && k < |later| && later[k] == EntryOf(End(timer, end))
    requires j < |later| && kind < 4 && later[j] == MakeLogIndex(kind, token, w)
    requires -0x8000_0000_0000 <= end - w < 0x8000_0000_0000
    ensures CoversAndCharges(groups, s, begin, [Logged(Begin(timer, begin), log, j), Logged(End(timer, end), later, k)],
                             groups[timer], end - begin, end - w)
  {
    var h, g := History([], [], begin), groups[timer];
    var first, second := Logged(Begin(timer, begin), log, j), Logged(End(timer, end), later, k);
    var h1 := History([Open(timer, begin, j)], [], begin);
    assert Follow(h, first) == h1;
    assert h1.open[..0] == [];
    DifferenceOfTimes(kind, token, w, LEAVE, timer, end);
    assert LostAt(groups, h1, second, g) == (end - begin) - (end - w);
    assert Follow(h1, second).closed == [Scope(timer, begin, end)];
    TwoSteps(groups, h, first, second, g);
    OneScopeCovers(groups, timer, begin, end);
    GroupTimeIsCover(groups, s, begin, [first, second], g);
  }
}
