/**
  A run on which the time of a group is wrong although no put is dropped: a scope that stays open while the ring
  goes around.
 */
module ProfilerLoss {
  import opened ProfilerEntry
  import opened ProfilerFold
  import opened ProfilerGroups
  import opened ProfilerFlip
  import Log = ProfilerLog

  /** One event for each tick: a scope from the first to the last tick, and one after the other, of one tick each,
      in it. */
  function Events(timer: nat, n: nat): (events: seq<Event>)
    ensures |events| == n
  {
    seq(n, i => if i == 0 || (i % 2 == 1 && i + 1 < n) then Begin(timer, i) else End(timer, i))
  }

  /** The events whose scopes are open after the first `m`. */
  function OpenersOf(n: nat, m: nat): seq<nat>
    requires 1 <= m <= n
  {
    if m == n then [] else if m % 2 == 1 then [0] else [0] + [m - 1]
  }

  function OpenOf(timer: nat, i: nat): Open {
    Open(timer, i, i % 262144)
  }

  function OpensOf(timer: nat, n: nat, m: nat): seq<Open>
    requires 1 <= m <= n
  {
    if m == n then [] else if m % 2 == 1 then [OpenOf(timer, 0)] else [OpenOf(timer, 0)] + [OpenOf(timer, m - 1)]
  }

  /** After the first `m` events these scopes are open, opened by these events. */
  ghost predicate OpenAfter(groups: seq<nat>, events: seq<Event>, m: nat, opens: seq<Open>, openers: seq<nat>) {
    m <= |events| && WellNested(groups, 0, events, m) && OpenedBy(events, m) == openers
    && HistoryOf(groups, 0, events, m).open == opens
    && HistoryOf(groups, 0, events, m).now == if m == 0 then 0 else events[m - 1].time
  }

  /** The event comes in time and its timer is registered. */
  predicate InTime(groups: seq<nat>, events: seq<Event>, m: nat) {
    m < |events| && events[m].time >= (if m == 0 then 0 else events[m - 1].time)
    && events[m].timer < |groups| && events[m].timer < 0x4000
  }

  lemma OpenAfterBegin(groups: seq<nat>, events: seq<Event>, m: nat, opens: seq<Open>, more: seq<Open>,
                       openers: seq<nat>, moreOpeners: seq<nat>)
    requires OpenAfter(groups, events, m, opens, openers) && InTime(groups, events, m) && events[m].Begin?
    requires |opens| + 1 < 32 && more == opens + [Open(events[m].timer, events[m].time, m % 262144)]
    requires moreOpeners == openers + [m]
    ensures OpenAfter(groups, events, m + 1, more, moreOpeners)
  {
  }

  lemma OpenAfterEnd(groups: seq<nat>, events: seq<Event>, m: nat, opens: seq<Open>, fewer: seq<Open>, o: Open,
                     openers: seq<nat>, fewerOpeners: seq<nat>, k: nat)
    requires OpenAfter(groups, events, m, opens, openers) && InTime(groups, events, m) && events[m].End?
    requires opens == fewer + [o] && events[m].timer == o.timer && openers == fewerOpeners + [k]
    ensures OpenAfter(groups, events, m + 1, fewer, fewerOpeners)
  {
    assert opens[..|fewer|] == fewer && openers[..|fewerOpeners|] == fewerOpeners;
  }

  lemma OpensStep(timer: nat, n: nat, m: nat) returns (k: nat)
    requires n % 2 == 0 && 1 <= m < n
    ensures if m % 2 == 1 && m + 1 < n then
              OpensOf(timer, n, m + 1) == OpensOf(timer, n, m) + [OpenOf(timer, m)]
              && OpenersOf(n, m + 1) == OpenersOf(n, m) + [m] && |OpensOf(timer, n, m)| < 3
            else
              OpensOf(timer, n, m) == OpensOf(timer, n, m + 1) + [OpenOf(timer, k)]
              && OpenersOf(n, m) == OpenersOf(n, m + 1) + [k]
  {
    k := if m + 1 == n then 0 else m - 1;
    assert [] + [OpenOf(timer, 0)] == [OpenOf(timer, 0)] && [] + [0] == [0];
  }

  lemma EventAt(groups: seq<nat>, timer: nat, n: nat, m: nat)
    requires timer < |groups| && timer < 0x4000 && m < n
    ensures InTime(groups, Events(timer, n), m)
    ensures Events(timer, n)[m] == if m == 0 || (m % 2 == 1 && m + 1 < n) then Begin(timer, m) else End(timer, m)
  {
  }

  lemma {:induction false} EventsNest(groups: seq<nat>, timer: nat, n: nat, m: nat)
    requires timer < |groups| && timer < 0x4000 && n % 2 == 0 && 1 <= m <= n
    ensures OpenAfter(groups, Events(timer, n), m, OpensOf(timer, n, m), OpenersOf(n, m))
    decreases m
  {
    if m == 1 {
      FirstEvent(groups, timer, n, Events(timer, n), OpensOf(timer, n, 1), OpenersOf(n, 1));
    } else {
      EventsNest(groups, timer, n, m - 1);
      NextEvent(groups, timer, n, m - 1, Events(timer, n), OpensOf(timer, n, m - 1), OpensOf(timer, n, m),
                OpenersOf(n, m - 1), OpenersOf(n, m));
    }
  }

  lemma FirstEvent(groups: seq<nat>, timer: nat, n: nat, events: seq<Event>, opens: seq<Open>, openers: seq<nat>)
    requires timer < |groups| && timer < 0x4000 && n > 1 && events == Events(timer, n)
    requires opens == OpensOf(timer, n, 1) && openers == OpenersOf(n, 1)
    ensures OpenAfter(groups, events, 1, opens, openers)
  {
    EventAt(groups, timer, n, 0);
    assert OpenAfter(groups, events, 0, [], []);
    OpenAfterBegin(groups, events, 0, [], opens, [], openers);
  }

  lemma NextEvent(groups: seq<nat>, timer: nat, n: nat, m: nat, events: seq<Event>, opens: seq<Open>, next: seq<Open>,
                  openers: seq<nat>, nextOpeners: seq<nat>)
    requires timer < |groups| && timer < 0x4000 && n % 2 == 0 && 1 <= m < n && events == Events(timer, n)
    requires opens == OpensOf(timer, n, m) && next == OpensOf(timer, n, m + 1)
    requires openers == OpenersOf(n, m) && nextOpeners == OpenersOf(n, m + 1)
    requires OpenAfter(groups, events, m, opens, openers)
    ensures OpenAfter(groups, events, m + 1, next, nextOpeners)
  {
    EventAt(groups, timer, n, m);
    var k := OpensStep(timer, n, m);
    if m % 2 == 1 && m + 1 < n {
      OpenAfterBegin(groups, events, m, opens, next, openers, nextOpeners);
    } else {
      OpenAfterEnd(groups, events, m, opens, next, OpenOf(timer, k), openers, nextOpeners, k);
    }
  }

  /** The run with one event in each frame. */
  function Frames(events: seq<Event>, m: nat): seq<Log.Action>
    requires m <= |events|
  {
    if m == 0 then [] else Frames(events, m - 1) + [Log.Put(EntryOf(events[m - 1]))] + [Log.DoFlip]
  }

  /** A calm run that has put the first `m` events, `ends` of them before each of the last four flips. */
  ghost predicate Stand(actions: seq<Log.Action>, events: seq<Event>, m: nat, ends: seq<nat>) {
    && Log.Calm(actions) && |Log.Puts(actions)| == m <= |events|
    && (forall i :: 0 <= i < m ==> Log.Puts(actions)[i] == EntryOf(events[i]))
    && |ends| == 4 && forall k :: 0 <= k < 4 ==> Log.PutsAtFlip(actions, k) == ends[k]
  }

  lemma AfterOnePut(actions: seq<Log.Action>, events: seq<Event>, m: nat, ends: seq<nat>)
    requires Stand(actions, events, m, ends) && m < |events| && m + 1 < ends[3] + 262144
    ensures Stand(actions + [Log.Put(EntryOf(events[m]))], events, m + 1, ends)
  {
    var all := actions + [Log.Put(EntryOf(events[m]))];
    assert all[..|actions|] == actions;
  }

  lemma AfterOneFlip(actions: seq<Log.Action>, events: seq<Event>, m: nat, ends: seq<nat>)
    requires Stand(actions, events, m, ends) && m < ends[2] + 262144
    ensures Stand(actions + [Log.DoFlip], events, m, [m, ends[0], ends[1], ends[2]])
  {
    assert (actions + [Log.DoFlip])[..|actions|] == actions;
  }

  function Less(m: nat, k: nat): nat {
    if k <= m then m - k else 0
  }

  lemma {:induction false} FramesStand(events: seq<Event>, m: nat)
    requires m <= |events|
    ensures Stand(Frames(events, m), events, m, [m, Less(m, 1), Less(m, 2), Less(m, 3)])
  {
    if m > 0 {
      FramesStand(events, m - 1);
      var before := [m - 1, Less(m - 1, 1), Less(m - 1, 2), Less(m - 1, 3)];
      AfterOnePut(Frames(events, m - 1), events, m - 1, before);
      AfterOneFlip(Frames(events, m - 1) + [Log.Put(EntryOf(events[m - 1]))], events, m, before);
    }
  }

  /** The run up to the flip that folds the last event, and with it. */
  lemma LastFlips(events: seq<Event>) returns (before: seq<Log.Action>)
    requires |events| >= 3
    ensures var n := |events|;
            Stand(before, events, n, [n, n, n, n - 1]) && Stand(before + [Log.DoFlip], events, n, [n, n, n, n])
  {
    var n, frames := |events|, Frames(events, |events|);
    FramesStand(events, n);
    AfterOneFlip(frames, events, n, [n, n - 1, n - 2, n - 3]);
    AfterOneFlip(frames + [Log.DoFlip], events, n, [n, n, n - 1, n - 2]);
    before := frames + [Log.DoFlip] + [Log.DoFlip];
    AfterOneFlip(before, events, n, [n, n, n, n - 1]);
  }

  /** The last event closes the scope that the first one opened, more puts before than the ring holds. */
  lemma LastIsNotKept(groups: seq<nat>, timer: nat, n: nat, before: seq<Log.Action>)
    requires timer < |groups| && timer < 0x4000 && n % 2 == 0 && 262144 < n < 0x8000_0000_0000
    requires Stand(before, Events(timer, n), n, [n, n, n, n - 1])
    ensures WellNested(groups, 0, Events(timer, n), n)
    ensures !KeptInFlip(groups, 0, Events(timer, n), before, groups[timer])
  {
    var events := Events(timer, n);
    EventsNest(groups, timer, n, n);
    EventsNest(groups, timer, n, n - 1);
    assert OpensOf(timer, n, n - 1)[..0] == [];
    assert !KeptAt(groups, 0, events, n, n - 1, groups[timer]);
  }

  lemma EventsAreClocked(timer: nat, n: nat)
    requires n < 0x8000_0000_0000
    ensures Clocked(Events(timer, n)) && MovesOn(Events(timer, n))
  {
  }

  lemma StandTraces(groups: seq<nat>, events: seq<Event>, actions: seq<Log.Action>, ends: seq<nat>)
    requires Stand(actions, events, |events|, ends) && ends[3] == |events|
    requires OpenAfter(groups, events, |events|, [], []) && Clocked(events)
    ensures Traces(groups, 0, events, actions) && FoldedHistory(groups, 0, events, actions).open == []
  {
  }

  lemma NotAllKept(groups: seq<nat>, events: seq<Event>, before: seq<Log.Action>, actions: seq<Log.Action>, g: nat)
    requires Log.Puts(actions) == Log.Puts(before) && |Log.Puts(before)| <= |events|
    requires WellNested(groups, 0, events, |events|)
    requires actions == before + [Log.DoFlip] && !KeptInFlip(groups, 0, events, before, g)
    ensures !AllKept(groups, 0, events, actions, g)
  {
    assert actions[..|actions| - 1] == before;
  }

  lemma AllFoldedNotKept(groups: seq<nat>, timer: nat, n: nat, events: seq<Event>, before: seq<Log.Action>,
                         actions: seq<Log.Action>)
    requires timer < |groups| && timer < 0x4000 && n % 2 == 0 && 262144 < n < 0x8000_0000_0000
    requires events == Events(timer, n) && actions == before + [Log.DoFlip]
    requires Stand(before, events, n, [n, n, n, n - 1]) && Stand(actions, events, n, [n, n, n, n])
    ensures Traces(groups, 0, events, actions) && FoldedHistory(groups, 0, events, actions).open == []
    ensures !AllKept(groups, 0, events, actions, groups[timer]) && MovesOn(events)
  {
    EventsNest(groups, timer, n, n);
    EventsAreClocked(timer, n);
    LastIsNotKept(groups, timer, n, before);
    StandTraces(groups, events, actions, [n, n, n, n]);
    assert Log.Puts(actions) == Log.Puts(before);
    NotAllKept(groups, events, before, actions, groups[timer]);
  }

  /** Whatever the profiler has measured before, there is a calm run, with one put in each frame, after which all
      scopes are closed and folded, and a group has been charged less than its scopes cover. */
  lemma SomeRunLoses(groups: seq<nat>, s: Fold, timer: nat, framePut: nat)
    returns (events: seq<Event>, actions: seq<Log.Action>)
    requires framePut < 512 && AtRest(groups, s) && timer < |groups| && timer < 0x4000 && groups[timer] < 48
    ensures Traces(groups, 0, events, actions) && Log.PutsAtFlip(actions, 3) == |events|
    ensures OpenCount(groups, FoldedHistory(groups, 0, events, actions).open, groups[timer]) == 0
    ensures AllPossible(groups, s, RunOps(framePut, actions))
    ensures WellFormed(groups, Run(groups, s, RunOps(framePut, actions)))
    ensures Charged(Run(groups, s, RunOps(framePut, actions)), groups[timer]) - Charged(s, groups[timer])
            < |Covered(groups, FoldedHistory(groups, 0, events, actions).closed, groups[timer])|
  {
    events := Events(timer, 262146);
    var before := LastFlips(events);
    actions := before + [Log.DoFlip];
    AllFoldedNotKept(groups, timer, 262146, events, before, actions);
    GroupTimeOfRun(groups, 0, events, framePut, actions, s, groups[timer]);
  }
}
