/**
  What each timer is charged: the lengths of its scopes, and these lengths without those of the scopes directly
  enclosed, frame by frame.
 */
module ProfilerTimers {
  import opened ProfilerEntry
  import opened ProfilerFold
  import opened ProfilerGroups

  // ---------------------------------------------------------------- the scopes of a trace

  /** A closed scope, with the number of scopes that were open around it. */
  datatype Span = Span(timer: nat, start: int, end: int, depth: nat)

  /** The scopes of a trace in the order in which they were closed, and how many of them in earlier frames. */
  datatype Book = Book(h: History, spans: seq<Span>, earlier: nat)

  function Noted(b: Book, step: Step): Book
    requires step.Logged? && step.event.End? ==> b.h.open != []
  {
    match step
    case Frame => b.(earlier := |b.spans|)
    case Logged(Begin(_, _), _, _) => b.(h := Follow(b.h, step))
    case Logged(End(timer, time), _, _) =>
      var depth := |b.h.open| - 1;
      Book(Follow(b.h, step), b.spans + [Span(timer, b.h.open[depth].time, time, depth)], b.earlier)
  }

  function Length(s: Span): int {
    s.end - s.start
  }

  /** The scopes directly enclosed in one of this depth that is closed next, or still open: those one deeper since the
      last one that was no deeper.  Their lengths together. */
  function Enclosed(spans: seq<Span>, depth: nat): int {
    if spans == [] then 0
    else
      var last := spans[|spans| - 1];
      if last.depth <= depth then 0
      else (if last.depth == depth + 1 then Length(last) else 0) + Enclosed(spans[..|spans| - 1], depth)
  }

  /** The length of a scope without the scopes directly enclosed in it. */
  function OwnLength(spans: seq<Span>, i: nat): int
    requires i < |spans|
  {
    Length(spans[i]) - Enclosed(spans[..i], spans[i].depth)
  }

  /** Over the scopes of a timer from the `from`-th on: their lengths, their own lengths, and their number. */
  function LengthsOf(spans: seq<Span>, from: nat, timer: nat): int {
    if |spans| <= from then 0
    else
      var n := |spans| - 1;
      LengthsOf(spans[..n], from, timer) + if spans[n].timer == timer then Length(spans[n]) else 0
  }

  function OwnLengthsOf(spans: seq<Span>, from: nat, timer: nat): int {
    if |spans| <= from then 0
    else
      var n := |spans| - 1;
      OwnLengthsOf(spans[..n], from, timer) + if spans[n].timer == timer then OwnLength(spans, n) else 0
  }

  function NumberOf(spans: seq<Span>, from: nat, timer: nat): nat {
    if |spans| <= from then 0
    else
      var n := |spans| - 1;
      NumberOf(spans[..n], from, timer) + if spans[n].timer == timer then 1 else 0
  }

  // ---------------------------------------------------------------- the invariant

  /** The ticks read for a scope that is closed are its length. */
  predicate TrulyRead(groups: seq<nat>, h: History, step: Step) {
    Good(groups, h, step)
    && (step.Logged? && step.event.End? ==>
          TicksRead(h, step.event, step.log) == step.event.time - h.open[|h.open| - 1].time)
  }

  /** That is so where the word that opened the scope is still there and the scope is short enough for the counter. */
  lemma KeptIsTrulyRead(groups: seq<nat>, h: History, event: Event, log: seq<Entry>, k: nat)
    requires Nested(groups, h, event) && Present(h, event, log, k)
    requires event.End? ==>
               var top := h.open[|h.open| - 1];
               log[top.k] == EntryOf(Begin(top.timer, top.time)) && top.timer < 0x4000
               && 0 <= event.time - top.time < 0x8000_0000_0000
    ensures TrulyRead(groups, h, Logged(event, log, k))
  {
    if event.End? {
      var top := h.open[|h.open| - 1];
      DifferenceOfTimes(ENTER, top.timer, top.time, LEAVE, event.timer, event.time);
    }
  }

  /** The child ticks at each depth are the lengths enclosed so far in the scope that is open there, and the last
      scope closed was no deeper than one opened next. */
  ghost predicate ChildrenEnclosed(b: Book, child: seq<int>) {
    |child| == 32 && |b.h.open| < 32
    && (forall d :: 0 <= d < |b.h.open| ==> child[d + 1] == Enclosed(b.spans, d))
    && (b.spans != [] ==> b.spans[|b.spans| - 1].depth <= |b.h.open|)
  }

  /** What one timer has been charged: in this frame the lengths of its scopes closed in it, their own lengths and
      their number, and over the frames before the own lengths of those closed in them. */
  ghost predicate TimerCharged(spans: seq<Span>, earlier: nat, s: Fold, t: nat) {
    && t < |s.frameTicks| && t < |s.frameExclusive| && t < |s.frameCount| && t < |s.accumExclusive|
    && earlier <= |spans|
    && s.frameTicks[t] == LengthsOf(spans, earlier, t)
    && s.frameExclusive[t] == OwnLengthsOf(spans, earlier, t)
    && s.frameCount[t] == NumberOf(spans, earlier, t)
    && s.accumExclusive[t] == OwnLengthsOf(spans[..earlier], 0, t)
  }

  ghost predicate Accounts(groups: seq<nat>, b: Book, s: Fold, t: nat) {
    WellFormed(groups, s) && SameStack(b.h, s) && ChildrenEnclosed(b, s.child)
    && TimerCharged(b.spans, b.earlier, s, t)
  }

  lemma EnclosedOneMore(spans: seq<Span>, span: Span, depth: nat)
    ensures Enclosed(spans + [span], depth)
            == if span.depth <= depth then 0
               else (if span.depth == depth + 1 then Length(span) else 0) + Enclosed(spans, depth)
  {
    assert (spans + [span])[..|spans|] == spans;
  }

  lemma SumsOneMore(spans: seq<Span>, span: Span, from: nat, t: nat)
    requires from <= |spans|
    ensures LengthsOf(spans + [span], from, t)
            == LengthsOf(spans, from, t) + if span.timer == t then Length(span) else 0
    ensures NumberOf(spans + [span], from, t) == NumberOf(spans, from, t) + if span.timer == t then 1 else 0
    ensures OwnLengthsOf(spans + [span], from, t)
            == OwnLengthsOf(spans, from, t)
               + if span.timer == t then Length(span) - Enclosed(spans, span.depth) else 0
  {
    assert (spans + [span])[..|spans|] == spans;
  }

  lemma {:induction false} OwnLengthsSplit(spans: seq<Span>, from: nat, t: nat)
    requires from <= |spans|
    ensures OwnLengthsOf(spans, 0, t) == OwnLengthsOf(spans[..from], 0, t) + OwnLengthsOf(spans, from, t)
    decreases |spans|
  {
    if from < |spans| {
      var n := |spans| - 1;
      OwnLengthsSplit(spans[..n], from, t);
      assert spans[..n][..from] == spans[..from];
    } else {
      assert spans[..from] == spans;
    }
  }

  // ---------------------------------------------------------------- one step

  lemma ChildrenAfterBegin(b: Book, child: seq<int>, next: Book, o: Open)
    requires ChildrenEnclosed(b, child) && |b.h.open| < 31 && next.h.open == b.h.open + [o] && next.spans == b.spans
    ensures ChildrenEnclosed(next, child[|b.h.open| + 1 := 0])
  {
    var n := |b.h.open|;
    assert Enclosed(b.spans, n) == 0;
  }

  lemma ChildrenAfterEnd(b: Book, child: seq<int>, next: Book, span: Span)
    requires ChildrenEnclosed(b, child) && b.h.open != [] && span.depth == |b.h.open| - 1
    requires next.h.open == b.h.open[..span.depth] && next.spans == b.spans + [span]
    ensures ChildrenEnclosed(next, child[span.depth := child[span.depth] + Length(span)])
  {
    forall d | 0 <= d < span.depth
      ensures child[span.depth := child[span.depth] + Length(span)][d + 1] == Enclosed(next.spans, d)
    {
      EnclosedOneMore(b.spans, span, d);
    }
  }

  /** What closing a scope does to the sums of each timer. */
  lemma LeaveTimers(groups: seq<nat>, s: Fold, timer: nat, ticks: int, t: nat)
    requires WellFormed(groups, s) && timer < |groups| && s.stackPos > 0 && t < |groups|
    ensures var r, p := Leave(groups, s, timer, ticks), s.stackPos - 1;
            r.child == s.child[p := s.child[p] + ticks] && r.accumExclusive == s.accumExclusive
            && r.frameTicks[t] == s.frameTicks[t] + (if t == timer then ticks else 0)
            && r.frameExclusive[t] == s.frameExclusive[t] + (if t == timer then ticks - s.child[p + 1] else 0)
            && r.frameCount[t] == s.frameCount[t] + (if t == timer then 1 else 0)
            && r.stackPos == p && r.stack == s.stack
  {
  }

  lemma BeginAccounts(groups: seq<nat>, b: Book, s: Fold, timer: nat, time: int, log: seq<Entry>, k: nat, t: nat)
    requires Accounts(groups, b, s, t) && Nested(groups, b.h, Begin(timer, time))
    requires Present(b.h, Begin(timer, time), log, k)
    ensures Foldable(groups, log, s, k)
    ensures Accounts(groups, Noted(b, Logged(Begin(timer, time), log, k)), FoldEntry(groups, log, s, k), t)
  {
    BeginFolds(groups, b.h, s, timer, time, log, k);
    ChildrenAfterBegin(b, s.child, Noted(b, Logged(Begin(timer, time), log, k)), Open(timer, time, k));
  }

  lemma ChargedOneMore(spans: seq<Span>, span: Span, earlier: nat, s: Fold, r: Fold, t: nat)
    requires TimerCharged(spans, earlier, s, t) && r.accumExclusive == s.accumExclusive
    requires t < |r.frameTicks| && t < |r.frameExclusive| && t < |r.frameCount|
    requires r.frameTicks[t] == s.frameTicks[t] + if t == span.timer then Length(span) else 0
    requires r.frameExclusive[t]
             == s.frameExclusive[t] + if t == span.timer then Length(span) - Enclosed(spans, span.depth) else 0
    requires r.frameCount[t] == s.frameCount[t] + if t == span.timer then 1 else 0
    ensures TimerCharged(spans + [span], earlier, r, t)
  {
    SumsOneMore(spans, span, earlier, t);
    assert (spans + [span])[..earlier] == spans[..earlier];
  }

  lemma EndAccounts(groups: seq<nat>, b: Book, s: Fold, timer: nat, time: int, log: seq<Entry>, k: nat, t: nat)
    requires Accounts(groups, b, s, t) && t < |groups| && TrulyRead(groups, b.h, Logged(End(timer, time), log, k))
    ensures Foldable(groups, log, s, k)
    ensures Accounts(groups, Noted(b, Logged(End(timer, time), log, k)), FoldEntry(groups, log, s, k), t)
  {
    var d := |b.h.open| - 1;
    var span, next := Span(timer, b.h.open[d].time, time, d), Noted(b, Logged(End(timer, time), log, k));
    EndFolds(groups, b.h, s, timer, time, log, k);
    LeaveTimers(groups, s, timer, Length(span), t);
    ChildrenAfterEnd(b, s.child, next, span);
    ChargedOneMore(b.spans, span, b.earlier, s, FoldEntry(groups, log, s, k), t);
  }

  lemma FrameAccounts(groups: seq<nat>, b: Book, s: Fold, t: nat)
    requires Accounts(groups, b, s, t) && t < |groups|
    ensures Accounts(groups, Noted(b, Frame), NextFrame(groups, s), t)
  {
    OwnLengthsSplit(b.spans, b.earlier, t);
    assert b.spans[..|b.spans|] == b.spans;
  }

  lemma StepAccounts(groups: seq<nat>, b: Book, s: Fold, step: Step, t: nat)
    requires Accounts(groups, b, s, t) && t < |groups| && TrulyRead(groups, b.h, step)
    ensures Possible(groups, s, OpOf(step)) && Accounts(groups, Noted(b, step), Apply(groups, s, OpOf(step)), t)
  {
    match step
    case Frame => FrameAccounts(groups, b, s, t);
    case Logged(Begin(timer, time), log, k) => BeginAccounts(groups, b, s, timer, time, log, k, t);
    case Logged(End(timer, time), log, k) => EndAccounts(groups, b, s, timer, time, log, k, t);
  }

  // ---------------------------------------------------------------- whole runs

  ghost predicate AllTrulyRead(groups: seq<nat>, h: History, steps: seq<Step>)
    decreases |steps|
  {
    steps == [] || (TrulyRead(groups, h, steps[0]) && AllTrulyRead(groups, Follow(h, steps[0]), steps[1..]))
  }

  function BookAfter(groups: seq<nat>, b: Book, steps: seq<Step>): Book
    requires AllTrulyRead(groups, b.h, steps)
    decreases |steps|
  {
    if steps == [] then b else BookAfter(groups, Noted(b, steps[0]), steps[1..])
  }

  lemma {:induction false} RunAccounts(groups: seq<nat>, b: Book, s: Fold, steps: seq<Step>, t: nat)
    requires Accounts(groups, b, s, t) && t < |groups| && AllTrulyRead(groups, b.h, steps)
    ensures AllPossible(groups, s, OpsOf(steps))
    ensures Accounts(groups, BookAfter(groups, b, steps), Run(groups, s, OpsOf(steps)), t)
    decreases |steps|
  {
    if steps != [] {
      StepAccounts(groups, b, s, steps[0], t);
      RunAccounts(groups, Noted(b, steps[0]), Apply(groups, s, OpOf(steps[0])), steps[1..], t);
      assert OpsOf(steps)[1..] == OpsOf(steps[1..]);
    }
  }

  /** From a cleared profiler, over any well-nested trace in any number of frames whose scopes are read truly: each
      timer has been charged in this frame the lengths of its scopes closed in it, their lengths without those of
      the scopes directly enclosed, and their number; and over the frames before the own lengths of the scopes
      closed in those. */
  lemma TimersOfRun(groups: seq<nat>, start: int, steps: seq<Step>, t: nat)
    requires t < |groups| && AllTrulyRead(groups, History([], [], start), steps)
    requires forall i :: 0 <= i < |groups| ==> groups[i] < 48
    ensures AllPossible(groups, Cleared(groups), OpsOf(steps))
    ensures var b := BookAfter(groups, Book(History([], [], start), [], 0), steps);
            TimerCharged(b.spans, b.earlier, Run(groups, Cleared(groups), OpsOf(steps)), t)
  {
    RunAccounts(groups, Book(History([], [], start), [], 0), Cleared(groups), steps, t);
  }

  /** One scope in another of a different timer: the outer timer's own length is what the inner one leaves of it. */
  lemma InnerScopeIsTakenOff(outer: nat, inner: nat, a: int, b: int, c: int, d: int)
    requires outer != inner
    ensures var spans := [Span(inner, b, c, 1)] + [Span(outer, a, d, 0)];
            LengthsOf(spans, 0, outer) == d - a && OwnLengthsOf(spans, 0, outer) == (d - a) - (c - b)
            && LengthsOf(spans, 0, inner) == c - b && OwnLengthsOf(spans, 0, inner) == c - b
            && NumberOf(spans, 0, outer) == NumberOf(spans, 0, inner) == 1
  {
    var first, second := Span(inner, b, c, 1), Span(outer, a, d, 0);
    assert [] + [first] == [first];
    EnclosedOneMore([], first, 0);
    SumsOneMore([], first, 0, outer);
    SumsOneMore([], first, 0, inner);
    SumsOneMore([first], second, 0, outer);
    SumsOneMore([first], second, 0, inner);
  }
}
