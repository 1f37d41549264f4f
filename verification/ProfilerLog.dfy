/**
  The ring log of one profiled thread and the delayed frame history that says which part of it a flip
  folds.
 */
module ProfilerLog {

  import opened ProfilerEntry

  const BUFFER_SIZE: nat := 262144
  const MAX_FRAME_HISTORY: nat := 512
  const GPU_FRAME_DELAY: nat := 3

  /** The ring, its two positions, and the put position at each flip that is still remembered. */
  datatype ThreadLog = ThreadLog(log: seq<Entry>, put: nat, get: nat, frames: seq<nat>, framePut: nat)

  predicate WellFormed(l: ThreadLog) {
    && |l.log| == 262144 && l.put < 262144 && l.get < 262144
    && |l.frames| == 512 && l.framePut < 512 && forall i :: 0 <= i < 512 ==> l.frames[i] < 262144
  }

  function NextPut(pos: nat): nat {
    (pos + 1) % BUFFER_SIZE
  }

  /** A put is dropped when it would fill the ring up to the get position. */
  function AfterPut(l: ThreadLog, e: Entry): (r: ThreadLog)
    requires WellFormed(l)
    ensures WellFormed(r)
  {
    if NextPut(l.put) == l.get then l else l.(log := l.log[l.put := e], put := NextPut(l.put))
  }

  /** The two pieces of the ring between two positions. */
  datatype Ranges = Ranges(start0: nat, end0: nat, start1: nat, end1: nat)

  predicate OnLog(r: Ranges) {
    r.start0 <= r.end0 <= 262144 && r.start1 <= r.end1 <= 262144
  }

  function EntriesIn(log: seq<Entry>, r: Ranges): seq<Entry>
    requires |log| == 262144 && OnLog(r)
  {
    log[r.start0..r.end0] + log[r.start1..r.end1]
  }

  function PositionAt(r: Ranges, i: nat): nat
    requires OnLog(r)
  {
    if i < r.end0 - r.start0 then r.start0 + i else r.start1 + (i - (r.end0 - r.start0))
  }

  /** The pieces hold `n` positions from `start` on, going around the end of the ring, in order. */
  ghost predicate GoesAround(r: Ranges, start: nat, n: nat) {
    OnLog(r) && n == (r.end0 - r.start0) + (r.end1 - r.start1)
    && forall i :: 0 <= i < n ==> PositionAt(r, i) == (start + i) % 262144
  }

  /** The number of positions from `get` up to `put`, going around. */
  function CountBetween(put: nat, get: nat): nat
    requires get < 262144
  {
    (put + 262144 - get) % 262144
  }

  /** The entries at `n` positions from `start` on, going around. */
  function Around(log: seq<Entry>, start: nat, n: nat): seq<Entry>
    requires |log| == 262144
  {
    seq(n, i requires 0 <= i < n && |log| == 262144 => log[(start + i) % 262144])
  }

  /** The frame slot that is `k` flips back. */
  function Back(framePut: nat, k: nat): (r: nat)
    requires framePut < 512 && k <= 512
    ensures r < 512
  {
    (framePut + MAX_FRAME_HISTORY - k) % MAX_FRAME_HISTORY
  }

  /** The part of the ring that a flip folds. */
  datatype Part = Part(start: nat, count: nat)

  /** A flip remembers the put position, frees the ring for new entries, and folds the frame that began four
      flips ago. */
  function AfterFlip(l: ThreadLog): (r: (ThreadLog, Part))
    requires WellFormed(l)
    ensures WellFormed(r.0) && r.0.log == l.log && r.1.start < 262144
  {
    var framePut := (l.framePut + 1) % MAX_FRAME_HISTORY;
    var current := (framePut + MAX_FRAME_HISTORY - GPU_FRAME_DELAY - 1) % MAX_FRAME_HISTORY;
    var next := (current + 1) % MAX_FRAME_HISTORY;
    var frames := l.frames[framePut := l.put];
    (l.(frames := frames, framePut := framePut, get := l.put),
     Part(frames[current], CountBetween(frames[next], frames[current])))
  }

  function Folded(l: ThreadLog): seq<Entry>
    requires WellFormed(l)
  {
    Around(l.log, AfterFlip(l).1.start, AfterFlip(l).1.count)
  }

  // ---------------------------------------------------------------- runs

  datatype Action = Put(e: Entry) | DoFlip

  /** A thread may start at any frame. */
  function Start(framePut: nat): (l: ThreadLog)
    requires framePut < 512
    ensures WellFormed(l)
  {
    ThreadLog(seq(262144, _ => 0), 0, 0, seq(512, _ => 0), framePut)
  }

  /** The log and everything folded so far. */
  function After(framePut: nat, actions: seq<Action>): (r: (ThreadLog, seq<Entry>))
    requires framePut < 512
    ensures WellFormed(r.0)
  {
    if actions == [] then (Start(framePut), [])
    else
      var (l, folded) := After(framePut, actions[..|actions| - 1]);
      match actions[|actions| - 1]
      case Put(e) => (AfterPut(l, e), folded)
      case DoFlip => (AfterFlip(l).0, folded + Folded(l))
  }

  /** Everything that was put, whether or not the ring had room for it. */
  function Puts(actions: seq<Action>): seq<Entry> {
    if actions == [] then []
    else
      var before := Puts(actions[..|actions| - 1]);
      match actions[|actions| - 1]
      case Put(e) => before + [e]
      case DoFlip => before
  }

  /** How many entries had been put at the flip that is `k` flips before the last one. */
  function PutsAtFlip(actions: seq<Action>, k: nat): (n: nat)
    ensures n <= |Puts(actions)|
  {
    if actions == [] then 0
    else
      var init := actions[..|actions| - 1];
      if actions[|actions| - 1].Put? then PutsAtFlip(init, k)
      else if k == 0 then |Puts(init)|
      else PutsAtFlip(init, k - 1)
  }

  /** Fewer puts than the ring holds in any four consecutive frames. */
  predicate Calm(actions: seq<Action>) {
    |Puts(actions)| - PutsAtFlip(actions, 3) < BUFFER_SIZE
    && (actions != [] ==> Calm(actions[..|actions| - 1]))
  }

  // ---------------------------------------------------------------- positions on the ring

  lemma SameLap(i: nat, j: nat)
    requires i <= j < i + 262144
    ensures j % 262144 == if i % 262144 + (j - i) < 262144 then i % 262144 + (j - i) else i % 262144 + (j - i) - 262144
  {
  }

  lemma DifferentSlots(i: nat, j: nat)
    requires i < j < i + 262144
    ensures i % 262144 != j % 262144
  {
    SameLap(i, j);
  }

  lemma NextSlot(i: nat)
    ensures NextPut(i % 262144) == (i + 1) % 262144
  {
    SameLap(i, i + 1);
  }

  /** The ring holds this part of the put sequence. */
  ghost predicate Holds(log: seq<Entry>, puts: seq<Entry>, start: nat) {
    |log| == 262144 && start <= |puts| && forall i :: start <= i < |puts| ==> log[i % 262144] == puts[i]
  }

  /** What has not been overwritten once `n` entries have been put. */
  function Oldest(n: nat): nat {
    if n <= 262144 then 0 else n - 262144
  }

  lemma CountOnRing(b: nat, c: nat)
    requires b <= c < b + 262144
    ensures CountBetween(c % 262144, b % 262144) == c - b
  {
    SameLap(b, c);
  }

  lemma SlotOf(b: nat, i: nat)
    ensures (b % 262144 + i) % 262144 == (b + i) % 262144
  {
  }

  /** The ring between the positions of two indices is that part of the put sequence. */
  lemma RangeIsSlice(log: seq<Entry>, puts: seq<Entry>, b: nat, c: nat)
    requires Holds(log, puts, Oldest(|puts|)) && Oldest(|puts|) <= b <= c <= |puts| && c < b + 262144
    ensures Around(log, b % 262144, CountBetween(c % 262144, b % 262144)) == puts[b..c]
  {
    CountOnRing(b, c);
    var entries := Around(log, b % 262144, c - b);
    forall i | 0 <= i < c - b
      ensures entries[i] == puts[b..c][i]
    {
      SlotOf(b, i);
      assert log[(b + i) % 262144] == puts[b + i];
    }
  }

  /** The two pieces hold exactly the entries of the part. */
  lemma PiecesAreAround(log: seq<Entry>, r: Ranges, start: nat, n: nat)
    requires |log| == 262144 && GoesAround(r, start, n)
    ensures EntriesIn(log, r) == Around(log, start, n)
  {
    forall i | 0 <= i < n
      ensures EntriesIn(log, r)[i] == Around(log, start, n)[i]
    {
      assert PositionAt(r, i) == (start + i) % 262144;
    }
  }

  // ---------------------------------------------------------------- the invariant

  /** With the last four flips after `b`, `c`, `d` and `e` puts: the ring holds all that has not been overwritten,
      which is everything since the oldest of them, and the frame history knows where each of them was. */
  ghost predicate Inv(l: ThreadLog, puts: seq<Entry>, b: nat, c: nat, d: nat, e: nat) {
    && WellFormed(l) && b <= c <= d <= e <= |puts| < b + 262144
    && l.put == |puts| % 262144 && l.get == e % 262144 && Holds(l.log, puts, Oldest(|puts|))
    && l.frames[Back(l.framePut, 0)] == e % 262144 && l.frames[Back(l.framePut, 1)] == d % 262144
    && l.frames[Back(l.framePut, 2)] == c % 262144 && l.frames[Back(l.framePut, 3)] == b % 262144
  }

  lemma HoldsOneMore(log: seq<Entry>, puts: seq<Entry>, x: Entry)
    requires Holds(log, puts, Oldest(|puts|))
    ensures Holds(log[|puts| % 262144 := x], puts + [x], Oldest(|puts| + 1))
  {
    forall i | Oldest(|puts| + 1) <= i < |puts| + 1
      ensures log[|puts| % 262144 := x][i % 262144] == (puts + [x])[i]
    {
      if i < |puts| {
        DifferentSlots(i, |puts|);
      }
    }
  }

  lemma PutKeepsInv(l: ThreadLog, puts: seq<Entry>, b: nat, c: nat, d: nat, e: nat, x: Entry)
    requires Inv(l, puts, b, c, d, e) && |puts| + 1 < b + 262144
    ensures Inv(AfterPut(l, x), puts + [x], b, c, d, e)
  {
    NextSlot(|puts|);
    DifferentSlots(e, |puts| + 1);
    HoldsOneMore(l.log, puts, x);
  }

  lemma HistoryMoves(framePut: nat)
    requires framePut < 512
    ensures var next := (framePut + 1) % 512;
      Back(next, 0) == next && Back(next, 1) == Back(framePut, 0) && Back(next, 2) == Back(framePut, 1)
      && Back(next, 3) == Back(framePut, 2) && Back(next, 4) == Back(framePut, 3)
      && next != Back(framePut, 0) && next != Back(framePut, 1)
      && next != Back(framePut, 2) && next != Back(framePut, 3)
      && (next + 512 - 3 - 1) % 512 == Back(framePut, 3) && (Back(framePut, 3) + 1) % 512 == Back(framePut, 2)
  {
  }

  /** A flip folds what was put between the fourth and the third flip before it. */
  lemma FlipKeepsInv(l: ThreadLog, puts: seq<Entry>, b: nat, c: nat, d: nat, e: nat)
    requires Inv(l, puts, b, c, d, e)
    ensures AfterFlip(l).1 == Part(b % 262144, c - b) && Folded(l) == puts[b..c]
    ensures Inv(AfterFlip(l).0, puts, c, d, e, |puts|)
  {
    HistoryMoves(l.framePut);
    CountOnRing(b, c);
    RangeIsSlice(l.log, puts, b, c);
  }

  lemma StartInv(framePut: nat)
    requires framePut < 512
    ensures Inv(Start(framePut), [], 0, 0, 0, 0)
  {
  }

  lemma TakeBefore(puts: seq<Entry>, x: Entry, b: nat)
    requires b <= |puts|
    ensures (puts + [x])[..b] == puts[..b]
  {
  }

  lemma TakeOn(puts: seq<Entry>, b: nat, c: nat)
    requires b <= c <= |puts|
    ensures puts[..b] + puts[b..c] == puts[..c]
  {
  }

  lemma {:induction false} RunKeepsInv(framePut: nat, actions: seq<Action>)
    requires framePut < 512 && Calm(actions)
    ensures Inv(After(framePut, actions).0, Puts(actions), PutsAtFlip(actions, 3), PutsAtFlip(actions, 2),
                PutsAtFlip(actions, 1), PutsAtFlip(actions, 0))
    ensures After(framePut, actions).1 == Puts(actions)[..PutsAtFlip(actions, 3)]
    decreases |actions|
  {
    if actions == [] {
      StartInv(framePut);
    } else {
      var init := actions[..|actions| - 1];
      RunKeepsInv(framePut, init);
      var l, puts := After(framePut, init).0, Puts(init);
      var b, c, d, e := PutsAtFlip(init, 3), PutsAtFlip(init, 2), PutsAtFlip(init, 1), PutsAtFlip(init, 0);
      match actions[|actions| - 1]
      case Put(x) =>
        PutKeepsInv(l, puts, b, c, d, e, x);
        TakeBefore(puts, x, b);
      case DoFlip =>
        FlipKeepsInv(l, puts, b, c, d, e);
        TakeOn(puts, b, c);
    }
  }

  // ---------------------------------------------------------------- what the log promises

  /** Over any calm run everything put up to the third flip before the last one has been folded, in order,
      each entry once, and nothing else has. */
  lemma ExactlyOnce(framePut: nat, actions: seq<Action>)
    requires framePut < 512 && Calm(actions)
    ensures After(framePut, actions).1 == Puts(actions)[..PutsAtFlip(actions, 3)]
  {
    RunKeepsInv(framePut, actions);
  }

  /** Each flip folds exactly one frame, at a fixed delay of three flips after its end. */
  lemma FixedDelay(framePut: nat, actions: seq<Action>)
    requires framePut < 512 && Calm(actions)
    ensures PutsAtFlip(actions, 3) <= PutsAtFlip(actions, 2)
    ensures Folded(After(framePut, actions).0) == Puts(actions)[PutsAtFlip(actions, 3)..PutsAtFlip(actions, 2)]
  {
    RunKeepsInv(framePut, actions);
    FlipKeepsInv(After(framePut, actions).0, Puts(actions), PutsAtFlip(actions, 3), PutsAtFlip(actions, 2),
                 PutsAtFlip(actions, 1), PutsAtFlip(actions, 0));
  }

  /** And no put is dropped. */
  lemma NothingDropped(framePut: nat, actions: seq<Action>, e: Entry)
    requires framePut < 512 && Calm(actions) && Calm(actions + [Put(e)])
    ensures AfterPut(After(framePut, actions).0, e) != After(framePut, actions).0
    ensures NextPut(After(framePut, actions).0.put) != After(framePut, actions).0.get
  {
    RunKeepsInv(framePut, actions);
    var more := actions + [Put(e)];
    assert more[..|more| - 1] == actions;
    var n := |Puts(actions)|;
    NextSlot(n);
    DifferentSlots(PutsAtFlip(actions, 0), n + 1);
    DifferentSlots(n, n + 1);
  }

  // ---------------------------------------------------------------- the log in place

  /** The pieces of the ring between two positions hold all positions from `get` up to `put`, in order, and no
      other. */
  method GetRange(put: nat, get: nat) returns (r: Ranges)
    requires put < BUFFER_SIZE && get < BUFFER_SIZE
    ensures GoesAround(r, get, CountBetween(put, get))
  {
    r := Ranges(0, 0, 0, 0);
    if put > get {
      r := Ranges(get, put, 0, 0);
    } else if put != get {
      var countEnd := BUFFER_SIZE - get;
      r := Ranges(get, get + countEnd, 0, put);
    }
  }

  class MicroProfileThreadLog {
    const log: array<Entry>
    const frames: array<nat>
    var put: nat
    var get: nat
    var framePut: nat
    var overflow: nat

    ghost predicate Valid()
      reads this, log, frames
    {
      log.Length == BUFFER_SIZE && frames.Length == MAX_FRAME_HISTORY && WellFormed(View())
    }

    ghost function View(): ThreadLog
      reads this, log, frames
    {
      ThreadLog(log[..], put, get, frames[..], framePut)
    }

    constructor (framePut: nat)
      requires framePut < MAX_FRAME_HISTORY
      ensures Valid() && View() == Start(framePut) && fresh(log) && fresh(frames)
    {
      put, get, overflow := 0, 0, 0;
      this.framePut := framePut;
      log := new Entry[BUFFER_SIZE](_ => 0);
      frames := new nat[MAX_FRAME_HISTORY](_ => 0);
      new;
      assert log[..] == Start(framePut).log;
      assert frames[..] == Start(framePut).frames;
    }

    method LogPut(e: Entry)
      requires Valid()
      modifies `put, `overflow, log
      ensures Valid() && View() == AfterPut(old(View()), e)
      ensures overflow == if NextPut(old(put)) == get then 100 else old(overflow)
    {
      var next := (put + 1) % BUFFER_SIZE;
      if next == get {
        overflow := 100;
      } else {
        log[put] := e;
        put := next;
      }
    }

    /** The ranges of the frame that is folded: together they hold its entries in the order of the puts. */
    method Flip() returns (r: Ranges)
      requires Valid()
      modifies `framePut, `get, frames
      ensures Valid() && View() == AfterFlip(old(View())).0
      ensures GoesAround(r, AfterFlip(old(View())).1.start, AfterFlip(old(View())).1.count)
      ensures EntriesIn(log[..], r) == Folded(old(View()))
    {
      framePut := (framePut + 1) % MAX_FRAME_HISTORY;
      var frameCurrent := (framePut + MAX_FRAME_HISTORY - GPU_FRAME_DELAY - 1) % MAX_FRAME_HISTORY;
      var frameNext := (frameCurrent + 1) % MAX_FRAME_HISTORY;
      frames[framePut] := put;
      get := put;
      r := GetRange(frames[frameNext], frames[frameCurrent]);
      PiecesAreAround(log[..], r, frames[frameCurrent], CountBetween(frames[frameNext], frames[frameCurrent]));
    }
  }
}
