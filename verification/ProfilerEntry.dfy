/**
  The log word: two bits of kind, fourteen bits of timer, forty-eight bits of tick.  Shifts and masks of
  64-bit words are written as multiplication, division and remainder by powers of two.
 */
module ProfilerEntry {

  /** A log word of 64 bits. */
  type Entry = n: nat | n < 0x1_0000_0000_0000_0000

  const LEAVE: nat := 0
  const ENTER: nat := 1

  function MakeLogIndex(kind: nat, token: nat, tick: int): Entry
    requires kind < 4
  {
    kind * 0x4000_0000_0000_0000 + token % 0x4000 * 0x1_0000_0000_0000 + tick % 0x1_0000_0000_0000
  }

  function LogType(e: Entry): nat {
    e / 0x4000_0000_0000_0000 % 4
  }

  function TimerIndex(e: Entry): nat {
    e / 0x1_0000_0000_0000 % 0x4000
  }

  function GetTick(e: Entry): nat {
    e % 0x1_0000_0000_0000
  }

  /** The fields do not disturb each other. */
  lemma FieldsReadBack(kind: nat, token: nat, tick: int)
    requires kind < 4
    ensures var e := MakeLogIndex(kind, token, tick);
            LogType(e) == kind && TimerIndex(e) == token % 0x4000 && GetTick(e) == tick % 0x1_0000_0000_0000
  {
    var e, timer, low := MakeLogIndex(kind, token, tick), token % 0x4000, tick % 0x1_0000_0000_0000;
    assert e / 0x1_0000_0000_0000 == kind * 0x4000 + timer;
  }

  /** The reading of a 64-bit word as a signed number. */
  function Signed64(n: nat): int
    requires n < 0x1_0000_0000_0000_0000
  {
    if n < 0x8000_0000_0000_0000 then n else n - 0x1_0000_0000_0000_0000
  }

  /** The difference of the words shifted left by sixteen bits, wrapped, taken as signed and shifted back. */
  function TickDifference(start: Entry, end: Entry): int {
    var left, right := end * 0x1_0000 % 0x1_0000_0000_0000_0000, start * 0x1_0000 % 0x1_0000_0000_0000_0000;
    Signed64((left - right) % 0x1_0000_0000_0000_0000) / 0x1_0000
  }

  /** The signed number whose lowest 48 bits are those of `n`. */
  function Signed48(n: int): int {
    (n + 0x8000_0000_0000) % 0x1_0000_0000_0000 - 0x8000_0000_0000
  }

  lemma ShiftDropsHighBits(e: Entry)
    ensures e * 0x1_0000 % 0x1_0000_0000_0000_0000 == GetTick(e) * 0x1_0000
  {
    assert e == e / 0x1_0000_0000_0000 * 0x1_0000_0000_0000 + GetTick(e);
  }

  lemma DifferenceOfTicks(a: nat, b: nat)
    requires a < 0x1_0000_0000_0000 && b < 0x1_0000_0000_0000
    ensures Signed64((b * 0x1_0000 - a * 0x1_0000) % 0x1_0000_0000_0000_0000) == Signed48(b - a) * 0x1_0000
  {
    var d := (b - a) * 0x1_0000;
    assert d % 0x1_0000_0000_0000_0000 == if d >= 0 then d else d + 0x1_0000_0000_0000_0000;
    assert Signed48(b - a) == if b - a >= 0x8000_0000_0000 then b - a - 0x1_0000_0000_0000
                              else if b - a < -0x8000_0000_0000 then b - a + 0x1_0000_0000_0000 else b - a;
  }

  /** The difference depends on the tick bits alone: it is their difference modulo 2^48, read as signed. */
  lemma DifferenceIgnoresKindAndTimer(start: Entry, end: Entry)
    ensures TickDifference(start, end) == Signed48(GetTick(end) - GetTick(start))
  {
    ShiftDropsHighBits(start);
    ShiftDropsHighBits(end);
    DifferenceOfTicks(GetTick(start), GetTick(end));
  }

  /** Times less than 2^47 apart have their true difference, even where the 48-bit counter wraps. */
  lemma DifferenceOfTimes(kind0: nat, token0: nat, time0: int, kind1: nat, token1: nat, time1: int)
    requires kind0 < 4 && kind1 < 4 && -0x8000_0000_0000 <= time1 - time0 < 0x8000_0000_0000
    ensures TickDifference(MakeLogIndex(kind0, token0, time0), MakeLogIndex(kind1, token1, time1)) == time1 - time0
  {
    FieldsReadBack(kind0, token0, time0);
    FieldsReadBack(kind1, token1, time1);
    DifferenceIgnoresKindAndTimer(MakeLogIndex(kind0, token0, time0), MakeLogIndex(kind1, token1, time1));
    SignedOfResidues(time0, time1);
  }

  lemma SignedOfResidues(a: int, b: int)
    requires -0x8000_0000_0000 <= b - a < 0x8000_0000_0000
    ensures Signed48(b % 0x1_0000_0000_0000 - a % 0x1_0000_0000_0000) == b - a
  {
    var m := 0x1_0000_0000_0000;
    assert b % m - a % m + 0x8000_0000_0000 == (b - a + 0x8000_0000_0000) + m * (a / m - b / m);
  }
}
