/**
  The streaming resampler: a fixed-point stepper that carries two history samples and a
  fractional position from one call to the next, with its two kernels.
 */
module Resampler {
  import opened Samples

  // One whole input sample, with 24 fractional bits.
  const SCALE: int := 0x100_0000
  const TWO64: int := 0x1_0000_0000_0000_0000

  newtype U64 = x: int | 0 <= x < 0x1_0000_0000_0000_0000

  datatype Stereo = Stereo(left: S16, right: S16)

  // A kernel sees the fraction and three adjacent samples.
  type Kernel = (int, Stereo, Stereo, Stereo) -> Stereo

  // ---------------------------------------------------------------- the kernels

  function HoldKernel(fraction: int, x0: Stereo, x1: Stereo, x2: Stereo): Stereo {
    x0
  }

  function LinearKernel(fraction: int, x0: Stereo, x1: Stereo, x2: Stereo): Stereo {
    Stereo(LinearChannel(fraction, x0.left, x1.left), LinearChannel(fraction, x0.right, x1.right))
  }

  function Wrap64(x: int): int {
    x % TWO64
  }

  function TruncateToS16(x: int): S16 {
    var low := x % 0x1_0000;
    if low >= 0x8000 then low - 0x1_0000 else low
  }

  /** One channel as the source computes it: the signed slope is converted to an unsigned 64-bit
      number, multiplied and divided there, and the sum is cut back to 16 bits. */
  function LinearChannel(fraction: int, x0: S16, x1: S16): S16 {
    var delta := Clamp16(x1 - x0);
    var product := Wrap64(Wrap64(fraction) * Wrap64(delta));
    TruncateToS16(Wrap64(Wrap64(x0) + product / SCALE))
  }

  lemma WrapProduct(a: int, d: int)
    requires 0 <= a < SCALE && -32768 <= d <= 32767
    ensures Wrap64(Wrap64(a) * Wrap64(d)) == Wrap64(a * d)
    ensures -SCALE * 32768 <= a * d <= SCALE * 32767
  {
    ProductBounds(a, d);
    WrappedFactors(a, d);
  }

  lemma WrappedFactors(a: int, d: int)
    requires 0 <= a < SCALE && -32768 <= d <= 32767
    ensures Wrap64(Wrap64(a) * Wrap64(d)) == Wrap64(a * d)
  {
    assert Wrap64(a) == a;
    if d < 0 {
      assert Wrap64(d) == d + TWO64;
      assert a * (d + TWO64) == a * d + a * TWO64;
      ShiftMod(a * d, a);
    } else {
      assert Wrap64(d) == d;
    }
  }

  lemma MulRange(a: int, b: int, aMax: int, bMax: int)
    requires 0 <= a <= aMax && 0 <= b <= bMax
    ensures 0 <= a * b <= aMax * bMax
  {
    assert a * b <= aMax * b;
    assert aMax * b <= aMax * bMax;
  }

  lemma {:induction false} ShiftMod(x: int, k: int)
    requires k >= 0
    ensures (x + k * TWO64) % TWO64 == x % TWO64
  {
    if k > 0 {
      ShiftMod(x, k - 1);
      assert x + k * TWO64 == (x + (k - 1) * TWO64) + TWO64;
    }
  }

  lemma TruncateIgnoresHighBits(r: S16, sum: int)
    requires sum == r || sum == r + 0x100_0000_0000 || sum == r + TWO64
    ensures TruncateToS16(sum) == r
  {
    assert sum % 0x1_0000 == r % 0x1_0000;
  }

  /** Adding 2^40 to the quotient, as the wrap of a negative product does, is lost in the cast. */
  lemma SumOfWrapped(x0: S16, m: int, r: S16)
    requires -0x80_0000_0000 <= m < 0x80_0000_0000
    requires r == x0 + m / SCALE
    ensures TruncateToS16(Wrap64(Wrap64(x0) + Wrap64(m) / SCALE)) == r
  {
    var w := Wrap64(m) / SCALE;
    assert w == m / SCALE || w == m / SCALE + 0x100_0000_0000;
    var x := Wrap64(x0);
    assert x == x0 || x == x0 + TWO64;
    var sum := Wrap64(x + w);
    assert sum == r || sum == r + 0x100_0000_0000 || sum == r + TWO64;
    TruncateIgnoresHighBits(r, sum);
  }

  /** The unsigned detour is exact: it yields the floored interpolation, which never leaves the
      interval between the two samples. */
  lemma LinearChannelIsInterpolation(fraction: int, x0: S16, x1: S16)
    requires 0 <= fraction < SCALE
    ensures LinearChannel(fraction, x0, x1) == x0 + fraction * Clamp16(x1 - x0) / SCALE
    ensures x0 <= x1 ==> x0 <= LinearChannel(fraction, x0, x1) <= x1
    ensures x1 <= x0 ==> x1 <= LinearChannel(fraction, x0, x1) <= x0
  {
    var delta := Clamp16(x1 - x0);
    WrapProduct(fraction, delta);
    FloorBetween(fraction, delta);
    var m := fraction * delta;
    SumOfWrapped(x0, m, x0 + m / SCALE);
  }

  lemma FloorBetween(fraction: int, delta: int)
    requires 0 <= fraction < SCALE
    ensures delta >= 0 ==> 0 <= fraction * delta / SCALE <= delta
    ensures delta <= 0 ==> delta <= fraction * delta / SCALE <= 0
  {
    var m := fraction * delta;
    if delta >= 0 {
      MulRange(fraction, delta, SCALE, delta);
    } else {
      MulRange(fraction, -delta, SCALE, -delta);
      assert fraction * (-delta) == -m;
    }
  }

  // ---------------------------------------------------------------- the stepper on values

  /** Three adjacent samples starting at the whole part of position p exist. */
  predicate Available(stream: seq<Stereo>, p: int) {
    p >= 0 && p / SCALE + 2 < |stream|
  }

  function KernelAt(kernel: Kernel, stream: seq<Stereo>, p: int): Stereo
    requires Available(stream, p)
  {
    var i := p / SCALE;
    kernel(p % SCALE, stream[i], stream[i + 1], stream[i + 2])
  }

  /** What one call leaves behind: the index of its last input, the position, the samples made. */
  datatype Walked = Walked(index: nat, position: nat, samples: seq<Stereo>)

  /** The stepping loop as a recursion over its own variables. */
  function Walk(kernel: Kernel, buffer: seq<Stereo>, step: nat, w: Walked, room: nat): Walked
    requires |buffer| >= 2
    decreases room
  {
    if room == 0 then w
    else if !Available(buffer, w.position) then w.(index := |buffer| - 2)
    else Walk(kernel, buffer, step,
              Walked(w.position / SCALE, w.position + step, w.samples + [KernelAt(kernel, buffer, w.position)]),
              room - 1)
  }

  /** The carried state together with the input not yet consumed. */
  datatype Carried = Carried(xn2: Stereo, xn1: Stereo, fposition: nat, input: seq<Stereo>)

  function Buffer(c: Carried): seq<Stereo> {
    [c.xn2, c.xn1] + c.input
  }

  function CallWalk(kernel: Kernel, c: Carried, step: nat, room: nat): Walked {
    Walk(kernel, Buffer(c), step, Walked(0, c.fposition, []), room)
  }

  lemma {:induction false} WalkBounds(kernel: Kernel, buffer: seq<Stereo>, step: nat, w: Walked, room: nat)
    requires |buffer| >= 2 && w.index + 2 <= |buffer| && w.index * SCALE <= w.position
    ensures var r := Walk(kernel, buffer, step, w, room);
            r.index + 2 <= |buffer| && r.index * SCALE <= r.position && |w.samples| <= |r.samples| <= |w.samples| + room
    decreases room
  {
    if room > 0 && Available(buffer, w.position) {
      WalkBounds(kernel, buffer, step,
                 Walked(w.position / SCALE, w.position + step, w.samples + [KernelAt(kernel, buffer, w.position)]),
                 room - 1);
    }
  }

  /** One whole call: the state carried on and the samples produced. */
  function Call(kernel: Kernel, c: Carried, step: nat, room: nat): (r: (Carried, seq<Stereo>))
    ensures |r.1| <= room
  {
    if c.input == [] then (c, [])
    else
      var buffer := Buffer(c);
      var w := CallWalk(kernel, c, step, room);
      WalkBounds(kernel, buffer, step, Walked(0, c.fposition, []), room);
      (Carried(buffer[w.index], buffer[w.index + 1], w.position - w.index * SCALE, buffer[w.index + 2..]), w.samples)
  }

  // ---------------------------------------------------------------- streaming refines one shot

  /** The position of the k-th sample of a stream that starts at p0. */
  function Pos(p0: nat, step: nat, k: nat): nat {
    p0 + k * step
  }

  lemma PosAdds(p0: nat, step: nat, j: nat, k: nat)
    ensures Pos(Pos(p0, step, j), step, k) == Pos(p0, step, j + k)
  {
    assert j * step + k * step == (j + k) * step;
  }

  /** The samples are the first ones of the one-shot sequence over the whole stream. */
  ghost predicate IsOneShotPrefix(kernel: Kernel, samples: seq<Stereo>, stream: seq<Stereo>, p0: nat, step: nat) {
    forall k :: 0 <= k < |samples| ==>
      Available(stream, Pos(p0, step, k)) && samples[k] == KernelAt(kernel, stream, Pos(p0, step, k))
  }

  /** The carried state is exactly the tail of the stream, standing at position p of it. */
  ghost predicate IsTail(c: Carried, stream: seq<Stereo>, p: nat) {
    |Buffer(c)| <= |stream| && stream == stream[..|stream| - |Buffer(c)|] + Buffer(c)
    && c.fposition + (|stream| - |Buffer(c)|) * SCALE == p
  }

  lemma {:induction false} WalkIsOneShot(kernel: Kernel, buffer: seq<Stereo>, p0: nat, step: nat, w: Walked, room: nat)
    requires |buffer| >= 2 && w.position == Pos(p0, step, |w.samples|)
    requires IsOneShotPrefix(kernel, w.samples, buffer, p0, step)
    ensures var r := Walk(kernel, buffer, step, w, room);
            IsOneShotPrefix(kernel, r.samples, buffer, p0, step) && r.position == Pos(p0, step, |r.samples|)
            && (|r.samples| == |w.samples| + room || !Available(buffer, r.position))
    decreases room
  {
    if room > 0 && Available(buffer, w.position) {
      var next := Walked(w.position / SCALE, w.position + step, w.samples + [KernelAt(kernel, buffer, w.position)]);
      PosAdds(p0, step, |w.samples|, 1);
      WalkIsOneShot(kernel, buffer, p0, step, next, room - 1);
    }
  }

  lemma ShiftPosition(kernel: Kernel, used: seq<Stereo>, tail: seq<Stereo>, p: nat)
    ensures Available(tail, p) <==> Available(used + tail, p + |used| * SCALE)
    ensures Available(tail, p) ==>
              KernelAt(kernel, tail, p) == KernelAt(kernel, used + tail, p + |used| * SCALE)
  {
    var q := p + |used| * SCALE;
    assert q / SCALE == p / SCALE + |used| && q % SCALE == p % SCALE;
  }

  /** One call produces the next one-shot samples of its buffer, keeps exactly the unread tail, and
      stops only when the frame is full or the input has run out. */
  lemma CallIsOneShot(kernel: Kernel, c: Carried, step: nat, room: nat)
    ensures var (next, samples) := Call(kernel, c, step, room);
            IsOneShotPrefix(kernel, samples, Buffer(c), c.fposition, step)
            && IsTail(next, Buffer(c), Pos(c.fposition, step, |samples|))
            && (|samples| == room || !Available(Buffer(c), Pos(c.fposition, step, |samples|)))
  {
    if c.input == [] {
      NothingTaken(c);
      assert Pos(c.fposition, step, 0) == c.fposition;
    } else {
      var start := Walked(0, c.fposition, []);
      WalkBounds(kernel, Buffer(c), step, start, room);
      WalkIsOneShot(kernel, Buffer(c), c.fposition, step, start, room);
      TailOfWalk(Buffer(c), CallWalk(kernel, c, step, room), Call(kernel, c, step, room).0);
    }
  }

  lemma NothingTaken(c: Carried)
    ensures IsTail(c, Buffer(c), c.fposition)
  {
    assert Buffer(c)[..0] + Buffer(c) == Buffer(c);
  }

  lemma TailOfWalk(buffer: seq<Stereo>, w: Walked, next: Carried)
    requires w.index + 2 <= |buffer| && w.index * SCALE <= w.position
    requires next == Carried(buffer[w.index], buffer[w.index + 1], w.position - w.index * SCALE, buffer[w.index + 2..])
    ensures IsTail(next, buffer, w.position)
  {
    assert Buffer(next) == buffer[w.index..];
    assert buffer == buffer[..w.index] + buffer[w.index..];
  }

  /** One caller action: more input is queued and a frame with some room is offered. */
  datatype Feed = Feed(chunk: seq<Stereo>, room: nat)

  function Fed(c: Carried, chunk: seq<Stereo>): Carried {
    c.(input := c.input + chunk)
  }

  function Run(kernel: Kernel, c: Carried, step: nat, feeds: seq<Feed>): (r: (Carried, seq<Stereo>))
    decreases |feeds|
  {
    if feeds == [] then (c, [])
    else
      var (c1, s1) := Call(kernel, Fed(c, feeds[0].chunk), step, feeds[0].room);
      var (c2, s2) := Run(kernel, c1, step, feeds[1..]);
      (c2, s1 + s2)
  }

  function Chunks(feeds: seq<Feed>): seq<Stereo> {
    if feeds == [] then [] else feeds[0].chunk + Chunks(feeds[1..])
  }

  lemma FedStream(c: Carried, feeds: seq<Feed>)
    requires feeds != []
    ensures Buffer(c) + Chunks(feeds) == Buffer(Fed(c, feeds[0].chunk)) + Chunks(feeds[1..])
  {
  }

  lemma NothingRead(c: Carried, step: nat)
    ensures IsTail(c, Buffer(c) + [], Pos(c.fposition, step, 0))
  {
    NothingTaken(c);
    assert Buffer(c) + [] == Buffer(c);
  }

  /** What is carried on is exactly the unread tail of history and all input: nothing is lost or repeated. */
  lemma {:induction false} CarriesTheTail(kernel: Kernel, c: Carried, step: nat, feeds: seq<Feed>)
    ensures var (last, samples) := Run(kernel, c, step, feeds);
            IsTail(last, Buffer(c) + Chunks(feeds), Pos(c.fposition, step, |samples|))
    decreases |feeds|
  {
    if feeds == [] {
      NothingRead(c, step);
    } else {
      var fed := Fed(c, feeds[0].chunk);
      var (c1, s1) := Call(kernel, fed, step, feeds[0].room);
      var (c2, s2) := Run(kernel, c1, step, feeds[1..]);
      CallIsOneShot(kernel, fed, step, feeds[0].room);
      CarriesTheTail(kernel, c1, step, feeds[1..]);
      FedStream(c, feeds);
      ComposeTails(fed, c1, c2, Chunks(feeds[1..]), Buffer(c) + Chunks(feeds), step, |s1|, |s2|, |s1 + s2|);
    }
  }

  lemma ComposeTails(fed: Carried, c1: Carried, c2: Carried, rest: seq<Stereo>, whole: seq<Stereo>, step: nat,
                     n1: nat, n2: nat, n: nat)
    requires whole == Buffer(fed) + rest && n == n1 + n2
    requires IsTail(c1, Buffer(fed), Pos(fed.fposition, step, n1))
    requires IsTail(c2, Buffer(c1) + rest, Pos(c1.fposition, step, n2))
    ensures IsTail(c2, whole, Pos(fed.fposition, step, n))
  {
    var used1 := Buffer(fed)[..|Buffer(fed)| - |Buffer(c1)|];
    var used2 := (Buffer(c1) + rest)[..|Buffer(c1) + rest| - |Buffer(c2)|];
    TwoPrefixes(used1, Buffer(c1), rest, used2, Buffer(c2));
    PosAdds(fed.fposition, step, n1, n2);
  }

  lemma TwoPrefixes(used1: seq<Stereo>, tail1: seq<Stereo>, rest: seq<Stereo>, used2: seq<Stereo>, tail2: seq<Stereo>)
    requires tail1 + rest == used2 + tail2
    ensures (used1 + tail1) + rest == (used1 + used2) + tail2
    ensures ((used1 + tail1) + rest)[..|used1| + |used2|] == used1 + used2
  {
    assert (used1 + tail1) + rest == used1 + (tail1 + rest) == (used1 + used2) + tail2;
  }

  /** The kernel has the value y at position p of the stream. */
  ghost predicate Yields(kernel: Kernel, stream: seq<Stereo>, p: nat, y: Stereo) {
    Available(stream, p) && KernelAt(kernel, stream, p) == y
  }

  lemma YieldsBefore(kernel: Kernel, used: seq<Stereo>, tail: seq<Stereo>, step: nat, p0: nat, p1: nat, n1: nat, k: nat,
                     y: Stereo)
    requires p1 + |used| * SCALE == Pos(p0, step, n1)
    requires Yields(kernel, tail, Pos(p1, step, k), y)
    ensures Yields(kernel, used + tail, Pos(p0, step, n1 + k), y)
  {
    ShiftPosition(kernel, used, tail, Pos(p1, step, k));
    PosAdds(p0, step, n1, k);
  }

  /** One call followed by a run: if the run yields its samples at their positions, so do both together. */
  lemma YieldsAfterCall(kernel: Kernel, fed: Carried, c1: Carried, s1: seq<Stereo>, s2: seq<Stereo>,
                        rest: seq<Stereo>, step: nat, k: nat)
    requires k < |s1 + s2|
    requires IsOneShotPrefix(kernel, s1, Buffer(fed), fed.fposition, step)
    requires IsTail(c1, Buffer(fed), Pos(fed.fposition, step, |s1|))
    requires k >= |s1| ==> Yields(kernel, Buffer(c1) + rest, Pos(c1.fposition, step, k - |s1|), s2[k - |s1|])
    ensures Yields(kernel, Buffer(fed) + rest, Pos(fed.fposition, step, k), (s1 + s2)[k])
  {
    if k < |s1| {
      YieldsInHead(kernel, s1, Buffer(fed), rest, fed.fposition, step, k);
    } else {
      YieldsInTail(kernel, Buffer(fed), Buffer(c1), rest, step, fed.fposition, c1.fposition, |s1|, k - |s1|, k,
                   s2[k - |s1|]);
      assert (s1 + s2)[k] == s2[k - |s1|];
    }
  }

  lemma YieldsInHead(kernel: Kernel, samples: seq<Stereo>, stream: seq<Stereo>, rest: seq<Stereo>, p0: nat, step: nat,
                     k: nat)
    requires IsOneShotPrefix(kernel, samples, stream, p0, step) && k < |samples|
    ensures Yields(kernel, stream + rest, Pos(p0, step, k), samples[k])
  {
    ExtendStream(kernel, stream, rest, Pos(p0, step, k));
  }

  lemma YieldsInTail(kernel: Kernel, all: seq<Stereo>, tail: seq<Stereo>, rest: seq<Stereo>, step: nat, p0: nat,
                     p1: nat, n1: nat, k: nat, n: nat, y: Stereo)
    requires n == n1 + k && |tail| <= |all| && all == all[..|all| - |tail|] + tail
             && p1 + (|all| - |tail|) * SCALE == Pos(p0, step, n1)
    requires Yields(kernel, tail + rest, Pos(p1, step, k), y)
    ensures Yields(kernel, all + rest, Pos(p0, step, n), y)
  {
    var used := all[..|all| - |tail|];
    YieldsBefore(kernel, used, tail + rest, step, p0, p1, n1, k, y);
    assert all + rest == used + (tail + rest);
  }

  /** The k-th sample of a run is the kernel applied at the k-th position of the whole stream. */
  lemma {:induction false} SampleOfRun(kernel: Kernel, c: Carried, step: nat, feeds: seq<Feed>, k: nat)
    requires k < |Run(kernel, c, step, feeds).1|
    ensures Yields(kernel, Buffer(c) + Chunks(feeds), Pos(c.fposition, step, k), Run(kernel, c, step, feeds).1[k])
    decreases |feeds|
  {
    var fed := Fed(c, feeds[0].chunk);
    var (c1, s1) := Call(kernel, fed, step, feeds[0].room);
    var (c2, s2) := Run(kernel, c1, step, feeds[1..]);
    assert Run(kernel, c, step, feeds) == (c2, s1 + s2);
    CallIsOneShot(kernel, fed, step, feeds[0].room);
    if k >= |s1| {
      SampleOfRun(kernel, c1, step, feeds[1..], k - |s1|);
    }
    YieldsAfterCall(kernel, fed, c1, s1, s2, Chunks(feeds[1..]), step, k);
    FedStream(c, feeds);
  }

  lemma ExtendStream(kernel: Kernel, stream: seq<Stereo>, more: seq<Stereo>, p: nat)
    requires Available(stream, p)
    ensures Available(stream + more, p) && KernelAt(kernel, stream + more, p) == KernelAt(kernel, stream, p)
  {
  }

  /** However the input is cut and whatever frames are offered, the output is a prefix of the one-shot
      sequence over history and all input, and what is carried is exactly the unread tail. */
  lemma StreamingRefinesOneShot(kernel: Kernel, c: Carried, step: nat, feeds: seq<Feed>)
    ensures var (last, samples) := Run(kernel, c, step, feeds);
            var stream := Buffer(c) + Chunks(feeds);
            IsOneShotPrefix(kernel, samples, stream, c.fposition, step)
            && IsTail(last, stream, Pos(c.fposition, step, |samples|))
  {
    CarriesTheTail(kernel, c, step, feeds);
    forall k | 0 <= k < |Run(kernel, c, step, feeds).1| {
      SampleOfRun(kernel, c, step, feeds, k);
    }
  }

  /** The floored interpolation of one channel, which lies between the two samples. */
  predicate Interpolates(fraction: int, x0: S16, x1: S16, y: S16) {
    y == x0 + fraction * Clamp16(x1 - x0) / SCALE && (x0 <= y <= x1 || x1 <= y <= x0)
  }

  /** The sample interpolates between the two samples of the stream around position p, in both channels. */
  predicate InterpolatesAt(stream: seq<Stereo>, p: int, y: Stereo) {
    Available(stream, p)
    && var x0, x1 := stream[p / SCALE], stream[p / SCALE + 1];
       Interpolates(p % SCALE, x0.left, x1.left, y.left) && Interpolates(p % SCALE, x0.right, x1.right, y.right)
  }

  lemma LinearYieldInterpolates(stream: seq<Stereo>, p: nat, y: Stereo)
    requires Yields(LinearKernel, stream, p, y)
    ensures InterpolatesAt(stream, p, y)
  {
    var fraction, x0, x1 := p % SCALE, stream[p / SCALE], stream[p / SCALE + 1];
    LinearChannelIsInterpolation(fraction, x0.left, x1.left);
    LinearChannelIsInterpolation(fraction, x0.right, x1.right);
  }

  /** What a linear run outputs, however it is fed: sample k interpolates history and all input at position
      p0 + k * step. */
  lemma LinearRunInterpolates(c: Carried, step: nat, feeds: seq<Feed>, k: nat)
    requires k < |Run(LinearKernel, c, step, feeds).1|
    ensures InterpolatesAt(Buffer(c) + Chunks(feeds), Pos(c.fposition, step, k), Run(LinearKernel, c, step, feeds).1[k])
  {
    SampleOfRun(LinearKernel, c, step, feeds, k);
    LinearYieldInterpolates(Buffer(c) + Chunks(feeds), Pos(c.fposition, step, k),
                            Run(LinearKernel, c, step, feeds).1[k]);
  }

  /** Without interpolation sample k is the one at the whole part of its position. */
  lemma HoldRunRepeats(c: Carried, step: nat, feeds: seq<Feed>, k: nat)
    requires k < |Run(HoldKernel, c, step, feeds).1|
    ensures Available(Buffer(c) + Chunks(feeds), Pos(c.fposition, step, k))
    ensures Run(HoldKernel, c, step, feeds).1[k] == (Buffer(c) + Chunks(feeds))[Pos(c.fposition, step, k) / SCALE]
  {
    SampleOfRun(HoldKernel, c, step, feeds, k);
  }

  /** The last offered frame had room to spare, so the run stopped for lack of input. */
  predicate EndsDrained(kernel: Kernel, c: Carried, step: nat, feeds: seq<Feed>) {
    feeds != [] && !Available(Buffer(Run(kernel, c, step, feeds).0), Run(kernel, c, step, feeds).0.fposition)
  }

  /** Two ways of feeding the same input never disagree on a sample, and once both have drained it they
      have produced the same samples. */
  lemma FeedingDoesNotMatter(kernel: Kernel, c: Carried, step: nat, a: seq<Feed>, b: seq<Feed>)
    requires Chunks(a) == Chunks(b)
    ensures var sa, sb := Run(kernel, c, step, a).1, Run(kernel, c, step, b).1; sa <= sb || sb <= sa
    ensures EndsDrained(kernel, c, step, a) && EndsDrained(kernel, c, step, b)
            ==> Run(kernel, c, step, a).1 == Run(kernel, c, step, b).1
  {
    StreamingRefinesOneShot(kernel, c, step, a);
    StreamingRefinesOneShot(kernel, c, step, b);
    var sa, sb := Run(kernel, c, step, a).1, Run(kernel, c, step, b).1;
    if EndsDrained(kernel, c, step, a) && EndsDrained(kernel, c, step, b) {
      DrainedIsComplete(kernel, c, step, a, sb);
      DrainedIsComplete(kernel, c, step, b, sa);
    }
  }

  /** A drained run has produced every sample its input allows. */
  lemma DrainedIsComplete(kernel: Kernel, c: Carried, step: nat, feeds: seq<Feed>, other: seq<Stereo>)
    requires EndsDrained(kernel, c, step, feeds)
    requires IsOneShotPrefix(kernel, other, Buffer(c) + Chunks(feeds), c.fposition, step)
    ensures |other| <= |Run(kernel, c, step, feeds).1|
  {
    StreamingRefinesOneShot(kernel, c, step, feeds);
    var (last, samples) := Run(kernel, c, step, feeds);
    var stream := Buffer(c) + Chunks(feeds);
    ShiftPosition(kernel, stream[..|stream| - |Buffer(last)|], Buffer(last), last.fposition);
    assert !Available(stream, Pos(c.fposition, step, |samples|));
  }

  /** The carried position stays below one sample plus one step, so 64 bits always hold it. */
  lemma {:induction false} PositionStaysSmall(kernel: Kernel, c: Carried, step: nat, feeds: seq<Feed>)
    requires c.fposition < SCALE + step
    ensures Run(kernel, c, step, feeds).0.fposition < SCALE + step
    decreases |feeds|
  {
    if feeds != [] {
      var fed := Fed(c, feeds[0].chunk);
      WalkStaysClose(kernel, Buffer(fed), step, Walked(0, c.fposition, []), feeds[0].room);
      WalkBounds(kernel, Buffer(fed), step, Walked(0, c.fposition, []), feeds[0].room);
      PositionStaysSmall(kernel, Call(kernel, fed, step, feeds[0].room).0, step, feeds[1..]);
    }
  }

  lemma {:induction false} WalkStaysClose(kernel: Kernel, buffer: seq<Stereo>, step: nat, w: Walked, room: nat)
    requires |buffer| >= 2 && w.index + 2 <= |buffer| && w.position < (w.index + 1) * SCALE + step
    ensures var r := Walk(kernel, buffer, step, w, room); r.position < (r.index + 1) * SCALE + step
    decreases room
  {
    if room > 0 && Available(buffer, w.position) {
      WalkStaysClose(kernel, buffer, step,
                     Walked(w.position / SCALE, w.position + step, w.samples + [KernelAt(kernel, buffer, w.position)]),
                     room - 1);
    }
  }

  // ---------------------------------------------------------------- the stepper in place

  class State {
    var xn1: Stereo
    var xn2: Stereo
    var fposition: U64

    constructor ()
      ensures fposition == 0 && xn1 == Stereo(0, 0) && xn2 == Stereo(0, 0)
    {
      xn1, xn2, fposition := Stereo(0, 0), Stereo(0, 0), 0;
    }

    function Carrying(input: seq<Stereo>): Carried
      reads this
    {
      Carried(xn2, xn1, fposition as nat, input)
    }
  }

  /** The stepping loop: fills the frame from `start` on.  The size bounds keep every position inside
      64 bits. */
  method StepLoop(kernel: Kernel, buffer: seq<Stereo>, fposition: U64, step: U64, output: array<Stereo>, start: nat)
    returns (index: nat, position: U64, outputi: nat)
    requires 2 <= |buffer| < 0x20_0000_0000
    requires step as int < 0x4000_0000_0000_0000 && fposition as int < SCALE + step as int
    requires start <= output.Length
    modifies output
    ensures start <= outputi <= output.Length
    ensures Walked(index, position as nat, output[start..outputi])
         == Walk(kernel, buffer, step as nat, Walked(0, fposition as nat, []), output.Length - start)
    ensures output[..start] == old(output[..start]) && output[outputi..] == old(output[outputi..])
  {
    position := fposition;
    index := 0;
    outputi := start;
    assert output[start..outputi] == [];
    while outputi < output.Length
      invariant start <= outputi <= output.Length
      invariant output[..start] == old(output[..start]) && output[outputi..] == old(output[outputi..])
      invariant position as int < |buffer| * SCALE + 0x4000_0000_0000_0000
      invariant Walk(kernel, buffer, step as nat, Walked(0, fposition as nat, []), output.Length - start)
             == Walk(kernel, buffer, step as nat, Walked(index, position as nat, output[start..outputi]),
                     output.Length - outputi)
    {
      index := position as int / SCALE;
      if index + 2 >= |buffer| {
        index := |buffer| - 2;
        break;
      }
      ghost var made := output[start..outputi];
      output[outputi] := kernel(position as int % SCALE, buffer[index], buffer[index + 1], buffer[index + 2]);
      outputi := outputi + 1;
      assert output[start..outputi] == made + [KernelAt(kernel, buffer, position as int)];
      position := position + step;
    }
  }

  /** Steps over the input until it is used up or the output frame is full.  `input` is the queue
      passed by reference: `rest` is what it holds afterwards. */
  method StepOverSamples(kernel: Kernel, state: State, input: seq<Stereo>, step: U64,
                         output: array<Stereo>, start: nat)
    returns (rest: seq<Stereo>, outputi: nat)
    requires start <= output.Length && |input| < 0x10_0000_0000
    requires step as int < 0x4000_0000_0000_0000 && state.fposition as int < SCALE + step as int
    modifies state, output
    ensures start <= outputi <= output.Length
    ensures (state.Carrying(rest), output[start..outputi])
         == Call(kernel, old(state.Carrying(input)), step as nat, output.Length - start)
    ensures output[..start] == old(output[..start]) && output[outputi..] == old(output[outputi..])
    ensures state.fposition as int < SCALE + step as int
  {
    if input == [] {
      assert output[start..start] == [];
      return input, start;
    }
    var buffer := [state.xn2, state.xn1] + input;
    ghost var c := state.Carrying(input);
    assert Buffer(c) == buffer;
    var index, position;
    ghost var begin := Walked(0, state.fposition as nat, []);
    WalkBounds(kernel, buffer, step as nat, begin, output.Length - start);
    WalkStaysClose(kernel, buffer, step as nat, begin, output.Length - start);
    index, position, outputi := StepLoop(kernel, buffer, state.fposition, step, output, start);
    state.xn2 := buffer[index];
    state.xn1 := buffer[index + 1];
    state.fposition := position - (index * SCALE) as U64;
    rest := buffer[index + 2..];
    assert Walked(index, position as nat, output[start..outputi])
        == CallWalk(kernel, c, step as nat, output.Length - start);
  }
}
