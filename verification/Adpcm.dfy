/**
  The GC-ADPCM decoder: a second-order recurrence with clamped feedback over 8-byte frames of
  14 samples, evaluated in 32-bit arithmetic.
 */
module Adpcm {
  import opened Sequences
  import opened Samples

  type U8 = x: int | 0 <= x < 256
  newtype S32 = x: int | -0x8000_0000 <= x < 0x8000_0000

  /** The last two output samples. */
  datatype History = History(yn1: S16, yn2: S16)

  type Coefficients = c: seq<S16> | |c| == 16 witness seq(16, _ => 0)

  // ---------------------------------------------------------------- the recurrence

  function SignedNibble(n: nat): int
    requires n < 16
  {
    if n < 8 then n else n - 16
  }

  function Pow2(n: nat): (p: nat)
    ensures p >= 1
  {
    if n == 0 then 1 else 2 * Pow2(n - 1)
  }

  /** What the data say about one sample: the header of its frame and its own nibble. */
  datatype Code = Code(header: U8, nibble: int)

  /** The i-th sample of the frame at the start of the data. */
  function CodeAt(data: seq<U8>, i: nat): Code
    requires 1 + i / 2 < |data|
  {
    var byte := data[1 + i / 2];
    Code(data[0], SignedNibble(if i % 2 == 0 then byte / 16 else byte % 16))
  }

  function FrameCodes(data: seq<U8>, count: nat): (codes: seq<Code>)
    requires count > 0 ==> 1 + (count - 1) / 2 < |data|
    ensures |codes| == count
  {
    if count == 0 then [] else FrameCodes(data, count - 1) + [CodeAt(data, count - 1)]
  }

  lemma {:induction false} FrameCode(data: seq<U8>, count: nat, i: nat)
    requires i < count && 1 + (count - 1) / 2 < |data|
    ensures FrameCodes(data, count)[i] == CodeAt(data, i)
  {
    if i < count - 1 {
      FrameCode(data, count - 1, i);
    }
  }

  /** The data, in frames of a header byte and seven bytes of nibbles, reach as far as `count` samples. */
  predicate Holds(data: seq<U8>, count: nat) {
    if count < 14 then count > 0 ==> 1 + (count - 1) / 2 < |data|
    else |data| >= 8 && Holds(data[8..], count - 14)
  }

  function Codes(data: seq<U8>, count: nat): (codes: seq<Code>)
    requires Holds(data, count)
    ensures |codes| == count
  {
    if count < 14 then FrameCodes(data, count) else FrameCodes(data[..8], 14) + Codes(data[8..], count - 14)
  }

  /** y[n] = clamp(x[n] + 1/2 + c1 y[n-1] + c2 y[n-2]) in fixed point with 11 fractional bits. */
  function Filter(header: U8, coeff: Coefficients, nibble: int, h: History): S16 {
    var index := header / 16 % 8;
    Clamp16(FilterSum(coeff[index * 2], coeff[index * 2 + 1], nibble, header % 16, h) / 2048)
  }

  function FilterSum(c1: S16, c2: S16, nibble: int, shift: nat, h: History): int {
    nibble * Pow2(shift) * 2048 + 0x400 + c1 * h.yn1 + c2 * h.yn2
  }

  // The recurrence takes the filter as a value: nothing about streams depends on its arithmetic.
  type FilterFn = (Code, History) -> S16

  function FilterOf(coeff: Coefficients): FilterFn {
    (c: Code, h: History) => Filter(c.header, coeff, c.nibble, h)
  }

  /** The history after the first n codes. */
  function After(f: FilterFn, codes: seq<Code>, h: History, n: nat): History
    requires n <= |codes|
  {
    if n == 0 then h
    else
      var before := After(f, codes, h, n - 1);
      History(f(codes[n - 1], before), before.yn1)
  }

  /** The samples of the first n codes. */
  function Outputs(f: FilterFn, codes: seq<Code>, h: History, n: nat): (out: seq<S16>)
    requires n <= |codes|
    ensures |out| == n
  {
    if n == 0 then [] else Outputs(f, codes, h, n - 1) + [After(f, codes, h, n).yn1]
  }

  // ---------------------------------------------------------------- splitting a stream

  lemma {:induction false} FirstCodes(f: FilterFn, a: seq<Code>, b: seq<Code>, h: History, n: nat)
    requires n <= |a|
    ensures After(f, a + b, h, n) == After(f, a, h, n) && Outputs(f, a + b, h, n) == Outputs(f, a, h, n)
  {
    if n > 0 {
      FirstCodes(f, a, b, h, n - 1);
    }
  }

  lemma {:induction false} LaterCodes(f: FilterFn, a: seq<Code>, b: seq<Code>, h: History, k: nat)
    requires k <= |b|
    ensures After(f, a + b, h, |a| + k) == After(f, b, After(f, a, h, |a|), k)
    ensures Outputs(f, a + b, h, |a| + k) == Outputs(f, a, h, |a|) + Outputs(f, b, After(f, a, h, |a|), k)
  {
    if k == 0 {
      FirstCodes(f, a, b, h, |a|);
    } else {
      LaterCodes(f, a, b, h, k - 1);
    }
  }

  lemma FirstFrame(data: seq<U8>, first: seq<U8>, rest: seq<U8>, count: nat)
    requires data == first + rest && |first| == 8 && Holds(rest, count)
    ensures Holds(data, 14 + count) && Codes(data, 14 + count) == FrameCodes(first, 14) + Codes(rest, count)
  {
    assert data[..8] == first && data[8..] == rest;
  }

  lemma PrependFrame(a: seq<U8>, b: seq<U8>, first: seq<U8>, rest: seq<U8>, n: nat, k: nat)
    requires a == first + rest && |first| == 8
    requires Holds(rest, n) && Holds(b, k) && Holds(rest + b, n + k)
    requires Codes(rest + b, n + k) == Codes(rest, n) + Codes(b, k)
    ensures Holds(a, 14 + n) && Holds(a + b, 14 + (n + k))
    ensures Codes(a + b, 14 + (n + k)) == Codes(a, 14 + n) + Codes(b, k)
  {
    FirstFrame(a, first, rest, n);
    Associate(first, rest, b);
    FirstFrame(a + b, first, rest + b, n + k);
    Associate(FrameCodes(first, 14), Codes(rest, n), Codes(b, k));
  }

  lemma {:induction false} CodesOfTwoParts(a: seq<U8>, b: seq<U8>, frames: nat, k: nat)
    requires |a| == 8 * frames && Holds(b, k)
    ensures Holds(a, 14 * frames) && Holds(a + b, 14 * frames + k)
    ensures Codes(a + b, 14 * frames + k) == Codes(a, 14 * frames) + Codes(b, k)
  {
    if frames == 0 {
      assert a + b == b;
    } else {
      CodesOfTwoParts(a[8..], b, frames - 1, k);
      PrependFrame(a, b, a[..8], a[8..], 14 * (frames - 1), k);
    }
  }

  /** Decoding a ++ b is decoding a and then b with the carried history, when a is whole frames. */
  lemma DecodingSplitsAtFrames(f: FilterFn, a: seq<U8>, b: seq<U8>, h: History, frames: nat, k: nat)
    requires |a| == 8 * frames && Holds(b, k)
    ensures Holds(a, 14 * frames) && Holds(a + b, 14 * frames + k)
    ensures var n := 14 * frames;
            var middle := After(f, Codes(a, n), h, n);
            Outputs(f, Codes(a + b, n + k), h, n + k)
              == Outputs(f, Codes(a, n), h, n) + Outputs(f, Codes(b, k), middle, k)
            && After(f, Codes(a + b, n + k), h, n + k) == After(f, Codes(b, k), middle, k)
  {
    CodesOfTwoParts(a, b, frames, k);
    LaterCodes(f, Codes(a, 14 * frames), Codes(b, k), h, k);
  }

  // ---------------------------------------------------------------- 32-bit arithmetic

  /** The largest distance below and above zero that c * y reaches over all 16-bit y. */
  function Below(c: S16): nat { if c >= 0 then c * 32768 else c * -32767 }
  function Above(c: S16): nat { if c >= 0 then c * 32767 else c * -32768 }

  /** The filter sum stays inside 32 bits whatever the nibble, the scale and the history are. */
  predicate Fits32(c1: S16, c2: S16) {
    Below(c1) + Below(c2) <= 0x6000_0400 && Above(c1) + Above(c2) <= 0x63FF_FBFF
  }

  predicate In32(x: int) {
    -0x8000_0000 <= x < 0x8000_0000
  }

  lemma {:induction false} Pow2Range(n: nat)
    requires n < 16
    ensures Pow2(n) <= 32768
  {
    assert Pow2(15) == 32768;
    Pow2Monotone(n, 15);
  }

  lemma {:induction false} Pow2Monotone(m: nat, n: nat)
    requires m <= n
    ensures Pow2(m) <= Pow2(n)
  {
    if m < n {
      Pow2Monotone(m, n - 1);
    }
  }

  lemma ProductRange(c: S16, y: S16)
    ensures -(Below(c) as int) <= c * y <= Above(c)
  {
    if c >= 0 {
      ProductBounds(c, y);
    } else {
      ProductBounds(0 - c, y);
      assert c * y == -((0 - c) * y);
    }
  }

  lemma InputRange(nibble: int, shift: nat)
    requires -8 <= nibble <= 7 && shift < 16
    ensures -8 * 32768 <= nibble * Pow2(shift) <= 7 * 32768
  {
    Pow2Range(shift);
    ScaleRange(nibble, Pow2(shift));
  }

  lemma ScaleRange(nibble: int, p: int)
    requires -8 <= nibble <= 7 && 1 <= p <= 32768
    ensures -8 * 32768 <= nibble * p <= 7 * 32768
  {
    assert (nibble + 8) * p >= 0 && (7 - nibble) * p >= 0;
  }

  /** The exact condition under which no input at all can overflow the 32-bit filter sum. */
  lemma FitsExactly(c1: S16, c2: S16)
    ensures Fits32(c1, c2) <==>
            forall nibble: int, shift: nat, h: History :: -8 <= nibble <= 7 && shift < 16 ==>
              In32(FilterSum(c1, c2, nibble, shift, h))
  {
    if Fits32(c1, c2) {
      forall nibble: int, shift: nat, h: History | -8 <= nibble <= 7 && shift < 16
        ensures In32(FilterSum(c1, c2, nibble, shift, h))
      {
        SumFits(c1, c2, nibble, shift, h);
      }
    } else {
      assert Pow2(15) == 32768;
      var low := History(if c1 >= 0 then -32768 else 32767, if c2 >= 0 then -32768 else 32767);
      var high := History(if c1 >= 0 then 32767 else -32768, if c2 >= 0 then 32767 else -32768);
      assert FilterSum(c1, c2, -8, 15, low) == -0x2000_0000 + 0x400 - Below(c1) - Below(c2);
      assert FilterSum(c1, c2, 7, 15, high) == 0x1C00_0000 + 0x400 + Above(c1) + Above(c2);
    }
  }

  lemma SumFits(c1: S16, c2: S16, nibble: int, shift: nat, h: History)
    requires Fits32(c1, c2) && -8 <= nibble <= 7 && shift < 16
    ensures In32(FilterSum(c1, c2, nibble, shift, h))
  {
    InputRange(nibble, shift);
    ProductRange(c1, h.yn1);
    ProductRange(c2, h.yn2);
  }

  function Magnitude(c: S16): int { if c >= 0 then c else 0 - c }

  /** Coefficients of total magnitude up to 1.5 * 2^15 - 1 are always safe. */
  lemma SmallCoefficientsFit(c1: S16, c2: S16)
    requires Magnitude(c1) + Magnitude(c2) <= 49151
    ensures Fits32(c1, c2)
  {
  }

  // ---------------------------------------------------------------- the decoder in place

  class AdpcmState {
    var yn1: S16
    var yn2: S16

    function Value(): History
      reads this
    {
      History(yn1, yn2)
    }
  }

  /** The filter sum of one code, with this history, stays inside 32 bits. */
  predicate CodeFits(coeff: Coefficients, c: Code, h: History) {
    var index := c.header / 16 % 8;
    In32(FilterSum(coeff[index * 2], coeff[index * 2 + 1], c.nibble, c.header % 16, h))
  }

  /** Decoding these data from this history overflows nowhere. */
  ghost predicate NoOverflow(coeff: Coefficients, codes: seq<Code>, h: History) {
    forall n :: 0 <= n < |codes| ==> CodeFits(coeff, codes[n], After(FilterOf(coeff), codes, h, n))
  }

  predicate Nibbles(codes: seq<Code>) {
    forall n :: 0 <= n < |codes| ==> -8 <= codes[n].nibble <= 7
  }

  lemma {:induction false} FrameNibbles(data: seq<U8>, count: nat)
    requires count > 0 ==> 1 + (count - 1) / 2 < |data|
    ensures Nibbles(FrameCodes(data, count))
  {
    if count > 0 {
      FrameNibbles(data, count - 1);
    }
  }

  lemma {:induction false} CodesAreNibbles(data: seq<U8>, count: nat)
    requires Holds(data, count)
    ensures Nibbles(Codes(data, count))
  {
    if count < 14 {
      FrameNibbles(data, count);
    } else {
      FrameNibbles(data[..8], 14);
      CodesAreNibbles(data[8..], count - 14);
    }
  }

  /** With coefficients that fit no data overflow. */
  lemma FittingNeverOverflows(coeff: Coefficients, data: seq<U8>, count: nat, h: History)
    requires Holds(data, count) && forall i :: 0 <= i < 8 ==> Fits32(coeff[2 * i], coeff[2 * i + 1])
    ensures NoOverflow(coeff, Codes(data, count), h)
  {
    var codes := Codes(data, count);
    CodesAreNibbles(data, count);
    forall n | 0 <= n < |codes|
      ensures CodeFits(coeff, codes[n], After(FilterOf(coeff), codes, h, n))
    {
      var index := codes[n].header / 16 % 8;
      assert Fits32(coeff[2 * index], coeff[2 * index + 1]);
      SumFits(coeff[index * 2], coeff[index * 2 + 1], codes[n].nibble, codes[n].header % 16,
              After(FilterOf(coeff), codes, h, n));
    }
  }

  /** A product of two 16-bit numbers is at most 2^30. */
  lemma ProductIn32(c: S16, y: S16)
    ensures -0x4000_0000 <= c * y <= 0x4000_0000
  {
    ProductRange(c, y);
  }

  /** One sample in 32-bit arithmetic: every operation is checked to stay in range, and only the last one can
      leave it. */
  function DecodeSample(coeff: Coefficients, c: Code, h: History): (val: S16)
    requires -8 <= c.nibble <= 7 && CodeFits(coeff, c, h)
    ensures val == Filter(c.header, coeff, c.nibble, h)
  {
    var idx := c.header / 16 % 8;
    Pow2Range(c.header % 16);
    InputRange(c.nibble, c.header % 16);
    ProductIn32(coeff[idx * 2], h.yn1);
    ProductIn32(coeff[idx * 2 + 1], h.yn2);
    var coef1, coef2 := coeff[idx * 2] as S32, coeff[idx * 2 + 1] as S32;
    var scale := Pow2(c.header % 16) as S32;
    var xn := c.nibble as S32 * scale;
    var sum := xn * 2048 + 0x400 + coef1 * h.yn1 as S32 + coef2 * h.yn2 as S32;
    Clamp16((sum / 2048) as int)
  }

  /** The codes n and n + 1 are the two samples of a byte. */
  ghost predicate PairOf(codes: seq<Code>, n: nat, header: U8, byte: U8) {
    n + 2 <= |codes| && codes[n] == Code(header, SignedNibble(byte / 16))
    && codes[n + 1] == Code(header, SignedNibble(byte % 16))
  }

  lemma FramePair(data: seq<U8>, count: nat, j: nat)
    requires count > 0 ==> 1 + (count - 1) / 2 < |data|
    requires 2 * j + 2 <= count
    ensures PairOf(FrameCodes(data, count), 2 * j, data[0], data[1 + j])
  {
    FrameCode(data, count, 2 * j);
    FrameCode(data, count, 2 * j + 1);
    assert (2 * j) / 2 == (2 * j + 1) / 2 == j && (2 * j) % 2 == 0 && (2 * j + 1) % 2 == 1;
  }

  lemma PairInSecondPart(a: seq<Code>, b: seq<Code>, n: nat, header: U8, byte: U8)
    ensures PairOf(b, n, header, byte) ==> PairOf(a + b, |a| + n, header, byte)
    ensures PairOf(a, n, header, byte) ==> PairOf(a + b, n, header, byte)
  {
  }

  lemma {:induction false} HoldsPair(data: seq<U8>, count: nat, frame: nat, j: nat)
    requires Holds(data, count) && j < 7 && 14 * frame + 2 * j + 2 <= count
    ensures 8 * frame + 1 + j < |data|
  {
    if count >= 14 && frame > 0 {
      HoldsPair(data[8..], count - 14, frame - 1, j);
    }
  }

  lemma PairInFirstFrame(data: seq<U8>, head: seq<U8>, tail: seq<U8>, count: nat, more: nat, j: nat, n: nat)
    requires data == head + tail && |head| == 8 && count == 14 + more && Holds(tail, more) && j < 7 && n == 2 * j
    ensures Holds(data, count) && PairOf(Codes(data, count), n, head[0], head[1 + j])
  {
    FirstFrame(data, head, tail, more);
    FramePair(head, 14, j);
    PairInSecondPart(FrameCodes(head, 14), Codes(tail, more), n, head[0], head[1 + j]);
  }

  lemma PairInLaterFrame(data: seq<U8>, head: seq<U8>, tail: seq<U8>, count: nat, more: nat, n: nat, later: nat,
                         header: U8, byte: U8)
    requires data == head + tail && |head| == 8 && count == 14 + more && n == 14 + later && Holds(tail, more)
    requires PairOf(Codes(tail, more), later, header, byte)
    ensures Holds(data, count) && PairOf(Codes(data, count), n, header, byte)
  {
    FirstFrame(data, head, tail, more);
    PairInSecondPart(FrameCodes(head, 14), Codes(tail, more), later, header, byte);
  }

  lemma CutFrame(data: seq<U8>, count: nat) returns (head: seq<U8>, tail: seq<U8>)
    requires Holds(data, count) && count >= 14
    ensures data == head + tail && |head| == 8 && Holds(tail, count - 14)
  {
    head, tail := data[..8], data[8..];
  }

  lemma ByteInTail(data: seq<U8>, head: seq<U8>, tail: seq<U8>, i: nat, header: U8)
    requires data == head + tail && |head| == 8 && 8 <= i < |data| && header == data[i]
    ensures i - 8 < |tail| && tail[i - 8] == header
  {
  }

  lemma ByteInHead(data: seq<U8>, head: seq<U8>, tail: seq<U8>, i: nat, header: U8)
    requires data == head + tail && i < |head| && header == data[i]
    ensures head[i] == header
  {
  }

  /** The two samples of one byte, found by the places of its frame's header and of the byte. */
  lemma {:induction false} PairCodes(data: seq<U8>, count: nat, frame: nat, j: nat, at: nat, place: nat, n: nat,
                                     header: U8, byte: U8)
    requires Holds(data, count) && j < 7 && n == 14 * frame + 2 * j && n + 2 <= count
    requires at == 8 * frame && place == at + 1 + j < |data| && header == data[at] && byte == data[place]
    ensures PairOf(Codes(data, count), n, header, byte)
    decreases frame
  {
    if count < 14 {
      FramePair(data, count, j);
    } else {
      var head, tail := CutFrame(data, count);
      if frame == 0 {
        ByteInHead(data, head, tail, at, header);
        ByteInHead(data, head, tail, place, byte);
        PairInFirstFrame(data, head, tail, count, count - 14, j, n);
      } else {
        ByteInTail(data, head, tail, at, header);
        ByteInTail(data, head, tail, place, byte);
        PairCodes(tail, count - 14, frame - 1, j, at - 8, place - 8, n - 14, header, byte);
        PairInLaterFrame(data, head, tail, count, count - 14, n, n - 14, header, byte);
      }
    }
  }

  /** The codes are those that the data hold. */
  ghost predicate CodedBy(codes: seq<Code>, data: seq<U8>) {
    Holds(data, |codes|) && codes == Codes(data, |codes|)
  }

  /** The same sample for both channels. */
  function Doubled(samples: seq<S16>): seq<(S16, S16)> {
    seq(|samples|, i requires 0 <= i < |samples| => (samples[i], samples[i]))
  }

  /** The first n frames of the buffer are the first n outputs, and `now` is the history there. */
  ghost predicate Decoded(out: seq<(S16, S16)>, codes: seq<Code>, f: FilterFn, h: History, now: History, n: nat) {
    n <= |out| && n <= |codes| && now == After(f, codes, h, n) && out[..n] == Doubled(Outputs(f, codes, h, n))
  }

  lemma OneMoreDecoded(out: seq<(S16, S16)>, codes: seq<Code>, f: FilterFn, h: History, now: History, n: nat)
    requires Decoded(out, codes, f, h, now, n) && n < |out| && n < |codes|
    ensures var y := f(codes[n], now); Decoded(out[n := (y, y)], codes, f, h, History(y, now.yn1), n + 1)
  {
    var y := f(codes[n], now);
    assert out[n := (y, y)][..n + 1] == out[..n] + [(y, y)];
    assert Outputs(f, codes, h, n + 1) == Outputs(f, codes, h, n) + [y];
  }

  type StereoBuffer = array<(S16, S16)>

  lemma {:induction false} HoldsRounded(data: seq<U8>, count: nat)
    requires Holds(data, count)
    ensures Holds(data, count + count % 2)
  {
    if count >= 14 {
      HoldsRounded(data[8..], count - 14);
    }
  }

  /** Samples come in pairs: the codes up to an even number. */
  function RoundedCodes(data: seq<U8>, count: nat): (codes: seq<Code>)
    requires Holds(data, count)
    ensures CodedBy(codes, data) && |codes| == count + count % 2
  {
    HoldsRounded(data, count);
    Codes(data, count + count % 2)
  }

  /** Decodes `sampleCount` samples, rounded up to an even number, and advances the state past them. */
  method DecodeADPCM(data: array<U8>, sampleCount: nat, coeff: Coefficients, state: AdpcmState)
    returns (ret: StereoBuffer)
    requires Holds(data[..], sampleCount) && NoOverflow(coeff, RoundedCodes(data[..], sampleCount), state.Value())
    modifies state
    ensures fresh(ret) && ret.Length == sampleCount + sampleCount % 2
    ensures var codes := RoundedCodes(data[..], sampleCount);
            var out := Outputs(FilterOf(coeff), codes, old(state.Value()), |codes|);
            ret.Length == |out| && (forall n :: 0 <= n < |out| ==> ret[n].0 == out[n] && ret[n].1 == out[n])
            && state.Value() == After(FilterOf(coeff), codes, old(state.Value()), |codes|)
  {
    ghost var codes := RoundedCodes(data[..], sampleCount);
    CodesAreNibbles(data[..], |codes|);
    var decode, can := MakeDecoder(coeff, codes, state.Value());
    ret := DecodeWith(data, sampleCount, codes, FilterOf(coeff), can, decode, state);
  }

  predicate Decodable(coeff: Coefficients, c: Code, h: History) {
    -8 <= c.nibble <= 7 && CodeFits(coeff, c, h)
  }

  function SampleDecoder(coeff: Coefficients): Decoder {
    (c: Code, h: History) requires Decodable(coeff, c, h) => DecodeSample(coeff, c, h)
  }

  function DecodableBy(coeff: Coefficients): (Code, History) -> bool {
    (c: Code, h: History) => Decodable(coeff, c, h)
  }

  lemma DecoderWorks(coeff: Coefficients, codes: seq<Code>, h: History)
    requires Nibbles(codes) && NoOverflow(coeff, codes, h)
    ensures AllDecode(SampleDecoder(coeff), DecodableBy(coeff), FilterOf(coeff), codes, h)
  {
    forall c: Code, now: History | DecodableBy(coeff)(c, now)
      ensures SampleDecoder(coeff).requires(c, now) && SampleDecoder(coeff)(c, now) == FilterOf(coeff)(c, now)
    {
      DecodesAsFilter(coeff, c, now);
    }
    forall n | 0 <= n < |codes|
      ensures DecodableBy(coeff)(codes[n], After(FilterOf(coeff), codes, h, n))
    {
    }
  }

  /** The decoder of a sample with these coefficients. */
  method MakeDecoder(coeff: Coefficients, ghost codes: seq<Code>, ghost h: History)
    returns (decode: Decoder, ghost can: (Code, History) -> bool)
    requires Nibbles(codes) && NoOverflow(coeff, codes, h)
    ensures AllDecode(decode, can, FilterOf(coeff), codes, h)
  {
    decode, can := SampleDecoder(coeff), DecodableBy(coeff);
    DecoderWorks(coeff, codes, h);
  }

  lemma DecodesAsFilter(coeff: Coefficients, c: Code, h: History)
    requires Decodable(coeff, c, h)
    ensures SampleDecoder(coeff).requires(c, h) && SampleDecoder(coeff)(c, h) == FilterOf(coeff)(c, h)
  {
  }

  // The loops take the decoder of a sample as a value, as the source does.
  type Decoder = (Code, History) --> S16

  /** The decoder computes `f` wherever it can. */
  ghost predicate Implements(decode: Decoder, can: (Code, History) -> bool, f: FilterFn) {
    forall c: Code, h: History :: can(c, h) ==> decode.requires(c, h) && decode(c, h) == f(c, h)
  }

  /** Every code can be decoded with the history that has come about before it. */
  ghost predicate AllDecode(decode: Decoder, can: (Code, History) -> bool, f: FilterFn, codes: seq<Code>, h: History) {
    Implements(decode, can, f) && forall n :: 0 <= n < |codes| ==> can(codes[n], After(f, codes, h, n))
  }

  /** The result buffer and the state behind it. */
  method DecodeWith(data: array<U8>, sampleCount: nat, ghost codes: seq<Code>, ghost f: FilterFn,
                    ghost can: (Code, History) -> bool, decode: Decoder, state: AdpcmState) returns (ret: StereoBuffer)
    requires |codes| == sampleCount + sampleCount % 2 && CodedBy(codes, data[..])
    requires AllDecode(decode, can, f, codes, state.Value())
    modifies state
    ensures fresh(ret) && ret.Length == |codes| && ret[..] == Doubled(Outputs(f, codes, old(state.Value()), |codes|))
    ensures state.Value() == After(f, codes, old(state.Value()), |codes|)
  {
    var retSize := if sampleCount % 2 == 0 then sampleCount else sampleCount + 1;
    ret := new (S16, S16)[retSize];
    var yn1, yn2 := DecodeFrames(data, sampleCount, codes, f, can, decode, ret, state.yn1, state.yn2);
    state.yn1 := yn1;
    state.yn2 := yn2;
    assert ret[..ret.Length] == ret[..];
  }

  /** The outer loop. */
  method DecodeFrames(data: array<U8>, sampleCount: nat, ghost codes: seq<Code>, ghost f: FilterFn,
                      ghost can: (Code, History) -> bool, decode: Decoder,
                      ret: StereoBuffer, y1: S16, y2: S16)
    returns (yn1: S16, yn2: S16)
    requires |codes| == ret.Length == sampleCount + sampleCount % 2 && CodedBy(codes, data[..])
    requires AllDecode(decode, can, f, codes, History(y1, y2))
    modifies ret
    ensures Decoded(ret[..], codes, f, History(y1, y2), History(yn1, yn2), ret.Length)
  {
    yn1, yn2 := y1, y2;
    var numFrames := (sampleCount + 13) / 14;
    FramesReach(sampleCount, numFrames, ret.Length);
    var framei := 0;
    while framei < numFrames
      invariant framei <= numFrames
      invariant Decoded(ret[..], codes, f, History(y1, y2), History(yn1, yn2), Least(14 * framei, ret.Length))
    {
      FrameInside(sampleCount, numFrames, ret.Length, framei);
      yn1, yn2 := DecodeFrame(data, sampleCount, codes, f, can, decode, framei, ret, yn1, yn2, History(y1, y2));
      framei := framei + 1;
    }
  }

  lemma FramesReach(count: nat, frames: nat, rounded: nat)
    requires frames == (count + 13) / 14 && rounded == count + count % 2
    ensures Least(14 * frames, rounded) == rounded && Least(0, rounded) == 0
  {
    RoundedUp(count, frames, (count + 13) % 14, count / 2, count % 2);
  }

  lemma RoundedUp(count: nat, frames: nat, r: nat, half: nat, odd: nat)
    requires count + 13 == 14 * frames + r && r < 14 && count == 2 * half + odd && odd < 2
    ensures count + odd <= 14 * frames
  {
    if odd == 1 {
      assert half + 1 <= 7 * frames;
    }
  }

  lemma FrameInside(count: nat, frames: nat, rounded: nat, framei: nat)
    requires frames == (count + 13) / 14 && rounded == count + count % 2 && framei < frames
    ensures 14 * framei < count && Least(14 * framei, rounded) == 14 * framei
  {
  }

  /** The inner loop: the samples of one frame, as far as the sample count goes. */
  method DecodeFrame(data: array<U8>, sampleCount: nat, ghost codes: seq<Code>, ghost f: FilterFn,
                     ghost can: (Code, History) -> bool, decode: Decoder,
                     framei: nat, ret: StereoBuffer, y1: S16, y2: S16, ghost h: History)
    returns (yn1: S16, yn2: S16)
    requires |codes| == ret.Length == sampleCount + sampleCount % 2 && AllDecode(decode, can, f, codes, h)
    requires 14 * framei < sampleCount && CodedBy(codes, data[..])
    requires Decoded(ret[..], codes, f, h, History(y1, y2), 14 * framei)
    modifies ret
    ensures Decoded(ret[..], codes, f, h, History(yn1, yn2), Least(14 * (framei + 1), ret.Length))
  {
    yn1, yn2 := y1, y2;
    var headeri := 8 * framei;
    var outputi := 14 * framei;
    var datai := headeri + 1;
    var i := 0;
    ghost var j: nat := 0;
    while i < 14 && outputi < sampleCount
      invariant i == 2 * j <= 14 && datai == headeri + 1 + j && outputi == 14 * framei + 2 * j <= ret.Length
      invariant Decoded(ret[..], codes, f, h, History(yn1, yn2), outputi)
      decreases 14 - i
    {
      PairAt(data[..], codes, framei, j, sampleCount, headeri, datai, outputi);
      yn1, yn2 := DecodePair(data[datai], data[headeri], codes, f, can, decode, ret, outputi, yn1, yn2, h);
      outputi := outputi + 2;
      datai := datai + 1;
      i := i + 2;
      j := j + 1;
    }
    EvenStop(framei, j, sampleCount, ret.Length);
  }

  lemma PairAt(data: seq<U8>, codes: seq<Code>, framei: nat, j: nat, count: nat, headeri: nat, datai: nat, outputi: nat)
    requires CodedBy(codes, data) && |codes| == count + count % 2 && j < 7
    requires headeri == 8 * framei && datai == headeri + 1 + j && outputi == 14 * framei + 2 * j < count
    ensures datai < |data| && PairOf(codes, outputi, data[headeri], data[datai])
  {
    HoldsPair(data, |codes|, framei, j);
    PairCodes(data, |codes|, framei, j, headeri, datai, outputi, data[headeri], data[datai]);
  }

  /** An even index that has passed the sample count has reached the rounded count. */
  lemma EvenStop(frame: nat, j: nat, count: nat, rounded: nat)
    requires rounded == count + count % 2 && 14 * frame + 2 * j <= rounded && 2 * j <= 14
    requires 2 * j == 14 || 14 * frame + 2 * j >= count
    ensures 14 * frame + 2 * j == Least(14 * (frame + 1), rounded)
  {
  }

  /** The next sample, and the history moved on. */
  method DecodeNext(nibble: int, header: U8, ghost codes: seq<Code>, ghost f: FilterFn,
                    ghost can: (Code, History) -> bool, decode: Decoder,
                    ret: StereoBuffer, outputi: nat, y1: S16, y2: S16, ghost h: History)
    returns (yn1: S16, yn2: S16)
    requires outputi < |codes| == ret.Length && codes[outputi] == Code(header, nibble)
    requires AllDecode(decode, can, f, codes, h) && Decoded(ret[..], codes, f, h, History(y1, y2), outputi)
    modifies ret
    ensures Decoded(ret[..], codes, f, h, History(yn1, yn2), outputi + 1)
  {
    OneMoreDecoded(ret[..], codes, f, h, History(y1, y2), outputi);
    var val := decode(Code(header, nibble), History(y1, y2));
    yn1, yn2 := val, y1;
    ret[outputi] := (val, val);
  }

  /** The two samples of one data byte. */
  method DecodePair(byte: U8, header: U8, ghost codes: seq<Code>, ghost f: FilterFn,
                    ghost can: (Code, History) -> bool, decode: Decoder, ret: StereoBuffer,
                    outputi: nat, y1: S16, y2: S16, ghost h: History)
    returns (yn1: S16, yn2: S16)
    requires |codes| == ret.Length && PairOf(codes, outputi, header, byte) && AllDecode(decode, can, f, codes, h)
    requires Decoded(ret[..], codes, f, h, History(y1, y2), outputi)
    modifies ret
    ensures Decoded(ret[..], codes, f, h, History(yn1, yn2), outputi + 2)
  {
    yn1, yn2 := DecodeNext(SignedNibble(byte / 16), header, codes, f, can, decode, ret, outputi, y1, y2, h);
    yn1, yn2 := DecodeNext(SignedNibble(byte % 16), header, codes, f, can, decode, ret, outputi + 1, yn1, yn2, h);
  }
}
