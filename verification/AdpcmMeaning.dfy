/**
  What the decoder's numbers mean: packed frames give back their values, and each sample is the rounded and clamped
  sum of the recurrence.
 */
module AdpcmMeaning {
  import opened Adpcm
  import opened Samples
  import opened Sequences

  /** A nibble stands for the one number of its residue modulo 16 between -8 and 7. */
  lemma NibbleIs(n: nat, v: int)
    requires n < 16
    ensures SignedNibble(n) == v <==> -8 <= v <= 7 && (v - n) % 16 == 0
  {
  }

  // ---------------------------------------------------------------- packing

  /** A frame before it is packed: the coefficient pair and the scale of its header, whose top bit is free, and its
      values. */
  datatype Frame = Frame(top: nat, index: nat, scale: nat, values: seq<int>)

  predicate IsFrame(f: Frame) {
    f.top < 2 && f.index < 8 && f.scale < 16
    && |f.values| == 14 && forall i :: 0 <= i < 14 ==> -8 <= f.values[i] <= 7
  }

  predicate AreFrames(frames: seq<Frame>) {
    forall k :: 0 <= k < |frames| ==> IsFrame(frames[k])
  }

  function Header(f: Frame): U8
    requires IsFrame(f)
  {
    128 * f.top + 16 * f.index + f.scale
  }

  function PackedPair(first: int, second: int): U8 {
    16 * (first % 16) + second % 16
  }

  /** The header and seven bytes of two values each, the first one in the high half. */
  function PackedFrame(f: Frame): (data: seq<U8>)
    requires IsFrame(f)
    ensures |data| == 8
  {
    [Header(f)] + seq(7, i requires 0 <= i < 7 && IsFrame(f) => PackedPair(f.values[2 * i], f.values[2 * i + 1]))
  }

  function Packed(frames: seq<Frame>): (data: seq<U8>)
    requires AreFrames(frames)
  {
    if frames == [] then [] else PackedFrame(frames[0]) + Packed(frames[1..])
  }

  /** The values of a frame, each with its header. */
  function FrameValues(f: Frame): (codes: seq<Code>)
    requires IsFrame(f)
    ensures |codes| == 14
  {
    seq(14, i requires 0 <= i < 14 && IsFrame(f) => Code(Header(f), f.values[i]))
  }

  function Values(frames: seq<Frame>): (codes: seq<Code>)
    requires AreFrames(frames)
    ensures |codes| == 14 * |frames|
  {
    if frames == [] then [] else FrameValues(frames[0]) + Values(frames[1..])
  }

  lemma HalvesOfPair(first: int, second: int)
    requires -8 <= first <= 7 && -8 <= second <= 7
    ensures SignedNibble(PackedPair(first, second) / 16) == first
    ensures SignedNibble(PackedPair(first, second) % 16) == second
  {
    NibbleIs(first % 16, first);
    NibbleIs(second % 16, second);
  }

  lemma PackedCode(f: Frame, data: seq<U8>, i: nat)
    requires IsFrame(f) && i < 14 && PackedFrame(f) <= data
    ensures CodeAt(data, i) == Code(Header(f), f.values[i])
  {
    var j := i / 2;
    assert PackedFrame(f)[1 + j] == PackedPair(f.values[2 * j], f.values[2 * j + 1]);
    HalvesOfPair(f.values[2 * j], f.values[2 * j + 1]);
  }

  lemma PackedFrameReads(f: Frame, data: seq<U8>, count: nat)
    requires IsFrame(f) && count <= 14 && PackedFrame(f) <= data
    ensures FrameCodes(data, count) == FrameValues(f)[..count]
  {
    forall i | 0 <= i < count
      ensures FrameCodes(data, count)[i] == FrameValues(f)[i]
    {
      FrameCode(data, count, i);
      PackedCode(f, data, i);
    }
  }

  lemma TakeOfTwo(a: seq<Code>, b: seq<Code>, n: nat)
    requires n <= |a| + |b|
    ensures (a + b)[..n] == if n <= |a| then a[..n] else a + b[..n - |a|]
  {
  }

  /** Frames packed from any values have exactly these as their codes, as far as one reads. */
  lemma {:induction false} PackedReadsBack(frames: seq<Frame>, count: nat)
    requires AreFrames(frames) && count <= 14 * |frames|
    ensures Holds(Packed(frames), count) && Codes(Packed(frames), count) == Values(frames)[..count]
    decreases |frames|
  {
    if frames == [] {
      assert Codes([], 0) == [];
    } else {
      var first, rest := PackedFrame(frames[0]), Packed(frames[1..]);
      TakeOfTwo(FrameValues(frames[0]), Values(frames[1..]), count);
      if count < 14 {
        PackedFrameReads(frames[0], first + rest, count);
      } else {
        PackedReadsBack(frames[1..], count - 14);
        FirstFrame(first + rest, first, rest, count - 14);
        PackedFrameReads(frames[0], first, 14);
        assert FrameValues(frames[0])[..14] == FrameValues(frames[0]);
      }
    }
  }

  // ---------------------------------------------------------------- the filter

  /** A sum with 11 fractional bits, rounded down to a sample, or to the nearest sample there is. */
  predicate IsRounded(sum: int, y: S16) {
    (y > -32768 ==> 2048 * y <= sum) && (y < 32767 ==> sum < 2048 * (y + 1))
  }

  /** The filter gives the one sample that the sum with the coefficient pair of the header rounds to. */
  lemma FilterMeans(top: nat, index: nat, scale: nat, coeff: Coefficients, value: int, h: History, y: S16)
    requires top < 2 && index < 8 && scale < 16
    ensures Filter(128 * top + 16 * index + scale, coeff, value, h) == y
            <==> IsRounded(value * Pow2(scale) * 2048 + 1024
                           + coeff[2 * index] * h.yn1 + coeff[2 * index + 1] * h.yn2, y)
  {
    HeaderParts(top, index, scale);
    RoundedIs(FilterSum(coeff[2 * index], coeff[2 * index + 1], value, scale, h), y);
  }

  lemma HeaderParts(top: nat, index: nat, scale: nat)
    requires top < 2 && index < 8 && scale < 16
    ensures (128 * top + 16 * index + scale) / 16 % 8 == index && (128 * top + 16 * index + scale) % 16 == scale
  {
    assert (128 * top + 16 * index + scale) / 16 == 8 * top + index;
  }

  lemma RoundedIs(sum: int, y: S16)
    ensures Clamp16(sum / 2048) == y <==> IsRounded(sum, y)
  {
  }

  // ---------------------------------------------------------------- the recurrence

  /** The two samples before sample `n`, the first ones of which come from the history. */
  function Before(out: seq<S16>, h: History, n: nat): History
    requires n <= |out|
  {
    History(if n == 0 then h.yn1 else out[n - 1], if n == 0 then h.yn2 else if n == 1 then h.yn1 else out[n - 2])
  }

  lemma {:induction false} OutputIs(f: FilterFn, codes: seq<Code>, h: History, count: nat, n: nat)
    requires n <= count <= |codes|
    ensures var out := Outputs(f, codes, h, count);
            After(f, codes, h, n) == Before(out, h, n) && (n < count ==> out[n] == f(codes[n], Before(out, h, n)))
    decreases count, n
  {
    var out := Outputs(f, codes, h, count);
    if n < count {
      if n + 1 < count {
        OutputIs(f, codes, h, count - 1, n);
      } else if n > 0 {
        OutputIs(f, codes, h, count - 1, n);
      }
    } else if n > 0 {
      OutputIs(f, codes, h, count, n - 1);
    }
  }

  /** The sample is the rounded sum of a value, in the scale of its frame, and of the two samples before it, with the
      coefficients of its frame. */
  predicate IsFiltered(f: Frame, value: int, coeff: Coefficients, before: History, y: S16) {
    f.index < 8
    && IsRounded(value * Pow2(f.scale) * 2048 + 1024
                 + coeff[2 * f.index] * before.yn1 + coeff[2 * f.index + 1] * before.yn2, y)
  }

  lemma FilteredCode(f: Frame, value: int, coeff: Coefficients, before: History, y: S16)
    requires IsFrame(f) && y == FilterOf(coeff)(Code(Header(f), value), before)
    ensures IsFiltered(f, value, coeff, before, y)
  {
    FilterMeans(f.top, f.index, f.scale, coeff, value, before, y);
  }

  lemma CodedSample(frames: seq<Frame>, codes: seq<Code>, n: nat)
    requires AreFrames(frames) && n < |codes| <= 14 * |frames| && codes == Values(frames)[..|codes|]
    ensures codes[n] == Code(Header(frames[n / 14]), frames[n / 14].values[n % 14])
  {
    ValueAt(frames, n);
  }

  /** What decoding means: for packed frames, every sample follows from its value and the two samples before it. */
  lemma DecodedMeans(frames: seq<Frame>, coeff: Coefficients, h: History, count: nat, n: nat)
    requires AreFrames(frames) && n < count <= 14 * |frames|
    ensures Holds(Packed(frames), count)
    ensures var out := Outputs(FilterOf(coeff), Codes(Packed(frames), count), h, count);
            IsFiltered(frames[n / 14], frames[n / 14].values[n % 14], coeff, Before(out, h, n), out[n])
  {
    PackedReadsBack(frames, count);
    var codes := Codes(Packed(frames), count);
    OutputIs(FilterOf(coeff), codes, h, count, n);
    CodedSample(frames, codes, n);
    var out := Outputs(FilterOf(coeff), codes, h, count);
    FilteredCode(frames[n / 14], frames[n / 14].values[n % 14], coeff, Before(out, h, n), out[n]);
  }

  lemma {:induction false} ValueAt(frames: seq<Frame>, n: nat)
    requires AreFrames(frames) && n < 14 * |frames|
    ensures Values(frames)[n] == Code(Header(frames[n / 14]), frames[n / 14].values[n % 14])
    decreases |frames|
  {
    if n >= 14 {
      ValueAt(frames[1..], n - 14);
    }
  }
}
