/** Turning the front frame into thermal samples and the bounds used to
    normalise them: big-endian 16-bit decoding, the non-zero minimum and
    maximum with their fallbacks, and the clamped range. */
module Samples {
  import opened FrameBuffer

  /** An unsigned 16-bit value. */
  type U16 = x: int | 0 <= x < 0x1_0000

  const WIDTH: nat := 160
  const HEIGHT: nat := 120

  /** Number of samples decoded from a frame. */
  const PIXELS: nat := WIDTH * HEIGHT

  /** A frame slot holds exactly one two-byte sample per pixel. */
  lemma FrameHoldsPixels()
    ensures PIXELS == 19200 && FRAME_BYTES == 2 * PIXELS
  {
  }

  datatype Option<T> = None | Some(value: T) {
    /** `unwrap_or`. */
    function GetOr(default: T): T {
      match this
      case Some(v) => v
      case None => default
    }
  }

  /** Byte order of the host the program runs on. */
  datatype Endian = LittleEndian | BigEndian

  /** The u16 a host reads from memory holding `first` then `second`. */
  function NativeU16(host: Endian, first: Byte, second: Byte): (x: U16)
    ensures x % 0x100 == (if host == LittleEndian then first else second)
    ensures x / 0x100 == (if host == LittleEndian then second else first)
  {
    match host
    case LittleEndian => first + 0x100 * second
    case BigEndian => 0x100 * first + second
  }

  /** `u16::to_be`: the identity on a big-endian host, a byte swap otherwise. */
  function ToBe(host: Endian, x: U16): (r: U16)
    ensures host == BigEndian ==> r == x
    ensures host == LittleEndian ==> r % 0x100 == x / 0x100 && r / 0x100 == x % 0x100
  {
    match host
    case LittleEndian => (x % 0x100) * 0x100 + x / 0x100
    case BigEndian => x
  }

  /** Reading a byte pair in host order and then converting with `to_be`
      gives the big-endian value of the pair on either host. */
  lemma NativeThenToBe(host: Endian)
    ensures forall first: Byte, second: Byte ::
      ToBe(host, NativeU16(host, first, second)) == 0x100 * first + second
  {
    forall first: Byte, second: Byte
      ensures ToBe(host, NativeU16(host, first, second)) == 0x100 * first + second
    {
      if host == LittleEndian {
        var x := first + 0x100 * second;
        assert x % 0x100 == first && x / 0x100 == second;
      }
    }
  }

  /** `u8_as_u16_slice`: the bytes reinterpreted in place as `len / 2`
      host-order u16 values. */
  function U8AsU16Slice(host: Endian, p: seq<Byte>): (r: seq<U16>)
    ensures |r| == |p| / 2
    ensures forall i :: 0 <= i < |p| / 2 ==> r[i] == NativeU16(host, p[2 * i], p[2 * i + 1])
  {
    seq(|p| / 2, i requires 0 <= i < |p| / 2 => NativeU16(host, p[2 * i], p[2 * i + 1]))
  }

  /** The first 160 * 120 reinterpreted values, each passed through
      `to_be`: exactly 19200 samples, sample i being the big-endian value of
      bytes 2i and 2i+1, whatever the host byte order. */
  function DecodeSamples(host: Endian, fb: seq<Byte>): (samples: seq<U16>)
    requires |fb| == FRAME_BYTES
    ensures |samples| == PIXELS
    ensures forall i :: 0 <= i < PIXELS ==> samples[i] == 0x100 * (fb[2 * i] as int) + fb[2 * i + 1]
  {
    var native := U8AsU16Slice(host, fb)[..PIXELS];
    NativeThenToBe(host);
    seq(PIXELS, i requires 0 <= i < PIXELS => ToBe(host, native[i]))
  }

  /** `filter(|x| *x > 0)`: the non-zero samples, in order. */
  function Positive(s: seq<U16>): (r: seq<U16>)
    ensures |r| <= |s|
    ensures forall x :: x in r <==> x in s && x > 0
    ensures multiset(r) == multiset(s)[0 := 0]
  {
    if s == [] then []
    else
      assert s == [s[0]] + s[1..];
      (if s[0] > 0 then [s[0]] else []) + Positive(s[1..])
  }

  /** `Iterator::max`: the largest element, or None when there is none. */
  function MaxOf(s: seq<U16>): (m: Option<U16>)
    ensures m.None? <==> s == []
    ensures m.Some? ==> m.value in s && forall x :: x in s ==> x <= m.value
  {
    if s == [] then None
    else
      assert forall x :: x in s ==> x == s[0] || x in s[1..];
      match MaxOf(s[1..])
      case None => Some(s[0])
      case Some(t) => Some(if s[0] <= t then t else s[0])
  }

  /** `Iterator::min`: the smallest element, or None when there is none. */
  function MinOf(s: seq<U16>): (m: Option<U16>)
    ensures m.None? <==> s == []
    ensures m.Some? ==> m.value in s && forall x :: x in s ==> m.value <= x
  {
    if s == [] then None
    else
      assert forall x :: x in s ==> x == s[0] || x in s[1..];
      match MinOf(s[1..])
      case None => Some(s[0])
      case Some(t) => Some(if s[0] <= t then s[0] else t)
  }

  /** The normalisation bounds of a frame. */
  datatype Bounds = Bounds(min: U16, max: U16)

  /** `max` and `min` over the non-zero samples, falling back to 65535 and 0
      when every sample is zero. */
  function NormBounds(samples: seq<U16>): (b: Bounds)
    ensures b.min <= b.max
    ensures (forall i :: 0 <= i < |samples| ==> samples[i] == 0) ==> b == Bounds(0, 0xFFFF)
    ensures (exists i :: 0 <= i < |samples| && samples[i] > 0) ==>
      0 < b.min && b.min in samples && b.max in samples &&
      forall i :: 0 <= i < |samples| && samples[i] > 0 ==> b.min <= samples[i] <= b.max
  {
    var positive := Positive(samples);
    var max := MaxOf(positive).GetOr(0xFFFF);
    var min := MinOf(positive).GetOr(0);
    if positive == [] then
      assert forall i :: 0 <= i < |samples| ==> samples[i] !in positive;
      Bounds(min, max)
    else
      assert min in positive;
      assert forall i :: 0 <= i < |samples| && samples[i] > 0 ==> samples[i] in positive;
      Bounds(min, max)
  }

  /** `(max - min).max(1)`: subtraction needs `min <= max` to stay in u16;
      the result is a non-zero divisor, equal to `max - min` unless the
      bounds coincide. */
  function Range(b: Bounds): (range: U16)
    requires b.min <= b.max
    ensures 1 <= range
    ensures b.min < b.max ==> range == b.max - b.min
    ensures b.min == b.max ==> range == 1
  {
    var range := b.max - b.min;
    if range < 1 then 1 else range
  }

  /** The bounds of every frame can be subtracted without underflow, and the
      resulting range is between 1 and 65535; it is 65535 for an all-zero
      frame, and 1 for a frame whose non-zero samples are all equal. */
  lemma RangeOfFrame(samples: seq<U16>)
    ensures NormBounds(samples).min <= NormBounds(samples).max
    ensures 1 <= Range(NormBounds(samples)) <= 0xFFFF
    ensures (forall i :: 0 <= i < |samples| ==> samples[i] == 0) ==> Range(NormBounds(samples)) == 0xFFFF
    ensures ((exists i :: 0 <= i < |samples| && samples[i] > 0) &&
             (forall i, j :: 0 <= i < |samples| && 0 <= j < |samples| && samples[i] > 0 && samples[j] > 0 ==>
                samples[i] == samples[j]))
            ==> Range(NormBounds(samples)) == 1
  {
    var b := NormBounds(samples);
    if exists i :: 0 <= i < |samples| && samples[i] > 0 {
      var i :| 0 <= i < |samples| && samples[i] > 0;
      if forall i, j :: 0 <= i < |samples| && 0 <= j < |samples| && samples[i] > 0 && samples[j] > 0 ==> samples[i] == samples[j] {
        var p :| 0 <= p < |samples| && samples[p] == b.min;
        var q :| 0 <= q < |samples| && samples[q] == b.max;
        assert b.min == b.max;
      }
    }
  }

  /** Bounds of a flat frame: when every sample is the same non-zero value,
      both bounds are that value. */
  lemma UniformBounds(samples: seq<U16>, v: U16)
    requires |samples| > 0 && 0 < v
    requires forall i :: 0 <= i < |samples| ==> samples[i] == v
    ensures NormBounds(samples) == Bounds(v, v)
  {
    assert samples[0] > 0;
  }

  /** Bounds of a frame of samples 100 with one sample 1000: the minimum
      and maximum are exactly those two values. */
  lemma OneHotBounds(samples: seq<U16>, k: nat)
    requires k < |samples| && |samples| > 1
    requires forall i :: 0 <= i < |samples| ==> samples[i] == if i == k then 1000 else 100
    ensures NormBounds(samples) == Bounds(100, 1000)
  {
    var other := if k == 0 then 1 else 0;
    assert samples[other] == 100 && samples[k] == 1000;
  }
}
