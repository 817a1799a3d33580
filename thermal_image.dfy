/** The conversion of the front frame into a packed-pixel image: every sample
    is measured against the frame's minimum, mapped through a colour gradient
    and packed as opaque 0xAARRGGBB. The gradient itself (a floating-point
    perceptual colour map) is a parameter of the model. */
module ThermalImage {
  import opened FrameBuffer
  import opened Samples

  /** A colour as the gradient returns it, one byte per channel. */
  datatype Rgb = Rgb(r: bv8, g: bv8, b: bv8)

  /** The colour gradient, given the wrapped numerator of a sample and the
      frame's range; it is evaluated at their quotient. */
  type Gradient = (U16, U16) -> Rgb

  /** An image as the renderer receives it. */
  datatype Image = Image(width: nat, height: nat, data: seq<bv32>)

  /** `val.wrapping_sub(min)`: the difference, wrapped into u16 when `val`
      is below `min`. */
  function Numerator(val: U16, min: U16): (n: U16)
    ensures val >= min ==> n == val - min
    ensures val < min ==> n == val - min + 0x1_0000
  {
    (val - min) % 0x1_0000
  }

  /** The colour channels of a packed pixel: red in byte 2, green in byte 1,
      blue in byte 0. */
  function Unpack(p: bv32): Rgb
  {
    Rgb(((p >> 16) & 0xFF) as bv8, ((p >> 8) & 0xFF) as bv8, (p & 0xFF) as bv8)
  }

  /** `255 << 24 | r << 16 | g << 8 | b`: an opaque pixel from which the
      colour can be read back unchanged. */
  function Pack(c: Rgb): (p: bv32)
    ensures p >> 24 == 0xFF
    ensures Unpack(p) == c
  {
    (0xFF << 24) | ((c.r as bv32) << 16) | ((c.g as bv32) << 8) | (c.b as bv32)
  }

  /** The pixel of one sample. */
  function Pixel(val: U16, min: U16, range: U16, gradient: Gradient): bv32
  {
    Pack(gradient(Numerator(val, min), range))
  }

  /** The pixels of a sequence of samples, index by index. */
  function Render(samples: seq<U16>, min: U16, range: U16, gradient: Gradient): seq<bv32>
  {
    seq(|samples|, i requires 0 <= i < |samples| => Pixel(samples[i], min, range, gradient))
  }

  /** The image of a frame: decode, take the bounds and the range, render. */
  function FrameImage(host: Endian, fb: seq<Byte>, gradient: Gradient): seq<bv32>
    requires |fb| == FRAME_BYTES
  {
    var samples := DecodeSamples(host, fb);
    var b := NormBounds(samples);
    Render(samples, b.min, Range(b), gradient)
  }

  /** The sample at pixel i of a frame: the big-endian value of bytes 2i
      and 2i+1. */
  function SampleAt(fb: seq<Byte>, i: nat): U16
    requires |fb| == FRAME_BYTES && i < PIXELS
  {
    0x100 * (fb[2 * i] as int) + fb[2 * i + 1]
  }

  /** Pixel i of a frame's image is the packed gradient colour at sample i's
      wrapped numerator and the frame's range. */
  lemma FrameImageAt(host: Endian, fb: seq<Byte>, gradient: Gradient, i: nat)
    requires |fb| == FRAME_BYTES && i < PIXELS
    ensures |FrameImage(host, fb, gradient)| == PIXELS
    ensures var b := NormBounds(DecodeSamples(host, fb));
      FrameImage(host, fb, gradient)[i] == Pack(gradient(Numerator(SampleAt(fb, i), b.min), Range(b)))
  {
    assert DecodeSamples(host, fb)[i] == SampleAt(fb, i);
  }

  /** Every image has 160 * 120 opaque pixels, and the colour of pixel i is
      the gradient at the numerator of sample i and the frame's range; it
      does not depend on the host byte order. */
  lemma FrameImagePixels(host: Endian, fb: seq<Byte>, gradient: Gradient)
    requires |fb| == FRAME_BYTES
    ensures |FrameImage(host, fb, gradient)| == PIXELS
    ensures FrameImage(host, fb, gradient) == FrameImage(BigEndian, fb, gradient)
    ensures forall i :: 0 <= i < PIXELS ==>
      var b := NormBounds(DecodeSamples(host, fb));
      FrameImage(host, fb, gradient)[i] >> 24 == 0xFF &&
      Unpack(FrameImage(host, fb, gradient)[i]) == gradient(Numerator(SampleAt(fb, i), b.min), Range(b))
  {
    assert DecodeSamples(host, fb) == DecodeSamples(BigEndian, fb);
    FrameImageAt(host, fb, gradient, 0);
    forall i | 0 <= i < PIXELS
      ensures var b := NormBounds(DecodeSamples(host, fb));
        FrameImage(host, fb, gradient)[i] >> 24 == 0xFF &&
        Unpack(FrameImage(host, fb, gradient)[i]) == gradient(Numerator(SampleAt(fb, i), b.min), Range(b))
    {
      FrameImageAt(host, fb, gradient, i);
    }
  }

  /** Two pixels whose samples are equal have equal colours. */
  lemma EqualSamplesEqualPixels(host: Endian, fb: seq<Byte>, gradient: Gradient, i: nat, j: nat)
    requires |fb| == FRAME_BYTES && i < PIXELS && j < PIXELS
    requires SampleAt(fb, i) == SampleAt(fb, j)
    ensures FrameImage(host, fb, gradient)[i] == FrameImage(host, fb, gradient)[j]
  {
    FrameImageAt(host, fb, gradient, i);
    FrameImageAt(host, fb, gradient, j);
  }

  /** Normalised position of the samples: a non-zero sample lies within
      [0, range] of the minimum, while a zero sample below a positive
      minimum wraps around to 65536 - min. */
  lemma NumeratorOfSample(samples: seq<U16>, i: nat)
    requires i < |samples|
    ensures var b := NormBounds(samples);
      samples[i] > 0 ==> Numerator(samples[i], b.min) <= Range(b)
    ensures var b := NormBounds(samples);
      samples[i] == 0 ==> Numerator(samples[i], b.min) == (0x1_0000 - b.min) % 0x1_0000
  {
  }

  /** A frame whose samples all hold the same non-zero value gives one
      colour everywhere: the gradient at numerator 0 over range 1. */
  lemma UniformFrame(host: Endian, fb: seq<Byte>, gradient: Gradient, v: U16)
    requires |fb| == FRAME_BYTES && 0 < v
    requires forall i :: 0 <= i < PIXELS ==> SampleAt(fb, i) == v
    ensures forall i :: 0 <= i < PIXELS ==> FrameImage(host, fb, gradient)[i] == Pack(gradient(0, 1))
  {
    var samples := DecodeSamples(host, fb);
    assert forall i :: 0 <= i < PIXELS ==> samples[i] == SampleAt(fb, i);
    UniformBounds(samples, v);
    forall i | 0 <= i < PIXELS
      ensures FrameImage(host, fb, gradient)[i] == Pack(gradient(0, 1))
    {
      FrameImageAt(host, fb, gradient, i);
    }
  }

  /** An all-zero frame still yields a full image, in one colour: the
      gradient at numerator 0 over the fallback range 65535. */
  lemma AllZeroFrame(host: Endian, fb: seq<Byte>, gradient: Gradient)
    requires |fb| == FRAME_BYTES
    requires forall k :: 0 <= k < FRAME_BYTES ==> fb[k] == 0
    ensures |FrameImage(host, fb, gradient)| == PIXELS
    ensures forall i :: 0 <= i < PIXELS ==> FrameImage(host, fb, gradient)[i] == Pack(gradient(0, 0xFFFF))
  {
    var samples := DecodeSamples(host, fb);
    assert forall i :: 0 <= i < |samples| ==> samples[i] == 0;
    FrameImageAt(host, fb, gradient, 0);
    forall i | 0 <= i < PIXELS
      ensures FrameImage(host, fb, gradient)[i] == Pack(gradient(0, 0xFFFF))
    {
      FrameImageAt(host, fb, gradient, i);
    }
  }

  /** A frame of samples 100 with a single sample 1000 at pixel k: that pixel
      is the gradient at the top of the range (900 / 900), every other pixel
      the gradient at its bottom (0 / 900). */
  lemma HotSpot(host: Endian, fb: seq<Byte>, gradient: Gradient, k: nat)
    requires |fb| == FRAME_BYTES && k < PIXELS
    requires forall i :: 0 <= i < PIXELS && i != k ==> fb[2 * i] == 0x00 && fb[2 * i + 1] == 0x64
    requires fb[2 * k] == 0x03 && fb[2 * k + 1] == 0xE8
    ensures FrameImage(host, fb, gradient)[k] == Pack(gradient(900, 900))
    ensures forall i :: 0 <= i < PIXELS && i != k ==> FrameImage(host, fb, gradient)[i] == Pack(gradient(0, 900))
  {
    var samples := DecodeSamples(host, fb);
    forall i | 0 <= i < PIXELS
      ensures samples[i] == if i == k then 1000 else 100
    {
      assert samples[i] == SampleAt(fb, i);
    }
    OneHotBounds(samples, k);
    forall i | 0 <= i < PIXELS
      ensures FrameImage(host, fb, gradient)[i] == Pack(gradient(if i == k then 900 else 0, 900))
    {
      FrameImageAt(host, fb, gradient, i);
    }
  }

  /** The nested row/column loops of `img_from_buffer`: index `y * 160 + x`
      of `imageData` receives the pixel of sample `y * 160 + x`, so that
      afterwards every one of the 19200 entries holds the rendered sample. */
  method FillImage(fbu16: seq<U16>, min: U16, range: U16, gradient: Gradient, imageData: array<bv32>)
    requires |fbu16| == PIXELS && imageData.Length == PIXELS
    modifies imageData
    ensures imageData[..] == Render(fbu16, min, range, gradient)
  {
    ghost var pixels := Render(fbu16, min, range, gradient);
    for y := 0 to 120
      invariant forall k :: 0 <= k < y * 160 ==> imageData[k] == pixels[k]
    {
      for x := 0 to 160
        invariant forall k :: 0 <= k < y * 160 + x ==> imageData[k] == pixels[k]
      {
        var val := fbu16[y * 160 + x];
        var index := y * 160 + x;
        imageData[index] := Pack(gradient(Numerator(val, min), range));
      }
    }
    assert imageData[..] == pixels;
  }

  /** `img_from_buffer`: swap the slots, lock and copy the front, decode,
      take the bounds and the range, then fill `imageData`. A poisoned
      front lock makes the copy panic (None, image untouched). */
  method ImgFromBuffer(fb: DoubleBuffer, host: Endian, gradient: Gradient, imageData: array<bv32>)
    returns (image: Option<Image>)
    requires fb.Valid() && imageData.Length == PIXELS
    modifies fb.front, fb.back, imageData
    ensures fb.View() == SwapSlots(old(fb.View()))
    ensures fb.frontPoisoned ==> image == None && imageData[..] == old(imageData[..])
    ensures !fb.frontPoisoned ==>
      imageData[..] == FrameImage(host, fb.front[..], gradient) &&
      image == Some(Image(WIDTH, HEIGHT, imageData[..]))
  {
    fb.Swap();
    if fb.frontPoisoned {
      return None;
    }
    var frame := fb.front[..];
    var fbu16 := DecodeSamples(host, frame);
    var b := NormBounds(fbu16);
    var range := Range(b);
    FillImage(fbu16, b.min, range, gradient, imageData);
    return Some(Image(WIDTH, HEIGHT, imageData[..]));
  }
}
