/** The per-pixel RGBM codec and the raster packer of the converter.

    A radiance pixel is a sequence of channels (three, from the loader). The
    encoder turns it into colour values and a multiplier; the quantiser turns
    that into bytes that keep the multiplier exactly (RGBM output), the
    reconstructor into an opaque displayable pixel (RGBA output); the packer
    lays the chosen byte vectors of all pixels end to end. */
module Encode {
  import opened Float32

  /** The radiance the encoding is calibrated for. */
  const RANGE: real := 6.0

  /** The output format chosen on the command line. */
  datatype Format = Rgba | Rgbm

  // ---------------------------------------------------------------------------
  // RGBM encoder

  /** Each channel scaled into the calibrated range. */
  function Normalise(rgbe: seq<real>): (ns: seq<real>)
    ensures |ns| == |rgbe|
    ensures forall i :: 0 <= i < |ns| ==> ns[i] * RANGE == rgbe[i]
  {
    seq(|rgbe|, i requires 0 <= i < |rgbe| => rgbe[i] / RANGE)
  }

  /** The left fold of `f32::max` over `ns`, starting from `acc`. */
  function PeakFrom(acc: real, ns: seq<real>): (p: real)
    ensures acc <= p
    ensures forall i :: 0 <= i < |ns| ==> ns[i] <= p
    ensures p == acc || p in ns
    decreases ns
  {
    if ns == [] then acc
    else
      var p := PeakFrom(Max(acc, ns[0]), ns[1..]);
      assert p in ns[1..] ==> p in ns;
      p
  }

  /** The brightest normalised channel, folded from `f32::MIN`. */
  function Peak(ns: seq<real>): (p: real)
    ensures F32_MIN <= p
    ensures forall i :: 0 <= i < |ns| ==> ns[i] <= p
    ensures p == F32_MIN || p in ns
  {
    PeakFrom(F32_MIN, ns)
  }

  /** The multiplier: the peak rounded up to the 1/255 grid. */
  function Multiplier(peak: real): (m: real)
    ensures peak <= m < peak + 1.0 / 255.0
    ensures (m * 255.0).Floor as real == m * 255.0
  {
    Ceil(peak * 255.0) as real / 255.0
  }

  /** The multiplier the encoder chooses for one pixel: at or above every
      normalised channel, less than one grid step above the peak, on the grid. */
  function PixelMultiplier(rgbe: seq<real>): (m: real)
    ensures forall i :: 0 <= i < |rgbe| ==> Normalise(rgbe)[i] <= m
    ensures Peak(Normalise(rgbe)) <= m < Peak(Normalise(rgbe)) + 1.0 / 255.0
    ensures (m * 255.0).Floor as real == m * 255.0
  {
    Multiplier(Peak(Normalise(rgbe)))
  }

  /** `encode_rgbe_float_to_rgbm`: the normalised channels divided by the
      multiplier, in order, followed by the multiplier in the alpha slot. */
  function EncodeRgbm(rgbe: seq<real>): (r: seq<F32>)
    ensures |r| == |rgbe| + 1
    ensures r[|rgbe|] == Finite(PixelMultiplier(rgbe))
    ensures forall i :: 0 <= i < |rgbe| ==> r[i] == Div(rgbe[i] / RANGE, PixelMultiplier(rgbe))
  {
    var ns := Normalise(rgbe);
    var m := Multiplier(Peak(ns));
    seq(|ns|, i requires 0 <= i < |ns| => Div(ns[i], m)) + [Finite(m)]
  }

  /** On a non-empty pixel the fold from `f32::MIN` is the brightest normalised
      channel, and the multiplier lies within one grid step above it. */
  lemma MultiplierBoundsPeak(rgbe: seq<real>)
    requires rgbe != []
    requires forall i :: 0 <= i < |rgbe| ==> rgbe[i] >= 0.0
    ensures Peak(Normalise(rgbe)) in Normalise(rgbe)
    ensures forall i :: 0 <= i < |rgbe| ==> rgbe[i] / RANGE <= Peak(Normalise(rgbe))
    ensures Peak(Normalise(rgbe)) <= PixelMultiplier(rgbe) < Peak(Normalise(rgbe)) + 1.0 / 255.0
    ensures (PixelMultiplier(rgbe) * 255.0).Floor as real == PixelMultiplier(rgbe) * 255.0
  {
    var ns := Normalise(rgbe);
    assert ns[0] in ns;
    assert ns[0] >= 0.0 > F32_MIN;
  }

  /** A pixel whose channels lie in [0, RANGE], one of them positive, encodes to
      a multiplier in (0, 1] and colour values in [0, 1]. */
  lemma EncodeInUnitRange(rgbe: seq<real>)
    requires forall i :: 0 <= i < |rgbe| ==> 0.0 <= rgbe[i] <= RANGE
    requires exists i :: 0 <= i < |rgbe| && rgbe[i] > 0.0
    ensures 0.0 < PixelMultiplier(rgbe) <= 1.0
    ensures forall i :: 0 <= i < |rgbe| ==>
      EncodeRgbm(rgbe)[i].Finite? && 0.0 <= EncodeRgbm(rgbe)[i].v <= 1.0
  {
    var ns := Normalise(rgbe);
    var peak := Peak(ns);
    var m := PixelMultiplier(rgbe);
    var j :| 0 <= j < |rgbe| && rgbe[j] > 0.0;
    MultiplierBoundsPeak(rgbe);
    assert ns[j] > 0.0;
    assert peak <= 1.0;
    assert 0.0 < m;
    var k := Ceil(peak * 255.0);
    assert k <= 255;
    assert m == k as real / 255.0;
    ColoursInUnit(rgbe);
  }

  /** With a positive multiplier at or above every non-negative normalised
      channel, every colour value lies in [0, 1]. */
  lemma ColoursInUnit(rgbe: seq<real>)
    requires 0.0 < PixelMultiplier(rgbe)
    requires forall i :: 0 <= i < |rgbe| ==> 0.0 <= rgbe[i] / RANGE <= PixelMultiplier(rgbe)
    ensures forall i :: 0 <= i < |rgbe| ==>
      EncodeRgbm(rgbe)[i].Finite? && 0.0 <= EncodeRgbm(rgbe)[i].v <= 1.0
  {
    forall i | 0 <= i < |rgbe|
      ensures EncodeRgbm(rgbe)[i].Finite? && 0.0 <= EncodeRgbm(rgbe)[i].v <= 1.0
    {
      ColourInUnit(rgbe, i);
    }
  }

  /** One colour value of `ColoursInUnit`. */
  lemma ColourInUnit(rgbe: seq<real>, i: nat)
    requires i < |rgbe|
    requires 0.0 < PixelMultiplier(rgbe)
    requires 0.0 <= rgbe[i] / RANGE <= PixelMultiplier(rgbe)
    ensures EncodeRgbm(rgbe)[i].Finite? && 0.0 <= EncodeRgbm(rgbe)[i].v <= 1.0
  {
    assert EncodeRgbm(rgbe)[i] == Div(rgbe[i] / RANGE, PixelMultiplier(rgbe));
    DivInUnit(rgbe[i] / RANGE, PixelMultiplier(rgbe));
  }

  /** Over exact reals the encoding loses nothing: a colour value times RANGE
      times the multiplier stored in the alpha slot is the original channel,
      whenever that multiplier is not 0. */
  lemma EncodeRoundTrip(rgbe: seq<real>, i: nat)
    requires i < |rgbe|
    requires PixelMultiplier(rgbe) != 0.0
    ensures Mul(Mul(EncodeRgbm(rgbe)[i], Finite(RANGE)), EncodeRgbm(rgbe)[|rgbe|]) == Finite(rgbe[i])
  {
    QuotientRoundTrip(rgbe[i], PixelMultiplier(rgbe), EncodeRgbm(rgbe)[i]);
  }

  /** The quotient `x` of a normalised channel `c / RANGE` by `m`, times RANGE
      and `m`, is `c`. */
  lemma QuotientRoundTrip(c: real, m: real, x: F32)
    requires m != 0.0 && x == Div(c / RANGE, m)
    ensures Mul(Mul(x, Finite(RANGE)), Finite(m)) == Finite(c)
  {
    assert x.v * m == c / RANGE;
    assert x.v * RANGE * m == c;
  }

  /** A value in [0, m] divided by a positive m lies in [0, 1]. */
  lemma DivInUnit(n: real, m: real)
    requires 0.0 < m && 0.0 <= n <= m
    ensures Div(n, m).Finite? && 0.0 <= Div(n, m).v <= 1.0
  {
  }

  /** A black pixel: the multiplier is 0 and every colour value is the NaN of 0/0. */
  lemma EncodeBlackPixel(rgbe: seq<real>)
    requires rgbe != []
    requires forall i :: 0 <= i < |rgbe| ==> rgbe[i] == 0.0
    ensures PixelMultiplier(rgbe) == 0.0
    ensures forall i :: 0 <= i < |rgbe| ==> EncodeRgbm(rgbe)[i] == NaN
  {
    MultiplierBoundsPeak(rgbe);
    var ns := Normalise(rgbe);
    assert Peak(ns) == 0.0;
    assert Ceil(0.0) == 0;
  }

  // ---------------------------------------------------------------------------
  // 8-bit quantiser

  /** One value rounded up onto the byte grid and cast to `u8`. */
  function QuantiseOne(x: F32): (b: Byte)
    ensures x.NaN? ==> b == 0
    ensures x.Inf? ==> b == if x.positive then 255 else 0
  {
    ToU8(CeilF(Mul(x, Finite(255.0))))
  }

  /** `convert_rgbm_float_to_8_bit`: every value quantised, in order. */
  function ConvertRgbmTo8Bit(xs: seq<F32>): (bs: seq<Byte>)
    ensures |bs| == |xs|
    ensures forall i :: 0 <= i < |xs| ==> bs[i] == QuantiseOne(xs[i])
  {
    seq(|xs|, i requires 0 <= i < |xs| => QuantiseOne(xs[i]))
  }

  /** A value in [0, 1] becomes the least byte at or above 255 times it; so 0
      becomes 0 and 1 becomes 255. Values above 1 saturate to 255; values at or
      below 0, and NaN, become 0. */
  lemma QuantiseOneBounds(x: F32)
    ensures x.Finite? && 0.0 <= x.v <= 1.0 ==>
      QuantiseOne(x) as real - 1.0 < x.v * 255.0 <= QuantiseOne(x) as real
    ensures x == Finite(0.0) ==> QuantiseOne(x) == 0
    ensures x == Finite(1.0) ==> QuantiseOne(x) == 255
    ensures x.Finite? && x.v > 1.0 ==> QuantiseOne(x) == 255
    ensures x.Finite? && x.v <= 0.0 ==> QuantiseOne(x) == 0
    ensures x.NaN? ==> QuantiseOne(x) == 0
  {
    if x.Finite? {
      var c := Ceil(x.v * 255.0);
      if 0.0 <= x.v <= 1.0 {
        assert c <= 255;
      }
      assert x == Finite(1.0) ==> c == 255;
      assert x == Finite(0.0) ==> c == 0;
    }
  }

  /** A value already on the 1/255 grid quantises back to its own byte:
      quantising is lossless there, and re-quantising a byte does not drift. */
  lemma QuantiseOnGrid(b: Byte)
    ensures QuantiseOne(Finite(b as real / 255.0)) == b
  {
    assert (b as real / 255.0) * 255.0 == b as real;
    assert Ceil(b as real) == b;
  }

  /** The multiplier of a pixel with a peak in [0, 1] is stored exactly: its byte
      is 255 times the multiplier. */
  lemma MultiplierQuantisesExactly(rgbe: seq<real>)
    requires 0.0 <= Peak(Normalise(rgbe)) <= 1.0
    ensures ConvertRgbmTo8Bit(EncodeRgbm(rgbe))[|rgbe|] as real == PixelMultiplier(rgbe) * 255.0
  {
    var peak := Peak(Normalise(rgbe));
    var k := Ceil(peak * 255.0);
    assert 0 <= k <= 255;
    assert PixelMultiplier(rgbe) == k as real / 255.0;
    QuantiseOnGrid(k);
  }

  // ---------------------------------------------------------------------------
  // RGBA reconstructor

  /** One value scaled back by RANGE, the multiplier and 255, and cast to `u8`. */
  function ReconstructOne(x: F32, multi: F32): (b: Byte)
    ensures x.NaN? || multi.NaN? ==> b == 0
    ensures x.Finite? && multi == Finite(0.0) ==> b == 0
  {
    ToU8(Mul(Mul(Mul(x, Finite(RANGE)), multi), Finite(255.0)))
  }

  /** `decode_rgbm_to_rgba8`: every value reconstructed with the multiplier read
      from index 3, then byte 3 overwritten with 255 (opaque). */
  function DecodeRgbmToRgba8(xs: seq<F32>): (bs: seq<Byte>)
    requires |xs| >= 4
    ensures |bs| == |xs|
    ensures bs[3] == 255
    ensures forall i :: 0 <= i < |xs| && i != 3 ==> bs[i] == ReconstructOne(xs[i], xs[3])
  {
    var rgbma := seq(|xs|, i requires 0 <= i < |xs| => ReconstructOne(xs[i], xs[3]));
    rgbma[3 := 255]
  }

  /** Reconstructing an encoded pixel whose multiplier is not 0 gives each colour
      channel `c` back as `c * 255` cast to `u8`: for
      `c >= 0` that is `floor(c * 255)`, saturated at 255. */
  lemma DecodeOfEncode(rgbe: seq<real>, i: nat)
    requires |rgbe| == 3
    requires PixelMultiplier(rgbe) != 0.0
    requires i < |rgbe|
    ensures DecodeRgbmToRgba8(EncodeRgbm(rgbe))[i] == ToU8(Finite(rgbe[i] * 255.0))
    ensures rgbe[i] >= 0.0 ==>
      DecodeRgbmToRgba8(EncodeRgbm(rgbe))[i] == if rgbe[i] >= 1.0 then 255 else (rgbe[i] * 255.0).Floor
  {
    var r := EncodeRgbm(rgbe);
    var m := PixelMultiplier(rgbe);
    assert r[i] == Div(rgbe[i] / RANGE, m);
    assert r[3] == Finite(m);
    RescaleQuotient(rgbe[i] / RANGE, m);
  }

  /** Scaling `n / m` back by RANGE, `m` and 255 gives `n * RANGE * 255`. */
  lemma RescaleQuotient(n: real, m: real)
    requires m != 0.0
    ensures Mul(Mul(Mul(Div(n, m), Finite(RANGE)), Finite(m)), Finite(255.0)) == Finite(n * RANGE * 255.0)
  {
    var q := n / m;
    assert q * m == n;
    assert q * RANGE * m == n * RANGE;
  }

  /** A black pixel of three channels: its NaN colour values cast to 0, so the
      RGBM bytes are all 0 and the RGBA bytes are opaque black. */
  lemma BlackPixelBytes()
    ensures ConvertRgbmTo8Bit(EncodeRgbm([0.0, 0.0, 0.0])) == [0, 0, 0, 0]
    ensures DecodeRgbmToRgba8(EncodeRgbm([0.0, 0.0, 0.0])) == [0, 0, 0, 255]
  {
    EncodeBlackPixel([0.0, 0.0, 0.0]);
    assert Ceil(0.0) == 0;
  }

  /** A pixel at full calibrated radiance encodes to all ones and packs to 255s. */
  lemma FullScalePixelBytes()
    ensures EncodeRgbm([RANGE, RANGE, RANGE]) == [Finite(1.0), Finite(1.0), Finite(1.0), Finite(1.0)]
    ensures ConvertRgbmTo8Bit(EncodeRgbm([RANGE, RANGE, RANGE])) == [255, 255, 255, 255]
    ensures DecodeRgbmToRgba8(EncodeRgbm([RANGE, RANGE, RANGE])) == [255, 255, 255, 255]
  {
    var rgbe := [RANGE, RANGE, RANGE];
    MultiplierBoundsPeak(rgbe);
    assert Normalise(rgbe) == [1.0, 1.0, 1.0];
    assert Peak(Normalise(rgbe)) == 1.0;
    assert Ceil(255.0) == 255;
    assert PixelMultiplier(rgbe) == 1.0;
    QuantiseOneBounds(Finite(1.0));
  }

  // ---------------------------------------------------------------------------
  // Raster packer

  /** The chosen byte path for one encoded pixel. */
  function PixelBytes(xs: seq<F32>, format: Format): (bs: seq<Byte>)
    requires |xs| >= 4
    ensures |bs| == |xs|
    ensures format == Rgba ==> bs[3] == 255
    ensures format == Rgba ==> forall i :: 0 <= i < |xs| && i != 3 ==> bs[i] == ReconstructOne(xs[i], xs[3])
    ensures format == Rgbm ==> forall i :: 0 <= i < |xs| ==> bs[i] == QuantiseOne(xs[i])
  {
    match format
    case Rgba => DecodeRgbmToRgba8(xs)
    case Rgbm => ConvertRgbmTo8Bit(xs)
  }

  /** Every pixel through the reconstructor, in order. */
  function DecodeAll(pixels: seq<seq<F32>>): (out: seq<seq<Byte>>)
    requires forall i :: 0 <= i < |pixels| ==> |pixels[i]| >= 4
    ensures |out| == |pixels|
    ensures forall i :: 0 <= i < |pixels| ==> out[i] == DecodeRgbmToRgba8(pixels[i])
  {
    seq(|pixels|, i requires 0 <= i < |pixels| && |pixels[i]| >= 4 => DecodeRgbmToRgba8(pixels[i]))
  }

  /** Every pixel through the quantiser, in order. */
  function ConvertAll(pixels: seq<seq<F32>>): (out: seq<seq<Byte>>)
    ensures |out| == |pixels|
    ensures forall i :: 0 <= i < |pixels| ==> out[i] == ConvertRgbmTo8Bit(pixels[i])
  {
    seq(|pixels|, i requires 0 <= i < |pixels| => ConvertRgbmTo8Bit(pixels[i]))
  }

  /** The byte vectors of all pixels on the chosen path. */
  function Chosen(pixels: seq<seq<F32>>, format: Format): (out: seq<seq<Byte>>)
    requires forall i :: 0 <= i < |pixels| ==> |pixels[i]| >= 4
    ensures |out| == |pixels|
    ensures forall i :: 0 <= i < |pixels| ==> out[i] == PixelBytes(pixels[i], format)
  {
    match format
    case Rgba => DecodeAll(pixels)
    case Rgbm => ConvertAll(pixels)
  }

  /** The buffer the packer builds: both paths flattened, one chosen for the
      whole image by the format. */
  function Packed(pixels: seq<seq<F32>>, format: Format): (buf: seq<Byte>)
    requires forall i :: 0 <= i < |pixels| ==> |pixels[i]| >= 4
    ensures |buf| == ValueCount(pixels)
  {
    match format
    case Rgba =>
      ValueCountSameShape(DecodeAll(pixels), pixels);
      Flatten(DecodeAll(pixels))
    case Rgbm =>
      ValueCountSameShape(ConvertAll(pixels), pixels);
      Flatten(ConvertAll(pixels))
  }

  /** The vectors laid end to end, in order; nothing is lost, so its length is
      the element count. */
  function Flatten<T>(chunks: seq<seq<T>>): (flat: seq<T>)
    ensures |flat| == ValueCount(chunks)
  {
    if chunks == [] then [] else Flatten(chunks[..|chunks| - 1]) + chunks[|chunks| - 1]
  }

  /** The number of elements over all vectors. */
  function ValueCount<T>(chunks: seq<seq<T>>): nat
  {
    if chunks == [] then 0 else ValueCount(chunks[..|chunks| - 1]) + |chunks[|chunks| - 1]|
  }


  /** Vectors of equal lengths, pairwise, have equal element counts. */
  lemma {:induction false} ValueCountSameShape<T, U>(a: seq<seq<T>>, b: seq<seq<U>>)
    requires |a| == |b|
    requires forall i :: 0 <= i < |a| ==> |a[i]| == |b[i]|
    ensures ValueCount(a) == ValueCount(b)
    decreases |a|
  {
    if a != [] {
      ValueCountSameShape(a[..|a| - 1], b[..|b| - 1]);
    }
  }

  /** `ValueCount` only grows along prefixes. */
  lemma {:induction false} ValueCountPrefix<T>(chunks: seq<seq<T>>, i: nat)
    requires i <= |chunks|
    ensures ValueCount(chunks[..i]) <= ValueCount(chunks)
    decreases |chunks|
  {
    if i < |chunks| {
      var n := |chunks| - 1;
      assert chunks[..n][..i] == chunks[..i];
      ValueCountPrefix(chunks[..n], i);
    } else {
      assert chunks[..i] == chunks;
    }
  }

  /** One more vector appends its elements to the flattened prefix. */
  lemma FlattenStep<T>(chunks: seq<seq<T>>, i: nat)
    requires i < |chunks|
    ensures Flatten(chunks[..i + 1]) == Flatten(chunks[..i]) + chunks[i]
    ensures ValueCount(chunks[..i + 1]) == ValueCount(chunks[..i]) + |chunks[i]|
  {
    assert chunks[..i + 1][..i] == chunks[..i];
  }

  /** Flattening vectors of four elements each puts element `k` of vector `i`
      at position `4*i + k`. */
  lemma {:induction false} FlattenAt<T>(chunks: seq<seq<T>>, i: nat, k: nat)
    requires forall j :: 0 <= j < |chunks| ==> |chunks[j]| == 4
    requires i < |chunks| && k < 4
    ensures |Flatten(chunks)| == 4 * |chunks|
    ensures Flatten(chunks)[4 * i + k] == chunks[i][k]
    decreases |chunks|
  {
    var n := |chunks| - 1;
    if i < n {
      FlattenAt(chunks[..n], i, k);
    } else if n > 0 {
      FlattenAt(chunks[..n], 0, 0);
    }
  }

  /** The packed buffer is the chosen path's vectors flattened. */
  lemma PackedIsChosen(pixels: seq<seq<F32>>, format: Format)
    requires forall i :: 0 <= i < |pixels| ==> |pixels[i]| >= 4
    ensures Packed(pixels, format) == Flatten(Chosen(pixels, format))
  {
  }

  /** The buffer holds one byte per value of every pixel, whichever the format;
      so switching the format changes the bytes, never the buffer length. */
  lemma PackedLength(pixels: seq<seq<F32>>, format: Format)
    requires forall i :: 0 <= i < |pixels| ==> |pixels[i]| >= 4
    ensures |Packed(pixels, format)| == ValueCount(pixels)
    ensures |Packed(pixels, Rgba)| == |Packed(pixels, Rgbm)|
  {
  }

  /** With four values per pixel, the buffer holds four bytes per pixel in pixel
      order: byte `4*i + k` is byte `k` of pixel `i`'s vector on the path the
      format chooses, for every pixel alike. */
  lemma PackedAt(pixels: seq<seq<F32>>, format: Format, i: nat, k: nat)
    requires forall j :: 0 <= j < |pixels| ==> |pixels[j]| == 4
    requires i < |pixels| && k < 4
    ensures |Packed(pixels, format)| == 4 * |pixels|
    ensures Packed(pixels, format)[4 * i + k] == PixelBytes(pixels[i], format)[k]
  {
    PackedIsChosen(pixels, format);
    FlattenAt(Chosen(pixels, format), i, k);
  }

  /** The map/flatten/format-select part of `encode_rgbm_to_png`: fills a buffer
      with every pixel's bytes on the chosen path, in pixel order. Both paths are
      computed for every pixel in the source, so every pixel must carry the index
      3 the reconstructor reads, whichever format is chosen. */
  method Pack(pixels: seq<seq<F32>>, format: Format) returns (buf: array<Byte>)
    requires forall i :: 0 <= i < |pixels| ==> |pixels[i]| >= 4
    ensures fresh(buf)
    ensures buf[..] == Packed(pixels, format)
  {
    ghost var chunks := Chosen(pixels, format);
    ValueCountSameShape(chunks, pixels);
    buf := new Byte[ValueCount(pixels)];
    var off := 0;
    for i := 0 to |pixels|
      invariant off == ValueCount(chunks[..i]) <= buf.Length == ValueCount(chunks)
      invariant buf[..off] == Flatten(chunks[..i])
    {
      var bytes := PixelBytes(pixels[i], format);
      FlattenStep(chunks, i);
      ValueCountPrefix(chunks, i + 1);
      ghost var prefix := buf[..off];
      Extend(buf, off, bytes);
      assert buf[..off + |bytes|] == prefix + chunks[i];
      off := off + |bytes|;
    }
    assert chunks[..|pixels|] == chunks;
    assert buf[..] == buf[..off];
    PackedIsChosen(pixels, format);
  }

  /** `extend`: writes `bytes` into `buf` just after its first `off` bytes. */
  method Extend(buf: array<Byte>, off: nat, bytes: seq<Byte>)
    requires off + |bytes| <= buf.Length
    modifies buf
    ensures buf[..off + |bytes|] == old(buf[..off]) + bytes
    ensures buf[off + |bytes|..] == old(buf[off + |bytes|..])
  {
    for k := 0 to |bytes|
      invariant buf[..off] == old(buf[..off])
      invariant buf[off..off + k] == bytes[..k]
      invariant buf[off + |bytes|..] == old(buf[off + |bytes|..])
    {
      buf[off + k] := bytes[k];
    }
    assert buf[..off + |bytes|] == buf[..off] + buf[off..off + |bytes|];
  }

  /** A 2x1 image of a black pixel and a full-scale pixel, in RGBM format. */
  lemma TwoPixelImageRgbm()
    ensures Packed([EncodeRgbm([0.0, 0.0, 0.0]), EncodeRgbm([RANGE, RANGE, RANGE])], Rgbm)
         == [0, 0, 0, 0] + [255, 255, 255, 255]
  {
    var black, full := EncodeRgbm([0.0, 0.0, 0.0]), EncodeRgbm([RANGE, RANGE, RANGE]);
    BlackPixelBytes();
    FullScalePixelBytes();
    PackedTwo(black, full, Rgbm);
    assert PixelBytes(black, Rgbm) + PixelBytes(full, Rgbm) == [0, 0, 0, 0] + [255, 255, 255, 255];
  }

  /** The same image in RGBA format. */
  lemma TwoPixelImageRgba()
    ensures Packed([EncodeRgbm([0.0, 0.0, 0.0]), EncodeRgbm([RANGE, RANGE, RANGE])], Rgba)
         == [0, 0, 0, 255] + [255, 255, 255, 255]
  {
    var black, full := EncodeRgbm([0.0, 0.0, 0.0]), EncodeRgbm([RANGE, RANGE, RANGE]);
    BlackPixelBytes();
    FullScalePixelBytes();
    PackedTwo(black, full, Rgba);
    assert PixelBytes(black, Rgba) + PixelBytes(full, Rgba) == [0, 0, 0, 255] + [255, 255, 255, 255];
  }

  /** Two pixels pack to the first one's bytes followed by the second one's. */
  lemma PackedTwo(p: seq<F32>, q: seq<F32>, format: Format)
    requires |p| >= 4 && |q| >= 4
    ensures Packed([p, q], format) == PixelBytes(p, format) + PixelBytes(q, format)
  {
    var chunks := Chosen([p, q], format);
    PackedIsChosen([p, q], format);
    assert chunks == [chunks[0], chunks[1]];
    FlattenTwo(chunks[0], chunks[1]);
  }

  /** Two vectors flatten to their concatenation. */
  lemma FlattenTwo<T>(a: seq<T>, b: seq<T>)
    ensures Flatten([a, b]) == a + b
  {
    assert [a, b][..1] == [a];
    assert [a][..0] == [];
    assert Flatten([a]) == a;
  }
}
