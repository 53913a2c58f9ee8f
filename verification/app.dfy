/** The conversion driver: where the PNG goes, and what is written there.

    The radiance loader is outside the model; what it returns (the per-pixel
    channel vectors and the dimension vector) is a parameter. When loading
    fails it reports the error and returns two empty vectors. */
module App {
  import opened Float32
  import opened Encode

  datatype Option<T> = None | Some(value: T)

  const HDR: string := ".hdr"
  const PNG: string := ".png"

  predicate EndsWith(s: string, suffix: string)
  {
    |suffix| <= |s| && s[|s| - |suffix|..] == suffix
  }

  // ---------------------------------------------------------------------------
  // Output path

  /** `trim_end_matches(".hdr")`: removes trailing ".hdr" for as long as one is
      there. The stem is a prefix of the input that does not end in ".hdr". */
  function TrimHdr(s: string): (stem: string)
    ensures stem <= s
    ensures !EndsWith(stem, HDR)
    decreases |s|
  {
    if EndsWith(s, HDR) then TrimHdr(s[..|s| - |HDR|]) else s
  }

  /** `k` copies of ".hdr". */
  function Copies(k: nat): string
  {
    if k == 0 then "" else Copies(k - 1) + HDR
  }

  /** What `TrimHdr` removes is a run of whole ".hdr" copies. */
  lemma {:induction false} TrimHdrRemovesCopies(s: string)
    ensures exists k: nat :: s == TrimHdr(s) + Copies(k)
    decreases |s|
  {
    if EndsWith(s, HDR) {
      var t := s[..|s| - |HDR|];
      TrimHdrRemovesCopies(t);
      var k: nat :| t == TrimHdr(t) + Copies(k);
      assert s == t + HDR;
      assert s == TrimHdr(s) + Copies(k + 1);
    } else {
      assert s == TrimHdr(s) + Copies(0);
    }
  }

  /** The stem is determined: a string that does not end in ".hdr", followed by
      any number of ".hdr" copies, trims back to exactly that string. */
  lemma {:induction false} TrimHdrUnique(t: string, k: nat)
    requires !EndsWith(t, HDR)
    ensures TrimHdr(t + Copies(k)) == t
  {
    if k == 0 {
      assert t + Copies(0) == t;
    } else {
      var u := t + Copies(k - 1);
      assert t + Copies(k) == u + HDR;
      assert (u + HDR)[..|u|] == u && (u + HDR)[|u|..] == HDR;
      TrimHdrUnique(t, k - 1);
    }
  }

  /** Trimming twice is trimming once. */
  lemma TrimHdrIdempotent(s: string)
    ensures TrimHdr(TrimHdr(s)) == TrimHdr(s)
  {
  }

  /** The PNG path: the one given with `--output`, or else the input with its
      trailing ".hdr" copies removed and ".png" appended. */
  function OutputPath(input: string, output: Option<string>): (path: string)
    ensures output.Some? ==> path == output.value
    ensures output.None? ==> EndsWith(path, PNG)
  {
    match output
    case Some(p) => p
    case None => TrimHdr(input) + PNG
  }

  /** Without `--output`, the path is the input's stem, which never ends in
      ".hdr", followed by ".png", and the input is that stem followed by some
      number of ".hdr" copies. */
  lemma DefaultOutputPath(input: string)
    ensures var path := OutputPath(input, None);
      path[..|path| - |PNG|] == TrimHdr(input) && !EndsWith(TrimHdr(input), HDR)
    ensures exists k: nat :: input == OutputPath(input, None)[..|OutputPath(input, None)| - |PNG|] + Copies(k)
  {
    var path := OutputPath(input, None);
    assert path[..|path| - |PNG|] == TrimHdr(input);
    TrimHdrRemovesCopies(input);
  }

  /** An input that does not end in ".hdr" keeps its whole name. */
  lemma OutputPathWithoutSuffix(input: string)
    requires !EndsWith(input, HDR)
    ensures OutputPath(input, None) == input + PNG
  {
  }

  /** Every trailing ".hdr" goes: "a.hdr.hdr" becomes "a.png". */
  lemma OutputPathExample()
    ensures OutputPath("a.hdr.hdr", None) == "a.png"
  {
    assert "a.hdr.hdr"[..5] == "a.hdr" && "a.hdr.hdr"[5..] == HDR;
    assert TrimHdr("a.hdr.hdr") == TrimHdr("a.hdr");
    assert "a.hdr"[..1] == "a" && "a.hdr"[1..] == HDR;
    assert TrimHdr("a.hdr") == TrimHdr("a") == "a";
  }

  // ---------------------------------------------------------------------------
  // Conversion

  /** The per-pixel encode of `main`: one RGBM vector per loaded pixel, in order. */
  function EncodeAll(pixels: seq<seq<real>>): (rgbm: seq<seq<F32>>)
    ensures |rgbm| == |pixels|
    ensures forall i :: 0 <= i < |pixels| ==> rgbm[i] == EncodeRgbm(pixels[i])
  {
    seq(|pixels|, i requires 0 <= i < |pixels| => EncodeRgbm(pixels[i]))
  }

  /** What a run ends in: a panic (an index out of bounds), or a PNG of the
      given dimensions and bytes written to the given path. */
  datatype Outcome = Panic | Save(path: string, width: nat, height: nat, data: seq<Byte>)

  /** `main` after argument parsing and loading: reads the width and height
      from the dimension vector, encodes every pixel and packs the buffer the
      PNG encoder receives. It panics when the dimension vector is shorter than
      two (as after a failed load) or when a pixel has fewer than three
      channels, so that its RGBM vector has no index 3 for the reconstructor. */
  function Convert(input: string, output: Option<string>, format: Format,
                   pixels: seq<seq<real>>, dims: seq<nat>): (r: Outcome)
    ensures r.Panic? <==> |dims| < 2 || exists i :: 0 <= i < |pixels| && |pixels[i]| < 3
    ensures r.Save? ==> r.path == OutputPath(input, output)
    ensures r.Save? ==> r.width == dims[0] && r.height == dims[1]
  {
    if |dims| < 2 then Panic
    else
      var rgbm := EncodeAll(pixels);
      if exists i :: 0 <= i < |rgbm| && |rgbm[i]| < 4 then Panic
      else Save(OutputPath(input, output), dims[0], dims[1], Packed(rgbm, format))
  }

  /** A failed load leaves both vectors empty, and the run then panics. */
  lemma LoadFailurePanics(input: string, output: Option<string>, format: Format)
    ensures Convert(input, output, format, [], []) == Panic
  {
  }

  /** With two dimensions and three channels per pixel the run saves a buffer of
      four bytes per pixel, in pixel order: bytes `4*i` to `4*i + 3` are pixel
      `i`'s RGBM vector on the path the format chooses. */
  lemma ConvertPacksPixels(input: string, output: Option<string>, format: Format,
                           pixels: seq<seq<real>>, dims: seq<nat>, i: nat, k: nat)
    requires |dims| >= 2
    requires forall j :: 0 <= j < |pixels| ==> |pixels[j]| == 3
    requires i < |pixels| && k < 4
    ensures Convert(input, output, format, pixels, dims).Save?
    ensures |Convert(input, output, format, pixels, dims).data| == 4 * |pixels|
    ensures Convert(input, output, format, pixels, dims).data[4 * i + k]
         == PixelBytes(EncodeRgbm(pixels[i]), format)[k]
  {
    var rgbm := EncodeAll(pixels);
    assert forall j :: 0 <= j < |rgbm| ==> |rgbm[j]| == 4;
    assert Convert(input, output, format, pixels, dims)
        == Save(OutputPath(input, output), dims[0], dims[1], Packed(rgbm, format));
    PackedAt(rgbm, format, i, k);
  }

  /** Switching the format changes neither whether the run panics nor the path,
      the dimensions or the buffer length; only the bytes. */
  lemma FormatChangesOnlyBytes(input: string, output: Option<string>,
                               pixels: seq<seq<real>>, dims: seq<nat>)
    ensures Convert(input, output, Rgba, pixels, dims).Panic?
        == Convert(input, output, Rgbm, pixels, dims).Panic?
    ensures Convert(input, output, Rgba, pixels, dims).Save? ==>
      var a, b := Convert(input, output, Rgba, pixels, dims), Convert(input, output, Rgbm, pixels, dims);
      a.path == b.path && a.width == b.width && a.height == b.height && |a.data| == |b.data|
  {
    if Convert(input, output, Rgba, pixels, dims).Save? {
      PackedLength(EncodeAll(pixels), Rgba);
    }
  }
}
