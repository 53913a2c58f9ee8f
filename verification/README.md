# hdr2png RGBM core, modelled in Dafny

hdr2png converts a Radiance HDR image into an 8-bit PNG. Each pixel's three
radiance channels are encoded as RGBM: the channels are divided by the
calibration constant `RANGE` (6.0), a per-pixel multiplier `m` is chosen as the
brightest normalised channel rounded up to the 1/255 grid, the channels are
divided by `m`, and `m` goes into the alpha slot. The PNG then holds either
these four values quantised to bytes with round-up (`Rgbm` format), or a
reconstructed opaque colour (`Rgba` format). The packer lays the chosen byte
vectors of all pixels end to end in pixel order. The driver picks the output
path (the given `--output`, or the input with every trailing `.hdr` removed and
`.png` appended).

Modules:

- `Float32` (`float32.dfy`): the `f32` values the codec computes with, as
  `Finite(real) | NaN | Inf(sign)`, and Rust's float-to-`u8` cast. The cast
  truncates toward zero, saturates to [0, 255] and sends NaN to 0, as the Rust
  Reference describes in "Type cast expressions".
- `Encode` (`encode.dfy`): `src/encode.rs`. It holds the encoder, the quantiser,
  the reconstructor and the packer. The packer is a method that fills an array,
  proved against the function `Packed`.
- `App` (`app.dfy`): `src/main.rs`. It holds the output path, the per-pixel
  encode, and the run after loading (`Convert`). `Convert` ends in a panic or
  in the buffer handed to the PNG encoder.

Arithmetic is over exact reals. `ceil` is `-((-x).Floor)`. A division by a zero
multiplier is modelled as IEEE does it: 0/0 is NaN, and any other value over 0
is an infinity. The model proves the structure: lengths, the alpha slot, the
bounds of the multiplier, the exact round trip, quantisation on the grid, and
packing order.

Behaviour of the code at its edges:

- A black pixel gets multiplier 0, and its colour values are 0/0 = NaN. The
  saturating cast turns NaN into 0, so the pixel packs to `[0, 0, 0, 0]` in
  `Rgbm` format and to `[0, 0, 0, 255]` in `Rgba` format. Clamping the
  multiplier to 1/255 would instead give `[0, 0, 0, 1]` (`BlackPixelBytes`,
  `TwoPixelImageRgbm`).
- The float-to-`u8` cast saturates. It does not wrap around.
- A load error is not propagated. `load_hdr` prints it and returns empty
  vectors, and `main` then panics when it indexes the dimension vector
  (`LoadFailurePanics`).
- Nothing checks that the buffer length is `4 * width * height`.
- The `Rgba` reconstruction of a channel `c` is `floor(c * 255)` saturated at
  255. It does not rescale `c` from [0, RANGE]. So every radiance of 1.0 or more
  becomes 255 (`DecodeOfEncode`).

## Model

| member | source | states |
|---|---|---|
| `Float32.ToU8` | src/encode.rs:61 | `as u8`: NaN gives 0, +inf gives 255, -inf gives 0; a finite value in [0, 256) gives its floor; 255 or more saturates to 255; below 1 gives 0 |
| `Float32.Div` | src/encode.rs:42 | the quotient is finite exactly when the divisor is not 0, and then quotient times divisor is the dividend; it is NaN exactly for 0/0 |
| `Float32.Ceil` | src/encode.rs:40 | `ceil`: the least integer not below `x` |
| `Float32.CeilF` | src/encode.rs:40 | `.ceil()` on an `f32`: a finite value goes to the least integer not below it; NaN and the infinities pass through unchanged |
| `Float32.Max` | src/encode.rs:39 | `f32::max` on finite values: at least both arguments, and equal to one of them |
| `Float32.Mul` | src/encode.rs:61 | the `f32` product: exact on finite values; NaN whenever either factor is NaN |
| `Encode.Normalise` | src/encode.rs:38 | keeps the length; each normalised value times RANGE is the channel |
| `Encode.PeakFrom` | src/encode.rs:39 | the fold of `f32::max` is at least its start and every element, and is the start or one of the elements |
| `Encode.Peak` | src/encode.rs:39 | the fold from `f32::MIN` is at least `f32::MIN` and every normalised channel, and is `f32::MIN` or one of them |
| `Encode.Multiplier` | src/encode.rs:40 | `peak <= m < peak + 1/255`, and `255*m` is an integer |
| `Encode.PixelMultiplier` | src/encode.rs:38-40 | the pixel's multiplier is at or above every normalised channel, less than one grid step above the peak, and on the 1/255 grid |
| `Encode.EncodeRgbm` | src/encode.rs:37-45 | one more value than the input; the last is the pixel's multiplier; value `i` is channel `i` over RANGE divided by the multiplier, in input order |
| `Encode.MultiplierBoundsPeak` | src/encode.rs:38-40 | on a non-empty, non-negative pixel the fold from `f32::MIN` is the largest normalised channel; the multiplier lies in [peak, peak + 1/255) and is on the 1/255 grid |
| `Encode.EncodeInUnitRange` | src/encode.rs:38-43 | channels in [0, RANGE] with one positive give a multiplier in (0, 1] and colour values in [0, 1] |
| `Encode.EncodeRoundTrip` | src/encode.rs:38-43 | when the multiplier is not 0, colour value times RANGE times the alpha-slot multiplier is exactly the original channel |
| `Encode.EncodeBlackPixel` | src/encode.rs:39-42 | an all-zero pixel has multiplier 0 and every colour value is NaN |
| `Encode.QuantiseOne` | src/encode.rs:51 | NaN gives 0; +inf gives 255 and -inf gives 0, as the product and `ceil` keep them and the cast saturates |
| `Encode.ConvertRgbmTo8Bit` | src/encode.rs:48-54 | keeps the length and the order; byte `i` quantises value `i` |
| `Encode.QuantiseOneBounds` | src/encode.rs:51 | a value `x` in [0, 1] gives the least byte `b` with `255*x <= b`, so 0 gives 0 and 1 gives 255; above 1 gives 255; at or below 0, and NaN, give 0 |
| `Encode.QuantiseOnGrid` | src/encode.rs:51 | every byte `b` quantises `b/255` back to `b`, so re-quantising does not drift |
| `Encode.MultiplierQuantisesExactly` | src/encode.rs:40-51 | for a peak in [0, 1] the multiplier's byte is exactly `255*m` |
| `Encode.ReconstructOne` | src/encode.rs:61 | a NaN value or a NaN multiplier gives 0; a finite value with a zero multiplier gives 0 |
| `Encode.DecodeRgbmToRgba8` | src/encode.rs:57-65 | needs index 3; keeps the length; byte 3 is 255; every other byte reconstructs its value with the multiplier at index 3 |
| `Encode.DecodeOfEncode` | src/encode.rs:37-65 | for a three-channel pixel with a non-zero multiplier, the reconstructed byte of channel `c` is `c*255` cast to `u8`, which is `floor(c*255)` saturated at 255 when `c >= 0` |
| `Encode.BlackPixelBytes` | src/encode.rs:37-65 | the black pixel quantises to `[0,0,0,0]` and reconstructs to `[0,0,0,255]` |
| `Encode.FullScalePixelBytes` | src/encode.rs:37-65 | `(RANGE,RANGE,RANGE)` encodes to all ones, and both paths give `[255,255,255,255]` |
| `Encode.PixelBytes` | src/encode.rs:99-102 | one byte per value; on the `Rgba` path byte 3 is 255 and every other byte `i` reconstructs value `i` with the multiplier at index 3; on the `Rgbm` path byte `i` quantises value `i` |
| `Encode.DecodeAll` | src/encode.rs:80-84 | one reconstructed vector per pixel, vector `i` being pixel `i`'s |
| `Encode.ConvertAll` | src/encode.rs:86-90 | one quantised vector per pixel, vector `i` being pixel `i`'s |
| `Encode.Chosen` | src/encode.rs:80-102 | one byte vector per pixel, in order, all from the path the format selects |
| `Encode.Flatten` | src/encode.rs:94-95 | `flatten().collect()`: the vectors end to end; nothing is lost, so the length is the element count |
| `Encode.Packed` | src/encode.rs:93-102 | the buffer holds one byte per value of every pixel |
| `Encode.FlattenAt` | src/encode.rs:94-95 | flattening vectors of four elements puts element `k` of vector `i` at `4*i + k` |
| `Encode.PackedIsChosen` | src/encode.rs:80-102 | the buffer is the selected path's vectors flattened; the two paths are never mixed |
| `Encode.PackedLength` | src/encode.rs:80-102 | the buffer has one byte per value of every pixel, and both formats give the same length |
| `Encode.PackedAt` | src/encode.rs:80-102 | with four values per pixel the buffer has `4 * pixels` bytes, and byte `4*i + k` is byte `k` of pixel `i` on the selected path |
| `Encode.Pack` | src/encode.rs:80-102 | the filled array is newly allocated and is exactly `Packed(pixels, format)`; every pixel must have index 3, in both formats |
| `Encode.Extend` | src/encode.rs:93-101 | the first `off` bytes are kept, `bytes` follows them, and every byte after them is unchanged |
| `Encode.PackedTwo` | src/encode.rs:80-102 | two pixels pack to the first one's bytes and then the second one's |
| `Encode.TwoPixelImageRgbm` | src/encode.rs:80-102 | the 2x1 image (black, full-scale) packs to `[0,0,0,0,255,255,255,255]` in `Rgbm` |
| `Encode.TwoPixelImageRgba` | src/encode.rs:80-102 | the same image packs to `[0,0,0,255,255,255,255,255]` in `Rgba` |
| `App.TrimHdr` | src/main.rs:12 | `trim_end_matches(".hdr")`: the stem is a prefix of the input and does not end in ".hdr" |
| `App.TrimHdrRemovesCopies` | src/main.rs:12 | the input is the stem followed by some number of ".hdr" copies |
| `App.TrimHdrUnique` | src/main.rs:12 | a string that does not end in ".hdr", followed by `k` copies of it, trims back to that string |
| `App.TrimHdrIdempotent` | src/main.rs:12 | trimming twice is trimming once |
| `App.OutputPath` | src/main.rs:10-12 | a given `--output` is used verbatim; otherwise the path ends in ".png" |
| `App.DefaultOutputPath` | src/main.rs:12 | without `--output`, the path minus ".png" is the stem; the stem does not end in ".hdr"; the input is the stem followed by ".hdr" copies |
| `App.OutputPathWithoutSuffix` | src/main.rs:12 | an input that does not end in ".hdr" gives `input + ".png"` |
| `App.OutputPathExample` | src/main.rs:12 | "a.hdr.hdr" gives "a.png" |
| `App.EncodeAll` | src/main.rs:19-23 | the same number of RGBM vectors as pixels; vector `i` is the encoding of pixel `i` |
| `App.Convert` | src/main.rs:15-25 | panics exactly when the dimension vector has fewer than two entries or some pixel has fewer than three channels; otherwise saves to the output path with width `dims[0]` and height `dims[1]` |
| `App.LoadFailurePanics` | src/main.rs:15-18 | after a failed load both vectors are empty, and the run panics |
| `App.ConvertPacksPixels` | src/main.rs:17-25 | with two dimensions and three-channel pixels, the saved buffer has four bytes per pixel in pixel order, each pixel's bytes on the selected path |
| `App.FormatChangesOnlyBytes` | src/encode.rs:80-102 | switching the format changes neither whether the run panics nor the path, the dimensions or the buffer length |

## Left out

- Exact IEEE-754 `f32` arithmetic. Values are exact reals, so rounding,
  overflow to an infinity and signed zero are not modelled. The bound "every
  colour value is at most 1" holds over reals but not bit for bit in `f32`.
- Overflow from an empty input to the encoder: the `f32::MIN` fold times 255
  overflows to -inf in `f32`. Over reals the multiplier is `f32::MIN` itself.
  The loader always yields three channels, so this input does not occur.
- The sign of an infinity from a multiplier of -0: when all channels are small
  negatives, `ceil` gives -0. Loaded radiance is never negative.
- `load_hdr` (src/encode.rs:14-34). It does file I/O through the external
  radiance loader. Its result, the pixel vectors and the dimension vector, is a
  parameter of `App.Convert`. On failure it returns two empty vectors.
- PNG encoder construction, `write_image` and `File::create`
  (src/encode.rs:76-77, 107, 112-120). These are the external container writer
  and the file system, so I/O errors from them are not modelled.
- Command-line parsing (src/cli.rs, and the `Cli::parse()` call at
  src/encode.rs:98). The output format is the `Format` parameter of the packer,
  and `--input`/`--output` are parameters of `App.OutputPath` and `App.Convert`.
- `u32` width and height are `nat`. Nothing checks that the pixel count equals
  `width * height`; the code leaves that to the external PNG encoder.
- `Encode.DecodeRgbmToRgba8`: an input shorter than four values panics in the
  source at index 3. The model states this as a precondition. The packer
  decodes every pixel in both formats, so `Encode.Pack` requires index 3 for
  every pixel. At the level of a whole run, `App.Convert` models the same
  panic as an outcome.
