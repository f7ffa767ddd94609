# LSB and gradient-adaptive steganography, modelled in Dafny

This project models the algorithmic core of an image steganography tool. It
hides a zero-terminated byte string in the least significant bits (LSBs) of an
8-bit image. The model covers:

- **Plain LSB** (`LsbSteganography`): the samples are visited in raster and
  channel-minor order, and the first `8 * (n + 1)` of them each carry one bit
  of an `n`-byte payload and its terminator. The other samples are unchanged.
- **Gradient-adaptive LSB** (`SobelMasks`, `SobelAdaptive`): only pixels whose
  gradient is above a threshold carry bits, all channels of such a pixel in
  turn. When the capacity is short, the threshold is lowered in steps of 5.
- **The shared bit codec** (`BitCodec`): 8 bits per character, most
  significant first, then an all-zero terminator byte. The extraction scan
  stops at a terminator and otherwise decodes every complete byte.
- **Bit-error rates** (`Metrics`): `calculate_ber` and `calculate_ber_text`.
- **Image helpers** (`ImageUtils`, on the image layout of `Images`): bit-plane
  split and merge, crop clamping, blur kernel rounding and the grayscale
  short-circuit.
- **The attack simulator** (`AttackSimulator`): parameter checks, the centred
  crop window and `apply_attack`'s dispatch with its defaults.

## Representation

- An image is a shape and a flat sequence of `bv8` samples in numpy's
  row-major (channel-minor) order.
- The embedders accept the shapes they handle: `(H, W)` grayscale and
  `(H, W, 3)` colour.
- A payload is a sequence of bytes, and a bit is a `bool` (the source's
  `'0'`/`'1'` characters).
- The gradient map is an input with one integer per pixel.
- The pixel effects of the attacks (JPEG round trip, OpenCV blur and resize,
  random noise) are passed in as functions in a `Transforms` value.

## Behaviour of the code the model keeps

- **Terminator checks.** Extraction tests for the terminator only after a
  whole pixel is read, and only when the bit count is a multiple of 8. For
  colour images that happens every 24 bits, so only bytes 2, 5, 8, … are
  checked. The model keeps this. A colour payload without zero bytes comes
  back exactly if and only if its length is 2 modulo 3; otherwise the result
  starts with the payload and a zero byte and runs on
  (`LsbSteganography.ColourRoundTrip`, `SobelAdaptive.ColourRoundTrip`).
- **Relaxation below zero.** The relaxation loop stops at the first threshold
  that is not positive. The final threshold can be negative (3 becomes -2,
  `SobelMasks.RelaxBelowZero`). The capacity error depends on the capacity at
  the lowest threshold the loop can reach, `LowestThreshold(t)`, which lies
  in (-5, 0] for a positive `t`.
- **No early check without a full pixel.** Plain LSB's check has no `>= 8`
  guard. This makes no difference, because the bit count is positive whenever
  it is tested.

## Model

| member | source | states |
|---|---|---|
| `BitCodec.SetLsb` | core/lsb.py:48 | clearing the LSB and OR-ing in `bit` keeps the upper seven bits of `p` and has `bit` as its LSB |
| `BitCodec.SetLsbWithinOne` | core/lsb.py:55 | a written sample differs from the cover sample by at most 1 |
| `BitCodec.Lsbs` | core/lsb.py:82-88 | the extracted bit string has one bit per sample read |
| `BitCodec.LsbsPrefixStep` | core/lsb.py:84 | appending the next sample's `& 1` extends the collected bits by one more bit of the LSB stream |
| `BitCodec.ByteBits` | core/lsb.py:23 | `format(ord(c), '08b')` yields exactly 8 bits |
| `BitCodec.ByteOfByteBits` | core/lsb.py:101 | `int(byte, 2)` of a byte's 8 bits gives that byte back |
| `BitCodec.ByteOf` | core/lsb.py:101 | `int(byte, 2)` of an 8-bit group is the byte whose 8 bits, most significant first, are the group |
| `BitCodec.TerminatorIsZeroByte` | core/lsb.py:93 | an 8-bit group equals `"00000000"` exactly when it is the byte 0 |
| `BitCodec.PayloadBits` | core/lsb.py:23 | the payload bit string is 8 bits per character |
| `BitCodec.PayloadBitsGroup` | core/lsb.py:23 | bits `8g .. 8g+8` are character `g`'s bits, most significant first |
| `BitCodec.PayloadBitsAppend` | core/lsb.py:23 | the bits of `s + [c]` are the bits of `s` followed by `c`'s 8 bits |
| `BitCodec.Encode` | core/lsb.py:22-25 | the encoding has `8 * (n + 1)` bits: the payload bits, then the 8-bit terminator |
| `BitCodec.DecodeGroups` | core/lsb.py:105-111 | the fallback decode yields one byte per complete 8-bit group, dropping a trailing partial group |
| `BitCodec.DecodeGroupsAt` | core/lsb.py:106-109 | byte `g` of the fallback decode is the value of bits `8g .. 8g+8` |
| `BitCodec.DecodeBytes` | core/lsb.py:105-111 | the decoding loop returns the bytes of the complete groups (`DecodeGroups`) |
| `BitCodec.DecodePayloadBits` | core/lsb.py:97-101 | decoding a payload's bits followed by any tail gives the payload followed by the tail's decode |
| `BitCodec.EncodedPixelBoundary` | core/lsb.py:86-91 | the encoding ends on a pixel boundary exactly when the image is grayscale or the payload length is 2 modulo 3 |
| `BitCodec.Scan` | core/lsb.py:79-111 | the terminator scan over a stream of LSBs read `c` per pixel returns at most one byte per complete 8-bit group of the stream |
| `BitCodec.ScanStep` | core/lsb.py:90-102 | after a pixel is read, the scan stops with the bytes before the last 8 bits exactly when the count is a multiple of 8 and those bits are zero; otherwise it reads on |
| `BitCodec.ScanContinues` | core/lsb.py:90-93 | without a terminator at the current checkpoint the scan moves to the next pixel |
| `BitCodec.ScanStops` | core/lsb.py:93-102 | at a checkpoint ending in eight zero bits the scan returns the decode of the bits before them |
| `BitCodec.PayloadGroupNotTerminator` | core/lsb.py:93 | inside an encoded payload without zero bytes no checkpoint sees the terminator |
| `BitCodec.EncodedTerminator` | core/lsb.py:93-101 | the encoding ends in the terminator, and the bits before it decode to the payload |
| `BitCodec.NextPixelBoundary` | core/lsb.py:79-88 | pixel boundaries are whole pixels apart, so the scan lands on every later boundary |
| `BitCodec.ScanFindsTerminator` | core/lsb.py:79-102 | a stream starting with the encoding of a zero-free payload that ends on a pixel boundary scans to exactly that payload |
| `BitCodec.ScanWithoutTerminator` | core/lsb.py:104-111 | if no checked group is zero, the scan returns the decode of every complete group of the stream |
| `BitCodec.DecodeEncodedPrefix` | core/lsb.py:104-111 | the fallback decode of a stream that starts with an encoding starts with the payload and a zero byte |
| `BitCodec.ScanSkipsTerminator` | core/lsb.py:86-93 | on colour images a zero-free payload whose length is not 2 modulo 3 has its terminator skipped: the result is longer and starts with the payload and a zero byte |
| `Images.CarrierSize` | core/lsb.py:126 | a carrier of shape `(H, W)` or `(H, W, C)` has `C * H * W` samples |
| `Images.Slice` | utils/image_utils.py:227 | `image[y0:y1, x0:x1]` is a well-formed image of shape `[y1-y0, x1-x0]` followed by the trailing dimensions |
| `Images.Row` | utils/image_utils.py:227 | the samples of columns `x0 .. x1` of one image row, `(x1 - x0)` pixels long |
| `Images.SliceWithin` | utils/image_utils.py:227 | row `q` of the slice is row `y0 + q` of the image, columns `x0 .. x0 + w` |
| `LsbSteganography.EmbedSpec` | core/lsb.py:12-62 | `embed` fails exactly when the image has fewer samples than `8 * (n + 1)`; otherwise it returns a carrier of the cover's shape |
| `LsbSteganography.ExtractSpec` | core/lsb.py:65-111 | `extract` returns at most one character per 8 samples of the image |
| `LsbSteganography.Capacity` | core/lsb.py:114-128 | the capacity is (sample count) // 8 for 2-D and `(H, W, 3)` images, and 0 for other ranks |
| `LsbSteganography.EmbedPixel` | core/lsb.py:42-56 | writing one pixel sets the next `min(c, bits left)` samples' LSBs to the next payload bits |
| `LsbSteganography.EmbedRaster` | core/lsb.py:38-60 | the nested loops turn the cover into the cover with its first samples, one per bit, carrying the bits (`WritePrefix`) |
| `LsbSteganography.Embed` | core/lsb.py:12-62 | `embed` returns the capacity error or the cover with the encoded payload written into its first samples' LSBs (`EmbedSpec`) |
| `LsbSteganography.ReadPixel` | core/lsb.py:82-88 | reading a pixel appends its samples' LSBs to the collected bits |
| `LsbSteganography.ExtractPixel` | core/lsb.py:81-102 | one pixel step either stops with the scan's result at a terminator checkpoint, or extends the collected bits by the pixel's LSBs with the same scan ahead |
| `LsbSteganography.ExtractRaster` | core/lsb.py:75-111 | the scan loop returns the terminator scan of the image's LSB stream |
| `LsbSteganography.Extract` | core/lsb.py:65-111 | `extract` returns `ExtractSpec`: the terminator scan over every sample's LSB |
| `LsbSteganography.EmbedFailsIffOverCapacity` | core/lsb.py:27-30 | embedding fails exactly when the sample count is below `8 * (n + 1)`, that is, when `n` is not below the capacity |
| `LsbSteganography.EmbedTouchesOnlyLsbs` | core/lsb.py:33-60 | the shape is kept; every sample keeps its upper seven bits and moves by at most 1; the first `8 * (n + 1)` LSBs are the encoding; later samples equal the cover |
| `LsbSteganography.RoundTrip` | core/lsb.py:12-111 | a zero-free payload that fits is extracted exactly from a grayscale stego image, or from a colour one when its length is 2 modulo 3 |
| `LsbSteganography.ColourRoundTrip` | core/lsb.py:86-93 | on colour images a zero-free payload that fits comes back exactly if and only if its length is 2 modulo 3; otherwise the result starts with the payload and a zero byte and is longer |
| `LsbSteganography.ExtractWithoutTerminator` | core/lsb.py:104-111 | with no zero group at a checked boundary, extraction returns one byte per complete 8-bit group of the LSB stream |
| `SobelMasks.CreateMask` | core/sobel_adaptive.py:53 | the mask is set at a pixel exactly when its gradient is strictly above the threshold |
| `SobelMasks.BitCapacity` | core/sobel_adaptive.py:81-86 | `available_capacity` (selected pixels times channels) is at most the image's sample count |
| `SobelMasks.Ones` | core/sobel_adaptive.py:81 | the number of selected pixels is at most the number of pixels |
| `SobelMasks.OnesMonotone` | core/sobel_adaptive.py:81 | a mask contained in another selects no more pixels |
| `SobelMasks.MaskMonotone` | core/sobel_adaptive.py:53 | lowering the threshold never removes a pixel from the mask |
| `SobelMasks.CapacityMonotone` | core/sobel_adaptive.py:81-99 | the available capacity in bits never decreases as the threshold falls |
| `SobelMasks.Relax` | core/sobel_adaptive.py:88-99 | the relaxed threshold is below the requested one by a multiple of 5, equals it when that is not positive, and ends above -5 |
| `SobelMasks.RelaxStops` | core/sobel_adaptive.py:91 | relaxation stops at a threshold with enough capacity or one that is not positive |
| `SobelMasks.RelaxPassesShort` | core/sobel_adaptive.py:91-92 | every threshold relaxation steps past was positive and fell short |
| `SobelMasks.LowestThreshold` | core/sobel_adaptive.py:91-92 | the lowest threshold reachable from a positive one is in (-5, 0] and a multiple of 5 below it |
| `SobelMasks.RelaxFallsShortIff` | core/sobel_adaptive.py:88-102 | relaxation ends short exactly when the capacity at the lowest reachable threshold is short |
| `SobelMasks.RelaxBelowZero` | core/sobel_adaptive.py:91-92 | from threshold 3 with too little capacity the final threshold is -2 |
| `SobelMasks.PixelSamples` | core/sobel_adaptive.py:124-127 | a selected pixel's samples are its `c` consecutive samples in channel order |
| `SobelMasks.Selected` | core/sobel_adaptive.py:112-128 | the raster loops visit at most `c` samples per pixel among the first `p` pixels (the exact count, `c` per selected pixel, is `SelectedShape`) |
| `SobelMasks.SelectedShape` | core/sobel_adaptive.py:112-114 | the visited samples are increasing, `c` per selected pixel, and all lie in selected pixels |
| `SobelMasks.SelectedPrefix` | core/sobel_adaptive.py:112-114 | the samples visited in the first `p` pixels are a prefix of those visited in the first `n >= p` |
| `SobelMasks.SelectedNext` | core/sobel_adaptive.py:114-128 | a selected pixel adds its `c` samples, in order, to the visited samples |
| `SobelMasks.Gather` | core/sobel_adaptive.py:160-168 | the samples read through the mask, one per visited position |
| `SobelMasks.GatherRun` | core/sobel_adaptive.py:164-168 | a run of consecutive visited samples reads as that slice of the image |
| `SobelMasks.WriteAt` | core/sobel_adaptive.py:114-128 | the masked write keeps the image's length |
| `SobelMasks.WriteAtEffect` | core/sobel_adaptive.py:120-127 | the `k`-th visited sample gets bit `k` as its LSB; samples not visited are unchanged |
| `SobelMasks.GatherWriteAt` | core/sobel_adaptive.py:114-168 | reading back through the same positions yields the written bits first |
| `SobelMasks.WriteThroughMask` | core/sobel_adaptive.py:112-128 | writing through a mask keeps every sample's upper seven bits, moves it by at most 1, and leaves unmasked pixels unchanged |
| `SobelAdaptive.FinalThreshold` | core/sobel_adaptive.py:88-99 | the threshold `embed` ends at is below the requested one by a multiple of 5, above -5 when the requested one is positive, and either offers `8 * (n + 1)` bits or is not positive |
| `SobelAdaptive.EmbedSpec` | core/sobel_adaptive.py:57-134 | `embed` fails exactly when the capacity at the final threshold is below `8 * (n + 1)` bits; otherwise it returns a carrier of the cover's shape |
| `SobelAdaptive.MaskedStream` | core/sobel_adaptive.py:158-168 | the bits `extract` collects through the mask at a threshold number exactly `available_capacity` at that threshold |
| `SobelAdaptive.ExtractSpec` | core/sobel_adaptive.py:137-191 | `extract` at a threshold returns at most `get_embedding_capacity` characters for that threshold |
| `SobelAdaptive.Slots` | core/sobel_adaptive.py:112-128 | the positions embedding visits are increasing, inside the image, and number `c` per selected pixel |
| `SobelAdaptive.Capacity` | core/sobel_adaptive.py:194-218 | the capacity is (selected pixels) // 8 for grayscale, (selected pixels * 3) // 8 for colour, and 0 for other ranks |
| `SobelAdaptive.EmbedPixel` | core/sobel_adaptive.py:123-128 | writing a selected colour pixel sets channels 0, 1, 2 in turn until the bits run out |
| `SobelAdaptive.EmbedAt` | core/sobel_adaptive.py:114-128 | one pixel step writes the pixel's bits when it is masked and leaves the image as the masked write of the bits so far |
| `SobelAdaptive.EmbedRow` | core/sobel_adaptive.py:113-130 | one row of the loop continues the masked write from the bits before the row to the bits after it |
| `SobelAdaptive.EmbedRaster` | core/sobel_adaptive.py:111-132 | the nested loops turn the cover into the masked write of all the bits (`WriteAt`) |
| `SobelAdaptive.Embed` | core/sobel_adaptive.py:57-134 | `embed` relaxes the threshold, then returns the capacity error or the masked write of the encoding (`EmbedSpec`) |
| `SobelAdaptive.ReadPixel` | core/sobel_adaptive.py:160-168 | reading a masked pixel appends its samples' LSBs |
| `SobelAdaptive.StreamStep` | core/sobel_adaptive.py:158-168 | the bits collected after a masked pixel are the next prefix of the masked stream |
| `SobelAdaptive.ExtractPixel` | core/sobel_adaptive.py:160-182 | one pixel step either ends the scan with its result or keeps the collected bits a prefix of the masked stream with the same scan ahead |
| `SobelAdaptive.ExtractRaster` | core/sobel_adaptive.py:154-191 | the loops return the terminator scan of the masked stream |
| `SobelAdaptive.Extract` | core/sobel_adaptive.py:137-191 | `extract` returns `ExtractSpec`: the plain-LSB scan over the samples of the masked pixels |
| `SobelAdaptive.EmbedFailsIffShort` | core/sobel_adaptive.py:88-102 | embedding fails exactly when the capacity at the lowest reachable threshold is below `8 * (n + 1)` bits |
| `SobelAdaptive.EmbedTouchesOnlyMasked` | core/sobel_adaptive.py:104-132 | the shape is kept; every sample keeps its upper seven bits and moves by at most 1; samples of pixels outside the final mask equal the cover |
| `SobelAdaptive.EmbeddedStream` | core/sobel_adaptive.py:111-132 | after embedding, the masked stream at the final threshold starts with the encoding |
| `SobelAdaptive.RoundTrip` | core/sobel_adaptive.py:57-191 | with the final threshold (or the requested one when it already had room), extraction gives a zero-free payload back, for grayscale or for lengths 2 modulo 3 |
| `SobelAdaptive.ColourRoundTrip` | core/sobel_adaptive.py:166-173 | on colour images the payload comes back exactly if and only if its length is 2 modulo 3; otherwise the result starts with the payload and a zero byte |
| `SobelAdaptive.CapacityGrowsAsThresholdFalls` | core/sobel_adaptive.py:204-218 | `get_embedding_capacity` never decreases as the threshold falls |
| `Metrics.Mismatches` | utils/metrics.py:111 | the count of differing positions is at most the length |
| `Metrics.NoMismatchesIffEqual` | utils/metrics.py:111 | no position differs exactly when the sequences are equal |
| `Metrics.AllMismatchIffDisjoint` | utils/metrics.py:111 | every position differs exactly when the count equals the length |
| `Metrics.MismatchesSymmetric` | utils/metrics.py:111 | the count does not depend on argument order |
| `Metrics.CalculateBer` | utils/metrics.py:90-115 | fails exactly on a length mismatch; NaN on two empty inputs; otherwise a rate in [0, 1] with `rate * length == mismatches` |
| `Metrics.BerZeroIffEqual` | utils/metrics.py:111-114 | the rate is 0 exactly when the bits are equal |
| `Metrics.BerOneIffComplement` | utils/metrics.py:111-114 | the rate is 1 exactly when the extracted bits are the complement |
| `Metrics.BerSymmetric` | utils/metrics.py:101-114 | `calculate_ber` is symmetric, errors included |
| `Metrics.CalculateBerText` | utils/metrics.py:138-174 | the text rate lies in [0, 1] and is 1.0 when either text is missing or empty |
| `Metrics.BerTextZeroIffPrefix` | utils/metrics.py:160-173 | the text rate is 0 exactly when the original is non-empty and a prefix of the extracted text |
| `Metrics.BerTextIdentity` | utils/metrics.py:166-174 | a non-empty text compared with itself has rate 0 |
| `Metrics.BerTextIgnoresExtraTail` | utils/metrics.py:166-173 | characters beyond the original's length in the extracted text do not change the rate |
| `Metrics.BerTextAsymmetric` | utils/metrics.py:166-173 | `("a", "ab")` rates 0 but `("ab", "a")` rates 0.5 |
| `ImageUtils.ConvertToGrayscale` | utils/image_utils.py:66-82 | 2-D and single-channel images come back unchanged |
| `ImageUtils.ExtractBitPlane` | utils/image_utils.py:85-109 | fails exactly outside 0..7; otherwise each output sample is 255 where the bit is set and 0 where it is clear, with the source's layout |
| `ImageUtils.PlaneBitsBit` | utils/image_utils.py:129-133 | after ORing in `n` planes, bit `j` is set exactly when `j < n` and plane `j` is positive there |
| `ImageUtils.OrBit` | utils/image_utils.py:133 | ORing `(b << m)` sets bit `j` exactly when it was set or `j == m` and `b` holds |
| `ImageUtils.Combined` | utils/image_utils.py:126-135 | the combined image has the first plane's layout |
| `ImageUtils.CombinedBits` | utils/image_utils.py:129-133 | bit `i` of a combined sample is set exactly when plane `i` is positive there |
| `ImageUtils.CombineBitPlanes` | utils/image_utils.py:112-135 | fails exactly unless 8 planes are given; the in-place OR loop builds `Combined` |
| `ImageUtils.BitPlanesRoundTrip` | utils/image_utils.py:104-133 | combining the eight planes of a 2-D image gives the image back |
| `ImageUtils.CropWindow` | utils/image_utils.py:220-224 | the clamped window has a corner inside a non-empty image, at least one pixel each way, and fits inside |
| `ImageUtils.CropWindowKeepsFit` | utils/image_utils.py:220-224 | a request already inside the image is kept exactly, and clamping is idempotent |
| `ImageUtils.CropImage` | utils/image_utils.py:207-228 | the crop is a well-formed image of the same rank with the same trailing dimensions |
| `ImageUtils.CropImageRows` | utils/image_utils.py:220-228 | the crop has the clamped window's size and its row `q` is image row `y + q` from column `x` to `x + width` |
| `ImageUtils.OddKernel` | utils/image_utils.py:176-177 | the rounded kernel size is odd and equals `k` or `k + 1` |
| `ImageUtils.OddKernelKeepsOdd` | utils/image_utils.py:176-177 | an odd size is kept exactly, and rounding is idempotent |
| `ImageUtils.ApplyGaussianBlur` | utils/image_utils.py:165-180 | the blur runs with sigma 0 and `k` when `k` is odd, `k + 1` when it is even |
| `AttackSimulator.JpegCompression` | core/attack_simulator.py:24-56 | fails exactly when the quality is outside 1..100, before any transform; otherwise it is the JPEG transform at that quality |
| `AttackSimulator.GaussianBlur` | core/attack_simulator.py:59-75 | the blur runs with `k` when `k` is odd and `k + 1` when it is even |
| `AttackSimulator.BlurAttackIsImageBlur` | core/attack_simulator.py:70-74 | with sigma 0 the blur attack equals `apply_gaussian_blur` |
| `AttackSimulator.CentredSpan` | core/attack_simulator.py:94-99 | the kept length is `floor(size * ratio)`, the span lies inside, the two margins differ by at most 1, and a non-empty axis loses at least one row |
| `AttackSimulator.CentredSpanExamples` | core/attack_simulator.py:94-99 | 100 rows at 0.9 keep rows 5..94; 1 row at 0.9 keeps none; 7 rows at 0.5 keep rows 2..4 |
| `AttackSimulator.CropRegion` | core/attack_simulator.py:91-102 | the kept region is a well-formed image with the same rank and trailing dimensions |
| `AttackSimulator.CropRegionRows` | core/attack_simulator.py:98-102 | the kept region has the centred spans' size and its row `q` is the image's row below the top margin, from the left margin on |
| `AttackSimulator.CropAttack` | core/attack_simulator.py:78-107 | fails exactly when the ratio is outside (0, 1); otherwise it is the centred region resized back to the image's width and height |
| `AttackSimulator.GaussianNoise` | core/attack_simulator.py:110-130 | the noise attack checks nothing and hands mean and sigma unchanged to the noise transform |
| `AttackSimulator.ApplyAttack` | core/attack_simulator.py:133-166 | the unsupported-attack error happens exactly for names other than the four; any failure is that, a jpeg quality outside 1..100 or a crop ratio outside (0, 1), after defaults |
| `AttackSimulator.MissingParamsAreEmpty` | core/attack_simulator.py:144-145 | missing parameters behave as an empty dictionary |
| `AttackSimulator.ApplyAttackDefaults` | core/attack_simulator.py:147-163 | the defaults are quality 75, kernel 3 with sigma 1.0, ratio 0.9, and mean 0 with sigma 10.0, and each default attack succeeds |
| `AttackSimulator.ApplyAttackRoutes` | core/attack_simulator.py:147-163 | each attack calls its own transform with the given parameters once they pass the checks |

## Left out

- The Sobel gradient computation (OpenCV convolution, magnitude, min-max normalisation) is not modelled: the gradient map is an input of embedding, extraction and capacity.
- `SobelAdaptive.Extract`: extraction recomputes the gradient from the stego image; the model takes the gradient as a parameter, so the round trips hold for extraction with the gradient embedding used; the gradient of the changed image is not modelled.
- `SobelAdaptive.RoundTrip`: `embed` does not return its relaxed threshold; the round trip is stated at the final threshold, and at the caller's threshold only when no relaxation happened.
- PSNR, SSIM and `evaluate_image_quality` are floating-point image metrics and are not modelled.
- The pixel effects of the attacks (the JPEG round trip through a temporary file, `cv2.GaussianBlur`, `cv2.resize`, random Gaussian noise with clipping) are opaque functions in `Transforms`; `gaussian_noise` only forwards its parameters.
- `AttackSimulator.CentredSpan`: `int(h * ratio)` is computed on exact reals, not IEEE doubles, so a product that lands just below an integer in floating point may differ by one.
- `AttackSimulator.CropAttack`: `cv2.resize` raising on an empty crop is part of the opaque resize. A crop is empty along an axis whenever `size * ratio < 1` there, for example 9 rows at ratio 0.1.
- `AttackSimulator.ApplyAttack`: the parameter dictionary is a typed record of the keys read; values of other types and extra keys are not modelled. The crop needs a well-formed image of rank at least 2, which numpy's `shape[:2]` unpacking demands.
- Characters above 255: `format(ord(c), '08b')` then gives more than 8 bits; payloads are bytes.
- `LsbSteganography.Embed`, `LsbSteganography.Extract`, `SobelAdaptive.Embed`, `SobelAdaptive.Extract`: the model requires shape `(H, W)` or `(H, W, 3)`. It does not model what the source does with other shapes:
  - below rank 2, the `shape[:2]` unpacking raises ValueError (core/lsb.py:36 and 75, core/sobel_adaptive.py:108 and 154);
  - `(H, W, C)` with `C` other than 3 indexes a missing channel, or leaves channels past the third unwritten while the capacity counts them;
  - from rank 4 on, no branch of the loops matches, so plain `embed` returns an unchanged copy and plain `extract` returns the empty string.

  The capacity functions do cover every rank; they return 0 for ranks other than 2 and 3.
- `ImageUtils.CombineBitPlanes`: all eight planes must share one layout; numpy broadcasting between differently shaped planes is not modelled.
- `Metrics.CalculateBer`: the inputs are 1-D lists or arrays of comparable elements. Not modelled:
  - a Python `str`, which `np.array` turns into a 0-d array, so `len` raises TypeError;
  - 2-D arrays, for which the source counts every element but divides by the first dimension.
- `Metrics.CalculateBerText`: inputs are strings or missing; the `str()` conversion of other values is not modelled.
- `ImageUtils.CropImage`: requires rank at least 2. For a lower rank the source's `shape[:2]` unpacking raises ValueError (utils/image_utils.py:220), which is not modelled.
- Default arguments are not modelled; callers pass every argument. The source's defaults are:
  - threshold 30 for the adaptive `embed`, `extract` and `get_embedding_capacity`;
  - quality 75, kernel size 3 with sigma 1.0, crop ratio 0.9, and mean 0 with sigma 10.0 for the attack functions;
  - kernel size 5 for `apply_gaussian_blur`.

  `apply_attack`'s own defaults for missing keys are modelled (`AttackSimulator.ApplyAttackDefaults`).
- `Images.Slice`: only in-range bounds are modelled; numpy's clamping of out-of-range slice bounds appears only where the source can reach it, in `ImageUtils.CropImage`.
- Colour conversion, file reading and saving, resizing, channel splitting and merging, noise, logging and the user interface are I/O or thin library wrappers and are not modelled.
