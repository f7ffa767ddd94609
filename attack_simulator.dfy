/** The attack simulator's own logic: parameter checks, the centred crop
    window and the dispatch of `apply_attack` with its defaults. What the
    attacks do to the pixels (a JPEG round trip through a file, OpenCV's
    blur and resize, random noise) is passed in as `Transforms`. */
module AttackSimulator {
  import opened Outcomes
  import opened Images
  import opened ImageUtils

  /** The pixel operations the attacks hand the image to. */
  datatype Transforms = Transforms(
    jpeg: (Image, int) -> Image,          // save at a quality, read back, resize to the input's size
    blur: (Image, int, real) -> Image,    // Gaussian blur with a square kernel and a sigma
    resize: (Image, nat, nat) -> Image,   // resize to (width, height)
    noise: (Image, real, real) -> Image)  // add Gaussian noise (mean, sigma), clip to 0..255

  datatype AttackError = InvalidQuality | InvalidCropRatio | UnsupportedAttack(attackType: string)

  /** The keys `apply_attack` reads from its parameter dictionary; a key
      that is absent is `None`. `sigma` is shared by the blur and the
      noise attack. */
  datatype AttackParams = AttackParams(
    quality: Option<int>, kernelSize: Option<int>, sigma: Option<real>,
    cropRatio: Option<real>, mean: Option<real>)

  const NoParams := AttackParams(None, None, None, None, None)

  const Supported: set<string> := {"jpeg", "blur", "crop", "noise"}

  /** A dictionary lookup with a default. */
  function Get<T>(entry: Option<T>, default: T): T
  {
    if entry.Some? then entry.value else default
  }

  /** `jpeg_compression`: a quality outside 1..100 is rejected before the
      image is written anywhere. */
  function JpegCompression(img: Image, quality: int, t: Transforms): (r: Result<Image, AttackError>)
    ensures r.Failure? <==> quality < 1 || quality > 100
    ensures r.Failure? ==> r.error == InvalidQuality
    ensures r.Success? ==> r.value == t.jpeg(img, quality)
  {
    if quality < 1 || quality > 100 then Failure(InvalidQuality)
    else Success(t.jpeg(img, quality))
  }

  /** `gaussian_blur`: the blur with the kernel size made odd. */
  function GaussianBlur(img: Image, kernelSize: int, sigma: real, t: Transforms): (r: Image)
    ensures kernelSize % 2 == 1 ==> r == t.blur(img, kernelSize, sigma)
    ensures kernelSize % 2 == 0 ==> r == t.blur(img, kernelSize + 1, sigma)
  {
    t.blur(img, OddKernel(kernelSize), sigma)
  }

  /** The blur attack with sigma 0 is `apply_gaussian_blur`: both round the
      kernel size the same way. */
  lemma BlurAttackIsImageBlur(img: Image, kernelSize: int, t: Transforms)
    ensures GaussianBlur(img, kernelSize, 0.0, t) == ApplyGaussianBlur(img, kernelSize, t.blur)
  {
  }

  /** A range along one axis: where it starts and how many rows or columns
      it covers. */
  datatype Span = Span(start: nat, length: nat)

  /** The centred crop along an axis of `size`: `int(size * ratio)` kept,
      starting at half of what is cut away, rounded down. */
  function CentredSpan(size: nat, ratio: real): (s: Span)
    requires 0.0 < ratio < 1.0
    ensures s.length as real <= size as real * ratio < s.length as real + 1.0
    ensures s.start + s.length <= size
    ensures size - (s.start + s.length) == s.start || size - (s.start + s.length) == s.start + 1
    ensures size > 0 ==> s.length < size
  {
    var product := size as real * ratio;
    ScaledDown(size as real, ratio);
    var length := product.Floor;
    assert length as real <= product < length as real + 1.0;
    assert 0 <= length <= size && (size > 0 ==> length < size);
    Span((size - length) / 2, length)
  }

  /** The default ratio on a 100-row image keeps rows 5 to 94; on a
      single row it keeps nothing. */
  lemma CentredSpanExamples()
    ensures CentredSpan(100, 0.9) == Span(5, 90)
    ensures CentredSpan(1, 0.9) == Span(0, 0)
    ensures CentredSpan(7, 0.5) == Span(2, 3)
  {
    assert (100.0 * 0.9).Floor == 90;
    assert (1.0 * 0.9).Floor == 0;
    assert (7.0 * 0.5).Floor == 3;
  }

  /** Scaling by a ratio in (0, 1) keeps a size non-negative and makes a
      positive one smaller. */
  lemma ScaledDown(size: real, ratio: real)
    requires 0.0 <= size && 0.0 < ratio < 1.0
    ensures 0.0 <= size * ratio
    ensures 0.0 < size ==> size * ratio < size
  {
    if 0.0 < size {
      assert size - size * ratio == size * (1.0 - ratio);
    }
  }

  /** The part of the image the crop attack keeps. */
  function CropRegion(img: Image, ratio: real): (r: Image)
    requires img.WellFormed() && |img.shape| >= 2 && 0.0 < ratio < 1.0
    ensures r.WellFormed() && |r.shape| == |img.shape| && r.shape[2..] == img.shape[2..]
  {
    var ys, xs := CentredSpan(img.Height(), ratio), CentredSpan(img.Width(), ratio);
    Slice(img, ys.start, ys.start + ys.length, xs.start, xs.start + xs.length)
  }

  /** The kept part has the centred spans' size, and its row `q` is the
      image's row `q` below the top margin, from the left margin on. */
  lemma CropRegionRows(img: Image, ratio: real, ys: Span, xs: Span, q: nat)
    requires img.WellFormed() && |img.shape| >= 2 && 0.0 < ratio < 1.0
    requires ys == CentredSpan(img.Height(), ratio) && xs == CentredSpan(img.Width(), ratio)
    ensures CropRegion(img, ratio).shape[..2] == [ys.length, xs.length]
    ensures q < ys.length ==>
      Row(CropRegion(img, ratio), q, 0, xs.length) == Row(img, ys.start + q, xs.start, xs.start + xs.length)
  {
    if q < ys.length {
      SliceWithin(img, ys.start, ys.length, xs.start, xs.length, q);
    }
  }

  /** `crop_attack`: a ratio outside (0, 1) is rejected; otherwise the
      centred region is resized back to the image's width and height. */
  function CropAttack(img: Image, ratio: real, t: Transforms): (r: Result<Image, AttackError>)
    requires img.WellFormed() && |img.shape| >= 2
    ensures r.Failure? <==> ratio <= 0.0 || ratio >= 1.0
    ensures r.Failure? ==> r.error == InvalidCropRatio
    ensures r.Success? ==> r.value == t.resize(CropRegion(img, ratio), img.Width(), img.Height())
  {
    if ratio <= 0.0 || ratio >= 1.0 then Failure(InvalidCropRatio)
    else Success(t.resize(CropRegion(img, ratio), img.Width(), img.Height()))
  }

  /** `gaussian_noise`: noise with the given mean and sigma. */
  function GaussianNoise(img: Image, mean: real, sigma: real, t: Transforms): (r: Image)
    ensures r == t.noise(img, mean, sigma)
  {
    t.noise(img, mean, sigma)
  }

  /** A missing parameter dictionary is read as an empty one. */
  function Resolve(params: Option<AttackParams>): AttackParams
  {
    if params.None? then NoParams else params.value
  }

  /** `apply_attack`: the attack named by `attackType` with its parameters
      looked up in `params`, or an error for an unknown name. Only the crop
      needs the image's height and width. */
  function ApplyAttack(img: Image, attackType: string, params: Option<AttackParams>, t: Transforms): (r: Result<Image, AttackError>)
    requires attackType == "crop" ==> img.WellFormed() && |img.shape| >= 2
    ensures r.Failure? && r.error.UnsupportedAttack? <==> attackType !in Supported
    ensures r.Failure? <==>
      attackType !in Supported ||
      (attackType == "jpeg" && !(1 <= Get(Resolve(params).quality, 75) <= 100)) ||
      (attackType == "crop" && !(0.0 < Get(Resolve(params).cropRatio, 0.9) < 1.0))
  {
    var p := Resolve(params);
    if attackType == "jpeg" then
      JpegCompression(img, Get(p.quality, 75), t)
    else if attackType == "blur" then
      Success(GaussianBlur(img, Get(p.kernelSize, 3), Get(p.sigma, 1.0), t))
    else if attackType == "crop" then
      CropAttack(img, Get(p.cropRatio, 0.9), t)
    else if attackType == "noise" then
      Success(GaussianNoise(img, Get(p.mean, 0.0), Get(p.sigma, 10.0), t))
    else
      Failure(UnsupportedAttack(attackType))
  }

  /** Leaving the parameters out is the same as passing an empty
      dictionary. */
  lemma MissingParamsAreEmpty(img: Image, attackType: string, t: Transforms)
    requires attackType == "crop" ==> img.WellFormed() && |img.shape| >= 2
    ensures ApplyAttack(img, attackType, None, t) == ApplyAttack(img, attackType, Some(NoParams), t)
  {
  }

  /** With no parameters every supported attack succeeds, with quality 75,
      a 3 x 3 kernel and sigma 1.0, ratio 0.9, and mean 0 and sigma 10.0. */
  lemma ApplyAttackDefaults(img: Image, t: Transforms)
    requires img.WellFormed() && |img.shape| >= 2
    ensures ApplyAttack(img, "jpeg", None, t) == Success(t.jpeg(img, 75))
    ensures ApplyAttack(img, "blur", None, t) == Success(t.blur(img, 3, 1.0))
    ensures ApplyAttack(img, "crop", None, t) == Success(t.resize(CropRegion(img, 0.9), img.Width(), img.Height()))
    ensures ApplyAttack(img, "noise", None, t) == Success(t.noise(img, 0.0, 10.0))
  {
  }

  /** Each supported attack hands the image to its own transform with the
      parameters it was given, once those pass the checks. */
  lemma ApplyAttackRoutes(img: Image, p: AttackParams, q: int, k: int, s: real, ratio: real, m: real, t: Transforms)
    requires img.WellFormed() && |img.shape| >= 2
    requires p == AttackParams(Some(q), Some(k), Some(s), Some(ratio), Some(m))
    ensures 1 <= q <= 100 ==> ApplyAttack(img, "jpeg", Some(p), t) == Success(t.jpeg(img, q))
    ensures k % 2 == 1 ==> ApplyAttack(img, "blur", Some(p), t) == Success(t.blur(img, k, s))
    ensures k % 2 == 0 ==> ApplyAttack(img, "blur", Some(p), t) == Success(t.blur(img, k + 1, s))
    ensures 0.0 < ratio < 1.0 ==>
      ApplyAttack(img, "crop", Some(p), t) == Success(t.resize(CropRegion(img, ratio), img.Width(), img.Height()))
    ensures ApplyAttack(img, "noise", Some(p), t) == Success(t.noise(img, m, s))
  {
  }
}
