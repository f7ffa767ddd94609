/** Image helpers: grayscale short-circuit, bit planes, cropping and blur
    kernel rounding. OpenCV's colour conversion and blur are parameters. */
module ImageUtils {
  import opened Outcomes
  import opened BitCodec
  import opened Images

  datatype ImageError = InvalidBitPosition | WrongPlaneCount

  /** `convert_to_grayscale`: 2-D and single-channel images come back
      unchanged; anything else goes through the colour conversion. */
  function ConvertToGrayscale(img: Image, toGray: Image -> Image): (r: Image)
    ensures |img.shape| == 2 || (|img.shape| == 3 && img.shape[2] == 1) ==> r == img
  {
    if |img.shape| == 2 || (|img.shape| == 3 && img.shape[2] == 1) then img
    else toGray(img)
  }

  /** `extract_bit_plane`: fails unless 0 <= position <= 7; a 3-D image is
      first made grayscale; each output sample is 255 where the bit is set
      and 0 elsewhere. */
  function ExtractBitPlane(img: Image, bitPosition: int, toGray: Image -> Image): (r: Result<Image, ImageError>)
    ensures r.Failure? <==> bitPosition < 0 || bitPosition > 7
    ensures r.Success? ==>
      var source := if |img.shape| == 3 then ConvertToGrayscale(img, toGray) else img;
      r.value.shape == source.shape && |r.value.samples| == |source.samples| &&
      forall k :: 0 <= k < |source.samples| ==>
        (r.value.samples[k] == 255 <==> BitOf(source.samples[k], bitPosition)) &&
        (r.value.samples[k] == 0 <==> !BitOf(source.samples[k], bitPosition))
  {
    if bitPosition < 0 || bitPosition > 7 then Failure(InvalidBitPosition)
    else
      var source := if |img.shape| == 3 then ConvertToGrayscale(img, toGray) else img;
      var plane := seq(|source.samples|, k requires 0 <= k < |source.samples| =>
        if BitOf(source.samples[k], bitPosition) then 255 as bv8 else 0);
      Success(Image(source.shape, plane))
  }

  /** The planes share the first one's layout. */
  predicate SameLayout(planes: seq<Image>)
  {
    forall i :: 0 <= i < |planes| ==>
      planes[i].shape == planes[0].shape && |planes[i].samples| == |planes[0].samples|
  }

  /** The value `combine_bit_planes` builds for sample `k` after ORing in
      the first `n` planes. */
  function PlaneBits(planes: seq<Image>, k: nat, n: nat): bv8
    requires n <= |planes| <= 8 && SameLayout(planes) && (n > 0 ==> k < |planes[0].samples|)
  {
    if n == 0 then 0
    else PlaneBits(planes, k, n - 1) | BitValue(planes[n - 1].samples[k] > 0, n - 1)
  }

  /** Bit `j` of the combined sample is set exactly when plane `j`, among
      the first `n`, is non-zero there. */
  lemma {:induction false} PlaneBitsBit(planes: seq<Image>, k: nat, n: nat, j: nat)
    requires n <= |planes| <= 8 && SameLayout(planes) && (n > 0 ==> k < |planes[0].samples|) && j < 8
    ensures BitOf(PlaneBits(planes, k, n), j) <==> j < n && planes[j].samples[k] > 0
  {
    if n > 0 {
      PlaneBitsBit(planes, k, n - 1, j);
      OrBit(PlaneBits(planes, k, n - 1), planes[n - 1].samples[k] > 0, n - 1, j);
    }
  }

  /** ORing in bit `m` with value `b` sets bit `j` exactly when it was set
      or `j` is `m` and `b` holds. */
  lemma OrBit(v: bv8, b: bool, m: nat, j: nat)
    requires m < 8 && j < 8
    ensures BitOf(v | BitValue(b, m), j) <==> BitOf(v, j) || (b && j == m)
  {
  }

  /** What `combine_bit_planes` returns for eight planes of one layout. */
  function Combined(planes: seq<Image>): (r: Image)
    requires |planes| == 8 && SameLayout(planes)
    ensures r.shape == planes[0].shape && |r.samples| == |planes[0].samples|
  {
    Image(planes[0].shape, seq(|planes[0].samples|, k requires 0 <= k < |planes[0].samples| => PlaneBits(planes, k, 8)))
  }

  /** In the combined image, bit `j` of a sample is set exactly when plane
      `j` is non-zero at that sample. */
  lemma CombinedBits(planes: seq<Image>)
    requires |planes| == 8 && SameLayout(planes)
    ensures forall k, j :: 0 <= k < |planes[0].samples| && 0 <= j < 8 ==>
      (BitOf(Combined(planes).samples[k], j) <==> planes[j].samples[k] > 0)
  {
    forall k, j | 0 <= k < |planes[0].samples| && 0 <= j < 8
      ensures BitOf(Combined(planes).samples[k], j) <==> planes[j].samples[k] > 0
    {
      PlaneBitsBit(planes, k, 8, j);
    }
  }

  /** `combine_bit_planes`: fails unless exactly eight planes are given;
      otherwise ORs `(plane_i > 0) << i` into a zeroed image of the first
      plane's layout, plane by plane. */
  method CombineBitPlanes(planes: seq<Image>) returns (r: Result<Image, ImageError>)
    requires |planes| == 8 ==> SameLayout(planes)
    ensures r.Failure? <==> |planes| != 8
    ensures r.Success? ==> r.value == Combined(planes)
  {
    if |planes| != 8 {
      return Failure(WrongPlaneCount);
    }
    var n := |planes[0].samples|;
    var result := new bv8[n](k => 0);
    for i := 0 to 8
      invariant forall k :: 0 <= k < n ==> result[k] == PlaneBits(planes, k, i)
    {
      for k := 0 to n
        invariant forall q :: 0 <= q < k ==> result[q] == PlaneBits(planes, q, i + 1)
        invariant forall q :: k <= q < n ==> result[q] == PlaneBits(planes, q, i)
      {
        result[k] := result[k] | BitValue(planes[i].samples[k] > 0, i);
      }
    }
    return Success(Image(planes[0].shape, result[..]));
  }

  /** Splitting a 2-D image into its eight bit planes and combining them
      gives the image back. */
  lemma BitPlanesRoundTrip(img: Image, toGray: Image -> Image)
    requires |img.shape| == 2
    ensures var planes := seq(8, j requires 0 <= j < 8 => ExtractBitPlane(img, j, toGray).value);
      SameLayout(planes) && Combined(planes) == img
  {
    var planes := seq(8, j requires 0 <= j < 8 => ExtractBitPlane(img, j, toGray).value);
    assert SameLayout(planes);
    CombinedBits(planes);
    var combined := Combined(planes);
    forall k | 0 <= k < |img.samples|
      ensures combined.samples[k] == img.samples[k]
    {
      forall j | 0 <= j < 8
        ensures BitOf(combined.samples[k], j) == BitOf(img.samples[k], j)
      {
        assert planes[j].samples[k] > 0 <==> BitOf(img.samples[k], j);
      }
      BitsDetermine(combined.samples[k], img.samples[k]);
    }
  }

  /** A sample is determined by its eight bits. */
  lemma BitsDetermine(a: bv8, b: bv8)
    requires forall j :: 0 <= j < 8 ==> BitOf(a, j) == BitOf(b, j)
    ensures a == b
  {
    assert BitOf(a, 0) == BitOf(b, 0) && BitOf(a, 1) == BitOf(b, 1) && BitOf(a, 2) == BitOf(b, 2) && BitOf(a, 3) == BitOf(b, 3);
    assert BitOf(a, 4) == BitOf(b, 4) && BitOf(a, 5) == BitOf(b, 5) && BitOf(a, 6) == BitOf(b, 6) && BitOf(a, 7) == BitOf(b, 7);
  }

  /** A crop rectangle: top-left corner and size, in pixels. */
  datatype Window = Window(x: int, y: int, width: int, height: int)

  /** `crop_image`'s clamping: the corner into the image, the size to at
      least one pixel and at most what remains to the right and below. On a
      non-empty image the window is non-empty and lies inside it. */
  function CropWindow(imgHeight: nat, imgWidth: nat, request: Window): (w: Window)
    ensures imgHeight > 0 && imgWidth > 0 ==>
      0 <= w.x < imgWidth && 0 <= w.y < imgHeight &&
      1 <= w.width && w.x + w.width <= imgWidth &&
      1 <= w.height && w.y + w.height <= imgHeight
    ensures 0 <= w.x && 0 <= w.y && 1 <= w.width && 1 <= w.height
  {
    var x := Max(0, Min(request.x, imgWidth - 1));
    var y := Max(0, Min(request.y, imgHeight - 1));
    var width := Max(1, Min(request.width, imgWidth - x));
    var height := Max(1, Min(request.height, imgHeight - y));
    Window(x, y, width, height)
  }

  /** A request that already fits a non-empty image is kept as it is, and
      clamping twice is clamping once. */
  lemma CropWindowKeepsFit(imgHeight: nat, imgWidth: nat, request: Window)
    requires imgHeight > 0 && imgWidth > 0
    ensures (0 <= request.x && 0 <= request.y && 1 <= request.width && 1 <= request.height &&
             request.x + request.width <= imgWidth && request.y + request.height <= imgHeight)
      <==> CropWindow(imgHeight, imgWidth, request) == request
    ensures CropWindow(imgHeight, imgWidth, CropWindow(imgHeight, imgWidth, request)) == CropWindow(imgHeight, imgWidth, request)
  {
  }

  /** `crop_image`: the clamped window cut out of the image. numpy cuts
      slice bounds to the image; this matters only for an empty image,
      since on a non-empty one the window already lies inside. */
  function CropImage(img: Image, request: Window): (r: Image)
    requires img.WellFormed() && |img.shape| >= 2
    ensures r.WellFormed() && |r.shape| == |img.shape| && r.shape[2..] == img.shape[2..]
  {
    var w := CropWindow(img.Height(), img.Width(), request);
    var y0, x0 := Min(w.y, img.Height()), Min(w.x, img.Width());
    var y1, x1 := Min(w.y + w.height, img.Height()), Min(w.x + w.width, img.Width());
    Slice(img, y0, y1, x0, x1)
  }

  /** On a non-empty image the crop has the size of the clamped window
      `(x, y, width, height)`, and its row `q` is row `y + q` of the image
      from column `x` to `x + width`. */
  lemma CropImageRows(img: Image, request: Window, x: nat, y: nat, width: nat, height: nat, q: nat)
    requires img.WellFormed() && |img.shape| >= 2 && img.Height() > 0 && img.Width() > 0
    requires CropWindow(img.Height(), img.Width(), request) == Window(x, y, width, height)
    ensures CropImage(img, request).shape[..2] == [height, width]
    ensures q < height ==> Row(CropImage(img, request), q, 0, width) == Row(img, y + q, x, x + width)
  {
    assert CropImage(img, request) == Slice(img, y, y + height, x, x + width);
    if q < height {
      SliceWithin(img, y, height, x, width, q);
    }
  }

  /** The kernel-size rounding of `apply_gaussian_blur` (and of the blur
      attack): an even size is increased by one, an odd size is kept. */
  function OddKernel(kernelSize: int): (r: int)
    ensures r % 2 == 1
    ensures r == kernelSize || r == kernelSize + 1
  {
    if kernelSize % 2 == 0 then kernelSize + 1 else kernelSize
  }

  /** An odd size is kept and rounding is idempotent. */
  lemma OddKernelKeepsOdd(kernelSize: int)
    ensures kernelSize % 2 == 1 <==> OddKernel(kernelSize) == kernelSize
    ensures OddKernel(OddKernel(kernelSize)) == OddKernel(kernelSize)
  {
  }

  /** `apply_gaussian_blur`: OpenCV's blur with the rounded kernel size and
      sigma 0. */
  function ApplyGaussianBlur(img: Image, kernelSize: int, blur: (Image, int, real) -> Image): (r: Image)
    ensures kernelSize % 2 == 1 ==> r == blur(img, kernelSize, 0.0)
    ensures kernelSize % 2 == 0 ==> r == blur(img, kernelSize + 1, 0.0)
  {
    blur(img, OddKernel(kernelSize), 0.0)
  }
}
