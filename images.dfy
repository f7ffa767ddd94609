/** 8-bit images as numpy holds them: a shape and the samples in row-major
    order, so that sample (i, j, k) of an (H, W, C) image is at index
    (i * W + j) * C + k. */
module Images {
  import opened BitCodec

  /** numpy's `size`: the product of the dimensions, each product counted
      out by repeated addition. */
  function Size(shape: seq<nat>): nat
  {
    if shape == [] then 1 else RowStart(shape[0], Size(shape[1..]))
  }

  function Min(a: int, b: int): int
  {
    if a < b then a else b
  }

  function Max(a: int, b: int): int
  {
    if a < b then b else a
  }

  datatype Image = Image(shape: seq<nat>, samples: seq<bv8>)
  {
    predicate WellFormed()
    {
      |samples| == Size(shape)
    }

    /** The layouts both embedders handle: (H, W) grayscale or (H, W, 3) colour. */
    predicate IsCarrier()
    {
      WellFormed() && (|shape| == 2 || (|shape| == 3 && shape[2] == 3))
    }

    function Height(): nat
      requires |shape| >= 2
    {
      shape[0]
    }

    function Width(): nat
      requires |shape| >= 2
    {
      shape[1]
    }

    /** Samples per pixel that carry payload bits. */
    function Channels(): ChannelCount
      requires IsCarrier()
    {
      if |shape| == 2 then 1 else 3
    }
  }

  /** A carrier holds `Channels()` samples for each of its H * W pixels. */
  lemma CarrierSize(img: Image)
    requires img.IsCarrier()
    ensures |img.samples| == img.Channels() * (img.Height() * img.Width())
    ensures |img.samples| == FirstSample(img.Channels(), img.Height() * img.Width())
  {
    var s := img.shape;
    assert s[1..][1..] == s[2..];
    if |s| == 3 {
      assert s[2..][1..] == [];
      RowStartIsProduct(3, 1);
      assert Size(s[2..]) == 3;
      RowStartIsProduct(s[1], 3);
      RowStartIsProduct(s[0], s[1] * 3);
      assert Size(s) == s[0] * (s[1] * 3) == 3 * (s[0] * s[1]);
    } else {
      assert s[2..] == [];
      RowStartIsProduct(s[1], 1);
      assert Size(s[1..]) == s[1];
      RowStartIsProduct(s[0], s[1]);
    }
  }

  /** Index of the first pixel of row `i` in a raster `width` pixels wide:
      `i * width`, counted out row by row. */
  function RowStart(i: nat, width: nat): (r: nat)
  {
    if i == 0 then 0 else RowStart(i - 1, width) + width
  }

  lemma {:induction false} RowStartIsProduct(i: nat, width: nat)
    ensures RowStart(i, width) == i * width
  {
    if i > 0 {
      RowStartIsProduct(i - 1, width);
      assert (i - 1) * width + width == i * width;
    }
  }

  /** Index of the first sample of pixel `pix` when each pixel has `c`
      samples. */
  function FirstSample(c: ChannelCount, pix: nat): nat
  {
    if c == 1 then pix else 3 * pix
  }

  /** A carrier holds `Channels()` samples for each of its pixels, counted
      row by row. */
  lemma CarrierRows(img: Image)
    requires img.IsCarrier()
    ensures |img.samples| == FirstSample(img.Channels(), RowStart(img.Height(), img.Width()))
  {
    CarrierSize(img);
    RowStartIsProduct(img.Height(), img.Width());
  }

  /** Pixel (i, j) of a raster lies before the first pixel of row `height`. */
  lemma {:induction false} PixelInRange(i: nat, j: nat, height: nat, width: nat)
    requires i < height && j < width
    ensures RowStart(i, width) + j < RowStart(height, width)
    decreases height
  {
    if i + 1 < height {
      PixelInRange(i, j, height - 1, width);
    }
  }

  /** numpy's size split at the first two axes: rows of pixels of
      `Size(shape[2..])` samples each, counted out by repeated addition. */
  lemma SizeAsRows(shape: seq<nat>)
    requires |shape| >= 2
    ensures Size(shape) == RowStart(shape[0], RowStart(shape[1], Size(shape[2..])))
  {
    assert shape[1..][1..] == shape[2..];
  }

  /** Later rows start later. */
  lemma {:induction false} RowStartMonotone(i: nat, k: nat, width: nat)
    requires i <= k
    ensures RowStart(i, width) <= RowStart(k, width)
    decreases k
  {
    if i < k {
      RowStartMonotone(i, k - 1, width);
    }
  }

  /** Rows `i` up to `k` span `k - i` rows. */
  lemma {:induction false} RowStartDiff(i: nat, k: nat, width: nat)
    requires i <= k
    ensures RowStart(k, width) - RowStart(i, width) == RowStart(k - i, width)
    decreases k
  {
    if i < k {
      RowStartDiff(i, k - 1, width);
    }
  }

  /** The samples from `lo` up to `hi` of the row starting at `start`. */
  function Segment(samples: seq<bv8>, start: nat, lo: nat, hi: nat): (r: seq<bv8>)
    requires lo <= hi && start + hi <= |samples|
    ensures |r| == hi - lo
  {
    samples[start + lo .. start + hi]
  }

  /** Rows `r0` up to `r1` of a raster whose rows are `stride` samples
      long, each cut to the samples from `lo` up to `hi` within the row. */
  function SliceRows(samples: seq<bv8>, stride: nat, r0: nat, r1: nat, lo: nat, hi: nat): (r: seq<bv8>)
    requires r0 <= r1 && lo <= hi <= stride && RowStart(r1, stride) <= |samples|
    ensures |r| == RowStart(r1 - r0, hi - lo)
    decreases r1 - r0
  {
    if r0 == r1 then []
    else
      var start := RowStart(r1 - 1, stride);
      SliceRows(samples, stride, r0, r1 - 1, lo, hi) + Segment(samples, start, lo, hi)
  }

  /** Row `q` of a slice is row `r0 + q` of the raster, cut the same way. */
  lemma {:induction false} SliceRowsRow(samples: seq<bv8>, stride: nat, r0: nat, r1: nat, lo: nat, hi: nat, q: nat)
    requires r0 <= r1 && lo <= hi <= stride && RowStart(r1, stride) <= |samples|
    requires r0 + q < r1
    ensures RowStart(q, hi - lo) + (hi - lo) <= |SliceRows(samples, stride, r0, r1, lo, hi)|
    ensures RowStart(r0 + q, stride) + hi <= |samples|
    ensures Segment(SliceRows(samples, stride, r0, r1, lo, hi), RowStart(q, hi - lo), 0, hi - lo)
         == Segment(samples, RowStart(r0 + q, stride), lo, hi)
    decreases r1 - r0
  {
    var prefix := SliceRows(samples, stride, r0, r1 - 1, lo, hi);
    if r0 + q < r1 - 1 {
      SliceRowsRow(samples, stride, r0, r1 - 1, lo, hi, q);
      RowStartMonotone(r0 + q + 1, r1 - 1, stride);
    } else {
      assert r1 - 1 - r0 == q;
    }
  }

  /** The samples of one row of an image. */
  function Stride(img: Image): nat
    requires |img.shape| >= 2
  {
    RowStart(img.Width(), Size(img.shape[2..]))
  }

  /** Adding rows: the first `i + n` rows are the first `i` and `n` more. */
  lemma {:induction false} RowStartAdd(i: nat, n: nat, width: nat)
    ensures RowStart(i + n, width) == RowStart(i, width) + RowStart(n, width)
    decreases n
  {
    if n > 0 {
      RowStartAdd(i, n - 1, width);
    }
  }

  /** Row `row` of a well-formed image lies inside its samples, and so do
      the columns up to `x1` within it. */
  lemma RowInside(img: Image, row: nat, x1: nat)
    requires img.WellFormed() && |img.shape| >= 2 && row < img.Height() && x1 <= img.Width()
    ensures RowStart(row, Stride(img)) + RowStart(x1, Size(img.shape[2..])) <= |img.samples|
    ensures RowStart(x1, Size(img.shape[2..])) <= Stride(img)
  {
    SizeAsRows(img.shape);
    RowStartMonotone(row + 1, img.Height(), Stride(img));
    RowStartMonotone(x1, img.Width(), Size(img.shape[2..]));
  }

  /** numpy's `image[y0:y1, x0:x1]` for bounds within the image: the rows
      and columns in range, the remaining axes untouched. */
  function Slice(img: Image, y0: nat, y1: nat, x0: nat, x1: nat): (r: Image)
    requires img.WellFormed() && |img.shape| >= 2 && y0 <= y1 <= img.Height() && x0 <= x1 <= img.Width()
    ensures r.WellFormed() && r.shape == [y1 - y0, x1 - x0] + img.shape[2..]
  {
    var depth := Size(img.shape[2..]);
    var shape := [y1 - y0, x1 - x0] + img.shape[2..];
    SizeAsRows(img.shape);
    SizeAsRows(shape);
    assert shape[2..] == img.shape[2..];
    RowStartMonotone(y1, img.Height(), Stride(img));
    RowStartMonotone(x0, x1, depth);
    RowStartMonotone(x1, img.Width(), depth);
    RowStartDiff(x0, x1, depth);
    Image(shape, SliceRows(img.samples, Stride(img), y0, y1, RowStart(x0, depth), RowStart(x1, depth)))
  }

  /** Columns `x0` up to `x1` of row `row`, all samples of each pixel. */
  function Row(img: Image, row: nat, x0: nat, x1: nat): (r: seq<bv8>)
    requires img.WellFormed() && |img.shape| >= 2 && row < img.Height() && x0 <= x1 <= img.Width()
    ensures |r| == RowStart(x1 - x0, Size(img.shape[2..]))
  {
    var depth, start := Size(img.shape[2..]), RowStart(row, Stride(img));
    RowInside(img, row, x1);
    RowStartMonotone(x0, x1, depth);
    RowStartDiff(x0, x1, depth);
    Segment(img.samples, start, RowStart(x0, depth), RowStart(x1, depth))
  }

  /** A slice within the image, spelled out on the image's own rows: the
      rows `y0` up to `y0 + h`, each cut to the samples of columns `x0` up
      to `x0 + w`. */
  lemma SliceLayout(img: Image, y0: nat, h: nat, x0: nat, w: nat)
    requires img.WellFormed() && |img.shape| >= 2 && y0 + h <= img.Height() && x0 + w <= img.Width()
    ensures var depth, s := Size(img.shape[2..]), Slice(img, y0, y0 + h, x0, x0 + w);
      var lo, hi := RowStart(x0, depth), RowStart(x0 + w, depth);
      lo <= hi <= Stride(img) && RowStart(y0 + h, Stride(img)) <= |img.samples| &&
      s.samples == SliceRows(img.samples, Stride(img), y0, y0 + h, lo, hi) &&
      s.Height() == h && s.Width() == w && Size(s.shape[2..]) == depth &&
      Stride(s) == hi - lo && RowStart(w, depth) == hi - lo
  {
    var depth, s := Size(img.shape[2..]), Slice(img, y0, y0 + h, x0, x0 + w);
    assert s.shape[2..] == img.shape[2..];
    RowStartAdd(x0, w, depth);
    SizeAsRows(img.shape);
    RowStartMonotone(y0 + h, img.Height(), Stride(img));
    RowStartMonotone(x0 + w, img.Width(), depth);
  }

  /** Row `q` of a slice within the image, as a cut of the image's own
      samples: the row `y0 + q` cut to the samples of columns `x0` up to
      `x0 + w`. */
  lemma SliceRow(img: Image, y0: nat, h: nat, x0: nat, w: nat, q: nat)
    requires img.WellFormed() && |img.shape| >= 2 && y0 + h <= img.Height() && x0 + w <= img.Width()
    requires q < h
    ensures var depth := Size(img.shape[2..]);
      var lo, hi := RowStart(x0, depth), RowStart(x0 + w, depth);
      lo <= hi && RowStart(y0 + q, Stride(img)) + hi <= |img.samples| &&
      Row(Slice(img, y0, y0 + h, x0, x0 + w), q, 0, w) == Segment(img.samples, RowStart(y0 + q, Stride(img)), lo, hi)
  {
    var depth, s := Size(img.shape[2..]), Slice(img, y0, y0 + h, x0, x0 + w);
    var lo, hi := RowStart(x0, depth), RowStart(x0 + w, depth);
    SliceLayout(img, y0, h, x0, w);
    var rows := SliceRows(img.samples, Stride(img), y0, y0 + h, lo, hi);
    SliceRowsRow(img.samples, Stride(img), y0, y0 + h, lo, hi, q);
    assert Row(s, q, 0, w) == Segment(rows, RowStart(q, hi - lo), 0, hi - lo);
  }

  /** Row `q` of a slice within the image is row `y0 + q` of the image cut
      to the requested columns. */
  lemma SliceWithin(img: Image, y0: nat, h: nat, x0: nat, w: nat, q: nat)
    requires img.WellFormed() && |img.shape| >= 2 && y0 + h <= img.Height() && x0 + w <= img.Width()
    requires q < h
    ensures Row(Slice(img, y0, y0 + h, x0, x0 + w), q, 0, w) == Row(img, y0 + q, x0, x0 + w)
  {
    SliceRow(img, y0, h, x0, w, q);
  }
}
