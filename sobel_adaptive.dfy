/** Gradient-adaptive LSB steganography: only pixels whose gradient is above
    a threshold carry payload bits, all channels of such a pixel in turn.
    The gradient map is an input, one value per pixel in raster order. */
module SobelAdaptive {
  import opened Outcomes
  import opened BitCodec
  import opened Images
  import opened SobelMasks
  import LsbSteganography

  /** The gradient map has one value per pixel of the image. */
  predicate FitsImage(gradient: seq<int>, img: Image)
    requires img.IsCarrier()
  {
    |gradient| == img.Height() * img.Width()
  }

  /** The threshold `embed` ends up at after relaxation. */
  function FinalThreshold(cover: Image, secret: seq<bv8>, gradient: seq<int>, threshold: int): (r: int)
    requires cover.IsCarrier()
    ensures r <= threshold && (threshold - r) % 5 == 0
    ensures threshold > 0 ==> -5 < r
    ensures BitCapacity(gradient, cover.Channels(), r) >= 8 * (|secret| + 1) || r <= 0
  {
    RelaxStops(gradient, cover.Channels(), |Encode(secret)|, threshold);
    Relax(gradient, cover.Channels(), |Encode(secret)|, threshold)
  }

  /** The mask `embed` ends up writing through. */
  function FinalMask(cover: Image, secret: seq<bv8>, gradient: seq<int>, threshold: int): seq<bool>
    requires cover.IsCarrier()
  {
    CreateMask(gradient, FinalThreshold(cover, secret, gradient, threshold))
  }

  /** The sample indices `embed` and `extract` visit through `mask`. */
  function Slots(img: Image, mask: seq<bool>): (r: seq<nat>)
    requires img.IsCarrier() && |mask| == img.Height() * img.Width()
    ensures Below(r, |img.samples|) && Increasing(r)
    ensures |r| == FirstSample(img.Channels(), Ones(mask, |mask|))
  {
    CarrierSize(img);
    SelectedShape(mask, img.Channels(), |mask|);
    Selected(mask, img.Channels(), |mask|)
  }

  /** What `embed` returns. */
  function EmbedSpec(cover: Image, secret: seq<bv8>, gradient: seq<int>, threshold: int): (r: Result<Image, LsbSteganography.StegoError>)
    requires cover.IsCarrier() && FitsImage(gradient, cover)
    ensures r.Failure? <==>
      BitCapacity(gradient, cover.Channels(), FinalThreshold(cover, secret, gradient, threshold)) < 8 * (|secret| + 1)
    ensures r.Success? ==> r.value.IsCarrier() && r.value.shape == cover.shape
  {
    var mask := FinalMask(cover, secret, gradient, threshold);
    var slots := Slots(cover, mask);
    if |slots| < |Encode(secret)| then Failure(LsbSteganography.CapacityError)
    else Success(Image(cover.shape, WriteAt(cover.samples, slots, Encode(secret))))
  }

  /** The bits `extract` reads: the LSBs of the samples of the pixels the
      mask at `threshold` selects, in raster order. */
  function MaskedStream(stego: Image, gradient: seq<int>, threshold: int): (r: seq<bool>)
    requires stego.IsCarrier() && FitsImage(gradient, stego)
    ensures |r| == BitCapacity(gradient, stego.Channels(), threshold)
  {
    Lsbs(Gather(stego.samples, Slots(stego, CreateMask(gradient, threshold))))
  }

  /** What `extract` returns: the same terminator scan as plain LSB, over
      the masked samples only. */
  function ExtractSpec(stego: Image, gradient: seq<int>, threshold: int): (r: seq<bv8>)
    requires stego.IsCarrier() && FitsImage(gradient, stego)
    ensures |r| <= Capacity(stego, gradient, threshold)
  {
    Scan(MaskedStream(stego, gradient, threshold), stego.Channels(), 0)
  }

  /** `get_embedding_capacity`, in bytes. */
  function Capacity(img: Image, gradient: seq<int>, threshold: int): (r: nat)
    ensures |img.shape| != 2 && |img.shape| != 3 ==> r == 0
    ensures img.IsCarrier() ==> r == BitCapacity(gradient, img.Channels(), threshold) / 8
  {
    var availablePixels := Ones(CreateMask(gradient, threshold), |gradient|);
    if |img.shape| == 2 then availablePixels / 8
    else if |img.shape| == 3 then availablePixels * 3 / 8
    else 0
  }

  /** One selected pixel of `embed`'s raster loop: its samples, from `first`
      on, take the next payload bits until the payload runs out. */
  method EmbedPixel(stego: array<bv8>, ghost cover: seq<bv8>, binary: seq<bool>, ghost slots: seq<nat>,
                    c: ChannelCount, first: nat, dataIndex: nat) returns (next: nat)
    requires stego.Length == |cover| && Below(slots, |cover|) && Increasing(slots)
    requires dataIndex < |binary| <= |slots| && dataIndex + c <= |slots|
    requires forall s :: dataIndex <= s < dataIndex + c ==> slots[s] == first + (s - dataIndex)
    requires stego[..] == WriteAt(cover, slots, binary[..dataIndex])
    modifies stego
    ensures next == Min(|binary|, dataIndex + c)
    ensures stego[..] == WriteAt(cover, slots, binary[..next])
  {
    next := dataIndex;
    if c == 1 {
      assert slots[next] == first;
      WriteAtStep(cover, slots, binary, next);
      stego[first] := SetLsb(stego[first], binary[next]);
      next := next + 1;
    } else {
      var k := 0;
      while k < 3
        invariant 0 <= k <= 3 && next == Min(|binary|, dataIndex + k)
        invariant stego[..] == WriteAt(cover, slots, binary[..next])
      {
        if next < |binary| {
          assert slots[next] == first + k;
          WriteAtStep(cover, slots, binary, next);
          stego[first + k] := SetLsb(stego[first + k], binary[next]);
          next := next + 1;
        }
        k := k + 1;
      }
    }
  }

  /** One pixel of `embed`'s raster loop: a selected pixel takes the next
      payload bits while any are left; any other pixel is skipped. */
  method EmbedAt(stego: array<bv8>, ghost cover: seq<bv8>, binary: seq<bool>, mask: seq<bool>,
                 c: ChannelCount, p: nat, dataIndex: nat) returns (next: nat)
    requires p < |mask| && stego.Length == |cover| == FirstSample(c, |mask|)
    requires |binary| <= |Selected(mask, c, |mask|)|
    requires Below(Selected(mask, c, |mask|), |cover|) && Increasing(Selected(mask, c, |mask|))
    requires dataIndex <= |binary| && (dataIndex < |binary| ==> dataIndex == |Selected(mask, c, p)|)
    requires stego[..] == WriteAt(cover, Selected(mask, c, |mask|), binary[..dataIndex])
    modifies stego
    ensures next <= |binary| && (next < |binary| ==> next == |Selected(mask, c, p + 1)|)
    ensures stego[..] == WriteAt(cover, Selected(mask, c, |mask|), binary[..next])
  {
    next := dataIndex;
    if mask[p] {
      SelectedNext(mask, c, p);
      if dataIndex < |binary| {
        next := EmbedPixel(stego, cover, binary, Selected(mask, c, |mask|), c, FirstSample(c, p), dataIndex);
      }
    } else {
      assert Selected(mask, c, p + 1) == Selected(mask, c, p);
    }
  }

  /** One row of `embed`'s raster loop, from pixel `start` on; it stops
      after the pixel that takes the last payload bit. */
  method EmbedRow(stego: array<bv8>, ghost cover: seq<bv8>, binary: seq<bool>, mask: seq<bool>,
                  c: ChannelCount, start: nat, width: nat, dataIndex0: nat) returns (dataIndex: nat)
    requires start + width <= |mask| && stego.Length == |cover| == FirstSample(c, |mask|)
    requires |binary| <= |Selected(mask, c, |mask|)|
    requires Below(Selected(mask, c, |mask|), |cover|) && Increasing(Selected(mask, c, |mask|))
    requires dataIndex0 <= |binary| && (dataIndex0 < |binary| ==> dataIndex0 == |Selected(mask, c, start)|)
    requires stego[..] == WriteAt(cover, Selected(mask, c, |mask|), binary[..dataIndex0])
    modifies stego
    ensures dataIndex <= |binary| && (dataIndex < |binary| ==> dataIndex == |Selected(mask, c, start + width)|)
    ensures stego[..] == WriteAt(cover, Selected(mask, c, |mask|), binary[..dataIndex])
  {
    dataIndex := dataIndex0;
    var j := 0;
    while j < width
      invariant 0 <= j <= width
      invariant dataIndex <= |binary| && (dataIndex < |binary| ==> dataIndex == |Selected(mask, c, start + j)|)
      invariant stego[..] == WriteAt(cover, Selected(mask, c, |mask|), binary[..dataIndex])
    {
      dataIndex := EmbedAt(stego, cover, binary, mask, c, start + j, dataIndex);
      if dataIndex >= |binary| {
        break;
      }
      j := j + 1;
    }
  }

  /** `embed`'s raster loop: each selected pixel takes the next payload
      bits; the loops stop after the pixel that takes the last one. */
  method EmbedRaster(stego: array<bv8>, ghost cover: seq<bv8>, binary: seq<bool>, mask: seq<bool>,
                     height: nat, width: nat, c: ChannelCount)
    requires |mask| == RowStart(height, width) && stego[..] == cover && |cover| == FirstSample(c, |mask|)
    requires |binary| <= |Selected(mask, c, |mask|)|
    requires Below(Selected(mask, c, |mask|), |cover|) && Increasing(Selected(mask, c, |mask|))
    modifies stego
    ensures stego[..] == WriteAt(cover, Selected(mask, c, |mask|), binary)
  {
    ghost var slots := Selected(mask, c, |mask|);
    var dataLen := |binary|;
    var dataIndex := 0;
    var i := 0;
    while i < height
      invariant 0 <= i <= height && RowStart(i, width) <= |mask|
      invariant dataIndex <= dataLen && (dataIndex < dataLen ==> dataIndex == |Selected(mask, c, RowStart(i, width))|)
      invariant stego[..] == WriteAt(cover, slots, binary[..dataIndex])
    {
      if 0 < width {
        PixelInRange(i, width - 1, height, width);
      }
      dataIndex := EmbedRow(stego, cover, binary, mask, c, RowStart(i, width), width, dataIndex);
      if dataIndex >= dataLen {
        break;
      }
      i := i + 1;
    }
    assert dataIndex == dataLen;
    assert binary[..dataIndex] == binary;
  }

  /** `embed`: encodes the payload, relaxes the threshold in steps of 5
      while the mask is short of bits and the threshold is positive, fails
      if the mask is still short, and otherwise writes through the mask into
      a copy of the cover. */
  method Embed(cover: Image, secret: seq<bv8>, gradient: seq<int>, threshold: int)
    returns (r: Result<Image, LsbSteganography.StegoError>)
    requires cover.IsCarrier() && FitsImage(gradient, cover)
    ensures r == EmbedSpec(cover, secret, gradient, threshold)
  {
    var c := cover.Channels();
    var mask := CreateMask(gradient, threshold);
    var binary := Encode(secret);
    var dataLen := |binary|;
    var availablePixels := Ones(mask, |mask|);
    var availableCapacity := if |cover.shape| == 3 then availablePixels * 3 else availablePixels;
    if availableCapacity < dataLen {
      var newThreshold := threshold;
      while availableCapacity < dataLen && newThreshold > 0
        invariant Relax(gradient, c, dataLen, newThreshold) == Relax(gradient, c, dataLen, threshold)
        invariant mask == CreateMask(gradient, newThreshold)
        invariant availableCapacity == BitCapacity(gradient, c, newThreshold)
        decreases newThreshold
      {
        newThreshold := newThreshold - 5;
        mask := CreateMask(gradient, newThreshold);
        availablePixels := Ones(mask, |mask|);
        availableCapacity := if |cover.shape| == 3 then availablePixels * 3 else availablePixels;
      }
      if availableCapacity < dataLen {
        return Failure(LsbSteganography.CapacityError);
      }
    }
    assert mask == FinalMask(cover, secret, gradient, threshold);
    var n := |cover.samples|;
    var stego := new bv8[n](k requires 0 <= k < n => cover.samples[k]);
    CarrierSize(cover);
    RowStartIsProduct(cover.Height(), cover.Width());
    SelectedShape(mask, c, |mask|);
    assert |binary| <= availableCapacity == |Selected(mask, c, |mask|)|;
    EmbedRaster(stego, cover.samples, binary, mask, cover.Height(), cover.Width(), c);
    return Success(Image(cover.shape, stego[..]));
  }

  /** The LSBs of the `c` samples of one pixel, appended to `binary`. */
  method ReadPixel(samples: seq<bv8>, c: ChannelCount, first: nat, binary: seq<bool>) returns (bits: seq<bool>)
    requires first + c <= |samples|
    ensures bits == binary + Lsbs(samples[first .. first + c])
  {
    if c == 1 {
      bits := binary + [Lsb(samples[first])];
    } else {
      bits := binary;
      var k := 0;
      while k < 3
        invariant 0 <= k <= 3 && bits == binary + Lsbs(samples[first .. first + k])
      {
        assert samples[first .. first + k + 1] == samples[first .. first + k] + [samples[first + k]];
        bits := bits + [Lsb(samples[first + k])];
        k := k + 1;
      }
    }
  }

  /** After a selected pixel, the bits read so far are the next prefix of
      the masked stream. */
  lemma StreamStep(samples: seq<bv8>, mask: seq<bool>, c: ChannelCount, p: nat, stream: seq<bool>, binary: seq<bool>)
    requires p < |mask| && mask[p] && |samples| == FirstSample(c, |mask|)
    requires Below(Selected(mask, c, |mask|), |samples|)
    requires stream == Lsbs(Gather(samples, Selected(mask, c, |mask|)))
    requires |binary| == |Selected(mask, c, p)| <= |stream| && binary == stream[..|binary|]
    ensures FirstSample(c, p) + c <= |samples|
    ensures |binary| + c == |Selected(mask, c, p + 1)| <= |stream|
    ensures binary + Lsbs(samples[FirstSample(c, p) .. FirstSample(c, p) + c]) == stream[.. |binary| + c]
  {
    SelectedNext(mask, c, p);
    var read, first := |binary|, FirstSample(c, p);
    GatherRun(samples, Selected(mask, c, |mask|), read, first, c);
    assert stream[.. read + c] == stream[..read] + stream[read .. read + c];
  }

  /** One pixel of `extract`'s raster loop. A selected pixel's LSBs extend
      the bits read so far to the next prefix of the masked stream; when
      they then end on the terminator, `done` is set and `bits` holds what
      precedes it, which is where the scan stops. */
  method ExtractPixel(samples: seq<bv8>, mask: seq<bool>, c: ChannelCount, p: nat,
                      ghost stream: seq<bool>, binary: seq<bool>) returns (bits: seq<bool>, done: bool)
    requires p < |mask| && |samples| == FirstSample(c, |mask|)
    requires Below(Selected(mask, c, |mask|), |samples|)
    requires stream == Lsbs(Gather(samples, Selected(mask, c, |mask|)))
    requires |binary| == |Selected(mask, c, p)| <= |stream| && binary == stream[..|binary|]
    ensures done ==> Scan(stream, c, |binary|) == DecodeGroups(bits)
    ensures !done ==> |bits| == |Selected(mask, c, p + 1)| <= |stream| && bits == stream[..|bits|]
    ensures !done ==> Scan(stream, c, |binary|) == Scan(stream, c, |bits|)
  {
    done := false;
    if mask[p] {
      StreamStep(samples, mask, c, p, stream, binary);
      bits := ReadPixel(samples, c, FirstSample(c, p), binary);
      ScanStep(stream, c, |binary|, bits);
      if |bits| % 8 == 0 && |bits| >= 8 {
        if bits[|bits| - 8 ..] == Terminator {
          bits := bits[.. |bits| - 8];
          done := true;
        }
      }
    } else {
      assert Selected(mask, c, p + 1) == Selected(mask, c, p);
      bits := binary;
    }
  }

  /** `extract`'s raster loop over the selected pixels, with the terminator
      tested after each of them. */
  method ExtractRaster(samples: seq<bv8>, mask: seq<bool>, height: nat, width: nat, c: ChannelCount)
    returns (secret: seq<bv8>)
    requires |mask| == RowStart(height, width) && |samples| == FirstSample(c, |mask|)
    requires Below(Selected(mask, c, |mask|), |samples|)
    ensures secret == Scan(Lsbs(Gather(samples, Selected(mask, c, |mask|))), c, 0)
  {
    ghost var stream := Lsbs(Gather(samples, Selected(mask, c, |mask|)));
    var binary: seq<bool> := [];
    ghost var pix := 0;
    var i := 0;
    while i < height
      invariant 0 <= i <= height && pix == RowStart(i, width) <= |mask|
      invariant |binary| == |Selected(mask, c, pix)| <= |stream| && binary == stream[..|binary|]
      invariant Scan(stream, c, |binary|) == Scan(stream, c, 0)
    {
      var j := 0;
      while j < width
        invariant 0 <= j <= width && pix == RowStart(i, width) + j <= |mask|
        invariant |binary| == |Selected(mask, c, pix)| <= |stream| && binary == stream[..|binary|]
        invariant Scan(stream, c, |binary|) == Scan(stream, c, 0)
      {
        PixelInRange(i, j, height, width);
        var done;
        binary, done := ExtractPixel(samples, mask, c, RowStart(i, width) + j, stream, binary);
        if done {
          secret := DecodeBytes(binary);
          return;
        }
        pix := pix + 1;
        j := j + 1;
      }
      i := i + 1;
    }
    assert binary == stream;
    secret := DecodeBytes(binary);
  }

  /** `extract`: recomputes the mask at `threshold` from the gradient map
      and scans the selected pixels. */
  method Extract(stego: Image, gradient: seq<int>, threshold: int) returns (secret: seq<bv8>)
    requires stego.IsCarrier() && FitsImage(gradient, stego)
    ensures secret == ExtractSpec(stego, gradient, threshold)
  {
    var mask := CreateMask(gradient, threshold);
    CarrierSize(stego);
    RowStartIsProduct(stego.Height(), stego.Width());
    SelectedShape(mask, stego.Channels(), |mask|);
    secret := ExtractRaster(stego.samples, mask, stego.Height(), stego.Width(), stego.Channels());
  }

  /** `embed` fails exactly when even the lowest threshold relaxation can
      reach leaves too few selected samples for the encoded payload, i.e.
      when the payload is not shorter than the capacity at that threshold. */
  lemma EmbedFailsIffShort(cover: Image, secret: seq<bv8>, gradient: seq<int>, threshold: int)
    requires cover.IsCarrier() && FitsImage(gradient, cover)
    ensures EmbedSpec(cover, secret, gradient, threshold).Failure?
      <==> BitCapacity(gradient, cover.Channels(), LowestThreshold(threshold)) < 8 * (|secret| + 1)
    ensures EmbedSpec(cover, secret, gradient, threshold).Failure?
      <==> |secret| >= Capacity(cover, gradient, LowestThreshold(threshold))
  {
    var c := cover.Channels();
    var mask := FinalMask(cover, secret, gradient, threshold);
    assert |Slots(cover, mask)| == BitCapacity(gradient, c, FinalThreshold(cover, secret, gradient, threshold));
    RelaxFallsShortIff(gradient, c, |Encode(secret)|, threshold);
  }

  /** What a successful embedding changes: the shape is kept; every sample
      keeps its upper seven bits and so moves by at most one; and every
      sample of a pixel the final mask leaves out equals the cover's. */
  lemma EmbedTouchesOnlyMasked(cover: Image, secret: seq<bv8>, gradient: seq<int>, threshold: int)
    requires cover.IsCarrier() && FitsImage(gradient, cover)
    requires EmbedSpec(cover, secret, gradient, threshold).Success?
    ensures EmbedSpec(cover, secret, gradient, threshold).value.IsCarrier()
    ensures EmbedSpec(cover, secret, gradient, threshold).value.shape == cover.shape
    ensures forall i :: 0 <= i < |cover.samples| ==>
      EmbedSpec(cover, secret, gradient, threshold).value.samples[i] >> 1 == cover.samples[i] >> 1 &&
      -1 <= EmbedSpec(cover, secret, gradient, threshold).value.samples[i] as int - cover.samples[i] as int <= 1
    ensures forall i :: 0 <= i < |cover.samples| ==> PixelOf(cover.Channels(), i) < |gradient|
    ensures forall i :: 0 <= i < |cover.samples| && !FinalMask(cover, secret, gradient, threshold)[PixelOf(cover.Channels(), i)] ==>
      EmbedSpec(cover, secret, gradient, threshold).value.samples[i] == cover.samples[i]
  {
    CarrierSize(cover);
    WriteThroughMask(cover.samples, FinalMask(cover, secret, gradient, threshold), cover.Channels(), Encode(secret));
  }

  /** After a successful embedding, the masked stream at the final
      threshold starts with the encoded payload. */
  lemma EmbeddedStream(cover: Image, secret: seq<bv8>, gradient: seq<int>, threshold: int)
    requires cover.IsCarrier() && FitsImage(gradient, cover)
    requires EmbedSpec(cover, secret, gradient, threshold).Success?
    ensures EmbedSpec(cover, secret, gradient, threshold).value.IsCarrier()
    ensures |Encode(secret)| <= |MaskedStream(EmbedSpec(cover, secret, gradient, threshold).value, gradient,
                                              FinalThreshold(cover, secret, gradient, threshold))|
    ensures MaskedStream(EmbedSpec(cover, secret, gradient, threshold).value, gradient,
                         FinalThreshold(cover, secret, gradient, threshold))[.. |Encode(secret)|] == Encode(secret)
  {
    var slots := Slots(cover, FinalMask(cover, secret, gradient, threshold));
    GatherWriteAt(cover.samples, slots, Encode(secret));
  }

  /** Extracting with the mask `embed` wrote through gives the payload back
      when it fits, has no zero byte and either the image is grayscale or
      the payload length is 2 modulo 3. When the caller's threshold already
      offered room for the payload, no relaxation happened and extracting at
      that same threshold suffices. */
  lemma {:induction false} RoundTrip(cover: Image, secret: seq<bv8>, gradient: seq<int>, threshold: int)
    requires cover.IsCarrier() && FitsImage(gradient, cover) && NoZeroByte(secret)
    requires |secret| < Capacity(cover, gradient, LowestThreshold(threshold))
    requires cover.Channels() == 1 || |secret| % 3 == 2
    ensures EmbedSpec(cover, secret, gradient, threshold).Success?
    ensures ExtractSpec(EmbedSpec(cover, secret, gradient, threshold).value, gradient,
                        FinalThreshold(cover, secret, gradient, threshold)) == secret
    ensures |secret| < Capacity(cover, gradient, threshold) ==>
      ExtractSpec(EmbedSpec(cover, secret, gradient, threshold).value, gradient, threshold) == secret
  {
    EmbedFailsIffShort(cover, secret, gradient, threshold);
    EmbeddedStream(cover, secret, gradient, threshold);
    var stego := EmbedSpec(cover, secret, gradient, threshold).value;
    var stream := MaskedStream(stego, gradient, FinalThreshold(cover, secret, gradient, threshold));
    EncodedPixelBoundary(secret, cover.Channels());
    ScanFindsTerminator(secret, stream, cover.Channels(), 0);
  }

  /** The colour quirk, as in plain LSB: with the mask `embed` wrote
      through, a colour payload that fits and has no zero byte comes back
      exactly if and only if its length is 2 modulo 3; otherwise the result
      runs past the payload, starting with its bytes and a zero byte. */
  lemma {:induction false} ColourRoundTrip(cover: Image, secret: seq<bv8>, gradient: seq<int>, threshold: int)
    requires cover.IsCarrier() && cover.Channels() == 3 && FitsImage(gradient, cover) && NoZeroByte(secret)
    requires |secret| < Capacity(cover, gradient, LowestThreshold(threshold))
    ensures EmbedSpec(cover, secret, gradient, threshold).Success?
    ensures (ExtractSpec(EmbedSpec(cover, secret, gradient, threshold).value, gradient,
                         FinalThreshold(cover, secret, gradient, threshold)) == secret) <==> |secret| % 3 == 2
    ensures |secret| % 3 != 2 ==>
      var out := ExtractSpec(EmbedSpec(cover, secret, gradient, threshold).value, gradient,
                             FinalThreshold(cover, secret, gradient, threshold));
      |out| > |secret| && out[.. |secret| + 1] == secret + [0]
  {
    EmbedFailsIffShort(cover, secret, gradient, threshold);
    if |secret| % 3 == 2 {
      RoundTrip(cover, secret, gradient, threshold);
    } else {
      EmbeddedStream(cover, secret, gradient, threshold);
      var stego := EmbedSpec(cover, secret, gradient, threshold).value;
      ScanSkipsTerminator(secret, MaskedStream(stego, gradient, FinalThreshold(cover, secret, gradient, threshold)), 0);
    }
  }

  /** `get_embedding_capacity` never decreases as the threshold falls. */
  lemma CapacityGrowsAsThresholdFalls(img: Image, gradient: seq<int>, lower: int, higher: int)
    requires img.IsCarrier() && lower <= higher
    ensures Capacity(img, gradient, higher) <= Capacity(img, gradient, lower)
  {
    CapacityMonotone(gradient, img.Channels(), lower, higher);
  }
}
