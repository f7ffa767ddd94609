/** Plain LSB steganography: the payload bits go, one per sample, into the
    least significant bits of the first samples of the image in raster,
    channel-minor order. */
module LsbSteganography {
  import opened Outcomes
  import opened BitCodec
  import opened Images

  /** Raised when the image has fewer samples than the payload has bits. */
  datatype StegoError = CapacityError

  /** The cover samples with the first `|bits|` of them carrying `bits`
      in their least significant bits. */
  function WritePrefix(samples: seq<bv8>, bits: seq<bool>): (r: seq<bv8>)
    requires |bits| <= |samples|
  {
    seq(|samples|, i requires 0 <= i < |samples| => if i < |bits| then SetLsb(samples[i], bits[i]) else samples[i])
  }

  /** What `embed` returns. */
  function EmbedSpec(cover: Image, secret: seq<bv8>): (r: Result<Image, StegoError>)
    requires cover.IsCarrier()
    ensures r.Failure? <==> |cover.samples| < 8 * (|secret| + 1)
    ensures r.Success? ==> r.value.IsCarrier() && r.value.shape == cover.shape
  {
    if |cover.samples| < |Encode(secret)| then Failure(CapacityError)
    else Success(Image(cover.shape, WritePrefix(cover.samples, Encode(secret))))
  }

  /** What `extract` returns: the terminator scan over every sample's LSB. */
  function ExtractSpec(stego: Image): (r: seq<bv8>)
    requires stego.IsCarrier()
    ensures |r| <= |stego.samples| / 8
  {
    Scan(Lsbs(stego.samples), stego.Channels(), 0)
  }

  /** `get_embedding_capacity`, in bytes: one bit per sample of a carrier,
      the terminator byte included. */
  function Capacity(img: Image): (r: nat)
    ensures img.IsCarrier() ==> r == |img.samples| / 8
    ensures |img.shape| != 2 && |img.shape| != 3 ==> r == 0
  {
    if |img.shape| == 2 then Size(img.shape) / 8
    else if |img.shape| == 3 then
      CarrierSamples(img);
      img.shape[0] * img.shape[1] * 3 / 8
    else 0
  }

  lemma CarrierSamples(img: Image)
    requires |img.shape| == 3
    ensures img.IsCarrier() ==> |img.samples| == img.shape[0] * img.shape[1] * 3
  {
    if img.IsCarrier() {
      CarrierSize(img);
    }
  }

  /** Writing one more payload bit extends the written prefix by one sample. */
  lemma WritePrefixStep(samples: seq<bv8>, bits: seq<bool>, d: nat)
    requires d < |bits| <= |samples|
    ensures WritePrefix(samples, bits[..d])[d] == samples[d]
    ensures WritePrefix(samples, bits[..d + 1])
         == WritePrefix(samples, bits[..d])[d := SetLsb(samples[d], bits[d])]
  {
  }

  /** One pixel of `embed`'s raster loop: its samples, from `first` on,
      take the next payload bits until the payload runs out. */
  method EmbedPixel(stego: array<bv8>, ghost cover: seq<bv8>, binary: seq<bool>,
                    c: ChannelCount, first: nat) returns (next: nat)
    requires |binary| <= |cover| == stego.Length && first + c <= |cover|
    requires first < |binary| && stego[..] == WritePrefix(cover, binary[..first])
    modifies stego
    ensures next == Min(|binary|, first + c)
    ensures stego[..] == WritePrefix(cover, binary[..next])
  {
    next := first;
    if c == 1 {
      WritePrefixStep(cover, binary, next);
      stego[first] := SetLsb(stego[first], binary[next]);
      next := next + 1;
    } else {
      var k := 0;
      while k < 3
        invariant 0 <= k <= 3
        invariant next == Min(|binary|, first + k)
        invariant stego[..] == WritePrefix(cover, binary[..next])
      {
        if next < |binary| {
          WritePrefixStep(cover, binary, next);
          stego[first + k] := SetLsb(stego[first + k], binary[next]);
          next := next + 1;
        }
        k := k + 1;
      }
    }
  }

  /** `embed`'s raster loop: rows, then pixels, each pixel taking the next
      payload bits, until the pixel after the last payload bit. */
  method EmbedRaster(stego: array<bv8>, ghost cover: seq<bv8>, binary: seq<bool>,
                     height: nat, width: nat, c: ChannelCount)
    requires stego[..] == cover && |binary| <= |cover| == FirstSample(c, RowStart(height, width))
    modifies stego
    ensures stego[..] == WritePrefix(cover, binary)
  {
    var dataLen := |binary|;
    var dataIndex := 0;
    var i := 0;
    while i < height
      invariant 0 <= i <= height && RowStart(i, width) <= RowStart(height, width)
      invariant dataIndex == Min(dataLen, FirstSample(c, RowStart(i, width)))
      invariant stego[..] == WritePrefix(cover, binary[..dataIndex])
    {
      var j := 0;
      while j < width
        invariant 0 <= j <= width && RowStart(i, width) + j <= RowStart(height, width)
        invariant dataIndex == Min(dataLen, FirstSample(c, RowStart(i, width) + j))
        invariant stego[..] == WritePrefix(cover, binary[..dataIndex])
      {
        PixelInRange(i, j, height, width);
        if dataIndex < dataLen {
          var first := FirstSample(c, RowStart(i, width) + j);
          assert first == dataIndex && first + c <= |cover|;
          dataIndex := EmbedPixel(stego, cover, binary, c, first);
        } else {
          break;
        }
        j := j + 1;
      }
      if dataIndex >= dataLen {
        break;
      }
      i := i + 1;
    }
    assert binary[..dataIndex] == binary;
  }

  /** `embed`: checks the capacity, copies the cover and writes the encoded
      payload into the copy. */
  method Embed(cover: Image, secret: seq<bv8>) returns (r: Result<Image, StegoError>)
    requires cover.IsCarrier()
    ensures r == EmbedSpec(cover, secret)
  {
    var binary := Encode(secret);
    if |cover.samples| < |binary| {
      return Failure(CapacityError);
    }
    var n := |cover.samples|;
    var stego := new bv8[n](i requires 0 <= i < n => cover.samples[i]);
    CarrierRows(cover);
    EmbedRaster(stego, cover.samples, binary, cover.Height(), cover.Width(), cover.Channels());
    return Success(Image(cover.shape, stego[..]));
  }

  /** One pixel of `extract`'s raster loop: appends the LSBs of its samples,
      from `first` on, to the bits collected so far. */
  method ReadPixel(samples: seq<bv8>, c: ChannelCount, first: nat, binary: seq<bool>)
    returns (bits: seq<bool>)
    requires first + c <= |samples| && binary == Lsbs(samples)[..first]
    ensures |bits| == first + c && bits == Lsbs(samples)[..first + c]
  {
    bits := binary;
    if c == 1 {
      LsbsPrefixStep(samples, first, bits);
      bits := bits + [Lsb(samples[first])];
    } else {
      var k := 0;
      while k < 3
        invariant 0 <= k <= 3 && bits == Lsbs(samples)[..first + k]
      {
        LsbsPrefixStep(samples, first + k, bits);
        bits := bits + [Lsb(samples[first + k])];
        k := k + 1;
      }
    }
  }

  /** One pixel of `extract`'s raster loop with its terminator test: after
      the pixel's bits are appended, a bit count that is a multiple of eight
      and ends in the terminator finishes the scan with the bytes before it. */
  method ExtractPixel(samples: seq<bv8>, c: ChannelCount, binary: seq<bool>)
    returns (bits: seq<bool>, done: bool, secret: seq<bv8>)
    requires |binary| + c <= |samples| && binary == Lsbs(samples)[..|binary|]
    ensures done ==> secret == Scan(Lsbs(samples), c, |binary|)
    ensures !done ==> |bits| == |binary| + c && bits == Lsbs(samples)[..|bits|]
    ensures !done ==> Scan(Lsbs(samples), c, |binary|) == Scan(Lsbs(samples), c, |bits|)
  {
    var read := |binary|;
    bits := ReadPixel(samples, c, read, binary);
    ScanStep(Lsbs(samples), c, read, bits);
    done, secret := false, [];
    if |bits| % 8 == 0 {
      if bits[|bits| - 8 ..] == Terminator {
        bits := bits[.. |bits| - 8];
        secret := DecodeBytes(bits);
        done := true;
      }
    }
  }

  /** `extract`'s raster loop: collects the LSBs pixel by pixel, stopping at
      the terminator; without one it decodes every complete byte collected. */
  method ExtractRaster(samples: seq<bv8>, height: nat, width: nat, c: ChannelCount)
    returns (secret: seq<bv8>)
    requires |samples| == FirstSample(c, RowStart(height, width))
    ensures secret == Scan(Lsbs(samples), c, 0)
  {
    ghost var stream := Lsbs(samples);
    var binary: seq<bool> := [];
    ghost var pix := 0;
    var i := 0;
    while i < height
      invariant 0 <= i <= height && pix == RowStart(i, width) <= RowStart(height, width)
      invariant |binary| == FirstSample(c, pix) && binary == stream[..|binary|]
      invariant Scan(stream, c, |binary|) == Scan(stream, c, 0)
    {
      var j := 0;
      while j < width
        invariant 0 <= j <= width && pix == RowStart(i, width) + j <= RowStart(height, width)
        invariant |binary| == FirstSample(c, pix) && binary == stream[..|binary|]
        invariant Scan(stream, c, |binary|) == Scan(stream, c, 0)
      {
        PixelInRange(i, j, height, width);
        var done;
        binary, done, secret := ExtractPixel(samples, c, binary);
        if done {
          return;
        }
        j := j + 1;
        pix := pix + 1;
      }
      i := i + 1;
    }
    assert binary == stream;
    secret := DecodeBytes(binary);
  }

  /** `extract`. */
  method Extract(stego: Image) returns (secret: seq<bv8>)
    requires stego.IsCarrier()
    ensures secret == ExtractSpec(stego)
  {
    CarrierRows(stego);
    secret := ExtractRaster(stego.samples, stego.Height(), stego.Width(), stego.Channels());
  }

  /** The capacity check: embedding fails exactly when the image has fewer
      samples than the payload and its terminator have bits, that is, when
      the payload is not shorter than the capacity in bytes. */
  lemma EmbedFailsIffOverCapacity(cover: Image, secret: seq<bv8>)
    requires cover.IsCarrier()
    ensures EmbedSpec(cover, secret).Failure? <==> |cover.samples| < 8 * (|secret| + 1)
    ensures EmbedSpec(cover, secret).Failure? <==> |secret| >= Capacity(cover)
  {
  }

  /** What a successful embedding changes: the shape is kept; every sample
      keeps its upper seven bits and so moves by at most one; the first
      8 * (|secret| + 1) samples carry the encoded payload in their LSBs and
      every later sample equals the cover's. */
  lemma EmbedTouchesOnlyLsbs(cover: Image, secret: seq<bv8>)
    requires cover.IsCarrier() && EmbedSpec(cover, secret).Success?
    ensures EmbedSpec(cover, secret).value.IsCarrier()
    ensures EmbedSpec(cover, secret).value.shape == cover.shape
    ensures forall i :: 0 <= i < |cover.samples| ==>
      EmbedSpec(cover, secret).value.samples[i] >> 1 == cover.samples[i] >> 1 &&
      -1 <= EmbedSpec(cover, secret).value.samples[i] as int - cover.samples[i] as int <= 1
    ensures forall i :: 8 * (|secret| + 1) <= i < |cover.samples| ==>
      EmbedSpec(cover, secret).value.samples[i] == cover.samples[i]
    ensures Lsbs(EmbedSpec(cover, secret).value.samples)[.. 8 * (|secret| + 1)] == Encode(secret)
  {
    var stego := EmbedSpec(cover, secret).value.samples;
    forall i | 0 <= i < |cover.samples|
      ensures stego[i] >> 1 == cover.samples[i] >> 1
      ensures -1 <= stego[i] as int - cover.samples[i] as int <= 1
    {
      if i < |Encode(secret)| {
        SetLsbWithinOne(cover.samples[i], Encode(secret)[i]);
      }
    }
  }

  /** Embedding then extracting gives the payload back when it fits, has no
      zero byte and either the image is grayscale or the payload length is
      2 modulo 3, so that the terminator ends on a pixel boundary. */
  lemma {:induction false} RoundTrip(cover: Image, secret: seq<bv8>)
    requires cover.IsCarrier() && |secret| < Capacity(cover) && NoZeroByte(secret)
    requires cover.Channels() == 1 || |secret| % 3 == 2
    ensures EmbedSpec(cover, secret).Success?
    ensures ExtractSpec(EmbedSpec(cover, secret).value) == secret
  {
    EmbedTouchesOnlyLsbs(cover, secret);
    var stego := EmbedSpec(cover, secret).value;
    var stream := Lsbs(stego.samples);
    EncodedPixelBoundary(secret, cover.Channels());
    ScanFindsTerminator(secret, stream, cover.Channels(), 0);
  }

  /** The colour quirk: the terminator is only looked for every 24 bits, so
      a payload that fits and has no zero byte comes back exactly if and only
      if its length is 2 modulo 3; otherwise the result runs past the
      payload, whose bytes it starts with, followed by the terminator's zero
      byte. */
  lemma {:induction false} ColourRoundTrip(cover: Image, secret: seq<bv8>)
    requires cover.IsCarrier() && cover.Channels() == 3
    requires |secret| < Capacity(cover) && NoZeroByte(secret)
    ensures EmbedSpec(cover, secret).Success?
    ensures ExtractSpec(EmbedSpec(cover, secret).value) == secret <==> |secret| % 3 == 2
    ensures |secret| % 3 != 2 ==>
      |ExtractSpec(EmbedSpec(cover, secret).value)| > |secret| &&
      ExtractSpec(EmbedSpec(cover, secret).value)[.. |secret| + 1] == secret + [0]
  {
    EmbedTouchesOnlyLsbs(cover, secret);
    if |secret| % 3 == 2 {
      RoundTrip(cover, secret);
    } else {
      var stego := EmbedSpec(cover, secret).value;
      ScanSkipsTerminator(secret, Lsbs(stego.samples), 0);
    }
  }

  /** Without an all-zero byte at any checked pixel boundary, extraction
      decodes every complete byte of the LSB stream and drops the partial
      one. */
  lemma ExtractWithoutTerminator(stego: Image)
    requires stego.IsCarrier()
    requires forall n :: 0 < n <= |stego.samples| && AtPixelBoundary(n, stego.Channels()) && IsCheckpoint(n) ==>
      Lsbs(stego.samples)[n - 8 .. n] != Terminator
    ensures ExtractSpec(stego) == DecodeGroups(Lsbs(stego.samples))
    ensures |ExtractSpec(stego)| == |stego.samples| / 8
  {
    ScanWithoutTerminator(Lsbs(stego.samples), stego.Channels(), 0);
  }
}
