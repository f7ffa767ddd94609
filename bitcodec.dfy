/** The bit stream both embedders share: every payload byte becomes eight
    bits, most significant first, followed by an all-zero terminator byte;
    a bit is stored in a sample by `(p & 0xFE) | bit`; extraction reads the
    least significant bits back, tests for the terminator only when a whole
    pixel has been read and the bit count is a multiple of eight, and
    otherwise decodes every complete byte it read. */
module BitCodec {

  /** `v & 1`: the least significant bit of a sample. */
  function Lsb(v: bv8): bool
  {
    v & 1 == 1
  }

  /** The least significant bits of a run of samples, in order. */
  function Lsbs(samples: seq<bv8>): (r: seq<bool>)
    ensures |r| == |samples|
  {
    seq(|samples|, i requires 0 <= i < |samples| => Lsb(samples[i]))
  }

  /** Reading one more sample extends the collected prefix of the stream. */
  lemma LsbsPrefixStep(samples: seq<bv8>, m: nat, bits: seq<bool>)
    requires m < |samples| && bits == Lsbs(samples)[..m]
    ensures bits + [Lsb(samples[m])] == Lsbs(samples)[..m + 1]
  {
  }

  /** The write rule `(p & 0xFE) | bit`. */
  function SetLsb(p: bv8, bit: bool): (r: bv8)
    ensures r >> 1 == p >> 1
    ensures Lsb(r) == bit
  {
    (p & 0xFE) | (if bit then 1 else 0)
  }

  /** A written sample differs from the cover sample by at most one. */
  lemma SetLsbWithinOne(p: bv8, bit: bool)
    ensures -1 <= SetLsb(p, bit) as int - p as int <= 1
  {
    var r := SetLsb(p, bit);
    assert r == p || r == p ^ 1;
    if r != p {
      if p & 1 == 0 {
        assert r == p + 1;
      } else {
        assert r == p - 1;
      }
    }
  }

  /** `1 << k`, spelled out so that no shift by a variable amount is needed. */
  function BitMask(k: nat): bv8
    requires k < 8
  {
    if k == 0 then 0x01 else if k == 1 then 0x02 else if k == 2 then 0x04 else if k == 3 then 0x08
    else if k == 4 then 0x10 else if k == 5 then 0x20 else if k == 6 then 0x40 else 0x80
  }

  /** `(v >> k) & 1`: bit `k` of `v`, bit 0 being the least significant. */
  function BitOf(v: bv8, k: nat): bool
    requires k < 8
  {
    v & BitMask(k) != 0
  }

  /** `format(c, '08b')`: the eight bits of `c`, most significant first. */
  function ByteBits(c: bv8): (r: seq<bool>)
    ensures |r| == 8
  {
    seq(8, k requires 0 <= k < 8 => BitOf(c, 7 - k))
  }

  /** The value of bit `b` standing at position `k`. */
  function BitValue(b: bool, k: nat): bv8
    requires k < 8
  {
    if b then BitMask(k) else 0
  }

  /** The value of a group of at most eight bits, the first one most significant. */
  function GroupValue(group: seq<bool>): bv8
    requires |group| <= 8
  {
    if group == [] then 0 else BitValue(group[0], |group| - 1) | GroupValue(group[1..])
  }

  /** `int(group, 2)` for a group of eight bits: the byte whose eight bits,
      most significant first, are the group. */
  function ByteOf(group: seq<bool>): (r: bv8)
    requires |group| == 8
    ensures ByteBits(r) == group
  {
    GroupValueSpelledOut(group);
    GroupValue(group)
  }

  /** The value of eight bits, one position at a time. */
  lemma GroupValueSpelledOut(g: seq<bool>)
    requires |g| == 8
    ensures GroupValue(g) == BitValue(g[0], 7) | (BitValue(g[1], 6) | (BitValue(g[2], 5) | (BitValue(g[3], 4) |
                         (BitValue(g[4], 3) | (BitValue(g[5], 2) | (BitValue(g[6], 1) | BitValue(g[7], 0)))))))
  {
    assert g[0..] == g && GroupValue(g[8..]) == 0;
    GroupValueStep(g, 7);
    GroupValueStep(g, 6);
    GroupValueStep(g, 5);
    GroupValueStep(g, 4);
    GroupValueStep(g, 3);
    GroupValueStep(g, 2);
    GroupValueStep(g, 1);
    GroupValueStep(g, 0);
  }

  /** Peeling the first bit off the suffix of `g` from `k`. */
  lemma GroupValueStep(g: seq<bool>, k: nat)
    requires k < |g| <= 8
    ensures GroupValue(g[k..]) == BitValue(g[k], |g| - 1 - k) | GroupValue(g[k + 1 ..])
  {
    assert g[k..][1..] == g[k + 1 ..];
  }

  /** Decoding a byte's bits gives the byte back. */
  lemma ByteOfByteBits(c: bv8)
    ensures ByteOf(ByteBits(c)) == c
  {
    GroupValueSpelledOut(ByteBits(c));
  }

  /** The terminator `'00000000'`. */
  const Terminator: seq<bool> := [false, false, false, false, false, false, false, false]

  /** A group of eight bits is the terminator exactly when it encodes the byte 0. */
  lemma TerminatorIsZeroByte(c: bv8)
    ensures ByteBits(c) == Terminator <==> c == 0
  {
    var b := ByteBits(c);
    if b == Terminator {
      assert !b[0] && !b[1] && !b[2] && !b[3] && !b[4] && !b[5] && !b[6] && !b[7];
    }
  }

  /** `''.join(format(ord(ch), '08b') for ch in secret)`. */
  function PayloadBits(s: seq<bv8>): (r: seq<bool>)
    ensures |r| == 8 * |s|
  {
    if s == [] then [] else ByteBits(s[0]) + PayloadBits(s[1..])
  }

  /** Byte `g` of the payload occupies bits `8g .. 8g+8` of the stream. */
  lemma {:induction false} PayloadBitsGroup(s: seq<bv8>, g: nat)
    requires g < |s|
    ensures PayloadBits(s)[8 * g .. 8 * g + 8] == ByteBits(s[g])
  {
    if g > 0 {
      PayloadBitsGroup(s[1..], g - 1);
      assert PayloadBits(s) == ByteBits(s[0]) + PayloadBits(s[1..]);
      assert PayloadBits(s)[8 * g .. 8 * g + 8] == PayloadBits(s[1..])[8 * (g - 1) .. 8 * (g - 1) + 8];
    }
  }

  /** The embedded bit sequence: the payload bits followed by the terminator. */
  function Encode(s: seq<bv8>): (r: seq<bool>)
    ensures |r| == 8 * (|s| + 1)
    ensures r[8 * |s| ..] == Terminator
    ensures r[.. 8 * |s|] == PayloadBits(s)
  {
    PayloadBits(s) + Terminator
  }

  /** The fallback decode: every complete group of eight bits becomes a byte;
      a trailing partial group is dropped. */
  function DecodeGroups(bits: seq<bool>): (r: seq<bv8>)
    ensures |r| == |bits| / 8
    decreases |bits|
  {
    if |bits| < 8 then [] else [ByteOf(bits[..8])] + DecodeGroups(bits[8..])
  }

  /** Byte `g` of the decoded string is the value of bits `8g .. 8g+8`. */
  lemma {:induction false} DecodeGroupsAt(bits: seq<bool>, g: nat)
    requires g < |bits| / 8
    ensures DecodeGroups(bits)[g] == ByteOf(bits[8 * g .. 8 * g + 8])
    decreases g
  {
    assert 8 * g + 8 <= |bits|;
    if g > 0 {
      var rest, k := bits[8..], 8 * (g - 1);
      assert |rest| / 8 == |bits| / 8 - 1 && k + 8 == 8 * g && k + 8 <= |rest|;
      DecodeGroupsAt(rest, g - 1);
      assert rest[k .. k + 8] == bits[k + 8 .. k + 16];
    }
  }

  /** The decode loop of both extractors: walks the bit string in steps of
      eight and turns each complete group into a byte. */
  method DecodeBytes(bits: seq<bool>) returns (data: seq<bv8>)
    ensures data == DecodeGroups(bits)
  {
    data := [];
    var b := 0;
    while b < |bits|
      invariant b <= |bits| ==> data + DecodeGroups(bits[b..]) == DecodeGroups(bits)
      invariant b > |bits| ==> data == DecodeGroups(bits)
      decreases |bits| - b
    {
      var group := bits[b .. if b + 8 <= |bits| then b + 8 else |bits|];
      if |group| == 8 {
        assert bits[b..][..8] == group && bits[b..][8..] == bits[b + 8 ..];
        data := data + [ByteOf(group)];
      }
      b := b + 8;
    }
  }

  /** Decoding undoes the payload encoding, whatever follows it. */
  lemma {:induction false} DecodePayloadBits(s: seq<bv8>, tail: seq<bool>)
    ensures DecodeGroups(PayloadBits(s) + tail) == s + DecodeGroups(tail)
  {
    if s != [] {
      var head, rest := ByteBits(s[0]), PayloadBits(s[1..]) + tail;
      var bits := PayloadBits(s) + tail;
      assert bits == head + rest;
      assert bits[..8] == head;
      assert bits[8..] == rest;
      ByteOfByteBits(s[0]);
      DecodePayloadBits(s[1..], tail);
      calc {
        DecodeGroups(bits);
        [ByteOf(bits[..8])] + DecodeGroups(bits[8..]);
        [s[0]] + (s[1..] + DecodeGroups(tail));
        { assert s == [s[0]] + s[1..]; }
        s + DecodeGroups(tail);
      }
    } else {
      assert PayloadBits(s) + tail == tail;
    }
  }

  /** Bits per pixel: one for a 2-D (grayscale) image, three for a colour one. */
  type ChannelCount = c: nat | c == 1 || c == 3 witness 1

  /** Whether `n` bits make a whole number of pixels of `c` bits. */
  predicate AtPixelBoundary(n: nat, c: ChannelCount)
  {
    c == 1 || n % 3 == 0
  }

  /** The terminator scan tests the last eight bits only at these bit counts. */
  predicate IsCheckpoint(n: nat)
  {
    n >= 8 && n % 8 == 0
  }

  /** The encoded payload ends on a pixel boundary exactly when the image
      is grayscale or the payload length is 2 modulo 3. */
  lemma EncodedPixelBoundary(s: seq<bv8>, c: ChannelCount)
    ensures AtPixelBoundary(|Encode(s)|, c) <==> c == 1 || |s| % 3 == 2
  {
    if c == 3 {
      var q := |s| / 3;
      assert |s| == 3 * q + |s| % 3;
      assert |Encode(s)| == 3 * (8 * q) + 8 * (|s| % 3 + 1);
    }
  }

  /** What extraction returns from `stream`, the least significant bits of
      the samples it visits, `c` of them per pixel, having read the first
      `read` of them without finding the terminator. */
  function Scan(stream: seq<bool>, c: ChannelCount, read: nat): (r: seq<bv8>)
    requires read <= |stream|
    ensures 8 * |r| <= |stream|
    decreases |stream| - read
  {
    if read + c > |stream| then DecodeGroups(stream)
    else
      var n := read + c;
      if IsCheckpoint(n) && stream[n - 8 .. n] == Terminator then DecodeGroups(stream[.. n - 8])
      else Scan(stream, c, n)
  }

  /** One step of the scan, seen from an extractor that has collected the
      first `read + c` bits of the stream in `bits`: the scan stops with the
      bytes before the terminator exactly when `bits` ends on a byte
      boundary with eight zero bits. */
  lemma ScanStep(stream: seq<bool>, c: ChannelCount, read: nat, bits: seq<bool>)
    requires read + c <= |stream| && bits == stream[.. read + c]
    ensures |bits| % 8 == 0 && bits[|bits| - 8 ..] == Terminator ==>
      Scan(stream, c, read) == DecodeGroups(bits[.. |bits| - 8])
    ensures !(|bits| % 8 == 0 && bits[|bits| - 8 ..] == Terminator) ==>
      Scan(stream, c, read) == Scan(stream, c, read + c)
  {
    var n := read + c;
    if n >= 8 {
      assert bits[n - 8 ..] == stream[n - 8 .. n];
      assert bits[.. n - 8] == stream[.. n - 8];
    }
  }

  /** The scan reads one more pixel when the pixel just read does not end
      on the terminator. */
  lemma ScanContinues(stream: seq<bool>, c: ChannelCount, read: nat)
    requires read + c <= |stream|
    requires !(IsCheckpoint(read + c) && stream[read + c - 8 .. read + c] == Terminator)
    ensures Scan(stream, c, read) == Scan(stream, c, read + c)
  {
  }

  /** The scan stops when the pixel just read ends on the terminator. */
  lemma ScanStops(stream: seq<bool>, c: ChannelCount, read: nat)
    requires read + c <= |stream|
    requires IsCheckpoint(read + c) && stream[read + c - 8 .. read + c] == Terminator
    ensures Scan(stream, c, read) == DecodeGroups(stream[.. read + c - 8])
  {
  }

  predicate NoZeroByte(s: seq<bv8>)
  {
    forall g :: 0 <= g < |s| ==> s[g] != 0
  }

  /** A byte-aligned group inside the encoded payload is never the terminator. */
  lemma PayloadGroupNotTerminator(s: seq<bv8>, stream: seq<bool>, n: nat)
    requires NoZeroByte(s)
    requires |Encode(s)| <= |stream| && stream[.. |Encode(s)|] == Encode(s)
    requires IsCheckpoint(n) && n < |Encode(s)|
    ensures stream[n - 8 .. n] != Terminator
  {
    var g := n / 8 - 1;
    assert 8 * g + 8 == n <= 8 * |s|;
    PayloadBitsGroup(s, g);
    assert stream[n - 8 .. n] == Encode(s)[n - 8 .. n];
    assert Encode(s)[n - 8 .. n] == PayloadBits(s)[n - 8 .. n];
    TerminatorIsZeroByte(s[g]);
  }

  /** The terminator ends the encoded payload, and what precedes it decodes to the payload. */
  lemma EncodedTerminator(s: seq<bv8>, stream: seq<bool>)
    requires |Encode(s)| <= |stream| && stream[.. |Encode(s)|] == Encode(s)
    ensures stream[|Encode(s)| - 8 .. |Encode(s)|] == Terminator
    ensures DecodeGroups(stream[.. |Encode(s)| - 8]) == s
  {
    var m := |Encode(s)|;
    assert stream[m - 8 .. m] == Encode(s)[8 * |s| ..];
    assert stream[.. m - 8] == PayloadBits(s) + [];
    DecodePayloadBits(s, []);
  }

  /** From one pixel boundary below `m`, the next one is not past `m`. */
  lemma NextPixelBoundary(read: nat, m: nat, c: ChannelCount)
    requires AtPixelBoundary(read, c) && AtPixelBoundary(m, c) && read < m
    ensures read + c <= m && AtPixelBoundary(read + c, c)
  {
    if c == 3 {
      assert (m - read) % 3 == 0;
    }
  }

  /** Once the stream starts with an encoded payload without zero bytes, and
      the terminator ends at a pixel boundary, the scan returns exactly the
      payload. */
  lemma {:induction false} ScanFindsTerminator(s: seq<bv8>, stream: seq<bool>, c: ChannelCount, read: nat)
    requires NoZeroByte(s)
    requires |Encode(s)| <= |stream| && stream[.. |Encode(s)|] == Encode(s)
    requires AtPixelBoundary(|Encode(s)|, c)
    requires AtPixelBoundary(read, c) && read < |Encode(s)|
    ensures Scan(stream, c, read) == s
    decreases |stream| - read
  {
    var m := |Encode(s)|;
    var n := read + c;
    NextPixelBoundary(read, m, c);
    if n == m {
      EncodedTerminator(s, stream);
      ScanStops(stream, c, read);
    } else {
      if IsCheckpoint(n) {
        PayloadGroupNotTerminator(s, stream, n);
      }
      ScanContinues(stream, c, read);
      ScanFindsTerminator(s, stream, c, n);
    }
  }

  /** When no group the scan tests is the terminator, it decodes every
      complete byte of the stream. */
  lemma {:induction false} ScanWithoutTerminator(stream: seq<bool>, c: ChannelCount, read: nat)
    requires read <= |stream| && AtPixelBoundary(read, c)
    requires forall n :: read < n <= |stream| && AtPixelBoundary(n, c) && IsCheckpoint(n) ==> stream[n - 8 .. n] != Terminator
    ensures Scan(stream, c, read) == DecodeGroups(stream)
    decreases |stream| - read
  {
    if read + c <= |stream| {
      ScanWithoutTerminator(stream, c, read + c);
    }
  }

  /** Decoding any stream that starts with an encoded payload yields the
      payload followed by the terminator's zero byte. */
  lemma DecodeEncodedPrefix(s: seq<bv8>, bits: seq<bool>)
    requires |Encode(s)| <= |bits| && bits[.. |Encode(s)|] == Encode(s)
    ensures |DecodeGroups(bits)| > |s|
    ensures DecodeGroups(bits)[.. |s| + 1] == s + [0]
  {
    var m := |Encode(s)|;
    TerminatorIsZeroByte(0);
    PayloadBitsAppend(s, 0);
    assert bits == PayloadBits(s + [0]) + bits[m..];
    DecodePayloadBits(s + [0], bits[m..]);
    assert DecodeGroups(bits)[.. |s| + 1] == (s + [0] + DecodeGroups(bits[m..]))[.. |s| + 1];
  }

  /** Colour quirk: with three bits per pixel the terminator after `s` is
      tested only when `|s| % 3 == 2`. Otherwise the scan runs past it, and
      what it returns starts with the payload followed by a zero byte. */
  lemma {:induction false} ScanSkipsTerminator(s: seq<bv8>, stream: seq<bool>, pixels: nat)
    requires |s| % 3 != 2
    requires NoZeroByte(s)
    requires |Encode(s)| <= |stream| && stream[.. |Encode(s)|] == Encode(s)
    requires 3 * pixels <= |stream|
    ensures |Scan(stream, 3, 3 * pixels)| > |s|
    ensures Scan(stream, 3, 3 * pixels)[.. |s| + 1] == s + [0]
    decreases |stream| - 3 * pixels
  {
    var m := |Encode(s)|;
    var read, n := 3 * pixels, 3 * (pixels + 1);
    if n > |stream| {
      DecodeEncodedPrefix(s, stream);
    } else if IsCheckpoint(n) && stream[n - 8 .. n] == Terminator {
      assert n != m by {
        assert m == 8 * (|s| + 1);
        assert (|s| + 1) % 3 != 0;
      }
      if n < m {
        PayloadGroupNotTerminator(s, stream, n);
      }
      assert n - 8 >= m;
      ScanStops(stream, 3, read);
      assert stream[.. n - 8][.. m] == Encode(s);
      DecodeEncodedPrefix(s, stream[.. n - 8]);
    } else {
      ScanContinues(stream, 3, read);
      ScanSkipsTerminator(s, stream, pixels + 1);
    }
  }

  lemma {:induction false} PayloadBitsAppend(s: seq<bv8>, c: bv8)
    ensures PayloadBits(s + [c]) == PayloadBits(s) + ByteBits(c)
  {
    if s != [] {
      assert (s + [c])[1..] == s[1..] + [c];
      PayloadBitsAppend(s[1..], c);
    } else {
      assert [c][1..] == [];
    }
  }
}
