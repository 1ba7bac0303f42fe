/**
 * The LSB steganography codec of keylogger.py: `embed_bytes_in_image` hides a byte
 * payload, behind a 32-bit big-endian length header, in the least significant bits of
 * the R, G and B channels of an image's pixels; `extract_bytes_from_image` reads it back.
 *
 * Each operation is given twice: a specification function (`Embed`, `Extract`) and a
 * method that performs keylogger.py's loop and is proved equal to it.
 */
module PixelCodec {
  import opened Wrappers
  import opened BitPacker

  /**
   * One entry of an image's pixel list. Images are converted to RGBA before embedding,
   * but `embed_bytes_in_image` also accepts 3-tuples, for which alpha is taken as 255.
   */
  datatype Pixel =
    | Rgb(r: Byte, g: Byte, b: Byte)
    | Rgba(r: Byte, g: Byte, b: Byte, a: Byte)
  {
    /** The alpha channel the embedder writes out. */
    function Alpha(): Byte
    {
      if Rgba? then a else 255
    }

    /** Channel 0, 1 or 2: red, green or blue. */
    function Channel(k: nat): Byte
      requires k < 3
    {
      if k == 0 then r else if k == 1 then g else b
    }
  }

  /** `struct.pack("!I", n)` rejects lengths from 2^32 on. */
  const MaxLength: nat := 0x1_0000_0000

  /** The number of header bits. */
  const HeaderBits: nat := 32

  lemma Pow2HeaderBits()
    ensures Pow2(8) == 256
    ensures Pow2(HeaderBits) == MaxLength
  {
    assert Pow2(8) == 256;
    Pow2Add(8, 8);
    assert Pow2(16) == 0x1_0000;
    Pow2Add(16, 16);
  }

  /** The unsigned integer a byte string denotes in network (big-endian) order. */
  function BigEndian(bytes: seq<Byte>): nat
  {
    if bytes == [] then 0 else BigEndian(bytes[..|bytes| - 1]) * 256 + bytes[|bytes| - 1]
  }

  /** `struct.pack("!I", n)`: four bytes, most significant first. */
  function Header(n: nat): (h: seq<Byte>)
    requires n < MaxLength
    ensures |h| == 4
  {
    var q1 := n / 256;
    var q2 := q1 / 256;
    var q3 := q2 / 256;
    [q3, q2 % 256, q1 % 256, n % 256]
  }

  /** The header is the 4-byte network-order encoding of the length: unpacking it gives the length back. */
  lemma HeaderIsBigEndian(n: nat)
    requires n < MaxLength
    ensures BigEndian(Header(n)) == n
  {
    var h := Header(n);
    var q1 := n / 256;
    var q2 := q1 / 256;
    assert BigEndian(h[..1]) == h[0] by {
      assert h[..1][..0] == [];
    }
    assert BigEndian(h[..2]) == q2 by {
      assert h[..2][..1] == h[..1];
    }
    assert BigEndian(h[..3]) == q1 by {
      assert h[..3][..2] == h[..2];
    }
    assert h[..4] == h && h[..4][..3] == h[..3];
  }

  /** Reading the bit expansion of a byte string as one number gives its big-endian value. */
  lemma {:induction false} BytesToBitsValue(bytes: seq<Byte>)
    ensures BitsValue(BytesToBits(bytes)) == BigEndian(bytes)
  {
    if bytes != [] {
      var n := |bytes|;
      var init := bytes[..n - 1];
      assert bytes == init + [bytes[n - 1]];
      BytesToBitsValue(init);
      BytesToBitsAppend(init, [bytes[n - 1]]);
      assert BytesToBits([bytes[n - 1]]) == ByteBits(bytes[n - 1]);
      BitsValueAppend(BytesToBits(init), ByteBits(bytes[n - 1]));
      assert Pow2(8) == 256;
    }
  }

  /** The 32 header bits, read as `int(header_bits, 2)`, give back the length they encode. */
  lemma HeaderDecodes(n: nat)
    requires n < MaxLength
    ensures |BytesToBits(Header(n))| == HeaderBits
    ensures BitsValue(BytesToBits(Header(n))) == n
  {
    BytesToBitsValue(Header(n));
    HeaderIsBigEndian(n);
  }

  /** The bit string `embed_bytes_in_image` writes: `bytes_to_bits(header + data)`. */
  function FrameBits(data: seq<Byte>): (bits: seq<bool>)
    requires |data| < MaxLength
    ensures |bits| == HeaderBits + 8 * |data|
  {
    BytesToBits(Header(|data|) + data)
  }

  /** `(c & ~1) | int(bit)`: only the least significant bit of the channel changes, and it becomes `bit`. */
  function SetLsb(c: Byte, bit: bool): (c': Byte)
    ensures c' / 2 == c / 2
    ensures (c' % 2 == 1) == bit
  {
    c - c % 2 + BitValue(bit)
  }

  /** `c & 1`: the channel is its upper seven bits, doubled, plus this bit. */
  function Lsb(c: Byte): (bit: bool)
    ensures c == 2 * (c / 2) + BitValue(bit)
  {
    c % 2 == 1
  }

  /**
   * The pixel `embed_bytes_in_image` writes for input pixel `p` when `base` bits have
   * been placed before it: R, G and B take the next three bits while there are bits left.
   */
  function EmbedPixel(p: Pixel, bits: seq<bool>, base: nat): (q: Pixel)
    ensures q.Rgba? && q.a == p.Alpha()
    ensures forall k :: 0 <= k < 3 ==> q.Channel(k) / 2 == p.Channel(k) / 2
    ensures forall k :: 0 <= k < 3 && base + k < |bits| ==> Lsb(q.Channel(k)) == bits[base + k]
    ensures forall k :: 0 <= k < 3 && base + k >= |bits| ==> q.Channel(k) == p.Channel(k)
  {
    Rgba(PutBit(p.r, bits, base), PutBit(p.g, bits, base + 1), PutBit(p.b, bits, base + 2), p.Alpha())
  }

  /** A channel after slot `idx` is filled: it carries bit `idx` if there is one, and is unchanged otherwise. */
  function PutBit(c: Byte, bits: seq<bool>, idx: nat): (c': Byte)
    ensures idx < |bits| ==> Lsb(c') == bits[idx] && c' / 2 == c / 2
    ensures idx >= |bits| ==> c' == c
  {
    if idx < |bits| then SetLsb(c, bits[idx]) else c
  }

  /** The pixels `embed_bytes_in_image` writes for `pixels`, which hold frame bits from slot 0 on. */
  function EmbedAll(pixels: seq<Pixel>, bits: seq<bool>): (out: seq<Pixel>)
    ensures |out| == |pixels|
  {
    if pixels == [] then []
    else
      var n := |pixels| - 1;
      EmbedAll(pixels[..n], bits) + [EmbedPixel(pixels[n], bits, 3 * n)]
  }

  /** Output pixel i is input pixel i with frame bits 3i, 3i+1, 3i+2 written into it. */
  lemma {:induction false} EmbedAllAt(pixels: seq<Pixel>, bits: seq<bool>, i: nat)
    requires i < |pixels|
    ensures EmbedAll(pixels, bits)[i] == EmbedPixel(pixels[i], bits, 3 * i)
  {
    var n := |pixels| - 1;
    if i < n {
      EmbedAllAt(pixels[..n], bits, i);
    }
  }

  datatype EmbedError =
    | HeaderOverflow(length: nat)                   // struct.error from struct.pack("!I", ...)
    | InsufficientCapacity(needed: nat, capacity: nat)
    | RanOutOfPixels

  /**
   * `embed_bytes_in_image`: fails exactly when the length does not fit the header or the
   * framed payload needs more bit slots than the pixels offer (three per pixel); otherwise
   * returns as many pixels as it was given.
   */
  function Embed(pixels: seq<Pixel>, data: seq<Byte>): (r: Result<seq<Pixel>, EmbedError>)
    ensures r.Failure? <==> |data| >= MaxLength || HeaderBits + 8 * |data| > 3 * |pixels|
    ensures |data| >= MaxLength ==> r == Failure(HeaderOverflow(|data|))
    ensures r.Failure? && |data| < MaxLength ==>
      r.error == InsufficientCapacity(HeaderBits + 8 * |data|, 3 * |pixels|)
    ensures r.Success? ==> |r.value| == |pixels|
  {
    if |data| >= MaxLength then Failure(HeaderOverflow(|data|))
    else
      var bits := FrameBits(data);
      if |bits| > 3 * |pixels| then Failure(InsufficientCapacity(|bits|, 3 * |pixels|))
      else Success(EmbedAll(pixels, bits))
  }

  /**
   * The statement keylogger.py repeats for R, G and B: if bits remain, overwrite the
   * channel's least significant bit with the next one and advance the cursor.
   */
  method EmbedChannel(c: Byte, bits: seq<bool>, bitIdx: nat) returns (c': Byte, bitIdx': nat)
    requires bitIdx <= |bits|
    ensures c' == PutBit(c, bits, bitIdx)
    ensures bitIdx' == if bitIdx < |bits| then bitIdx + 1 else |bits|
  {
    c', bitIdx' := c, bitIdx;
    if bitIdx' < |bits| {
      c' := SetLsb(c', bits[bitIdx']);
      bitIdx' := bitIdx' + 1;
    }
  }

  /**
   * The pixel walk of `embed_bytes_in_image`: one pixel at a time, R, G, B, advancing
   * `bitIdx` over the frame bits and copying alpha; it raises "ran out of pixels" exactly
   * when the bits do not fit.
   */
  method WriteBits(pixels: seq<Pixel>, bits: seq<bool>) returns (res: Result<seq<Pixel>, EmbedError>)
    ensures res.Failure? <==> |bits| > 3 * |pixels|
    ensures res.Failure? ==> res.error == RanOutOfPixels
    ensures res.Success? ==> res.value == EmbedAll(pixels, bits)
  {
    var newPixels: seq<Pixel> := [];
    var bitIdx := 0;
    for i := 0 to |pixels|
      invariant bitIdx == if 3 * i < |bits| then 3 * i else |bits|
      invariant newPixels == EmbedAll(pixels[..i], bits)
    {
      var px := pixels[i];
      assert EmbedAll(pixels[..i + 1], bits) == EmbedAll(pixels[..i], bits) + [EmbedPixel(px, bits, 3 * i)] by {
        assert pixels[..i + 1][..i] == pixels[..i];
      }
      var r, g, b, a := px.r, px.g, px.b, px.Alpha();
      r, bitIdx := EmbedChannel(r, bits, bitIdx);
      g, bitIdx := EmbedChannel(g, bits, bitIdx);
      b, bitIdx := EmbedChannel(b, bits, bitIdx);
      newPixels := newPixels + [Rgba(r, g, b, a)];
    }
    if bitIdx < |bits| {
      return Failure(RanOutOfPixels);
    }
    assert pixels[..|pixels|] == pixels;
    res := Success(newPixels);
  }

  /**
   * `embed_bytes_in_image`: pack the header, check capacity, walk the pixels. The pixel
   * walk's own "ran out of pixels" error never reaches the caller.
   */
  method EmbedBytesInImage(pixels: seq<Pixel>, data: seq<Byte>) returns (res: Result<seq<Pixel>, EmbedError>)
    ensures res == Embed(pixels, data)
    ensures !(res.Failure? && res.error.RanOutOfPixels?)
  {
    if |data| >= MaxLength {
      return Failure(HeaderOverflow(|data|));
    }
    var header := Header(|data|);
    var payload := header + data;
    var bits := BytesToBits(payload);
    var capacity := |pixels| * 3;
    if |bits| > capacity {
      return Failure(InsufficientCapacity(|bits|, capacity));
    }
    res := WriteBits(pixels, bits);
  }

  /** The R, G, B least significant bits of the pixels, in pixel order (the `bits` list). */
  function LsbBits(pixels: seq<Pixel>): (bits: seq<bool>)
    ensures |bits| == 3 * |pixels|
  {
    if pixels == [] then []
    else
      var p := pixels[|pixels| - 1];
      LsbBits(pixels[..|pixels| - 1]) + [Lsb(p.r), Lsb(p.g), Lsb(p.b)]
  }

  /** Bit 3i+k of the collected bit string is the LSB of channel k of pixel i. */
  lemma {:induction false} LsbBitsAt(pixels: seq<Pixel>, i: nat, k: nat)
    requires i < |pixels| && k < 3
    ensures LsbBits(pixels)[3 * i + k] == Lsb(pixels[i].Channel(k))
  {
    var n := |pixels|;
    if i < n - 1 {
      LsbBitsAt(pixels[..n - 1], i, k);
    }
  }

  datatype ExtractError =
    | HeaderTooShort             // fewer than 32 bits in the image
    | PayloadTruncated(length: nat)  // the header declares more bytes than the image carries

  /**
   * `extract_bytes_from_image`: fails when the image has fewer than 32 bit slots, or fewer
   * than 32 + 8 * length where length is the big-endian value of the first 32 LSBs; otherwise
   * returns exactly `length` bytes.
   */
  function Extract(pixels: seq<Pixel>): (r: Result<seq<Byte>, ExtractError>)
    ensures r == Failure(HeaderTooShort) <==> 3 * |pixels| < HeaderBits
    ensures 3 * |pixels| >= HeaderBits ==>
      var length := BitsValue(LsbBits(pixels)[..HeaderBits]);
      length < MaxLength &&
      (r.Failure? <==> 3 * |pixels| < HeaderBits + 8 * length) &&
      (r.Failure? ==> r.error == PayloadTruncated(length)) &&
      (r.Success? ==> |r.value| == length)
  {
    var bits := LsbBits(pixels);
    Pow2HeaderBits();
    if |bits| < HeaderBits then Failure(HeaderTooShort)
    else
      var length := BitsValue(bits[..HeaderBits]);
      if |bits| < HeaderBits + 8 * length then Failure(PayloadTruncated(length))
      else Success(BitsToBytes(bits[HeaderBits..HeaderBits + 8 * length]))
  }

  /** keylogger.py's loop: append each pixel's three LSBs, then parse the header and slice the payload. */
  method ExtractBytesFromImage(pixels: seq<Pixel>) returns (res: Result<seq<Byte>, ExtractError>)
    ensures res == Extract(pixels)
  {
    var bits: seq<bool> := [];
    for i := 0 to |pixels|
      invariant bits == LsbBits(pixels[..i])
    {
      var px := pixels[i];
      assert pixels[..i + 1][..i] == pixels[..i];
      bits := bits + [Lsb(px.r), Lsb(px.g), Lsb(px.b)];
    }
    assert pixels[..|pixels|] == pixels;
    if |bits| < 32 {
      return Failure(HeaderTooShort);
    }
    var headerBits := bits[..32];
    var length := BitsValue(headerBits);
    var totalBitsNeeded := 32 + length * 8;
    if |bits| < totalBitsNeeded {
      return Failure(PayloadTruncated(length));
    }
    var payloadBits := bits[32..32 + length * 8];
    res := Success(BitsToBytes(payloadBits));
  }

  /**
   * Every pixel `embed_bytes_in_image` returns is RGBA with the input's alpha; each of its
   * R, G, B channels differs from the input at most in the least significant bit, which
   * carries frame bit 3i+k while there are frame bits left and is untouched after that.
   */
  lemma EmbedChangesOnlyLsbs(pixels: seq<Pixel>, data: seq<Byte>, i: nat, k: nat)
    requires |data| < MaxLength && HeaderBits + 8 * |data| <= 3 * |pixels|
    requires i < |pixels| && k < 3
    ensures var out := Embed(pixels, data).value[i];
      out.Rgba? && out.a == pixels[i].Alpha() &&
      out.Channel(k) / 2 == pixels[i].Channel(k) / 2 &&
      (3 * i + k < |FrameBits(data)| ==> Lsb(out.Channel(k)) == FrameBits(data)[3 * i + k]) &&
      (3 * i + k >= |FrameBits(data)| ==> out.Channel(k) == pixels[i].Channel(k))
  {
    EmbedAllAt(pixels, FrameBits(data), i);
  }


  /**
   * Pixels from index ceil((32 + 8 * len(data)) / 3) on carry no frame bits: they come out
   * with the same channels (an RGBA input pixel comes out identical).
   */
  lemma EmbedTailUnchanged(pixels: seq<Pixel>, data: seq<Byte>, i: nat)
    requires |data| < MaxLength && HeaderBits + 8 * |data| <= 3 * |pixels|
    requires (HeaderBits + 8 * |data| + 2) / 3 <= i < |pixels|
    ensures Embed(pixels, data).value[i] == Rgba(pixels[i].r, pixels[i].g, pixels[i].b, pixels[i].Alpha())
    ensures pixels[i].Rgba? ==> Embed(pixels, data).value[i] == pixels[i]
  {
    EmbedAllAt(pixels, FrameBits(data), i);
  }

  /** Reading back the LSBs of an embedded image yields the frame bits, in R, G, B, pixel order. */
  lemma EmbedThenReadLsbs(pixels: seq<Pixel>, data: seq<Byte>, j: nat)
    requires |data| < MaxLength && HeaderBits + 8 * |data| <= 3 * |pixels|
    requires j < HeaderBits + 8 * |data|
    ensures LsbBits(Embed(pixels, data).value)[j] == FrameBits(data)[j]
  {
    var out := Embed(pixels, data).value;
    var bits := FrameBits(data);
    var i, k := j / 3, j % 3;
    assert j == 3 * i + k;
    EmbedAllAt(pixels, bits, i);
    LsbBitsAt(out, i, k);
  }

  /** The first 32 + 8 * len(data) LSBs of the embedded image are the frame bits. */
  lemma EmbeddedLsbsAreFrame(pixels: seq<Pixel>, data: seq<Byte>)
    requires |data| < MaxLength && HeaderBits + 8 * |data| <= 3 * |pixels|
    ensures LsbBits(Embed(pixels, data).value)[..|FrameBits(data)|] == FrameBits(data)
  {
    var lsbs := LsbBits(Embed(pixels, data).value);
    var bits := FrameBits(data);
    forall j | 0 <= j < |bits|
      ensures lsbs[j] == bits[j]
    {
      EmbedThenReadLsbs(pixels, data, j);
    }
  }

  /** Any image whose leading LSBs hold the frame of `data` yields `data` on extraction. */
  lemma ExtractFrame(image: seq<Pixel>, data: seq<Byte>)
    requires |data| < MaxLength
    requires |FrameBits(data)| <= 3 * |image|
    requires LsbBits(image)[..|FrameBits(data)|] == FrameBits(data)
    ensures Extract(image) == Success(data)
  {
    var lsbs := LsbBits(image);
    var bits := FrameBits(data);
    var n := |data|;
    var headerBits := BytesToBits(Header(n));
    BytesToBitsAppend(Header(n), data);
    HeaderDecodes(n);
    assert lsbs[..HeaderBits] == headerBits by {
      assert lsbs[..HeaderBits] == lsbs[..|bits|][..HeaderBits];
    }
    assert lsbs[HeaderBits..HeaderBits + 8 * n] == BytesToBits(data) by {
      assert lsbs[HeaderBits..HeaderBits + 8 * n] == lsbs[..|bits|][HeaderBits..];
    }
    BitsToBytesInverts(data);
  }

  /**
   * The codec's correctness law: whenever the capacity check passes, extracting from the
   * embedded image returns the payload, whatever the pixels held before.
   */
  lemma RoundTrip(pixels: seq<Pixel>, data: seq<Byte>)
    requires |data| < MaxLength && HeaderBits + 8 * |data| <= 3 * |pixels|
    ensures Embed(pixels, data).Success?
    ensures Extract(Embed(pixels, data).value) == Success(data)
  {
    EmbeddedLsbsAreFrame(pixels, data);
    ExtractFrame(Embed(pixels, data).value, data);
  }

  /**
   * On success the payload bit slice is byte-aligned, so `bits_to_bytes` adds no padding:
   * the returned bytes, written back out, are exactly the payload bits of the image.
   */
  lemma ExtractIsExact(pixels: seq<Pixel>)
    requires Extract(pixels).Success?
    ensures var length := BitsValue(LsbBits(pixels)[..HeaderBits]);
      BytesToBits(Extract(pixels).value) == LsbBits(pixels)[HeaderBits..HeaderBits + 8 * length]
  {
    var bits := LsbBits(pixels);
    var length := BitsValue(bits[..HeaderBits]);
    var payloadBits := bits[HeaderBits..HeaderBits + 8 * length];
    assert Extract(pixels).value == BitsToBytes(payloadBits);
    BitsToBytesPads(payloadBits);
  }

  /** A 12-pixel image has 36 bit slots; the 1-byte payload needs 40 and is refused. */
  lemma TwelvePixelsTooSmall(pixels: seq<Pixel>)
    requires |pixels| == 12
    ensures Embed(pixels, [0x41]) == Failure(InsufficientCapacity(40, 36))
  {
  }

  /**
   * A 14-pixel image has 42 bit slots: the 1-byte payload fits, comes back out, and the
   * blue channel of the last pixel (slot 42, unused) is unchanged.
   */
  lemma FourteenPixelsRoundTrip(pixels: seq<Pixel>)
    requires |pixels| == 14
    ensures Embed(pixels, [0x41]).Success?
    ensures Extract(Embed(pixels, [0x41]).value) == Success([0x41])
    ensures Embed(pixels, [0x41]).value[13].b == pixels[13].b
  {
    RoundTrip(pixels, [0x41]);
  }
}
