/**
 * The extractor of extract_and_decrypt_png.py. It collects the same R, G, B LSB bit string
 * as keylogger.py's extractor but has no separate "fewer than 32 bits" check: the header
 * slice `bitstr[:32]` may be short, and `int('', 2)` raises on an image with no pixels.
 */
module StandaloneExtractor {
  import opened Wrappers
  import opened BitPacker
  import opened PixelCodec

  datatype StandaloneError =
    | EmptyHeader                 // int('', 2) raises ValueError
    | NotEnoughBits(length: nat)  // "Image does not contain enough bits for declared length."

  function Min(a: nat, b: nat): nat
  {
    if a <= b then a else b
  }

  /**
   * The pixel-processing body of `extract_bytes_from_image`: parse `bitstr[:32]` (which is
   * shorter than 32 bits on images of fewer than 11 pixels) and return `length` bytes if
   * `32 + 8 * length` bits are there.
   */
  function ExtractStandalone(pixels: seq<Pixel>): (r: Result<seq<Byte>, StandaloneError>)
    ensures r == Failure(EmptyHeader) <==> pixels == []
    ensures r.Success? ==> 3 * |pixels| >= HeaderBits
    ensures r.Success? ==> |r.value| < MaxLength
    ensures 3 * |pixels| >= HeaderBits && r.Failure? ==>
      r.error == NotEnoughBits(BitsValue(LsbBits(pixels)[..HeaderBits]))
  {
    var bits := LsbBits(pixels);
    var headerBits := bits[..Min(HeaderBits, |bits|)];
    if headerBits == [] then Failure(EmptyHeader)
    else
      var length := BitsValue(headerBits);
      Pow2HeaderBits();
      if |bits| < HeaderBits + 8 * length then Failure(NotEnoughBits(length))
      else Success(BitsToBytes(bits[HeaderBits..HeaderBits + 8 * length]))
  }

  /** The script's loop over `(r, g, b, a)` tuples, followed by the header parse and slice. */
  method ExtractBytesFromPixels(pixels: seq<Pixel>) returns (res: Result<seq<Byte>, StandaloneError>)
    ensures res == ExtractStandalone(pixels)
  {
    var bits: seq<bool> := [];
    for i := 0 to |pixels|
      invariant bits == LsbBits(pixels[..i])
    {
      var px := pixels[i];
      assert pixels[..i + 1][..i] == pixels[..i];
      bits := bits + [Lsb(px.r), Lsb(px.g), Lsb(px.b)];
    }
    assert pixels[..|pixels|] == pixels;
    var headerBits := bits[..Min(32, |bits|)];
    if headerBits == [] {
      return Failure(EmptyHeader);
    }
    var length := BitsValue(headerBits);
    var totalBits := 32 + length * 8;
    if |bits| < totalBits {
      return Failure(NotEnoughBits(length));
    }
    var payloadBits := bits[32..32 + length * 8];
    res := Success(BitsToBytes(payloadBits));
  }

  /**
   * The two extractors agree on every pixel sequence: both succeed on the same images,
   * with the same bytes, and fail on the same images.
   */
  lemma AgreesWithRecorder(pixels: seq<Pixel>)
    ensures ExtractStandalone(pixels).Success? <==> Extract(pixels).Success?
    ensures ExtractStandalone(pixels).Success? ==> ExtractStandalone(pixels).value == Extract(pixels).value
  {
    var bits := LsbBits(pixels);
    if 0 < |bits| < HeaderBits {
      assert BitsValue(bits[..Min(HeaderBits, |bits|)]) >= 0;
    }
  }
}
