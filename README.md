# LSB steganography codec

A Dafny model of the steganographic codec of the consent recorder (keylogger.py) and of
its standalone extractor (extract_and_decrypt_png.py).

The embedder hides an opaque byte payload (in the application, Fernet ciphertext) in an
image. It prefixes the payload with a 32-bit big-endian length header, expands header and
payload into bits, most significant bit first, and writes one bit into the least
significant bit of each pixel's R, G and B channel, in pixel order. Alpha is copied
through. The extractor collects the R, G, B least significant bits of every pixel, reads
the header as a length, and returns exactly that many bytes. It rejects images whose bits
cannot hold the header or the declared payload.

Modules:

- `Wrappers`: the `Result` type that stands for "returns a value or raises".
- `BitPacker`: `bytes_to_bits` and `bits_to_bytes`. Bit strings are `seq<bool>`, with
  `true` for the character '1'. `BitsValue` is Python's `int(s, 2)`.
- `PixelCodec`: the pixel type, `struct.pack("!I", n)`, `embed_bytes_in_image` and
  `extract_bytes_from_image` of keylogger.py. Each operation has a specification function
  (`Embed`, `Extract`) and a method that runs keylogger.py's loop and is proved equal to it.
  The embedder's pixel walk is the method `WriteBits`. The statement keylogger.py repeats
  for R, G and B is the method `EmbedChannel`.
- `StandaloneExtractor`: the pixel-processing body of `extract_bytes_from_image` in
  extract_and_decrypt_png.py, proved to agree with the recorder's extractor.

Pixels are `Rgb(r, g, b)` or `Rgba(r, g, b, a)` with channels in 0..255. The embedder
accepts both and gives a 3-tuple pixel alpha 255 (keylogger.py:60). It always writes RGBA.

Two behaviours of the code worth stating:

- A payload of 2^32 bytes or more is not left to the caller. `struct.pack`
  raises for it, so `Embed` returns `HeaderOverflow`.
- The standalone extractor has no separate check for images under 32 bits. On an image
  with no pixels, `int('', 2)` raises (`EmptyHeader`). On an image of 1 to 10 pixels, the
  short header still gives a length, and the length check then fails (`NotEnoughBits`).
  Both extractors therefore succeed on the same images and return the same bytes.

## Model

| member | source | states |
|---|---|---|
| BitPacker.BitsValue | keylogger.py:92 | `int(bits, 2)` of a bit string is below 2^len, so a 32-bit header value lies in 0..2^32-1 |
| BitPacker.BitsOfWidth | keylogger.py:37 | the fixed-width binary expansion has exactly `w` digits and reads back as the number |
| BitPacker.BitsOfWidthOfValue | keylogger.py:37 | writing the value of a bit string back at the same width gives the bit string back |
| BitPacker.ByteBits | keylogger.py:37 | `f"{byte:08b}"` has 8 bits and denotes the byte |
| BitPacker.BytesToBits | keylogger.py:36-37 | `bytes_to_bits(b)` has length `8 * len(b)` |
| BitPacker.BytesToBitsAt | keylogger.py:36-37 | bits `8i .. 8i+7` of `bytes_to_bits(b)` are byte `i`, most significant bit first |
| BitPacker.BytesToBitsAppend | keylogger.py:51-52 | converting `header + data` converts the header and the data separately |
| BitPacker.BitsValueAppend | keylogger.py:92 | reading a concatenation shifts the first part left by the length of the second |
| BitPacker.Zeros | keylogger.py:42 | `'0' * k` is `k` characters, all '0' |
| BitPacker.PadLength | keylogger.py:41-42 | the appended '0' count is below 8 and makes the length a multiple of 8 |
| BitPacker.Chunks | keylogger.py:43 | a byte-aligned bit string of length `n` gives `n / 8` bytes |
| BitPacker.BitsToBytes | keylogger.py:39-43 | `bits_to_bytes` returns `ceil(len(bits) / 8)` bytes |
| BitPacker.ChunksInverse | keylogger.py:43 | on byte-aligned input, writing the bytes back out gives the input bit string |
| BitPacker.BitsToBytesInverts | keylogger.py:36-43 | `bits_to_bytes(bytes_to_bits(b)) == b` for every byte string `b` |
| BitPacker.BitsToBytesPads | extract_and_decrypt_png.py:10-13 | the result, written back out, is the input followed by the trailing '0's that fill the last byte; the input comes back unchanged exactly when it is byte-aligned |
| PixelCodec.Pow2HeaderBits | keylogger.py:50 | 2^8 is 256 and 2^32 is the first length `struct.pack("!I", ...)` rejects |
| PixelCodec.Header | keylogger.py:50 | `struct.pack("!I", n)` is 4 bytes |
| PixelCodec.HeaderIsBigEndian | keylogger.py:50 | the header bytes, read in network order, give the length back |
| PixelCodec.BytesToBitsValue | keylogger.py:50-52 | reading the bit expansion of a byte string as one number gives its big-endian value |
| PixelCodec.HeaderDecodes | keylogger.py:50-52 | the header occupies the first 32 bit slots and `int(header_bits, 2)` gives the length back |
| PixelCodec.FrameBits | keylogger.py:50-52 | the frame is `32 + 8 * len(data)` bits |
| PixelCodec.SetLsb | keylogger.py:62 | `(c & ~1)` or-ed with the bit changes only the least significant bit, which becomes `bit` |
| PixelCodec.Lsb | keylogger.py:84-86 | `c & 1` is the bit that, added to twice the upper seven bits, gives the channel |
| PixelCodec.EmbedPixel | keylogger.py:60-67 | the pixel written is RGBA with the input's alpha (255 for a 3-tuple); each of R, G, B keeps its upper seven bits, and its LSB is frame bit `base + k` while bits remain, the channel being untouched after |
| PixelCodec.PutBit | keylogger.py:61-66 | a channel takes the bit at the cursor while bits remain, and is unchanged after |
| PixelCodec.EmbedAll | keylogger.py:57-67 | the output has as many pixels as the input |
| PixelCodec.EmbedAllAt | keylogger.py:57-67 | output pixel `i` is input pixel `i` with frame bits `3i`, `3i+1`, `3i+2` written into R, G, B |
| PixelCodec.Embed | keylogger.py:45-74 | embedding fails exactly when the length does not fit in 32 bits (with the header-overflow error) or `32 + 8 * len(data) > 3 * len(pixels)`; the capacity error carries both sizes; success keeps the pixel count |
| PixelCodec.EmbedChannel | keylogger.py:61-66 | one channel step writes the bit at the cursor if any remain and advances the cursor by one |
| PixelCodec.WriteBits | keylogger.py:57-71 | the pixel walk produces `EmbedAll` and raises "ran out of pixels" exactly when the bits exceed `3 * len(pixels)` |
| PixelCodec.EmbedBytesInImage | keylogger.py:45-74 | keylogger.py's procedure computes `Embed`, and "ran out of pixels" never reaches its caller |
| PixelCodec.LsbBits | keylogger.py:82-87 | the collected bit string has `3 * len(pixels)` bits |
| PixelCodec.LsbBitsAt | extract_and_decrypt_png.py:18-23 | bit `3i+k` of the collected string is the least significant bit of channel `k` (R, G, B) of pixel `i` |
| PixelCodec.Extract | keylogger.py:76-98 | extraction fails with the header error exactly when `3 * len(pixels) < 32`; otherwise it fails with the truncation error, carrying the length, exactly when `3 * len(pixels) < 32 + 8 * length`, where the length is the first 32 LSBs read big-endian; on success it returns exactly `length` bytes |
| PixelCodec.ExtractBytesFromImage | keylogger.py:76-98 | keylogger.py's loop, header parse and slice compute `Extract` |
| PixelCodec.EmbedChangesOnlyLsbs | keylogger.py:57-67 | every output pixel is RGBA with the input's alpha; each R, G, B channel differs at most in its least significant bit, which holds the next frame bit while bits remain and is untouched after |
| PixelCodec.EmbedTailUnchanged | keylogger.py:59-68 | pixels from index `ceil((32 + 8 * len(data)) / 3)` on keep R, G, B and alpha; an RGBA pixel there comes out identical |
| PixelCodec.EmbedThenReadLsbs | keylogger.py:57-87 | LSB `j` of the embedded image is frame bit `j`, for every `j` in the frame |
| PixelCodec.EmbeddedLsbsAreFrame | keylogger.py:57-87 | the leading LSBs of the embedded image are exactly the frame bits |
| PixelCodec.ExtractFrame | keylogger.py:88-98 | any image whose leading LSBs hold the frame of `data` extracts to `data` |
| PixelCodec.RoundTrip | keylogger.py:45-98 | whenever the capacity check passes, `extract(embed(pixels, data)) == data`, whatever the pixels held |
| PixelCodec.ExtractIsExact | keylogger.py:97-98 | on success the payload slice is byte-aligned: no padding is added, and the returned bytes, written back out, are exactly the payload bits |
| PixelCodec.TwelvePixelsTooSmall | keylogger.py:54-56 | a 12-pixel image cannot take a 1-byte payload: 40 bits are needed, 36 are available |
| PixelCodec.FourteenPixelsRoundTrip | keylogger.py:45-98 | a 14-pixel image takes a 1-byte payload, gives it back, and keeps the last pixel's blue channel |
| StandaloneExtractor.ExtractStandalone | extract_and_decrypt_png.py:17-31 | the standalone extractor fails on `int('', 2)` exactly for an image with no pixels; on an image of at least 32 bits any other failure is the length error carrying the big-endian value of the first 32 LSBs; on success the image has at least 32 bits and the result is under 2^32 bytes |
| StandaloneExtractor.ExtractBytesFromPixels | extract_and_decrypt_png.py:17-31 | the standalone script's loop, header parse and slice compute `ExtractStandalone` |
| StandaloneExtractor.AgreesWithRecorder | extract_and_decrypt_png.py:15-31 | the standalone extractor and the recorder's extractor succeed on the same images with the same bytes, and fail on the same images |

## Left out

- The recording UI, consent dialogs and recording state (`ConsentRecorderApp`): event handling and widgets, not part of the codec.
- `generate_key` and `load_key`, and every file read and write: file I/O.
- Fernet encryption and decryption in both scripts and in decrypt_enc_file.py: a foreign cryptography library. The payload is opaque bytes.
- Image decoding and encoding (`Image.open`, `Image.new`, `putdata`, `save`): the image is an in-memory pixel sequence.
- `convert("RGBA")` before extraction: an image is given to the extractors as its pixel list. Only the R, G and B channels are read, and an `Rgb` pixel is read as RGB-to-RGBA conversion would leave it. Other colour modes (palette, greyscale) are not modelled.
- The `main()` functions: console input, command-line arguments and printing.
- Error messages are reduced to the error kind and the numbers they carry. Python raises `ValueError`, `struct.error` or `RuntimeError`; the model returns a `Result`.
