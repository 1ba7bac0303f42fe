/**
 * Conversion between byte strings and '0'/'1' bit strings, most significant bit first
 * within each byte (keylogger.py `bytes_to_bits` and `bits_to_bytes`; the second copy of
 * `bits_to_bytes` in extract_and_decrypt_png.py behaves identically).
 *
 * A bit string is a `seq<bool>`: `true` stands for the character '1', `false` for '0'.
 */
module BitPacker {

  /** One element of a Python `bytes` object. */
  type Byte = x: int | 0 <= x < 256

  function Pow2(n: nat): (r: nat)
    ensures r >= 1
  {
    if n == 0 then 1 else 2 * Pow2(n - 1)
  }

  function BitValue(bit: bool): nat
  {
    if bit then 1 else 0
  }

  /**
   * The unsigned integer a bit string denotes when read most significant bit first,
   * as Python's `int(s, 2)` reads a non-empty string of '0' and '1'.
   */
  function BitsValue(bits: seq<bool>): (v: nat)
    ensures v < Pow2(|bits|)
  {
    if bits == [] then 0 else 2 * BitsValue(bits[..|bits| - 1]) + BitValue(bits[|bits| - 1])
  }

  /** The `w`-digit binary expansion of `x`, most significant bit first (`f"{x:0wb}"`). */
  function BitsOfWidth(x: nat, w: nat): (bits: seq<bool>)
    requires x < Pow2(w)
    ensures |bits| == w
    ensures BitsValue(bits) == x
  {
    if w == 0 then [] else
      var bits := BitsOfWidth(x / 2, w - 1) + [x % 2 == 1];
      assert bits[..w - 1] == BitsOfWidth(x / 2, w - 1);
      bits
  }

  /** Reading a bit string as a number and writing the number back at the same width is the identity. */
  lemma {:induction false} BitsOfWidthOfValue(bits: seq<bool>)
    ensures BitsOfWidth(BitsValue(bits), |bits|) == bits
  {
    if bits != [] {
      var n := |bits|;
      BitsOfWidthOfValue(bits[..n - 1]);
      assert BitsValue(bits) / 2 == BitsValue(bits[..n - 1]);
      assert bits == bits[..n - 1] + [bits[n - 1]];
    }
  }

  lemma DoubleProduct(x: nat, p: nat)
    ensures 2 * (x * p) == x * (2 * p)
  {
  }

  lemma {:induction false} Pow2Add(a: nat, b: nat)
    ensures Pow2(a + b) == Pow2(a) * Pow2(b)
  {
    if b > 0 {
      Pow2Add(a, b - 1);
      DoubleProduct(Pow2(a), Pow2(b - 1));
    }
  }

  /** Reading the concatenation of two bit strings: the first one is shifted left by the length of the second. */
  lemma {:induction false} BitsValueAppend(a: seq<bool>, b: seq<bool>)
    ensures BitsValue(a + b) == BitsValue(a) * Pow2(|b|) + BitsValue(b)
  {
    if b == [] {
      assert a + b == a;
    } else {
      var n := |b|;
      var b' := b[..n - 1];
      assert (a + b)[..|a + b| - 1] == a + b';
      BitsValueAppend(a, b');
      var x, p := BitsValue(a), Pow2(n - 1);
      calc {
        BitsValue(a + b);
        2 * BitsValue(a + b') + BitValue(b[n - 1]);
        2 * (x * p + BitsValue(b')) + BitValue(b[n - 1]);
        { DoubleProduct(x, p); }
        x * Pow2(n) + BitsValue(b);
      }
    }
  }

  /** One byte as eight bits, most significant bit first (`f"{byte:08b}"`). */
  function ByteBits(x: Byte): (bits: seq<bool>)
    ensures |bits| == 8
    ensures BitsValue(bits) == x
  {
    BitsOfWidth(x, 8)
  }

  /** `bytes_to_bits`: the bytes' eight-bit expansions concatenated in input order. */
  function BytesToBits(b: seq<Byte>): (bits: seq<bool>)
    ensures |bits| == 8 * |b|
  {
    if b == [] then [] else ByteBits(b[0]) + BytesToBits(b[1..])
  }

  /** Bits 8i .. 8i+7 of `bytes_to_bits(b)` are byte i, most significant bit first. */
  lemma {:induction false} BytesToBitsAt(b: seq<Byte>, i: nat)
    requires i < |b|
    ensures BytesToBits(b)[8 * i .. 8 * i + 8] == ByteBits(b[i])
    ensures BitsValue(BytesToBits(b)[8 * i .. 8 * i + 8]) == b[i]
  {
    if i > 0 {
      BytesToBitsAt(b[1..], i - 1);
      assert BytesToBits(b)[8 * i .. 8 * i + 8] == BytesToBits(b[1..])[8 * (i - 1) .. 8 * (i - 1) + 8];
    }
  }

  /** Converting a concatenation of byte strings converts each part. */
  lemma {:induction false} BytesToBitsAppend(a: seq<Byte>, b: seq<Byte>)
    ensures BytesToBits(a + b) == BytesToBits(a) + BytesToBits(b)
  {
    if a == [] {
      assert a + b == b;
    } else {
      assert (a + b)[1..] == a[1..] + b;
      BytesToBitsAppend(a[1..], b);
    }
  }

  /** `'0' * n`: a string of `n` '0' characters. */
  function Zeros(n: nat): (z: seq<bool>)
    ensures |z| == n
    ensures forall i :: 0 <= i < n ==> !z[i]
  {
    seq(n, _ => false)
  }

  /** The number of '0' characters `bits_to_bytes` appends to reach a whole number of bytes. */
  function PadLength(n: nat): (k: nat)
    ensures k < 8 && (n + k) % 8 == 0
  {
    if n % 8 != 0 then 8 - n % 8 else 0
  }

  /** Groups a byte-aligned bit string into bytes, each eight bits read most significant bit first. */
  function Chunks(bits: seq<bool>): (bytes: seq<Byte>)
    requires |bits| % 8 == 0
    ensures |bytes| == |bits| / 8
  {
    if bits == [] then [] else [BitsValue(bits[..8]) as Byte] + Chunks(bits[8..])
  }

  /**
   * `bits_to_bytes`: pads the bit string with trailing '0's to a multiple of eight,
   * then reads it eight bits at a time.
   */
  function BitsToBytes(bits: seq<bool>): (bytes: seq<Byte>)
    ensures |bytes| == (|bits| + 7) / 8
  {
    Chunks(bits + Zeros(PadLength(|bits|)))
  }

  /** Writing the bytes back out reproduces a byte-aligned bit string exactly. */
  lemma {:induction false} ChunksInverse(bits: seq<bool>)
    requires |bits| % 8 == 0
    ensures BytesToBits(Chunks(bits)) == bits
  {
    if bits != [] {
      ChunksInverse(bits[8..]);
      BitsOfWidthOfValue(bits[..8]);
      assert bits == bits[..8] + bits[8..];
    }
  }

  /** `bits_to_bytes` inverts `bytes_to_bits` on every byte string. */
  lemma {:induction false} BitsToBytesInverts(b: seq<Byte>)
    ensures BitsToBytes(BytesToBits(b)) == b
  {
    var bits := BytesToBits(b);
    assert bits + Zeros(PadLength(|bits|)) == bits;
    if b != [] {
      BitsToBytesInverts(b[1..]);
      var rest := BytesToBits(b[1..]);
      assert rest + Zeros(PadLength(|rest|)) == rest;
      assert bits[..8] == ByteBits(b[0]);
      assert bits[8..] == rest;
      assert b == [b[0]] + b[1..];
    }
  }

  /**
   * What `bits_to_bytes` does to a bit string that is not byte-aligned: the result,
   * written back out, is the input followed by the '0's that fill the last byte at its
   * low-order end; the input itself comes back unchanged exactly when it was aligned.
   */
  lemma BitsToBytesPads(bits: seq<bool>)
    ensures BytesToBits(BitsToBytes(bits)) == bits + Zeros(PadLength(|bits|))
    ensures |bits| % 8 == 0 <==> BytesToBits(BitsToBytes(bits)) == bits
  {
    ChunksInverse(bits + Zeros(PadLength(|bits|)));
  }
}
