/**
 * What the bits a BitStreamReader delivers mean: the order in which a unit's
 * bits come out of a refill, the values Read<T> assembles from them for each
 * preset format, and the effect of the sign fill for signed types.
 */
module BitStreamProperties {
  import opened Binary
  import opened BitStreamFormats
  import opened BitStreamReading

  /**
   * The two reversals of a refill cancel out: a unit is delivered most
   * significant bit first, in stream order when the format swaps bytes and in
   * reverse stream order when it does not. The format's `reversed` flag plays no part.
   */
  lemma {:induction false} UnitBitsOrder(unit: seq<byte>, format: BitStreamFormat)
    ensures UnitBits(unit, format) == BufferBits(if format.byteSwap then unit else Reverse(unit), true)
  {
    if format.byteSwap {
      ReverseReverse(unit);
    }
  }

  /** The whole unit at stream position p is what a refill from there delivers. */
  lemma NextUnit(data: seq<byte>, p: nat, format: BitStreamFormat)
    requires |data| - p >= format.byteSize
    ensures |StreamBits(data, p, format)| >= 8 * format.byteSize
    ensures StreamBits(data, p, format)[..8 * format.byteSize] == UnitBits(data[p..p + format.byteSize], format)
  {
    StreamBitsUnfold(data, p, format);
  }

  /** The bits at positions 8j .. 8j + 7 of a refill are those of the j-th byte of its buffer. */
  lemma BufferBitsByte(buffer: seq<byte>, j: nat, reversed: bool)
    requires j < |buffer|
    ensures BufferBits(buffer, reversed)[8 * j..8 * j + 8] == ByteBits(buffer[j], reversed)
  {
    var bits := BufferBits(buffer, reversed)[8 * j..8 * j + 8];
    forall i | 0 <= i < 8 ensures bits[i] == ByteBits(buffer[j], reversed)[i] {
      assert (8 * j + i) / 8 == j && (8 * j + i) % 8 == i;
    }
  }

  /**
   * Where Read<T> puts the bits it dequeues: the low |read| bits of the value
   * hold them, in reverse order when the format is `reversed`; every higher
   * bit is set for a signed T and clear for an unsigned one.
   */
  lemma AssembleLayout(read: seq<bool>, t: IntegerType, reversed: bool)
    requires 1 <= |read| <= t.Width()
    ensures Assemble(read, t, reversed)[..|read|] == if reversed then Reverse(read) else read
    ensures Assemble(read, t, reversed)[|read|..] == Repeat(t.signed, t.Width() - |read|)
  {
    AssembleLow(read, t, reversed);
    AssembleHigh(read, t, reversed);
  }

  lemma AssembleLow(read: seq<bool>, t: IntegerType, reversed: bool)
    requires 1 <= |read| <= t.Width()
    ensures Assemble(read, t, reversed)[..|read|] == if reversed then Reverse(read) else read
  {
    var low, placed := Assemble(read, t, reversed)[..|read|], if reversed then Reverse(read) else read;
    forall k | 0 <= k < |read| ensures low[k] == placed[k] {
    }
  }

  lemma AssembleHigh(read: seq<bool>, t: IntegerType, reversed: bool)
    requires 1 <= |read| <= t.Width()
    ensures Assemble(read, t, reversed)[|read|..] == Repeat(t.signed, t.Width() - |read|)
  {
    var image, n := Assemble(read, t, reversed), |read|;
    var high, fill := image[n..], Repeat(t.signed, t.Width() - n);
    forall k | 0 <= k < t.Width() - n ensures high[k] == fill[k] {
      assert high[k] == image[n + k];
    }
  }

  /** An unsigned Read<T>(bits) is below 2^bits: the value is the placed bits alone. */
  lemma {:induction false} AssembleUnsignedValue(read: seq<bool>, t: IntegerType, reversed: bool)
    requires 1 <= |read| <= t.Width() && !t.signed
    ensures ToNat(Assemble(read, t, reversed)) == ToNat(if reversed then Reverse(read) else read)
    ensures ToNat(Assemble(read, t, reversed)) < Pow2(|read|)
  {
    var image := Assemble(read, t, reversed);
    AssembleLayout(read, t, reversed);
    assert image == image[..|read|] + image[|read|..];
    ToNatAppend(image[..|read|], image[|read|..]);
    ToNatRepeat(false, t.Width() - |read|);
  }

  /**
   * A signed Read<T>(bits) with bits below the width of T sets every bit from
   * `bits` up whatever was read, so its two's-complement value is the placed
   * bits minus 2^bits: it is negative for every input.
   */
  lemma {:induction false} AssembleSignedValue(read: seq<bool>, t: IntegerType, reversed: bool)
    requires 1 <= |read| < t.Width() && t.signed
    ensures SignedValue(Assemble(read, t, reversed)) == ToNat(if reversed then Reverse(read) else read) - Pow2(|read|)
    ensures SignedValue(Assemble(read, t, reversed)) < 0
  {
    var image := Assemble(read, t, reversed);
    var n, w := |read|, t.Width();
    var placed := if reversed then Reverse(read) else read;
    var fill := Repeat(true, w - n);
    SignedImage(read, t, reversed);
    ToNatAppend(placed, fill);
    ToNatRepeat(true, w - n);
    Pow2Add(n, w - n);
    assert n + (w - n) == w;
    SignedArith(ToNat(image), ToNat(placed), Pow2(n), Pow2(w - n), Pow2(w));
  }

  /** The signed image is the placed bits followed by ones, so its top bit is set. */
  lemma SignedImage(read: seq<bool>, t: IntegerType, reversed: bool)
    requires 1 <= |read| < t.Width() && t.signed
    ensures Assemble(read, t, reversed) == (if reversed then Reverse(read) else read) + Repeat(true, t.Width() - |read|)
    ensures Assemble(read, t, reversed)[t.Width() - 1]
  {
    var image := Assemble(read, t, reversed);
    AssembleLayout(read, t, reversed);
    assert image == image[..|read|] + image[|read|..];
  }

  lemma SignedArith(value: int, low: int, p: int, q: int, full: int)
    requires value == low + p * (q - 1) && full == p * q && low < p
    ensures value - full == low - p < 0
  {
    assert p * (q - 1) == p * q - p;
  }

  /** A byte delivered most significant bit first, placed reversed, is the byte itself. */
  lemma {:induction false} ByteMostSignificantFirst(b: byte)
    ensures Assemble(ByteBits(b, true), ByteType, true) == LsbBits(b, 8)
    ensures ToNat(Assemble(ByteBits(b, true), ByteType, true)) == b
  {
    var image := Assemble(ByteBits(b, true), ByteType, true);
    forall k | 0 <= k < 8 ensures image[k] == LsbBits(b, 8)[k] {
      LsbBitsAt(b, 8, k);
    }
    Pow2Widths();
    ToNatLsbBits(b, 8);
  }

  /** Placed in reading order instead, the same bits give the byte with its bits mirrored. */
  lemma {:induction false} ByteLeastSignificantFirst(b: byte)
    ensures Assemble(ByteBits(b, true), ByteType, false) == Reverse(LsbBits(b, 8))
  {
    var image := Assemble(ByteBits(b, true), ByteType, false);
    forall k | 0 <= k < 8 ensures image[k] == Reverse(LsbBits(b, 8))[k] {
      LsbBitsAt(b, 8, 7 - k);
    }
  }

  /** Most significant bit first over a whole buffer, placed reversed, reads the buffer as big-endian. */
  lemma {:induction false} BufferMostSignificantFirst(buffer: seq<byte>)
    ensures ToNat(Reverse(BufferBits(buffer, true))) == BigEndian(buffer)
  {
    if buffer != [] {
      var n := |buffer| - 1;
      var init, last := buffer[..n], buffer[n];
      BufferBitsSnoc(buffer, n, true);
      assert buffer[..n + 1] == buffer;
      ReverseAppend(BufferBits(init, true), ByteBits(last, true));
      var lastBits := Reverse(ByteBits(last, true));
      assert lastBits == Assemble(ByteBits(last, true), ByteType, true);
      ByteMostSignificantFirst(last);
      ToNatAppend(lastBits, Reverse(BufferBits(init, true)));
      Pow2Widths();
      BufferMostSignificantFirst(init);
    }
  }

  /** Read<byte>(8) on a ByteMostSignificant stream at position p returns the byte there. */
  lemma ByteMostSignificantRead(data: seq<byte>, p: nat)
    requires p < |data|
    ensures |StreamBits(data, p, ByteMostSignificant)| >= 8
    ensures ToNat(Assemble(StreamBits(data, p, ByteMostSignificant)[..8], ByteType, ByteMostSignificant.reversed)) == data[p]
  {
    var format := ByteMostSignificant;
    PresetFields();
    NextUnit(data, p, format);
    UnitBitsOrder(data[p..p + 1], format);
    assert Reverse(data[p..p + 1]) == [data[p]];
    BufferBitsByte([data[p]], 0, true);
    assert StreamBits(data, p, format)[..8] == ByteBits(data[p], true);
    ByteMostSignificantFirst(data[p]);
  }

  /** Read<byte>(8) on a ByteLeastSignificant stream at position p returns the byte there with its bits mirrored. */
  lemma ByteLeastSignificantRead(data: seq<byte>, p: nat)
    requires p < |data|
    ensures |StreamBits(data, p, ByteLeastSignificant)| >= 8
    ensures Assemble(StreamBits(data, p, ByteLeastSignificant)[..8], ByteType, ByteLeastSignificant.reversed)
            == Reverse(LsbBits(data[p], 8))
  {
    var format := ByteLeastSignificant;
    PresetFields();
    NextUnit(data, p, format);
    UnitBitsOrder(data[p..p + 1], format);
    assert Reverse(data[p..p + 1]) == [data[p]];
    BufferBitsByte([data[p]], 0, true);
    assert StreamBits(data, p, format)[..8] == ByteBits(data[p], true);
    ByteLeastSignificantFirst(data[p]);
  }

  /**
   * On a ShortLittleEndianMostSignificant stream at position p, the next two
   * Read<byte>(8) return the two bytes there in stream order, and
   * Read<ushort>(16) reads them as a big-endian value.
   */
  lemma ShortLittleEndianMostSignificantRead(data: seq<byte>, p: nat)
    requires p + 2 <= |data|
    ensures |StreamBits(data, p, ShortLittleEndianMostSignificant)| >= 16
    ensures ToNat(Assemble(StreamBits(data, p, ShortLittleEndianMostSignificant)[..8], ByteType, true)) == data[p]
    ensures ToNat(Assemble(StreamBits(data, p, ShortLittleEndianMostSignificant)[8..16], ByteType, true)) == data[p + 1]
    ensures ToNat(Assemble(StreamBits(data, p, ShortLittleEndianMostSignificant)[..16], UInt16Type, true))
            == BigEndian(data[p..p + 2])
  {
    var format := ShortLittleEndianMostSignificant;
    ShortRead(data, p, format, data[p..p + 2]);
    assert data[p..p + 2][0] == data[p] && data[p..p + 2][1] == data[p + 1];
  }

  /**
   * On a ShortBigEndianMostSignificant stream at position p, the next two
   * Read<byte>(8) return the two bytes there in swapped order, and
   * Read<ushort>(16) reads them as a little-endian value.
   */
  lemma ShortBigEndianMostSignificantRead(data: seq<byte>, p: nat)
    requires p + 2 <= |data|
    ensures |StreamBits(data, p, ShortBigEndianMostSignificant)| >= 16
    ensures ToNat(Assemble(StreamBits(data, p, ShortBigEndianMostSignificant)[..8], ByteType, true)) == data[p + 1]
    ensures ToNat(Assemble(StreamBits(data, p, ShortBigEndianMostSignificant)[8..16], ByteType, true)) == data[p]
    ensures ToNat(Assemble(StreamBits(data, p, ShortBigEndianMostSignificant)[..16], UInt16Type, true))
            == LittleEndian(data[p..p + 2])
  {
    var format := ShortBigEndianMostSignificant;
    var unit := data[p..p + 2];
    var buffer := Reverse(unit);
    ShortRead(data, p, format, buffer);
    assert buffer[0] == data[p + 1] && buffer[1] == data[p];
    LittleEndianOfReverse(buffer);
    ReverseReverse(unit);
  }

  /** The common part of the two 16-bit presets: `buffer` is the refill's buffer for the unit at p. */
  lemma ShortRead(data: seq<byte>, p: nat, format: BitStreamFormat, buffer: seq<byte>)
    requires p + 2 <= |data| && format.byteSize == 2 && format.reversed
    requires buffer == if format.byteSwap then data[p..p + 2] else Reverse(data[p..p + 2])
    ensures |StreamBits(data, p, format)| >= 16
    ensures ToNat(Assemble(StreamBits(data, p, format)[..8], ByteType, true)) == buffer[0]
    ensures ToNat(Assemble(StreamBits(data, p, format)[8..16], ByteType, true)) == buffer[1]
    ensures ToNat(Assemble(StreamBits(data, p, format)[..16], UInt16Type, true)) == BigEndian(buffer)
  {
    var bits := StreamBits(data, p, format);
    ShortUnit(data, p, format, buffer);
    ShortByte(buffer, 0);
    ShortByte(buffer, 1);
    ShortWord(buffer);
    PrefixSlice(bits, 0, 8, 16);
    PrefixSlice(bits, 8, 16, 16);
  }

  lemma PrefixSlice<T>(s: seq<T>, a: nat, b: nat, n: nat)
    requires a <= b <= n <= |s|
    ensures s[..n][a..b] == s[a..b]
  {
  }

  /** The next 16 bits of a 2-byte-unit stream at p are the refill buffer, most significant bit first. */
  lemma ShortUnit(data: seq<byte>, p: nat, format: BitStreamFormat, buffer: seq<byte>)
    requires p + 2 <= |data| && format.byteSize == 2
    requires buffer == if format.byteSwap then data[p..p + 2] else Reverse(data[p..p + 2])
    ensures |StreamBits(data, p, format)| >= 16
    ensures StreamBits(data, p, format)[..16] == BufferBits(buffer, true)
  {
    NextUnit(data, p, format);
    UnitBitsOrder(data[p..p + 2], format);
  }

  /** Read<byte>(8) on the bits of byte j of a buffer delivered most significant bit first gives that byte. */
  lemma ShortByte(buffer: seq<byte>, j: nat)
    requires j < |buffer|
    ensures ToNat(Assemble(BufferBits(buffer, true)[8 * j..8 * j + 8], ByteType, true)) == buffer[j]
  {
    BufferBitsByte(buffer, j, true);
    ByteMostSignificantFirst(buffer[j]);
  }

  /** Read<ushort>(16) on the bits of a 2-byte buffer delivered most significant bit first reads it big-endian. */
  lemma ShortWord(buffer: seq<byte>)
    requires |buffer| == 2
    ensures ToNat(Assemble(BufferBits(buffer, true), UInt16Type, true)) == BigEndian(buffer)
  {
    var bits := BufferBits(buffer, true);
    AssembleLow(bits, UInt16Type, true);
    assert Assemble(bits, UInt16Type, true) == Reverse(bits) by {
      assert Assemble(bits, UInt16Type, true)[..16] == Assemble(bits, UInt16Type, true);
    }
    BufferMostSignificantFirst(buffer);
  }
}
