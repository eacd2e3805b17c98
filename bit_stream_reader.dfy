/**
 * BitStreamReader: a cursor over a byte stream that keeps a FIFO queue of
 * pending bits, refills it one format unit at a time, and assembles integers
 * of a requested width from the bits it dequeues.
 *
 * The reader carries a fixed override, FixCrap, that is always on: every
 * refill reverses the unit's bytes once more and extracts each byte
 * most-significant bit first, whatever the format says. The placement of bits
 * in Read<T> still follows the format's own `reversed` flag.
 */
module BitStreamReading {
  import opened Binary
  import opened Results
  import Streams
  import opened BitStreamFormats

  /** The override in the reader; it is never switched off. */
  const FixCrap := true

  datatype ReadError =
    | EndOfStream          // EndOfStreamException from a refill
    | ArgumentOutOfRange   // the bit count is outside 1 .. 8 * sizeof(T)

  /** The integer type T of Read<T>: sizeof(T) in bytes, and whether T.MinValue is negative. */
  datatype IntegerType = IntegerType(size: PositiveInt, signed: bool) {
    function Width(): nat { 8 * size }
  }

  const ByteType := IntegerType(1, false)
  const SByteType := IntegerType(1, true)
  const UInt16Type := IntegerType(2, false)
  const Int16Type := IntegerType(2, true)
  const UInt32Type := IntegerType(4, false)
  const Int32Type := IntegerType(4, true)

  /** The 8 bits the inner refill loop enqueues for byte b: bit 7 - i or bit i at step i. */
  function ByteBits(b: byte, reversed: bool): (bits: seq<bool>)
    ensures |bits| == 8
  {
    seq(8, i requires 0 <= i < 8 => Bit(b, if reversed then 7 - i else i))
  }

  /** The bits enqueued for a buffer, byte after byte: bit j of the result comes from byte j / 8. */
  function BufferBits(buffer: seq<byte>, reversed: bool): (bits: seq<bool>)
    ensures |bits| == 8 * |buffer|
  {
    seq(8 * |buffer|, j requires 0 <= j < 8 * |buffer| => ByteBits(buffer[j / 8], reversed)[j % 8])
  }

  /** What one refill enqueues for the unit `unit` read from the stream. */
  function UnitBits(unit: seq<byte>, format: BitStreamFormat): (bits: seq<bool>)
    ensures |bits| == 8 * |unit|
  {
    var swapped := if format.byteSwap then Reverse(unit) else unit;
    var reversed := if FixCrap then true else format.reversed;
    var buffer := if FixCrap then Reverse(swapped) else swapped;
    BufferBits(buffer, reversed)
  }

  /** All bits that refills can still draw from the stream: whole units from `position` on. */
  function StreamBits(data: seq<byte>, position: nat, format: BitStreamFormat): seq<bool>
    decreases |data| - position
  {
    if |data| - position < format.byteSize then []
    else UnitBits(data[position..position + format.byteSize], format)
         + StreamBits(data, position + format.byteSize, format)
  }

  /**
   * The bit image (index 0 = least significant) of the value Read<T> returns
   * after dequeuing `read`: the i-th bit read lands at |read| - 1 - i when
   * `reversed`, else at i; for a signed T every higher bit is set.
   */
  function Assemble(read: seq<bool>, t: IntegerType, reversed: bool): (image: seq<bool>)
    requires 1 <= |read| <= t.Width()
    ensures |image| == t.Width()
  {
    seq(t.Width(), k requires 0 <= k < t.Width() =>
      if k < |read| then read[if reversed then |read| - 1 - k else k] else t.signed)
  }

  lemma ByteBitsStep(b: byte, reversed: bool, i: nat)
    requires i < 8
    ensures ByteBits(b, reversed)[..i + 1] == ByteBits(b, reversed)[..i] + [Bit(b, if reversed then 7 - i else i)]
  {
  }

  lemma BufferBitsSnoc(buffer: seq<byte>, j: nat, reversed: bool)
    requires j < |buffer|
    ensures BufferBits(buffer[..j + 1], reversed) == BufferBits(buffer[..j], reversed) + ByteBits(buffer[j], reversed)
  {
    var longer, shorter := BufferBits(buffer[..j + 1], reversed), BufferBits(buffer[..j], reversed);
    forall k | 0 <= k < 8 * (j + 1)
      ensures longer[k] == (shorter + ByteBits(buffer[j], reversed))[k]
    {
      if k >= 8 * j {
        assert k / 8 == j && k % 8 == k - 8 * j;
      }
    }
  }

  /** A refill moves exactly one unit's bits from the stream to the queue. */
  lemma StreamBitsUnfold(data: seq<byte>, position: nat, format: BitStreamFormat)
    requires |data| - position >= format.byteSize
    ensures StreamBits(data, position, format)
            == UnitBits(data[position..position + format.byteSize], format)
               + StreamBits(data, position + format.byteSize, format)
  {
  }

  /** The value of a two's-complement bit image of a signed type. */
  function SignedValue(image: seq<bool>): int
    requires image != []
  {
    ToNat(image) - if image[|image| - 1] then Pow2(|image|) else 0
  }

  /** The second loop of Read<T> for a signed T: data |= 1 << i for every i from `from` up. */
  method SetHighBits(data: seq<bool>, from: nat) returns (filled: seq<bool>)
    ensures |filled| == |data|
    ensures forall k :: 0 <= k < |data| ==> filled[k] == (data[k] || from <= k)
  {
    filled := data;
    var i := from;
    while i < |filled|
      invariant |filled| == |data|
      invariant forall k :: 0 <= k < |data| ==> filled[k] == (data[k] || (from <= k < i))
    {
      filled := filled[i := true];
      i := i + 1;
    }
  }

  lemma PrefixSnoc<T>(s: seq<T>, i: nat)
    requires i < |s|
    ensures s[..i + 1] == s[..i] + [s[i]]
  {
  }

  /** Taking the first element of a concatenation whose first part is not empty. */
  lemma DropFirst<T>(a: seq<T>, b: seq<T>)
    requires a != []
    ensures (a + b)[0] == a[0] && (a + b)[1..] == a[1..] + b
  {
  }

  class BitStreamReader {
    const stream: Streams.ByteStream
    const format: BitStreamFormat
    var queue: seq<bool>

    constructor (stream: Streams.ByteStream, format: BitStreamFormat)
      ensures this.stream == stream && this.format == format && queue == []
      ensures Pending() == StreamBits(stream.data, stream.position, format)
    {
      this.stream := stream;
      this.format := format;
      queue := [];
    }

    /** Every bit the reader can still deliver: the queue, then the stream's whole units. */
    ghost function Pending(): seq<bool>
      reads this, stream
    {
      queue + StreamBits(stream.data, stream.position, format)
    }

    /** Refill the queue with one unit, but only when it is empty. */
    method Update() returns (r: Outcome<ReadError>)
      modifies this, stream
      ensures old(queue) != [] ==>
                r == Pass && queue == old(queue) && stream.position == old(stream.position)
      ensures old(queue) == [] && |stream.data| - old(stream.position) < format.byteSize ==>
                r == Fail(EndOfStream) && queue == [] && stream.position == old(stream.position)
      ensures old(queue) == [] && |stream.data| - old(stream.position) >= format.byteSize ==>
                && r == Pass
                && stream.position == old(stream.position) + format.byteSize
                && queue == UnitBits(stream.data[old(stream.position)..stream.position], format)
      ensures Pending() == old(Pending())
      ensures r.Pass? <==> queue != []
      ensures r.Fail? ==> old(Pending()) == []
    {
      if queue != [] {
        return Pass;
      }
      if |stream.data| - stream.position < format.byteSize {
        return Fail(EndOfStream);
      }
      ghost var at := stream.position;
      var buffer := new byte[format.byteSize];
      var read := stream.ReadExactly(buffer, 0, format.byteSize);
      assert buffer[..] == stream.data[at..at + format.byteSize];
      if format.byteSwap {
        Streams.ReverseInPlace(buffer);
      }
      var reversed := format.reversed;
      if FixCrap {
        reversed := true;
        Streams.ReverseInPlace(buffer);
      }
      ghost var unit := stream.data[at..at + format.byteSize];
      assert buffer[..] == Reverse(if format.byteSwap then Reverse(unit) else unit);
      EnqueueBytes(buffer, reversed);
      assert queue == UnitBits(unit, format);
      assert stream.data[at..stream.position] == unit;
      StreamBitsUnfold(stream.data, at, format);
      assert Pending() == queue + StreamBits(stream.data, at + format.byteSize, format);
      assert old(Pending()) == StreamBits(stream.data, at, format);
      r := Pass;
    }

    /** The foreach loop of a refill: each byte of `buffer` becomes 8 queued bits. */
    method EnqueueBytes(buffer: array<byte>, reversed: bool)
      modifies this
      ensures queue == old(queue) + BufferBits(buffer[..], reversed)
    {
      var j := 0;
      while j < buffer.Length
        invariant 0 <= j <= buffer.Length
        invariant queue == old(queue) + BufferBits(buffer[..j], reversed)
      {
        EnqueueByte(buffer[j], reversed);
        BufferBitsSnoc(buffer[..], j, reversed);
        assert buffer[..][..j + 1] == buffer[..j + 1] && buffer[..][..j] == buffer[..j];
        j := j + 1;
      }
      assert buffer[..j] == buffer[..];
    }

    /** The inner loop of a refill: bit 7 - i (or bit i) of b is queued at step i. */
    method EnqueueByte(b: byte, reversed: bool)
      modifies this
      ensures queue == old(queue) + ByteBits(b, reversed)
    {
      var i := 0;
      while i < 8
        invariant 0 <= i <= 8
        invariant queue == old(queue) + ByteBits(b, reversed)[..i]
      {
        ByteBitsStep(b, reversed, i);
        queue := queue + [Bit(b, if reversed then 7 - i else i)];
        i := i + 1;
      }
    }

    /** Read(): one bit, refilling first when the queue is empty. */
    method Read() returns (r: Result<bool, ReadError>)
      modifies this, stream
      ensures old(Pending()) == [] ==> r == Failure(EndOfStream) && Pending() == []
      ensures old(Pending()) != [] ==> r == Success(old(Pending())[0]) && Pending() == old(Pending())[1..]
    {
      var refill := Update();
      if refill.Fail? {
        return Failure(refill.error);
      }
      ghost var pending := queue;
      ghost var rest := StreamBits(stream.data, stream.position, format);
      var bit := queue[0];
      queue := queue[1..];
      DropFirst(pending, rest);
      r := Success(bit);
    }

    /** Read<T>(bits): `bits` bits assembled into a value of the integer type `t`. */
    method ReadInteger(t: IntegerType, bits: int) returns (r: Result<seq<bool>, ReadError>)
      modifies this, stream
      ensures !(1 <= bits <= t.Width()) ==>
                r == Failure(ArgumentOutOfRange) && queue == old(queue) && stream.position == old(stream.position)
      ensures 1 <= bits <= t.Width() && bits <= |old(Pending())| ==>
                && r == Success(Assemble(old(Pending())[..bits], t, format.reversed))
                && Pending() == old(Pending())[bits..]
      ensures 1 <= bits <= t.Width() && bits > |old(Pending())| ==>
                r == Failure(EndOfStream) && Pending() == []
    {
      var size := t.Width();
      if bits < 1 || bits > size {
        return Failure(ArgumentOutOfRange);
      }
      ghost var source := Pending();
      var data := Repeat(false, size);
      PlacedNone(bits, size, format.reversed);
      var i := 0;
      while i < bits
        invariant 0 <= i <= bits
        invariant i <= |source| && Pending() == source[i..]
        invariant data == Placed(source[..i], bits, size, format.reversed)
      {
        ghost var prefix, rest := source[..i], source[i..];
        var read := Read();
        if read.Failure? {
          return Failure(read.error);
        }
        assert read.value == source[i] && Pending() == source[i + 1..] by {
          assert rest[0] == source[i] && rest[1..] == source[i + 1..];
        }
        var at := if format.reversed then bits - i - 1 else i;
        PlacedStep(prefix, read.value, bits, size, format.reversed);
        PrefixSnoc(source, i);
        data := data[at := data[at] || read.value];
        i := i + 1;
      }
      if !t.signed {
        PlacedAssemble(source[..bits], t, format.reversed);
        return Success(data);
      }
      var filled := SetHighBits(data, bits);
      PlacedAssemble(source[..bits], t, format.reversed);
      SignFill(data, filled, source[..bits], t, format.reversed);
      r := Success(filled);
    }
  }

  /** The image the first loop of Read<T> has built once the bits `read` of the `bits` requested are placed. */
  function Placed(read: seq<bool>, bits: nat, width: nat, reversed: bool): (image: seq<bool>)
    requires |read| <= bits <= width
    ensures |image| == width
  {
    seq(width, k requires 0 <= k < width =>
      k < bits && (if reversed then bits - 1 - k else k) < |read| && read[if reversed then bits - 1 - k else k])
  }

  lemma PlacedNone(bits: nat, width: nat, reversed: bool)
    requires bits <= width
    ensures Repeat(false, width) == Placed([], bits, width, reversed)
  {
  }

  /** Placing one more bit ORs it into its position. */
  lemma PlacedStep(read: seq<bool>, b: bool, bits: nat, width: nat, reversed: bool)
    requires |read| < bits <= width
    ensures var at := if reversed then bits - |read| - 1 else |read|;
            var before := Placed(read, bits, width, reversed);
            Placed(read + [b], bits, width, reversed) == before[at := before[at] || b]
  {
  }

  /** With every bit placed, the image is Assemble's without the sign fill. */
  lemma PlacedAssemble(read: seq<bool>, t: IntegerType, reversed: bool)
    requires 1 <= |read| <= t.Width()
    ensures !t.signed ==> Placed(read, |read|, t.Width(), reversed) == Assemble(read, t, reversed)
    ensures forall k :: 0 <= k < t.Width() ==>
              Assemble(read, t, reversed)[k] == (Placed(read, |read|, t.Width(), reversed)[k] || (t.signed && |read| <= k))
  {
  }

  lemma SignFill(data: seq<bool>, filled: seq<bool>, read: seq<bool>, t: IntegerType, reversed: bool)
    requires 1 <= |read| <= t.Width() && t.signed
    requires data == Placed(read, |read|, t.Width(), reversed)
    requires |filled| == |data| && forall k :: 0 <= k < |data| ==> filled[k] == (data[k] || |read| <= k)
    requires forall k :: 0 <= k < t.Width() ==>
               Assemble(read, t, reversed)[k] == (Placed(read, |read|, t.Width(), reversed)[k] || (t.signed && |read| <= k))
    ensures filled == Assemble(read, t, reversed)
  {
  }
}
