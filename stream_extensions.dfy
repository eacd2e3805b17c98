/**
 * StreamExtensions.Read<T>(stream, endianness): reads sizeof(T) bytes and
 * reverses them when the requested byte order is not the host's. The bytes it
 * returns are the in-memory image that MemoryMarshal.Read<T> reinterprets; on
 * the little-endian host that reinterpretation is a little-endian decode.
 */
module StreamExtensions {
  import opened Binary
  import opened Results
  import opened Streams

  datatype Endianness = BE | LE

  /** StreamExtensions.Endianness: the host's byte order. */
  const HostEndianness: Endianness := if IsLittleEndian then LE else BE

  /** The in-memory image of `bytes` read with the given (or the default) byte order. */
  function MemoryImage(bytes: seq<byte>, endianness: Option<Endianness>): seq<byte>
  {
    if endianness.GetOr(HostEndianness) != HostEndianness then Reverse(bytes) else bytes
  }

  /** Read<T> with sizeof(T) == size; the result is the image MemoryMarshal.Read<T> sees. */
  method Read(stream: ByteStream, size: nat, endianness: Option<Endianness>) returns (r: Result<seq<byte>, StreamError>)
    modifies stream
    ensures old(stream.position) + size <= |stream.data| ==>
              && r == Success(MemoryImage(stream.data[old(stream.position)..old(stream.position) + size], endianness))
              && stream.position == old(stream.position) + size
    ensures old(stream.position) + size > |stream.data| ==>
              r == Failure(EndOfStream) && stream.position == old(stream.position)
  {
    var span := new byte[size];
    ghost var at := stream.position;
    var read := stream.ReadExactly(span, 0, size);
    if read.Fail? {
      return Failure(read.error);
    }
    assert span[..] == stream.data[at..at + size];
    if endianness.GetOr(HostEndianness) != HostEndianness {
      ReverseInPlace(span);
    }
    r := Success(span[..]);
  }

  /**
   * On the little-endian host, the value MemoryMarshal.Read decodes from the
   * image is the little-endian value of the stream bytes by default or for LE,
   * and their big-endian value for BE.
   */
  lemma ReadDecodesRequestedOrder(bytes: seq<byte>)
    ensures HostEndianness == LE
    ensures LittleEndian(MemoryImage(bytes, None)) == LittleEndian(bytes)
    ensures LittleEndian(MemoryImage(bytes, Some(LE))) == LittleEndian(bytes)
    ensures LittleEndian(MemoryImage(bytes, Some(BE))) == BigEndian(bytes)
  {
    LittleEndianOfReverse(bytes);
  }
}
