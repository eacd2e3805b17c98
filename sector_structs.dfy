/**
 * The fixed-size records at the start of a raw Mode 2 disc sector carrying
 * MDEC video, as the demuxer reads them with StreamExtensions.Read: each
 * field is decoded little-endian at a fixed offset of the record's bytes.
 */
module SectorLayouts {
  import opened Binary

  const SectorHeaderSize := 4
  const SectorSubHeaderSize := 4
  const MdecHeaderSize := 16
  const MdecSubHeaderSize := 16

  /** Minute, second and frame of a sector. */
  datatype SectorAddress = SectorAddress(m: byte, s: byte, f: byte)

  /** The sector address and the mode byte (SectorMode is a byte enum; any value is kept as read). */
  datatype SectorHeader = SectorHeader(address: SectorAddress, mode: byte)

  datatype SectorSubHeader = SectorSubHeader(fileNumber: byte, channelNumber: byte, subMode: byte, codingInformation: byte)
  {
    /** SubMode has the Video flag, 1 << 1. */
    predicate IsVideo() { Bit(subMode, 1) }
  }

  /** `kind` is the record's Type field. */
  datatype MdecHeader = MdecHeader(status: uint16, kind: uint16, sectorOffset: uint16, sectorSize: uint16,
                                   frameNumber: uint32, frameSize: uint32)

  datatype MdecSubHeader = MdecSubHeader(movieWidth: uint16, movieHeight: uint16,
                                         headM: uint32, headV: uint32, unspecified: uint32)

  /** The ushort stored little-endian at bytes[at..at + 2]. */
  function U16At(bytes: seq<byte>, at: nat): uint16
    requires at + 2 <= |bytes|
  {
    var v := LittleEndian(bytes[at..at + 2]);
    Pow2Widths();
    v
  }

  /** The uint stored little-endian at bytes[at..at + 4]. */
  function U32At(bytes: seq<byte>, at: nat): uint32
    requires at + 4 <= |bytes|
  {
    var v := LittleEndian(bytes[at..at + 4]);
    Pow2Widths();
    v
  }

  function DecodeSectorHeader(bytes: seq<byte>): SectorHeader
    requires |bytes| == SectorHeaderSize
  {
    SectorHeader(SectorAddress(bytes[0], bytes[1], bytes[2]), bytes[3])
  }

  function EncodeSectorHeader(h: SectorHeader): (bytes: seq<byte>)
    ensures |bytes| == SectorHeaderSize
  {
    [h.address.m, h.address.s, h.address.f, h.mode]
  }

  function DecodeSectorSubHeader(bytes: seq<byte>): SectorSubHeader
    requires |bytes| == SectorSubHeaderSize
  {
    SectorSubHeader(bytes[0], bytes[1], bytes[2], bytes[3])
  }

  function EncodeSectorSubHeader(h: SectorSubHeader): (bytes: seq<byte>)
    ensures |bytes| == SectorSubHeaderSize
  {
    [h.fileNumber, h.channelNumber, h.subMode, h.codingInformation]
  }

  function DecodeMdecHeader(bytes: seq<byte>): MdecHeader
    requires |bytes| == MdecHeaderSize
  {
    MdecHeader(U16At(bytes, 0), U16At(bytes, 2), U16At(bytes, 4), U16At(bytes, 6), U32At(bytes, 8), U32At(bytes, 12))
  }

  function EncodeMdecHeader(h: MdecHeader): (bytes: seq<byte>)
    ensures |bytes| == MdecHeaderSize
  {
    LeBytes(h.status, 2) + LeBytes(h.kind, 2) + LeBytes(h.sectorOffset, 2) + LeBytes(h.sectorSize, 2)
    + LeBytes(h.frameNumber, 4) + LeBytes(h.frameSize, 4)
  }

  function DecodeMdecSubHeader(bytes: seq<byte>): MdecSubHeader
    requires |bytes| == MdecSubHeaderSize
  {
    MdecSubHeader(U16At(bytes, 0), U16At(bytes, 2), U32At(bytes, 4), U32At(bytes, 8), U32At(bytes, 12))
  }

  function EncodeMdecSubHeader(h: MdecSubHeader): (bytes: seq<byte>)
    ensures |bytes| == MdecSubHeaderSize
  {
    LeBytes(h.movieWidth, 2) + LeBytes(h.movieHeight, 2) + LeBytes(h.headM, 4) + LeBytes(h.headV, 4)
    + LeBytes(h.unspecified, 4)
  }

  lemma U16RoundTrip(v: uint16)
    ensures LittleEndian(LeBytes(v, 2)) == v
  {
    Pow2Widths();
    LittleEndianLeBytes(v, 2);
  }

  lemma U32RoundTrip(v: uint32)
    ensures LittleEndian(LeBytes(v, 4)) == v
  {
    Pow2Widths();
    LittleEndianLeBytes(v, 4);
  }

  /** Decoding the bytes of an encoded record gives the record back. */
  lemma SectorRecordsDecodeEncode(h: SectorHeader, s: SectorSubHeader)
    ensures DecodeSectorHeader(EncodeSectorHeader(h)) == h
    ensures DecodeSectorSubHeader(EncodeSectorSubHeader(s)) == s
  {
  }

  /** Every 4-byte image is the encoding of the records decoded from it. */
  lemma SectorRecordsEncodeDecode(bytes: seq<byte>)
    requires |bytes| == 4
    ensures EncodeSectorHeader(DecodeSectorHeader(bytes)) == bytes
    ensures EncodeSectorSubHeader(DecodeSectorSubHeader(bytes)) == bytes
  {
  }

  lemma MdecHeaderDecodeEncode(h: MdecHeader)
    ensures DecodeMdecHeader(EncodeMdecHeader(h)) == h
  {
    var b := EncodeMdecHeader(h);
    assert b[0..2] == LeBytes(h.status, 2) && b[2..4] == LeBytes(h.kind, 2);
    assert b[4..6] == LeBytes(h.sectorOffset, 2) && b[6..8] == LeBytes(h.sectorSize, 2);
    assert b[8..12] == LeBytes(h.frameNumber, 4) && b[12..16] == LeBytes(h.frameSize, 4);
    U16RoundTrip(h.status);
    U16RoundTrip(h.kind);
    U16RoundTrip(h.sectorOffset);
    U16RoundTrip(h.sectorSize);
    U32RoundTrip(h.frameNumber);
    U32RoundTrip(h.frameSize);
  }

  lemma MdecHeaderEncodeDecode(bytes: seq<byte>)
    requires |bytes| == MdecHeaderSize
    ensures EncodeMdecHeader(DecodeMdecHeader(bytes)) == bytes
  {
    LeBytesLittleEndian(bytes[0..2]);
    LeBytesLittleEndian(bytes[2..4]);
    LeBytesLittleEndian(bytes[4..6]);
    LeBytesLittleEndian(bytes[6..8]);
    LeBytesLittleEndian(bytes[8..12]);
    LeBytesLittleEndian(bytes[12..16]);
    assert bytes == bytes[0..2] + bytes[2..4] + bytes[4..6] + bytes[6..8] + bytes[8..12] + bytes[12..16];
  }

  lemma MdecSubHeaderDecodeEncode(h: MdecSubHeader)
    ensures DecodeMdecSubHeader(EncodeMdecSubHeader(h)) == h
  {
    var b := EncodeMdecSubHeader(h);
    assert b[0..2] == LeBytes(h.movieWidth, 2) && b[2..4] == LeBytes(h.movieHeight, 2);
    assert b[4..8] == LeBytes(h.headM, 4) && b[8..12] == LeBytes(h.headV, 4);
    assert b[12..16] == LeBytes(h.unspecified, 4);
    U16RoundTrip(h.movieWidth);
    U16RoundTrip(h.movieHeight);
    U32RoundTrip(h.headM);
    U32RoundTrip(h.headV);
    U32RoundTrip(h.unspecified);
  }

  lemma MdecSubHeaderEncodeDecode(bytes: seq<byte>)
    requires |bytes| == MdecSubHeaderSize
    ensures EncodeMdecSubHeader(DecodeMdecSubHeader(bytes)) == bytes
  {
    LeBytesLittleEndian(bytes[0..2]);
    LeBytesLittleEndian(bytes[2..4]);
    LeBytesLittleEndian(bytes[4..8]);
    LeBytesLittleEndian(bytes[8..12]);
    LeBytesLittleEndian(bytes[12..16]);
    assert bytes == bytes[0..2] + bytes[2..4] + bytes[4..8] + bytes[8..12] + bytes[12..16];
  }
}
