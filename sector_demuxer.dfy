/**
 * The MDEC sector demuxer: walks the raw 2352-byte sectors of a disc image,
 * checks the duplicated sub-header, skips sectors without the Video flag and
 * scatters each video sector's 2016 payload bytes into the buffer of its
 * frame, at SectorOffset * 2016 and clamped to the frame's size.
 *
 * The same loop exists twice: with decodeFirstFrameOnly it stops at the first
 * video sector whose FrameNumber is above 1, without it every sector is visited.
 */
module SectorDemuxing {
  import opened Binary
  import opened Results
  import opened Streams
  import StreamExtensions
  import opened SectorLayouts

  const SectorLength := 2352
  const SyncLength := 12
  /** Sync, header, the two sub-header copies, the MDEC header and the MDEC sub-header. */
  const PayloadOffset := SyncLength + SectorHeaderSize + 2 * SectorSubHeaderSize + MdecHeaderSize + MdecSubHeaderSize
  const PayloadChunk := 2016
  const VideoCodingInformation := 128

  datatype DemuxError =
    | SubHeaderMismatch            // the two sub-header copies differ
    | UnexpectedCodingInformation  // a video sector whose CodingInformation is not 128
    | FrameLengthMismatch          // nothing to copy, and the frame's buffer is not FrameSize long
    | BufferRangeInvalid           // the copy runs past the frame's buffer (ReadExactly's argument check)

  /** Everything the loop reads from one sector. */
  datatype Sector = Sector(header: SectorHeader, subHeader1: SectorSubHeader, subHeader2: SectorSubHeader,
                           mdecHeader: MdecHeader, mdecSubHeader: MdecSubHeader, payload: seq<byte>)

  /** A frame as the dictionary holds it: the headers of its first sector and its buffer. */
  datatype Frame = Frame(sectorHeader: SectorHeader, sectorSubHeader: SectorSubHeader,
                         mdecHeader: MdecHeader, mdecSubHeader: MdecSubHeader, data: seq<byte>)

  /** Where a sector's payload goes in its frame: `len` bytes at `pos`. */
  datatype Span = Span(pos: nat, len: nat)

  datatype Control = Proceed | Halt | Raise(error: DemuxError)

  /** What one sector does: how the loop goes on, and the dictionary afterwards. */
  datatype Step = Step(control: Control, frames: map<uint32, Frame>)

  datatype DemuxResult = DemuxResult(outcome: Outcome<DemuxError>, frames: map<uint32, Frame>)

  function SectorCount(data: seq<byte>): nat
  {
    |data| / SectorLength
  }

  /** Every sector the loop visits lies wholly inside the image, payload included. */
  lemma SectorBounds(data: seq<byte>, i: nat)
    requires i < SectorCount(data)
    ensures PayloadOffset == 56 && PayloadOffset + PayloadChunk <= SectorLength
    ensures i * SectorLength + PayloadOffset + PayloadChunk <= (i + 1) * SectorLength <= |data|
  {
    var q := SectorCount(data);
    assert q * SectorLength <= |data|;
    assert (i + 1) * SectorLength <= q * SectorLength;
  }

  /** The 2352 bytes of sector i. */
  function SectorBytes(data: seq<byte>, i: nat): (bytes: seq<byte>)
    requires i < SectorCount(data)
    ensures |bytes| == SectorLength
  {
    SectorBounds(data, i);
    data[i * SectorLength..(i + 1) * SectorLength]
  }

  /** The records of one sector, each at its fixed offset from the start of the sector. */
  function DecodeSector(bytes: seq<byte>): (s: Sector)
    requires |bytes| == SectorLength
    ensures |s.payload| == PayloadChunk
  {
    Sector(DecodeSectorHeader(bytes[12..16]),
           DecodeSectorSubHeader(bytes[16..20]),
           DecodeSectorSubHeader(bytes[20..24]),
           DecodeMdecHeader(bytes[24..40]),
           DecodeMdecSubHeader(bytes[40..56]),
           bytes[PayloadOffset..PayloadOffset + PayloadChunk])
  }

  /** Sector i as the loop reads it: only its own bytes count, whatever the previous sector consumed. */
  function ParseSector(data: seq<byte>, i: nat): (s: Sector)
    requires i < SectorCount(data)
    ensures |s.payload| == PayloadChunk
  {
    DecodeSector(SectorBytes(data, i))
  }

  function Min(a: nat, b: nat): nat
  {
    if a <= b then a else b
  }

  /** pos = min(FrameSize, SectorOffset * 2016) and len = min(2016, FrameSize - pos). */
  function Window(frameSize: nat, sectorOffset: nat): (w: Span)
    ensures w.pos <= frameSize && w.pos <= sectorOffset * PayloadChunk
    ensures w.len <= PayloadChunk && w.pos + w.len <= frameSize
    ensures w.len > 0 ==> w.pos == sectorOffset * PayloadChunk
    ensures w.len == 0 <==> frameSize <= sectorOffset * PayloadChunk
    ensures w.len == PayloadChunk || w.pos + w.len == frameSize
  {
    var pos := Min(frameSize, sectorOffset * PayloadChunk);
    Span(pos, Min(PayloadChunk, frameSize - pos))
  }

  /**
   * The `(int)` casts of pos and len before the copy never wrap: SectorOffset
   * is a ushort, so pos is at most 65535 * 2016, and len at most 2016.
   */
  lemma WindowFitsInt32(h: MdecHeader)
    ensures var w := Window(h.frameSize as nat, h.sectorOffset as nat);
            w.pos <= 65535 * PayloadChunk < 0x8000_0000 && w.len <= PayloadChunk
  {
    var w := Window(h.frameSize as nat, h.sectorOffset as nat);
    assert w.pos <= h.sectorOffset as nat * PayloadChunk;
  }

  function Zeros(n: nat): (s: seq<byte>)
    ensures |s| == n && forall k :: 0 <= k < n ==> s[k] == 0
  {
    seq(n, _ => 0)
  }

  /** The frame the first sector of a frame number creates: its headers and a zeroed buffer of FrameSize bytes. */
  function NewFrame(s: Sector): Frame
  {
    Frame(s.header, s.subHeader1, s.mdecHeader, s.mdecSubHeader, Zeros(s.mdecHeader.frameSize))
  }

  /**
   * The copy step for a frame whose buffer is `data`: the first `len` payload
   * bytes go to `pos` when the window is not empty (ReadExactly refuses a
   * range past the buffer), otherwise the buffer must be FrameSize long.
   */
  function FillFrame(data: seq<byte>, h: MdecHeader, payload: seq<byte>): (Control, seq<byte>)
    requires |payload| == PayloadChunk
  {
    var w := Window(h.frameSize, h.sectorOffset);
    if w.len > 0 then
      if w.pos + w.len > |data| then (Raise(BufferRangeInvalid), data)
      else (Proceed, Overwrite(data, w.pos, payload[..w.len]))
    else if |data| != h.frameSize then (Raise(FrameLengthMismatch), data)
    else (Proceed, data)
  }

  /** A checked video sector: find or create its frame, then copy into it. */
  function Scatter(frames: map<uint32, Frame>, s: Sector): Step
    requires |s.payload| == PayloadChunk
  {
    var n := s.mdecHeader.frameNumber;
    var frame := if n in frames then frames[n] else NewFrame(s);
    var filled := FillFrame(frame.data, s.mdecHeader, s.payload);
    Step(filled.0, frames[n := frame.(data := filled.1)])
  }

  /** One pass of the loop body over the sector `s`. */
  function ApplySector(frames: map<uint32, Frame>, s: Sector, decodeFirstFrameOnly: bool): Step
    requires |s.payload| == PayloadChunk
  {
    if s.subHeader1 != s.subHeader2 then Step(Raise(SubHeaderMismatch), frames)
    else if !s.subHeader1.IsVideo() then Step(Proceed, frames)
    else if s.subHeader1.codingInformation != VideoCodingInformation then Step(Raise(UnexpectedCodingInformation), frames)
    else if decodeFirstFrameOnly && s.mdecHeader.frameNumber > 1 then Step(Halt, frames)
    else Scatter(frames, s)
  }

  /** Every sector of a disc image, in order, as the loop reads them. */
  function Sectors(data: seq<byte>): (sectors: seq<Sector>)
    ensures |sectors| == SectorCount(data)
    ensures forall j :: 0 <= j < |sectors| ==> sectors[j] == ParseSector(data, j)
  {
    seq(SectorCount(data), j requires 0 <= j < SectorCount(data) => ParseSector(data, j))
  }

  /** Every sector carries a whole payload chunk. */
  predicate Parsed(sectors: seq<Sector>)
  {
    forall j :: 0 <= j < |sectors| ==> |sectors[j].payload| == PayloadChunk
  }

  /** The loop from sector i on, with the dictionary `frames`. */
  function DemuxFrom(sectors: seq<Sector>, i: nat, frames: map<uint32, Frame>, decodeFirstFrameOnly: bool): DemuxResult
    requires Parsed(sectors)
    decreases |sectors| - i
  {
    if i >= |sectors| then DemuxResult(Pass, frames)
    else
      var step := ApplySector(frames, sectors[i], decodeFirstFrameOnly);
      match step.control
      case Proceed => DemuxFrom(sectors, i + 1, step.frames, decodeFirstFrameOnly)
      case Halt => DemuxResult(Pass, step.frames)
      case Raise(e) => DemuxResult(Fail(e), step.frames)
  }

  /** The whole loop over a disc image, from an empty dictionary. */
  function Demux(data: seq<byte>, decodeFirstFrameOnly: bool): DemuxResult
  {
    DemuxFrom(Sectors(data), 0, map[], decodeFirstFrameOnly)
  }

  /** FrameData: the headers of a frame's first sector and its byte buffer. */
  class FrameData {
    const sectorHeader: SectorHeader
    const sectorSubHeader: SectorSubHeader
    const mdecHeader: MdecHeader
    const mdecSubHeader: MdecSubHeader
    const data: array<byte>

    constructor (sectorHeader: SectorHeader, sectorSubHeader: SectorSubHeader,
                 mdecHeader: MdecHeader, mdecSubHeader: MdecSubHeader)
      ensures View() == Frame(sectorHeader, sectorSubHeader, mdecHeader, mdecSubHeader, Zeros(mdecHeader.frameSize))
      ensures fresh(data)
    {
      this.sectorHeader := sectorHeader;
      this.sectorSubHeader := sectorSubHeader;
      this.mdecHeader := mdecHeader;
      this.mdecSubHeader := mdecSubHeader;
      data := new byte[mdecHeader.frameSize](_ => 0);
    }

    function View(): Frame
      reads data
    {
      Frame(sectorHeader, sectorSubHeader, mdecHeader, mdecSubHeader, data[..])
    }
  }

  function Buffers(frames: map<uint32, FrameData>): set<array<byte>>
  {
    set n | n in frames :: frames[n].data
  }

  /** The dictionary's current contents as values. */
  function Snapshot(frames: map<uint32, FrameData>): map<uint32, Frame>
    reads Buffers(frames)
  {
    map n | n in frames :: frames[n].View()
  }

  /** No two frames share a buffer. */
  predicate DistinctBuffers(frames: map<uint32, FrameData>)
  {
    forall a, b :: a in frames && b in frames && a != b ==> frames[a].data != frames[b].data
  }

  /**
   * TestMethod1's sector loop: every whole sector of the image in order, until
   * the end, a stop, or a failed check. `frames` is the dictionary it leaves.
   */
  method DemuxSectors(stream: ByteStream, decodeFirstFrameOnly: bool)
    returns (result: Outcome<DemuxError>, frames: map<uint32, FrameData>)
    modifies stream
    ensures Demux(stream.data, decodeFirstFrameOnly) == DemuxResult(result, Snapshot(frames))
    ensures DistinctBuffers(frames)
  {
    var sectorCount := stream.Length() / SectorLength;
    frames := map[];
    assert Snapshot(frames) == map[];
    var i := 0;
    while i < sectorCount
      invariant 0 <= i <= sectorCount == SectorCount(stream.data)
      invariant DistinctBuffers(frames)
      invariant forall n :: n in frames ==> fresh(frames[n].data)
      invariant DemuxFrom(Sectors(stream.data), i, Snapshot(frames), decodeFirstFrameOnly) == Demux(stream.data, decodeFirstFrameOnly)
      decreases sectorCount - i
    {
      var control, next := ProcessSector(stream, i, frames, decodeFirstFrameOnly);
      frames := next;
      match control
      case Raise(e) =>
        return Fail(e), frames;
      case Halt =>
        return Pass, frames;
      case Proceed =>
      i := i + 1;
    }
    result := Pass;
  }

  /**
   * The loop body for sector i: seek to the sector, read its records, and
   * create or fill the frame it belongs to.
   */
  method ProcessSector(stream: ByteStream, i: nat, frames: map<uint32, FrameData>, decodeFirstFrameOnly: bool)
    returns (control: Control, next: map<uint32, FrameData>)
    requires i < SectorCount(stream.data)
    requires DistinctBuffers(frames)
    modifies stream, Buffers(frames)
    ensures ApplySector(old(Snapshot(frames)), ParseSector(stream.data, i), decodeFirstFrameOnly)
            == Step(control, Snapshot(next))
    ensures DistinctBuffers(next)
    ensures forall n :: n in frames ==> n in next && next[n] == frames[n]
    ensures forall n :: n in next && n !in frames ==> fresh(next[n].data)
  {
    ghost var s := ParseSector(stream.data, i);
    ghost var before := Snapshot(frames);
    next := frames;
    var header, subHeader1, subHeader2 := ReadSectorHeaders(stream, i);
    assert Snapshot(next) == before;
    assert s.header == header && s.subHeader1 == subHeader1 && s.subHeader2 == subHeader2;
    if subHeader1 != subHeader2 {
      return Raise(SubHeaderMismatch), next;
    }
    if !subHeader1.IsVideo() {
      return Proceed, next;
    }
    if subHeader1.codingInformation != VideoCodingInformation {
      return Raise(UnexpectedCodingInformation), next;
    }
    var mdecHeader, mdecSubHeader := ReadMdecHeaders(stream, i);
    assert Snapshot(next) == before;
    assert s.mdecHeader == mdecHeader && s.mdecSubHeader == mdecSubHeader;
    if decodeFirstFrameOnly && mdecHeader.frameNumber > 1 {
      return Halt, next;
    }
    control, next := ScatterSector(stream, frames, header, subHeader1, mdecHeader, mdecSubHeader, s);
  }

  /**
   * The rest of the loop body for a checked video sector: look the frame up,
   * create it on first sight, and copy the payload into it.
   */
  method ScatterSector(stream: ByteStream, frames: map<uint32, FrameData>, header: SectorHeader,
                       subHeader: SectorSubHeader, mdecHeader: MdecHeader, mdecSubHeader: MdecSubHeader,
                       ghost s: Sector)
    returns (control: Control, next: map<uint32, FrameData>)
    requires |s.payload| == PayloadChunk
    requires s.header == header && s.subHeader1 == subHeader && s.mdecHeader == mdecHeader && s.mdecSubHeader == mdecSubHeader
    requires stream.position + PayloadChunk <= |stream.data|
    requires stream.data[stream.position..stream.position + PayloadChunk] == s.payload
    requires DistinctBuffers(frames)
    modifies stream, Buffers(frames)
    ensures Scatter(old(Snapshot(frames)), s) == Step(control, Snapshot(next))
    ensures DistinctBuffers(next)
    ensures forall n :: n in frames ==> n in next && next[n] == frames[n]
    ensures forall n :: n in next && n !in frames ==> fresh(next[n].data)
  {
    ghost var before := Snapshot(frames);
    var n := mdecHeader.frameNumber;
    var frame;
    frame, next := FindOrCreate(frames, header, subHeader, mdecHeader, mdecSubHeader, s);
    ghost var frameValue := frame.View();
    control := FillFound(stream, next, n, frame, mdecHeader, s.payload);
    UpdateTwice(before, n, frameValue, frame.View());
    ScatterOf(before, s, frameValue);
  }

  /** Fill on the frame under `n`; the views of all the other frames stay as they were. */
  method FillFound(stream: ByteStream, frames: map<uint32, FrameData>, n: uint32, frame: FrameData,
                   mdecHeader: MdecHeader, ghost payload: seq<byte>)
    returns (control: Control)
    requires n in frames && frames[n] == frame && DistinctBuffers(frames)
    requires |payload| == PayloadChunk
    requires stream.position + PayloadChunk <= |stream.data|
    requires stream.data[stream.position..stream.position + PayloadChunk] == payload
    modifies stream, frame.data
    ensures (control, frame.data[..]) == FillFrame(old(frame.data[..]), mdecHeader, payload)
    ensures Snapshot(frames) == old(Snapshot(frames))[n := frame.View()]
  {
    control := Fill(stream, frame, mdecHeader, payload);
    assert forall m :: m in frames && m != n ==> frames[m].View() == old(frames[m].View());
    SnapshotOfViews(frames, old(Snapshot(frames))[n := frame.View()]);
  }

  lemma UpdateTwice<K, V>(m: map<K, V>, k: K, a: V, b: V)
    ensures m[k := a][k := b] == m[k := b]
  {
  }

  /** Scatter in terms of the frame it looked up or created. */
  lemma ScatterOf(frames: map<uint32, Frame>, s: Sector, frame: Frame)
    requires |s.payload| == PayloadChunk
    requires frame == if s.mdecHeader.frameNumber in frames then frames[s.mdecHeader.frameNumber] else NewFrame(s)
    ensures var filled := FillFrame(frame.data, s.mdecHeader, s.payload);
            Scatter(frames, s) == Step(filled.0, frames[s.mdecHeader.frameNumber := frame.(data := filled.1)])
  {
  }

  /** TryGetValue, and on a miss a new FrameData added under the sector's frame number. */
  method FindOrCreate(frames: map<uint32, FrameData>, header: SectorHeader, subHeader: SectorSubHeader,
                      mdecHeader: MdecHeader, mdecSubHeader: MdecSubHeader, ghost s: Sector)
    returns (frame: FrameData, next: map<uint32, FrameData>)
    requires s.header == header && s.subHeader1 == subHeader && s.mdecHeader == mdecHeader && s.mdecSubHeader == mdecSubHeader
    requires DistinctBuffers(frames)
    ensures var n := mdecHeader.frameNumber;
            && next == frames[n := frame]
            && frame.View() == (if n in old(Snapshot(frames)) then old(Snapshot(frames))[n] else NewFrame(s))
            && (n !in frames ==> fresh(frame.data))
            && (n in frames ==> frame == frames[n])
    ensures Snapshot(next) == Snapshot(frames)[mdecHeader.frameNumber := frame.View()]
    ensures DistinctBuffers(next)
  {
    var n := mdecHeader.frameNumber;
    if n in frames {
      frame := frames[n];
      next := frames;
      assert next == frames[n := frame];
    } else {
      frame := new FrameData(header, subHeader, mdecHeader, mdecSubHeader);
      next := frames[n := frame];
    }
    SnapshotUpdate(frames, n, frame);
  }

  lemma SnapshotUpdate(frames: map<uint32, FrameData>, n: uint32, frame: FrameData)
    ensures Snapshot(frames[n := frame]) == Snapshot(frames)[n := frame.View()]
  {
    var a, b := Snapshot(frames[n := frame]), Snapshot(frames)[n := frame.View()];
    assert a.Keys == b.Keys;
    forall m | m in a.Keys ensures a[m] == b[m] {
    }
  }

  lemma SnapshotOfViews(frames: map<uint32, FrameData>, views: map<uint32, Frame>)
    requires frames.Keys == views.Keys
    requires forall m :: m in frames ==> frames[m].View() == views[m]
    ensures Snapshot(frames) == views
  {
    var a := Snapshot(frames);
    assert a.Keys == views.Keys;
  }

  /** A record read at `at` inside sector i is the slice of the sector at `at` minus its start. */
  lemma SectorSlice(data: seq<byte>, i: nat, a: nat, b: nat)
    requires i < SectorCount(data) && a <= b <= SectorLength
    ensures i * SectorLength + b <= |data|
    ensures SectorBytes(data, i)[a..b] == data[i * SectorLength + a..i * SectorLength + b]
  {
    SectorBounds(data, i);
    var start := i * SectorLength;
    var bytes := SectorBytes(data, i);
    assert bytes == data[start..start + SectorLength];
    forall k | 0 <= k < b - a ensures bytes[a..b][k] == data[start + a..start + b][k] {
    }
  }

  /**
   * The Video test the loop makes on sector i is bit 1 (value 2) of SubMode,
   * the third byte of each sub-header copy: byte 18 of the sector for the
   * first copy and byte 22 for the second.
   */
  lemma {:induction false} VideoSectorFlag(data: seq<byte>, i: nat)
    requires i < SectorCount(data)
    ensures i * SectorLength + 24 <= |data|
    ensures ParseSector(data, i).subHeader1.IsVideo() <==> (data[i * SectorLength + 18] / 2) % 2 == 1
    ensures ParseSector(data, i).subHeader2.IsVideo() <==> (data[i * SectorLength + 22] / 2) % 2 == 1
  {
    SectorSlice(data, i, 16, 24);
    var bytes := SectorBytes(data, i);
    var s := ParseSector(data, i);
    assert s.subHeader1.subMode == bytes[16..24][2] && s.subHeader2.subMode == bytes[16..24][6];
    assert Bit(s.subHeader1.subMode, 1) == Bit(s.subHeader1.subMode / 2, 0);
    assert Bit(s.subHeader2.subMode, 1) == Bit(s.subHeader2.subMode / 2, 0);
  }

  /** Seek to sector i, skip the sync pattern, and read the header and both sub-header copies. */
  method ReadSectorHeaders(stream: ByteStream, i: nat)
    returns (header: SectorHeader, subHeader1: SectorSubHeader, subHeader2: SectorSubHeader)
    requires i < SectorCount(stream.data)
    modifies stream
    ensures var bytes := SectorBytes(stream.data, i);
            && header == DecodeSectorHeader(bytes[12..16])
            && subHeader1 == DecodeSectorSubHeader(bytes[16..20])
            && subHeader2 == DecodeSectorSubHeader(bytes[20..24])
    ensures stream.position == i * SectorLength + SyncLength + SectorHeaderSize + 2 * SectorSubHeaderSize
  {
    SectorBounds(stream.data, i);
    var start := i * SectorLength;
    ghost var bytes := SectorBytes(stream.data, i);
    stream.Seek(start);
    stream.Seek(stream.position + SyncLength);
    var headerBytes := StreamExtensions.Read(stream, SectorHeaderSize, None);
    SectorSlice(stream.data, i, 12, 16);
    assert headerBytes.value == bytes[12..16];
    header := DecodeSectorHeader(headerBytes.value);
    var subHeaderBytes1 := StreamExtensions.Read(stream, SectorSubHeaderSize, None);
    SectorSlice(stream.data, i, 16, 20);
    assert subHeaderBytes1.value == bytes[16..20];
    subHeader1 := DecodeSectorSubHeader(subHeaderBytes1.value);
    var subHeaderBytes2 := StreamExtensions.Read(stream, SectorSubHeaderSize, None);
    SectorSlice(stream.data, i, 20, 24);
    assert subHeaderBytes2.value == bytes[20..24];
    subHeader2 := DecodeSectorSubHeader(subHeaderBytes2.value);
  }

  /** Read the MDEC header and sub-header that follow the sub-headers of sector i; the payload comes next. */
  method ReadMdecHeaders(stream: ByteStream, i: nat) returns (mdecHeader: MdecHeader, mdecSubHeader: MdecSubHeader)
    requires i < SectorCount(stream.data)
    requires stream.position == i * SectorLength + SyncLength + SectorHeaderSize + 2 * SectorSubHeaderSize
    modifies stream
    ensures var bytes := SectorBytes(stream.data, i);
            && mdecHeader == DecodeMdecHeader(bytes[24..40])
            && mdecSubHeader == DecodeMdecSubHeader(bytes[40..56])
    ensures stream.position + PayloadChunk <= |stream.data|
    ensures stream.data[stream.position..stream.position + PayloadChunk]
            == SectorBytes(stream.data, i)[PayloadOffset..PayloadOffset + PayloadChunk]
  {
    SectorBounds(stream.data, i);
    ghost var start := i * SectorLength;
    ghost var bytes := SectorBytes(stream.data, i);
    var mdecHeaderBytes := StreamExtensions.Read(stream, MdecHeaderSize, None);
    SectorSlice(stream.data, i, 24, 40);
    assert mdecHeaderBytes.value == bytes[24..40];
    mdecHeader := DecodeMdecHeader(mdecHeaderBytes.value);
    var mdecSubHeaderBytes := StreamExtensions.Read(stream, MdecSubHeaderSize, None);
    SectorSlice(stream.data, i, 40, 56);
    assert mdecSubHeaderBytes.value == bytes[40..56];
    mdecSubHeader := DecodeMdecSubHeader(mdecSubHeaderBytes.value);
    assert stream.position == start + PayloadOffset;
    SectorSlice(stream.data, i, PayloadOffset, PayloadOffset + PayloadChunk);
  }

  /**
   * The copy step of the loop body: the payload that follows the headers
   * goes to the frame's buffer at the sector's window, or, when the window is
   * empty, the buffer's length is checked against FrameSize.
   */
  method Fill(stream: ByteStream, frame: FrameData, mdecHeader: MdecHeader, ghost payload: seq<byte>)
    returns (control: Control)
    requires |payload| == PayloadChunk
    requires stream.position + PayloadChunk <= |stream.data|
    requires stream.data[stream.position..stream.position + PayloadChunk] == payload
    modifies stream, frame.data
    ensures (control, frame.data[..]) == FillFrame(old(frame.data[..]), mdecHeader, payload)
  {
    var w := Window(mdecHeader.frameSize, mdecHeader.sectorOffset);
    if w.len > 0 {
      ghost var at := stream.position;
      var copied := stream.ReadExactly(frame.data, w.pos, w.len);
      assert stream.data[at..at + w.len] == payload[..w.len];
      if copied.Fail? {
        return Raise(BufferRangeInvalid);
      }
      return Proceed;
    }
    if frame.data.Length != mdecHeader.frameSize {
      return Raise(FrameLengthMismatch);
    }
    return Proceed;
  }
}
