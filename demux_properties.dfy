/**
 * What the sector loop guarantees about the frame dictionary it builds: each
 * frame is created once from its first sector, a sector writes only its
 * window of its own frame, skipped sectors change nothing, and a run that
 * completes has checked every sector it was meant to visit.
 */
module DemuxProperties {
  import opened Binary
  import opened Results
  import opened Streams
  import opened SectorLayouts
  import opened SectorDemuxing

  /** Each frame sits under its own frame number and its buffer is as long as its first sector's FrameSize. */
  predicate WellFormed(frames: map<uint32, Frame>)
  {
    forall n :: n in frames ==>
      frames[n].mdecHeader.frameNumber == n && |frames[n].data| == frames[n].mdecHeader.frameSize
  }

  /** `after` keeps every frame of `before` with the same headers and buffer length. */
  predicate KeepsFrames(before: map<uint32, Frame>, after: map<uint32, Frame>)
  {
    forall n :: n in before ==>
      && n in after
      && after[n].(data := before[n].data) == before[n]
      && |after[n].data| == |before[n].data|
  }

  /** The checks the loop makes on every sector it gets past. */
  predicate Checked(s: Sector)
  {
    s.subHeader1 == s.subHeader2 && (s.subHeader1.IsVideo() ==> s.subHeader1.codingInformation == VideoCodingInformation)
  }

  /**
   * A sector whose sub-header copies differ, that is not video, that fails the
   * coding check, or that stops the loop, leaves the dictionary as it was;
   * without decodeFirstFrameOnly the loop never stops early.
   */
  lemma SkippedSectorsChangeNothing(frames: map<uint32, Frame>, s: Sector, decodeFirstFrameOnly: bool)
    requires |s.payload| == PayloadChunk
    ensures s.subHeader1 != s.subHeader2 ==> ApplySector(frames, s, decodeFirstFrameOnly) == Step(Raise(SubHeaderMismatch), frames)
    ensures s.subHeader1 == s.subHeader2 && !s.subHeader1.IsVideo() ==>
              ApplySector(frames, s, decodeFirstFrameOnly) == Step(Proceed, frames)
    ensures ApplySector(frames, s, decodeFirstFrameOnly).control == Halt <==>
              Checked(s) && s.subHeader1.IsVideo() && decodeFirstFrameOnly && s.mdecHeader.frameNumber > 1
    ensures ApplySector(frames, s, decodeFirstFrameOnly).control == Halt ==>
              ApplySector(frames, s, decodeFirstFrameOnly).frames == frames
  {
  }

  /**
   * A video sector that passes the checks touches only the frame of its own
   * number. That frame is the existing one, or a new one carrying this sector's
   * headers and a zeroed FrameSize buffer. On success exactly the window
   * [pos, pos + len) of its buffer is overwritten from the payload, and
   * nothing is written when the window is empty.
   */
  lemma {:induction false} ScatterWritesWindow(frames: map<uint32, Frame>, s: Sector)
    requires |s.payload| == PayloadChunk
    ensures var n := s.mdecHeader.frameNumber;
            var step := Scatter(frames, s);
            var frame := if n in frames then frames[n] else NewFrame(s);
            var w := Window(s.mdecHeader.frameSize, s.mdecHeader.sectorOffset);
            && step.frames.Keys == frames.Keys + {n}
            && (forall m :: m in frames && m != n ==> step.frames[m] == frames[m])
            && step.frames[n].(data := frame.data) == frame
            && (step.control == Proceed ==>
                  && |step.frames[n].data| == |frame.data|
                  && forall k :: 0 <= k < |frame.data| ==>
                       step.frames[n].data[k] == if w.pos <= k < w.pos + w.len then s.payload[k - w.pos] else frame.data[k])
            && (step.control != Proceed ==> step.frames[n] == frame)
  {
    var n := s.mdecHeader.frameNumber;
    var frame := if n in frames then frames[n] else NewFrame(s);
    var w := Window(s.mdecHeader.frameSize, s.mdecHeader.sectorOffset);
    var filled := FillFrame(frame.data, s.mdecHeader, s.payload);
    if w.len > 0 && w.pos + w.len <= |frame.data| {
      assert filled.1 == Overwrite(frame.data, w.pos, s.payload[..w.len]);
    }
  }

  /** A frame that exists is never replaced or resized by a later sector, and a new frame is well formed. */
  lemma {:induction false} ApplySectorKeepsFrames(frames: map<uint32, Frame>, s: Sector, decodeFirstFrameOnly: bool)
    requires |s.payload| == PayloadChunk
    ensures KeepsFrames(frames, ApplySector(frames, s, decodeFirstFrameOnly).frames)
    ensures WellFormed(frames) ==> WellFormed(ApplySector(frames, s, decodeFirstFrameOnly).frames)
  {
    ScatterWritesWindow(frames, s);
  }

  /** The whole run keeps every frame it had and keeps the dictionary well formed. */
  lemma {:induction false} DemuxFromKeepsFrames(sectors: seq<Sector>, i: nat, frames: map<uint32, Frame>, decodeFirstFrameOnly: bool)
    requires Parsed(sectors)
    ensures KeepsFrames(frames, DemuxFrom(sectors, i, frames, decodeFirstFrameOnly).frames)
    ensures WellFormed(frames) ==> WellFormed(DemuxFrom(sectors, i, frames, decodeFirstFrameOnly).frames)
    decreases |sectors| - i
  {
    if i < |sectors| {
      var step := ApplySector(frames, sectors[i], decodeFirstFrameOnly);
      ApplySectorKeepsFrames(frames, sectors[i], decodeFirstFrameOnly);
      if step.control == Proceed {
        DemuxFromKeepsFrames(sectors, i + 1, step.frames, decodeFirstFrameOnly);
      }
    }
  }

  /** Every buffer the demuxer returns is as long as the FrameSize of its frame's first sector. */
  lemma DemuxWellFormed(data: seq<byte>, decodeFirstFrameOnly: bool)
    ensures WellFormed(Demux(data, decodeFirstFrameOnly).frames)
  {
    DemuxFromKeepsFrames(Sectors(data), 0, map[], decodeFirstFrameOnly);
  }

  /**
   * Without decodeFirstFrameOnly, a run from sector i that completes has
   * visited and checked every remaining sector.
   */
  lemma {:induction false} DemuxFromChecksAll(sectors: seq<Sector>, i: nat, frames: map<uint32, Frame>)
    requires Parsed(sectors)
    requires DemuxFrom(sectors, i, frames, false).outcome == Pass
    ensures forall j :: i <= j < |sectors| ==> Checked(sectors[j])
    decreases |sectors| - i
  {
    if i < |sectors| {
      var step := ApplySector(frames, sectors[i], false);
      SkippedSectorsChangeNothing(frames, sectors[i], false);
      DemuxFromChecksAll(sectors, i + 1, step.frames);
    }
  }

  /** A full run that succeeds saw equal sub-header copies everywhere and CodingInformation 128 on every video sector. */
  lemma DemuxChecksEverySector(data: seq<byte>)
    requires Demux(data, false).outcome == Pass
    ensures forall j :: 0 <= j < SectorCount(data) ==> Checked(ParseSector(data, j))
  {
    DemuxFromChecksAll(Sectors(data), 0, map[]);
  }

  /** A sector adds at most the frame of its own number, and only when the loop does not stop at it. */
  lemma ApplySectorNewKeys(frames: map<uint32, Frame>, s: Sector, decodeFirstFrameOnly: bool)
    requires |s.payload| == PayloadChunk
    ensures forall m :: m in ApplySector(frames, s, decodeFirstFrameOnly).frames ==>
              m in frames || (m == s.mdecHeader.frameNumber && !(decodeFirstFrameOnly && m > 1))
  {
  }

  /** With decodeFirstFrameOnly, no frame numbered above 1 is ever created. */
  lemma {:induction false} FirstFrameOnlyFrom(sectors: seq<Sector>, i: nat, frames: map<uint32, Frame>)
    requires Parsed(sectors)
    requires forall n :: n in frames ==> n <= 1
    ensures forall n :: n in DemuxFrom(sectors, i, frames, true).frames ==> n <= 1
    decreases |sectors| - i
  {
    if i < |sectors| {
      var step := ApplySector(frames, sectors[i], true);
      ApplySectorNewKeys(frames, sectors[i], true);
      if step.control == Proceed {
        FirstFrameOnlyFrom(sectors, i + 1, step.frames);
      }
    }
  }

  lemma FirstFrameOnlyFrames(data: seq<byte>)
    ensures forall n :: n in Demux(data, true).frames ==> n <= 1
  {
    FirstFrameOnlyFrom(Sectors(data), 0, map[]);
  }

  /** A sector that passes the checks, with a video sub-header. */
  predicate VideoChecked(s: Sector)
  {
    s.subHeader1 == s.subHeader2 && s.subHeader1.IsVideo() && s.subHeader1.codingInformation == VideoCodingInformation
  }

  /**
   * Two video sectors of one frame at SectorOffset 0 and 1, in a frame of at
   * least 4032 bytes: the run succeeds and the frame's buffer holds the first
   * payload in [0, 2016) and the second in [2016, 4032).
   */
  lemma TwoSectorsFillFrame(s0: Sector, s1: Sector, decodeFirstFrameOnly: bool)
    requires |s0.payload| == PayloadChunk && |s1.payload| == PayloadChunk
    requires VideoChecked(s0) && VideoChecked(s1)
    requires s0.mdecHeader.frameNumber == s1.mdecHeader.frameNumber
    requires decodeFirstFrameOnly ==> s0.mdecHeader.frameNumber <= 1
    requires s0.mdecHeader.sectorOffset == 0 && s1.mdecHeader.sectorOffset == 1
    requires s0.mdecHeader.frameSize >= 2 * PayloadChunk && s1.mdecHeader.frameSize >= 2 * PayloadChunk
    ensures var r := DemuxFrom([s0, s1], 0, map[], decodeFirstFrameOnly);
            var n := s0.mdecHeader.frameNumber;
            && r.outcome == Pass && r.frames.Keys == {n}
            && |r.frames[n].data| == s0.mdecHeader.frameSize
            && r.frames[n].data[..PayloadChunk] == s0.payload
            && r.frames[n].data[PayloadChunk..2 * PayloadChunk] == s1.payload
  {
    var n := s0.mdecHeader.frameNumber;
    var first := ApplySector(map[], s0, decodeFirstFrameOnly);
    assert first == Scatter(map[], s0);
    assert Window(s0.mdecHeader.frameSize, 0) == Span(0, PayloadChunk);
    ScatterWritesWindow(map[], s0);
    assert first.control == Proceed;
    var second := ApplySector(first.frames, s1, decodeFirstFrameOnly);
    assert second == Scatter(first.frames, s1);
    assert Window(s1.mdecHeader.frameSize, 1) == Span(PayloadChunk, PayloadChunk);
    ScatterWritesWindow(first.frames, s1);
    assert second.control == Proceed;
    var data := second.frames[n].data;
    forall k | 0 <= k < PayloadChunk ensures data[k] == s0.payload[k] {
      assert first.frames[n].data[k] == s0.payload[k];
    }
    forall k | 0 <= k < PayloadChunk ensures data[PayloadChunk + k] == s1.payload[k] {
    }
    var sectors := [s0, s1];
    assert sectors[0] == s0 && sectors[1] == s1 && Parsed(sectors);
    assert DemuxFrom(sectors, 2, second.frames, decodeFirstFrameOnly) == DemuxResult(Pass, second.frames);
    assert DemuxFrom(sectors, 1, first.frames, decodeFirstFrameOnly) == DemuxResult(Pass, second.frames);
  }
  /**
   * A short last frame, PayloadChunk < FrameSize < 2 * PayloadChunk, sent as
   * sectors at SectorOffset 0, 1 and 2: the second sector's window is clamped
   * to the FrameSize - 2016 bytes left, and the third's window is empty, so it
   * writes nothing and passes the length check. The run succeeds with the
   * first payload in [0, 2016) and the head of the second after it.
   */
  lemma ShortLastFrame(s0: Sector, s1: Sector, s2: Sector, decodeFirstFrameOnly: bool)
    requires |s0.payload| == PayloadChunk && |s1.payload| == PayloadChunk && |s2.payload| == PayloadChunk
    requires VideoChecked(s0) && VideoChecked(s1) && VideoChecked(s2)
    requires s1.mdecHeader.frameNumber == s0.mdecHeader.frameNumber == s2.mdecHeader.frameNumber
    requires decodeFirstFrameOnly ==> s0.mdecHeader.frameNumber <= 1
    requires s0.mdecHeader.sectorOffset == 0 && s1.mdecHeader.sectorOffset == 1 && s2.mdecHeader.sectorOffset == 2
    requires PayloadChunk < s0.mdecHeader.frameSize < 2 * PayloadChunk
    requires s1.mdecHeader.frameSize == s0.mdecHeader.frameSize == s2.mdecHeader.frameSize
    ensures var r := DemuxFrom([s0, s1, s2], 0, map[], decodeFirstFrameOnly);
            var n := s0.mdecHeader.frameNumber;
            && r.outcome == Pass && r.frames.Keys == {n}
            && |r.frames[n].data| == s0.mdecHeader.frameSize
            && r.frames[n].data[..PayloadChunk] == s0.payload
            && r.frames[n].data[PayloadChunk..] == s1.payload[..s0.mdecHeader.frameSize - PayloadChunk]
  {
    var n := s0.mdecHeader.frameNumber;
    var size := s0.mdecHeader.frameSize as nat;
    var first := ApplySector(map[], s0, decodeFirstFrameOnly);
    assert first == Scatter(map[], s0);
    assert Window(size, 0) == Span(0, PayloadChunk);
    ScatterWritesWindow(map[], s0);
    assert first.control == Proceed;
    var second := ApplySector(first.frames, s1, decodeFirstFrameOnly);
    assert second == Scatter(first.frames, s1);
    assert Window(size, 1) == Span(PayloadChunk, size - PayloadChunk);
    ScatterWritesWindow(first.frames, s1);
    assert second.control == Proceed;
    var third := ApplySector(second.frames, s2, decodeFirstFrameOnly);
    assert third == Scatter(second.frames, s2);
    assert Window(size, 2) == Span(size, 0);
    ScatterWritesWindow(second.frames, s2);
    assert third.control == Proceed && third.frames == second.frames;
    var data := second.frames[n].data;
    forall k | 0 <= k < PayloadChunk ensures data[k] == s0.payload[k] {
      assert first.frames[n].data[k] == s0.payload[k];
    }
    forall k | 0 <= k < size - PayloadChunk ensures data[PayloadChunk + k] == s1.payload[k] {
    }
    var sectors := [s0, s1, s2];
    assert sectors[0] == s0 && sectors[1] == s1 && sectors[2] == s2 && Parsed(sectors);
    assert DemuxFrom(sectors, 3, third.frames, decodeFirstFrameOnly) == DemuxResult(Pass, second.frames);
    assert DemuxFrom(sectors, 2, second.frames, decodeFirstFrameOnly) == DemuxResult(Pass, second.frames);
    assert DemuxFrom(sectors, 1, first.frames, decodeFirstFrameOnly) == DemuxResult(Pass, second.frames);
  }
}
