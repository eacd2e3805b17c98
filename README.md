# PSn00bSDK core: a Dafny model

This project models five small pieces of PSn00bSDK.

Four come from the C# test project `psxpress.tests`:

- **Bit-stream reader** (`BitStreamReader`, `BitStreamFormat`). A cursor over a byte stream that keeps a FIFO queue of pending bits. It refills the queue one format unit of `ByteSize` bytes at a time and assembles integers of a requested width from the bits it dequeues. The reader's fixed override `FixCrap` is always on: every refill reverses the unit's bytes once more and extracts each byte most-significant bit first. The placement of bits in `Read<T>` still follows the format's own `Reversed` flag.
- **Endian-aware record read** (`StreamExtensions.Read<T>`). It reads `sizeof(T)` bytes and reverses them when the requested byte order differs from the host's. The host is fixed as little-endian.
- **MDEC sector demuxer** (the sector loops of the two `UnitTest4.TestMethod1`). It walks the raw 2352-byte sectors of a CD-ROM XA Mode 2 disc image:
  - it checks that the two sub-header copies are equal;
  - it skips sectors without the Video flag;
  - it requires `CodingInformation == 128`;
  - it scatters the 2016 payload bytes of each video sector into the buffer of its frame, at `SectorOffset * 2016`, clamped to `FrameSize`.

  The MDEC variant also stops at the first video sector whose frame number is above 1; the model has one loop with a `decodeFirstFrameOnly` flag.
- **Address-range memory map** (`PsxMemoryBlock`, `PsxMemory` in `UnitTest1.cs`). Eight named inclusive address ranges, each with a byte array. Lookup requires exactly one matching block. Byte and little-endian word accessors act on the array.

The fifth comes from the C GPU library `psxgpu/common.c`:

- **GPU draw-op ring queue**, with `ClearOTag` and the DMA block-control word of `DrawPrim`.
  - The queue is a state machine with three events: reset, enqueue and DMA completion.
  - Its length counter counts the operation in flight as well as the parked ones.
  - Starting an operation is recorded in a log (`started`) instead of calling the function pointer.

The Dafny modules follow the source: `Binary`, `Results` and `Streams` are the shared vocabulary. `BitStreamFormats`, `BitStreamReading` and `BitStreamProperties` cover the reader; `StreamExtensions`, `SectorLayouts`, `SectorDemuxing` and `DemuxProperties` cover the demuxer; `MemoryMap` and `GpuCommon` the rest.

The preset's name `ShortLittleEndianMostSignificant` suggests a little-endian 16-bit unit read most significant bit first, which would deliver the bytes `0x01 0x23` as `0x23` then `0x01`. Because `FixCrap` (BitStreamReader.cs) reverses every unit a second time, the code delivers them in stream order, `0x01` then `0x23`. `BitStreamProperties.ShortLittleEndianMostSignificantRead` states the code's order.

## Model

| member | source | states |
|---|---|---|
| Streams.ByteStream.Seek | libpsn00b/psxpress.tests/MDEC/UnitTest4.cs:32-34 | Assigning `Position` sets it to the given value, past the end included, and leaves the data as it is. |
| Streams.ByteStream.ReadExactly | libpsn00b/psxpress.tests/MDEC/UnitTest4.cs:95 | The next `count` bytes land in `buffer[offset..offset+count]` and the position moves past them. A range past the buffer, or too few bytes left, fails and changes nothing. |
| Streams.ReverseInPlace | libpsn00b/psxpress.tests/MDEC/StreamExtensions.cs:16-19 | The array afterwards is the reverse of the array before. |
| StreamExtensions.Read | libpsn00b/psxpress.tests/MDEC/StreamExtensions.cs:10-24 | Consumes exactly `size` bytes and fails with end-of-stream, leaving the position alone, when fewer remain. The bytes come back reversed iff the requested order (default: host) differs from the host's. |
| StreamExtensions.ReadDecodesRequestedOrder | libpsn00b/psxpress.tests/MDEC/StreamExtensions.cs:8-23 | The host order is LE. The value decoded from the image is the little-endian value of the stream bytes by default or for LE, and their big-endian value for BE. |
| BitStreamFormats.Create | libpsn00b/psxpress.tests/MDEC/BitStreamFormat.cs:5-11 | Succeeds iff `byteSize > 0`, storing the three arguments unchanged; otherwise fails with the argument error. |
| BitStreamFormats.PresetFields | libpsn00b/psxpress.tests/MDEC/BitStreamFormat.cs:13-29 | Byte presets: size 1, no swap. Short presets: size 2. `*LeastSignificant` presets are not reversed; `*MostSignificant` presets are. Big- and little-endian presets differ only in an opposite `byteSwap`, which the little-endian ones set on this host. |
| BitStreamReading.BitStreamReader.constructor | libpsn00b/psxpress.tests/MDEC/BitStreamReader.cs:6-8 | Keeps the stream and the format it is given and starts with an empty bit queue, so `Pending()` is exactly the stream's remaining units. |
| BitStreamReading.BitStreamReader.Update | libpsn00b/psxpress.tests/MDEC/BitStreamReader.cs:26-74 | A non-empty queue: no-op. Fewer than `ByteSize` bytes left: end-of-stream with nothing consumed. Otherwise one unit is read and exactly its bits are queued. The bits still to be delivered (queue, then stream) never change. |
| BitStreamReading.BitStreamReader.EnqueueBytes | libpsn00b/psxpress.tests/MDEC/BitStreamReader.cs:55-61 | Appends the 8 bits of each buffer byte, byte after byte. |
| BitStreamReading.BitStreamReader.EnqueueByte | libpsn00b/psxpress.tests/MDEC/BitStreamReader.cs:57-60 | Appends bit `7-i` (or bit `i`) of the byte at step `i`. |
| BitStreamReading.BitStreamReader.Read | libpsn00b/psxpress.tests/MDEC/BitStreamReader.cs:76-83 | Returns the first pending bit and drops it; fails with end-of-stream iff nothing is pending. |
| BitStreamReading.BitStreamReader.ReadInteger | libpsn00b/psxpress.tests/MDEC/BitStreamReader.cs:85-116 | An out-of-range `bits` fails before any bit is consumed. Otherwise it dequeues exactly `bits` pending bits in FIFO order and returns their assembled image; it fails with end-of-stream when too few are pending. |
| BitStreamReading.SetHighBits | libpsn00b/psxpress.tests/MDEC/BitStreamReader.cs:110-113 | Every bit from `from` upwards is set; lower bits are kept. |
| BitStreamProperties.UnitBitsOrder | libpsn00b/psxpress.tests/MDEC/BitStreamReader.cs:42-59 | A refill queues each byte MSB-first, with the unit in stream order iff `byteSwap` (the two reversals cancel) and reversed otherwise. |
| BitStreamProperties.NextUnit | libpsn00b/psxpress.tests/MDEC/BitStreamReader.cs:38-61 | From any stream position p, the next `8*ByteSize` bits are the bits of the unit at p. |
| BitStreamProperties.AssembleLayout | libpsn00b/psxpress.tests/MDEC/BitStreamReader.cs:102-113 | The i-th bit read lands at `bits-1-i` when the format is reversed, else at `i`. Every bit above `bits` is the type's sign flag. |
| BitStreamProperties.AssembleUnsignedValue | libpsn00b/psxpress.tests/MDEC/BitStreamReader.cs:102-108 | For an unsigned type the value is that of the placed bits and is below `2^bits`. |
| BitStreamProperties.AssembleSignedValue | libpsn00b/psxpress.tests/MDEC/BitStreamReader.cs:105-113 | For a signed type with `bits` below the width, the value is the placed bits minus `2^bits`. It is always negative, whatever the top bit read. |
| BitStreamProperties.ByteMostSignificantFirst | libpsn00b/psxpress.tests/MDEC/BitStreamReader.cs:57-59 | A byte queued MSB-first and assembled reversed gives the byte back. |
| BitStreamProperties.ByteLeastSignificantFirst | libpsn00b/psxpress.tests/MDEC/BitStreamReader.cs:57-59 | A byte queued MSB-first and assembled unreversed gives the byte bit-reversed. |
| BitStreamProperties.ByteMostSignificantRead | libpsn00b/psxpress.tests/MDEC/BitStreamReader.cs:42-102 | With `ByteMostSignificant`, from any stream position p the next 8 bits assemble to the byte at p unchanged. |
| BitStreamProperties.ByteLeastSignificantRead | libpsn00b/psxpress.tests/MDEC/BitStreamReader.cs:42-102 | With `ByteLeastSignificant`, from any stream position p the next 8 bits assemble to the byte at p bit-reversed. |
| BitStreamProperties.ShortLittleEndianMostSignificantRead | libpsn00b/psxpress.tests/MDEC/BitStreamReader.cs:42-102 | With `ShortLittleEndianMostSignificant`, from any stream position p two 8-bit reads give `data[p]` then `data[p+1]`, and one 16-bit read gives their big-endian value. |
| BitStreamProperties.ShortBigEndianMostSignificantRead | libpsn00b/psxpress.tests/MDEC/BitStreamReader.cs:42-102 | With `ShortBigEndianMostSignificant`, from any stream position p two 8-bit reads give `data[p+1]` then `data[p]`, and one 16-bit read gives their little-endian value. |
| SectorLayouts.SectorRecordsDecodeEncode | libpsn00b/psxpress.tests/UnitTest4.cs:174-231 | Encoding a sector header or sub-header and decoding it gives it back. |
| SectorLayouts.SectorRecordsEncodeDecode | libpsn00b/psxpress.tests/UnitTest4.cs:174-231 | Decoding 4 bytes as a header or sub-header and encoding it gives the bytes back. |
| SectorLayouts.MdecHeaderDecodeEncode | libpsn00b/psxpress.tests/UnitTest4.cs:125-137 | The 16-byte MDEC header record (four ushorts, two uints, little-endian) decodes what it encodes. |
| SectorLayouts.MdecHeaderEncodeDecode | libpsn00b/psxpress.tests/UnitTest4.cs:125-137 | Any 16 bytes decode to an MDEC header that encodes back to them. |
| SectorLayouts.MdecSubHeaderDecodeEncode | libpsn00b/psxpress.tests/UnitTest4.cs:151-161 | The 16-byte MDEC sub-header record (two ushorts, three uints) decodes what it encodes. |
| SectorLayouts.MdecSubHeaderEncodeDecode | libpsn00b/psxpress.tests/UnitTest4.cs:151-161 | Any 16 bytes decode to an MDEC sub-header that encodes back to them. |
| SectorDemuxing.SectorBounds | libpsn00b/psxpress.tests/UnitTest4.cs:33-68 | The payload starts 56 bytes into the sector (12 sync, 4 header, 2×4 sub-headers, 16 + 16 MDEC headers). It ends inside the sector, and every visited sector lies inside the image. |
| SectorDemuxing.Window | libpsn00b/psxpress.tests/MDEC/UnitTest4.cs:90-91 | `pos <= FrameSize`, `pos <= SectorOffset*2016`, `len <= 2016`, `pos + len <= FrameSize`. A non-empty window starts at `SectorOffset*2016`. It is empty iff `FrameSize <= SectorOffset*2016`. It is a full chunk or runs to `FrameSize`. |
| SectorDemuxing.WindowFitsInt32 | libpsn00b/psxpress.tests/MDEC/UnitTest4.cs:90-95 | For every MDEC header, `pos <= 65535*2016 < 2^31` and `len <= 2016`, so the `(int)pos` and `(int)len` casts before the copy keep their values. |
| SectorDemuxing.Sectors | libpsn00b/psxpress.tests/MDEC/UnitTest4.cs:29-31 | One record per whole 2352-byte sector of the image, in order; record i is read from sector i's own bytes. |
| SectorDemuxing.FrameData.constructor | libpsn00b/psxpress.tests/MDEC/UnitTest4.cs:81-86 | A new frame records the sector's headers and a fresh zeroed buffer of `FrameSize` bytes. |
| SectorDemuxing.DemuxSectors | libpsn00b/psxpress.tests/MDEC/UnitTest4.cs:30-101 | The loop's outcome and the frame dictionary it leaves (buffers read back as values) are those of the sector-by-sector specification `Demux`. No two frames share a buffer. |
| SectorDemuxing.ProcessSector | libpsn00b/psxpress.tests/MDEC/UnitTest4.cs:32-100 | One loop body on sector i, read at `i*2352+12` whatever was consumed before, does what `ApplySector` says. Existing frames stay in the dictionary as the same objects. |
| SectorDemuxing.VideoSectorFlag | libpsn00b/psxpress.tests/MDEC/UnitTest4.cs:53 | The demuxer's Video test on sector i holds iff bit 1 (`Video = 1 << 1` in SectorSubMode.cs) is set in byte 18 of that sector in the image, the SubMode of the first sub-header copy; for the second copy, byte 22. |
| SectorDemuxing.ReadSectorHeaders | libpsn00b/psxpress.tests/MDEC/UnitTest4.cs:32-44 | The header and both sub-header copies are decoded from bytes 12..24 of sector i. |
| SectorDemuxing.ReadMdecHeaders | libpsn00b/psxpress.tests/MDEC/UnitTest4.cs:60-67 | The MDEC header and sub-header are decoded from bytes 24..56 of sector i; the stream is then at the sector's payload. |
| SectorDemuxing.ScatterSector | libpsn00b/psxpress.tests/MDEC/UnitTest4.cs:79-100 | Finding or creating the frame and copying into it does what `Scatter` says. |
| SectorDemuxing.FindOrCreate | libpsn00b/psxpress.tests/MDEC/UnitTest4.cs:79-88 | An existing frame is returned as is. Otherwise a fresh frame with this sector's headers and a zeroed buffer is added under its frame number. |
| SectorDemuxing.Fill | libpsn00b/psxpress.tests/MDEC/UnitTest4.cs:90-100 | A non-empty window copies the first `len` payload bytes to `pos`, failing when that runs past the buffer. An empty window writes nothing and fails unless the buffer is `FrameSize` long. |
| SectorDemuxing.FillFound | libpsn00b/psxpress.tests/MDEC/UnitTest4.cs:90-100 | The copy into the frame under `n` does what `FillFrame` says, and every other frame of the dictionary reads back as before. |
| DemuxProperties.SkippedSectorsChangeNothing | libpsn00b/psxpress.tests/MDEC/UnitTest4.cs:51-77 | A sub-header mismatch fails and a non-video sector continues, both leaving the dictionary as it was. The loop stops exactly at a checked video sector numbered above 1 in first-frame mode, and such a stop changes nothing. |
| DemuxProperties.ScatterWritesWindow | libpsn00b/psxpress.tests/MDEC/UnitTest4.cs:79-100 | Only the sector's own frame is touched, and it keeps its headers. On success exactly bytes `[pos, pos+len)` of its buffer are overwritten from the payload and all others are unchanged. On failure nothing changes. |
| DemuxProperties.ApplySectorKeepsFrames | libpsn00b/psxpress.tests/MDEC/UnitTest4.cs:79-88 | A sector never replaces or resizes an existing frame; new frames are `FrameSize` long under their own number. |
| DemuxProperties.DemuxFromKeepsFrames | libpsn00b/psxpress.tests/MDEC/UnitTest4.cs:30-101 | The rest of the loop keeps every frame's headers and buffer length, and keeps the dictionary well formed. |
| DemuxProperties.DemuxWellFormed | libpsn00b/psxpress.tests/UnitTest4.cs:75-84 | Every buffer of the result is as long as the `FrameSize` of its frame's first sector, under that sector's frame number. |
| DemuxProperties.DemuxFromChecksAll | libpsn00b/psxpress.tests/UnitTest4.cs:31-97 | Without the early stop, a run from sector i that succeeds has checked every sector from i on. |
| DemuxProperties.DemuxChecksEverySector | libpsn00b/psxpress.tests/UnitTest4.cs:44-59 | A full run that succeeds saw equal sub-header copies on every sector and `CodingInformation == 128` on every video sector. |
| DemuxProperties.TwoSectorsFillFrame | libpsn00b/psxpress.tests/MDEC/UnitTest4.cs:79-100 | Two checked video sectors of one frame at `SectorOffset` 0 and 1, with `FrameSize` of at least 4032: the run succeeds with that one frame, whose buffer holds the first payload in `[0, 2016)` and the second in `[2016, 4032)`. |
| DemuxProperties.ShortLastFrame | libpsn00b/psxpress.tests/MDEC/UnitTest4.cs:90-100 | A frame with 2016 < FrameSize < 4032, sent as sectors at offsets 0, 1 and 2, succeeds. The second sector's window is clamped to the `FrameSize - 2016` bytes left. The third's is empty: it writes nothing and passes the length check. The buffer holds the first payload, then the head of the second. |
| DemuxProperties.ApplySectorNewKeys | libpsn00b/psxpress.tests/MDEC/UnitTest4.cs:74-88 | A sector adds at most its own frame number, never one above 1 in first-frame mode. |
| DemuxProperties.FirstFrameOnlyFrom | libpsn00b/psxpress.tests/MDEC/UnitTest4.cs:74-77 | In first-frame mode the rest of the loop creates no frame numbered above 1. |
| DemuxProperties.FirstFrameOnlyFrames | libpsn00b/psxpress.tests/MDEC/UnitTest4.cs:74-77 | The MDEC variant's result holds only frames 0 and 1. |
| MemoryMap.WordRoundTrip | libpsn00b/psxpress.tests/UnitTest1.cs:204-217 | A word write puts the low byte at i and the high byte at i+1 and touches nothing else. Reading it back gives the word, the read is the little-endian decode, and writing back what was read changes nothing. |
| MemoryMap.PsxMemoryBlock.constructor | libpsn00b/psxpress.tests/UnitTest1.cs:176-187 | Stores start, end and name; `Length = end - start + 1`; the array has exactly `Length` zero bytes. |
| MemoryMap.PsxMemoryBlock.GetByte | libpsn00b/psxpress.tests/UnitTest1.cs:199-202 | Returns `Bytes[index]` iff the index is inside the array, else the index error. |
| MemoryMap.PsxMemoryBlock.GetWord | libpsn00b/psxpress.tests/UnitTest1.cs:204-207 | Returns the little-endian value of `Bytes[index..index+2]` iff both bytes exist, else the argument error. |
| MemoryMap.PsxMemoryBlock.SetByte | libpsn00b/psxpress.tests/UnitTest1.cs:209-212 | Writes only `Bytes[index]`, after which `GetByte(index)` returns the value; out of range it fails and changes nothing. |
| MemoryMap.PsxMemoryBlock.SetWord | libpsn00b/psxpress.tests/UnitTest1.cs:214-217 | Writes only `index` and `index+1`, low byte first, after which `GetWord(index)` returns the value; out of range it fails and changes nothing. |
| MemoryMap.PsxMemory.constructor | libpsn00b/psxpress.tests/UnitTest1.cs:102-119 | The eight blocks, in table order, with the ranges of lines 73-95. Each block is `End - Start + 1` bytes long and has its own freshly allocated, all-zero array. |
| MemoryMap.PsxMemory.GetBlock | libpsn00b/psxpress.tests/UnitTest1.cs:166-171 | Succeeds iff exactly one block contains the index, returning that block. It fails with "no match" iff none contains it, otherwise with "more than one". |
| MemoryMap.PsxMemory.GetByte | libpsn00b/psxpress.tests/UnitTest1.cs:138-143 | With no block containing the index it fails with "no match", with several with "more than one"; otherwise it is the matching block's `GetByte` with the absolute index. |
| MemoryMap.PsxMemory.GetWord | libpsn00b/psxpress.tests/UnitTest1.cs:145-150 | With no block containing the index it fails with "no match", with several with "more than one"; otherwise it is the matching block's `GetWord` with the absolute index. |
| MemoryMap.PsxMemory.SetByte | libpsn00b/psxpress.tests/UnitTest1.cs:152-157 | Fails with "no match" or "more than one" as the lookup does, changing nothing. Otherwise it is the matching block's `SetByte` with the absolute index, and every other block's bytes are unchanged. |
| MemoryMap.PsxMemory.SetWord | libpsn00b/psxpress.tests/UnitTest1.cs:159-164 | Fails with "no match" or "more than one" as the lookup does, changing nothing. Otherwise it is the matching block's `SetWord` with the absolute index, and every other block's bytes are unchanged. |
| MemoryMap.DefaultRangesOrdered | libpsn00b/psxpress.tests/UnitTest1.cs:69-95 | The eight ranges are non-empty, pairwise disjoint and in increasing order; `Min` and `Max` are the first start and last end, and `Max - Min == Bios.End`. |
| MemoryMap.RangesIncrease | libpsn00b/psxpress.tests/UnitTest1.cs:73-95 | Any earlier range ends before any later one starts. |
| MemoryMap.DefaultRangeIndexes | libpsn00b/psxpress.tests/UnitTest1.cs:73-95 | On the range table alone: an index lies in a range and below that range's length exactly for `0 <= index < 0x1F0000`; it leaves room for a word exactly on `[0, 0xFFFF)` and `[0x10000, 0x1EFFFF)`. |
| MemoryMap.DefaultAccessibleIndexes | libpsn00b/psxpress.tests/UnitTest1.cs:138-164 | In any `PsxMemory` with the default blocks (as the constructor builds), the block is handed the absolute index. So the byte read of the single matching block succeeds exactly for `0 <= index < 0x1F0000`, and the word read exactly for `[0, 0xFFFF)` and `[0x10000, 0x1EFFFF)`. On a block still zeroed the byte read there is 0. |
| GpuCommon.RingViewStore | libpsn00b/psxgpu/common.c:215-226 | Storing into the slot just past the parked entries appends to them and overwrites none of them. |
| GpuCommon.RingViewPop | libpsn00b/psxgpu/common.c:52-57 | The slot at head holds the oldest parked entry, and moving head on drops exactly that entry. |
| GpuCommon.DrawQueue.constructor | libpsn00b/psxgpu/common.c:34-35 | An empty, valid queue with nothing started or accepted. |
| GpuCommon.DrawQueue.ResetGraph | libpsn00b/psxgpu/common.c:83-85 | Head, tail and length become 0 and nothing is parked; the invariant holds again. |
| GpuCommon.DrawQueue.EnqueueDrawOp | libpsn00b/psxgpu/common.c:184-227 | A NULL function: -1, nothing changes. Idle queue: length 1, the op starts, 0 returned, slots, head and tail unchanged. Full queue (length >= 16): -1, nothing changes. Otherwise the op is stored at the old tail, `tail = (tail+1)%16`, length grows by one, the old length is returned, and the parked ops gain exactly this one at the end. The ring invariant and FIFO order are kept. |
| GpuCommon.DrawQueue.DmaComplete | libpsn00b/psxgpu/common.c:48-64 | Length drops by one. If it is still non-zero, the oldest parked op starts and `head = (head+1)%16`; otherwise the queue goes idle with head unchanged. The ring invariant and FIFO order are kept. |
| GpuCommon.ClearOTag | libpsn00b/psxgpu/common.c:278-291 | A zero length changes nothing. Otherwise entry i becomes the low 24 bits of the address of entry i+1, the last entry 0xFFFFFF, and entries past `length` are unchanged. |
| GpuCommon.OrderingTableLinks | libpsn00b/psxgpu/common.c:285-289 | For a word-aligned table at any 32-bit address (KSEG0 tables at 0x80xxxxxx included), each link is the next entry's address modulo 2^24 and never the terminator; only the last entry ends the list. |
| GpuCommon.BitOrDisjoint | libpsn00b/psxgpu/common.c:311-315 | OR of a value below `2^k` with a multiple of `2^k` is their sum. |
| GpuCommon.HalfWordsOr | libpsn00b/psxgpu/common.c:311-315 | ORing a low and a high half-word packs both into one 32-bit word, from which each half reads back. |
| GpuCommon.DmaBlockControl | libpsn00b/psxgpu/common.c:311-315 | For length < 16: block size `length`, one block. Otherwise block size 16 and `length/16` blocks. |
| GpuCommon.DmaBlockControlTransfers | libpsn00b/psxgpu/common.c:307-315 | The words moved (size × count) equal the packet length iff length < 16 or length is a multiple of 16. They are never more than the length; any other length leaves words behind, the stuck transfer the code warns about. |

## Left out

- File I/O: the disc image is opened from a fixed path; the model takes its bytes as the stream's contents.
- Console output: the `DebugQueue`/`DebugRead` paths, the `print*` flags of the sector loops, and every `ToString`.
- `Decode` in both `UnitTest4` files does nothing with the frames; there is no VLC decoding in the code to model.
- `UnitTest2`, `UnitTestBase`, `StreamPositionScope`, and the `TestMethod` bodies of `UnitTest1`, which print or assert nothing about the core.
- The `NativeMethods` foreign calls in `UnitTest1.cs`.
- `BitConverter.IsLittleEndian`: the host is fixed as little-endian.
- `MemoryMarshal.Read<T>`: modelled as explicit little-endian field decoding at fixed offsets.
- `SectorMode` is kept as the raw mode byte.
- Stream.ReadExactly: when too few bytes remain, .NET may already have copied some into the buffer before throwing. The model leaves the buffer and position unchanged, since every caller gives up on that error.
- SectorDemuxing.ReadSectorHeaders: seeks to `i * 2352` computed on unbounded integers, so the model reads sector i correctly for every i. The source computes `i * sectorLength` in 32-bit `int` without overflow checks. From i = 913,046 on (images of 2 GiB or more) the product wraps negative and the `Position` setter throws; past 4 GiB it wraps to a wrong offset and the loop reads the wrong sector. `Sectors`, `ProcessSector` and `DemuxSectors` inherit this.
- SectorDemuxing.FindOrCreate: always succeeds in adding the new frame. In the source `new byte[FrameSize]` throws when `FrameSize` exceeds the largest .NET array length, and that failure is not modelled.
- SectorDemuxing.FrameData.constructor: allocates a buffer of any `FrameSize`; the .NET allocation failure above the largest array length is not modelled.
- SectorDemuxing.Fill: computes `pos` and `len` on unbounded integers and does not model the `(int)` casts before the copy. Those casts cannot wrap: `SectorOffset` is a `ushort`, so `pos <= 65535 * 2016 = 132,118,560`, and `len <= 2016` (`WindowFitsInt32`). The third cast, `(int)FrameSize` in the length check, cannot wrap either. That check runs only for an empty window, and a window is empty only when `FrameSize <= SectorOffset * 2016 <= 132,118,560` (`Window`). So none of the three casts changes a value.
- MemoryMap.PsxMemoryBlock.constructor: requires `end - start + 1 >= 0`. A negative length makes the .NET array allocation throw, and that case is not modelled.
- MemoryMap.PsxMemory: in the source the eight blocks are static and shared by every `PsxMemory` instance. The model gives each instance its own blocks, so writes through one instance are not visible through another.
- `IReadOnlyList` enumeration and indexing of `PsxMemory` are not modelled.
- Hardware side of `common.c`:
  - GPU, DMA and timer register writes;
  - interrupt registration in `ResetGraph`;
  - `VSync`, `DrawSync`, `IsIdleGPU`, `DrawOTag*`, `AddPrim` and the callback setters;
  - critical sections and the interrupt concurrency they guard;
  - actually calling queued function pointers, which the model records in `started`.
- GpuCommon.DrawQueue.DmaComplete: requires length >= 1, so a completion with an empty queue is not modelled. The source decrements the 8-bit counter unconditionally: at 0 it wraps to 255 and the handler starts whatever stale entry sits at head. The requires leaves out two paths that can reach it:
  - a transfer started by `DrawPrim` (common.c:299-317), which programs GPU DMA directly after `DrawSync(0)` has seen an empty queue, and whose completion runs the same handler (registered at common.c:74-75);
  - `ResetGraph` (common.c:83-85), which zeroes the counter without stopping a transfer in flight.
  Whether the first path actually raises the interrupt depends on the DMA interrupt setup outside this file; it is read from the code and not executed.
- `psxgpu.h` and `psxetc.h` are not part of this model:
  - `getlen` is taken as the 8-bit length field of a primitive's tag;
  - `_sdk_validate_args` is taken as the argument check that returns the given value when its condition fails. Builds that compile it out would call a NULL function or clear a zero-length table.
