/**
 * The PlayStation address map used by the tests: eight named, inclusive
 * address ranges, each backed by a byte array, with byte and little-endian
 * word access. PsxMemory finds the one block that contains an index and
 * hands it the index unchanged, so the block indexes its own array with the
 * absolute address.
 */
module MemoryMap {
  import opened Binary
  import opened Results

  type int32 = x: int | -0x8000_0000 <= x < 0x8000_0000

  datatype MemoryError =
    | IndexOutOfRange            // IndexOutOfRangeException from Bytes[index]
    | ArgumentOutOfRange         // ArgumentOutOfRangeException from AsSpan(index) or a span shorter than 2
    | NoMatchingBlock            // Single: no block contains the index
    | MoreThanOneMatchingBlock   // Single: several blocks contain the index

  /** A block's inclusive range [start, end] and its name. */
  datatype AddressRange = AddressRange(start: int, end: int, name: string)
  {
    predicate Contains(address: int) { start <= address <= end }
    function Length(): int { end - start + 1 }
  }

  const Min := 0x0000_0000
  const Max := 0xBFC7_FFFF

  const Kernel := AddressRange(0x0000_0000, 0x0000_FFFF, "Kernel")
  const User := AddressRange(0x0001_0000, 0x001F_FFFF, "User")
  const ParallelPort := AddressRange(0x1F00_0000, 0x1F00_FFFF, "ParallelPort")
  const ScratchPad := AddressRange(0x1F80_0000, 0x1F80_03FF, "ScratchPad")
  const HardwareRegisters := AddressRange(0x1F80_1000, 0x1F80_2FFF, "HardwareRegisters")
  const KernelUserMirrorCached := AddressRange(0x8000_0000, 0x801F_FFFF, "KernelUserMirrorCached")
  const KernelUserMirrorUncached := AddressRange(0xA000_0000, 0xA01F_FFFF, "KernelUserMirrorUncached")
  const Bios := AddressRange(0xBFC0_0000, 0xBFC7_FFFF, "Bios")

  /** The blocks of a default PsxMemory, in order. */
  const DefaultRanges := [Kernel, User, ParallelPort, ScratchPad, HardwareRegisters,
                          KernelUserMirrorCached, KernelUserMirrorUncached, Bios]

  /** The little-endian ushort at s[i], s[i + 1] (BinaryPrimitives.ReadUInt16LittleEndian). */
  function WordAt(s: seq<byte>, i: nat): uint16
    requires i + 2 <= |s|
  {
    s[i] as int + 256 * s[i + 1] as int
  }

  /** `s` with the ushort v written little-endian at i (BinaryPrimitives.WriteUInt16LittleEndian). */
  function WithWord(s: seq<byte>, i: nat, v: uint16): (r: seq<byte>)
    requires i + 2 <= |s|
    ensures |r| == |s|
  {
    s[i := v % 256][i + 1 := v / 256]
  }

  /**
   * A word written at i reads back unchanged, only bytes i and i + 1 change
   * (low byte first), writing back a word just read changes nothing, and the
   * word is the little-endian value of its two bytes.
   */
  lemma WordRoundTrip(s: seq<byte>, i: nat, v: uint16)
    requires i + 2 <= |s|
    ensures WordAt(WithWord(s, i, v), i) == v
    ensures WithWord(s, i, v)[i] == v % 256 && WithWord(s, i, v)[i + 1] == v / 256
    ensures forall k :: 0 <= k < |s| && k != i && k != i + 1 ==> WithWord(s, i, v)[k] == s[k]
    ensures WithWord(s, i, WordAt(s, i)) == s
    ensures WordAt(s, i) == LittleEndian(s[i..i + 2])
  {
    assert s[i..i + 2][1..] == [s[i + 1]];
  }

  class PsxMemoryBlock {
    const start: int
    const end: int
    const name: string
    const length: int
    const bytes: array<byte>

    constructor (start: int, end: int, name: string)
      requires end - start + 1 >= 0
      ensures this.start == start && this.end == end && this.name == name
      ensures length == end - start + 1 && bytes.Length == length
      ensures Zeroed()
      ensures fresh(bytes)
    {
      this.start := start;
      this.end := end;
      this.name := name;
      length := end - start + 1;
      bytes := new byte[end - start + 1](_ => 0);
    }

    function Bounds(): AddressRange
    {
      AddressRange(start, end, name)
    }

    /** Every byte of the array is zero, as a freshly allocated array is. */
    predicate Zeroed()
      reads bytes
    {
      forall i :: 0 <= i < bytes.Length ==> bytes[i] == 0
    }

    /** Contains(address): start <= address <= end. */
    predicate Contains(address: int)
    {
      start <= address <= end
    }

    /** Bytes[index]. */
    function GetByte(index: int32): (r: Result<byte, MemoryError>)
      reads bytes
      ensures r.Success? <==> 0 <= index < bytes.Length
      ensures r.Success? ==> r.value == bytes[index]
      ensures r.Failure? ==> r.error == IndexOutOfRange
    {
      if 0 <= index < bytes.Length then Success(bytes[index]) else Failure(IndexOutOfRange)
    }

    /** ReadUInt16LittleEndian(Bytes.AsSpan(index)). */
    function GetWord(index: int32): (r: Result<uint16, MemoryError>)
      reads bytes
      ensures r.Success? <==> 0 <= index && index + 2 <= bytes.Length
      ensures r.Success? ==> r.value == LittleEndian(bytes[index..index + 2])
      ensures r.Failure? ==> r.error == ArgumentOutOfRange
    {
      if 0 <= index && index + 2 <= bytes.Length then
        WordRoundTrip(bytes[..], index, 0);
        assert bytes[..][index..index + 2] == bytes[index..index + 2];
        Success(WordAt(bytes[..], index))
      else Failure(ArgumentOutOfRange)
    }

    /** Bytes[index] = value. */
    method SetByte(index: int32, value: byte) returns (r: Outcome<MemoryError>)
      modifies bytes
      ensures 0 <= index < bytes.Length ==> r == Pass && bytes[..] == old(bytes[..])[index := value]
      ensures !(0 <= index < bytes.Length) ==> r == Fail(IndexOutOfRange) && bytes[..] == old(bytes[..])
      ensures r.Pass? ==> GetByte(index) == Success(value)
    {
      if index < 0 || index >= bytes.Length {
        return Fail(IndexOutOfRange);
      }
      bytes[index] := value;
      r := Pass;
    }

    /** WriteUInt16LittleEndian(Bytes.AsSpan(index), value). */
    method SetWord(index: int32, value: uint16) returns (r: Outcome<MemoryError>)
      modifies bytes
      ensures 0 <= index && index + 2 <= bytes.Length ==>
                r == Pass && bytes[..] == WithWord(old(bytes[..]), index, value)
      ensures !(0 <= index && index + 2 <= bytes.Length) ==>
                r == Fail(ArgumentOutOfRange) && bytes[..] == old(bytes[..])
      ensures r.Pass? ==> GetWord(index) == Success(value)
    {
      if index < 0 || index + 2 > bytes.Length {
        return Fail(ArgumentOutOfRange);
      }
      bytes[index] := value % 256;
      bytes[index + 1] := value / 256;
      WordRoundTrip(old(bytes[..]), index, value);
      assert bytes[..] == WithWord(old(bytes[..]), index, value);
      WordRoundTrip(bytes[..], index, value);
      assert bytes[..][index..index + 2] == bytes[index..index + 2];
      r := Pass;
    }
  }

  /** Each block's array is as long as its range and belongs to no other block. */
  predicate OwnArrays(blocks: seq<PsxMemoryBlock>)
  {
    && (forall k :: 0 <= k < |blocks| ==> blocks[k].bytes.Length == blocks[k].length)
    && (forall j, k :: 0 <= j < k < |blocks| ==> blocks[j].bytes != blocks[k].bytes)
  }

  lemma OwnArraysSnoc(blocks: seq<PsxMemoryBlock>, b: PsxMemoryBlock)
    requires OwnArrays(blocks) && b.bytes.Length == b.length
    requires forall k :: 0 <= k < |blocks| ==> blocks[k].bytes != b.bytes
    ensures OwnArrays(blocks + [b])
  {
  }

  class PsxMemory {
    const blocks: seq<PsxMemoryBlock>

    /** The eight default blocks in order, copied into the list as ToList does, each with its own zeroed array. */
    constructor ()
      ensures Default() && Valid()
      ensures forall k :: 0 <= k < |blocks| ==> fresh(blocks[k].bytes) && blocks[k].Zeroed()
    {
      var list: seq<PsxMemoryBlock> := [];
      var k := 0;
      DefaultRangesOrdered();
      while k < |DefaultRanges|
        invariant k <= |DefaultRanges| && |list| == k
        invariant forall j :: 0 <= j < k ==>
                    && list[j].Bounds() == DefaultRanges[j] && list[j].length == DefaultRanges[j].Length()
                    && fresh(list[j].bytes) && list[j].Zeroed()
        invariant OwnArrays(list)
      {
        var range := DefaultRanges[k];
        var block := new PsxMemoryBlock(range.start, range.end, range.name);
        OwnArraysSnoc(list, block);
        list := list + [block];
        k := k + 1;
      }
      blocks := list;
    }

    /** The blocks are the default ranges in order, each as long as its range. */
    predicate Default()
    {
      && |blocks| == |DefaultRanges|
      && forall k :: 0 <= k < |blocks| ==>
           blocks[k].Bounds() == DefaultRanges[k] && blocks[k].length == DefaultRanges[k].Length()
    }

    /** Each block's array is its own and as long as its range. */
    predicate Valid()
    {
      OwnArrays(blocks)
    }

    function Repr(): set<array<byte>>
    {
      set k | 0 <= k < |blocks| :: blocks[k].bytes
    }

    /** Block j is the only block containing `index`. */
    predicate UniqueMatch(index: int, j: int)
    {
      0 <= j < |blocks| && blocks[j].Contains(index)
      && forall k :: 0 <= k < |blocks| && k != j ==> !blocks[k].Contains(index)
    }

    /** this.Single(s => s.Contains(index)): walks the blocks and fails on a second match. */
    method GetBlock(index: int32) returns (r: Result<PsxMemoryBlock, MemoryError>)
      ensures r.Success? <==> exists j :: UniqueMatch(index, j)
      ensures forall j :: UniqueMatch(index, j) ==> r == Success(blocks[j])
      ensures r == Failure(NoMatchingBlock) <==> forall k :: 0 <= k < |blocks| ==> !blocks[k].Contains(index)
      ensures r.Failure? ==> r.error == NoMatchingBlock || r.error == MoreThanOneMatchingBlock
    {
      var found: Option<nat> := None;
      var i := 0;
      while i < |blocks|
        invariant 0 <= i <= |blocks|
        invariant found.None? ==> forall k :: 0 <= k < i ==> !blocks[k].Contains(index)
        invariant found.Some? ==>
                    found.value < i && blocks[found.value].Contains(index)
                    && forall k :: 0 <= k < i && k != found.value ==> !blocks[k].Contains(index)
      {
        if blocks[i].Contains(index) {
          if found.Some? {
            assert !UniqueMatch(index, found.value) && !UniqueMatch(index, i);
            assert forall j :: !UniqueMatch(index, j);
            return Failure(MoreThanOneMatchingBlock);
          }
          found := Some(i);
        }
        i := i + 1;
      }
      if found.None? {
        return Failure(NoMatchingBlock);
      }
      assert UniqueMatch(index, found.value);
      r := Success(blocks[found.value]);
    }

    /** The error of a lookup that finds no block, or more than one, containing `index`. */
    function LookupError(index: int): MemoryError
    {
      if forall k :: 0 <= k < |blocks| ==> !blocks[k].Contains(index) then NoMatchingBlock else MoreThanOneMatchingBlock
    }

    /** GetBlock(index).GetByte(index): the absolute index is used inside the block. */
    method GetByte(index: int32) returns (r: Result<byte, MemoryError>)
      ensures (forall j :: !UniqueMatch(index, j)) ==> r == Failure(LookupError(index))
      ensures forall j :: UniqueMatch(index, j) ==> r == blocks[j].GetByte(index)
    {
      var block := GetBlock(index);
      if block.Failure? {
        return Failure(block.error);
      }
      r := block.value.GetByte(index);
    }

    /** GetBlock(index).GetWord(index). */
    method GetWord(index: int32) returns (r: Result<uint16, MemoryError>)
      ensures (forall j :: !UniqueMatch(index, j)) ==> r == Failure(LookupError(index))
      ensures forall j :: UniqueMatch(index, j) ==> r == blocks[j].GetWord(index)
    {
      var block := GetBlock(index);
      if block.Failure? {
        return Failure(block.error);
      }
      r := block.value.GetWord(index);
    }

    /** GetBlock(index).SetByte(index, value): only the matching block's byte at the absolute index changes. */
    method SetByte(index: int32, value: byte) returns (r: Outcome<MemoryError>)
      requires Valid()
      modifies Repr()
      ensures (forall j :: !UniqueMatch(index, j)) ==> r == Fail(LookupError(index))
      ensures forall j :: UniqueMatch(index, j) ==>
                if 0 <= index < blocks[j].length then
                  r == Pass && blocks[j].bytes[..] == old(blocks[j].bytes[..])[index := value]
                else r == Fail(IndexOutOfRange)
      ensures forall k :: 0 <= k < |blocks| && !(r.Pass? && UniqueMatch(index, k)) ==>
                blocks[k].bytes[..] == old(blocks[k].bytes[..])
    {
      var block := GetBlock(index);
      if block.Failure? {
        return Fail(block.error);
      }
      ghost var j :| UniqueMatch(index, j);
      r := block.value.SetByte(index, value);
      assert forall k :: 0 <= k < |blocks| && k != j ==> blocks[k].bytes != blocks[j].bytes;
    }

    /** GetBlock(index).SetWord(index, value): only the matching block's two bytes at the absolute index change. */
    method SetWord(index: int32, value: uint16) returns (r: Outcome<MemoryError>)
      requires Valid()
      modifies Repr()
      ensures (forall j :: !UniqueMatch(index, j)) ==> r == Fail(LookupError(index))
      ensures forall j :: UniqueMatch(index, j) ==>
                if 0 <= index && index + 2 <= blocks[j].length then
                  r == Pass && blocks[j].bytes[..] == WithWord(old(blocks[j].bytes[..]), index, value)
                else r == Fail(ArgumentOutOfRange)
      ensures forall k :: 0 <= k < |blocks| && !(r.Pass? && UniqueMatch(index, k)) ==>
                blocks[k].bytes[..] == old(blocks[k].bytes[..])
    {
      var block := GetBlock(index);
      if block.Failure? {
        return Fail(block.error);
      }
      ghost var j :| UniqueMatch(index, j);
      r := block.value.SetWord(index, value);
      assert forall k :: 0 <= k < |blocks| && k != j ==> blocks[k].bytes != blocks[j].bytes;
    }
  }

  /** The default ranges are non-empty, listed in increasing order and pairwise disjoint, inside [Min, Max]. */
  lemma DefaultRangesOrdered()
    ensures forall k :: 0 <= k < |DefaultRanges| ==> DefaultRanges[k].start <= DefaultRanges[k].end
    ensures forall k :: 0 <= k < |DefaultRanges| - 1 ==> DefaultRanges[k].end < DefaultRanges[k + 1].start
    ensures forall j, k, a :: 0 <= j < k < |DefaultRanges| && DefaultRanges[j].Contains(a) ==> !DefaultRanges[k].Contains(a)
    ensures Min == DefaultRanges[0].start && Max == DefaultRanges[|DefaultRanges| - 1].end
    ensures Max - Min == Bios.end
  {
    var r := DefaultRanges;
    forall j, k | 0 <= j < k < |r| ensures r[j].end < r[k].start {
      RangesIncrease(j, k);
    }
  }

  lemma {:induction false} RangesIncrease(j: nat, k: nat)
    requires j < k < |DefaultRanges|
    ensures DefaultRanges[j].end < DefaultRanges[k].start
    decreases k - j
  {
    if j + 1 < k {
      RangesIncrease(j + 1, k);
    }
  }

  /**
   * On the range table alone: an index lies in a range and below that
   * range's length exactly for the indexes below 0x1F0000, and leaves room
   * for a word exactly on the same indexes except 0xFFFF and 0x1EFFFF.
   */
  lemma DefaultRangeIndexes(index: int32)
    ensures (exists j :: 0 <= j < |DefaultRanges| && DefaultRanges[j].Contains(index) && index < DefaultRanges[j].Length())
            <==> 0 <= index < 0x1F_0000
    ensures (exists j :: 0 <= j < |DefaultRanges| && DefaultRanges[j].Contains(index) && index + 2 <= DefaultRanges[j].Length())
            <==> 0 <= index < 0xFFFF || 0x1_0000 <= index < 0x1E_FFFF
  {
    if 0 <= index < 0x1_0000 {
      assert DefaultRanges[0].Contains(index);
    } else if 0x1_0000 <= index < 0x1F_0000 {
      assert DefaultRanges[1].Contains(index);
    }
  }

  /**
   * In a PsxMemory with the default blocks, a byte access finds a single block
   * and stays inside that block's array exactly for the indexes below
   * 0x1F0000 (the Kernel block and the low part of User), because the block
   * is handed the absolute index. A word access succeeds on the same indexes
   * except the last one of each block: 0xFFFF, the end of Kernel, and
   * 0x1EFFFF. In a fresh map every byte read there is zero.
   */
  lemma DefaultAccessibleIndexes(m: PsxMemory, index: int32)
    requires m.Default() && m.Valid()
    ensures (exists j :: m.UniqueMatch(index, j) && m.blocks[j].GetByte(index).Success?) <==> 0 <= index < 0x1F_0000
    ensures (exists j :: m.UniqueMatch(index, j) && m.blocks[j].GetWord(index).Success?)
            <==> 0 <= index < 0xFFFF || 0x1_0000 <= index < 0x1E_FFFF
    ensures forall j :: m.UniqueMatch(index, j) && 0 <= index < 0x1F_0000 && m.blocks[j].Zeroed() ==>
              m.blocks[j].GetByte(index) == Success(0)
  {
    DefaultRangesOrdered();
    DefaultRangeIndexes(index);
    forall j | 0 <= j < |m.blocks| && m.blocks[j].Contains(index)
      ensures m.UniqueMatch(index, j)
    {
      assert DefaultRanges[j].Contains(index);
      forall k | 0 <= k < |m.blocks| && k != j ensures !m.blocks[k].Contains(index) {
        assert m.blocks[k].Bounds() == DefaultRanges[k];
        if k < j {
          RangesIncrease(k, j);
        } else {
          RangesIncrease(j, k);
        }
      }
    }
    if 0 <= index < 0x1_0000 {
      assert m.blocks[0].Contains(index);
    } else if 0x1_0000 <= index < 0x1F_0000 {
      assert m.blocks[1].Contains(index);
    }
  }
}
