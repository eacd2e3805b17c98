/**
 * The part of System.IO.Stream the core relies on: a seekable byte source
 * whose contents are fixed and whose position moves as bytes are read.
 */
module Streams {
  import opened Binary
  import opened Results

  datatype StreamError =
    | EndOfStream          // EndOfStreamException: fewer bytes remain than were asked for
    | InvalidBufferRange   // ArgumentException: offset + count runs past the destination buffer

  /** `s` with `src` written over it starting at index `at`. */
  function Overwrite<T>(s: seq<T>, at: nat, src: seq<T>): (r: seq<T>)
    requires at + |src| <= |s|
    ensures |r| == |s|
    ensures forall k :: 0 <= k < |s| ==> r[k] == if at <= k < at + |src| then src[k - at] else s[k]
  {
    s[..at] + src + s[at + |src|..]
  }

  class ByteStream {
    const data: seq<byte>
    var position: nat

    constructor (data: seq<byte>)
      ensures this.data == data && position == 0
    {
      this.data := data;
      position := 0;
    }

    /** Stream.Length */
    function Length(): nat
    {
      |data|
    }

    /** Assignment to Stream.Position; a position past the end is allowed and reads nothing. */
    method Seek(p: nat)
      modifies this
      ensures position == p
    {
      position := p;
    }

    /**
     * Stream.ReadExactly(buffer, offset, count): the next `count` bytes land in
     * buffer[offset .. offset + count] and the position moves past them.
     */
    method ReadExactly(buffer: array<byte>, offset: nat, count: nat) returns (r: Outcome<StreamError>)
      modifies this, buffer
      ensures offset + count > buffer.Length ==>
                r == Fail(InvalidBufferRange) && position == old(position) && buffer[..] == old(buffer[..])
      ensures offset + count <= buffer.Length && old(position) + count > |data| ==>
                r == Fail(EndOfStream) && position == old(position) && buffer[..] == old(buffer[..])
      ensures offset + count <= buffer.Length && old(position) + count <= |data| ==>
                && r == Pass
                && position == old(position) + count
                && buffer[..] == Overwrite(old(buffer[..]), offset, data[old(position)..old(position) + count])
    {
      if offset + count > buffer.Length {
        return Fail(InvalidBufferRange);
      }
      if position + count > |data| {
        return Fail(EndOfStream);
      }
      var j := 0;
      while j < count
        invariant 0 <= j <= count
        invariant position == old(position)
        invariant forall k :: 0 <= k < buffer.Length ==>
                    buffer[k] == if offset <= k < offset + j then data[position + k - offset] else old(buffer[k])
      {
        buffer[offset + j] := data[position + j];
        j := j + 1;
      }
      ghost var expected := Overwrite(old(buffer[..]), offset, data[position..position + count]);
      assert buffer[..] == expected by {
        forall k | 0 <= k < buffer.Length ensures buffer[..][k] == expected[k] {
        }
      }
      position := position + count;
      r := Pass;
    }
  }

  /** Span<T>.Reverse(): reverses the array in place. */
  method ReverseInPlace<T>(a: array<T>)
    modifies a
    ensures a[..] == Reverse(old(a[..]))
  {
    var n := a.Length;
    var i := 0;
    while i < n / 2
      invariant 0 <= i <= n / 2
      invariant forall k :: 0 <= k < n ==>
                  a[k] == if k < i || n - i <= k then old(a[n - 1 - k]) else old(a[k])
    {
      a[i], a[n - 1 - i] := a[n - 1 - i], a[i];
      i := i + 1;
    }
    ghost var expected := Reverse(old(a[..]));
    assert a[..] == expected by {
      forall k | 0 <= k < n ensures a[..][k] == expected[k] {
      }
    }
  }
}
