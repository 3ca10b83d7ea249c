/** The two ends of a System.IO.Stream that the primitive codec touches.
    A writable stream is the sequence of bytes written so far; a readable stream is a fixed
    byte sequence with a cursor. `Read` may deliver fewer bytes than asked for: at most
    `chunk` bytes per call, which stands for whatever the concrete stream chooses. */
module Streams {
  import opened Bits

  class OutStream {
    var bytes: seq<byte>

    constructor()
      ensures bytes == []
    {
      bytes := [];
    }

    /** Stream.WriteByte */
    method WriteByte(b: byte)
      modifies this
      ensures bytes == old(bytes) + [b]
    {
      bytes := bytes + [b];
    }

    /** Stream.Write(buffer, offset, count) */
    method Write(buf: array<byte>, offset: nat, count: nat)
      requires offset + count <= buf.Length
      modifies this
      ensures bytes == old(bytes) + buf[offset..offset + count]
    {
      bytes := bytes + buf[offset..offset + count];
    }
  }

  class InStream {
    const data: seq<byte>
    const chunk: nat
    var pos: nat

    ghost predicate Valid()
      reads this
    {
      pos <= |data| && chunk >= 1
    }

    constructor(data: seq<byte>, chunk: nat)
      requires chunk >= 1
      ensures Valid() && this.data == data && this.chunk == chunk && pos == 0
    {
      this.data := data;
      this.chunk := chunk;
      pos := 0;
    }

    /** The unread bytes. */
    function Remaining(): (r: seq<byte>)
      requires Valid()
      reads this
      ensures |r| == |data| - pos
    {
      data[pos..]
    }

    /** Stream.ReadByte: the next byte, or -1 at the end of the stream. */
    method ReadByte() returns (b: int)
      requires Valid()
      modifies this
      ensures Valid()
      ensures old(pos) < |data| ==> b == data[old(pos)] && pos == old(pos) + 1
      ensures old(pos) == |data| ==> b == -1 && pos == old(pos)
    {
      if pos < |data| {
        b := data[pos];
        pos := pos + 1;
      } else {
        b := -1;
      }
    }

    /** Stream.Read(buffer, offset, count): copies up to count bytes, returns how many;
        0 only at the end of the stream (or for count == 0). */
    method Read(buf: array<byte>, offset: nat, count: nat) returns (n: nat)
      requires Valid() && offset + count <= buf.Length
      modifies this, buf
      ensures Valid()
      ensures n == Min(Min(count, |data| - old(pos)), chunk)
      ensures pos == old(pos) + n
      ensures buf[offset..offset + n] == data[old(pos)..pos]
      ensures buf[..offset] == old(buf[..offset])
      ensures buf[offset + n..] == old(buf[offset + n..])
    {
      n := Min(Min(count, |data| - pos), chunk);
      var i := 0;
      while i < n
        modifies buf
        invariant 0 <= i <= n
        invariant buf[offset..offset + i] == data[pos..pos + i]
        invariant buf[..offset] == old(buf[..offset])
        invariant buf[offset + i..] == old(buf[offset + i..])
      {
        buf[offset + i] := data[pos + i];
        i := i + 1;
      }
      pos := pos + n;
    }
  }

  function Min(a: int, b: int): (r: int)
    ensures r <= a && r <= b && (r == a || r == b)
  {
    if a <= b then a else b
  }
}
