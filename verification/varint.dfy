/** Base-128 varints: WriteVarint32/64 and ReadVarint32/64.
    A value is written as 7-bit groups, least significant group first; every byte but the
    last carries the continuation bit 0x80. A reader of `width` bits (32 or 64) consumes at
    most MaxBytes(width) bytes (5 or 10) and keeps the low `width` bits of what it decoded. */
module Varint {
  import opened Bits
  import opened Wrappers
  import opened Streams

  /** The value spelled by a sequence of 7-bit groups, least significant first. */
  function GroupsValue(bs: seq<byte>): nat
  {
    if bs == [] then 0 else bs[0] % 0x80 + 0x80 * GroupsValue(bs[1..])
  }

  /** The bytes the writer emits for v. */
  function Bytes(v: nat): (r: seq<byte>)
    ensures 1 <= |r|
  {
    if v < 0x80 then [v] else [v % 0x80 + 0x80] + Bytes(v / 0x80)
  }

  /** Every byte but the last carries the continuation bit, the last group is not a
      superfluous zero, and the groups spell v. */
  lemma {:induction false} BytesShape(v: nat)
    ensures forall i :: 0 <= i < |Bytes(v)| - 1 ==> Bytes(v)[i] >= 0x80
    ensures Bytes(v)[|Bytes(v)| - 1] < 0x80
    ensures 1 < |Bytes(v)| ==> Bytes(v)[|Bytes(v)| - 1] != 0
    ensures GroupsValue(Bytes(v)) == v
    decreases v
  {
    if v >= 0x80 {
      BytesShape(v / 0x80);
      var r := Bytes(v);
      assert r[1..] == Bytes(v / 0x80);
    }
  }

  /** The encoding is as short as possible: it takes at most m bytes exactly when v fits
      in 7m bits. */
  lemma {:induction false} BytesLength(v: nat, m: nat)
    requires m >= 1
    ensures |Bytes(v)| <= m <==> v < Pow2(7 * m)
    decreases v
  {
    assert 0x80 <= Pow2(7 * m) by {
      Pow2Byte();
      Pow2Monotone(7, 7 * m);
    }
    if v >= 0x80 && m > 1 {
      BytesLength(v / 0x80, m - 1);
      assert Pow2(7 * m) == 0x80 * Pow2(7 * (m - 1)) by {
        Pow2Byte();
        Pow2Add(7, 7 * (m - 1));
      }
    } else if v >= 0x80 {
      assert |Bytes(v)| == 1 + |Bytes(v / 0x80)|;
    }
  }

  /** The number of loop rounds of a width-bit reader: offsets 0, 7, 14, ... below width. */
  function MaxBytes(width: nat): (r: nat)
    requires width == 32 || width == 64
    ensures width == 32 ==> r == 5
    ensures width == 64 ==> r == 10
  {
    (width + 6) / 7
  }

  /** A uint32 takes at most 5 bytes and a uint64 at most 10. */
  lemma BytesFit(v: nat, width: nat)
    requires (width == 32 || width == 64) && v < Pow2(width)
    ensures |Bytes(v)| <= MaxBytes(width)
  {
    Pow2Monotone(width, 7 * MaxBytes(width));
    BytesLength(v, MaxBytes(width));
  }

  /** How many bytes a varint starting at pos occupies, looking at no more than limit bytes. */
  function Scan(data: seq<byte>, pos: nat, limit: nat): (r: Result<nat>)
    requires pos <= |data|
    ensures r.Success? ==> 1 <= r.value <= limit && pos + r.value <= |data|
    decreases limit
  {
    if limit == 0 then Failure(InvalidData)
    else if pos == |data| then Failure(EndOfStream)
    else if data[pos] < 0x80 then Success(1)
    else match Scan(data, pos + 1, limit - 1)
      case Success(n) => Success(n + 1)
      case Failure(e) => Failure(e)
  }

  /** Scan stops at the first byte without the continuation bit; it fails only when the
      bytes it looked at all carry that bit, with InvalidData exactly when it looked at
      limit of them and EndOfStream when the data ran out first. */
  lemma {:induction false} ScanSpec(data: seq<byte>, pos: nat, limit: nat)
    requires pos <= |data|
    ensures var r := Scan(data, pos, limit);
      r.Success? ==>
        data[pos + r.value - 1] < 0x80 && forall i :: pos <= i < pos + r.value - 1 ==> data[i] >= 0x80
    ensures var r := Scan(data, pos, limit);
      r.Failure? ==>
        (forall i :: pos <= i < pos + limit && i < |data| ==> data[i] >= 0x80) &&
        (r.error == InvalidData || r.error == EndOfStream) &&
        (r.error == InvalidData <==> pos + limit <= |data|)
    decreases limit
  {
    if limit > 0 && pos < |data| && data[pos] >= 0x80 {
      ScanSpec(data, pos + 1, limit - 1);
    }
  }

  lemma ScanStops(data: seq<byte>, pos: nat, limit: nat, k: nat)
    requires pos + k < |data| && k < limit
    requires forall i :: pos <= i < pos + k ==> data[i] >= 0x80
    requires data[pos + k] < 0x80
    ensures Scan(data, pos, limit) == Success(k + 1)
  {
    ScanSpec(data, pos, limit);
  }

  lemma ScanRunsOut(data: seq<byte>, pos: nat, limit: nat)
    requires pos <= |data| < pos + limit
    requires forall i :: pos <= i < |data| ==> data[i] >= 0x80
    ensures Scan(data, pos, limit) == Failure(EndOfStream)
  {
    ScanSpec(data, pos, limit);
  }

  lemma ScanTooLong(data: seq<byte>, pos: nat, limit: nat)
    requires pos + limit <= |data|
    requires forall i :: pos <= i < pos + limit ==> data[i] >= 0x80
    ensures Scan(data, pos, limit) == Failure(InvalidData)
  {
    ScanSpec(data, pos, limit);
  }

  /** The value of the n bytes at data[pos..] as the reader accumulates it: the group of
      byte j lands at bit 7j. */
  function Accumulated(data: seq<byte>, pos: nat, n: nat): nat
    requires pos + n <= |data|
  {
    if n == 0 then 0 else Accumulated(data, pos, n - 1) + Shl(data[pos + n - 1] % 0x80, 7 * (n - 1))
  }

  lemma {:induction false} GroupsValueSnoc(bs: seq<byte>, b: byte)
    ensures GroupsValue(bs + [b]) == GroupsValue(bs) + Shl(b % 0x80, 7 * |bs|)
  {
    if bs == [] {
      assert [b][1..] == [];
    } else {
      assert (bs + [b])[1..] == bs[1..] + [b];
      GroupsValueSnoc(bs[1..], b);
      Shl7(b % 0x80, 7 * (|bs| - 1));
    }
  }

  lemma {:induction false} AccumulatedIsGroups(data: seq<byte>, pos: nat, n: nat)
    requires pos + n <= |data|
    ensures Accumulated(data, pos, n) == GroupsValue(data[pos..pos + n])
  {
    if n > 0 {
      AccumulatedIsGroups(data, pos, n - 1);
      assert data[pos..pos + n] == data[pos..pos + n - 1] + [data[pos + n - 1]];
      GroupsValueSnoc(data[pos..pos + n - 1], data[pos + n - 1]);
    }
  }

  /** What ReadVarint32 (width 32) or ReadVarint64 (width 64) returns for the stream
      contents `data` read from `pos`: the value and the position after it. */
  function Decode(data: seq<byte>, pos: nat, width: nat): Result<(nat, nat)>
    requires pos <= |data| && (width == 32 || width == 64)
  {
    var n :- Scan(data, pos, MaxBytes(width));
    Success((Low(Accumulated(data, pos, n), width), pos + n))
  }

  /** The reader consumes at least one byte and returns a width-bit value. */
  lemma DecodeBounds(data: seq<byte>, pos: nat, width: nat)
    requires pos <= |data| && (width == 32 || width == 64)
    ensures Decode(data, pos, width).Success? ==>
      pos < Decode(data, pos, width).value.1 <= |data| && Decode(data, pos, width).value.0 < Pow2(width)
  {
    var r := Scan(data, pos, MaxBytes(width));
    if r.Success? {
      LowBelow(Accumulated(data, pos, r.value), width);
    }
  }

  /** A well-formed encoding e found at data[pos..q] is scanned to its end. */
  lemma ScanEncoding(data: seq<byte>, pos: nat, q: nat, limit: nat, e: seq<byte>)
    requires 1 <= |e| <= limit && q == pos + |e| <= |data| && data[pos..q] == e
    requires forall i :: 0 <= i < |e| - 1 ==> e[i] >= 0x80
    requires e[|e| - 1] < 0x80
    ensures Scan(data, pos, limit) == Success(q - pos)
  {
    forall i | pos <= i < q - 1
      ensures data[i] >= 0x80
    {
      assert data[i] == e[i - pos];
    }
    assert data[q - 1] == e[|e| - 1];
    ScanStops(data, pos, limit, q - 1 - pos);
  }

  /** The reader's two steps on a well-formed encoding e of v found at data[pos..q]: the scan
      stops at the end of e, and the groups accumulate to v. */
  lemma ReadsEncoding(data: seq<byte>, pos: nat, q: nat, width: nat, e: seq<byte>, v: nat)
    requires (width == 32 || width == 64) && v < Pow2(width)
    requires 1 <= |e| <= MaxBytes(width) && q == pos + |e| <= |data| && data[pos..q] == e
    requires forall i :: 0 <= i < |e| - 1 ==> e[i] >= 0x80
    requires e[|e| - 1] < 0x80 && GroupsValue(e) == v
    ensures Scan(data, pos, MaxBytes(width)) == Success(q - pos)
    ensures Low(Accumulated(data, pos, q - pos), width) == v
  {
    AccumulatedEncoding(data, pos, q, width, e, v);
    ScanEncoding(data, pos, q, MaxBytes(width), e);
  }

  /** The reader accumulates the value of the groups of e. */
  lemma AccumulatedEncoding(data: seq<byte>, pos: nat, q: nat, width: nat, e: seq<byte>, v: nat)
    requires v < Pow2(width) && q == pos + |e| <= |data| && data[pos..q] == e && GroupsValue(e) == v
    ensures Low(Accumulated(data, pos, q - pos), width) == v
  {
    AccumulatedIsGroups(data, pos, q - pos);
    LowBelow(v, width);
  }

  /** Decode, given the outcome of the scan and the accumulated value. */
  lemma DecodeOf(data: seq<byte>, pos: nat, q: nat, width: nat, v: nat)
    requires pos <= q <= |data| && (width == 32 || width == 64)
    requires Scan(data, pos, MaxBytes(width)) == Success(q - pos)
    requires Low(Accumulated(data, pos, q - pos), width) == v
    ensures Decode(data, pos, width) == Success((v, q))
  {
  }

  /** Reading back what the writer emitted at data[pos..q] yields the value and stops at q. */
  lemma DecodeBytes(data: seq<byte>, pos: nat, q: nat, width: nat, v: nat)
    requires (width == 32 || width == 64) && v < Pow2(width)
    requires q == pos + |Bytes(v)| <= |data| && data[pos..q] == Bytes(v)
    ensures Decode(data, pos, width) == Success((v, q))
  {
    BytesReads(data, pos, q, width, v);
    DecodeOf(data, pos, q, width, v);
  }

  lemma BytesReads(data: seq<byte>, pos: nat, q: nat, width: nat, v: nat)
    requires (width == 32 || width == 64) && v < Pow2(width)
    requires q == pos + |Bytes(v)| <= |data| && data[pos..q] == Bytes(v)
    ensures Scan(data, pos, MaxBytes(width)) == Success(q - pos)
    ensures Low(Accumulated(data, pos, q - pos), width) == v
  {
    BytesFit(v, width);
    BytesShape(v);
    ReadsEncoding(data, pos, q, width, Bytes(v), v);
  }

  /** The reader fails exactly when every byte it may look at carries the continuation bit:
      with InvalidData when there were MaxBytes(width) of them, with EndOfStream when the
      data ended first. On success it stops after the first byte without that bit. */
  lemma DecodeOutcome(data: seq<byte>, pos: nat, width: nat)
    requires pos <= |data| && (width == 32 || width == 64)
    ensures var d := Decode(data, pos, width);
      d.Failure? <==> forall i :: pos <= i < pos + MaxBytes(width) && i < |data| ==> data[i] >= 0x80
    ensures var d := Decode(data, pos, width);
      d.Failure? ==> (d.error == InvalidData <==> pos + MaxBytes(width) <= |data|) &&
                     (d.error == InvalidData || d.error == EndOfStream)
    ensures var d := Decode(data, pos, width);
      d.Success? ==> pos < d.value.1 <= pos + MaxBytes(width) && data[d.value.1 - 1] < 0x80 &&
                     forall i :: pos <= i < d.value.1 - 1 ==> data[i] >= 0x80
  {
    ScanSpec(data, pos, MaxBytes(width));
  }

  /** WriteVarint32 / WriteVarint64 (a uint32 is a uint64 here; the loop is the same). */
  method WriteVarint(s: OutStream, value: uint64)
    modifies s
    ensures s.bytes == old(s.bytes) + Bytes(value)
  {
    var v: nat := value;
    while v >= 0x80
      invariant s.bytes + Bytes(v) == old(s.bytes) + Bytes(value)
      decreases v
    {
      // (byte)(v | 0x80): the continuation bit over the low seven bits of v
      var b := Or(v, 0x80) % 0x100;
      ContinuationByte(v);
      WriteStep(s.bytes, v);
      s.WriteByte(b);
      v := v / 0x80;
    }
    s.WriteByte(v);
  }

  lemma ContinuationByte(v: nat)
    ensures Or(v, 0x80) % 0x100 == v % 0x80 + 0x80
  {
    Pow2Byte();
    OrHighBit(v, 7);
  }

  lemma WriteStep(acc: seq<byte>, v: nat)
    requires v >= 0x80
    ensures acc + Bytes(v) == (acc + [v % 0x80 + 0x80]) + Bytes(v / 0x80)
  {
  }

  /** `(b & 0x7f) << offset` in a width-bit accumulator. */
  function Shifted(b: byte, offset: nat, width: nat): nat
  {
    Low(Shl(b % 0x80, offset), width)
  }

  /** One round of the reader's loop that is not the last: `result |= (b & 0x7f) << offset`
      adds the group above the bits read so far. */
  lemma AccumulateGroup(result: nat, b: byte, offset: nat, width: nat)
    requires result < Pow2(offset) && offset + 7 < width
    ensures Or(result, Shifted(b, offset, width)) == result + Shl(b % 0x80, offset)
    ensures result + Shl(b % 0x80, offset) < Pow2(offset + 7)
  {
    var g := b % 0x80;
    assert Shifted(b, offset, width) == Shl(g, offset) by {
      LowShl(g, offset, width);
      Pow2Byte();
      Pow2Monotone(7, width - offset);
      LowBelow(g, width - offset);
    }
    OrComm(result, Shl(g, offset));
    OrShl(g, result, offset);
    Pow2Byte();
    ShlBound(result, g, offset, 7);
  }

  /** The last round of the reader's loop: the accumulated value, truncated to width bits. */
  lemma LastGroup(result: nat, b: byte, offset: nat, width: nat)
    requires result < Pow2(offset) && offset <= width
    ensures Or(result, Shifted(b, offset, width)) == Low(result + Shl(b % 0x80, offset), width)
  {
    var g := b % 0x80;
    LowShl(g, offset, width);
    OrComm(result, Shl(Low(g, width - offset), offset));
    OrShl(Low(g, width - offset), result, offset);
    LowAdd(result, g, offset, width);
  }

  /** The bytes data[from..to] all carry the continuation bit. */
  ghost predicate AllContinue(data: seq<byte>, from: nat, to: nat)
  {
    forall i :: from <= i < to && i < |data| ==> data[i] >= 0x80
  }

  /** A round of the reader's loop that reads a byte with the continuation bit. */
  lemma NextByte(data: seq<byte>, p0: nat, width: nat, k: nat, result: nat, offset: nat)
    requires p0 + k < |data| && data[p0 + k] >= 0x80 && offset == 7 * k && offset < width
    requires AllContinue(data, p0, p0 + k)
    requires result == Accumulated(data, p0, k) && result < Pow2(offset)
    ensures AllContinue(data, p0, p0 + k + 1)
    ensures offset + 7 < width ==>
      Or(result, Shifted(data[p0 + k], offset, width)) == Accumulated(data, p0, k + 1) &&
      Accumulated(data, p0, k + 1) < Pow2(offset + 7)
  {
    if offset + 7 < width {
      AccumulateGroup(result, data[p0 + k], offset, width);
    }
  }

  /** The round of the reader's loop that reads the byte without the continuation bit. */
  lemma LastByte(data: seq<byte>, p0: nat, width: nat, k: nat, result: nat, offset: nat)
    requires (width == 32 || width == 64) && offset == 7 * k && offset < width
    requires p0 + k < |data| && data[p0 + k] < 0x80
    requires AllContinue(data, p0, p0 + k)
    requires result == Accumulated(data, p0, k) && result < Pow2(offset)
    ensures Scan(data, p0, MaxBytes(width)) == Success(k + 1)
    ensures Low(Accumulated(data, p0, k + 1), width) == Or(result, Shifted(data[p0 + k], offset, width))
  {
    assert k < MaxBytes(width);
    ScanStops(data, p0, MaxBytes(width), k);
    LastGroup(result, data[p0 + k], offset, width);
  }

  /** ReadVarint32 (width 32) / ReadVarint64 (width 64). On failure the stream has been
      advanced over every byte the loop read. */
  method ReadVarint(s: InStream, width: nat) returns (r: Result<nat>)
    requires s.Valid() && (width == 32 || width == 64)
    modifies s
    ensures s.Valid()
    ensures var d := Decode(s.data, old(s.pos), width);
            d.Success? ==> r == Success(d.value.0) && s.pos == d.value.1
    ensures var d := Decode(s.data, old(s.pos), width);
            d.Failure? ==> r == Failure(d.error) && s.pos == Min(old(s.pos) + MaxBytes(width), |s.data|)
  {
    ghost var p0 := s.pos;
    ghost var G := MaxBytes(width);
    var result: nat := 0;
    var offset: nat := 0;
    while offset < width
      invariant s.Valid() && p0 <= s.pos <= p0 + G
      invariant offset == 7 * (s.pos - p0)
      invariant AllContinue(s.data, p0, s.pos)
      invariant offset < width ==> result == Accumulated(s.data, p0, s.pos - p0) && result < Pow2(offset)
    {
      ghost var k := s.pos - p0;
      var b := s.ReadByte();
      if b == -1 {
        assert k < G;
        ScanRunsOut(s.data, p0, G);
        return Failure(EndOfStream);
      }
      var shifted := Shifted(b, offset, width);
      if b < 0x80 {
        // (b & 0x80) == 0: the last byte of the varint
        LastByte(s.data, p0, width, k, result, offset);
        result := Or(result, shifted);
        DecodeOf(s.data, p0, s.pos, width, result);
        return Success(result);
      }
      NextByte(s.data, p0, width, k, result, offset);
      result := Or(result, shifted);
      offset := offset + 7;
    }
    assert s.pos == p0 + G;
    ScanTooLong(s.data, p0, G);
    return Failure(InvalidData);
  }
}
