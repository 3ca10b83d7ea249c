/** WritePrimitive and ReadPrimitive (Primitives.cs) as methods on streams. Each is proved
    against the byte-level definitions of module Primitives: a writer appends exactly
    Encode(p), and a reader returns what Decode returns and moves the stream to where
    Decode stops. */
module PrimitiveIO {
  import opened Bits
  import opened Wrappers
  import opened Streams
  import opened Primitives
  import Varint
  import Utf8

  /** A reader's outcome r and stream position pos agree with the definition d: the same
      value and end position on success, the same exception on failure. */
  predicate Agrees<T(==)>(r: Result<T>, d: Result<(T, nat)>, pos: nat)
  {
    (r.Success? <==> d.Success?) &&
    (d.Success? ==> r.value == d.value.0 && pos == d.value.1) &&
    (d.Failure? ==> r.error == d.error)
  }

  /** WritePrimitive, for every one of the sixteen types. */
  method WritePrimitive(s: OutStream, p: Primitive)
    requires WellFormed(p)
    modifies s
    ensures s.bytes == old(s.bytes) + Encode(p)
  {
    match p
    case Bool(b) => s.WriteByte(if b then 1 else 0);
    case Byte(x) => s.WriteByte(x);
    case SByte(x) => s.WriteByte(x % 0x100);
    case Str(t) => WriteString(s, t);
    case ByteArray(a) => WriteByteArray(s, a);
    case Dec(d) => WriteDecimal(s, d);
    case _ => WriteVarintSized(s, p);
  }

  /** The WritePrimitive overloads that write one varint. */
  method WriteVarintSized(s: OutStream, p: Primitive)
    requires KindOf(p) !in {BoolKind, ByteKind, SByteKind, StringKind, ByteArrayKind, DecimalKind}
    modifies s
    ensures s.bytes == old(s.bytes) + Encode(p)
  {
    var x: uint64 := match p
      case Char(x) => x
      case UShort(x) => x
      case Short(x) => EncodeZigZag32(x)
      case UInt(x) => x
      case Int(x) => EncodeZigZag32(x)
      case ULong(x) => x
      case Long(x) => EncodeZigZag64(x)
      case Float(x) => x
      case Double(x) => x
      case DateTime(x) => EncodeZigZag64(x);
    Varint.WriteVarint(s, x);
  }

  /** WritePrimitive(decimal). */
  method WriteDecimal(s: OutStream, d: Decimal)
    modifies s
    ensures s.bytes == old(s.bytes) + Varint.Bytes(LowMid(d.lo, d.mid)) + Varint.Bytes(d.hi) +
                       Varint.Bytes(ScaleSign(d.flags))
  {
    Varint.WriteVarint(s, LowMid(d.lo, d.mid));
    Varint.WriteVarint(s, d.hi);
    Varint.WriteVarint(s, ScaleSign(d.flags));
  }

  /** WritePrimitive(string): the UTF-8 bytes go through a buffer of exactly their length. */
  method WriteString(s: OutStream, value: Option<string>)
    requires value.Some? ==> |Utf8.Encode(value.value)| <= MaxArrayLength
    modifies s
    ensures s.bytes == old(s.bytes) + EncodeString(value)
  {
    if value.None? {
      Varint.WriteVarint(s, 0);
      return;
    }
    var t := value.value;
    if |t| == 0 {
      Varint.WriteVarint(s, 1);
      return;
    }
    WriteText(s, t, Utf8.Encode(t));
  }

  /** The non-empty case of WritePrimitive(string), given the UTF-8 bytes e of t. */
  method WriteText(s: OutStream, t: string, e: seq<byte>)
    requires e == Utf8.Encode(t) && |e| <= MaxArrayLength
    modifies s
    ensures s.bytes == old(s.bytes) + Varint.Bytes(|e| + 1) + Varint.Bytes(Utf8.Length(t)) + e
  {
    Varint.WriteVarint(s, |e| + 1);
    Utf8.LengthAtMostBytes(t);
    Varint.WriteVarint(s, Utf8.Length(t));
    var buf := NewArray(e);
    s.Write(buf, 0, |e|);
  }

  /** WritePrimitive(byte[]). */
  method WriteByteArray(s: OutStream, value: Option<seq<byte>>)
    requires value.Some? ==> |value.value| <= MaxArrayLength
    modifies s
    ensures s.bytes == old(s.bytes) + EncodeByteArray(value)
  {
    if value.None? {
      Varint.WriteVarint(s, 0);
      return;
    }
    var a := value.value;
    Varint.WriteVarint(s, |a| + 1);
    var arr := NewArray(a);
    s.Write(arr, 0, |a|);
  }

  /** A fresh array holding the bytes of e (Encoding.GetBytes, or the caller's own byte[]). */
  method NewArray(e: seq<byte>) returns (a: array<byte>)
    ensures fresh(a) && a[0..a.Length] == e
  {
    a := new byte[|e|](i requires 0 <= i < |e| => e[i]);
    assert a[..] == e;
  }

  /** ReadPrimitive, for every one of the sixteen types. */
  method ReadPrimitive(s: InStream, k: Kind) returns (r: Result<Primitive>)
    requires s.Valid()
    modifies s
    ensures s.Valid()
    ensures Agrees(r, Decode(k, s.data, old(s.pos)), s.pos)
  {
    match k
    case BoolKind => r := ReadByteSized(s, k);
    case ByteKind => r := ReadByteSized(s, k);
    case SByteKind => r := ReadByteSized(s, k);
    case StringKind =>
      var v :- ReadString(s);
      r := Success(Str(v));
    case ByteArrayKind =>
      var v :- ReadByteArray(s);
      r := Success(ByteArray(v));
    case DecimalKind =>
      var v :- ReadDecimal(s);
      r := Success(Dec(v));
    case _ => r := ReadVarintSized(s, k);
  }

  /** ReadPrimitive(bool), ReadPrimitive(byte), ReadPrimitive(sbyte): one Stream.ReadByte,
      whose -1 at the end of the stream is not checked. */
  method ReadByteSized(s: InStream, k: Kind) returns (r: Result<Primitive>)
    requires s.Valid() && (k == BoolKind || k == ByteKind || k == SByteKind)
    modifies s
    ensures s.Valid()
    ensures Agrees(r, DecodeByteSized(k, s.data, old(s.pos)), s.pos)
  {
    var b := s.ReadByte();
    if k == BoolKind {
      r := Success(Bool(b != 0));
    } else if k == ByteKind {
      r := Success(Byte(b % 0x100));
    } else {
      r := Success(SByte(ToInt8(b)));
    }
  }

  /** ReadVarint32. */
  method ReadVarint32(s: InStream) returns (r: Result<uint32>)
    requires s.Valid()
    modifies s
    ensures s.Valid()
    ensures Agrees(r, Primitives.ReadVarint32(s.data, old(s.pos)), s.pos)
  {
    Pow2Words();
    Varint.DecodeBounds(s.data, s.pos, 32);
    var x :- Varint.ReadVarint(s, 32);
    r := Success(x);
  }

  /** ReadVarint64. */
  method ReadVarint64(s: InStream) returns (r: Result<uint64>)
    requires s.Valid()
    modifies s
    ensures s.Valid()
    ensures Agrees(r, Primitives.ReadVarint64(s.data, old(s.pos)), s.pos)
  {
    Pow2Words();
    Varint.DecodeBounds(s.data, s.pos, 64);
    var x :- Varint.ReadVarint(s, 64);
    r := Success(x);
  }

  /** The ReadPrimitive overloads built on one varint. */
  method ReadVarintSized(s: InStream, k: Kind) returns (r: Result<Primitive>)
    requires s.Valid()
    requires k !in {BoolKind, ByteKind, SByteKind, StringKind, ByteArrayKind, DecimalKind}
    modifies s
    ensures s.Valid()
    ensures Agrees(r, DecodeVarintSized(k, s.data, old(s.pos)), s.pos)
  {
    if k in {ULongKind, LongKind, DoubleKind, DateTimeKind} {
      var x :- ReadVarint64(s);
      r := Success(match k
        case ULongKind => ULong(x)
        case LongKind => Long(DecodeZigZag64(x))
        case DoubleKind => Double(x)
        case _ => DateTime(DecodeZigZag64(x)));
    } else {
      var x :- ReadVarint32(s);
      r := Success(match k
        case CharKind => Char(x % 0x1_0000)
        case UShortKind => UShort(x % 0x1_0000)
        case ShortKind => Short(ToInt16(DecodeZigZag32(x)))
        case UIntKind => UInt(x)
        case IntKind => Int(DecodeZigZag32(x))
        case _ => Float(x));
    }
  }

  /** The read loop of ReadPrimitive(string) and ReadPrimitive(byte[]): Stream.Read until
      buf is full, EndOfStreamException when a Read returns 0. */
  method ReadFully(s: InStream, buf: array<byte>) returns (r: Result<()>)
    requires s.Valid()
    modifies s, buf
    ensures s.Valid()
    ensures var d := Primitives.ReadFully(s.data, old(s.pos), buf.Length);
            (r.Success? <==> d.Success?) &&
            (d.Success? ==> buf[..] == d.value.0 && s.pos == d.value.1) &&
            (d.Failure? ==> r == Failure(EndOfStream))
  {
    ghost var p0 := s.pos;
    var len := buf.Length;
    var l := 0;
    while l < len
      invariant s.Valid() && 0 <= l <= len && s.pos == p0 + l
      invariant buf[..l] == s.data[p0..p0 + l]
      decreases len - l
    {
      var n := s.Read(buf, l, len - l);
      if n == 0 {
        return Failure(EndOfStream);
      }
      assert buf[..l + n] == buf[..l] + buf[l..l + n];
      assert s.data[p0..p0 + l + n] == s.data[p0..p0 + l] + s.data[p0 + l..p0 + l + n];
      l := l + n;
    }
    assert buf[..] == buf[..len];
    return Success(());
  }

  /** ReadPrimitive(string). */
  method ReadString(s: InStream) returns (r: Result<Option<string>>)
    requires s.Valid()
    modifies s
    ensures s.Valid()
    ensures Agrees(r, DecodeString(s.data, old(s.pos)), s.pos)
  {
    var len :- ReadVarint32(s);
    if len == 0 {
      return Success(None);
    }
    if len == 1 {
      return Success(Some([]));
    }
    var charCount :- ReadVarint32(s);
    if len - 1 > MaxArrayLength {
      return Failure(OutOfMemory);
    }
    var buf := new byte[len - 1];
    var filled :- ReadFully(s, buf);
    var t :- Utf8.Decode(buf[..]);
    return Success(Some(t));
  }

  /** ReadPrimitive(byte[]); the shared empty array of the source is an empty sequence. */
  method ReadByteArray(s: InStream) returns (r: Result<Option<seq<byte>>>)
    requires s.Valid()
    modifies s
    ensures s.Valid()
    ensures Agrees(r, DecodeByteArray(s.data, old(s.pos)), s.pos)
  {
    var len :- ReadVarint32(s);
    if len == 0 {
      return Success(None);
    }
    if len == 1 {
      return Success(Some([]));
    }
    if len - 1 > MaxArrayLength {
      return Failure(OutOfMemory);
    }
    var value := new byte[len - 1];
    var filled :- ReadFully(s, value);
    return Success(Some(value[..]));
  }

  /** ReadPrimitive(decimal). */
  method ReadDecimal(s: InStream) returns (r: Result<Decimal>)
    requires s.Valid()
    modifies s
    ensures s.Valid()
    ensures Agrees(r, DecodeDecimal(s.data, old(s.pos)), s.pos)
  {
    var lowmid :- ReadVarint64(s);
    var high :- ReadVarint32(s);
    var scaleSign :- ReadVarint32(s);
    r := DecimalFromWords(lowmid, high, scaleSign);
  }
}
