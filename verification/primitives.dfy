/** The wire format of the sixteen primitive types (Primitives.cs), as functions on bytes:
    `Encode` is what WritePrimitive appends to the stream, `Decode` what ReadPrimitive returns
    for the stream contents `data` read from position `pos`, with the position after it. */
module Primitives {
  import opened Bits
  import opened Wrappers
  import Varint
  import ZigZag
  import Utf8

  /** decimal.GetBits: the 96-bit integer in three words and the flags word. */
  datatype Decimal = Decimal(lo: uint32, mid: uint32, hi: uint32, flags: uint32)

  /** The check of `new decimal(int[])`: only the scale bits 16-23 and the sign bit 31 may be
      set, and the scale may not exceed 28. */
  predicate ValidFlags(flags: uint32)
  {
    flags % 0x1_0000 == 0 && flags / 0x1_0000 % 0x100 <= 28 && flags / 0x100_0000 % 0x80 == 0
  }

  /** The types PrimitivesSerializer lists, in its order. */
  datatype Kind =
    | BoolKind | ByteKind | SByteKind | CharKind | UShortKind | ShortKind | UIntKind | IntKind
    | ULongKind | LongKind | FloatKind | DoubleKind | StringKind | DateTimeKind | ByteArrayKind
    | DecimalKind

  /** A value of one of the primitive types. A char is a UTF-16 code unit; float and double are
      their IEEE bit patterns and DateTime the int64 of DateTime.ToBinary; a null string or
      byte array is None. */
  datatype Primitive =
    | Bool(b: bool)
    | Byte(u8: byte)
    | SByte(i8: int8)
    | Char(ch: uint16)
    | UShort(u16: uint16)
    | Short(i16: int16)
    | UInt(u32: uint32)
    | Int(i32: int32)
    | ULong(u64: uint64)
    | Long(i64: int64)
    | Float(fbits: uint32)
    | Double(dbits: uint64)
    | Str(s: Option<string>)
    | DateTime(binary: int64)
    | ByteArray(a: Option<seq<byte>>)
    | Dec(d: Decimal)

  function KindOf(p: Primitive): Kind
  {
    match p
    case Bool(_) => BoolKind
    case Byte(_) => ByteKind
    case SByte(_) => SByteKind
    case Char(_) => CharKind
    case UShort(_) => UShortKind
    case Short(_) => ShortKind
    case UInt(_) => UIntKind
    case Int(_) => IntKind
    case ULong(_) => ULongKind
    case Long(_) => LongKind
    case Float(_) => FloatKind
    case Double(_) => DoubleKind
    case Str(_) => StringKind
    case DateTime(_) => DateTimeKind
    case ByteArray(_) => ByteArrayKind
    case Dec(_) => DecimalKind
  }

  /** The values a .NET program can hand to WritePrimitive: a decimal's flags are always
      valid, and a byte[], like the byte[] UTF8Encoding.GetBytes makes for a string, has at
      most Array.MaxLength elements. */
  predicate WellFormed(p: Primitive)
  {
    match p
    case Str(Some(s)) => |Utf8.Encode(s)| <= MaxArrayLength
    case ByteArray(Some(a)) => |a| <= MaxArrayLength
    case Dec(d) => ValidFlags(d.flags)
    case _ => true
  }

  /** `(sbyte)` and `(short)` casts: the low 8 or 16 bits read as two's complement. */
  function ToInt8(n: int): (r: int8)
    ensures -0x80 <= n < 0x80 ==> r == n
  {
    var m := n % 0x100;
    if m >= 0x80 then m - 0x100 else m
  }

  function ToInt16(n: int): (r: int16)
    ensures -0x8000 <= n < 0x8000 ==> r == n
  {
    var m := n % 0x1_0000;
    if m >= 0x8000 then m - 0x1_0000 else m
  }

  /** The three varints of WritePrimitive(decimal): the low and middle words as one uint64,
      the high word, and the scale-and-sign word. */
  function DecimalWords(d: Decimal): (uint64, uint32, uint32)
  {
    (LowMid(d.lo, d.mid), d.hi, ScaleSign(d.flags))
  }

  /** `lo | (mid << 32)` on uint64. */
  function LowMid(lo: uint32, mid: uint32): uint64
  {
    Pow2Words();
    OrBelow(lo, mid * TWO32, 64);
    Or(lo, mid * TWO32)
  }

  /** `((flags >> 15) & 0x01fe) | (flags >> 31)`: the scale doubled, the sign in bit 0. */
  function ScaleSign(flags: uint32): uint32
  {
    // (flags >> 15) & 0x01fe keeps bits 1..8 of flags >> 15
    var scale := flags / 0x8000 % 0x200 / 2 * 2;
    var sign := flags / 0x8000_0000;
    assert Pow2(9) == 0x200 && TWO32 == Pow2(32) by {
      Pow2Byte();
      Pow2Words();
      Pow2Monotone(9, 32);
    }
    OrBelow(scale, sign, 9);
    Or(scale, sign)
  }

  /** The flags word ReadPrimitive(decimal) rebuilds: `(scaleSign & ~1) << 15` and
      `(scaleSign & 1) << 31`, both truncated to 32 bits, or-ed together. */
  function FlagsWord(scaleSign: uint32): uint32
  {
    var scale := (scaleSign - scaleSign % 2) * 0x8000 % TWO32;
    var sign := scaleSign % 2 * 0x8000_0000;
    Pow2Words();
    OrBelow(scale, sign, 32);
    Or(scale, sign)
  }

  /** ReadPrimitive(decimal): the four words `new decimal(int[])` is given, which throws
      ArgumentException on a flags word it does not accept. */
  function DecimalFromWords(lowmid: uint64, high: uint32, scaleSign: uint32): (r: Result<Decimal>)
    ensures r.Success? ==> ValidFlags(r.value.flags)
    ensures r.Failure? ==> r.error == Argument
  {
    var flags := FlagsWord(scaleSign);
    if ValidFlags(flags) then
      Success(Decimal(lowmid % TWO32, lowmid / TWO32, high, flags))
    else
      Failure(Argument)
  }

  /** The bytes WritePrimitive appends for p. */
  function Encode(p: Primitive): (r: seq<byte>)
    requires WellFormed(p)
  {
    match p
    case Bool(b) => [if b then 1 else 0]
    case Byte(x) => [x]
    case SByte(x) => [x % 0x100]
    case Str(s) => EncodeString(s)
    case ByteArray(a) => EncodeByteArray(a)
    case Dec(d) => EncodeDecimal(d)
    case _ => Varint.Bytes(Word(p))
  }

  /** The kinds written as one varint. */
  predicate IsVarint(p: Primitive)
  {
    !(p.Bool? || p.Byte? || p.SByte? || p.Str? || p.ByteArray? || p.Dec?)
  }

  /** The word a varint kind puts on the wire: its bits, zigzag-coded for the signed kinds. */
  function Word(p: Primitive): nat
    requires IsVarint(p)
  {
    match p
    case Char(x) => x
    case UShort(x) => x
    case Short(x) => EncodeZigZag32(x)
    case UInt(x) => x
    case Int(x) => EncodeZigZag32(x)
    case ULong(x) => x
    case Long(x) => EncodeZigZag64(x)
    case Float(x) => x
    case Double(x) => x
    case DateTime(x) => EncodeZigZag64(x)
  }

  /** A decimal: low and middle words as one 64-bit varint, then the high word, then scale
      and sign. */
  function EncodeDecimal(d: Decimal): seq<byte>
  {
    Varint.Bytes(LowMid(d.lo, d.mid)) + Varint.Bytes(d.hi) + Varint.Bytes(ScaleSign(d.flags))
  }

  function EncodeZigZag32(n: int32): uint32
  {
    Pow2Words();
    ZigZag.Encode(n, 32)
  }

  function EncodeZigZag64(n: int64): uint64
  {
    Pow2Words();
    ZigZag.Encode(n, 64)
  }

  /** WritePrimitive(string): varint 0 for null, 1 for "", otherwise the UTF-8 byte count
      plus one, the UTF-16 length, and the UTF-8 bytes. */
  function EncodeString(s: Option<string>): seq<byte>
  {
    match s
    case None => Varint.Bytes(0)
    case Some(t) =>
      if t == [] then Varint.Bytes(1)
      else Varint.Bytes(|Utf8.Encode(t)| + 1) + Varint.Bytes(Utf8.Length(t)) + Utf8.Encode(t)
  }

  /** WritePrimitive(byte[]): varint 0 for null, otherwise the length plus one and the bytes. */
  function EncodeByteArray(a: Option<seq<byte>>): seq<byte>
  {
    match a
    case None => Varint.Bytes(0)
    case Some(b) => Varint.Bytes(|b| + 1) + b
  }

  /** Stream.ReadByte on the stream contents: the byte at pos, or -1 at the end. */
  function ReadByteAt(data: seq<byte>, pos: nat): (r: (int, nat))
    requires pos <= |data|
    ensures -1 <= r.0 < 0x100 && r.1 <= |data|
  {
    if pos < |data| then (data[pos] as int, pos + 1) else (-1, pos)
  }

  /** The read loop of the string and byte[] readers: n bytes, or EndOfStream when the
      stream ends first. */
  function ReadFully(data: seq<byte>, pos: nat, n: nat): (r: Result<(seq<byte>, nat)>)
    requires pos <= |data|
    ensures r.Success? ==> r.value.1 == pos + n <= |data| && r.value.0 == data[pos..pos + n]
    ensures r.Failure? ==> r.error == EndOfStream && |data| < pos + n
  {
    if pos + n <= |data| then Success((data[pos..pos + n], pos + n)) else Failure(EndOfStream)
  }

  /** ReadVarint32, its result typed as a uint32. */
  function ReadVarint32(data: seq<byte>, pos: nat): (r: Result<(uint32, nat)>)
    requires pos <= |data|
    ensures r.Success? ==> pos < r.value.1 <= |data|
  {
    Pow2Words();
    Varint.DecodeBounds(data, pos, 32);
    var (x, p) :- Varint.Decode(data, pos, 32);
    Success((x, p))
  }

  /** ReadVarint64, its result typed as a uint64. */
  function ReadVarint64(data: seq<byte>, pos: nat): (r: Result<(uint64, nat)>)
    requires pos <= |data|
    ensures r.Success? ==> pos < r.value.1 <= |data|
  {
    Pow2Words();
    Varint.DecodeBounds(data, pos, 64);
    var (x, p) :- Varint.Decode(data, pos, 64);
    Success((x, p))
  }

  function DecodeZigZag32(x: uint32): int32
  {
    Pow2Words();
    ZigZag.Decode(x, 32)
  }

  function DecodeZigZag64(x: uint64): int64
  {
    Pow2Words();
    ZigZag.Decode(x, 64)
  }

  /** What ReadPrimitive for kind k returns, and where it leaves the stream. */
  function Decode(k: Kind, data: seq<byte>, pos: nat): (r: Result<(Primitive, nat)>)
    requires pos <= |data|
    ensures r.Success? ==> pos <= r.value.1 <= |data| && KindOf(r.value.0) == k
  {
    match k
    case BoolKind | ByteKind | SByteKind => DecodeByteSized(k, data, pos)
    case StringKind =>
      var (s, p) :- DecodeString(data, pos);
      Success((Str(s), p))
    case ByteArrayKind =>
      var (a, p) :- DecodeByteArray(data, pos);
      Success((ByteArray(a), p))
    case DecimalKind =>
      var (d, p) :- DecodeDecimal(data, pos);
      Success((Dec(d), p))
    case _ => DecodeVarintSized(k, data, pos)
  }

  /** The readers built on Stream.ReadByte. */
  function DecodeByteSized(k: Kind, data: seq<byte>, pos: nat): (r: Result<(Primitive, nat)>)
    requires pos <= |data| && (k == BoolKind || k == ByteKind || k == SByteKind)
    ensures r.Success? && pos <= r.value.1 <= |data| && KindOf(r.value.0) == k
  {
    var (b, p) := ReadByteAt(data, pos);
    if k == BoolKind then Success((Bool(b != 0), p))
    else if k == ByteKind then Success((Byte(b % 0x100), p))
    else Success((SByte(ToInt8(b)), p))
  }

  /** The readers built on a single varint. */
  function DecodeVarintSized(k: Kind, data: seq<byte>, pos: nat): (r: Result<(Primitive, nat)>)
    requires pos <= |data|
    requires k !in {BoolKind, ByteKind, SByteKind, StringKind, ByteArrayKind, DecimalKind}
    ensures r.Success? ==> pos < r.value.1 <= |data| && KindOf(r.value.0) == k
  {
    match k
    case CharKind =>
      var (x, p) :- ReadVarint32(data, pos);
      Success((Char(x % 0x1_0000), p))
    case UShortKind =>
      var (x, p) :- ReadVarint32(data, pos);
      Success((UShort(x % 0x1_0000), p))
    case ShortKind =>
      var (x, p) :- ReadVarint32(data, pos);
      Success((Short(ToInt16(DecodeZigZag32(x))), p))
    case UIntKind =>
      var (x, p) :- ReadVarint32(data, pos);
      Success((UInt(x), p))
    case IntKind =>
      var (x, p) :- ReadVarint32(data, pos);
      Success((Int(DecodeZigZag32(x)), p))
    case FloatKind =>
      var (x, p) :- ReadVarint32(data, pos);
      Success((Float(x), p))
    case ULongKind =>
      var (x, p) :- ReadVarint64(data, pos);
      Success((ULong(x), p))
    case LongKind =>
      var (x, p) :- ReadVarint64(data, pos);
      Success((Long(DecodeZigZag64(x)), p))
    case DoubleKind =>
      var (x, p) :- ReadVarint64(data, pos);
      Success((Double(x), p))
    case DateTimeKind =>
      var (x, p) :- ReadVarint64(data, pos);
      Success((DateTime(DecodeZigZag64(x)), p))
  }

  /** ReadPrimitive(decimal): three varints, then the decimal constructor's check. */
  function DecodeDecimal(data: seq<byte>, pos: nat): (r: Result<(Decimal, nat)>)
    requires pos <= |data|
    ensures r.Success? ==> pos < r.value.1 <= |data| && ValidFlags(r.value.0.flags)
  {
    var (lowmid, p1) :- ReadVarint64(data, pos);
    var (high, p2) :- ReadVarint32(data, p1);
    var (scaleSign, p3) :- ReadVarint32(data, p2);
    var d :- DecimalFromWords(lowmid, high, scaleSign);
    Success((d, p3))
  }

  /** ReadPrimitive(string): 0 is null, 1 is "", otherwise the UTF-16 length is read and
      ignored, a buffer of length-minus-one bytes is allocated (OutOfMemoryException above
      Array.MaxLength), and those UTF-8 bytes are read and decoded. */
  function DecodeString(data: seq<byte>, pos: nat): (r: Result<(Option<string>, nat)>)
    requires pos <= |data|
    ensures r.Success? ==> pos <= r.value.1 <= |data|
  {
    var (len, p1) :- ReadVarint32(data, pos);
    if len == 0 then Success((None, p1))
    else if len == 1 then Success((Some([]), p1))
    else
      var (_, p2) :- ReadVarint32(data, p1);
      if len - 1 > MaxArrayLength then Failure(OutOfMemory) else
      var (bytes, p3) :- ReadFully(data, p2, len - 1);
      var s :- Utf8.Decode(bytes);
      Success((Some(s), p3))
  }

  /** ReadPrimitive(byte[]): 0 is null, 1 the empty array, otherwise an array of
      length-minus-one bytes (OutOfMemoryException above Array.MaxLength), then filled. */
  function DecodeByteArray(data: seq<byte>, pos: nat): (r: Result<(Option<seq<byte>>, nat)>)
    requires pos <= |data|
    ensures r.Success? ==> pos <= r.value.1 <= |data|
  {
    var (len, p1) :- ReadVarint32(data, pos);
    if len == 0 then Success((None, p1))
    else if len == 1 then Success((Some([]), p1))
    else if len - 1 > MaxArrayLength then Failure(OutOfMemory)
    else
      var (bytes, p2) :- ReadFully(data, p1, len - 1);
      Success((Some(bytes), p2))
  }

  /** A length prefix whose value minus one exceeds Array.MaxLength makes the buffer
      allocation throw, whatever the stream holds after it. */
  lemma OversizedPrefixFails(data: seq<byte>, pos: nat, len: uint32, p1: nat)
    requires pos <= |data| && ReadVarint32(data, pos) == Success((len, p1)) && len - 1 > MaxArrayLength
    ensures DecodeByteArray(data, pos) == Failure(OutOfMemory)
    ensures ReadVarint32(data, p1).Success? ==> DecodeString(data, pos) == Failure(OutOfMemory)
  {
  }

  /** What the string and byte[] readers return is something the writers accept. */
  lemma DecodedWellFormed(data: seq<byte>, pos: nat)
    requires pos <= |data|
    ensures DecodeByteArray(data, pos).Success? ==> WellFormed(ByteArray(DecodeByteArray(data, pos).value.0))
    ensures DecodeString(data, pos).Success? ==> WellFormed(Str(DecodeString(data, pos).value.0))
  {
    var r := DecodeString(data, pos);
    if r.Success? && r.value.0.Some? && r.value.0.value != [] {
      var (len, p1) := ReadVarint32(data, pos).value;
      var p2 := ReadVarint32(data, p1).value.1;
      var bytes := ReadFully(data, p2, len - 1).value.0;
      Utf8.EncodeDecode(bytes);
    }
  }

  /** A valid flags word is a sign bit and a scale of at most 28 in bits 16-23. */
  lemma FlagsShape(f: uint32)
    requires ValidFlags(f)
    ensures f / 0x8000_0000 <= 1
    ensures f == f / 0x8000_0000 * 0x8000_0000 + f / 0x1_0000 % 0x100 * 0x1_0000
  {
    var q := f / 0x1_0000;
    var scale := q % 0x100;
    var t := q / 0x100;
    DivModUnique(f, 0x1_0000, q, 0);
    assert t == f / 0x100_0000 by {
      DivModUnique(f, 0x100_0000, t, scale * 0x1_0000);
    }
    assert t == 0 || t == 0x80;
    DivModUnique(f, 0x8000_0000, t / 0x80, scale * 0x1_0000);
  }

  lemma LowMidValue(lo: uint32, mid: uint32)
    ensures LowMid(lo, mid) == mid * TWO32 + lo
  {
    Pow2Words();
    OrComm(lo, mid * TWO32);
    OrDisjoint(mid, lo, 32);
  }

  lemma ScaleSignValue(f: uint32)
    requires ValidFlags(f)
    ensures ScaleSign(f) == 2 * (f / 0x1_0000 % 0x100) + f / 0x8000_0000
  {
    var sgn := f / 0x8000_0000;
    var scale := f / 0x1_0000 % 0x100;
    FlagsShape(f);
    assert f / 0x8000 % 0x200 / 2 * 2 == 2 * scale by {
      DivModUnique(f, 0x8000, sgn * 0x1_0000 + 2 * scale, 0);
      DivModUnique(f / 0x8000, 0x200, sgn * 0x80, 2 * scale);
    }
    assert Pow2(1) == 2;
    OrDisjoint(scale, sgn, 1);
  }

  lemma FlagsWordValue(scale: nat, sgn: nat)
    requires scale <= 28 && sgn <= 1
    ensures FlagsWord(2 * scale + sgn) == sgn * 0x8000_0000 + scale * 0x1_0000
  {
    ScaleBits(scale, sgn);
    SignBit(scale, sgn);
    FlagsOr(scale, sgn);
  }

  /** `(scaleSign & ~1) << 15`, truncated to 32 bits, is the scale in bits 16 to 23. */
  lemma ScaleBits(scale: nat, sgn: nat)
    requires scale <= 28 && sgn <= 1
    ensures (2 * scale + sgn - (2 * scale + sgn) % 2) * 0x8000 % TWO32 == scale * 0x1_0000
  {
    DivModUnique(2 * scale + sgn, 2, scale, sgn);
    DivModUnique(2 * scale * 0x8000, TWO32, 0, scale * 0x1_0000);
  }

  /** `(scaleSign & 1) << 31` is the sign in bit 31. */
  lemma SignBit(scale: nat, sgn: nat)
    requires sgn <= 1
    ensures (2 * scale + sgn) % 2 * 0x8000_0000 == sgn * 0x8000_0000
  {
    DivModUnique(2 * scale + sgn, 2, scale, sgn);
  }

  /** The two parts do not overlap, so or-ing them adds them. */
  lemma FlagsOr(scale: nat, sgn: nat)
    requires scale <= 28 && sgn <= 1
    ensures Or(scale * 0x1_0000, sgn * 0x8000_0000) == sgn * 0x8000_0000 + scale * 0x1_0000
  {
    Pow2Words();
    OrComm(scale * 0x1_0000, sgn * 0x8000_0000);
    OrDisjoint(sgn, scale * 0x1_0000, 31);
  }

  lemma ValidFlagsOf(scale: nat, sgn: nat)
    requires scale <= 28 && sgn <= 1
    ensures ValidFlags(sgn * 0x8000_0000 + scale * 0x1_0000)
  {
    var f := sgn * 0x8000_0000 + scale * 0x1_0000;
    DivModUnique(f, 0x1_0000, sgn * 0x8000 + scale, 0);
    DivModUnique(sgn * 0x8000 + scale, 0x100, sgn * 0x80, scale);
    DivModUnique(f, 0x100_0000, sgn * 0x80, scale * 0x1_0000);
  }

  /** The three words the writer emits for a decimal are read back as that decimal. */
  lemma DecimalWordsRoundTrip(d: Decimal)
    requires ValidFlags(d.flags)
    ensures DecimalFromWords(LowMid(d.lo, d.mid), d.hi, ScaleSign(d.flags)) == Success(d)
  {
    var scale := d.flags / 0x1_0000 % 0x100;
    var sgn := d.flags / 0x8000_0000;
    FlagsShape(d.flags);
    LowMidValue(d.lo, d.mid);
    ScaleSignValue(d.flags);
    FlagsWordValue(scale, sgn);
    ValidFlagsOf(scale, sgn);
    DivModUnique(d.mid * TWO32 + d.lo, TWO32, d.mid, d.lo);
  }

  /** The parts of a + b + c laid out at data[p0..p3]. */
  lemma Layout3(data: seq<byte>, p0: nat, p1: nat, p2: nat, p3: nat, a: seq<byte>, b: seq<byte>, c: seq<byte>)
    requires p1 == p0 + |a| && p2 == p1 + |b| && p3 == p2 + |c| && p3 <= |data|
    requires data[p0..p3] == a + b + c
    ensures data[p0..p1] == a && data[p1..p2] == b && data[p2..p3] == c
  {
    var w := data[p0..p3];
    assert data[p0..p1] == w[..|a|];
    var u := data[p1..p3];
    assert u == w[|a|..] == b + c;
    assert data[p1..p2] == u[..|b|];
    assert data[p2..p3] == u[|b|..];
  }

  /** The parts of a + b laid out at data[p0..p2]. */
  lemma Layout2(data: seq<byte>, p0: nat, p1: nat, p2: nat, a: seq<byte>, b: seq<byte>)
    requires p1 == p0 + |a| && p2 == p1 + |b| && p2 <= |data|
    requires data[p0..p2] == a + b
    ensures data[p0..p1] == a && data[p1..p2] == b
  {
    assert data[p0..p1] == data[p0..p2][..|a|];
    assert data[p1..p2] == data[p0..p2][|a|..];
  }

  /** A uint32 written as a varint at data[p..q] is read back, up to q. */
  lemma Varint32At(data: seq<byte>, p: nat, q: nat, v: uint32)
    requires q == p + |Varint.Bytes(v)| <= |data| && data[p..q] == Varint.Bytes(v)
    ensures ReadVarint32(data, p) == Success((v, q))
  {
    Pow2Words();
    Varint.DecodeBytes(data, p, q, 32, v);
  }

  /** A uint64 written as a varint at data[p..q] is read back, up to q. */
  lemma Varint64At(data: seq<byte>, p: nat, q: nat, v: uint64)
    requires q == p + |Varint.Bytes(v)| <= |data| && data[p..q] == Varint.Bytes(v)
    ensures ReadVarint64(data, p) == Success((v, q))
  {
    Pow2Words();
    Varint.DecodeBytes(data, p, q, 64, v);
  }

  lemma ZigZag32RoundTrip(n: int32)
    ensures DecodeZigZag32(EncodeZigZag32(n)) == n
  {
    Pow2Words();
    ZigZag.DecodeEncode(n, 32);
  }

  lemma ZigZag64RoundTrip(n: int64)
    ensures DecodeZigZag64(EncodeZigZag64(n)) == n
  {
    Pow2Words();
    ZigZag.DecodeEncode(n, 64);
  }

  /** Encoded at data[pos..q], every well-formed primitive is read back by the reader of its
      kind, which stops at q, right after its encoding. */
  lemma DecodeEncode(p: Primitive, data: seq<byte>, pos: nat, q: nat)
    requires WellFormed(p)
    requires q == pos + |Encode(p)| <= |data| && data[pos..q] == Encode(p)
    ensures Decode(KindOf(p), data, pos) == Success((p, q))
  {
    if p.Str? || p.ByteArray? || p.Dec? {
      DecodeEncodeVariable(p, data, pos, q);
    } else {
      DecodeEncodeFixed(p, data, pos, q);
    }
  }

  lemma DecodeEncodeFixed(p: Primitive, data: seq<byte>, pos: nat, q: nat)
    requires !(p.Str? || p.ByteArray? || p.Dec?)
    requires q == pos + |Encode(p)| <= |data| && data[pos..q] == Encode(p)
    ensures Decode(KindOf(p), data, pos) == Success((p, q))
  {
    if p.Bool? || p.Byte? || p.SByte? {
      assert data[pos] == data[pos..q][0];
    } else {
      DecodeEncodeVarint(p, data, pos, q);
    }
  }

  lemma DecodeEncodeVarint(p: Primitive, data: seq<byte>, pos: nat, q: nat)
    requires !(p.Str? || p.ByteArray? || p.Dec? || p.Bool? || p.Byte? || p.SByte?)
    requires q == pos + |Encode(p)| <= |data| && data[pos..q] == Encode(p)
    ensures Decode(KindOf(p), data, pos) == Success((p, q))
  {
    match p
    case Char(_) => CharRoundTrip(p, data, pos, q);
    case UShort(_) => UShortRoundTrip(p, data, pos, q);
    case UInt(_) => UIntRoundTrip(p, data, pos, q);
    case Float(_) => FloatRoundTrip(p, data, pos, q);
    case Short(_) => ShortRoundTrip(p, data, pos, q);
    case Int(_) => IntRoundTrip(p, data, pos, q);
    case ULong(_) => ULongRoundTrip(p, data, pos, q);
    case Double(_) => DoubleRoundTrip(p, data, pos, q);
    case Long(_) => LongRoundTrip(p, data, pos, q);
    case DateTime(_) => DateTimeRoundTrip(p, data, pos, q);
  }

  lemma CharRoundTrip(p: Primitive, data: seq<byte>, pos: nat, q: nat)
    requires p.Char?
    requires q == pos + |Encode(p)| <= |data| && data[pos..q] == Encode(p)
    ensures Decode(KindOf(p), data, pos) == Success((p, q))
  {
    Varint32At(data, pos, q, p.ch);
  }

  lemma UShortRoundTrip(p: Primitive, data: seq<byte>, pos: nat, q: nat)
    requires p.UShort?
    requires q == pos + |Encode(p)| <= |data| && data[pos..q] == Encode(p)
    ensures Decode(KindOf(p), data, pos) == Success((p, q))
  {
    Varint32At(data, pos, q, p.u16);
  }

  lemma UIntRoundTrip(p: Primitive, data: seq<byte>, pos: nat, q: nat)
    requires p.UInt?
    requires q == pos + |Encode(p)| <= |data| && data[pos..q] == Encode(p)
    ensures Decode(KindOf(p), data, pos) == Success((p, q))
  {
    Varint32At(data, pos, q, p.u32);
  }

  lemma FloatRoundTrip(p: Primitive, data: seq<byte>, pos: nat, q: nat)
    requires p.Float?
    requires q == pos + |Encode(p)| <= |data| && data[pos..q] == Encode(p)
    ensures Decode(KindOf(p), data, pos) == Success((p, q))
  {
    Varint32At(data, pos, q, p.fbits);
  }

  lemma ShortRoundTrip(p: Primitive, data: seq<byte>, pos: nat, q: nat)
    requires p.Short?
    requires q == pos + |Encode(p)| <= |data| && data[pos..q] == Encode(p)
    ensures Decode(KindOf(p), data, pos) == Success((p, q))
  {
    ZigZag32At(data, pos, q, p.i16);
  }

  lemma IntRoundTrip(p: Primitive, data: seq<byte>, pos: nat, q: nat)
    requires p.Int?
    requires q == pos + |Encode(p)| <= |data| && data[pos..q] == Encode(p)
    ensures Decode(KindOf(p), data, pos) == Success((p, q))
  {
    ZigZag32At(data, pos, q, p.i32);
  }

  lemma ULongRoundTrip(p: Primitive, data: seq<byte>, pos: nat, q: nat)
    requires p.ULong?
    requires q == pos + |Encode(p)| <= |data| && data[pos..q] == Encode(p)
    ensures Decode(KindOf(p), data, pos) == Success((p, q))
  {
    Varint64At(data, pos, q, p.u64);
  }

  lemma DoubleRoundTrip(p: Primitive, data: seq<byte>, pos: nat, q: nat)
    requires p.Double?
    requires q == pos + |Encode(p)| <= |data| && data[pos..q] == Encode(p)
    ensures Decode(KindOf(p), data, pos) == Success((p, q))
  {
    Varint64At(data, pos, q, p.dbits);
  }

  lemma LongRoundTrip(p: Primitive, data: seq<byte>, pos: nat, q: nat)
    requires p.Long?
    requires q == pos + |Encode(p)| <= |data| && data[pos..q] == Encode(p)
    ensures Decode(KindOf(p), data, pos) == Success((p, q))
  {
    ZigZag64At(data, pos, q, p.i64);
  }

  lemma DateTimeRoundTrip(p: Primitive, data: seq<byte>, pos: nat, q: nat)
    requires p.DateTime?
    requires q == pos + |Encode(p)| <= |data| && data[pos..q] == Encode(p)
    ensures Decode(KindOf(p), data, pos) == Success((p, q))
  {
    ZigZag64At(data, pos, q, p.binary);
  }

  lemma ZigZag32At(data: seq<byte>, p: nat, q: nat, n: int32)
    requires q == p + |Varint.Bytes(EncodeZigZag32(n))| <= |data|
    requires data[p..q] == Varint.Bytes(EncodeZigZag32(n))
    ensures ReadVarint32(data, p) == Success((EncodeZigZag32(n), q))
    ensures DecodeZigZag32(EncodeZigZag32(n)) == n
  {
    Varint32At(data, p, q, EncodeZigZag32(n));
    ZigZag32RoundTrip(n);
  }

  lemma ZigZag64At(data: seq<byte>, p: nat, q: nat, n: int64)
    requires q == p + |Varint.Bytes(EncodeZigZag64(n))| <= |data|
    requires data[p..q] == Varint.Bytes(EncodeZigZag64(n))
    ensures ReadVarint64(data, p) == Success((EncodeZigZag64(n), q))
    ensures DecodeZigZag64(EncodeZigZag64(n)) == n
  {
    Varint64At(data, p, q, EncodeZigZag64(n));
    ZigZag64RoundTrip(n);
  }

  lemma DecodeEncodeVariable(p: Primitive, data: seq<byte>, pos: nat, q: nat)
    requires WellFormed(p) && (p.Str? || p.ByteArray? || p.Dec?)
    requires q == pos + |Encode(p)| <= |data| && data[pos..q] == Encode(p)
    ensures Decode(KindOf(p), data, pos) == Success((p, q))
  {
    match p
    case Str(_) => StrKindRoundTrip(p, data, pos, q);
    case ByteArray(_) => ByteArrayKindRoundTrip(p, data, pos, q);
    case Dec(_) => DecKindRoundTrip(p, data, pos, q);
  }

  lemma StrKindRoundTrip(p: Primitive, data: seq<byte>, pos: nat, q: nat)
    requires WellFormed(p) && p.Str?
    requires q == pos + |Encode(p)| <= |data| && data[pos..q] == Encode(p)
    ensures Decode(KindOf(p), data, pos) == Success((p, q))
  {
    StringRoundTrip(p.s, data, pos, q);
  }

  lemma ByteArrayKindRoundTrip(p: Primitive, data: seq<byte>, pos: nat, q: nat)
    requires WellFormed(p) && p.ByteArray?
    requires q == pos + |Encode(p)| <= |data| && data[pos..q] == Encode(p)
    ensures Decode(KindOf(p), data, pos) == Success((p, q))
  {
    ByteArrayRoundTrip(p.a, data, pos, q);
  }

  lemma DecKindRoundTrip(p: Primitive, data: seq<byte>, pos: nat, q: nat)
    requires WellFormed(p) && p.Dec?
    requires q == pos + |Encode(p)| <= |data| && data[pos..q] == Encode(p)
    ensures Decode(KindOf(p), data, pos) == Success((p, q))
  {
    DecimalRoundTrip(p.d, data, pos, q);
  }

  lemma StringRoundTrip(s: Option<string>, data: seq<byte>, pos: nat, q: nat)
    requires WellFormed(Str(s))
    requires q == pos + |EncodeString(s)| <= |data| && data[pos..q] == EncodeString(s)
    ensures DecodeString(data, pos) == Success((s, q))
  {
    match s
    case None => Varint32At(data, pos, q, 0);
    case Some(t) =>
      if t == [] {
        Varint32At(data, pos, q, 1);
      } else {
        var e := Utf8.Encode(t);
        var a := Varint.Bytes(|e| + 1);
        var b := Varint.Bytes(Utf8.Length(t));
        var p1 := pos + |a|;
        var p2 := p1 + |b|;
        Layout3(data, pos, p1, p2, q, a, b, e);
        Varint32At(data, pos, p1, |e| + 1);
        Utf8.LengthAtMostBytes(t);
        Varint32At(data, p1, p2, Utf8.Length(t));
        Utf8.DecodeEncode(t);
        DecodeStringOf(data, pos, |e| + 1, p1, p2, q, t);
      }
  }

  /** DecodeString, given the outcome of each of its steps. */
  lemma DecodeStringOf(data: seq<byte>, pos: nat, len: nat, p1: nat, p2: nat, p3: nat, s: string)
    requires pos <= |data| && 2 <= len <= MaxArrayLength + 1
    requires ReadVarint32(data, pos) == Success((len, p1))
    requires ReadVarint32(data, p1).Success? && ReadVarint32(data, p1).value.1 == p2
    requires p3 == p2 + len - 1 <= |data|
    requires Utf8.Decode(data[p2..p3]) == Success(s)
    ensures DecodeString(data, pos) == Success((Some(s), p3))
  {
  }

  lemma ByteArrayRoundTrip(a: Option<seq<byte>>, data: seq<byte>, pos: nat, q: nat)
    requires WellFormed(ByteArray(a))
    requires q == pos + |EncodeByteArray(a)| <= |data| && data[pos..q] == EncodeByteArray(a)
    ensures DecodeByteArray(data, pos) == Success((a, q))
  {
    match a
    case None => Varint32At(data, pos, q, 0);
    case Some(b) =>
      var h := Varint.Bytes(|b| + 1);
      var p1 := pos + |h|;
      Layout2(data, pos, p1, q, h, b);
      Varint32At(data, pos, p1, |b| + 1);
  }

  lemma DecimalRoundTrip(d: Decimal, data: seq<byte>, pos: nat, q: nat)
    requires ValidFlags(d.flags)
    requires q == pos + |EncodeDecimal(d)| <= |data| && data[pos..q] == EncodeDecimal(d)
    ensures DecodeDecimal(data, pos) == Success((d, q))
  {
    var x, y, z := LowMid(d.lo, d.mid), d.hi, ScaleSign(d.flags);
    var a, b, c := Varint.Bytes(x), Varint.Bytes(y), Varint.Bytes(z);
    var p1 := pos + |a|;
    var p2 := p1 + |b|;
    Layout3(data, pos, p1, p2, q, a, b, c);
    Varint64At(data, pos, p1, x);
    Varint32At(data, p1, p2, y);
    Varint32At(data, p2, q, z);
    DecimalWordsRoundTrip(d);
    DecodeDecimalOf(data, pos, p1, p2, q, x, y, z, d);
  }

  /** DecodeDecimal, given the outcome of each of its steps. */
  lemma DecodeDecimalOf(data: seq<byte>, pos: nat, p1: nat, p2: nat, p3: nat,
                        lowmid: uint64, high: uint32, scaleSign: uint32, d: Decimal)
    requires pos <= |data|
    requires ReadVarint64(data, pos) == Success((lowmid, p1))
    requires ReadVarint32(data, p1) == Success((high, p2))
    requires ReadVarint32(data, p2) == Success((scaleSign, p3))
    requires DecimalFromWords(lowmid, high, scaleSign) == Success(d)
    ensures DecodeDecimal(data, pos) == Success((d, p3))
  {
  }
}
