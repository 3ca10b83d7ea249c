/** The type serializers ("handlers") and the routines they name. A handler decides which
    types it takes (Handles), which further types a type needs (GetSubtypes), and supplies
    either a static routine (IStaticTypeSerializer) or a generated one (IDynamicTypeSerializer). */
module Handlers {
  import opened Wrappers
  import opened Types
  import opened Helpers
  import P = Primitives

  /** Serializing (writer) or deserializing (reader) side of a routine, slot or delegate. */
  datatype Direction = Writer | Reader

  /** The MethodInfo a descriptor records as its writer or reader. */
  datatype MethodInfo =
    | PrimitiveMethod(dir: Direction, kind: P.Kind)        // Primitives.WritePrimitive(Stream, T) / ReadPrimitive(Stream, out T)
    | NoOpMethod(dir: Direction)                           // NoOpSerializer.Serialize / Deserialize
    | ForeignMethod(dir: Direction, owner: string, forType: TypeName, paramCount: nat)
    | DynamicStub(dir: Direction, forType: TypeName)       // a DynamicMethod(Serializer, Stream, T) stub

  /** MethodInfo.GetParameters().Length. */
  function ParamCount(m: MethodInfo): nat
  {
    match m
    case PrimitiveMethod(_, _) => 2
    case NoOpMethod(_) => 3
    case ForeignMethod(_, _, _, n) => n
    case DynamicStub(_, _) => 3
  }

  /** TypeData.WriterNeedsInstance / ReaderNeedsInstance: the routine takes the serializer as
      its first of three parameters. */
  predicate NeedsInstance(m: MethodInfo)
  {
    ParamCount(m) == 3
  }

  /** A handler whose code is not part of this model (ObjectSerializer, ArraySerializer,
      DictionarySerializer, or a user-supplied ITypeSerializer), described by what it answers:
      the interfaces it implements, the types it handles, the subtypes it reports and the
      parameter counts of its static routines. */
  datatype Foreign = Foreign(
    name: string,
    isStatic: bool,
    isDynamic: bool,
    handled: set<TypeName>,
    subtypes: map<TypeName, seq<TypeName>>,
    writerParams: nat,
    readerParams: nat)

  datatype Handler =
    | PrimitivesSerializer
    | EnumSerializer
    | NullableSerializer
    | GenericSerializer
    | NoOpSerializer(types: seq<TypeName>, handleSubclasses: bool)
    | ForeignSerializer(foreign: Foreign)

  /** The type each primitive overload of Primitives.cs takes. */
  function KindName(k: P.Kind): TypeName
  {
    TypeName(match k
    case BoolKind => "System.Boolean"
    case ByteKind => "System.Byte"
    case SByteKind => "System.SByte"
    case CharKind => "System.Char"
    case UShortKind => "System.UInt16"
    case ShortKind => "System.Int16"
    case UIntKind => "System.UInt32"
    case IntKind => "System.Int32"
    case ULongKind => "System.UInt64"
    case LongKind => "System.Int64"
    case FloatKind => "System.Single"
    case DoubleKind => "System.Double"
    case StringKind => "System.String"
    case DateTimeKind => "System.DateTime"
    case ByteArrayKind => "System.Byte[]"
    case DecimalKind => "System.Decimal")
  }

  /** PrimitivesSerializer.Primitives, the list Handles checks and GetSupportedTypes returns,
      in source order. */
  function GetSupportedTypes(): seq<TypeName>
  {
    [TypeName("System.Boolean"), TypeName("System.Byte"), TypeName("System.SByte"),
     TypeName("System.Char"), TypeName("System.UInt16"), TypeName("System.Int16"),
     TypeName("System.UInt32"), TypeName("System.Int32"), TypeName("System.UInt64"),
     TypeName("System.Int64"), TypeName("System.Single"), TypeName("System.Double"),
     TypeName("System.String"), TypeName("System.DateTime"), TypeName("System.Byte[]"),
     TypeName("System.Decimal")]
  }

  /** The overload search of Primitives.GetWritePrimitive / GetReaderPrimitive: the kind whose
      overload takes the named type, if any. */
  function PrimitiveKind(n: TypeName): Option<P.Kind>
  {
    if n.fullName == "System.Boolean" then Some(P.BoolKind)
    else if n.fullName == "System.Byte" then Some(P.ByteKind)
    else if n.fullName == "System.SByte" then Some(P.SByteKind)
    else if n.fullName == "System.Char" then Some(P.CharKind)
    else if n.fullName == "System.UInt16" then Some(P.UShortKind)
    else if n.fullName == "System.Int16" then Some(P.ShortKind)
    else if n.fullName == "System.UInt32" then Some(P.UIntKind)
    else if n.fullName == "System.Int32" then Some(P.IntKind)
    else if n.fullName == "System.UInt64" then Some(P.ULongKind)
    else if n.fullName == "System.Int64" then Some(P.LongKind)
    else if n.fullName == "System.Single" then Some(P.FloatKind)
    else if n.fullName == "System.Double" then Some(P.DoubleKind)
    else if n.fullName == "System.String" then Some(P.StringKind)
    else if n.fullName == "System.DateTime" then Some(P.DateTimeKind)
    else if n.fullName == "System.Byte[]" then Some(P.ByteArrayKind)
    else if n.fullName == "System.Decimal" then Some(P.DecimalKind)
    else None
  }

  /** The overload lookup and the supported-type list agree: a name has an overload exactly
      when it is on the list, and the overload found takes exactly that type. */
  lemma PrimitiveKindExact(n: TypeName)
    ensures PrimitiveKind(n).Some? <==> n in GetSupportedTypes()
    ensures PrimitiveKind(n).Some? ==> KindName(PrimitiveKind(n).value) == n
  {
    PrimitiveKindListed(n);
    PrimitiveKindNamed(n);
  }

  lemma PrimitiveKindListed(n: TypeName)
    ensures PrimitiveKind(n).Some? <==> n in GetSupportedTypes()
  {
  }

  lemma PrimitiveKindNamed(n: TypeName)
    ensures PrimitiveKind(n).Some? ==> KindName(PrimitiveKind(n).value) == n
  {
  }

  /** Every primitive kind is found again from its type name. */
  lemma PrimitiveKindOfName(k: P.Kind)
    ensures PrimitiveKind(KindName(k)) == Some(k)
  {
  }

  /** ITypeSerializer.Handles. Only GenericSerializer can throw, for a type that is not
      [Serializable]. */
  function Handles(h: Handler, t: TypeInfo): (r: Result<bool>)
    ensures r.Failure? ==> h.GenericSerializer? && r.error == NotSupported
  {
    match h
    case PrimitivesSerializer => Success(t.name in GetSupportedTypes())
    case EnumSerializer => Success(t.isEnum)
    case NullableSerializer => Success(t.genericDefinition == Some(NullableDefinition))
    case GenericSerializer => if !t.isSerializable then Failure(NotSupported) else Success(true)
    case NoOpSerializer(types, sub) =>
      Success(if sub then exists x :: x in types && IsSubclassOf(t, x) else t.name in types)
    case ForeignSerializer(f) => Success(t.name in f.handled)
  }

  function FieldTypes(fs: seq<FieldInfo>): (r: seq<TypeName>)
    ensures |r| == |fs| && forall i :: 0 <= i < |fs| ==> r[i] == fs[i].fieldType
  {
    if fs == [] then [] else [fs[0].fieldType] + FieldTypes(fs[1..])
  }

  /** ITypeSerializer.GetSubtypes: the types whose routines t's routine calls. */
  function GetSubtypes(h: Handler, t: TypeInfo): Result<seq<TypeName>>
  {
    match h
    case PrimitivesSerializer => Success([])
    case EnumSerializer => if t.isEnum then Success([t.enumUnderlying]) else Failure(Argument)
    case NullableSerializer =>
      if |t.genericArguments| == 0 then Failure(IndexOutOfRange)
      else Success([BoolType, t.genericArguments[0]])
    case GenericSerializer => Success(FieldTypes(GetFieldInfos(t)))
    case NoOpSerializer(_, _) => Success([])
    case ForeignSerializer(f) => Success(if t.name in f.subtypes then f.subtypes[t.name] else [])
  }

  /** `is IStaticTypeSerializer`. */
  predicate IsStatic(h: Handler)
  {
    match h
    case PrimitivesSerializer => true
    case EnumSerializer => true
    case NoOpSerializer(_, _) => true
    case ForeignSerializer(f) => f.isStatic
    case _ => false
  }

  /** `is IDynamicTypeSerializer`. */
  predicate IsDynamic(h: Handler)
  {
    match h
    case NullableSerializer => true
    case GenericSerializer => true
    case ForeignSerializer(f) => f.isDynamic
    case _ => false
  }

  /** Primitives.GetWritePrimitive / GetReaderPrimitive: Enumerable.First over the overloads,
      which throws when none takes the type. */
  function PrimitiveRoutine(dir: Direction, n: TypeName): (r: Result<MethodInfo>)
  {
    match PrimitiveKind(n)
    case None => Failure(InvalidOperation)
    case Some(k) => Success(PrimitiveMethod(dir, k))
  }

  /** IStaticTypeSerializer.GetStaticWriter / GetStaticReader. */
  function GetStaticRoutine(h: Handler, dir: Direction, t: TypeInfo): Result<MethodInfo>
    requires IsStatic(h)
  {
    match h
    case PrimitivesSerializer => PrimitiveRoutine(dir, t.name)
    case EnumSerializer =>
      if !t.isEnum then Failure(Argument) else PrimitiveRoutine(dir, t.enumUnderlying)
    case NoOpSerializer(_, _) => Success(NoOpMethod(dir))
    case ForeignSerializer(f) =>
      Success(ForeignMethod(dir, f.name, t.name, if dir == Writer then f.writerParams else f.readerParams))
  }

  /** The built-in handler table, in the order it is consulted. */
  function BuiltinSerializers(objectSerializer: Foreign, arraySerializer: Foreign,
                              dictionarySerializer: Foreign): (r: seq<Handler>)
    ensures |r| == 7 && r[6] == GenericSerializer
  {
    [ForeignSerializer(objectSerializer), PrimitivesSerializer, ForeignSerializer(arraySerializer),
     EnumSerializer, ForeignSerializer(dictionarySerializer), NullableSerializer, GenericSerializer]
  }

  /** Enumerable.FirstOrDefault(h => h.Handles(type)): the index of the first handler that
      takes t, None when none does; an exception from Handles propagates. */
  function FirstHandling(hs: seq<Handler>, t: TypeInfo): Result<Option<nat>>
  {
    if hs == [] then Success(None)
    else
      var here :- Handles(hs[0], t);
      if here then Success(Some(0))
      else
        var rest :- FirstHandling(hs[1..], t);
        Success(if rest.Some? then Some(rest.value + 1) else None)
  }

  /** A found index names a handler that takes t, and every handler before it declines. */
  lemma {:induction false} FirstHandlingFound(hs: seq<Handler>, t: TypeInfo)
    requires FirstHandling(hs, t).Success? && FirstHandling(hs, t).value.Some?
    ensures var i := FirstHandling(hs, t).value.value;
      i < |hs| && Handles(hs[i], t) == Success(true) &&
      forall j :: 0 <= j < i ==> Handles(hs[j], t) == Success(false)
  {
    if Handles(hs[0], t) == Success(false) {
      FirstHandlingFound(hs[1..], t);
      var i := FirstHandling(hs, t).value.value;
      forall j | 0 < j < i
        ensures Handles(hs[j], t) == Success(false)
      {
        assert hs[j] == hs[1..][j - 1];
      }
    }
  }

  /** No index: every handler declines. */
  lemma {:induction false} FirstHandlingNone(hs: seq<Handler>, t: TypeInfo)
    requires FirstHandling(hs, t) == Success(None)
    ensures forall j :: 0 <= j < |hs| ==> Handles(hs[j], t) == Success(false)
  {
    if hs != [] {
      FirstHandlingNone(hs[1..], t);
      forall j | 0 < j < |hs|
        ensures Handles(hs[j], t) == Success(false)
      {
        assert hs[j] == hs[1..][j - 1];
      }
    }
  }

  /** A failure is GenericSerializer's NotSupportedException for a type that is not
      [Serializable]. */
  lemma {:induction false} FirstHandlingFails(hs: seq<Handler>, t: TypeInfo)
    requires FirstHandling(hs, t).Failure?
    ensures FirstHandling(hs, t).error == NotSupported && !t.isSerializable
  {
    if Handles(hs[0], t).Success? {
      FirstHandlingFails(hs[1..], t);
    }
  }

  /** Serializer.GetTypeSerializer: the custom handlers are tried first, then the built-in
      table; NotSupportedException when none takes the type. */
  function GetTypeSerializer(customs: seq<Handler>, builtins: seq<Handler>, t: TypeInfo): Result<Handler>
  {
    var c :- FirstHandling(customs, t);
    if c.Some? && c.value < |customs| then Success(customs[c.value])
    else
      var b :- FirstHandling(builtins, t);
      if b.Some? && b.value < |builtins| then Success(builtins[b.value])
      else Failure(NotSupported)
  }

  /** First match wins over the custom handlers followed by the built-ins: the selected
      handler takes t and every handler before it declines; a failure is always a
      NotSupportedException. */
  lemma TypeSerializerFirstMatch(customs: seq<Handler>, builtins: seq<Handler>, t: TypeInfo)
    ensures var r := GetTypeSerializer(customs, builtins, t);
      var all := customs + builtins;
      (r.Success? ==> exists i :: 0 <= i < |all| && all[i] == r.value &&
                        Handles(all[i], t) == Success(true) &&
                        forall j :: 0 <= j < i ==> Handles(all[j], t) == Success(false)) &&
      (r.Failure? ==> r.error == NotSupported)
  {
    var all := customs + builtins;
    var c := FirstHandling(customs, t);
    if c.Failure? {
      FirstHandlingFails(customs, t);
    } else if c.value.Some? {
      FirstHandlingFound(customs, t);
      var i := c.value.value;
      assert all[i] == customs[i];
      forall j | 0 <= j < i
        ensures Handles(all[j], t) == Success(false)
      {
        assert all[j] == customs[j];
      }
    } else {
      FirstHandlingNone(customs, t);
      var b := FirstHandling(builtins, t);
      if b.Failure? {
        FirstHandlingFails(builtins, t);
      } else if b.value.Some? {
        FirstHandlingFound(builtins, t);
        var i := |customs| + b.value.value;
        assert all[i] == builtins[b.value.value];
        forall j | 0 <= j < i
          ensures Handles(all[j], t) == Success(false)
        {
          if j < |customs| {
            assert all[j] == customs[j];
          } else {
            assert all[j] == builtins[j - |customs|];
          }
        }
      }
    }
  }

  /** With the built-in table, whose last entry is GenericSerializer, selection fails exactly
      for a type that no handler before GenericSerializer takes and that is not
      [Serializable]. */
  lemma BuiltinsSelectUnlessNotSerializable(customs: seq<Handler>, o: Foreign, a: Foreign, d: Foreign,
                                            t: TypeInfo)
    ensures GetTypeSerializer(customs, BuiltinSerializers(o, a, d), t).Failure? ==> !t.isSerializable
  {
    var bs := BuiltinSerializers(o, a, d);
    var c := FirstHandling(customs, t);
    if c.Failure? {
      FirstHandlingFails(customs, t);
    } else if c.value.None? {
      var b := FirstHandling(bs, t);
      if b.Failure? {
        FirstHandlingFails(bs, t);
      } else if b.value.None? {
        FirstHandlingNone(bs, t);
        assert Handles(bs[6], t) == Success(false);
      } else {
        FirstHandlingFound(bs, t);
      }
    } else {
      FirstHandlingFound(customs, t);
    }
  }

  /** PrimitivesSerializer takes exactly the sixteen listed types, reports no subtypes, and
      its static writer and reader are the overloads for exactly that type. */
  lemma PrimitivesSerializerRoutines(t: TypeInfo, dir: Direction)
    ensures Handles(PrimitivesSerializer, t) == Success(true) <==> PrimitiveKind(t.name).Some?
    ensures GetSubtypes(PrimitivesSerializer, t) == Success([])
    ensures Handles(PrimitivesSerializer, t) == Success(true) ==>
      var m := GetStaticRoutine(PrimitivesSerializer, dir, t);
      m.Success? && m.value.PrimitiveMethod? && m.value.dir == dir &&
      KindName(m.value.kind) == t.name && !NeedsInstance(m.value)
  {
    PrimitiveKindExact(t.name);
  }

  /** EnumSerializer takes exactly the enums, reports the underlying integer type as its only
      subtype, and uses that type's primitive routine as its own. */
  lemma EnumSerializerRoutines(t: TypeInfo, dir: Direction)
    ensures Handles(EnumSerializer, t) == Success(t.isEnum)
    ensures t.isEnum ==> GetSubtypes(EnumSerializer, t) == Success([t.enumUnderlying])
    ensures t.isEnum && PrimitiveKind(t.enumUnderlying).Some? ==>
      GetStaticRoutine(EnumSerializer, dir, t) ==
        Success(PrimitiveMethod(dir, PrimitiveKind(t.enumUnderlying).value)) &&
      KindName(PrimitiveKind(t.enumUnderlying).value) == t.enumUnderlying
  {
    PrimitiveKindExact(t.enumUnderlying);
  }

  /** GenericSerializer's subtypes are the declared types of the serialized fields, in
      GetFieldInfos order, one per field. */
  lemma GenericSubtypesAreFieldTypes(t: TypeInfo)
    ensures var r := GetSubtypes(GenericSerializer, t);
      r.Success? && |r.value| == |GetFieldInfos(t)| &&
      forall i :: 0 <= i < |r.value| ==> r.value[i] == GetFieldInfos(t)[i].fieldType
  {
  }

  /** NoOpSerializer in subclass mode takes the types that derive, directly or further down,
      from a listed type (a listed type itself only when it also derives from one); otherwise
      it takes exactly the listed types. It reports no subtypes and its routines are its own
      static Serialize and Deserialize, which take the serializer. */
  lemma NoOpSerializerRules(types: seq<TypeName>, sub: bool, t: TypeInfo, dir: Direction)
    ensures var h := NoOpSerializer(types, sub);
      Handles(h, t).Success? && IsStatic(h) && !IsDynamic(h) &&
      (sub ==> (Handles(h, t).value <==> exists i :: 0 <= i < |types| && types[i] in Ancestors(t))) &&
      (!sub ==> (Handles(h, t).value <==> exists i :: 0 <= i < |types| && types[i] == t.name)) &&
      GetSubtypes(h, t) == Success([]) &&
      GetStaticRoutine(h, dir, t) == Success(NoOpMethod(dir)) && NeedsInstance(NoOpMethod(dir))
  {
    if sub {
      var h := NoOpSerializer(types, sub);
      if Handles(h, t).value {
        var x :| x in types && IsSubclassOf(t, x);
        var i :| 0 <= i < |types| && types[i] == x;
      }
      if exists i :: 0 <= i < |types| && types[i] in Ancestors(t) {
        var i :| 0 <= i < |types| && types[i] in Ancestors(t);
        assert types[i] in types && IsSubclassOf(t, types[i]);
      }
    }
  }

  /** NullableSerializer takes exactly the constructed Nullable<T> types, reports bool and T as
      their subtypes, and is a generating handler. */
  lemma NullableSerializerRules(t: TypeInfo)
    ensures Handles(NullableSerializer, t) == Success(t.genericDefinition == Some(NullableDefinition))
    ensures |t.genericArguments| > 0 ==> GetSubtypes(NullableSerializer, t) == Success([BoolType, t.genericArguments[0]])
    ensures IsDynamic(NullableSerializer) && !IsStatic(NullableSerializer)
  {
  }
}
