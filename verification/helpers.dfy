/** Helpers.GetFieldInfos: the serialized fields of a type, in wire order. */
module Helpers {
  import opened Wrappers
  import opened Types
  import Bits
  import Utf8

  /** Lexicographic order of UTF-16 code-unit sequences; a prefix comes first. */
  predicate UnitsLe(a: seq<Bits.uint16>, b: seq<Bits.uint16>)
  {
    a == [] || (b != [] && (a[0] < b[0] || (a[0] == b[0] && UnitsLe(a[1..], b[1..]))))
  }

  /** StringComparer.Ordinal on names: .NET compares the UTF-16 code units, so a character
      above U+FFFF sorts by its high surrogate (U+D800-U+DBFF), below U+E000-U+FFFF. */
  predicate OrdinalLe(a: string, b: string)
  {
    UnitsLe(Utf8.Utf16(a), Utf8.Utf16(b))
  }

  lemma {:induction false} UnitsTotal(a: seq<Bits.uint16>, b: seq<Bits.uint16>)
    ensures UnitsLe(a, b) || UnitsLe(b, a)
  {
    if a != [] && b != [] && a[0] == b[0] {
      UnitsTotal(a[1..], b[1..]);
    }
  }

  lemma {:induction false} UnitsTrans(a: seq<Bits.uint16>, b: seq<Bits.uint16>, c: seq<Bits.uint16>)
    requires UnitsLe(a, b) && UnitsLe(b, c)
    ensures UnitsLe(a, c)
  {
    if a != [] && b != [] && c != [] && a[0] == b[0] && b[0] == c[0] {
      UnitsTrans(a[1..], b[1..], c[1..]);
    }
  }

  lemma OrdinalTotal(a: string, b: string)
    ensures OrdinalLe(a, b) || OrdinalLe(b, a)
  {
    UnitsTotal(Utf8.Utf16(a), Utf8.Utf16(b));
  }

  lemma OrdinalTrans(a: string, b: string, c: string)
    requires OrdinalLe(a, b) && OrdinalLe(b, c)
    ensures OrdinalLe(a, c)
  {
    UnitsTrans(Utf8.Utf16(a), Utf8.Utf16(b), Utf8.Utf16(c));
  }

  /** The ordinal order is not the order of code points: U+1D400 (two code units, the first
      0xD835) sorts before U+FF21 (one code unit, 0xFF21). */
  lemma OrdinalBySurrogates()
    ensures OrdinalLe("\U{1D400}", "\U{FF21}") && !OrdinalLe("\U{FF21}", "\U{1D400}")
    ensures "\U{FF21}"[0] < "\U{1D400}"[0]
  {
    assert Utf8.Utf16("\U{1D400}") == [0xD835, 0xDC00];
    assert Utf8.Utf16("\U{FF21}") == [0xFF21];
  }

  /** The filter of GetFieldInfos: instance fields that are neither constants nor
      [NonSerialized]. */
  predicate Serialized(f: FieldInfo)
  {
    !f.notSerialized && !f.isStatic && !f.isLiteral
  }

  function SerializedFields(fs: seq<FieldInfo>): (r: seq<FieldInfo>)
  {
    if fs == [] then []
    else if Serialized(fs[0]) then [fs[0]] + SerializedFields(fs[1..])
    else SerializedFields(fs[1..])
  }

  lemma {:induction false} SerializedFieldsExact(fs: seq<FieldInfo>)
    ensures forall f :: f in SerializedFields(fs) <==> f in fs && Serialized(f)
    ensures forall f :: multiset(SerializedFields(fs))[f] == if Serialized(f) then multiset(fs)[f] else 0
  {
    if fs != [] {
      SerializedFieldsExact(fs[1..]);
      assert fs == [fs[0]] + fs[1..];
    }
  }

  predicate SortedByName(s: seq<FieldInfo>)
  {
    forall i, j :: 0 <= i < j < |s| ==> OrdinalLe(s[i].name, s[j].name)
  }

  /** Inserts f before the first element whose name is not ordinally smaller. */
  function Insert(f: FieldInfo, s: seq<FieldInfo>): seq<FieldInfo>
  {
    if s == [] || OrdinalLe(f.name, s[0].name) then [f] + s else [s[0]] + Insert(f, s[1..])
  }

  /** Enumerable.OrderBy(f => f.Name, StringComparer.Ordinal). */
  function SortByName(s: seq<FieldInfo>): seq<FieldInfo>
  {
    if s == [] then [] else Insert(s[0], SortByName(s[1..]))
  }

  lemma {:induction false} InsertSorted(f: FieldInfo, s: seq<FieldInfo>)
    requires SortedByName(s)
    ensures SortedByName(Insert(f, s))
    ensures multiset(Insert(f, s)) == multiset(s) + multiset{f}
  {
    if s == [] {
    } else if OrdinalLe(f.name, s[0].name) {
      forall j | 0 <= j < |s|
        ensures OrdinalLe(f.name, s[j].name)
      {
        if j > 0 {
          OrdinalTrans(f.name, s[0].name, s[j].name);
        }
      }
    } else {
      var t := Insert(f, s[1..]);
      InsertSorted(f, s[1..]);
      assert s == [s[0]] + s[1..];
      OrdinalTotal(f.name, s[0].name);
      forall x | x in t
        ensures OrdinalLe(s[0].name, x.name)
      {
        assert x in multiset(t);
        if x != f {
          assert x in s[1..];
        }
      }
      var r := [s[0]] + t;
      forall i, j | 0 <= i < j < |r|
        ensures OrdinalLe(r[i].name, r[j].name)
      {
        if i == 0 {
          assert r[j] in t;
        }
      }
    }
  }

  lemma {:induction false} SortByNameSpec(s: seq<FieldInfo>)
    ensures SortedByName(SortByName(s))
    ensures multiset(SortByName(s)) == multiset(s)
  {
    if s != [] {
      SortByNameSpec(s[1..]);
      InsertSorted(s[0], SortByName(s[1..]));
      assert s == [s[0]] + s[1..];
    }
  }

  /** The serialized fields declared by t itself, in the order GetFieldInfos emits them. */
  function LevelFields(t: TypeInfo): seq<FieldInfo>
  {
    SortByName(SerializedFields(t.declaredFields))
  }

  /** Helpers.GetFieldInfos: the base class's fields first, then the type's own fields. */
  function GetFieldInfos(t: TypeInfo): seq<FieldInfo>
  {
    match t.baseType
    case None => LevelFields(t)
    case Some(b) => GetFieldInfos(b) + LevelFields(t)
  }

  /** Every field declared on t or one of its base classes, base classes first, in
      declaration order, unfiltered: a reference to compare GetFieldInfos against. */
  function AllDeclaredFields(t: TypeInfo): seq<FieldInfo>
  {
    match t.baseType
    case None => t.declaredFields
    case Some(b) => AllDeclaredFields(b) + t.declaredFields
  }

  /** GetFieldInfos of t is the result for its base class followed by a block that holds
      exactly t's own serialized fields, ordinally sorted by name. */
  lemma FieldInfosLayout(t: TypeInfo)
    ensures var own := GetFieldInfos(t)[|GetFieldInfos(t)| - |LevelFields(t)|..];
      SortedByName(own) &&
      multiset(own) == multiset(SerializedFields(t.declaredFields)) &&
      GetFieldInfos(t)[..|GetFieldInfos(t)| - |LevelFields(t)|] ==
        (if t.baseType.None? then [] else GetFieldInfos(t.baseType.value))
  {
    SortByNameSpec(SerializedFields(t.declaredFields));
    var r := GetFieldInfos(t);
    assert r[|r| - |LevelFields(t)|..] == LevelFields(t);
  }

  /** GetFieldInfos keeps exactly the serialized fields of the whole inheritance chain, each
      as often as it is declared: static, literal and [NonSerialized] fields are dropped and
      nothing else is. */
  lemma {:induction false} FieldInfosContent(t: TypeInfo)
    ensures forall f ::
      multiset(GetFieldInfos(t))[f] == (if Serialized(f) then multiset(AllDeclaredFields(t))[f] else 0)
  {
    SortByNameSpec(SerializedFields(t.declaredFields));
    SerializedFieldsExact(t.declaredFields);
    if t.baseType.Some? {
      FieldInfosContent(t.baseType.value);
    }
  }
}
