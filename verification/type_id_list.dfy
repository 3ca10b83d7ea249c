/** TypeIdList: the id -> descriptor table, an array indexed by type id that grows to the next
    power of two. Its abstraction is the map `contents` from id to descriptor. */
module TypeIds {
  import opened Wrappers
  import opened Bits
  import opened Types
  import opened Descriptors

  const InitialLength: nat := 256

  /** NextPowOf2 on a 32-bit unsigned value: decrement, smear the top bit down, increment,
      each step wrapping at 2^32. For 1 <= v <= 2^31 the result is the least power of two that
      is at least v; for 0 and for v above 2^31 the wrap-around makes it 0. */
  method NextPowOf2(v: uint32) returns (r: uint32)
    ensures 1 <= v <= 0x8000_0000 ==> r == Pow2(BitLength(v - 1)) && v <= r < 2 * v
    ensures v == 0 || v > 0x8000_0000 ==> r == 0
  {
    var x: nat := (v + 0xFFFF_FFFF) % TWO32;   // v--
    ghost var y := x;
    x := SmearShift(x, 1);                     // v |= v >> 1
    x := SmearShift(x, 2);                     // v |= v >> 2
    x := SmearShift(x, 4);                     // v |= v >> 4
    x := SmearShift(x, 8);                     // v |= v >> 8
    x := SmearShift(x, 16);                    // v |= v >> 16
    Pow2Word();
    Smear32Fills(y);
    WrappedPower(v, y, x + 1);
    r := (x + 1) % TWO32;                      // v++
  }

  /** The increment step of NextPowOf2, given that the smeared value plus one is p. */
  lemma WrappedPower(v: uint32, y: nat, p: nat)
    requires y == (v + 0xFFFF_FFFF) % TWO32 && p == Pow2(BitLength(y))
    ensures 1 <= v <= 0x8000_0000 ==> p % TWO32 == Pow2(BitLength(v - 1)) && v <= p % TWO32 < 2 * v
    ensures v == 0 || v > 0x8000_0000 ==> p % TWO32 == 0
  {
    if 1 <= v <= 0x8000_0000 {
      PowerBelow(v, y);
      DivModUnique(p, TWO32, 0, p);
    } else {
      PowerWraps(v, y);
      DivModUnique(p, TWO32, 1, 0);
    }
  }

  /** For 1 <= v <= 2^31, 2^BitLength(v - 1) is the least power of two at least v. */
  lemma PowerBelow(v: uint32, y: nat)
    requires y == (v + 0xFFFF_FFFF) % TWO32 && 1 <= v <= 0x8000_0000
    ensures y == v - 1 && v <= Pow2(BitLength(y)) < 2 * v && Pow2(BitLength(y)) < TWO32
  {
    Pow2Word();
    var L := BitLength(y);
    BitLengthBounds(y);
    BitLengthBelow(y, 31);
    Pow2Monotone(L, 31);
    if y > 0 {
      assert Pow2(L) == 2 * Pow2(L - 1);
    }
  }

  /** For v == 0 and for v above 2^31 the decremented value has 32 bits. */
  lemma PowerWraps(v: uint32, y: nat)
    requires y == (v + 0xFFFF_FFFF) % TWO32 && (v == 0 || v > 0x8000_0000)
    ensures Pow2(BitLength(y)) == TWO32
  {
    Pow2Word();
    var L := BitLength(y);
    assert 0x8000_0000 <= y < TWO32;
    BitLengthBounds(y);
    BitLengthBelow(y, 32);
    if L < 32 {
      Pow2Monotone(L, 31);
    }
    assert L == 32;
  }

  /** The ids the list can take: growing the array for an id from 2^30 on asks for an array
      of 2^31 slots, longer than Array.MaxLength, or (from 2^31 on) for one of 0 slots. */
  const IdLimit: nat := 0x4000_0000

  /** The exception the setter throws for an id at or above IdLimit: OutOfMemoryException
      from `new TypeData[2^31]`, or, once NextPowOf2 has wrapped to 0 from 2^31 on, the
      ArgumentException of Array.Copy into the empty array. */
  function GrowError(idx: uint32): (e: Exception)
    ensures e == OutOfMemory <==> idx < 0x8000_0000
    ensures e == Argument <==> idx >= 0x8000_0000
  {
    if idx < 0x8000_0000 then OutOfMemory else Argument
  }

  class TypeIdList {
    var arr: array<TypeData?>
    ghost var contents: map<nat, TypeData>
    ghost var logLength: nat

    /** The array length is a power of two between 256 and 2^30; a slot is non-null exactly
        when its id is in `contents`, holding the descriptor with that id. */
    ghost predicate Valid()
      reads this, arr
    {
      arr.Length == Pow2(logLength) && 8 <= logLength <= 30 &&
      (forall i :: 0 <= i < arr.Length ==> (arr[i] != null <==> i in contents)) &&
      (forall i :: i in contents ==> i < arr.Length && arr[i] == contents[i] && contents[i].typeId == i)
    }

    /** A new list has 256 empty slots. */
    constructor()
      ensures Valid() && fresh(arr)
      ensures contents == map[] && arr.Length == InitialLength
    {
      arr := new TypeData?[InitialLength](_ => null);
      contents := map[];
      logLength := 8;
      Pow2Byte();
    }

    /** The array never exceeds 2^30 slots. */
    lemma LengthBound()
      requires Valid()
      ensures arr.Length <= IdLimit
    {
      Pow2Word();
      Pow2Monotone(logLength, 30);
    }

    /** The first id at or after start that is not bound. */
    method NextFree(start: uint32) returns (id: uint32)
      requires Valid()
      ensures start <= id && id as nat !in contents
      ensures forall i: nat :: start <= i < id ==> i in contents
    {
      id := start;
      while ContainsTypeId(id)
        invariant start <= id
        invariant forall i: nat :: start <= i < id ==> i in contents
        decreases arr.Length - id
      {
        LengthBound();
        id := id + 1;
      }
    }

    /** The indexer's getter: the descriptor with id idx, null for an empty slot, and
        IndexOutOfRangeException beyond the array. */
    function Get(idx: uint32): (r: Result<TypeData?>)
      reads this, arr
      requires Valid()
      ensures r.Success? <==> idx < arr.Length
      ensures r.Success? ==> (r.value != null <==> idx in contents)
      ensures r.Success? && idx in contents ==> r.value == contents[idx]
      ensures r.Failure? ==> r.error == IndexOutOfRange
    {
      if idx < arr.Length then Success(arr[idx]) else Failure(IndexOutOfRange)
    }

    /** ContainsTypeId: the id is bound. */
    function ContainsTypeId(typeId: uint32): (r: bool)
      reads this, arr
      requires Valid()
      ensures r <==> typeId in contents
    {
      typeId < arr.Length && arr[typeId] != null
    }

    /** The indexer's setter for a descriptor whose id is idx, on an empty slot. An index at
        or beyond the array grows it to NextPowOf2(idx + 1), keeping every entry; from IdLimit
        on that growth throws GrowError(idx). */
    method Set(idx: uint32, value: TypeData) returns (r: Result<()>)
      requires Valid() && value.typeId == idx && idx !in contents
      modifies this, arr
      ensures Valid()
      ensures r.Success? <==> idx < IdLimit
      ensures r.Success? ==> contents == old(contents)[idx as nat := value]
      ensures r.Failure? ==> r.error == GrowError(idx) && contents == old(contents) && arr == old(arr)
      ensures idx < old(arr.Length) ==> arr == old(arr)
      ensures old(arr.Length) <= idx < IdLimit ==> fresh(arr) && idx < arr.Length <= 2 * idx + 1
    {
      if idx >= arr.Length {
        r := Grow(idx);
        if r.Failure? {
          return;
        }
      }
      LengthBound();
      arr[idx] := value;
      contents := contents[idx as nat := value];
      return Success(());
    }

    /** The growing step of the setter, for an index at or beyond the array: a new array of
        NextPowOf2(idx + 1) slots into which Array.Copy moves every entry. An array longer
        than Array.MaxLength is refused with OutOfMemoryException, and Array.Copy into a
        shorter one throws ArgumentException. */
    method Grow(idx: uint32) returns (r: Result<()>)
      requires Valid() && idx >= arr.Length
      modifies this
      ensures Valid() && contents == old(contents)
      ensures r.Success? <==> idx < IdLimit
      ensures r.Failure? ==> r.error == GrowError(idx) && arr == old(arr)
      ensures r.Success? ==> fresh(arr) && idx < arr.Length <= 2 * idx + 1
    {
      var v := (idx + 1) % TWO32;
      var n := NextPowOf2(v);
      GrowSize(idx, arr.Length, logLength, v, n);
      if n > MaxArrayLength {
        return Failure(OutOfMemory);
      }
      if n < arr.Length {
        return Failure(Argument);
      }
      arr := Enlarged(arr, n);
      logLength := BitLength(idx);
      return Success(());
    }

    /** ToSortedList: (id, type) for every bound id, in ascending id order. */
    method ToSortedList() returns (list: seq<(uint32, TypeName)>)
      requires Valid()
      ensures forall j, k :: 0 <= j < k < |list| ==> list[j].0 < list[k].0
      ensures forall j :: 0 <= j < |list| ==> list[j].0 in contents && list[j].1 == contents[list[j].0].Type()
      ensures Ids(list) == contents.Keys
    {
      list := [];
      var i: nat := 0;
      while i < arr.Length
        invariant i <= arr.Length
        invariant forall j, k :: 0 <= j < k < |list| ==> list[j].0 < list[k].0
        invariant forall j :: 0 <= j < |list| ==> list[j].0 < i
        invariant forall j :: 0 <= j < |list| ==> list[j].0 in contents && list[j].1 == contents[list[j].0].Type()
        invariant Ids(list) == set id | id in contents && id < i
      {
        var td := arr[i];
        if td != null {
          IdsAppend(list, (i as uint32, td.Type()));
          list := list + [(i as uint32, td.Type())];
        }
        i := i + 1;
      }
      assert forall id :: id in contents ==> id < i;
    }
  }

  /** The arithmetic of Grow: NextPowOf2(idx + 1) is below the current power-of-two length
      exactly when idx is 2^31 or more, and above Array.MaxLength exactly when idx is from
      2^30 to 2^31 - 1; below 2^31 it is 2^BitLength(idx), at least 256. */
  lemma GrowSize(idx: uint32, len: nat, log: nat, v: uint32, n: uint32)
    requires len == Pow2(log) && 8 <= log <= 30 && len <= idx
    requires v == (idx + 1) % TWO32
    requires 1 <= v <= 0x8000_0000 ==> n == Pow2(BitLength(v - 1)) && v <= n < 2 * v
    requires v == 0 || v > 0x8000_0000 ==> n == 0
    ensures n < len <==> idx >= 0x8000_0000
    ensures n > MaxArrayLength <==> IdLimit <= idx < 0x8000_0000
    ensures idx < 0x8000_0000 ==> n == Pow2(BitLength(idx)) && 8 <= BitLength(idx) <= 31 &&
                                  idx < n <= 2 * idx + 1
    ensures idx < IdLimit ==> BitLength(idx) <= 30
  {
    Pow2Word();
    if idx < 0x8000_0000 {
      assert v == idx + 1;
      var L := BitLength(idx);
      BitLengthBelow(idx, 31);
      if L < 8 {
        Pow2Monotone(L, 8);
        BitLengthBounds(idx);
        Pow2Monotone(L, log);
      }
      if idx < IdLimit {
        BitLengthBelow(idx, 30);
        Pow2Monotone(L, 30);
      } else {
        BitLengthBounds(idx);
        if L <= 30 {
          Pow2Monotone(L, 30);
        }
        assert L == 31;
      }
    } else {
      Pow2Monotone(8, log);
      assert v == 0 || v > 0x8000_0000;
    }
  }

  /** new TypeData[n] followed by Array.Copy(a, b, a.Length). */
  method Enlarged(a: array<TypeData?>, n: nat) returns (b: array<TypeData?>)
    requires a.Length <= n
    ensures fresh(b) && b.Length == n
    ensures forall i :: 0 <= i < a.Length ==> b[i] == a[i]
    ensures forall i :: a.Length <= i < n ==> b[i] == null
  {
    b := new TypeData?[n](_ => null);
    forall i | 0 <= i < a.Length {
      b[i] := a[i];
    }
  }

  /** The ids of a list of (id, type) pairs. */
  function Ids(list: seq<(uint32, TypeName)>): set<nat>
  {
    set j | 0 <= j < |list| :: list[j].0 as nat
  }

  lemma IdsAppend(list: seq<(uint32, TypeName)>, e: (uint32, TypeName))
    ensures Ids(list + [e]) == Ids(list) + {e.0 as nat}
  {
    var l := list + [e];
    assert l[|list|] == e;
    assert forall j :: 0 <= j < |list| ==> l[j] == list[j];
  }
}
