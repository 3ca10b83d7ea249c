/** TypeDictionary: the Type -> descriptor table, a hash table of 512 buckets that doubles
    when half as many items as buckets are stored. A bucket is an array of pairs that starts
    with one slot and doubles when full; empty slots have no key. The outer table is an array;
    each bucket is held as a sequence value, the empty sequence standing for a null bucket.
    The abstraction is the map `contents` from type to descriptor. */
module TypeDict {
  import opened Wrappers
  import opened Bits
  import opened Types
  import opened Descriptors

  const InitialLength: nat := 256
  /** (int)(InitialLength * (1.0f / LoadLimit)) with LoadLimit 0.5. */
  const InitialBuckets: nat := 512

  datatype Pair = Pair(key: TypeName, value: TypeData)

  /** A bucket; None is a slot whose key is null, [] a bucket not allocated yet. */
  type Bucket = seq<Option<Pair>>

  /** Hash: the identity hash code, reinterpreted as unsigned, modulo the bucket count. */
  function Hash(code: int32, n: nat): (r: nat)
    requires n > 0
    ensures r < n
    ensures 0 <= code ==> r == code % n
  {
    (code % TWO32) % n
  }

  /** The slot at j of a bucket holds the key. */
  predicate Holds(b: Bucket, j: nat, key: TypeName)
    requires j < |b|
  {
    b[j].Some? && b[j].value.key == key
  }

  /** The index of the first empty slot of b at or after i, or |b| when there is none. */
  function FirstFree(b: Bucket, i: nat): (r: nat)
    requires i <= |b|
    ensures i <= r <= |b|
    ensures r < |b| ==> b[r].None?
    ensures forall j :: i <= j < r ==> b[j].Some?
    decreases |b| - i
  {
    if i == |b| || b[i].None? then i else FirstFree(b, i + 1)
  }

  /** n empty slots. */
  function Nones(n: nat): (r: Bucket)
    ensures |r| == n && forall j :: 0 <= j < n ==> r[j].None?
  {
    seq(n, _ => None)
  }

  /** The bucket Add leaves: a missing bucket is first allocated with InitialListSize (1)
      slot; the pair then goes into the first empty slot, or, when every slot is taken, into
      slot |b| of a copy twice as long. */
  function AddToBucket(b: Bucket, p: Pair): Bucket
  {
    var arr := if b == [] then [None] else b;
    var i := FirstFree(arr, 0);
    if i < |arr| then arr[i := Some(p)] else arr + [Some(p)] + Nones(|arr| - 1)
  }

  /** The slot in which AddToBucket places the pair. */
  function AddSlot(b: Bucket): nat
  {
    var arr := if b == [] then [None] else b;
    FirstFree(arr, 0)
  }

  /** AddToBucket puts the pair at AddSlot, the first slot that was empty, keeps every other
      slot, only appends empty slots, and doubles the bucket exactly when it was full. */
  lemma AddToBucketShape(b: Bucket, p: Pair)
    ensures AddSlot(b) < |AddToBucket(b, p)| && AddToBucket(b, p)[AddSlot(b)] == Some(p)
    ensures AddSlot(b) < |b| ==> b[AddSlot(b)].None?
    ensures forall j :: 0 <= j < AddSlot(b) && j < |b| ==> b[j].Some?
    ensures forall j :: 0 <= j < |b| && j != AddSlot(b) ==> AddToBucket(b, p)[j] == b[j]
    ensures forall j :: |b| <= j < |AddToBucket(b, p)| && j != AddSlot(b) ==> AddToBucket(b, p)[j].None?
    ensures b == [] ==> AddToBucket(b, p) == [Some(p)]
    ensures b != [] && AddSlot(b) < |b| ==> |AddToBucket(b, p)| == |b|
    ensures b != [] && AddSlot(b) == |b| ==> |AddToBucket(b, p)| == 2 * |b|
  {
  }

  /** The table bs, hashed with hc, stores exactly contents: every pair sits in its key's
      bucket and agrees with contents, and every key of contents sits at slot[key] of its
      bucket. */
  ghost predicate Table(bs: seq<Bucket>, hc: TypeName -> int32, contents: map<TypeName, TypeData>,
                        slot: map<TypeName, nat>)
  {
    |bs| > 0 &&
    (forall b, j :: 0 <= b < |bs| && 0 <= j < |bs[b]| && bs[b][j].Some? ==>
       Stored(bs, hc, contents, b, bs[b][j].value)) &&
    (forall k {:trigger Placed(bs, hc, contents, slot, k)} :: k in contents ==> Placed(bs, hc, contents, slot, k))
  }

  /** A pair found in bucket b belongs there and agrees with contents. */
  ghost predicate Stored(bs: seq<Bucket>, hc: TypeName -> int32, contents: map<TypeName, TypeData>,
                         b: nat, p: Pair)
    requires |bs| > 0
  {
    p.key in contents && contents[p.key] == p.value && Hash(hc(p.key), |bs|) == b
  }

  /** Key k of contents is at slot[k] of its bucket. */
  ghost predicate Placed(bs: seq<Bucket>, hc: TypeName -> int32, contents: map<TypeName, TypeData>,
                         slot: map<TypeName, nat>, k: TypeName)
    requires |bs| > 0 && k in contents
  {
    var h := Hash(hc(k), |bs|);
    k in slot && slot[k] < |bs[h]| && bs[h][slot[k]] == Some(Pair(k, contents[k]))
  }

  /** The table after adding p to its bucket. */
  function AddTo(bs: seq<Bucket>, hc: TypeName -> int32, p: Pair): (r: seq<Bucket>)
    requires |bs| > 0
    ensures |r| == |bs|
  {
    var h := Hash(hc(p.key), |bs|);
    bs[h := AddToBucket(bs[h], p)]
  }

  /** Adding a pair whose key is absent, or present with the same descriptor, to a table of
      contents gives a table of contents with that binding. */
  lemma {:induction false} AddKeepsTable(bs: seq<Bucket>, hc: TypeName -> int32, contents: map<TypeName, TypeData>,
                                         slot: map<TypeName, nat>, p: Pair)
    requires Table(bs, hc, contents, slot)
    requires p.key in contents ==> contents[p.key] == p.value
    ensures Table(AddTo(bs, hc, p), hc, contents[p.key := p.value],
                  slot[p.key := AddSlot(bs[Hash(hc(p.key), |bs|)])])
  {
    var h := Hash(hc(p.key), |bs|);
    var nb := AddToBucket(bs[h], p);
    AddToBucketShape(bs[h], p);
    var r: seq<Bucket> := AddTo(bs, hc, p);
    var c := contents[p.key := p.value];
    var s := slot[p.key := AddSlot(bs[h])];
    forall b: nat, j: nat | b < |r| && j < |r[b]| && r[b][j].Some?
      ensures Stored(r, hc, c, b, r[b][j].value)
    {
      if b == h && j == AddSlot(bs[h]) {
      } else if b == h {
        assert j < |bs[h]| && r[b][j] == bs[h][j];
        assert Stored(bs, hc, contents, b, bs[b][j].value);
      } else {
        assert Stored(bs, hc, contents, b, bs[b][j].value);
      }
    }
    forall k | k in c
      ensures Placed(r, hc, c, s, k)
    {
      if k != p.key {
        assert Placed(bs, hc, contents, slot, k);
        var hk := Hash(hc(k), |bs|);
        if hk == h {
          assert bs[h][slot[k]].Some?;
        }
      }
    }
  }

  /** new Pair[n][]: n missing buckets. */
  method EmptyBuckets(n: nat) returns (a: array<Bucket>)
    ensures fresh(a) && a.Length == n && forall i :: 0 <= i < n ==> a[i] == []
  {
    a := new Bucket[n](_ => []);
  }

  /** A table of missing buckets stores nothing. */
  lemma EmptyTable(bs: seq<Bucket>, hc: TypeName -> int32)
    requires |bs| > 0 && forall i :: 0 <= i < |bs| ==> bs[i] == []
    ensures Table(bs, hc, map[], map[])
  {
  }

  /** The bucket slots of bs strictly before slot (b, j) in scanning order. */
  predicate Before(bs: seq<Bucket>, hc: TypeName -> int32, slot: map<TypeName, nat>, k: TypeName, b: nat, j: nat)
    requires |bs| > 0
  {
    var h := Hash(hc(k), |bs|);
    k in slot && (h < b || (h == b && slot[k] < j))
  }

  class TypeDictionary {
    const hashCode: TypeName -> int32    // RuntimeHelpers.GetHashCode
    var buckets: array<Bucket>
    var numItems: nat
    ghost var contents: map<TypeName, TypeData>
    ghost var slot: map<TypeName, nat>

    ghost predicate Valid()
      reads this, buckets
    {
      Table(buckets[..], hashCode, contents, slot) && numItems == |contents|
    }

    /** A new dictionary has 512 empty buckets and no item. */
    constructor(hashCode: TypeName -> int32)
      ensures Valid() && fresh(buckets) && this.hashCode == hashCode
      ensures contents == map[] && numItems == 0 && buckets.Length == InitialBuckets
    {
      this.hashCode := hashCode;
      buckets := new Bucket[InitialBuckets](_ => []);
      numItems := 0;
      contents := map[];
      slot := map[];
    }

    /** The indexer's getter: the descriptor of key, KeyNotFoundException when the key's
        bucket is missing or does not hold it. */
    method Get(key: TypeName) returns (r: Result<TypeData>)
      requires Valid()
      ensures r.Success? <==> key in contents
      ensures r.Success? ==> r.value == contents[key]
      ensures r.Failure? ==> r.error == KeyNotFound
    {
      var idx := Hash(hashCode(key), buckets.Length);
      var arr := buckets[idx];
      if arr == [] {
        NotInBucket(key);
        return Failure(KeyNotFound);
      }
      var found := Scan(arr, key);
      FoundInBucket(key, found);
      if found.Some? {
        return Success(found.value);
      }
      return Failure(KeyNotFound);
    }

    /** TryGetValue: true and the descriptor when the key is stored, false and null otherwise. */
    method TryGetValue(key: TypeName) returns (found: bool, value: TypeData?)
      requires Valid()
      ensures found <==> key in contents
      ensures found ==> value == contents[key]
      ensures !found ==> value == null
    {
      var idx := Hash(hashCode(key), buckets.Length);
      var arr := buckets[idx];
      if arr == [] {
        NotInBucket(key);
        return false, null;
      }
      var r := Scan(arr, key);
      FoundInBucket(key, r);
      if r.Some? {
        return true, r.value;
      }
      return false, null;
    }

    /** ContainsKey: TryGetValue's answer. */
    method ContainsKey(key: TypeName) returns (b: bool)
      requires Valid()
      ensures b <==> key in contents
    {
      var v: TypeData?;
      b, v := TryGetValue(key);
    }

    /** A key whose bucket is missing is not stored. */
    lemma NotInBucket(key: TypeName)
      requires Valid() && buckets[Hash(hashCode(key), buckets.Length)] == []
      ensures key !in contents
    {
      assert key in contents ==> Placed(buckets[..], hashCode, contents, slot, key);
    }

    /** What a scan of the key's bucket finds is the key's descriptor. */
    lemma FoundInBucket(key: TypeName, found: Option<TypeData>)
      requires Valid()
      requires var b := buckets[Hash(hashCode(key), buckets.Length)];
               (found.None? <==> forall j :: 0 <= j < |b| ==> !Holds(b, j, key)) &&
               (found.Some? ==> exists j :: 0 <= j < |b| && Holds(b, j, key) && b[j].value.value == found.value)
      ensures found.Some? <==> key in contents
      ensures found.Some? ==> found.value == contents[key]
    {
      var h := Hash(hashCode(key), buckets.Length);
      var b := buckets[h];
      if key in contents {
        assert Placed(buckets[..], hashCode, contents, slot, key);
        assert Holds(b, slot[key], key);
      }
      if found.Some? {
        var j :| 0 <= j < |b| && Holds(b, j, key) && b[j].value.value == found.value;
        assert Stored(buckets[..], hashCode, contents, h, b[j].value);
      }
    }

    /** The indexer's setter for an absent key: when numItems has reached half the bucket
        count the table is first rehashed into twice as many buckets; then the pair is added
        and numItems incremented. */
    method Set(key: TypeName, value: TypeData)
      requires Valid() && key !in contents
      modifies this, buckets
      ensures Valid() && contents == old(contents)[key := value] && numItems == old(numItems) + 1
      ensures 2 * old(numItems) < old(buckets.Length) ==> buckets == old(buckets) && buckets.Length == old(buckets.Length)
      ensures 2 * old(numItems) >= old(buckets.Length) ==> fresh(buckets) && buckets.Length == 2 * old(buckets.Length)
    {
      if 2 * numItems >= buckets.Length {   // _numItems >= _buckets.Length * LoadLimit
        Resize();
      }
      Insert(Pair(key, value));
    }

    /** The insertion step of the setter: Add into the current table, then count the item. */
    method Insert(p: Pair)
      requires Valid() && p.key !in contents
      modifies this, buckets
      ensures buckets == old(buckets) && Valid()
      ensures contents == old(contents)[p.key := p.value] && numItems == old(numItems) + 1
    {
      slot := Added(buckets, hashCode, contents, slot, p);
      contents := contents[p.key := p.value];
      numItems := numItems + 1;
    }

    /** The rehash of the setter: every stored pair, bucket by bucket and slot by slot, is
        added to a new table with twice as many buckets. */
    method Resize()
      requires Valid()
      modifies this
      ensures Valid() && contents == old(contents) && numItems == old(numItems)
      ensures fresh(buckets) && buckets.Length == 2 * old(buckets.Length)
    {
      var newBuckets;
      newBuckets, slot := Rehashed(buckets, hashCode, contents, slot);
      buckets := newBuckets;
    }

    /** ToDictionary: every stored descriptor's type mapped to its type id. */
    method ToDictionary() returns (m: map<TypeName, uint32>)
      requires Valid()
      ensures m.Keys == set k | k in contents :: contents[k].Type()
      ensures forall t :: t in m ==> exists k :: k in contents && contents[k].Type() == t && m[t] == contents[k].typeId
      ensures (forall k :: k in contents ==> contents[k].Type() == k) ==>
                m == map k | k in contents :: contents[k].typeId
    {
      ghost var bs := buckets[..];
      m := map[];
      ghost var from: map<TypeName, TypeName> := map[];
      var b := 0;
      while b < buckets.Length
        invariant 0 <= b <= buckets.Length
        invariant Listed(bs, hashCode, contents, slot, m, from, b, 0)
      {
        m, from := ListBucket(hashCode, buckets[b], b, bs, contents, slot, m, from);
        b := b + 1;
      }
      ListedAll(bs, hashCode, contents, slot, m, from);
    }
  }

  /** Add on a table that stores contents, for a key absent from it or bound to the same
      descriptor: the table then stores contents with that binding. */
  method Added(buckets: array<Bucket>, hc: TypeName -> int32, ghost contents: map<TypeName, TypeData>,
               ghost slot: map<TypeName, nat>, p: Pair)
    returns (ghost slot': map<TypeName, nat>)
    requires Table(buckets[..], hc, contents, slot) && (p.key in contents ==> contents[p.key] == p.value)
    modifies buckets
    ensures Table(buckets[..], hc, contents[p.key := p.value], slot')
  {
    ghost var t := buckets[..];
    AddKeepsTable(t, hc, contents, slot, p);
    Add(buckets, hc, p);
    slot' := slot[p.key := AddSlot(t[Hash(hc(p.key), |t|)])];
  }

  /** The loop of the rehash over a table that stores contents: a new table of twice as many
      buckets storing the same contents. */
  method Rehashed(buckets: array<Bucket>, hc: TypeName -> int32, ghost contents: map<TypeName, TypeData>,
                  ghost slot: map<TypeName, nat>)
    returns (newBuckets: array<Bucket>, ghost ns: map<TypeName, nat>)
    requires Table(buckets[..], hc, contents, slot)
    ensures fresh(newBuckets) && newBuckets.Length == 2 * buckets.Length
    ensures Table(newBuckets[..], hc, contents, ns)
  {
    ghost var bs := buckets[..];
    newBuckets := EmptyBuckets(2 * buckets.Length);
    EmptyTable(newBuckets[..], hc);
    ghost var nc: map<TypeName, TypeData> := map[];
    ns := map[];
    var b := 0;
    while b < buckets.Length
      modifies newBuckets
      invariant 0 <= b <= buckets.Length
      invariant Table(newBuckets[..], hc, nc, ns)
      invariant Copied(bs, hc, contents, slot, nc, b, 0)
    {
      nc, ns := RehashBucket(newBuckets, hc, buckets[b], b, bs, contents, slot, nc, ns);
      b := b + 1;
    }
    CopiedAll(bs, hc, contents, slot, nc);
  }

  /** One bucket of the rehash: each pair of bucket b (list), slot by slot, added to table nb. */
  method RehashBucket(nb: array<Bucket>, hc: TypeName -> int32, list: Bucket, b: nat, ghost bs: seq<Bucket>,
                      ghost contents: map<TypeName, TypeData>, ghost slot: map<TypeName, nat>,
                      ghost nc: map<TypeName, TypeData>, ghost ns: map<TypeName, nat>)
    returns (ghost nc': map<TypeName, TypeData>, ghost ns': map<TypeName, nat>)
    requires Table(bs, hc, contents, slot) && b < |bs| && list == bs[b]
    requires Table(nb[..], hc, nc, ns) && Copied(bs, hc, contents, slot, nc, b, 0)
    modifies nb
    ensures Table(nb[..], hc, nc', ns') && Copied(bs, hc, contents, slot, nc', b + 1, 0)
  {
    nc', ns' := nc, ns;
    var j := 0;
    while j < |list|
      invariant 0 <= j <= |list|
      invariant Table(nb[..], hc, nc', ns')
      invariant Copied(bs, hc, contents, slot, nc', b, j)
    {
      if list[j].Some? {
        var p := list[j].value;
        assert Stored(bs, hc, contents, b, p);
        nc', ns' := Rehash(nb, hc, p, nc', ns');
      }
      CopiedStep(bs, hc, contents, slot, nc', b, j);
      j := j + 1;
    }
    CopiedBucket(bs, hc, contents, slot, nc', b);
  }

  /** One pair of the rehash, added to table nb. */
  method Rehash(nb: array<Bucket>, hc: TypeName -> int32, p: Pair,
                ghost nc: map<TypeName, TypeData>, ghost ns: map<TypeName, nat>)
    returns (ghost nc': map<TypeName, TypeData>, ghost ns': map<TypeName, nat>)
    requires Table(nb[..], hc, nc, ns) && (p.key in nc ==> nc[p.key] == p.value)
    modifies nb
    ensures Table(nb[..], hc, nc', ns') && nc' == nc[p.key := p.value]
  {
    ns' := Added(nb, hc, nc, ns, p);
    nc' := nc[p.key := p.value];
  }

  /** nc agrees with contents and holds every key stored in bs before slot (b, j). */
  ghost predicate Copied(bs: seq<Bucket>, hc: TypeName -> int32, contents: map<TypeName, TypeData>,
                         slot: map<TypeName, nat>, nc: map<TypeName, TypeData>, b: nat, j: nat)
    requires |bs| > 0
  {
    (forall k :: k in nc ==> k in contents && nc[k] == contents[k]) &&
    (forall k :: k in contents && Before(bs, hc, slot, k, b, j) ==> k in nc)
  }

  lemma CopiedStep(bs: seq<Bucket>, hc: TypeName -> int32, contents: map<TypeName, TypeData>,
                   slot: map<TypeName, nat>, nc: map<TypeName, TypeData>, b: nat, j: nat)
    requires Table(bs, hc, contents, slot) && b < |bs| && j < |bs[b]| && Copied(bs, hc, contents, slot, nc, b, j)
    requires bs[b][j].Some? ==> bs[b][j].value.key in nc
    ensures Copied(bs, hc, contents, slot, nc, b, j + 1)
  {
    forall k | k in contents && Before(bs, hc, slot, k, b, j + 1)
      ensures k in nc
    {
      assert Placed(bs, hc, contents, slot, k);
    }
  }

  lemma CopiedBucket(bs: seq<Bucket>, hc: TypeName -> int32, contents: map<TypeName, TypeData>,
                     slot: map<TypeName, nat>, nc: map<TypeName, TypeData>, b: nat)
    requires Table(bs, hc, contents, slot) && b < |bs| && Copied(bs, hc, contents, slot, nc, b, |bs[b]|)
    ensures Copied(bs, hc, contents, slot, nc, b + 1, 0)
  {
    forall k | k in contents && Before(bs, hc, slot, k, b + 1, 0)
      ensures k in nc
    {
      assert Placed(bs, hc, contents, slot, k);
    }
  }

  lemma CopiedAll(bs: seq<Bucket>, hc: TypeName -> int32, contents: map<TypeName, TypeData>,
                  slot: map<TypeName, nat>, nc: map<TypeName, TypeData>)
    requires Table(bs, hc, contents, slot) && Copied(bs, hc, contents, slot, nc, |bs|, 0)
    ensures nc == contents
  {
    forall k | k in contents
      ensures k in nc
    {
      assert Placed(bs, hc, contents, slot, k);
    }
  }

  /** The pairs of bucket b (list), slot by slot, each adding its descriptor's type and id. */
  method ListBucket(hc: TypeName -> int32, list: Bucket, b: nat, ghost bs: seq<Bucket>,
                    ghost contents: map<TypeName, TypeData>, ghost slot: map<TypeName, nat>,
                    m: map<TypeName, uint32>, ghost from: map<TypeName, TypeName>)
    returns (m': map<TypeName, uint32>, ghost from': map<TypeName, TypeName>)
    requires Table(bs, hc, contents, slot) && b < |bs| && list == bs[b]
    requires Listed(bs, hc, contents, slot, m, from, b, 0)
    ensures Listed(bs, hc, contents, slot, m', from', b + 1, 0)
  {
    m', from' := m, from;
    var j := 0;
    while j < |list|
      invariant 0 <= j <= |list|
      invariant Listed(bs, hc, contents, slot, m', from', b, j)
    {
      if list[j].Some? {
        var td := list[j].value.value;
        assert Stored(bs, hc, contents, b, list[j].value);
        from' := from'[td.Type() := list[j].value.key];
        m' := m'[td.Type() := td.typeId];
      }
      ListedStep(bs, hc, contents, slot, m', from', b, j);
      j := j + 1;
    }
    ListedBucket(bs, hc, contents, slot, m', from', b);
  }

  /** m maps types of descriptors of contents, each to the id of the descriptor from[t], and
      has the type of every descriptor stored in bs before slot (b, j). */
  ghost predicate Listed(bs: seq<Bucket>, hc: TypeName -> int32, contents: map<TypeName, TypeData>,
                         slot: map<TypeName, nat>, m: map<TypeName, uint32>, from: map<TypeName, TypeName>,
                         b: nat, j: nat)
    requires |bs| > 0
  {
    (forall t :: t in m ==> t in from && from[t] in contents && contents[from[t]].Type() == t &&
                            m[t] == contents[from[t]].typeId) &&
    (forall k :: k in contents && Before(bs, hc, slot, k, b, j) ==> contents[k].Type() in m)
  }

  lemma ListedStep(bs: seq<Bucket>, hc: TypeName -> int32, contents: map<TypeName, TypeData>,
                   slot: map<TypeName, nat>, m: map<TypeName, uint32>, from: map<TypeName, TypeName>,
                   b: nat, j: nat)
    requires Table(bs, hc, contents, slot) && b < |bs| && j < |bs[b]| && Listed(bs, hc, contents, slot, m, from, b, j)
    requires bs[b][j].Some? ==> bs[b][j].value.value.Type() in m
    ensures Listed(bs, hc, contents, slot, m, from, b, j + 1)
  {
    forall k | k in contents && Before(bs, hc, slot, k, b, j + 1)
      ensures contents[k].Type() in m
    {
      assert Placed(bs, hc, contents, slot, k);
    }
  }

  lemma ListedBucket(bs: seq<Bucket>, hc: TypeName -> int32, contents: map<TypeName, TypeData>,
                     slot: map<TypeName, nat>, m: map<TypeName, uint32>, from: map<TypeName, TypeName>,
                     b: nat)
    requires Table(bs, hc, contents, slot) && b < |bs| && Listed(bs, hc, contents, slot, m, from, b, |bs[b]|)
    ensures Listed(bs, hc, contents, slot, m, from, b + 1, 0)
  {
    forall k | k in contents && Before(bs, hc, slot, k, b + 1, 0)
      ensures contents[k].Type() in m
    {
      assert Placed(bs, hc, contents, slot, k);
    }
  }

  lemma ListedAll(bs: seq<Bucket>, hc: TypeName -> int32, contents: map<TypeName, TypeData>,
                  slot: map<TypeName, nat>, m: map<TypeName, uint32>, from: map<TypeName, TypeName>)
    requires Table(bs, hc, contents, slot) && Listed(bs, hc, contents, slot, m, from, |bs|, 0)
    ensures m.Keys == set k | k in contents :: contents[k].Type()
    ensures forall t :: t in m ==> exists k :: k in contents && contents[k].Type() == t && m[t] == contents[k].typeId
    ensures (forall k :: k in contents ==> contents[k].Type() == k) ==>
              m == map k | k in contents :: contents[k].typeId
  {
    forall k | k in contents
      ensures contents[k].Type() in m
    {
      assert Placed(bs, hc, contents, slot, k);
    }
    TypesOf(m, from, contents);
  }

  /** A map whose every type comes from a descriptor of contents through `from`, and which has
      the type of every descriptor, has exactly those types, each with its descriptor's id. */
  lemma TypesOf(m: map<TypeName, uint32>, from: map<TypeName, TypeName>, contents: map<TypeName, TypeData>)
    requires forall t :: t in m ==> t in from && from[t] in contents && contents[from[t]].Type() == t &&
                                    m[t] == contents[from[t]].typeId
    requires forall k :: k in contents ==> contents[k].Type() in m
    ensures m.Keys == set k | k in contents :: contents[k].Type()
    ensures forall t :: t in m ==> exists k :: k in contents && contents[k].Type() == t && m[t] == contents[k].typeId
    ensures (forall k :: k in contents ==> contents[k].Type() == k) ==>
              m == map k | k in contents :: contents[k].typeId
  {
    forall t | t in m
      ensures exists k :: k in contents && contents[k].Type() == t && m[t] == contents[k].typeId
    {
      assert from[t] in contents;
    }
    if forall k :: k in contents ==> contents[k].Type() == k {
      SelfKeyed(m, from, contents);
    }
  }

  /** When every descriptor is stored under its own type, the map is contents' ids. */
  lemma SelfKeyed(m: map<TypeName, uint32>, from: map<TypeName, TypeName>, contents: map<TypeName, TypeData>)
    requires forall t :: t in m ==> t in from && from[t] in contents && contents[from[t]].Type() == t &&
                                    m[t] == contents[from[t]].typeId
    requires forall k :: k in contents ==> contents[k].Type() in m
    requires forall k :: k in contents ==> contents[k].Type() == k
    ensures m == map k | k in contents :: contents[k].typeId
  {
    forall t | t in m
      ensures t in contents && m[t] == contents[t].typeId
    {
      assert from[t] == t;
    }
  }

  /** The scan of one bucket for a key, as the getter and TryGetValue loop over it: the
      descriptor of the first pair with that key, or None. */
  method Scan(b: Bucket, key: TypeName) returns (r: Option<TypeData>)
    ensures r.None? <==> forall j :: 0 <= j < |b| ==> !Holds(b, j, key)
    ensures r.Some? ==> exists j :: 0 <= j < |b| && Holds(b, j, key) && b[j].value.value == r.value
  {
    var i := 0;
    while i < |b|
      invariant 0 <= i <= |b|
      invariant forall j :: 0 <= j < i ==> !Holds(b, j, key)
    {
      if b[i].Some? && b[i].value.key == key {
        assert Holds(b, i, key);
        return Some(b[i].value.value);
      }
      i := i + 1;
    }
    return None;
  }

  /** Add: a pair goes into bucket Hash(key) of the table, as AddToBucket says. */
  method Add(buckets: array<Bucket>, hc: TypeName -> int32, p: Pair)
    requires buckets.Length > 0
    modifies buckets
    ensures buckets[..] == AddTo(old(buckets[..]), hc, p)
  {
    var idx := Hash(hc(p.key), buckets.Length);
    var arr := buckets[idx];
    if arr == [] {
      arr := [None];                          // new Pair[InitialListSize]
    }
    var i := 0;
    while i < |arr|
      invariant 0 <= i <= |arr|
      invariant forall j :: 0 <= j < i ==> arr[j].Some?
    {
      if arr[i].None? {
        FirstFreeIs(arr, i);
        buckets[idx] := arr[i := Some(p)];
        return;
      }
      i := i + 1;
    }
    FirstFreeIs(arr, |arr|);
    buckets[idx] := arr + [Some(p)] + Nones(|arr| - 1);
  }

  /** FirstFree is the index of the first empty slot. */
  lemma FirstFreeIs(b: Bucket, i: nat)
    requires i <= |b| && (i < |b| ==> b[i].None?) && forall j :: 0 <= j < i ==> b[j].Some?
    ensures FirstFree(b, 0) == i
  {
  }
}
