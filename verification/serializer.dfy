/** Serializer: type registration and the bookkeeping of routine generation. A serializer
    owns the type -> descriptor dictionary and the id -> descriptor list; registration adds
    descriptors to both, and generation fills each descriptor's routine slots in two passes,
    stubs first and bodies second, so that every body finds the routines it calls. The
    reflection the source performs on System.Type is read from a universe map that gives the
    TypeInfo of every type name. */
module Registry {
  import opened Wrappers
  import opened Bits
  import opened Types
  import opened Helpers
  import opened Handlers
  import opened Routines
  import opened Delegates
  import opened Descriptors
  import opened TypeIds
  import opened TypeDict
  import opened Generation

  const ObjectTypeId: uint32 := 1

  /** What GetSubtypes answers for t under the handler GetTypeSerializer selects for it
      (nothing when no handler is selected). */
  function SubtypesOf(customs: seq<Handler>, builtins: seq<Handler>, t: TypeInfo): Result<seq<TypeName>>
  {
    match GetTypeSerializer(customs, builtins, t)
    case Failure(_) => Success([])
    case Success(h) => GetSubtypes(h, t)
  }

  /** The universe of types: each entry is the TypeInfo of its own name, the subtypes any
      selected handler reports are types of the universe, and `object` is one of them. */
  predicate Universe(u: map<TypeName, TypeInfo>, customs: seq<Handler>, builtins: seq<Handler>)
  {
    ObjectType in u &&
    (forall n :: n in u ==> u[n].name == n) &&
    (forall n {:trigger SubtypesOf(customs, builtins, u[n])} :: n in u && SubtypesOf(customs, builtins, u[n]).Success? ==>
       forall s :: s in SubtypesOf(customs, builtins, u[n]).value ==> s in u)
  }

  /** GetTypeSerializer for every type of u. */
  function Selection(u: map<TypeName, TypeInfo>, customs: seq<Handler>, builtins: seq<Handler>): map<TypeName, Result<Handler>>
  {
    map n | n in u :: GetTypeSerializer(customs, builtins, u[n])
  }

  /** SubtypesOf for every type of u. */
  function SubtypesTable(u: map<TypeName, TypeInfo>, customs: seq<Handler>, builtins: seq<Handler>): map<TypeName, Result<seq<TypeName>>>
  {
    map n | n in u :: SubtypesOf(customs, builtins, u[n])
  }

  /** Tables read in place of handler selection and GetSubtypes: they cover u, selection
      fails only with NotSupportedException, GetSubtypes only with ArgumentException or
      IndexOutOfRangeException, and the subtypes reported are types of u. */
  predicate TablesOf(u: map<TypeName, TypeInfo>, selection: map<TypeName, Result<Handler>>,
                     subtypes: map<TypeName, Result<seq<TypeName>>>)
  {
    Closed(u, subtypes) &&
    (forall n :: n in u ==> n in selection && n in subtypes) &&
    (forall n :: n in selection && selection[n].Failure? ==> selection[n].error == NotSupported) &&
    (forall n :: n in subtypes && subtypes[n].Failure? ==> subtypes[n].error in {Argument, IndexOutOfRange})
  }

  /** The tables of a universe have those properties. */
  lemma TablesHold(u: map<TypeName, TypeInfo>, customs: seq<Handler>, builtins: seq<Handler>)
    requires Universe(u, customs, builtins)
    ensures TablesOf(u, Selection(u, customs, builtins), SubtypesTable(u, customs, builtins))
  {
    SelectionFails(u, customs, builtins);
    SubtypesClosed(u, customs, builtins);
    SubtypesFail(u, customs, builtins);
  }

  /** Handler selection fails only with NotSupportedException. */
  lemma SelectionFails(u: map<TypeName, TypeInfo>, customs: seq<Handler>, builtins: seq<Handler>)
    ensures var sel := Selection(u, customs, builtins);
            forall n :: n in sel && sel[n].Failure? ==> sel[n].error == NotSupported
  {
    var sel := Selection(u, customs, builtins);
    forall n | n in sel && sel[n].Failure?
      ensures sel[n].error == NotSupported
    {
      TypeSerializerFirstMatch(customs, builtins, u[n]);
    }
  }

  /** The subtypes of the table are types of the universe. */
  lemma SubtypesClosed(u: map<TypeName, TypeInfo>, customs: seq<Handler>, builtins: seq<Handler>)
    requires Universe(u, customs, builtins)
    ensures Closed(u, SubtypesTable(u, customs, builtins))
  {
    var subs := SubtypesTable(u, customs, builtins);
    forall n | n in subs && subs[n].Success?
      ensures forall s :: s in subs[n].value ==> s in u
    {
      assert subs[n] == SubtypesOf(customs, builtins, u[n]);
    }
  }

  /** GetSubtypes fails only with ArgumentException or IndexOutOfRangeException. */
  lemma SubtypesFail(u: map<TypeName, TypeInfo>, customs: seq<Handler>, builtins: seq<Handler>)
    ensures var subs := SubtypesTable(u, customs, builtins);
            forall n :: n in subs && subs[n].Failure? ==> subs[n].error in {Argument, IndexOutOfRange}
  {
  }

  /** The same closure, read from the table of subtypes: every subtype a handler reports
      is a type of the universe. */
  predicate Closed(u: map<TypeName, TypeInfo>, subtypes: map<TypeName, Result<seq<TypeName>>>)
  {
    ObjectType in u &&
    (forall n :: n in u ==> u[n].name == n) &&
    (forall n :: n in subtypes && subtypes[n].Success? ==> forall s :: s in subtypes[n].value ==> s in u)
  }

  /** The subtypes reported for one type are types of the universe. */
  lemma SubtypesIn(u: map<TypeName, TypeInfo>, subtypes: map<TypeName, Result<seq<TypeName>>>, t: TypeName,
                   known: set<TypeName>)
    requires Closed(u, subtypes) && t in subtypes && subtypes[t].Success?
    ensures forall x :: x in Unknown(subtypes[t].value, known) ==> x in u
  {
  }

  /** Settings.CustomTypeSerializers.All(s => s is IDynamicTypeSerializer || s is IStaticTypeSerializer). */
  predicate AllStaticOrDynamic(hs: seq<Handler>)
  {
    forall i :: 0 <= i < |hs| ==> IsStatic(hs[i]) || IsDynamic(hs[i])
  }

  /** The checks AddTypesInternal(typeMap) makes on one entry (t, id) before it registers
      t: Failure(e) when the entry is rejected, Success(true) when t is already registered
      under id (nothing to do), Success(false) when t is to be registered under id. */
  function Screen(u: map<TypeName, TypeInfo>, tm: map<TypeName, TypeData>, il: map<nat, TypeData>,
                  t: TypeName, id: uint32): Result<bool>
    requires t in u
  {
    if id == 0 then Failure(Argument)
    else if t in tm then (if tm[t].typeId != id then Failure(Argument) else Success(true))
    else if id as nat in il then Failure(Argument)
    else if AbstractOrInterface(u[t]) then Failure(Argument)
    else if u[t].containsGenericParameters then Failure(NotSupported)
    else Success(false)
  }

  /** The entry checks, one by one: id 0 is reserved; a registered type is accepted again
      only under the id it has; an id the list holds is taken; abstract types and interfaces
      are refused, open generic types not supported. An entry that passes names a type that
      is neither registered nor abstract, an interface or open generic, and a free id that
      is not 0. */
  lemma ScreenCases(u: map<TypeName, TypeInfo>, tm: map<TypeName, TypeData>, il: map<nat, TypeData>,
                    t: TypeName, id: uint32)
    requires t in u
    ensures id == 0 ==> Screen(u, tm, il, t, id) == Failure(Argument)
    ensures id != 0 && t in tm ==>
              Screen(u, tm, il, t, id) == if tm[t].typeId == id then Success(true) else Failure(Argument)
    ensures id != 0 && t !in tm && id as nat in il ==> Screen(u, tm, il, t, id) == Failure(Argument)
    ensures id != 0 && t !in tm && AbstractOrInterface(u[t]) ==> Screen(u, tm, il, t, id).Failure?
    ensures id != 0 && t !in tm && id as nat !in il && !AbstractOrInterface(u[t]) && u[t].containsGenericParameters ==>
              Screen(u, tm, il, t, id) == Failure(NotSupported)
    ensures Screen(u, tm, il, t, id) == Success(false) <==>
              id != 0 && t !in tm && id as nat !in il && !AbstractOrInterface(u[t]) && !u[t].containsGenericParameters
    ensures Screen(u, tm, il, t, id) == Success(true) <==> id != 0 && t in tm && tm[t].typeId == id
  {
  }

  /** The types named by the first k of a sequence of (type, id) entries. */
  function EntryTypes(entries: seq<(TypeName, uint32)>, k: nat): set<TypeName>
    requires k <= |entries|
  {
    set i | 0 <= i < k :: entries[i].0
  }

  /** The types added while the entry k is handled are types of the first k + 1 entries. */
  lemma EntryKeys(K0: set<TypeName>, K: set<TypeName>, K': set<TypeName>, entries: seq<(TypeName, uint32)>, k: nat)
    requires k < |entries| && K <= K0 + EntryTypes(entries, k) && K' <= K + {entries[k].0}
    ensures K' <= K0 + EntryTypes(entries, k + 1)
  {
    assert EntryTypes(entries, k + 1) == EntryTypes(entries, k) + {entries[k].0};
  }

  /** One entry names its own type. */
  lemma EntryTypesOne(entries: seq<(TypeName, uint32)>)
    requires |entries| == 1
    ensures EntryTypes(entries, 1) == {entries[0].0}
  {
    assert entries[0].0 in EntryTypes(entries, 1);
  }

  /** More entries name more types. */
  lemma EntryTypesGrow(entries: seq<(TypeName, uint32)>, j: nat, k: nat)
    requires j <= k <= |entries|
    ensures EntryTypes(entries, j) <= EntryTypes(entries, k)
  {
  }

  /** Adding an entry to a dictionary keeps the others. */
  lemma UpdateKeeps(tm: map<TypeName, TypeData>, t: TypeName, d: TypeData)
    requires t !in tm
    ensures KeepsTypes(tm, tm[t := d]) && tm[t := d].Keys == tm.Keys + {t}
  {
    forall n | HasType(tm, n)
      ensures HasType(tm[t := d], n) && tm[t := d][n] == tm[n]
    {
    }
  }

  /** One entry of AddTypesInternal(typeMap), as its loop sees it: the entries before it
      are still registered under their ids, and the dictionary still grows only by the
      types of the entries. */
  lemma EntryStep(tm0: map<TypeName, TypeData>, tm: map<TypeName, TypeData>, tm': map<TypeName, TypeData>,
                  entries: seq<(TypeName, uint32)>, k: nat)
    requires k < |entries| && KeepsTypes(tm0, tm) && KeepsTypes(tm, tm')
    requires forall i :: 0 <= i < k ==> HasType(tm, entries[i].0) && tm[entries[i].0].typeId == entries[i].1
    requires tm.Keys <= tm0.Keys + EntryTypes(entries, k) && tm'.Keys <= tm.Keys + {entries[k].0}
    requires entries[k].0 in tm' && tm'[entries[k].0].typeId == entries[k].1
    ensures KeepsTypes(tm0, tm')
    ensures forall i :: 0 <= i < k + 1 ==> HasType(tm', entries[i].0) && tm'[entries[i].0].typeId == entries[i].1
    ensures tm'.Keys <= tm0.Keys + EntryTypes(entries, k + 1)
  {
    KeepsTrans(tm0, tm, tm', map[], map[], map[]);
    EntryKeys(tm0.Keys, tm.Keys, tm'.Keys, entries, k);
    forall i | 0 <= i < k
      ensures HasType(tm', entries[i].0) && tm'[entries[i].0].typeId == entries[i].1
    {
      assert HasType(tm, entries[i].0);
    }
  }

  /** The types of u not in registered. */
  function Unregistered(u: map<TypeName, TypeInfo>, registered: set<TypeName>): set<TypeName>
  {
    u.Keys - registered
  }

  /** Registering one more type of the universe leaves fewer unregistered ones. */
  lemma UnregisteredShrinks(u: map<TypeName, TypeInfo>, registered: set<TypeName>, t: TypeName)
    requires t in u && t !in registered
    ensures |Unregistered(u, registered + {t})| < |Unregistered(u, registered)|
  {
    assert Unregistered(u, registered) == Unregistered(u, registered + {t}) + {t};
  }

  /** id is an id of the list; the quantifiers below fire only on this term, so that
      the stores' other lookups do not instantiate them. */
  predicate HasId(il: map<nat, TypeData>, id: nat)
  {
    id in il
  }

  /** n is a key of the dictionary (the trigger of the quantifiers over keys). */
  predicate HasType(tm: map<TypeName, TypeData>, n: TypeName)
  {
    n in tm
  }

  /** The two stores agree: every id of the list names the descriptor registered under its
      type, and every registered descriptor whose id fits the list is there under its id. */
  ghost predicate Agree(tm: map<TypeName, TypeData>, il: map<nat, TypeData>)
  {
    (forall id {:trigger HasId(il, id)} :: HasId(il, id) ==> il[id].Type() in tm && tm[il[id].Type()] == il[id]) &&
    (forall n {:trigger HasType(tm, n)} :: HasType(tm, n) && tm[n].typeId < IdLimit ==>
       tm[n].typeId as nat in il && il[tm[n].typeId as nat] == tm[n])
  }

  /** d is a descriptor registration may build for type n. */
  ghost predicate Registered(u: map<TypeName, TypeInfo>, selection: map<TypeName, Result<Handler>>,
                             n: TypeName, d: TypeData)
  {
    n in u && d.info == u[n] && !AbstractOrInterface(u[n]) && !u[n].containsGenericParameters &&
    n in selection && selection[n] == Success(d.handler)
  }

  /** Every registered descriptor is one registration may build. */
  ghost predicate AllRegistered(u: map<TypeName, TypeInfo>, selection: map<TypeName, Result<Handler>>,
                                tm: map<TypeName, TypeData>)
  {
    forall n {:trigger HasType(tm, n)} :: HasType(tm, n) ==> Registered(u, selection, n, tm[n])
  }

  /** Storing a descriptor d for a new type t, with an id the list does not hold, keeps both
      invariants; the list takes d only when its id is below 2^30. */
  lemma StoreKeeps(u: map<TypeName, TypeInfo>, selection: map<TypeName, Result<Handler>>,
                   tm: map<TypeName, TypeData>, il: map<nat, TypeData>, t: TypeName, d: TypeData,
                   il': map<nat, TypeData>)
    requires AllRegistered(u, selection, tm) && Agree(tm, il)
    requires Registered(u, selection, t, d) && d.Type() == t && t !in tm
    requires d.typeId as nat !in il
    requires il' == if d.typeId < IdLimit then il[d.typeId as nat := d] else il
    ensures AllRegistered(u, selection, tm[t := d]) && Agree(tm[t := d], il')
  {
    var tm' := tm[t := d];
    forall n | HasType(tm', n)
      ensures Registered(u, selection, n, tm'[n])
      ensures tm'[n].typeId < IdLimit ==> tm'[n].typeId as nat in il' && il'[tm'[n].typeId as nat] == tm'[n]
    {
      if n != t {
        assert HasType(tm, n);
      }
    }
    forall id | HasId(il', id)
      ensures il'[id].Type() in tm' && tm'[il'[id].Type()] == il'[id]
    {
      if id != d.typeId as nat {
        assert HasId(il, id);
      }
    }
  }

  /** The types of subs not in known, in order: what AddTypesInternal(roots) pushes after
      registering a type. */
  function Unknown(subs: seq<TypeName>, known: set<TypeName>): (r: seq<TypeName>)
    ensures forall x :: x in r <==> x in subs && x !in known
  {
    if subs == [] then []
    else Unknown(subs[..|subs| - 1], known) + (if subs[|subs| - 1] in known then [] else [subs[|subs| - 1]])
  }


  /** AddTypesInternal(roots) still owes nothing for want: it is registered, abstract or an
      interface, or still on the stack. */
  predicate Pending(u: map<TypeName, TypeInfo>, registered: set<TypeName>, stack: seq<TypeName>, want: TypeName)
  {
    want in registered || (want in u && AbstractOrInterface(u[want])) || want in stack
  }

  /** Every entry of the dictionary tm0 is still in tm. */
  ghost predicate KeepsTypes(tm0: map<TypeName, TypeData>, tm: map<TypeName, TypeData>)
  {
    forall n {:trigger HasType(tm0, n)} :: HasType(tm0, n) ==> HasType(tm, n) && tm[n] == tm0[n]
  }

  /** Every entry of the id list il0 is still in il. */
  ghost predicate KeepsIds(il0: map<nat, TypeData>, il: map<nat, TypeData>)
  {
    forall id {:trigger HasId(il0, id)} :: HasId(il0, id) ==> HasId(il, id) && il[id] == il0[id]
  }

  /** Keeping entries is transitive. */
  lemma KeepsTrans(tm0: map<TypeName, TypeData>, tm1: map<TypeName, TypeData>, tm2: map<TypeName, TypeData>,
                   il0: map<nat, TypeData>, il1: map<nat, TypeData>, il2: map<nat, TypeData>)
    requires KeepsTypes(tm0, tm1) && KeepsTypes(tm1, tm2) && KeepsIds(il0, il1) && KeepsIds(il1, il2)
    ensures KeepsTypes(tm0, tm2) && KeepsIds(il0, il2)
  {
    forall n | HasType(tm0, n)
      ensures HasType(tm2, n) && tm2[n] == tm0[n]
    {
      assert HasType(tm1, n);
    }
    forall id | HasId(il0, id)
      ensures HasId(il2, id) && il2[id] == il0[id]
    {
      assert HasId(il1, id);
    }
  }

  /** What AddTypesInternal(roots) has registered so far, over the stores' contents: tm0,
      il0 and next0 are the dictionary, the list and the id counter when it was called, tm, il
      and next those now, and added maps each type it registered to its id. Both stores kept
      their old entries; the new keys are those of added; each was given an id below 2^30,
      not in the list before and taken from the counter, and is in the list under that id. */
  ghost predicate Admitted(u: map<TypeName, TypeInfo>, tm0: map<TypeName, TypeData>, il0: map<nat, TypeData>,
                        next0: uint32, tm: map<TypeName, TypeData>, il: map<nat, TypeData>, next: uint32,
                        added: map<TypeName, uint32>)
  {
    KeepsTypes(tm0, tm) && KeepsIds(il0, il) && added.Keys == tm.Keys - tm0.Keys && next0 <= next &&
    forall n :: n in added ==>
      n in u && HasType(tm, n) && tm[n].typeId == added[n] && added[n] < IdLimit &&
      HasId(il, added[n] as nat) && il[added[n] as nat] == tm[n] &&
      next0 <= added[n] < next && added[n] as nat !in il0
  }

  /** The stores after entering the new type t under id: every old entry is kept, t is the
      one new key, and its descriptor has id, which is below 2^30, and is in the list under
      it. */
  ghost predicate Entered(tm: map<TypeName, TypeData>, il: map<nat, TypeData>, t: TypeName, id: uint32,
                          tm': map<TypeName, TypeData>, il': map<nat, TypeData>)
  {
    t !in tm && KeepsTypes(tm, tm') && KeepsIds(il, il') && tm'.Keys == tm.Keys + {t} &&
    t in tm' && tm'[t].typeId == id && id < IdLimit && id as nat in il' && il'[id as nat] == tm'[t]
  }

  /** Adding t to the dictionary and id to the list, both new, is entering t under id. */
  lemma EnteredByUpdate(tm: map<TypeName, TypeData>, il: map<nat, TypeData>, t: TypeName, id: uint32, d: TypeData)
    requires t !in tm && id as nat !in il && d.typeId == id && id < IdLimit
    ensures Entered(tm, il, t, id, tm[t := d], il[id as nat := d])
  {
    var tm', il' := tm[t := d], il[id as nat := d];
    forall n | HasType(tm, n)
      ensures HasType(tm', n) && tm'[n] == tm[n]
    {
    }
    forall i | HasId(il, i)
      ensures HasId(il', i) && il'[i] == il[i]
    {
    }
    assert tm'.Keys == tm.Keys + {t};
  }

  /** The stores and the counter after registering the new type t of u under id: t was
      entered under id, which the counter had not passed and the list did not hold, and the
      counter is now past it. */
  ghost predicate Registration(u: map<TypeName, TypeInfo>, tm: map<TypeName, TypeData>, il: map<nat, TypeData>,
                               next: uint32, t: TypeName, id: uint32, tm': map<TypeName, TypeData>,
                               il': map<nat, TypeData>, next': uint32)
  {
    t in u && Entered(tm, il, t, id, tm', il') && next <= id && id as nat !in il && next' as nat == id as nat + 1
  }

  /** One more type t registered under id keeps Admitted. */
  lemma AdmittedStep(u: map<TypeName, TypeInfo>, tm0: map<TypeName, TypeData>, il0: map<nat, TypeData>, next0: uint32,
                  tm: map<TypeName, TypeData>, il: map<nat, TypeData>, next: uint32, added: map<TypeName, uint32>,
                  t: TypeName, id: uint32, tm': map<TypeName, TypeData>, il': map<nat, TypeData>, next': uint32)
    requires Admitted(u, tm0, il0, next0, tm, il, next, added)
    requires Registration(u, tm, il, next, t, id, tm', il', next')
    ensures Admitted(u, tm0, il0, next0, tm', il', next', added[t := id])
  {
    KeepsTrans(tm0, tm, tm', il0, il, il');
    assert t !in tm0 by {
      if t in tm0 {
        assert HasType(tm0, t);
      }
    }
    assert added[t := id].Keys == tm'.Keys - tm0.Keys;
    assert id as nat !in il0 by {
      if id as nat in il0 {
        assert HasId(il0, id as nat);
      }
    }
    forall n | n in added[t := id]
      ensures n in u && HasType(tm', n) && tm'[n].typeId == added[t := id][n] && added[t := id][n] < IdLimit &&
              HasId(il', added[t := id][n] as nat) && il'[added[t := id][n] as nat] == tm'[n] &&
              next0 <= added[t := id][n] < next' && added[t := id][n] as nat !in il0
    {
      if n != t {
        assert HasType(tm, n) && HasId(il, added[n] as nat);
      }
    }
  }

  /** What AddTypesInternal(roots) still owes, with K the registered types: every root and
      every subtype reported for a type it registered is Pending. */
  predicate Owed(u: map<TypeName, TypeInfo>, subtypes: map<TypeName, Result<seq<TypeName>>>, roots: seq<TypeName>,
                 added: map<TypeName, uint32>, K: set<TypeName>, stack: seq<TypeName>)
  {
    (forall i :: 0 <= i < |roots| ==> Pending(u, K, stack, roots[i])) &&
    (forall n, s :: n in added && n in subtypes && subtypes[n].Success? && s in subtypes[n].value ==>
       Pending(u, K, stack, s))
  }

  /** Popping a type that is registered, abstract or an interface keeps Owed. */
  lemma OwedSkip(u: map<TypeName, TypeInfo>, subtypes: map<TypeName, Result<seq<TypeName>>>, roots: seq<TypeName>,
                 added: map<TypeName, uint32>, K: set<TypeName>, stack: seq<TypeName>, t: TypeName)
    requires Owed(u, subtypes, roots, added, K, stack + [t])
    requires t in K || (t in u && AbstractOrInterface(u[t]))
    ensures Owed(u, subtypes, roots, added, K, stack)
  {
    forall i | 0 <= i < |roots|
      ensures Pending(u, K, stack, roots[i])
    {
      PendingPop(u, K, stack, t, roots[i]);
    }
    forall n, s | n in added && n in subtypes && subtypes[n].Success? && s in subtypes[n].value
      ensures Pending(u, K, stack, s)
    {
      PendingPop(u, K, stack, t, s);
    }
  }

  /** Pending survives popping t when t is registered, abstract or an interface. */
  lemma PendingPop(u: map<TypeName, TypeInfo>, K: set<TypeName>, stack: seq<TypeName>, t: TypeName, want: TypeName)
    requires Pending(u, K, stack + [t], want)
    requires t in K || (t in u && AbstractOrInterface(u[t]))
    ensures Pending(u, K, stack, want)
  {
    if want in stack + [t] && want != t {
      assert want in stack;
    }
  }

  /** Pending survives popping t, registering it and pushing pushed. */
  lemma PendingPush(u: map<TypeName, TypeInfo>, K: set<TypeName>, stack: seq<TypeName>, t: TypeName,
                    pushed: seq<TypeName>, want: TypeName)
    requires Pending(u, K, stack + [t], want)
    ensures Pending(u, K + {t}, stack + pushed, want)
  {
    if want in stack + [t] && want != t {
      assert want in stack;
    }
  }

  /** When the stack is empty nothing is owed: every root and every subtype reported for a
      registered type is registered, abstract or an interface. */
  lemma OwedNothing(u: map<TypeName, TypeInfo>, subtypes: map<TypeName, Result<seq<TypeName>>>, roots: seq<TypeName>,
                    added: map<TypeName, uint32>, K: set<TypeName>)
    requires Owed(u, subtypes, roots, added, K, [])
    ensures forall i :: 0 <= i < |roots| ==> roots[i] in K || (roots[i] in u && AbstractOrInterface(u[roots[i]]))
    ensures forall n, s :: n in added && n in subtypes && subtypes[n].Success? && s in subtypes[n].value ==>
              s in K || (s in u && AbstractOrInterface(u[s]))
  {
    forall n, s | n in added && n in subtypes && subtypes[n].Success? && s in subtypes[n].value
      ensures s in K || (s in u && AbstractOrInterface(u[s]))
    {
      assert Pending(u, K, [], s);
    }
  }

  /** A non-empty stack is its top pushed on the rest. */
  lemma Pop(stack: seq<TypeName>)
    requires stack != []
    ensures stack == stack[..|stack| - 1] + [stack[|stack| - 1]]
  {
  }

  /** Popping t, registering it under id and pushing its unregistered subtypes keeps Owed. */
  lemma OwedStep(u: map<TypeName, TypeInfo>, subtypes: map<TypeName, Result<seq<TypeName>>>, roots: seq<TypeName>,
                 added: map<TypeName, uint32>, K: set<TypeName>, stack: seq<TypeName>, t: TypeName, id: uint32,
                 K': set<TypeName>, pushed: seq<TypeName>)
    requires Owed(u, subtypes, roots, added, K, stack + [t])
    requires K' == K + {t} && t in subtypes && subtypes[t].Success? && pushed == Unknown(subtypes[t].value, K')
    ensures Owed(u, subtypes, roots, added[t := id], K', stack + pushed)
  {
    forall i | 0 <= i < |roots|
      ensures Pending(u, K', stack + pushed, roots[i])
    {
      PendingPush(u, K, stack, t, pushed, roots[i]);
    }
    forall n, s | n in added[t := id] && n in subtypes && subtypes[n].Success? && s in subtypes[n].value
      ensures Pending(u, K', stack + pushed, s)
    {
      if n == t {
        if s !in K' {
          assert s in pushed;
        }
      } else {
        PendingPush(u, K, stack, t, pushed, s);
      }
    }
  }

  /** One registration in the worklist of AddTypesInternal(roots), as the loop's invariants
      see it: the type t popped from rest + [t] is entered under id, and its subtypes that
      are still unknown are pushed. */
  lemma Advance(u: map<TypeName, TypeInfo>, subtypes: map<TypeName, Result<seq<TypeName>>>, roots: seq<TypeName>,
                tm0: map<TypeName, TypeData>, il0: map<nat, TypeData>, next0: uint32,
                tm: map<TypeName, TypeData>, il: map<nat, TypeData>, next: uint32, added: map<TypeName, uint32>,
                rest: seq<TypeName>, t: TypeName, id: uint32,
                tm': map<TypeName, TypeData>, il': map<nat, TypeData>, next': uint32, pushed: seq<TypeName>)
    requires Admitted(u, tm0, il0, next0, tm, il, next, added)
    requires Owed(u, subtypes, roots, added, tm.Keys, rest + [t])
    requires Registration(u, tm, il, next, t, id, tm', il', next')
    requires t in subtypes && subtypes[t].Success? && pushed == Unknown(subtypes[t].value, tm'.Keys)
    requires (forall x :: x in rest ==> x in u) && (forall x :: x in pushed ==> x in u)
    ensures forall x :: x in rest + pushed ==> x in u
    ensures Admitted(u, tm0, il0, next0, tm', il', next', added[t := id])
    ensures Owed(u, subtypes, roots, added[t := id], tm'.Keys, rest + pushed)
  {
    AdmittedStep(u, tm0, il0, next0, tm, il, next, added, t, id, tm', il', next');
    OwedStep(u, subtypes, roots, added, tm.Keys, rest, t, id, tm'.Keys, pushed);
  }

  /** Every registered descriptor is the descriptor of its own type. */
  lemma NamedDescriptors(u: map<TypeName, TypeInfo>, selection: map<TypeName, Result<Handler>>,
                         tm: map<TypeName, TypeData>)
    requires AllRegistered(u, selection, tm) && forall n :: n in u ==> u[n].name == n
    ensures forall n :: n in tm ==> tm[n].Type() == n
  {
    forall n | n in tm
      ensures tm[n].Type() == n
    {
      assert HasType(tm, n);
    }
  }

  /** A set of types that holds every subtype of each of its members that is neither
      abstract nor an interface. */
  ghost predicate ClosedUnder(u: map<TypeName, TypeInfo>, subtypes: map<TypeName, Result<seq<TypeName>>>,
                              B: set<TypeName>)
  {
    forall x :: x in B && x in u && !AbstractOrInterface(u[x]) && x in subtypes && subtypes[x].Success? ==>
      forall s :: s in subtypes[x].value ==> s in B
  }

  /** What Collect(root) returns: registered types, none abstract or an interface, each with
      its subtypes collected unless they are abstract or interfaces; the root unless it is
      abstract or an interface; and nothing that a set closed under subtypes and holding the
      root does not hold. */
  ghost predicate Collected(u: map<TypeName, TypeInfo>, subtypes: map<TypeName, Result<seq<TypeName>>>,
                            tm: map<TypeName, TypeData>, root: TypeName, C: set<TypeName>)
  {
    root in u &&
    (forall x :: x in C ==>
       x in u && HasType(tm, x) && !AbstractOrInterface(u[x]) && x in subtypes && subtypes[x].Success? &&
       forall s :: s in subtypes[x].value ==> Pending(u, C, [], s)) &&
    (!AbstractOrInterface(u[root]) ==> root in C) &&
    (forall B {:trigger ClosedUnder(u, subtypes, B)} :: root in B && ClosedUnder(u, subtypes, B) ==> C <= B)
  }

  /** The loop invariant of Collect(root), with l the set built so far. */
  ghost predicate Gathering(u: map<TypeName, TypeInfo>, subtypes: map<TypeName, Result<seq<TypeName>>>,
                            tm: map<TypeName, TypeData>, root: TypeName, l: set<TypeName>, stack: seq<TypeName>)
  {
    root in u && Closed(u, subtypes) && l <= u.Keys && (forall x :: x in stack ==> x in u) &&
    (forall x :: x in l ==>
       HasType(tm, x) && !AbstractOrInterface(u[x]) && x in subtypes && subtypes[x].Success? &&
       forall s :: s in subtypes[x].value ==> Pending(u, l, stack, s)) &&
    Pending(u, l, stack, root) &&
    (forall B {:trigger ClosedUnder(u, subtypes, B)} :: root in B && ClosedUnder(u, subtypes, B) ==>
       l <= B && forall x :: x in stack ==> x in B)
  }

  /** The number of entries of a stack that are in l. */
  function CountIn(stack: seq<TypeName>, l: set<TypeName>): nat
  {
    if stack == [] then 0
    else CountIn(stack[..|stack| - 1], l) + (if stack[|stack| - 1] in l then 1 else 0)
  }

  /** Pushing types that are not in l leaves the count unchanged. */
  lemma {:induction false} CountInPush(stack: seq<TypeName>, pushed: seq<TypeName>, l: set<TypeName>)
    requires forall x :: x in pushed ==> x !in l
    ensures CountIn(stack + pushed, l) == CountIn(stack, l)
    decreases |pushed|
  {
    if pushed != [] {
      var init, last := pushed[..|pushed| - 1], pushed[|pushed| - 1];
      var s := stack + pushed;
      assert s[..|s| - 1] == stack + init && s[|s| - 1] == last;
      assert last in pushed;
      CountInPush(stack, init, l);
    } else {
      assert stack + pushed == stack;
    }
  }

  /** Collect starts with the root alone on the stack. */
  lemma GatheringStart(u: map<TypeName, TypeInfo>, subtypes: map<TypeName, Result<seq<TypeName>>>,
                       tm: map<TypeName, TypeData>, root: TypeName)
    requires root in u && Closed(u, subtypes)
    ensures Gathering(u, subtypes, tm, root, {}, [root])
  {
  }

  /** A popped abstract type or interface is dropped. */
  lemma GatheringSkip(u: map<TypeName, TypeInfo>, subtypes: map<TypeName, Result<seq<TypeName>>>,
                      tm: map<TypeName, TypeData>, root: TypeName, l: set<TypeName>, stack: seq<TypeName>, t: TypeName)
    requires Gathering(u, subtypes, tm, root, l, stack + [t]) && AbstractOrInterface(u[t])
    ensures Gathering(u, subtypes, tm, root, l, stack)
    ensures t !in l
  {
    forall x, s | x in l && s in subtypes[x].value
      ensures Pending(u, l, stack, s)
    {
      PendingPop(u, l, stack, t, s);
    }
    PendingPop(u, l, stack, t, root);
    forall B | root in B && ClosedUnder(u, subtypes, B)
      ensures l <= B && forall x :: x in stack ==> x in B
    {
      assert forall x :: x in stack ==> x in stack + [t];
    }
  }

  /** The measure of Collect's loop goes down from (l, stack) to (l', stack'): fewer
      unregistered types, or as many and fewer stack entries already in l, or as many of
      both and a shorter stack. */
  ghost predicate Shrinks(u: map<TypeName, TypeInfo>, l: set<TypeName>, stack: seq<TypeName>, l': set<TypeName>, stack': seq<TypeName>)
  {
    |Unregistered(u, l')| < |Unregistered(u, l)| ||
    (l' == l && CountIn(stack', l) < CountIn(stack, l)) ||
    (l' == l && CountIn(stack', l) == CountIn(stack, l) && |stack'| < |stack|)
  }

  /** Dropping a popped abstract type or interface keeps Gathering and shortens the stack. */
  lemma GatherSkips(u: map<TypeName, TypeInfo>, subtypes: map<TypeName, Result<seq<TypeName>>>,
                    tm: map<TypeName, TypeData>, root: TypeName, l: set<TypeName>, rest: seq<TypeName>, t: TypeName)
    requires Gathering(u, subtypes, tm, root, l, rest + [t]) && AbstractOrInterface(u[t])
    ensures Gathering(u, subtypes, tm, root, l, rest)
    ensures Shrinks(u, l, rest + [t], l, rest)
  {
    GatheringSkip(u, subtypes, tm, root, l, rest, t);
    assert (rest + [t])[..|rest|] == rest;
  }

  /** Registering a popped type and pushing its subtypes not in l keeps Gathering and lowers
      the measure. */
  lemma GatherAdds(u: map<TypeName, TypeInfo>, subtypes: map<TypeName, Result<seq<TypeName>>>,
                   tm: map<TypeName, TypeData>, root: TypeName, l: set<TypeName>, rest: seq<TypeName>,
                   t: TypeName, subs: seq<TypeName>)
    requires Gathering(u, subtypes, tm, root, l, rest + [t])
    requires !AbstractOrInterface(u[t]) && HasType(tm, t) && t in subtypes && subtypes[t] == Success(subs)
    ensures Gathering(u, subtypes, tm, root, l + {t}, rest + Unknown(subs, l))
    ensures Shrinks(u, l, rest + [t], l + {t}, rest + Unknown(subs, l))
  {
    GatheringAdd(u, subtypes, tm, root, l, rest, t, Unknown(subs, l));
    if t in l {
      CountInPush(rest, Unknown(subs, l), l);
      assert (rest + [t])[..|rest|] == rest;
      assert l + {t} == l;
    } else {
      assert t in rest + [t];
      UnregisteredShrinks(u, l, t);
    }
  }

  /** A popped registered type joins l, and its subtypes not in l go on the stack. */
  lemma GatheringAdd(u: map<TypeName, TypeInfo>, subtypes: map<TypeName, Result<seq<TypeName>>>,
                     tm: map<TypeName, TypeData>, root: TypeName, l: set<TypeName>, stack: seq<TypeName>,
                     t: TypeName, pushed: seq<TypeName>)
    requires Gathering(u, subtypes, tm, root, l, stack + [t])
    requires !AbstractOrInterface(u[t]) && HasType(tm, t) && t in subtypes && subtypes[t].Success?
    requires pushed == Unknown(subtypes[t].value, l)
    ensures Gathering(u, subtypes, tm, root, l + {t}, stack + pushed)
  {
    var l' := l + {t};
    forall x, s | x in l' && x in subtypes && subtypes[x].Success? && s in subtypes[x].value
      ensures Pending(u, l', stack + pushed, s)
    {
      if x in l {
        PendingPush(u, l, stack, t, pushed, s);
      }
    }
    PendingPush(u, l, stack, t, pushed, root);
    forall B | root in B && ClosedUnder(u, subtypes, B)
      ensures l' <= B && forall x :: x in stack + pushed ==> x in B
    {
      assert t in stack + [t];
      assert forall x :: x in stack ==> x in stack + [t];
    }
    assert forall x :: x in pushed ==> x in u;
  }

  /** When the stack is empty, l is what Collect returns. */
  lemma GatheringDone(u: map<TypeName, TypeInfo>, subtypes: map<TypeName, Result<seq<TypeName>>>,
                      tm: map<TypeName, TypeData>, root: TypeName, l: set<TypeName>)
    requires Gathering(u, subtypes, tm, root, l, [])
    ensures Collected(u, subtypes, tm, root, l)
  {
  }

  class Serializer {
    const universe: map<TypeName, TypeInfo>
    const customs: seq<Handler>          // Settings.CustomTypeSerializers
    const builtins: seq<Handler>         // the static TypeSerializers table
    const callbacks: bool                // Settings.SupportSerializationCallbacks
    const typeMap: TypeDictionary        // _runtimeTypeMap
    const idList: TypeIdList             // _runtimeTypeIdList
    var nextId: uint32                   // _nextAvailableTypeId

    /** The handler GetTypeSerializer selects for each type of the universe, and what that
        handler's GetSubtypes answers for it; both are pure, and are tabulated when the
        serializer is built (see Reflects). */
    const selection: map<TypeName, Result<Handler>>
    const subtypes: map<TypeName, Result<seq<TypeName>>>

    /** The tables hold what GetTypeSerializer and GetSubtypes answer. */
    ghost predicate Reflects()
    {
      selection == Selection(universe, customs, builtins) && subtypes == SubtypesTable(universe, customs, builtins)
    }

    /** Both stores are well formed and agree: every registered type is a type of the universe
        that is neither abstract nor an interface nor open generic, with the descriptor built
        from its TypeInfo and the handler selected for it; every id of the list names a
        registered descriptor; every registered descriptor whose id fits the list is there
        under its id. Handler selection fails only with NotSupportedException. */
    ghost predicate Valid()
      reads typeMap, typeMap.buckets, idList, idList.arr
    {
      Tables() && typeMap.Valid() && idList.Valid() &&
      AllRegistered(universe, selection, typeMap.contents) &&
      Agree(typeMap.contents, idList.contents)
    }

    /** The tables have the properties TablesOf states. */
    ghost predicate Tables()
    {
      TablesOf(universe, selection, subtypes)
    }

    /** The registered descriptors. */
    ghost function Descs(): set<TypeData>
      reads typeMap
    {
      set n | n in typeMap.contents :: typeMap.contents[n]
    }

    /** The stores a new serializer starts with: both empty, the id counter at 1. */
    constructor Empty(universe: map<TypeName, TypeInfo>, hashCode: TypeName -> int32, customs: seq<Handler>,
                      builtins: seq<Handler>, callbacks: bool)
      requires Universe(universe, customs, builtins)
      ensures Valid() && Reflects()
      ensures fresh(typeMap) && fresh(typeMap.buckets) && fresh(idList) && fresh(idList.arr)
      ensures this.universe == universe && this.customs == customs && this.builtins == builtins
      ensures this.callbacks == callbacks
      ensures typeMap.contents == map[] && idList.contents == map[] && nextId == 1
    {
      this.universe := universe;
      this.customs := customs;
      this.builtins := builtins;
      this.callbacks := callbacks;
      selection := Selection(universe, customs, builtins);
      subtypes := SubtypesTable(universe, customs, builtins);
      typeMap := new TypeDictionary(hashCode);
      idList := new TypeIdList();
      nextId := 1;
      new;
      TablesHold(universe, customs, builtins);
    }

    /** The tail of both AddTypesInternal overloads: a new descriptor for t with id and
        handler h goes into the dictionary, then into the id list, which throws
        OutOfMemoryException for an id from 2^30 to 2^31 - 1 (the grown array would be
        longer than Array.MaxLength) and ArgumentException from 2^31 on, and leaves the
        descriptor in the dictionary only. */
    method Store(t: TypeName, id: uint32, h: Handler) returns (data: TypeData, r: Result<()>)
      requires Valid() && t in universe && t !in typeMap.contents && id as nat !in idList.contents
      requires !AbstractOrInterface(universe[t]) && !universe[t].containsGenericParameters
      requires t in selection && selection[t] == Success(h)
      modifies typeMap, typeMap.buckets, idList, idList.arr
      ensures Valid()
      ensures fresh(data) && data.Empty() && data.info == universe[t] && data.typeId == id && data.handler == h
      ensures typeMap.contents == old(typeMap.contents)[t := data]
      ensures r.Success? <==> id < IdLimit
      ensures idList.contents == if r.Success? then old(idList.contents)[id as nat := data] else old(idList.contents)
      ensures r.Failure? ==> r.error == GrowError(id)
      ensures typeMap.buckets == old(typeMap.buckets) || fresh(typeMap.buckets)
      ensures idList.arr == old(idList.arr) || fresh(idList.arr)
    {
      data := new TypeData(universe[t], id, h);
      r := Place(t, data);
    }

    /** Dictionary first, list second, for a descriptor registration may build. */
    method Place(t: TypeName, data: TypeData) returns (r: Result<()>)
      requires Valid() && t !in typeMap.contents && data.typeId as nat !in idList.contents
      requires Registered(universe, selection, t, data)
      modifies typeMap, typeMap.buckets, idList, idList.arr
      ensures Valid()
      ensures typeMap.contents == old(typeMap.contents)[t := data]
      ensures r.Success? <==> data.typeId < IdLimit
      ensures idList.contents == if r.Success? then old(idList.contents)[data.typeId as nat := data] else old(idList.contents)
      ensures r.Failure? ==> r.error == GrowError(data.typeId)
      ensures typeMap.buckets == old(typeMap.buckets) || fresh(typeMap.buckets)
      ensures idList.arr == old(idList.arr) || fresh(idList.arr)
    {
      ghost var tm, il := typeMap.contents, idList.contents;
      typeMap.Set(t, data);
      r := idList.Set(data.typeId, data);
      StoreKeeps(universe, selection, tm, il, t, data, idList.contents);
    }

    /** Registration of one type the stores do not hold, with a given id: the handler is
        selected (NotSupportedException when none takes the type) and the descriptor stored;
        the selected handler is returned. */
    method Enter(t: TypeName, id: uint32) returns (r: Result<Handler>)
      requires Valid() && t in universe && t !in typeMap.contents && id as nat !in idList.contents
      requires !AbstractOrInterface(universe[t]) && !universe[t].containsGenericParameters
      modifies typeMap, typeMap.buckets, idList, idList.arr
      ensures Valid()
      ensures typeMap.buckets == old(typeMap.buckets) || fresh(typeMap.buckets)
      ensures idList.arr == old(idList.arr) || fresh(idList.arr)
      ensures selection[t].Failure? ==>
                r == Failure(NotSupported) &&
                typeMap.contents == old(typeMap.contents) && idList.contents == old(idList.contents)
      ensures selection[t].Success? ==>
                t in typeMap.contents && typeMap.contents == old(typeMap.contents)[t := typeMap.contents[t]] &&
                fresh(typeMap.contents[t]) && typeMap.contents[t].Empty() && typeMap.contents[t].typeId == id &&
                idList.contents == if id < IdLimit then old(idList.contents)[id as nat := typeMap.contents[t]]
                                   else old(idList.contents)
      ensures r.Success? <==> selection[t].Success? && id < IdLimit
      ensures r.Success? ==> selection[t] == r
      ensures r.Failure? ==> r.error == (if selection[t].Failure? then NotSupported else GrowError(id))
    {
      var h :- selection[t];
      var data, stored := Store(t, id, h);
      if stored.Failure? {
        return Failure(stored.error);
      }
      r := Success(h);
    }

    /** One entry (t, id) of AddTypesInternal(typeMap): it is checked as Screen says, then
        registered as Enter does; the dictionary may keep t when the list refuses id. */
    method AddEntry(t: TypeName, id: uint32) returns (r: Result<()>)
      requires Valid() && t in universe
      modifies typeMap, typeMap.buckets, idList, idList.arr
      ensures Valid()
      ensures typeMap.buckets == old(typeMap.buckets) || fresh(typeMap.buckets)
      ensures idList.arr == old(idList.arr) || fresh(idList.arr)
      ensures KeepsTypes(old(typeMap.contents), typeMap.contents)
      ensures typeMap.contents.Keys <= old(typeMap.contents).Keys + {t}
      ensures forall n :: n in typeMap.contents && n !in old(typeMap.contents) ==> fresh(typeMap.contents[n])
      ensures Screen(universe, old(typeMap.contents), old(idList.contents), t, id) != Success(false) ==>
                r == (match Screen(universe, old(typeMap.contents), old(idList.contents), t, id)
                      case Success(_) => Success(())
                      case Failure(e) => Failure(e)) &&
                typeMap.contents == old(typeMap.contents) && idList.contents == old(idList.contents)
      ensures Screen(universe, old(typeMap.contents), old(idList.contents), t, id) == Success(false) ==>
                (selection[t].Failure? ==> r == Failure(NotSupported) && typeMap.contents == old(typeMap.contents)) &&
                (selection[t].Success? ==>
                   (r.Success? <==> id < IdLimit) &&
                   (r.Success? ==> Entered(old(typeMap.contents), old(idList.contents), t, id,
                                           typeMap.contents, idList.contents)) &&
                   (r.Failure? ==> r == Failure(GrowError(id)) && t in typeMap.contents &&
                                   typeMap.contents[t].typeId == id && idList.contents == old(idList.contents)))
      ensures r.Success? ==> t in typeMap.contents && typeMap.contents[t].typeId == id
      ensures r.Failure? ==> r.error in {Argument, NotSupported, OutOfMemory}
      ensures r == Failure(OutOfMemory) ==> id >= IdLimit
    {
      ghost var tm, il := typeMap.contents, idList.contents;
      ScreenCases(universe, tm, il, t, id);
      if id == 0 {
        return Failure(Argument);
      }
      var known := typeMap.ContainsKey(t);
      if known {
        var data := typeMap.Get(t);
        if data.value.typeId != id {
          return Failure(Argument);
        }
        return Success(());
      }
      if idList.ContainsTypeId(id) {
        return Failure(Argument);
      }
      if AbstractOrInterface(universe[t]) {
        return Failure(Argument);
      }
      if universe[t].containsGenericParameters {
        return Failure(NotSupported);
      }
      var h := Enter(t, id);
      if t in typeMap.contents {
        UpdateKeeps(tm, t, typeMap.contents[t]);
        if h.Success? {
          EnteredByUpdate(tm, il, t, id, typeMap.contents[t]);
        }
      }
      r := if h.Success? then Success(()) else Failure(h.error);
    }

    /** AddTypesInternal(typeMap): the entries in the dictionary's order, each one checked
        and registered; the first exception ends the loop, with the entries before it
        registered. On success every entry's type is registered under the entry's id, and
        no other type was added. The id counter is not touched. */
    method AddTypeMap(entries: seq<(TypeName, uint32)>) returns (r: Result<()>)
      requires Valid() && forall i :: 0 <= i < |entries| ==> entries[i].0 in universe
      modifies typeMap, typeMap.buckets, idList, idList.arr
      ensures Valid()
      ensures typeMap.buckets == old(typeMap.buckets) || fresh(typeMap.buckets)
      ensures idList.arr == old(idList.arr) || fresh(idList.arr)
      ensures KeepsTypes(old(typeMap.contents), typeMap.contents)
      ensures typeMap.contents.Keys <= old(typeMap.contents).Keys + EntryTypes(entries, |entries|)
      ensures forall n :: n in typeMap.contents && n !in old(typeMap.contents) ==> fresh(typeMap.contents[n])
      ensures forall n :: n in typeMap.contents ==> typeMap.contents[n] in old(Descs()) || fresh(typeMap.contents[n])
      ensures r.Success? ==>
                forall i :: 0 <= i < |entries| ==>
                  entries[i].0 in typeMap.contents && typeMap.contents[entries[i].0].typeId == entries[i].1
      ensures r.Failure? ==> r.error in {Argument, NotSupported, OutOfMemory}
      ensures r == Failure(OutOfMemory) ==> exists i :: 0 <= i < |entries| && entries[i].1 >= IdLimit
    {
      ghost var tm := typeMap.contents;
      r := EnterEntries(entries);
      OldOrFresh(tm);
    }

    /** The loop of AddTypesInternal(typeMap). */
    method EnterEntries(entries: seq<(TypeName, uint32)>) returns (r: Result<()>)
      requires Valid() && forall i :: 0 <= i < |entries| ==> entries[i].0 in universe
      modifies typeMap, typeMap.buckets, idList, idList.arr
      ensures Valid()
      ensures typeMap.buckets == old(typeMap.buckets) || fresh(typeMap.buckets)
      ensures idList.arr == old(idList.arr) || fresh(idList.arr)
      ensures KeepsTypes(old(typeMap.contents), typeMap.contents)
      ensures typeMap.contents.Keys <= old(typeMap.contents).Keys + EntryTypes(entries, |entries|)
      ensures forall n :: n in typeMap.contents && n !in old(typeMap.contents) ==> fresh(typeMap.contents[n])
      ensures r.Success? ==>
                forall i :: 0 <= i < |entries| ==>
                  entries[i].0 in typeMap.contents && typeMap.contents[entries[i].0].typeId == entries[i].1
      ensures r.Failure? ==> r.error in {Argument, NotSupported, OutOfMemory}
      ensures r == Failure(OutOfMemory) ==> exists i :: 0 <= i < |entries| && entries[i].1 >= IdLimit
    {
      var k := 0;
      while k < |entries|
        invariant k <= |entries| && Valid()
        invariant typeMap.buckets == old(typeMap.buckets) || fresh(typeMap.buckets)
        invariant idList.arr == old(idList.arr) || fresh(idList.arr)
        invariant KeepsTypes(old(typeMap.contents), typeMap.contents)
        invariant typeMap.contents.Keys <= old(typeMap.contents).Keys + EntryTypes(entries, k)
        invariant forall n :: n in typeMap.contents && n !in old(typeMap.contents) ==> fresh(typeMap.contents[n])
        invariant forall i :: 0 <= i < k ==>
                    HasType(typeMap.contents, entries[i].0) && typeMap.contents[entries[i].0].typeId == entries[i].1
      {
        ghost var tm := typeMap.contents;
        var step := AddEntry(entries[k].0, entries[k].1);
        forall n | n in typeMap.contents && n !in old(typeMap.contents)
          ensures fresh(typeMap.contents[n])
        {
          if HasType(tm, n) {
            assert HasType(tm, n);
          }
        }
        if step.Success? {
          EntryStep(old(typeMap.contents), tm, typeMap.contents, entries, k);
        } else {
          KeepsTrans(old(typeMap.contents), tm, typeMap.contents, map[], map[], map[]);
          EntryKeys(old(typeMap.contents).Keys, tm.Keys, typeMap.contents.Keys, entries, k);
          EntryTypesGrow(entries, k + 1, |entries|);
          return Failure(step.error);
        }
        k := k + 1;
      }
      return Success(());
    }

    /** The id AddTypesInternal(roots) gives the next type it registers: the counter first
        moves past every id the list holds, then the id is consumed. */
    method TakeId() returns (id: uint32)
      requires Valid()
      modifies this
      ensures Valid() && old(nextId) <= id && id as nat !in idList.contents
      ensures forall i: nat :: old(nextId) <= i < id ==> i in idList.contents
      ensures nextId as nat == if id == 0xFFFF_FFFF then 0 else id as nat + 1
    {
      id := idList.NextFree(nextId);
      nextId := if id == 0xFFFF_FFFF then 0 else id + 1;   // uint arithmetic wraps
    }

    /** The push loop of AddTypesInternal(roots): every subtype that is not yet a key of the
        dictionary goes on the stack. */
    method PushUnknown(stack: seq<TypeName>, subs: seq<TypeName>) returns (s: seq<TypeName>)
      requires typeMap.Valid()
      ensures s == stack + Unknown(subs, typeMap.contents.Keys)
    {
      s := stack;
      for i := 0 to |subs|
        invariant s == stack + Unknown(subs[..i], typeMap.contents.Keys)
      {
        assert subs[..i + 1][..i] == subs[..i];
        var known := typeMap.ContainsKey(subs[i]);
        if !known {
          s := s + [subs[i]];
        }
      }
      assert subs[..|subs|] == subs;
    }

    /** Registration of one popped type in AddTypesInternal(roots): Enter under the next id,
        then the type's subtypes. */
    method Admit(t: TypeName, id: uint32) returns (r: Result<seq<TypeName>>)
      requires Valid() && t in universe && t !in typeMap.contents && id as nat !in idList.contents
      requires !AbstractOrInterface(universe[t]) && !universe[t].containsGenericParameters
      modifies typeMap, typeMap.buckets, idList, idList.arr
      ensures Valid()
      ensures typeMap.buckets == old(typeMap.buckets) || fresh(typeMap.buckets)
      ensures idList.arr == old(idList.arr) || fresh(idList.arr)
      ensures selection[t].Failure? ==>
                typeMap.contents == old(typeMap.contents) && idList.contents == old(idList.contents)
      ensures selection[t].Success? ==>
                t in typeMap.contents && typeMap.contents == old(typeMap.contents)[t := typeMap.contents[t]] &&
                fresh(typeMap.contents[t]) && typeMap.contents[t].Empty() && typeMap.contents[t].typeId == id &&
                idList.contents == if id < IdLimit then old(idList.contents)[id as nat := typeMap.contents[t]]
                                   else old(idList.contents)
      ensures r.Success? ==>
                selection[t].Success? && r == subtypes[t] &&
                Entered(old(typeMap.contents), old(idList.contents), t, id, typeMap.contents, idList.contents)
      ensures r.Failure? ==> r.error in {NotSupported, Argument, IndexOutOfRange, OutOfMemory}
    {
      ghost var tm, il := typeMap.contents, idList.contents;
      var h :- Enter(t, id);
      EnteredByUpdate(tm, il, t, id, typeMap.contents[t]);
      r := subtypes[t];
    }

    /** The registration of one popped type in AddTypesInternal(roots), after its checks:
        the next free id is taken, the type entered under it, and its subtypes that are not
        registered are returned, to be pushed. */
    method Register(t: TypeName) returns (r: Result<(uint32, seq<TypeName>)>)
      requires Valid() && t in universe && t !in typeMap.contents
      requires !AbstractOrInterface(universe[t]) && !universe[t].containsGenericParameters
      modifies this, typeMap, typeMap.buckets, idList, idList.arr
      ensures Valid()
      ensures typeMap.buckets == old(typeMap.buckets) || fresh(typeMap.buckets)
      ensures idList.arr == old(idList.arr) || fresh(idList.arr)
      ensures KeepsTypes(old(typeMap.contents), typeMap.contents)
      ensures forall n :: n in typeMap.contents && n !in old(typeMap.contents) ==> fresh(typeMap.contents[n])
      ensures t in typeMap.contents ==> typeMap.contents[t].Empty()
      ensures r.Success? ==>
                Registration(universe, old(typeMap.contents), old(idList.contents), old(nextId), t, r.value.0,
                             typeMap.contents, idList.contents, nextId) &&
                subtypes[t].Success? && r.value.1 == Unknown(subtypes[t].value, typeMap.contents.Keys) &&
                forall x :: x in r.value.1 ==> x in universe
      ensures r.Failure? ==> r.error in {NotSupported, Argument, IndexOutOfRange, OutOfMemory}
    {
      var id := TakeId();
      var subs :- Admit(t, id);
      var pushed := PushUnknown([], subs);
      SubtypesIn(universe, subtypes, t, typeMap.contents.Keys);
      r := Success((id, pushed));
    }

    /** One turn of the loop of AddTypesInternal(roots): the top of the stack is popped; a
        type that is registered, abstract or an interface is skipped; an open generic one
        throws NotSupportedException; any other descends. tm0, il0 and next0 are the stores
        and the counter when AddTypesInternal was called, and added what it has registered
        since. */
    method Visit(ghost tm0: map<TypeName, TypeData>, ghost il0: map<nat, TypeData>, ghost next0: uint32,
                 ghost roots: seq<TypeName>, stack: seq<TypeName>, added: map<TypeName, uint32>)
      returns (r: Result<(seq<TypeName>, map<TypeName, uint32>)>)
      requires Valid() && stack != [] && forall x :: x in stack ==> x in universe
      requires Admitted(universe, tm0, il0, next0, typeMap.contents, idList.contents, nextId, added)
      requires Owed(universe, subtypes, roots, added, typeMap.contents.Keys, stack)
      modifies this, typeMap, typeMap.buckets, idList, idList.arr
      ensures Valid()
      ensures typeMap.buckets == old(typeMap.buckets) || fresh(typeMap.buckets)
      ensures idList.arr == old(idList.arr) || fresh(idList.arr)
      ensures KeepsTypes(old(typeMap.contents), typeMap.contents)
      ensures forall n :: n in typeMap.contents && n !in old(typeMap.contents) ==> fresh(typeMap.contents[n])
      ensures r.Success? ==>
                (forall x :: x in r.value.0 ==> x in universe) &&
                Admitted(universe, tm0, il0, next0, typeMap.contents, idList.contents, nextId, r.value.1) &&
                Owed(universe, subtypes, roots, r.value.1, typeMap.contents.Keys, r.value.0)
      ensures r.Success? ==>
                |Unregistered(universe, typeMap.contents.Keys)| < |Unregistered(universe, old(typeMap.contents).Keys)| ||
                (typeMap.contents == old(typeMap.contents) && |r.value.0| < |stack|)
      ensures r.Failure? ==> r.error in {NotSupported, Argument, IndexOutOfRange, OutOfMemory}
    {
      var t := stack[|stack| - 1];
      Pop(stack);
      var rest := stack[..|stack| - 1];
      var known := typeMap.ContainsKey(t);
      if known || AbstractOrInterface(universe[t]) {
        OwedSkip(universe, subtypes, roots, added, typeMap.contents.Keys, rest, t);
        return Success((rest, added));
      }
      if universe[t].containsGenericParameters {
        return Failure(NotSupported);
      }
      r := Descend(tm0, il0, next0, roots, rest, added, t);
    }

    /** The registration of a popped type in AddTypesInternal(roots): t is registered under
        the next free id and its unregistered subtypes are pushed on the rest of the stack. */
    method Descend(ghost tm0: map<TypeName, TypeData>, ghost il0: map<nat, TypeData>, ghost next0: uint32,
                   ghost roots: seq<TypeName>, rest: seq<TypeName>, added: map<TypeName, uint32>, t: TypeName)
      returns (r: Result<(seq<TypeName>, map<TypeName, uint32>)>)
      requires Valid() && (forall x :: x in rest ==> x in universe) && t in universe && t !in typeMap.contents
      requires !AbstractOrInterface(universe[t]) && !universe[t].containsGenericParameters
      requires Admitted(universe, tm0, il0, next0, typeMap.contents, idList.contents, nextId, added)
      requires Owed(universe, subtypes, roots, added, typeMap.contents.Keys, rest + [t])
      modifies this, typeMap, typeMap.buckets, idList, idList.arr
      ensures Valid()
      ensures typeMap.buckets == old(typeMap.buckets) || fresh(typeMap.buckets)
      ensures idList.arr == old(idList.arr) || fresh(idList.arr)
      ensures KeepsTypes(old(typeMap.contents), typeMap.contents)
      ensures forall n :: n in typeMap.contents && n !in old(typeMap.contents) ==> fresh(typeMap.contents[n])
      ensures r.Success? ==>
                (forall x :: x in r.value.0 ==> x in universe) &&
                Admitted(universe, tm0, il0, next0, typeMap.contents, idList.contents, nextId, r.value.1) &&
                Owed(universe, subtypes, roots, r.value.1, typeMap.contents.Keys, r.value.0)
      ensures r.Success? ==>
                |Unregistered(universe, typeMap.contents.Keys)| < |Unregistered(universe, old(typeMap.contents).Keys)|
      ensures r.Failure? ==> r.error in {NotSupported, Argument, IndexOutOfRange, OutOfMemory}
    {
      ghost var tm, il, next := typeMap.contents, idList.contents, nextId;
      UnregisteredShrinks(universe, tm.Keys, t);
      var step := Register(t);
      if step.Failure? {
        return Failure(step.error);
      }
      var id := step.value.0;
      Advance(universe, subtypes, roots, tm0, il0, next0, tm, il, next, added, rest, t, id,
              typeMap.contents, idList.contents, nextId, step.value.1);
      r := Success((rest + step.value.1, added[t := id]));
    }

    /** AddTypesInternal(roots): a worklist over a stack, the last root on top, each turn a
        Visit. The result maps each type this call registered to its id. */
    method AddRoots(roots: seq<TypeName>) returns (r: Result<map<TypeName, uint32>>)
      requires Valid() && forall i :: 0 <= i < |roots| ==> roots[i] in universe
      modifies this, typeMap, typeMap.buckets, idList, idList.arr
      ensures Valid()
      ensures typeMap.buckets == old(typeMap.buckets) || fresh(typeMap.buckets)
      ensures idList.arr == old(idList.arr) || fresh(idList.arr)
      ensures KeepsTypes(old(typeMap.contents), typeMap.contents)
      ensures forall n :: n in typeMap.contents && n !in old(typeMap.contents) ==> fresh(typeMap.contents[n])
      ensures r.Success? ==>
                Admitted(universe, old(typeMap.contents), old(idList.contents), old(nextId),
                         typeMap.contents, idList.contents, nextId, r.value)
      ensures r.Success? ==> Owed(universe, subtypes, roots, r.value, typeMap.contents.Keys, [])
      ensures r.Failure? ==> r.error in {NotSupported, Argument, IndexOutOfRange, OutOfMemory}
      ensures forall n :: n in typeMap.contents ==> typeMap.contents[n] in old(Descs()) || fresh(typeMap.contents[n])
    {
      ghost var tm, il := typeMap.contents, idList.contents;
      assert KeepsTypes(tm, tm) && KeepsIds(il, il);
      r := Drain(tm, il, nextId, roots, roots, map[]);
      OldOrFresh(tm);
    }

    /** The turns of AddTypesInternal from the given stack on, added holding the types the
        turns before registered. */
    method Drain(ghost tm0: map<TypeName, TypeData>, ghost il0: map<nat, TypeData>, ghost next0: uint32,
                 ghost roots: seq<TypeName>, stack: seq<TypeName>, added: map<TypeName, uint32>)
      returns (r: Result<map<TypeName, uint32>>)
      requires Valid() && forall x :: x in stack ==> x in universe
      requires Admitted(universe, tm0, il0, next0, typeMap.contents, idList.contents, nextId, added)
      requires Owed(universe, subtypes, roots, added, typeMap.contents.Keys, stack)
      modifies this, typeMap, typeMap.buckets, idList, idList.arr
      ensures Valid()
      ensures typeMap.buckets == old(typeMap.buckets) || fresh(typeMap.buckets)
      ensures idList.arr == old(idList.arr) || fresh(idList.arr)
      ensures KeepsTypes(old(typeMap.contents), typeMap.contents)
      ensures forall n :: n in typeMap.contents && n !in old(typeMap.contents) ==> fresh(typeMap.contents[n])
      ensures r.Success? ==> Admitted(universe, tm0, il0, next0, typeMap.contents, idList.contents, nextId, r.value)
      ensures r.Success? ==> Owed(universe, subtypes, roots, r.value, typeMap.contents.Keys, [])
      ensures r.Failure? ==> r.error in {NotSupported, Argument, IndexOutOfRange, OutOfMemory}
    {
      var stack, added := stack, added;
      while stack != []
        invariant Valid()
        invariant typeMap.buckets == old(typeMap.buckets) || fresh(typeMap.buckets)
        invariant idList.arr == old(idList.arr) || fresh(idList.arr)
        invariant forall x :: x in stack ==> x in universe
        invariant KeepsTypes(old(typeMap.contents), typeMap.contents)
        invariant Admitted(universe, tm0, il0, next0, typeMap.contents, idList.contents, nextId, added)
        invariant forall n :: n in typeMap.contents && n !in old(typeMap.contents) ==> fresh(typeMap.contents[n])
        invariant Owed(universe, subtypes, roots, added, typeMap.contents.Keys, stack)
        decreases |Unregistered(universe, typeMap.contents.Keys)|, |stack|
      {
        ghost var tm := typeMap.contents;
        var v := Visit(tm0, il0, next0, roots, stack, added);
        forall n | n in typeMap.contents && n !in old(typeMap.contents)
          ensures fresh(typeMap.contents[n])
        {
          if HasType(tm, n) {
            assert HasType(tm, n);
          }
        }
        KeepsTrans(old(typeMap.contents), tm, typeMap.contents, map[], map[], map[]);
        if v.Failure? {
          return Failure(v.error);
        }
        stack, added := v.value.0, v.value.1;
      }
      return Success(added);
    }

    /** The slots of every registered descriptor. */
    ghost function AllSlots(): SlotMap
      reads typeMap, Descs()
    {
      map n | n in typeMap.contents :: typeMap.contents[n].Snapshot()
    }

    /** GetIndirectData(t): the descriptor of t when t is registered and may be called
        directly, object's descriptor otherwise. */
    method GetIndirectData(t: TypeName) returns (r: Result<TypeData>)
      requires Sound()
      ensures t in typeMap.contents && typeMap.contents[t].CanCallDirect() ==> r == Success(typeMap.contents[t])
      ensures !(t in typeMap.contents && typeMap.contents[t].CanCallDirect()) ==>
                r == if ObjectType in typeMap.contents then Success(typeMap.contents[ObjectType]) else Failure(KeyNotFound)
      ensures r.Success? <==> Indirect(typeMap.contents, t).Success?
      ensures r.Success? ==> r.value == typeMap.contents[Indirect(typeMap.contents, t).value]
    {
      var found, data := typeMap.TryGetValue(t);
      if !found || !data.CanCallDirect() {
        r := typeMap.Get(ObjectType);
        return;
      }
      return Success(data);
    }

    /** GetDirectWriter(t) / GetDirectReader(t): the routine slot of t's descriptor. */
    method GetDirectRoutine(dir: Direction, t: TypeName) returns (r: Result<Option<MethodInfo>>)
      requires Sound()
      ensures r.Success? <==> t in typeMap.contents
      ensures r.Success? ==> r.value == AllSlots()[t].Routine(dir)
      ensures r.Failure? ==> r.error == KeyNotFound
    {
      var data :- typeMap.Get(t);
      return Success(data.Routine(dir));
    }

    /** The push loop of Collect: every subtype not in l goes on the stack. */
    method PushAbsent(stack: seq<TypeName>, subs: seq<TypeName>, l: set<TypeName>) returns (s: seq<TypeName>)
      ensures s == stack + Unknown(subs, l)
    {
      s := stack;
      for i := 0 to |subs|
        invariant s == stack + Unknown(subs[..i], l)
      {
        assert subs[..i + 1][..i] == subs[..i];
        if subs[i] !in l {
          s := s + [subs[i]];
        }
      }
      assert subs[..|subs|] == subs;
    }

    /** One turn of Collect's loop: pop a type; drop it when it is abstract or an interface;
        otherwise fail for an open generic or an unregistered type, push its subtypes not in l
        and add it to l. */
    method Gather(root: TypeName, l: set<TypeName>, stack: seq<TypeName>) returns (r: Result<(set<TypeName>, seq<TypeName>)>)
      requires Valid() && stack != [] && Gathering(universe, subtypes, typeMap.contents, root, l, stack)
      ensures r.Success? ==> Gathering(universe, subtypes, typeMap.contents, root, r.value.0, r.value.1)
      ensures r.Success? ==> Shrinks(universe, l, stack, r.value.0, r.value.1)
      ensures r.Failure? ==> r.error in {NotSupported, KeyNotFound, Argument, IndexOutOfRange}
    {
      var t := stack[|stack| - 1];
      Pop(stack);
      var rest := stack[..|stack| - 1];
      if AbstractOrInterface(universe[t]) {
        GatherSkips(universe, subtypes, typeMap.contents, root, l, rest, t);
        return Success((l, rest));
      }
      if universe[t].containsGenericParameters {
        return Failure(NotSupported);
      }
      var data := typeMap.Get(t);
      if data.Failure? {
        return Failure(data.error);
      }
      var subs :- subtypes[t];
      var pushed := PushAbsent(rest, subs, l);
      GatherAdds(universe, subtypes, typeMap.contents, root, l, rest, t, subs);
      return Success((l + {t}, pushed));
    }

    /** Collect(root): a worklist over a stack and a set, dropping abstract types and
        interfaces, with the subtypes of each type from its registered handler. */
    method Collect(root: TypeName) returns (r: Result<set<TypeName>>)
      requires Valid() && root in universe
      ensures r.Success? ==> Collected(universe, subtypes, typeMap.contents, root, r.value)
      ensures r.Failure? ==> r.error in {NotSupported, KeyNotFound, Argument, IndexOutOfRange}
    {
      var l: set<TypeName> := {};
      var stack := [root];
      GatheringStart(universe, subtypes, typeMap.contents, root);
      while stack != []
        invariant Gathering(universe, subtypes, typeMap.contents, root, l, stack)
        decreases |Unregistered(universe, l)|, CountIn(stack, l), |stack|
      {
        var step := Gather(root, l, stack);
        if step.Failure? {
          return Failure(step.error);
        }
        l, stack := step.value.0, step.value.1;
      }
      GatheringDone(universe, subtypes, typeMap.contents, root, l);
      return Success(l);
    }

    /** What code generation relies on: the dictionary is well formed and every descriptor
        is registered under its own type, so distinct types have distinct descriptors. */
    ghost predicate Sound()
      reads typeMap, typeMap.buckets
    {
      typeMap.Valid() && forall n :: n in typeMap.contents ==> typeMap.contents[n].Type() == n
    }

    lemma Named()
      requires Valid()
      ensures Sound()
    {
      NamedDescriptors(universe, selection, typeMap.contents);
    }

    /** Both stores are objects apart from the descriptors, so filling slots keeps them valid. */
    twostate lemma StoresKept()
      requires old(Valid()) && unchanged(typeMap, idList) && unchanged(old(typeMap.buckets), old(idList.arr))
      ensures Valid() && Sound()
    {
      Named();
    }

    /** After registration, each descriptor is one registered before or a new object. */
    twostate lemma OldOrFresh(tm0: map<TypeName, TypeData>)
      requires tm0 == old(typeMap.contents) && KeepsTypes(tm0, typeMap.contents)
      requires forall n :: n in typeMap.contents && n !in tm0 ==> fresh(typeMap.contents[n])
      ensures forall n :: n in typeMap.contents ==> typeMap.contents[n] in old(Descs()) || fresh(typeMap.contents[n])
    {
      forall n | n in typeMap.contents
        ensures typeMap.contents[n] in old(Descs()) || fresh(typeMap.contents[n])
      {
        if n in tm0 {
          assert HasType(tm0, n);
        }
      }
    }

    /** A change to the descriptor of x alone changes the slots of x alone. */
    twostate lemma OneChanged(x: TypeName)
      requires old(Sound()) && unchanged(typeMap) && x in typeMap.contents
      requires forall n :: n in typeMap.contents && typeMap.contents[n] != typeMap.contents[x] ==> unchanged(typeMap.contents[n])
      ensures AllSlots() == old(AllSlots())[x := typeMap.contents[x].Snapshot()]
    {
      forall n | n in typeMap.contents && n != x
        ensures typeMap.contents[n].Snapshot() == old(typeMap.contents[n].Snapshot())
      {
        assert typeMap.contents[n].Type() != typeMap.contents[x].Type();
      }
    }

    /** GenerateWriterStub(x) / GenerateReaderStub(x): the routine of x becomes its
        handler's static routine or a new dynamic stub. */
    method GenerateStub(dir: Direction, x: TypeName) returns (r: Result<()>)
      requires Sound() && x in typeMap.contents && typeMap.contents[x].Routine(dir).None?
      modifies typeMap.contents[x]
      ensures r.Success? <==> StubFor(dir, typeMap.contents[x]).Success?
      ensures r.Success? ==>
                AllSlots() == old(AllSlots())[x := old(AllSlots())[x].WithRoutine(dir, StubFor(dir, typeMap.contents[x]).value)]
      ensures r.Failure? ==> r.error == StubFor(dir, typeMap.contents[x]).error && AllSlots() == old(AllSlots())
    {
      var g := typeMap.Get(x);
      var data := g.value;
      var h := data.handler;
      var m: MethodInfo;
      if IsStatic(h) {
        m :- GetStaticRoutine(h, dir, data.info);
      } else if IsDynamic(h) {
        m := DynamicStub(dir, data.Type());   // Helpers.GenerateDynamicSerializerStub(type)
      } else {
        return Failure(Unexpected);
      }
      data.SetRoutine(dir, m);
      OneChanged(x);
      return Success(());
    }

    /** One step of the field loop of GenerateWriterMethod / GenerateReaderMethod: the
        descriptor GetIndirectData gives for the field's declared type, and whether its
        routine takes the serializer. */
    method CalleeFor(dir: Direction, f: FieldInfo) returns (r: Result<Callee>)
      requires Sound()
      ensures r == FieldCallee(typeMap.contents, AllSlots(), dir, f)
      ensures AllSlots() == old(AllSlots())
    {
      var data :- GetIndirectData(f.fieldType);
      var needs :- data.NeedsInstanceOf(dir);
      return Success(Callee(data.Routine(dir).value, needs));
    }

    /** The field loop of GenerateWriterMethod / GenerateReaderMethod, over the fields in
        order. */
    method FieldCallees(dir: Direction, fields: seq<FieldInfo>) returns (r: Result<seq<Callee>>)
      requires Sound()
      ensures r == CalleesOf(typeMap.contents, AllSlots(), dir, fields)
    {
      ghost var tm, s := typeMap.contents, AllSlots();
      var callees: seq<Callee> := [];
      for i := 0 to |fields|
        invariant typeMap.contents == tm && AllSlots() == s
        invariant CalleesOf(tm, s, dir, fields[..i]) == Success(callees)
      {
        CalleesOfSnoc(tm, s, dir, fields, i);
        var c := CalleeFor(dir, fields[i]);
        if c.Failure? {
          CalleesOfPrefix(tm, s, dir, fields, i + 1);
          return Failure(c.error);
        }
        callees := callees + [c.value];
      }
      assert fields[..|fields|] == fields;
      return Success(callees);
    }

    /** GenericSerializer.GenerateWriterMethod / GenerateReaderMethod for data, the
        descriptor of x. */
    method EmitGeneric(dir: Direction, x: TypeName, data: TypeData) returns (r: Result<Body>)
      requires Sound() && x in typeMap.contents && data == typeMap.contents[x] && data.handler == GenericSerializer
      ensures r == BodyFor(typeMap.contents, AllSlots(), dir, callbacks, x)
    {
      var t := data.info;
      if dir == Reader && t.isClass && !t.hasDefaultConstructor {
        return Failure(InvalidOperation);   // DeclaredConstructors.First
      }
      var pre := CallbackOps(t, PreCallback(dir), callbacks);
      if pre.Failure? {
        return Failure(pre.error);
      }
      var callees :- FieldCallees(dir, GetFieldInfos(t));
      var ops :- if dir == Writer then GenericWriterOps(t, callbacks, callees) else GenericReaderOps(t, callbacks, callees);
      return Success(Generated(ops));
    }

    /** NullableSerializer.GenerateWriterMethod / GenerateReaderMethod for data, the
        descriptor of x. */
    method EmitNullable(dir: Direction, x: TypeName, data: TypeData) returns (r: Result<Body>)
      requires Sound() && x in typeMap.contents && data == typeMap.contents[x] && data.handler == NullableSerializer
      ensures r == BodyFor(typeMap.contents, AllSlots(), dir, callbacks, x)
    {
      var t := data.info;
      if |t.genericArguments| == 0 {
        return Failure(IndexOutOfRange);   // GenericTypeArguments[0]
      }
      var value :- GetIndirectData(t.genericArguments[0]);
      var flag :- GetDirectRoutine(dir, BoolType);
      if flag.None? {
        return Failure(Argument);   // ILGenerator.Emit(OpCodes.Call, null)
      }
      var needs :- value.NeedsInstanceOf(dir);
      return Success(Generated(NullableOps(flag.value, Callee(value.Routine(dir).value, needs))));
    }

    /** IDynamicTypeSerializer.GenerateWriterMethod / GenerateReaderMethod of the handler
        of x; the cast to IDynamicTypeSerializer fails for any other handler. */
    method EmitBody(dir: Direction, x: TypeName, data: TypeData) returns (r: Result<Body>)
      requires Sound() && x in typeMap.contents && data == typeMap.contents[x]
      ensures r == BodyFor(typeMap.contents, AllSlots(), dir, callbacks, x)
    {
      match data.handler
      case GenericSerializer => r := EmitGeneric(dir, x, data);
      case NullableSerializer => r := EmitNullable(dir, x, data);
      case ForeignSerializer(f) => r := if f.isDynamic then Success(ForeignBody(f.name, x)) else Failure(InvalidCast);
      case _ => r := Failure(InvalidCast);
    }

    /** GenerateWriterBody(x) / GenerateReaderBody(x): a dynamic stub gets the body its
        handler generates; any other routine is left as it is. */
    method GenerateBody(dir: Direction, x: TypeName) returns (r: Result<()>)
      requires Sound() && x in typeMap.contents
      requires IsDynamicStub(typeMap.contents[x].Routine(dir)) ==> typeMap.contents[x].Emitted(dir).None?
      modifies typeMap.contents[x]
      ensures r.Success? <==> BodyStep(typeMap.contents, old(AllSlots()), dir, callbacks, x).Success?
      ensures r.Success? ==> AllSlots() == BodyStep(typeMap.contents, old(AllSlots()), dir, callbacks, x).value
      ensures r.Failure? ==> r.error == BodyStep(typeMap.contents, old(AllSlots()), dir, callbacks, x).error && AllSlots() == old(AllSlots())
    {
      ghost var s0 := AllSlots();
      var g := typeMap.Get(x);
      var data := g.value;
      var routine := data.Routine(dir);
      if !(routine.Some? && routine.value.DynamicStub?) {
        return Success(());   // `as DynamicMethod` gives null
      }
      var body := EmitBody(dir, x, data);
      assert AllSlots() == s0;
      if body.Failure? {
        return Failure(body.error);
      }
      data.SetBody(dir, body.value);
      OneChanged(x);
      return Success(());
    }

    /** `Collect(root).Where(t => WriterMethodInfo == null)` / `ReaderMethodInfo == null`:
        the collected types whose routine slot of dir is still empty. */
    method Uncovered(dir: Direction, C: set<TypeName>) returns (todo: set<TypeName>)
      requires Sound() && C <= typeMap.contents.Keys
      ensures todo == Unrouted(AllSlots(), C, dir)
    {
      ghost var s := AllSlots();
      todo := {};
      var rest := C;
      while rest != {}
        invariant rest <= C && AllSlots() == s
        invariant todo == Unrouted(s, C - rest, dir)
        decreases rest
      {
        var x :| x in rest;
        var g := typeMap.Get(x);
        assert AllSlots() == s;
        MoveDone(C, rest, x);
        UnroutedStep(s, C - rest, dir, x);
        if g.value.Routine(dir).None? {
          todo := todo + {x};
        }
        rest := rest - {x};
      }
      assert C - rest == C;
    }

    /** The first loop of GenerateWriters / GenerateReaders: GenerateWriterStub or
        GenerateReaderStub for each type of todo, in the set's order. done holds the types
        stubbed before the loop ended; an exception leaves their stubs in place. */
    method StubPass(dir: Direction, todo: set<TypeName>) returns (r: Result<()>, ghost done: set<TypeName>)
      requires Sound() && todo <= typeMap.contents.Keys
      requires forall x :: x in todo ==> AllSlots()[x].Routine(dir).None?
      modifies Descs()
      ensures done <= todo && forall x :: x in done ==> StubFor(dir, typeMap.contents[x]).Success?
      ensures AllSlots() == Stubbed(typeMap.contents, old(AllSlots()), done, dir)
      ensures r.Success? ==> done == todo
      ensures r.Failure? ==> exists x :: x in todo - done && StubFor(dir, typeMap.contents[x]) == Failure(r.error)
    {
      ghost var tm, s0 := typeMap.contents, AllSlots();
      done := {};
      var rest := todo;
      while rest != {}
        invariant rest <= todo && done == todo - rest
        invariant forall x :: x in done ==> StubFor(dir, tm[x]).Success?
        invariant AllSlots() == Stubbed(tm, s0, done, dir)
        decreases rest
      {
        var x :| x in rest;
        assert AllSlots()[x] == s0[x];
        var step := GenerateStub(dir, x);
        if step.Failure? {
          return Failure(step.error), done;
        }
        MoveDone(todo, rest, x);
        StubbedStep(tm, s0, done, dir, x);
        done, rest := done + {x}, rest - {x};
      }
      return Success(()), done;
    }

    /** One step of the body pass, on the slots the steps before it have left. */
    method BodyNext(dir: Direction, x: TypeName, ghost s0: SlotMap, ghost done: set<TypeName>) returns (r: Result<()>)
      requires Sound() && done + {x} <= typeMap.contents.Keys && x !in done && typeMap.contents.Keys <= s0.Keys
      requires BodiesExist(typeMap.contents, s0, done, dir, callbacks)
      requires AllSlots() == Bodied(typeMap.contents, s0, done, dir, callbacks)
      requires IsDynamicStub(s0[x].Routine(dir)) ==> s0[x].Emitted(dir).None?
      modifies typeMap.contents[x]
      ensures r.Success? ==> BodiesExist(typeMap.contents, s0, done + {x}, dir, callbacks) &&
                             AllSlots() == Bodied(typeMap.contents, s0, done + {x}, dir, callbacks)
      ensures r.Failure? ==> AllSlots() == old(AllSlots()) && IsDynamicStub(s0[x].Routine(dir)) &&
                             BodyFor(typeMap.contents, s0, dir, callbacks, x) == Failure(r.error)
    {
      BodiedStep(typeMap.contents, s0, done, dir, callbacks, x);
      r := GenerateBody(dir, x);
    }

    /** The second loop of GenerateWriters / GenerateReaders: GenerateWriterBody or
        GenerateReaderBody for each type of todo, in the set's order, each against the slots
        the stub pass left. */
    method BodyPass(dir: Direction, todo: set<TypeName>) returns (r: Result<()>, ghost done: set<TypeName>)
      requires Sound() && todo <= typeMap.contents.Keys
      requires forall x :: x in todo && IsDynamicStub(AllSlots()[x].Routine(dir)) ==> AllSlots()[x].Emitted(dir).None?
      modifies Descs()
      ensures done <= todo && BodiesExist(typeMap.contents, old(AllSlots()), done, dir, callbacks)
      ensures AllSlots() == Bodied(typeMap.contents, old(AllSlots()), done, dir, callbacks)
      ensures r.Success? ==> done == todo
      ensures r.Failure? ==> exists x :: x in todo - done && IsDynamicStub(old(AllSlots())[x].Routine(dir)) &&
                                         BodyFor(typeMap.contents, old(AllSlots()), dir, callbacks, x) == Failure(r.error)
    {
      ghost var tm, s0 := typeMap.contents, AllSlots();
      done := {};
      var rest := todo;
      BodiedNone(tm, s0, dir, callbacks);
      while rest != {}
        invariant rest <= todo && done == todo - rest
        invariant typeMap.contents == tm && tm.Keys <= s0.Keys
        invariant BodiesExist(tm, s0, done, dir, callbacks)
        invariant AllSlots() == Bodied(tm, s0, done, dir, callbacks)
        decreases rest
      {
        var x :| x in rest;
        MoveDone(todo, rest, x);
        var step := BodyNext(dir, x, s0, done);
        if step.Failure? {
          assert x in todo - done;
          return Failure(step.error), done;
        }
        done, rest := done + {x}, rest - {x};
      }
      return Success(()), done;
    }

    /** GenerateWriters(root) / GenerateReaders(root): nothing when the root's descriptor
        already has a routine of dir; otherwise the types Collect(root) finds without a
        routine get their stubs, and only then their bodies (see Cover). C and todo are the
        collected and the uncovered types. */
    method Generate(dir: Direction, root: TypeName) returns (r: Result<()>, C: set<TypeName>, todo: set<TypeName>)
      requires Valid()
      modifies Descs()
      ensures Valid() && Sound()
      ensures Confined(old(AllSlots()), AllSlots(), dir)
      ensures root !in typeMap.contents ==> r == Failure(KeyNotFound) && AllSlots() == old(AllSlots())
      ensures root in typeMap.contents && old(AllSlots())[root].Routine(dir).Some? ==>
                r == Success(()) && AllSlots() == old(AllSlots())
      ensures r.Success? ==> root in typeMap.contents && AllSlots()[root].Routine(dir).Some?
      ensures r.Success? && old(AllSlots())[root].Routine(dir).None? ==>
                Collected(universe, subtypes, typeMap.contents, root, C) &&
                GenerationRan(typeMap.contents, old(AllSlots()), AllSlots(), C, todo, dir, callbacks)
    {
      ghost var s0 := AllSlots();
      C, todo := {}, {};
      Named();
      var g := typeMap.Get(root);
      if g.Failure? {
        return Failure(g.error), C, todo;
      }
      if g.value.Routine(dir).Some? {
        return Success(()), C, todo;
      }
      assert AllSlots() == s0;
      r, C, todo := Cover(dir, root);
    }

    /** The two passes of GenerateWriters(root) / GenerateReaders(root) for a root without a
        routine of dir: every type Collect(root) returns that has no routine gets its stub,
        then every such dynamic stub its body. On success each collected type has a routine;
        an exception leaves the slots the passes filled before it. */
    method Cover(dir: Direction, root: TypeName) returns (r: Result<()>, C: set<TypeName>, todo: set<TypeName>)
      requires Valid() && root in typeMap.contents && AllSlots()[root].Routine(dir).None?
      modifies Descs()
      ensures Valid() && Sound()
      ensures Confined(old(AllSlots()), AllSlots(), dir)
      ensures r.Success? ==> Collected(universe, subtypes, typeMap.contents, root, C) &&
                             GenerationRan(typeMap.contents, old(AllSlots()), AllSlots(), C, todo, dir, callbacks)
      ensures r.Success? ==> root in C && forall x :: x in C ==> x in AllSlots() && AllSlots()[x].Routine(dir).Some?
    {
      ghost var tm, s0 := typeMap.contents, AllSlots();
      r, C, todo := Plan(dir, root);
      Named();
      assert AllSlots() == s0;
      if r.Failure? {
        return;
      }
      r := Passes(dir, C, todo);
      StoresKept();
      if r.Success? {
        PassesCover(tm, s0, AllSlots(), C, todo, dir, callbacks);
      }
    }

    /** What the passes of Cover(dir, root) work on: the types C that Collect(root) returns,
        root among them, and those of C without a routine of dir. */
    method Plan(dir: Direction, root: TypeName) returns (r: Result<()>, C: set<TypeName>, todo: set<TypeName>)
      requires Valid() && root in typeMap.contents && AllSlots()[root].Routine(dir).None?
      ensures r.Success? ==> Collected(universe, subtypes, typeMap.contents, root, C) && root in C
      ensures r.Success? ==> C <= typeMap.contents.Keys && todo == Unrouted(AllSlots(), C, dir)
    {
      ghost var tm := typeMap.contents;
      todo := {};
      Named();
      assert HasType(tm, root);
      var collected := Collect(root);
      if collected.Failure? {
        return Failure(collected.error), {}, todo;
      }
      C := collected.value;
      todo := Uncovered(dir, C);
      assert root in C;
      r := Success(());
    }

    /** The stub pass, then the body pass, over the uncovered types todo of C. */
    method Passes(dir: Direction, ghost C: set<TypeName>, todo: set<TypeName>) returns (r: Result<()>)
      requires Sound() && C <= typeMap.contents.Keys && todo == Unrouted(AllSlots(), C, dir)
      modifies Descs()
      ensures Sound()
      ensures Confined(old(AllSlots()), AllSlots(), dir)
      ensures r.Success? ==> GenerationRan(typeMap.contents, old(AllSlots()), AllSlots(), C, todo, dir, callbacks)
    {
      ghost var tm, s0 := typeMap.contents, AllSlots();
      var stubs, stubbed := StubPass(dir, todo);
      StubbedConfined(tm, s0, stubbed, dir);
      if stubs.Failure? {
        return Failure(stubs.error);
      }
      ghost var s1 := AllSlots();
      var bodies, bodied := BodyPass(dir, todo);
      BodiedConfined(tm, s0, s1, bodied, dir, callbacks);
      if bodies.Failure? {
        return Failure(bodies.error);
      }
      return Success(());
    }

    /** Fills the empty delegate slot Cached(dir, trampoline) of data, the descriptor of t. */
    method CacheDelegate(dir: Direction, t: TypeName, data: TypeData, trampoline: bool, d: Delegate)
      requires Sound() && t in typeMap.contents && data == typeMap.contents[t]
      requires AllSlots()[t].Cached(dir, trampoline).None?
      modifies data
      ensures AllSlots() == old(AllSlots())[t := WithCached(old(AllSlots())[t], dir, trampoline, d)]
    {
      if trampoline {
        data.SetTrampoline(dir, d);
      } else {
        data.SetDirect(dir, d);
      }
      OneChanged(t);
    }

    /** GenerateWriterTrampoline / GenerateDirectWriterDelegate (dir == Writer) and
        GenerateReaderTrampoline / GenerateDirectReaderDelegate (dir == Reader) for type t:
        the delegate cached in t's descriptor when there is one, and otherwise the one Fill
        builds and caches. mid holds the slots after generation. */
    method CachedDelegate(dir: Direction, t: TypeName, trampoline: bool) returns (r: Result<Delegate>, ghost mid: SlotMap)
      requires Valid()
      modifies Descs()
      ensures Valid() && Sound()
      ensures t !in typeMap.contents ==> r == Failure(KeyNotFound) && AllSlots() == old(AllSlots())
      ensures t in typeMap.contents && old(AllSlots())[t].Cached(dir, trampoline).Some? ==>
                r == Success(old(AllSlots())[t].Cached(dir, trampoline).value) && AllSlots() == old(AllSlots())
      ensures Confined(old(AllSlots()), mid, dir)
      ensures r.Failure? ==> AllSlots() == mid
      ensures r.Success? ==> t in typeMap.contents && AllSlots()[t].Cached(dir, trampoline) == Some(r.value)
      ensures r.Success? && old(AllSlots())[t].Cached(dir, trampoline).None? ==>
                mid[t].Routine(dir).Some? &&
                r == CreateDelegate(dir, ParamType(t, trampoline), t, typeMap.contents[t].info.isValueType,
                                    mid[t].Routine(dir).value) &&
                AllSlots() == mid[t := WithCached(mid[t], dir, trampoline, r.value)]
      ensures old(CachesFaithful(typeMap.contents, AllSlots())) ==> CachesFaithful(typeMap.contents, AllSlots())
      ensures old(CachesFaithful(typeMap.contents, AllSlots())) && r.Success? ==>
                AllSlots()[t].Routine(dir).Some? &&
                r == CreateDelegate(dir, ParamType(t, trampoline), t, typeMap.contents[t].info.isValueType,
                                    AllSlots()[t].Routine(dir).value)
    {
      mid := AllSlots();
      Named();
      var g := typeMap.Get(t);
      if g.Failure? {
        return Failure(g.error), mid;
      }
      r, mid := Lookup(dir, t, g.value, trampoline);
    }

    /** CachedDelegate once the descriptor data of t is found. */
    method Lookup(dir: Direction, t: TypeName, data: TypeData, trampoline: bool) returns (r: Result<Delegate>, ghost mid: SlotMap)
      requires Valid() && t in typeMap.contents && data == typeMap.contents[t]
      modifies Descs()
      ensures Valid() && Sound()
      ensures old(AllSlots())[t].Cached(dir, trampoline).Some? ==>
                r == Success(old(AllSlots())[t].Cached(dir, trampoline).value) && AllSlots() == old(AllSlots())
      ensures Confined(old(AllSlots()), mid, dir)
      ensures r.Failure? ==> AllSlots() == mid
      ensures r.Success? ==> AllSlots()[t].Cached(dir, trampoline) == Some(r.value)
      ensures r.Success? && old(AllSlots())[t].Cached(dir, trampoline).None? ==>
                mid[t].Routine(dir).Some? &&
                r == CreateDelegate(dir, ParamType(t, trampoline), t, typeMap.contents[t].info.isValueType,
                                    mid[t].Routine(dir).value) &&
                AllSlots() == mid[t := WithCached(mid[t], dir, trampoline, r.value)]
      ensures old(CachesFaithful(typeMap.contents, AllSlots())) ==> CachesFaithful(typeMap.contents, AllSlots())
      ensures old(CachesFaithful(typeMap.contents, AllSlots())) && r.Success? ==>
                AllSlots()[t].Routine(dir).Some? &&
                r == CreateDelegate(dir, ParamType(t, trampoline), t, typeMap.contents[t].info.isValueType,
                                    AllSlots()[t].Routine(dir).value)
    {
      ghost var tm, s0 := typeMap.contents, AllSlots();
      mid := s0;
      Named();
      var cached := if trampoline then data.Trampoline(dir) else data.Direct(dir);
      if cached.Some? {
        assert AllSlots()[t].Cached(dir, trampoline) == cached;
        if CachesFaithful(tm, s0) {
          assert CacheFaithful(tm[t], s0[t], dir);
        }
        return Success(cached.value), mid;
      }
      assert AllSlots() == s0;
      r, mid := Fill(dir, t, data, trampoline);
    }

    /** The slow path of CachedDelegate: GenerateWriters(t) / GenerateReaders(t), then the
        delegate Attach builds and caches. */
    method Fill(dir: Direction, t: TypeName, data: TypeData, trampoline: bool) returns (r: Result<Delegate>, ghost mid: SlotMap)
      requires Valid() && t in typeMap.contents && data == typeMap.contents[t]
      requires AllSlots()[t].Cached(dir, trampoline).None?
      modifies Descs()
      ensures Valid() && Sound()
      ensures Confined(old(AllSlots()), mid, dir)
      ensures r.Failure? ==> AllSlots() == mid
      ensures r.Success? ==>
                mid[t].Routine(dir).Some? &&
                r == CreateDelegate(dir, ParamType(t, trampoline), t, data.info.isValueType, mid[t].Routine(dir).value) &&
                AllSlots() == mid[t := WithCached(mid[t], dir, trampoline, r.value)]
      ensures old(CachesFaithful(typeMap.contents, AllSlots())) ==> CachesFaithful(typeMap.contents, AllSlots())
    {
      ghost var tm, s0 := typeMap.contents, AllSlots();
      var gen, _, _ := Generate(dir, t);
      mid := AllSlots();
      if CachesFaithful(tm, s0) {
        ConfinedFaithful(tm, s0, mid, dir);
      }
      if gen.Failure? {
        return Failure(gen.error), mid;
      }
      assert mid[t].Outside(dir) == s0[t].Outside(dir);
      r := Attach(dir, t, data, trampoline);
    }

    /** The delegate the factory builds from the routine of t, with parameter type object for
        a trampoline and t for a direct delegate, cached in the empty slot. */
    method Attach(dir: Direction, t: TypeName, data: TypeData, trampoline: bool) returns (r: Result<Delegate>)
      requires Valid() && Sound() && t in typeMap.contents && data == typeMap.contents[t]
      requires AllSlots()[t].Routine(dir).Some? && AllSlots()[t].Cached(dir, trampoline).None?
      modifies data
      ensures Valid() && Sound() && r.Success?
      ensures r == CreateDelegate(dir, ParamType(t, trampoline), t, data.info.isValueType, old(AllSlots())[t].Routine(dir).value)
      ensures AllSlots() == old(AllSlots())[t := WithCached(old(AllSlots())[t], dir, trampoline, r.value)]
      ensures old(CachesFaithful(typeMap.contents, AllSlots())) ==> CachesFaithful(typeMap.contents, AllSlots())
    {
      ghost var s0 := AllSlots();
      var m := data.Routine(dir).value;
      r := CreateDelegate(dir, ParamType(t, trampoline), data.Type(), data.info.isValueType, m);
      CacheDelegate(dir, t, data, trampoline, r.value);
      if CachesFaithful(typeMap.contents, s0) {
        CacheKeepsFaithful(typeMap.contents, s0, t, dir, trampoline, r.value);
      }
    }

    /** GetTypeIdAndSerializer(t): the id of t's descriptor and its writer trampoline, taken
        from the cache when it is there and built by GenerateWriterTrampoline otherwise. */
    method TypeIdAndWriter(t: TypeName) returns (r: Result<(uint32, Delegate)>)
      requires Valid()
      modifies Descs()
      ensures Valid() && Sound()
      ensures t !in typeMap.contents ==> r == Failure(KeyNotFound) && AllSlots() == old(AllSlots())
      ensures t in typeMap.contents && old(AllSlots())[t].Trampoline(Writer).Some? ==>
                r == Success((typeMap.contents[t].typeId, old(AllSlots())[t].Trampoline(Writer).value)) &&
                AllSlots() == old(AllSlots())
      ensures r.Success? ==> t in typeMap.contents && r.value.0 == typeMap.contents[t].typeId &&
                             AllSlots()[t].Trampoline(Writer) == Some(r.value.1)
      ensures old(CachesFaithful(typeMap.contents, AllSlots())) ==> CachesFaithful(typeMap.contents, AllSlots())
      ensures old(CachesFaithful(typeMap.contents, AllSlots())) && r.Success? ==>
                AllSlots()[t].Routine(Writer).Some? &&
                CreateDelegate(Writer, ObjectType, t, typeMap.contents[t].info.isValueType,
                               AllSlots()[t].Routine(Writer).value) == Success(r.value.1)
    {
      Named();
      var g := typeMap.Get(t);
      if g.Failure? {
        return Failure(g.error);
      }
      var data := g.value;
      if data.writerTrampoline.Some? {
        assert AllSlots()[t].Cached(Writer, true) == data.writerTrampoline;
        if CachesFaithful(typeMap.contents, AllSlots()) {
          assert CacheFaithful(typeMap.contents[t], AllSlots()[t], Writer);
        }
        return Success((data.typeId, data.writerTrampoline.value));
      }
      var d, _ := CachedDelegate(Writer, t, true);
      if d.Failure? {
        return Failure(d.error);
      }
      return Success((data.typeId, d.value));
    }

    /** GetDeserializeTrampolineFromId(id): the reader trampoline of the descriptor with that
        id, taken from the cache when it is there and built by GenerateReaderTrampoline
        otherwise. An id beyond the list's array throws IndexOutOfRangeException, an empty slot
        NullReferenceException. */
    method ReaderTrampolineFromId(id: uint32) returns (r: Result<Delegate>)
      requires Valid()
      modifies Descs()
      ensures Valid() && Sound()
      ensures id as nat >= idList.arr.Length ==> r == Failure(IndexOutOfRange) && AllSlots() == old(AllSlots())
      ensures id as nat < idList.arr.Length && id as nat !in idList.contents ==>
                r == Failure(NullReference) && AllSlots() == old(AllSlots())
      ensures HasId(idList.contents, id as nat) && old(AllSlots())[idList.contents[id as nat].Type()].Trampoline(Reader).Some? ==>
                r == Success(old(AllSlots())[idList.contents[id as nat].Type()].Trampoline(Reader).value) &&
                AllSlots() == old(AllSlots())
      ensures r.Success? ==> HasId(idList.contents, id as nat) && idList.contents[id as nat].typeId == id &&
                             AllSlots()[idList.contents[id as nat].Type()].Trampoline(Reader) == Some(r.value)
      ensures old(CachesFaithful(typeMap.contents, AllSlots())) ==> CachesFaithful(typeMap.contents, AllSlots())
    {
      Named();
      var g := idList.Get(id);
      if g.Failure? {
        return Failure(g.error);
      }
      if g.value == null {
        return Failure(NullReference);
      }
      var data := g.value;
      assert HasId(idList.contents, id as nat);
      if data.readerTrampoline.Some? {
        return Success(data.readerTrampoline.value);
      }
      var d, _ := CachedDelegate(Reader, data.Type(), true);
      return d;
    }

    /** Id 1 belongs to `object` alone: the list holds one descriptor under each id, and
        distinct types have distinct descriptors. */
    lemma ObjectIdOnly()
      requires Valid() && ObjectType in typeMap.contents && typeMap.contents[ObjectType].typeId == ObjectTypeId
      ensures HasId(idList.contents, ObjectTypeId as nat) && idList.contents[ObjectTypeId as nat] == typeMap.contents[ObjectType]
      ensures forall n :: n in typeMap.contents && n != ObjectType ==> typeMap.contents[n].typeId != ObjectTypeId
    {
      Named();
      assert HasType(typeMap.contents, ObjectType);
      forall n | n in typeMap.contents && n != ObjectType
        ensures typeMap.contents[n].typeId != ObjectTypeId
      {
        assert HasType(typeMap.contents, n);
        assert typeMap.contents[n].Type() != typeMap.contents[ObjectType].Type();
      }
    }

    /** What both constructors leave: `object` is registered under id 1, which no other type
        has, and both its routines exist. */
    ghost predicate Ready()
      reads typeMap, typeMap.buckets, idList, idList.arr, Descs()
    {
      Valid() && ObjectType in typeMap.contents && typeMap.contents[ObjectType].typeId == ObjectTypeId &&
      (forall n :: n in typeMap.contents && n != ObjectType ==> typeMap.contents[n].typeId != ObjectTypeId) &&
      AllSlots()[ObjectType].Routine(Writer).Some? && AllSlots()[ObjectType].Routine(Reader).Some?
    }

    /** The start both constructors share: every custom handler must be static or dynamic
        (ArgumentException otherwise); then both stores are created and `object` is
        registered under ObjectTypeId, as AddTypesInternal of the one-entry map does. */
    static method Start(universe: map<TypeName, TypeInfo>, hashCode: TypeName -> int32, customs: seq<Handler>,
                        builtins: seq<Handler>, callbacks: bool) returns (r: Result<Serializer>)
      requires Universe(universe, customs, builtins)
      ensures !AllStaticOrDynamic(customs) ==> r == Failure(Argument)
      ensures r.Success? ==>
                fresh(r.value) && fresh(r.value.typeMap) && fresh(r.value.idList) &&
                fresh(r.value.typeMap.buckets) && fresh(r.value.idList.arr) &&
                r.value.Valid() && r.value.Reflects() && r.value.universe == universe && r.value.customs == customs &&
                r.value.builtins == builtins && r.value.callbacks == callbacks && r.value.nextId == 1
      ensures r.Success? ==> r.value.typeMap.contents.Keys == {ObjectType} &&
                             r.value.typeMap.contents[ObjectType].typeId == ObjectTypeId &&
                             fresh(r.value.typeMap.contents[ObjectType])
      ensures r.Failure? ==> r.error in {Argument, NotSupported}
    {
      if !AllStaticOrDynamic(customs) {
        return Failure(Argument);
      }
      var s := new Serializer.Empty(universe, hashCode, customs, builtins, callbacks);
      var o := s.AddObject();
      if o.Failure? {
        return Failure(o.error);
      }
      return Success(s);
    }

    /** AddTypesInternal of the map {object: ObjectTypeId} on empty stores. */
    method AddObject() returns (r: Result<()>)
      requires Valid() && typeMap.contents == map[] && ObjectType in universe
      modifies typeMap, typeMap.buckets, idList, idList.arr
      ensures Valid()
      ensures typeMap.buckets == old(typeMap.buckets) || fresh(typeMap.buckets)
      ensures idList.arr == old(idList.arr) || fresh(idList.arr)
      ensures r.Success? ==> typeMap.contents.Keys == {ObjectType} && typeMap.contents[ObjectType].typeId == ObjectTypeId &&
                             fresh(typeMap.contents[ObjectType])
      ensures r.Failure? ==> r.error in {Argument, NotSupported}
    {
      var entries := [(ObjectType, ObjectTypeId)];
      r := AddTypeMap(entries);
      EntryTypesOne(entries);
    }

    /** GenerateWriters(object), then GenerateReaders(object), as both constructors end. */
    method GenerateObject() returns (r: Result<()>)
      requires Valid() && ObjectType in typeMap.contents
      modifies Descs()
      ensures Valid()
      ensures r.Success? ==> AllSlots()[ObjectType].Routine(Writer).Some? && AllSlots()[ObjectType].Routine(Reader).Some?
    {
      var w, _, _ := Generate(Writer, ObjectType);
      if w.Failure? {
        return Failure(w.error);
      }
      r := GenerateObjectReaders();
    }

    /** GenerateReaders(object), which keeps the writer of `object`. */
    method GenerateObjectReaders() returns (r: Result<()>)
      requires Valid() && ObjectType in typeMap.contents && AllSlots()[ObjectType].Routine(Writer).Some?
      modifies Descs()
      ensures Valid()
      ensures r.Success? ==> AllSlots()[ObjectType].Routine(Writer).Some? && AllSlots()[ObjectType].Routine(Reader).Some?
    {
      ghost var s1 := AllSlots();
      var rd, _, _ := Generate(Reader, ObjectType);
      if rd.Failure? {
        return Failure(rd.error);
      }
      assert AllSlots()[ObjectType].Outside(Reader) == s1[ObjectType].Outside(Reader);
      return Success(());
    }

    /** Serializer(rootTypes, settings): the common start, AddTypesInternal(rootTypes), then
        the routines of `object`. Every root ends up registered unless it is abstract or an
        interface. */
    static method Create(universe: map<TypeName, TypeInfo>, hashCode: TypeName -> int32, customs: seq<Handler>,
                         builtins: seq<Handler>, callbacks: bool, roots: seq<TypeName>) returns (r: Result<Serializer>)
      requires Universe(universe, customs, builtins) && forall i :: 0 <= i < |roots| ==> roots[i] in universe
      ensures !AllStaticOrDynamic(customs) ==> r == Failure(Argument)
      ensures r.Success? ==>
                fresh(r.value) && r.value.Ready() && r.value.Reflects() && r.value.universe == universe &&
                r.value.customs == customs && r.value.builtins == builtins && r.value.callbacks == callbacks
      ensures r.Success? ==> forall i :: 0 <= i < |roots| ==> Pending(universe, r.value.typeMap.contents.Keys, [], roots[i])
    {
      var start := Start(universe, hashCode, customs, builtins, callbacks);
      if start.Failure? {
        return Failure(start.error);
      }
      var s := start.value;
      r := s.RootsThenFinish(roots);
    }

    /** The rest of Serializer(rootTypes, settings) once `object` is registered. */
    method RootsThenFinish(roots: seq<TypeName>) returns (r: Result<Serializer>)
      requires Valid() && ObjectType in typeMap.contents && typeMap.contents[ObjectType].typeId == ObjectTypeId
      requires forall i :: 0 <= i < |roots| ==> roots[i] in universe
      modifies this, typeMap, typeMap.buckets, idList, idList.arr, Descs()
      ensures r.Success? ==> r.value == this && Ready()
      ensures r.Success? ==> forall i :: 0 <= i < |roots| ==> Pending(universe, typeMap.contents.Keys, [], roots[i])
    {
      var added := AddRoots(roots);
      if added.Failure? {
        return Failure(added.error);
      }
      assert HasType(old(typeMap.contents), ObjectType);
      r := Finish();
    }

    /** Serializer(typeMap, settings): the common start, AddTypesInternal(typeMap), then the
        routines of `object`. Every entry's type ends up registered under the entry's id. */
    static method CreateWithMap(universe: map<TypeName, TypeInfo>, hashCode: TypeName -> int32, customs: seq<Handler>,
                                builtins: seq<Handler>, callbacks: bool, entries: seq<(TypeName, uint32)>)
      returns (r: Result<Serializer>)
      requires Universe(universe, customs, builtins) && forall i :: 0 <= i < |entries| ==> entries[i].0 in universe
      ensures !AllStaticOrDynamic(customs) ==> r == Failure(Argument)
      ensures r.Success? ==>
                fresh(r.value) && r.value.Ready() && r.value.Reflects() && r.value.universe == universe &&
                r.value.customs == customs && r.value.builtins == builtins && r.value.callbacks == callbacks
      ensures r.Success? ==> forall i :: 0 <= i < |entries| ==>
                entries[i].0 in r.value.typeMap.contents && r.value.typeMap.contents[entries[i].0].typeId == entries[i].1
    {
      var start := Start(universe, hashCode, customs, builtins, callbacks);
      if start.Failure? {
        return Failure(start.error);
      }
      var s := start.value;
      r := s.MapThenFinish(entries);
    }

    /** The rest of Serializer(typeMap, settings) once `object` is registered. */
    method MapThenFinish(entries: seq<(TypeName, uint32)>) returns (r: Result<Serializer>)
      requires Valid() && ObjectType in typeMap.contents && typeMap.contents[ObjectType].typeId == ObjectTypeId
      requires forall i :: 0 <= i < |entries| ==> entries[i].0 in universe
      modifies typeMap, typeMap.buckets, idList, idList.arr, Descs()
      ensures r.Success? ==> r.value == this && Ready()
      ensures r.Success? ==> forall i :: 0 <= i < |entries| ==>
                entries[i].0 in typeMap.contents && typeMap.contents[entries[i].0].typeId == entries[i].1
    {
      var added := AddTypeMap(entries);
      if added.Failure? {
        return Failure(added.error);
      }
      assert HasType(old(typeMap.contents), ObjectType);
      r := Finish();
    }

    /** The end both constructors share, after `object` and the caller's types are
        registered: the routines of `object` are generated, and the serializer is Ready. */
    method Finish() returns (r: Result<Serializer>)
      requires Valid() && ObjectType in typeMap.contents && typeMap.contents[ObjectType].typeId == ObjectTypeId
      modifies Descs()
      ensures r.Success? ==> r.value == this && Ready()
    {
      ObjectIdOnly();
      var g := GenerateObject();
      if g.Failure? {
        return Failure(g.error);
      }
      return Success(this);
    }
  }
}
