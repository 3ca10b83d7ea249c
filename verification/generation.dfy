/** Routine generation on values. GenerateWriters and GenerateReaders fill the routine slot of
    every collected type that has none with a stub (a static handler's own routine, or an empty
    DynamicMethod for a dynamic handler), and only then emit the bodies of the dynamic stubs,
    whose calls go to the routines of other descriptors. This module describes what the two
    passes compute over the slots of all registered descriptors at once, so that the methods
    of the serializer can be proved against it. */
module Generation {
  import opened Wrappers
  import opened Types
  import opened Helpers
  import opened Handlers
  import opened Routines
  import opened Descriptors
  import opened Delegates

  /** The slots of every registered descriptor, by type. */
  type SlotMap = map<TypeName, Slots>

  /** GetIndirectData, naming the descriptor: the type's own when it is registered and may be
      called directly, object's otherwise (KeyNotFoundException when object is not registered). */
  function Indirect(tm: map<TypeName, TypeData>, t: TypeName): (r: Result<TypeName>)
    ensures r.Success? ==> r.value in tm && (r.value == t || r.value == ObjectType)
    ensures r.Failure? ==> r.error == KeyNotFound && ObjectType !in tm
  {
    if t in tm && tm[t].CanCallDirect() then Success(t)
    else if ObjectType in tm then Success(ObjectType)
    else Failure(KeyNotFound)
  }

  /** A field or inner value of type t (other than object) is called through t's own routine
      exactly when t is registered and is a value type, an array, or a sealed type with a
      static handler (CanCallDirect); every other type goes through object's descriptor. */
  lemma IndirectDirectly(tm: map<TypeName, TypeData>, t: TypeName)
    requires t != ObjectType
    ensures Indirect(tm, t) == Success(t) <==>
      t in tm && (tm[t].info.isValueType || tm[t].info.isArray || (tm[t].info.isSealed && IsStatic(tm[t].handler)))
    ensures Indirect(tm, t) != Success(t) ==>
      Indirect(tm, t) == if ObjectType in tm then Success(ObjectType) else Failure(KeyNotFound)
  {
  }

  /** How a generated body calls the routine of descriptor n: reading WriterNeedsInstance or
      ReaderNeedsInstance of a descriptor with no routine is a NullReferenceException. */
  function CalleeOf(s: SlotMap, dir: Direction, n: TypeName): (r: Result<Callee>)
    requires n in s
    ensures r.Success? <==> s[n].Routine(dir).Some?
    ensures r.Success? ==> r.value.routine == s[n].Routine(dir).value &&
                           (r.value.passSerializer <==> ParamCount(r.value.routine) == 3)
    ensures r.Failure? ==> r.error == NullReference
  {
    match s[n].Routine(dir)
    case None => Failure(NullReference)
    case Some(m) => Success(Callee(m, NeedsInstance(m)))
  }

  /** The callees of a generic body, field by field in order, each through GetIndirectData of
      the field's declared type; the first field that fails decides the exception. */
  function CalleesOf(tm: map<TypeName, TypeData>, s: SlotMap, dir: Direction, fields: seq<FieldInfo>): (r: Result<seq<Callee>>)
    requires tm.Keys <= s.Keys
    ensures r.Success? ==> |r.value| == |fields|
    decreases |fields|
  {
    if fields == [] then Success([])
    else
      var cs :- CalleesOf(tm, s, dir, fields[..|fields| - 1]);
      var n :- Indirect(tm, fields[|fields| - 1].fieldType);
      var c :- CalleeOf(s, dir, n);
      Success(cs + [c])
  }

  /** The callee of field i, on its own. */
  function FieldCallee(tm: map<TypeName, TypeData>, s: SlotMap, dir: Direction, f: FieldInfo): Result<Callee>
    requires tm.Keys <= s.Keys
  {
    var n :- Indirect(tm, f.fieldType);
    CalleeOf(s, dir, n)
  }

  /** CalleesOf succeeds exactly when every field's callee does, and then holds them in field
      order; when it fails, some field's callee fails with the same exception. */
  lemma {:induction false} CalleesOfFields(tm: map<TypeName, TypeData>, s: SlotMap, dir: Direction, fields: seq<FieldInfo>)
    requires tm.Keys <= s.Keys
    ensures CalleesOf(tm, s, dir, fields).Success? <==>
            forall i :: 0 <= i < |fields| ==> FieldCallee(tm, s, dir, fields[i]).Success?
    ensures CalleesOf(tm, s, dir, fields).Success? ==>
            forall i :: 0 <= i < |fields| ==> CalleesOf(tm, s, dir, fields).value[i] == FieldCallee(tm, s, dir, fields[i]).value
    ensures CalleesOf(tm, s, dir, fields).Failure? ==>
            exists i :: 0 <= i < |fields| && FieldCallee(tm, s, dir, fields[i]) == Failure(CalleesOf(tm, s, dir, fields).error)
    decreases |fields|
  {
    if fields != [] {
      var init := fields[..|fields| - 1];
      CalleesOfFields(tm, s, dir, init);
      assert forall i :: 0 <= i < |init| ==> init[i] == fields[i];
    }
  }

  /** CalleesOf over one more field. */
  lemma CalleesOfSnoc(tm: map<TypeName, TypeData>, s: SlotMap, dir: Direction, fields: seq<FieldInfo>, i: nat)
    requires tm.Keys <= s.Keys && i < |fields|
    ensures CalleesOf(tm, s, dir, fields[..i + 1]) ==
            (var cs :- CalleesOf(tm, s, dir, fields[..i]);
             var c :- FieldCallee(tm, s, dir, fields[i]);
             Success(cs + [c]))
  {
    assert fields[..i + 1][..i] == fields[..i];
  }

  /** Once a prefix of the fields fails, the whole list fails the same way. */
  lemma {:induction false} CalleesOfPrefix(tm: map<TypeName, TypeData>, s: SlotMap, dir: Direction, fields: seq<FieldInfo>, k: nat)
    requires tm.Keys <= s.Keys && k <= |fields| && CalleesOf(tm, s, dir, fields[..k]).Failure?
    ensures CalleesOf(tm, s, dir, fields) == CalleesOf(tm, s, dir, fields[..k])
    decreases |fields| - k
  {
    if k == |fields| {
      assert fields[..k] == fields;
    } else {
      assert fields[..k + 1][..k] == fields[..k];
      CalleesOfPrefix(tm, s, dir, fields, k + 1);
    }
  }

  /** The callback kind a routine of one direction calls first. */
  function PreCallback(dir: Direction): CallbackKind
  {
    if dir == Writer then OnSerializing else OnDeserializing
  }

  /** GenerateWriterStub / GenerateReaderStub: a static handler's routine, an empty dynamic
      stub for a dynamic handler, and an exception for a handler that is neither. */
  function StubFor(dir: Direction, d: TypeData): Result<MethodInfo>
  {
    if IsStatic(d.handler) then GetStaticRoutine(d.handler, dir, d.info)
    else if IsDynamic(d.handler) then Success(DynamicStub(dir, d.Type()))
    else Failure(Unexpected)
  }

  /** A slot holds a dynamic stub (`as DynamicMethod` is not null). */
  predicate IsDynamicStub(m: Option<MethodInfo>)
  {
    m.Some? && m.value.DynamicStub?
  }

  /** GenerateWriterMethod / GenerateReaderMethod of the handler of descriptor x, emitting
      into x's stub, given the slots s of all descriptors: GenericSerializer's field-by-field
      routine (a class reader first needs a parameterless constructor; the first callbacks
      come before the fields), NullableSerializer's flag-then-value routine, and a foreign
      dynamic handler's own body. */
  function BodyFor(tm: map<TypeName, TypeData>, s: SlotMap, dir: Direction, callbacks: bool, x: TypeName): Result<Body>
    requires x in tm && tm.Keys <= s.Keys
  {
    var t := tm[x].info;
    match tm[x].handler
    case GenericSerializer =>
      if dir == Reader && t.isClass && !t.hasDefaultConstructor then Failure(InvalidOperation)
      else
        var pre :- CallbackOps(t, PreCallback(dir), callbacks);
        var callees :- CalleesOf(tm, s, dir, GetFieldInfos(t));
        var ops :- if dir == Writer then GenericWriterOps(t, callbacks, callees)
                   else GenericReaderOps(t, callbacks, callees);
        Success(Generated(ops))
    case NullableSerializer =>
      if |t.genericArguments| == 0 then Failure(IndexOutOfRange)
      else
        var n :- Indirect(tm, t.genericArguments[0]);
        var b :- BoolRoutine(tm, s, dir);
        var c :- CalleeOf(s, dir, n);
        Success(Generated(NullableOps(b, c)))
    case ForeignSerializer(f) =>
      if f.isDynamic then Success(ForeignBody(f.name, x)) else Failure(InvalidCast)
    case _ => Failure(InvalidCast)
  }

  /** GetDirectWriter(typeof(bool)) / GetDirectReader(typeof(bool)) as an argument of
      ILGenerator.Emit, which throws ArgumentNullException for a missing routine. */
  function BoolRoutine(tm: map<TypeName, TypeData>, s: SlotMap, dir: Direction): (r: Result<MethodInfo>)
    requires tm.Keys <= s.Keys
    ensures r.Success? <==> BoolType in tm && s[BoolType].Routine(dir).Some?
    ensures r.Success? ==> r.value == s[BoolType].Routine(dir).value
    ensures r.Failure? ==> r.error == (if BoolType in tm then Argument else KeyNotFound)
  {
    if BoolType !in tm then Failure(KeyNotFound)
    else match s[BoolType].Routine(dir)
      case None => Failure(Argument)
      case Some(m) => Success(m)
  }

  /** GenerateWriterBody / GenerateReaderBody of x on the slots s: a dynamic stub gets the
      body its handler generates, any other routine is left alone. */
  function BodyStep(tm: map<TypeName, TypeData>, s: SlotMap, dir: Direction, callbacks: bool, x: TypeName): (r: Result<SlotMap>)
    requires x in tm && tm.Keys <= s.Keys
    ensures r.Success? ==> r.value.Keys == s.Keys && SameRoutines(s, r.value, dir)
  {
    if !IsDynamicStub(s[x].Routine(dir)) then Success(s)
    else
      var b :- BodyFor(tm, s, dir, callbacks, x);
      Success(s[x := s[x].WithBody(dir, b)])
  }

  /** The types of C whose routine slot of dir is empty. */
  function Unrouted(s: SlotMap, C: set<TypeName>, dir: Direction): (r: set<TypeName>)
    ensures forall x :: x in r <==> x in C && x in s && s[x].Routine(dir).None?
  {
    set x | x in C && x in s && s[x].Routine(dir).None?
  }

  lemma UnroutedStep(s: SlotMap, C: set<TypeName>, dir: Direction, x: TypeName)
    ensures Unrouted(s, C + {x}, dir) == Unrouted(s, C, dir) + (if x in s && s[x].Routine(dir).None? then {x} else {})
  {
  }

  /** Moving x from the remaining types to the processed ones. */
  lemma MoveDone(todo: set<TypeName>, rest: set<TypeName>, x: TypeName)
    requires x in rest && rest <= todo
    ensures (todo - rest) + {x} == todo - (rest - {x}) && x !in todo - rest
  {
  }

  /** The stub pass over the types of todo. */
  function Stubbed(tm: map<TypeName, TypeData>, s: SlotMap, todo: set<TypeName>, dir: Direction): (r: SlotMap)
    requires forall x :: x in todo ==> x in tm && StubFor(dir, tm[x]).Success?
    ensures r.Keys == s.Keys
  {
    map n | n in s :: if n in todo then s[n].WithRoutine(dir, StubFor(dir, tm[n]).value) else s[n]
  }

  /** Every dynamic stub among todo has a body in the slots s. */
  predicate BodiesExist(tm: map<TypeName, TypeData>, s: SlotMap, todo: set<TypeName>, dir: Direction, callbacks: bool)
    requires tm.Keys <= s.Keys
  {
    forall x :: x in todo && x in tm && IsDynamicStub(s[x].Routine(dir)) ==> BodyFor(tm, s, dir, callbacks, x).Success?
  }

  /** The body pass over the types of todo: each dynamic stub gets the body its handler
      generates against the slots s the stub pass left. */
  function Bodied(tm: map<TypeName, TypeData>, s: SlotMap, todo: set<TypeName>, dir: Direction, callbacks: bool): (r: SlotMap)
    requires tm.Keys <= s.Keys && todo <= tm.Keys
    requires BodiesExist(tm, s, todo, dir, callbacks)
    ensures SameRoutines(s, r, dir)
  {
    map n | n in s :: if n in todo && IsDynamicStub(s[n].Routine(dir)) then s[n].WithBody(dir, BodyFor(tm, s, dir, callbacks, n).value) else s[n]
  }

  /** The body pass over no types changes nothing. */
  lemma BodiedNone(tm: map<TypeName, TypeData>, s: SlotMap, dir: Direction, callbacks: bool)
    requires tm.Keys <= s.Keys
    ensures BodiesExist(tm, s, {}, dir, callbacks) && Bodied(tm, s, {}, dir, callbacks) == s
  {
  }

  /** The slots of two maps have the same routines in direction dir. */
  predicate SameRoutines(s: SlotMap, s': SlotMap, dir: Direction)
  {
    s.Keys == s'.Keys && forall n :: n in s ==> s'[n].Routine(dir) == s[n].Routine(dir)
  }

  /** A body depends on the routines of the other descriptors only, not on their bodies or
      delegates. */
  lemma BodyForRoutinesOnly(tm: map<TypeName, TypeData>, s: SlotMap, s': SlotMap, dir: Direction, callbacks: bool, x: TypeName)
    requires x in tm && tm.Keys <= s.Keys && SameRoutines(s, s', dir)
    ensures BodyFor(tm, s, dir, callbacks, x) == BodyFor(tm, s', dir, callbacks, x)
  {
    CalleesOfRoutinesOnly(tm, s, s', dir, GetFieldInfos(tm[x].info));
  }

  lemma {:induction false} CalleesOfRoutinesOnly(tm: map<TypeName, TypeData>, s: SlotMap, s': SlotMap, dir: Direction, fields: seq<FieldInfo>)
    requires tm.Keys <= s.Keys && SameRoutines(s, s', dir)
    ensures CalleesOf(tm, s, dir, fields) == CalleesOf(tm, s', dir, fields)
    decreases |fields|
  {
    if fields != [] {
      CalleesOfRoutinesOnly(tm, s, s', dir, fields[..|fields| - 1]);
    }
  }

  /** The stub pass over todo + {x} is the stub pass over todo followed by x's stub. */
  lemma StubbedStep(tm: map<TypeName, TypeData>, s: SlotMap, todo: set<TypeName>, dir: Direction, x: TypeName)
    requires forall y :: y in todo + {x} ==> y in tm && StubFor(dir, tm[y]).Success?
    requires x in s && x !in todo
    ensures Stubbed(tm, s, todo + {x}, dir) ==
            Stubbed(tm, s, todo, dir)[x := s[x].WithRoutine(dir, StubFor(dir, tm[x]).value)]
  {
  }

  /** One more step of the body pass: GenerateWriterBody / GenerateReaderBody of x on the
      slots the pass over todo has left succeeds exactly when x needs no body or its body can
      be generated against the stubbed slots s, and then leaves the pass over todo + {x}. */
  lemma BodiedStep(tm: map<TypeName, TypeData>, s: SlotMap, todo: set<TypeName>, dir: Direction, callbacks: bool, x: TypeName)
    requires tm.Keys <= s.Keys && todo + {x} <= tm.Keys && x !in todo
    requires BodiesExist(tm, s, todo, dir, callbacks)
    ensures Bodied(tm, s, todo, dir, callbacks)[x] == s[x]
    ensures BodyStep(tm, Bodied(tm, s, todo, dir, callbacks), dir, callbacks, x).Success? ==>
              BodiesExist(tm, s, todo + {x}, dir, callbacks) &&
              BodyStep(tm, Bodied(tm, s, todo, dir, callbacks), dir, callbacks, x).value == Bodied(tm, s, todo + {x}, dir, callbacks)
    ensures BodyStep(tm, Bodied(tm, s, todo, dir, callbacks), dir, callbacks, x).Failure? ==>
              IsDynamicStub(s[x].Routine(dir)) &&
              BodyFor(tm, s, dir, callbacks, x) == Failure(BodyStep(tm, Bodied(tm, s, todo, dir, callbacks), dir, callbacks, x).error)
  {
    var cur := Bodied(tm, s, todo, dir, callbacks);
    BodyForRoutinesOnly(tm, s, cur, dir, callbacks, x);
    if BodyStep(tm, cur, dir, callbacks, x).Success? {
      BodiesExistStep(tm, s, todo, dir, callbacks, x);
      BodiedGrow(tm, s, todo, dir, callbacks, x);
    }
  }

  lemma BodiesExistStep(tm: map<TypeName, TypeData>, s: SlotMap, todo: set<TypeName>, dir: Direction, callbacks: bool, x: TypeName)
    requires x in tm && tm.Keys <= s.Keys && BodiesExist(tm, s, todo, dir, callbacks)
    requires IsDynamicStub(s[x].Routine(dir)) ==> BodyFor(tm, s, dir, callbacks, x).Success?
    ensures BodiesExist(tm, s, todo + {x}, dir, callbacks)
  {
  }

  /** The body pass over todo + {x} adds x's body, if x is a dynamic stub, to the pass over todo. */
  lemma BodiedGrow(tm: map<TypeName, TypeData>, s: SlotMap, todo: set<TypeName>, dir: Direction, callbacks: bool, x: TypeName)
    requires tm.Keys <= s.Keys && todo + {x} <= tm.Keys && x !in todo
    requires BodiesExist(tm, s, todo + {x}, dir, callbacks)
    ensures Bodied(tm, s, todo + {x}, dir, callbacks) ==
      if IsDynamicStub(s[x].Routine(dir))
      then Bodied(tm, s, todo, dir, callbacks)[x := s[x].WithBody(dir, BodyFor(tm, s, dir, callbacks, x).value)]
      else Bodied(tm, s, todo, dir, callbacks)
  {
  }

  /** What generating the routines of direction dir may change, from slots s to s': a
      descriptor that had a routine keeps every slot; any other keeps every slot outside the
      routine and body of dir, so the delegates and the other direction are untouched. */
  predicate Confined(s: SlotMap, s': SlotMap, dir: Direction)
  {
    s'.Keys == s.Keys &&
    forall n :: n in s ==> s'[n].Outside(dir) == s[n].Outside(dir) && (s[n].Routine(dir).Some? ==> s'[n] == s[n])
  }

  /** The stub pass only fills empty routine slots. */
  lemma StubbedConfined(tm: map<TypeName, TypeData>, s: SlotMap, todo: set<TypeName>, dir: Direction)
    requires forall x :: x in todo ==> x in tm && StubFor(dir, tm[x]).Success?
    requires forall x :: x in todo && x in s ==> s[x].Routine(dir).None?
    ensures Confined(s, Stubbed(tm, s, todo, dir), dir)
  {
  }

  /** A body pass over types that had no routine before the stub pass keeps what the stub
      pass was confined to. */
  lemma BodiedConfined(tm: map<TypeName, TypeData>, s0: SlotMap, s: SlotMap, done: set<TypeName>, dir: Direction, callbacks: bool)
    requires tm.Keys <= s.Keys && done <= tm.Keys
    requires BodiesExist(tm, s, done, dir, callbacks)
    requires Confined(s0, s, dir)
    requires forall x :: x in done && x in s0 ==> s0[x].Routine(dir).None?
    ensures Confined(s0, Bodied(tm, s, done, dir, callbacks), dir)
  {
  }

  /** GenerateWriters / GenerateReaders of a root, run to the end, took the slots s0 to s:
      todo is the set of collected types C whose routine slot of dir was empty; each of them
      got its stub, then each dynamic stub among them the body generated against the
      stubbed slots. */
  ghost predicate GenerationRan(tm: map<TypeName, TypeData>, s0: SlotMap, s: SlotMap, C: set<TypeName>, todo: set<TypeName>,
                            dir: Direction, callbacks: bool)
  {
    tm.Keys <= s0.Keys && C <= tm.Keys && todo == Unrouted(s0, C, dir) &&
    (forall x :: x in todo ==> StubFor(dir, tm[x]).Success?) &&
    BodiesExist(tm, Stubbed(tm, s0, todo, dir), todo, dir, callbacks) &&
    s == Bodied(tm, Stubbed(tm, s0, todo, dir), todo, dir, callbacks)
  }

  /** After both passes every type of C has a routine, every new dynamic stub has a body, and
      a type that already had a routine keeps all its slots. */
  lemma {:induction false} PassesCover(tm: map<TypeName, TypeData>, s0: SlotMap, s: SlotMap, C: set<TypeName>,
                                       todo: set<TypeName>, dir: Direction, callbacks: bool)
    requires GenerationRan(tm, s0, s, C, todo, dir, callbacks)
    ensures forall x :: x in C ==> s[x].Routine(dir).Some?
    ensures forall x :: x in todo && IsDynamicStub(s[x].Routine(dir)) ==> s[x].Emitted(dir).Some?
    ensures forall x :: x in C - todo ==> s[x] == s0[x]
  {
    var s1 := Stubbed(tm, s0, todo, dir);
    forall x | x in C
      ensures s[x].Routine(dir).Some? && (x in todo && IsDynamicStub(s[x].Routine(dir)) ==> s[x].Emitted(dir).Some?)
      ensures x !in todo ==> s[x] == s0[x]
    {
      if x in todo {
        assert s1[x] == s0[x].WithRoutine(dir, StubFor(dir, tm[x]).value);
      } else {
        assert s1[x] == s0[x];
      }
    }
  }

  /** Generation confines itself to the routine and body slots of dir of the types that had no
      routine. */
  lemma GeneratedConfined(tm: map<TypeName, TypeData>, s0: SlotMap, s: SlotMap, C: set<TypeName>,
                          todo: set<TypeName>, dir: Direction, callbacks: bool)
    requires GenerationRan(tm, s0, s, C, todo, dir, callbacks)
    ensures Confined(s0, s, dir)
  {
    var s1 := Stubbed(tm, s0, todo, dir);
    StubbedConfined(tm, s0, todo, dir);
    BodiedConfined(tm, s0, s1, todo, dir, callbacks);
  }

  /** The parameter type of a cached delegate: object for a trampoline, the descriptor's own
      type for a direct delegate. */
  function ParamType(t: TypeName, trampoline: bool): TypeName
  {
    if trampoline then ObjectType else t
  }

  /** The delegate cached in slot Cached(dir, trampoline) of descriptor d with slots sl, if
      any, is what the factory builds from d's current routine. */
  predicate Faithful(d: TypeData, sl: Slots, dir: Direction, trampoline: bool)
  {
    sl.Cached(dir, trampoline).Some? ==>
      sl.Routine(dir).Some? &&
      CreateDelegate(dir, ParamType(d.Type(), trampoline), d.Type(), d.info.isValueType, sl.Routine(dir).value) ==
        Success(sl.Cached(dir, trampoline).value)
  }

  /** Both cached delegates of one direction are faithful. */
  predicate CacheFaithful(d: TypeData, sl: Slots, dir: Direction)
  {
    Faithful(d, sl, dir, true) && Faithful(d, sl, dir, false)
  }

  /** Every cached delegate of every descriptor is faithful to its routine. */
  ghost predicate CachesFaithful(tm: map<TypeName, TypeData>, s: SlotMap)
  {
    forall n, dir :: n in tm && n in s ==> CacheFaithful(tm[n], s[n], dir)
  }

  /** Routine generation keeps the cached delegates faithful: a delegate is cached only beside
      a routine, and a routine, once there, keeps all its slots. */
  lemma ConfinedFaithful(tm: map<TypeName, TypeData>, s: SlotMap, s': SlotMap, dir: Direction)
    requires CachesFaithful(tm, s) && Confined(s, s', dir)
    ensures CachesFaithful(tm, s')
  {
    forall n, e | n in tm && n in s'
      ensures CacheFaithful(tm[n], s'[n], e)
    {
      assert CacheFaithful(tm[n], s[n], e);
      if s[n].Routine(dir).None? {
        assert s'[n].Outside(dir) == s[n].Outside(dir);
        assert s'[n].Trampoline(e) == s'[n].Outside(dir).Trampoline(e);
        assert s'[n].Direct(e) == s'[n].Outside(dir).Direct(e);
        if e != dir {
          assert s'[n].Routine(e) == s'[n].Outside(dir).Routine(e);
        }
      }
    }
  }

  /** Caching the factory's delegate for a descriptor's routine keeps the caches faithful. */
  lemma CacheKeepsFaithful(tm: map<TypeName, TypeData>, s: SlotMap, t: TypeName, dir: Direction, trampoline: bool, d: Delegate)
    requires CachesFaithful(tm, s) && t in tm && t in s && tm[t].Type() == t && s[t].Routine(dir).Some?
    requires CreateDelegate(dir, ParamType(t, trampoline), t, tm[t].info.isValueType, s[t].Routine(dir).value) == Success(d)
    ensures CachesFaithful(tm, s[t := WithCached(s[t], dir, trampoline, d)])
  {
    var s' := s[t := WithCached(s[t], dir, trampoline, d)];
    forall n, e | n in tm && n in s'
      ensures CacheFaithful(tm[n], s'[n], e)
    {
      assert CacheFaithful(tm[n], s[n], e);
    }
  }
}
