/** The routines a dynamic handler generates, as op lists, and what running them does.
    GenericSerializer emits callbacks around one call per field; NullableSerializer emits the
    HasValue flag and then, only when it is set, the inner value. A routine calls other
    routines (the callees); the interpreters take what a callee writes (`enc`) and reads
    (`dec`) as parameters, so the round-trip lemmas hold for whatever routines the callees
    are, provided each callee pair round-trips on its own value. */
module Routines {
  import opened Wrappers
  import opened Bits
  import opened Types
  import opened Helpers
  import opened Handlers
  import P = Primitives

  /** A value passed to or produced by a routine: a primitive (or an enum's underlying
      integer), null, a Nullable<T>, an instance listed by its fields in GetFieldInfos
      order, or a value only foreign routines understand. */
  datatype Value =
    | PrimitiveValue(p: P.Primitive)
    | NullValue
    | NullableValue(inner: Option<Value>)
    | RecordValue(fields: seq<Value>)
    | ForeignValue(id: nat)

  /** The routine a generated routine calls for a field or an inner value (the
      WriterMethodInfo/ReaderMethodInfo of GetIndirectData(type)), and whether the serializer
      is loaded as its first argument (the descriptor's NeedsInstance). */
  datatype Callee = Callee(routine: MethodInfo, passSerializer: bool)

  datatype Op =
    | Callback(name: string)                          // a serialization callback on the instance
    | NewInstance                                     // reader of a class: new T() into the out value
    | FieldRoutine(index: nat, field: string, callee: Callee)  // (de)serialize field #index
    | HasValueFlag(routine: MethodInfo)               // (de)serialize Nullable<T>.HasValue with bool's routine
    | ValueRoutine(callee: Callee)                    // (de)serialize Nullable<T>.Value

  /** The body of a dynamic routine: generated ops, or the opaque body a foreign dynamic
      handler emits. */
  datatype Body = Generated(ops: seq<Op>) | ForeignBody(owner: string, forType: TypeName)

  /** What running a routine is observed to do. */
  datatype Event = Wrote(bytes: seq<byte>) | Called(name: string) | Allocated

  /** The bytes a run wrote, in order. */
  function Wire(es: seq<Event>): seq<byte>
  {
    if es == [] then []
    else (if es[0].Wrote? then es[0].bytes else []) + Wire(es[1..])
  }

  /** The names of t's own methods that carry the callback attribute `kind`. */
  function MethodsWith(ms: seq<MethodDecl>, kind: CallbackKind): seq<string>
  {
    if ms == [] then []
    else (if kind in ms[0].attributes then [ms[0].name] else []) + MethodsWith(ms[1..], kind)
  }

  /** GenericSerializer.GetMethodsWithAttributes: the base class's callbacks first. */
  function CallbacksOf(t: TypeInfo, kind: CallbackKind): seq<string>
  {
    match t.baseType
    case None => MethodsWith(t.methods, kind)
    case Some(b) => CallbacksOf(b, kind) + MethodsWith(t.methods, kind)
  }

  function CallOps(ms: seq<string>): (r: seq<Op>)
    ensures |r| == |ms| && forall i :: 0 <= i < |ms| ==> r[i] == Callback(ms[i])
  {
    if ms == [] then [] else [Callback(ms[0])] + CallOps(ms[1..])
  }

  function CalledAll(ms: seq<string>): (r: seq<Event>)
    ensures |r| == |ms| && forall i :: 0 <= i < |ms| ==> r[i] == Called(ms[i])
  {
    if ms == [] then [] else [Called(ms[0])] + CalledAll(ms[1..])
  }

  /** The callback calls of one kind when Settings.SupportSerializationCallbacks is set;
      EmitCallTo(De)SerializingCallback throws for a value type that has any. */
  function CallbackOps(t: TypeInfo, kind: CallbackKind, enabled: bool): Result<seq<Op>>
  {
    if !enabled then Success([])
    else if CallbacksOf(t, kind) != [] && t.isValueType then Failure(NotImplemented)
    else Success(CallOps(CallbacksOf(t, kind)))
  }

  /** One FieldRoutine per field from index k on. */
  function FieldOps(fields: seq<FieldInfo>, callees: seq<Callee>, k: nat): seq<Op>
    requires |callees| == |fields| && k <= |fields|
    decreases |fields| - k
  {
    if k == |fields| then []
    else [FieldRoutine(k, fields[k].name, callees[k])] + FieldOps(fields, callees, k + 1)
  }

  /** GenericSerializer.GenerateWriterMethod; callees[i] is the callee of the i-th field of
      GetFieldInfos(t). */
  function GenericWriterOps(t: TypeInfo, callbacks: bool, callees: seq<Callee>): Result<seq<Op>>
    requires |callees| == |GetFieldInfos(t)|
  {
    var pre :- CallbackOps(t, OnSerializing, callbacks);
    var post :- CallbackOps(t, OnSerialized, callbacks);
    Success(pre + FieldOps(GetFieldInfos(t), callees, 0) + post)
  }

  /** GenericSerializer.GenerateReaderMethod: a class is first made with its
      parameterless constructor (Enumerable.First throws when it has none). */
  function GenericReaderOps(t: TypeInfo, callbacks: bool, callees: seq<Callee>): Result<seq<Op>>
    requires |callees| == |GetFieldInfos(t)|
  {
    if t.isClass && !t.hasDefaultConstructor then Failure(InvalidOperation) else
    var pre :- CallbackOps(t, OnDeserializing, callbacks);
    var post :- CallbackOps(t, OnDeserialized, callbacks);
    Success(AllocOps(t) + pre + FieldOps(GetFieldInfos(t), callees, 0) + post)
  }

  /** The allocation a reader of a class starts with. */
  function AllocOps(t: TypeInfo): seq<Op>
  {
    if t.isClass then [NewInstance] else []
  }

  /** NullableSerializer.GenerateWriterMethod and GenerateReaderMethod: the flag through
      bool's routine, then the value through T's callee. */
  function NullableOps(boolRoutine: MethodInfo, callee: Callee): seq<Op>
  {
    [HasValueFlag(boolRoutine), ValueRoutine(callee)]
  }

  /** Running a generated writer on value v. */
  function RunWriter(ops: seq<Op>, v: Value, enc: (MethodInfo, Value) -> seq<byte>): Result<seq<Event>>
  {
    if ops == [] then Success([])
    else match ops[0]
      case Callback(m) =>
        var rest :- RunWriter(ops[1..], v, enc);
        Success([Called(m)] + rest)
      case NewInstance => RunWriter(ops[1..], v, enc)
      case FieldRoutine(i, _, c) =>
        if !v.RecordValue? || i >= |v.fields| then Failure(InvalidCast)
        else
          var rest :- RunWriter(ops[1..], v, enc);
          Success([Wrote(enc(c.routine, v.fields[i]))] + rest)
      case HasValueFlag(r) =>
        if !v.NullableValue? then Failure(InvalidCast)
        else
          var flag := [Wrote(enc(r, PrimitiveValue(P.Bool(v.inner.Some?))))];
          if v.inner.None? then Success(flag)
          else
            var rest :- RunWriter(ops[1..], v, enc);
            Success(flag + rest)
      case ValueRoutine(c) =>
        if !v.NullableValue? || v.inner.None? then Failure(InvalidCast)
        else
          var rest :- RunWriter(ops[1..], v, enc);
          Success([Wrote(enc(c.routine, v.inner.value))] + rest)
  }

  /** Running a generated reader on the stream contents `data` from `pos`; `acc` is the
      value built so far, default(T) at the start. The result is the value, the position
      after it, and the events. */
  function RunReader(ops: seq<Op>, data: seq<byte>, pos: nat,
                     dec: (MethodInfo, seq<byte>, nat) -> Result<(Value, nat)>,
                     acc: Value): Result<(Value, nat, seq<Event>)>
  {
    if ops == [] then Success((acc, pos, []))
    else match ops[0]
      case Callback(m) =>
        var r :- RunReader(ops[1..], data, pos, dec, acc);
        Success((r.0, r.1, [Called(m)] + r.2))
      case NewInstance =>
        var r :- RunReader(ops[1..], data, pos, dec, RecordValue([]));
        Success((r.0, r.1, [Allocated] + r.2))
      case FieldRoutine(i, _, c) =>
        if !acc.RecordValue? || i != |acc.fields| then Failure(InvalidCast)
        else
          var x :- dec(c.routine, data, pos);
          RunReader(ops[1..], data, x.1, dec, RecordValue(acc.fields + [x.0]))
      case HasValueFlag(r) =>
        var x :- dec(r, data, pos);
        if x.0 == PrimitiveValue(P.Bool(false)) then Success((NullableValue(None), x.1, []))
        else if x.0 == PrimitiveValue(P.Bool(true)) then RunReader(ops[1..], data, x.1, dec, acc)
        else Failure(InvalidCast)
      case ValueRoutine(c) =>
        var x :- dec(c.routine, data, pos);
        RunReader(ops[1..], data, x.1, dec, NullableValue(Some(x.0)))
  }

  /** The stream holds w at position pos. */
  predicate HoldsAt(data: seq<byte>, pos: nat, w: seq<byte>)
  {
    pos + |w| <= |data| && data[pos..pos + |w|] == w
  }

  /** The callee reader r reads back the value x that the callee writer w wrote, wherever
      it sits in the stream, and stops right after it. */
  ghost predicate RoundTrips(enc: (MethodInfo, Value) -> seq<byte>,
                             dec: (MethodInfo, seq<byte>, nat) -> Result<(Value, nat)>,
                             w: MethodInfo, r: MethodInfo, x: Value)
  {
    forall data: seq<byte>, pos: nat {:trigger dec(r, data, pos)} ::
      HoldsAt(data, pos, enc(w, x)) ==> dec(r, data, pos) == Success((x, pos + |enc(w, x)|))
  }

  /** The callbacks of one kind that a generated routine calls. */
  function Hooks(t: TypeInfo, kind: CallbackKind, enabled: bool): seq<string>
  {
    if enabled then CallbacksOf(t, kind) else []
  }

  /** default(T) for the out value of a reader: null for a class, the zero struct otherwise. */
  function Default(t: TypeInfo): Value
  {
    if t.isClass then NullValue else RecordValue([])
  }

  /** The bytes the field callees write for the fields from index k on. */
  function FieldsWire(enc: (MethodInfo, Value) -> seq<byte>, callees: seq<Callee>, vals: seq<Value>, k: nat): seq<byte>
    requires |callees| == |vals| && k <= |vals|
    decreases |vals| - k
  {
    if k == |vals| then []
    else enc(callees[k].routine, vals[k]) + FieldsWire(enc, callees, vals, k + 1)
  }

  /** One Wrote event per field from index k on. */
  function FieldEvents(enc: (MethodInfo, Value) -> seq<byte>, callees: seq<Callee>, vals: seq<Value>, k: nat): seq<Event>
    requires |callees| == |vals| && k <= |vals|
    decreases |vals| - k
  {
    if k == |vals| then []
    else [Wrote(enc(callees[k].routine, vals[k]))] + FieldEvents(enc, callees, vals, k + 1)
  }

  lemma {:induction false} WireAppend(a: seq<Event>, b: seq<Event>)
    ensures Wire(a + b) == Wire(a) + Wire(b)
  {
    if a != [] {
      assert (a + b)[1..] == a[1..] + b;
      WireAppend(a[1..], b);
    } else {
      assert a + b == b;
    }
  }

  lemma {:induction false} WireCalled(ms: seq<string>)
    ensures Wire(CalledAll(ms)) == []
  {
    if ms != [] {
      assert CalledAll(ms)[1..] == CalledAll(ms[1..]);
      WireCalled(ms[1..]);
    }
  }

  lemma {:induction false} WireFields(enc: (MethodInfo, Value) -> seq<byte>, callees: seq<Callee>, vals: seq<Value>, k: nat)
    requires |callees| == |vals| && k <= |vals|
    ensures Wire(FieldEvents(enc, callees, vals, k)) == FieldsWire(enc, callees, vals, k)
    decreases |vals| - k
  {
    if k < |vals| {
      var es := FieldEvents(enc, callees, vals, k);
      assert es[1..] == FieldEvents(enc, callees, vals, k + 1);
      WireFields(enc, callees, vals, k + 1);
    }
  }

  /** CallbackOps, when it succeeds, calls exactly the hooks; it fails only for a value type
      that has hooks while callbacks are enabled. */
  lemma CallbackOpsShape(t: TypeInfo, kind: CallbackKind, enabled: bool)
    ensures CallbackOps(t, kind, enabled).Success? ==> CallbackOps(t, kind, enabled).value == CallOps(Hooks(t, kind, enabled))
    ensures CallbackOps(t, kind, enabled).Failure? <==> enabled && t.isValueType && CallbacksOf(t, kind) != []
    ensures CallbackOps(t, kind, enabled).Failure? ==> CallbackOps(t, kind, enabled).error == NotImplemented
  {
  }

  /** Serialization callbacks are refused for value types: the generated writer exists exactly
      when the type is a reference type, callbacks are off, or it has no writer hooks. */
  lemma GenericWriterOpsFails(t: TypeInfo, callbacks: bool, callees: seq<Callee>)
    requires |callees| == |GetFieldInfos(t)|
    ensures GenericWriterOps(t, callbacks, callees).Failure? <==>
      callbacks && t.isValueType && (CallbacksOf(t, OnSerializing) != [] || CallbacksOf(t, OnSerialized) != [])
    ensures GenericWriterOps(t, callbacks, callees).Failure? ==> GenericWriterOps(t, callbacks, callees).error == NotImplemented
  {
    CallbackOpsShape(t, OnSerializing, callbacks);
    CallbackOpsShape(t, OnSerialized, callbacks);
  }

  /** Running a := b: ops that cannot stop early (no HasValue test) run to the end and the
      rest then runs on. */
  lemma {:induction false} WriterAppend(a: seq<Op>, b: seq<Op>, v: Value, enc: (MethodInfo, Value) -> seq<byte>)
    requires forall i :: 0 <= i < |a| ==> !a[i].HasValueFlag?
    requires RunWriter(a, v, enc).Success? && RunWriter(b, v, enc).Success?
    ensures RunWriter(a + b, v, enc) == Success(RunWriter(a, v, enc).value + RunWriter(b, v, enc).value)
  {
    if a == [] {
      assert a + b == b;
      assert RunWriter(a, v, enc) == Success([]);
      assert RunWriter(a + b, v, enc) == RunWriter(b, v, enc);
      assert RunWriter(a, v, enc).value + RunWriter(b, v, enc).value == RunWriter(b, v, enc).value;
    } else {
      assert (a + b)[0] == a[0] && (a + b)[1..] == a[1..] + b;
      assert !a[0].HasValueFlag?;
      WriterAppend(a[1..], b, v, enc);
      var ea, eb := RunWriter(a[1..], v, enc).value, RunWriter(b, v, enc).value;
      match a[0]
      case Callback(m) => assert [Called(m)] + (ea + eb) == [Called(m)] + ea + eb;
      case NewInstance =>
      case FieldRoutine(i, _, c) =>
        var w := [Wrote(enc(c.routine, v.fields[i]))];
        assert w + (ea + eb) == w + ea + eb;
      case ValueRoutine(c) =>
        var w := [Wrote(enc(c.routine, v.inner.value))];
        assert w + (ea + eb) == w + ea + eb;
      case HasValueFlag(_) => assert false;
    }
  }

  lemma {:induction false} WriterCalls(ms: seq<string>, v: Value, enc: (MethodInfo, Value) -> seq<byte>)
    ensures RunWriter(CallOps(ms), v, enc) == Success(CalledAll(ms))
  {
    if ms != [] {
      assert CallOps(ms)[1..] == CallOps(ms[1..]);
      WriterCalls(ms[1..], v, enc);
    }
  }

  lemma {:induction false} WriterFields(fields: seq<FieldInfo>, callees: seq<Callee>, k: nat, vals: seq<Value>,
                                        enc: (MethodInfo, Value) -> seq<byte>)
    requires |callees| == |fields| == |vals| && k <= |fields|
    ensures RunWriter(FieldOps(fields, callees, k), RecordValue(vals), enc) == Success(FieldEvents(enc, callees, vals, k))
    decreases |fields| - k
  {
    if k < |fields| {
      assert FieldOps(fields, callees, k)[1..] == FieldOps(fields, callees, k + 1);
      WriterFields(fields, callees, k + 1, vals, enc);
    }
  }

  lemma NoFlagInCalls(ms: seq<string>)
    ensures forall i :: 0 <= i < |CallOps(ms)| ==> !CallOps(ms)[i].HasValueFlag?
  {
  }

  lemma {:induction false} NoFlagInFields(fields: seq<FieldInfo>, callees: seq<Callee>, k: nat)
    requires |callees| == |fields| && k <= |fields|
    ensures forall i :: 0 <= i < |FieldOps(fields, callees, k)| ==> FieldOps(fields, callees, k)[i].FieldRoutine?
    decreases |fields| - k
  {
    if k < |fields| {
      NoFlagInFields(fields, callees, k + 1);
    }
  }

  /** The generated writer of a serializable type runs the OnSerializing callbacks (base class
      first), then writes every field of GetFieldInfos(t) once, in that order, through the
      field's callee, then runs the OnSerialized callbacks; the stream receives the fields'
      bytes back to back and nothing else. */
  lemma GenericWriterRun(t: TypeInfo, callbacks: bool, callees: seq<Callee>, vals: seq<Value>,
                         enc: (MethodInfo, Value) -> seq<byte>)
    requires |callees| == |GetFieldInfos(t)| == |vals|
    requires GenericWriterOps(t, callbacks, callees).Success?
    ensures RunWriter(GenericWriterOps(t, callbacks, callees).value, RecordValue(vals), enc) ==
      Success(CalledAll(Hooks(t, OnSerializing, callbacks)) + FieldEvents(enc, callees, vals, 0) +
              CalledAll(Hooks(t, OnSerialized, callbacks)))
    ensures Wire(RunWriter(GenericWriterOps(t, callbacks, callees).value, RecordValue(vals), enc).value) ==
      FieldsWire(enc, callees, vals, 0)
  {
    var fields := GetFieldInfos(t);
    var pre, post := Hooks(t, OnSerializing, callbacks), Hooks(t, OnSerialized, callbacks);
    CallbackOpsShape(t, OnSerializing, callbacks);
    CallbackOpsShape(t, OnSerialized, callbacks);
    var v := RecordValue(vals);
    var a, f, b := CallOps(pre), FieldOps(fields, callees, 0), CallOps(post);
    WriterCalls(pre, v, enc);
    WriterCalls(post, v, enc);
    WriterFields(fields, callees, 0, vals, enc);
    NoFlagInCalls(pre);
    NoFlagInFields(fields, callees, 0);
    WriterAppend(a, f, v, enc);
    assert forall i :: 0 <= i < |a + f| ==> !(a + f)[i].HasValueFlag?;
    WriterAppend(a + f, b, v, enc);
    var es := CalledAll(pre) + FieldEvents(enc, callees, vals, 0) + CalledAll(post);
    WireAppend(CalledAll(pre) + FieldEvents(enc, callees, vals, 0), CalledAll(post));
    WireAppend(CalledAll(pre), FieldEvents(enc, callees, vals, 0));
    WireCalled(pre);
    WireCalled(post);
    WireFields(enc, callees, vals, 0);
  }

  /** Running a := b on the reader side: the value and position a leaves are where b starts. */
  lemma {:induction false} ReaderAppend(a: seq<Op>, b: seq<Op>, data: seq<byte>, pos: nat,
                                        dec: (MethodInfo, seq<byte>, nat) -> Result<(Value, nat)>, acc: Value)
    requires forall i :: 0 <= i < |a| ==> !a[i].HasValueFlag?
    requires RunReader(a, data, pos, dec, acc).Success?
    ensures RunReader(b, data, RunReader(a, data, pos, dec, acc).value.1, dec, RunReader(a, data, pos, dec, acc).value.0).Success? ==>
      RunReader(a + b, data, pos, dec, acc) ==
        Success((RunReader(b, data, RunReader(a, data, pos, dec, acc).value.1, dec, RunReader(a, data, pos, dec, acc).value.0).value.0,
                 RunReader(b, data, RunReader(a, data, pos, dec, acc).value.1, dec, RunReader(a, data, pos, dec, acc).value.0).value.1,
                 RunReader(a, data, pos, dec, acc).value.2 +
                 RunReader(b, data, RunReader(a, data, pos, dec, acc).value.1, dec, RunReader(a, data, pos, dec, acc).value.0).value.2))
  {
    if a == [] {
      assert a + b == b;
      assert RunReader(a, data, pos, dec, acc) == Success((acc, pos, []));
      var rb := RunReader(b, data, pos, dec, acc);
      if rb.Success? {
        var none: seq<Event> := [];
        assert none + rb.value.2 == rb.value.2;
      }
    } else {
      assert (a + b)[0] == a[0] && (a + b)[1..] == a[1..] + b;
      assert !a[0].HasValueFlag?;
      match a[0]
      case Callback(m) =>
        ReaderAppend(a[1..], b, data, pos, dec, acc);
        var ea := RunReader(a[1..], data, pos, dec, acc).value.2;
        assert forall eb: seq<Event> :: [Called(m)] + (ea + eb) == [Called(m)] + ea + eb;
      case NewInstance =>
        ReaderAppend(a[1..], b, data, pos, dec, RecordValue([]));
        var ea := RunReader(a[1..], data, pos, dec, RecordValue([])).value.2;
        assert forall eb: seq<Event> :: [Allocated] + (ea + eb) == [Allocated] + ea + eb;
      case FieldRoutine(i, _, c) =>
        var x := dec(c.routine, data, pos).value;
        ReaderAppend(a[1..], b, data, x.1, dec, RecordValue(acc.fields + [x.0]));
      case ValueRoutine(c) =>
        var x := dec(c.routine, data, pos).value;
        ReaderAppend(a[1..], b, data, x.1, dec, NullableValue(Some(x.0)));
      case HasValueFlag(_) => assert false;
    }
  }

  lemma {:induction false} ReaderCalls(ms: seq<string>, data: seq<byte>, pos: nat,
                                       dec: (MethodInfo, seq<byte>, nat) -> Result<(Value, nat)>, acc: Value)
    ensures RunReader(CallOps(ms), data, pos, dec, acc) == Success((acc, pos, CalledAll(ms)))
  {
    if ms != [] {
      assert CallOps(ms)[1..] == CallOps(ms[1..]);
      ReaderCalls(ms[1..], data, pos, dec, acc);
    }
  }

  /** The stream holds a + b at pos exactly when it holds a there and b right after it. */
  lemma HoldsAtSplit(data: seq<byte>, pos: nat, a: seq<byte>, b: seq<byte>)
    requires HoldsAt(data, pos, a + b)
    ensures HoldsAt(data, pos, a) && HoldsAt(data, pos + |a|, b)
  {
    assert data[pos..pos + |a|] == data[pos..pos + |a + b|][..|a|];
    assert data[pos + |a|..pos + |a| + |b|] == data[pos..pos + |a + b|][|a|..];
  }

  /** A callee reader that round-trips x, run where x's bytes are followed by rest, reads x
      and stops at mid, where rest begins. */
  lemma ReadsBack(enc: (MethodInfo, Value) -> seq<byte>, dec: (MethodInfo, seq<byte>, nat) -> Result<(Value, nat)>,
                  w: MethodInfo, r: MethodInfo, x: Value, rest: seq<byte>, data: seq<byte>, pos: nat, mid: nat)
    requires RoundTrips(enc, dec, w, r, x) && HoldsAt(data, pos, enc(w, x) + rest) && mid == pos + |enc(w, x)|
    ensures dec(r, data, pos) == Success((x, mid)) && HoldsAt(data, mid, rest)
  {
    HoldsAtSplit(data, pos, enc(w, x), rest);
  }

  /** The field readers, run from field k on where the field writers' bytes sit, read back the
      remaining field values and stop right after them. */
  lemma {:induction false} ReaderFields(fields: seq<FieldInfo>, wc: seq<Callee>, rc: seq<Callee>, k: nat, vals: seq<Value>,
                                        enc: (MethodInfo, Value) -> seq<byte>,
                                        dec: (MethodInfo, seq<byte>, nat) -> Result<(Value, nat)>,
                                        data: seq<byte>, pos: nat, end: nat)
    requires |wc| == |rc| == |fields| == |vals| && k <= |fields|
    requires forall i :: 0 <= i < |vals| ==> RoundTrips(enc, dec, wc[i].routine, rc[i].routine, vals[i])
    requires HoldsAt(data, pos, FieldsWire(enc, wc, vals, k)) && end == pos + |FieldsWire(enc, wc, vals, k)|
    ensures RunReader(FieldOps(fields, rc, k), data, pos, dec, RecordValue(vals[..k])) ==
      Success((RecordValue(vals), end, []))
    decreases |fields| - k
  {
    if k == |fields| {
      assert vals[..k] == vals;
    } else {
      var w := enc(wc[k].routine, vals[k]);
      var rest := FieldsWire(enc, wc, vals, k + 1);
      var mid := pos + |w|;
      ReadsBack(enc, dec, wc[k].routine, rc[k].routine, vals[k], rest, data, pos, mid);
      assert vals[..k] + [vals[k]] == vals[..k + 1];
      assert FieldOps(fields, rc, k)[1..] == FieldOps(fields, rc, k + 1);
      ReaderFields(fields, wc, rc, k + 1, vals, enc, dec, data, mid, end);
    }
  }

  /** The start of a generated reader: allocation (for a class) and the OnDeserializing
      callbacks leave the empty instance and do not touch the stream. */
  lemma {:induction false} ReaderStart(t: TypeInfo, pre: seq<string>, data: seq<byte>, pos: nat,
                                       dec: (MethodInfo, seq<byte>, nat) -> Result<(Value, nat)>)
    ensures RunReader(AllocOps(t) + CallOps(pre), data, pos, dec, Default(t)) ==
      Success((RecordValue([]), pos, (if t.isClass then [Allocated] else []) + CalledAll(pre)))
  {
    var start := AllocOps(t) + CallOps(pre);
    ReaderCalls(pre, data, pos, dec, RecordValue([]));
    if t.isClass {
      assert start[0] == NewInstance && start[1..] == CallOps(pre);
    } else {
      var none: seq<Event> := [];
      assert start == CallOps(pre) && none + CalledAll(pre) == CalledAll(pre);
    }
  }

  /** The generated reader of a serializable type, run on default(T) where the field writers'
      bytes sit: a class is allocated first, the OnDeserializing callbacks run, every field is
      read back in GetFieldInfos order, then the OnDeserialized callbacks run; the stream is
      left right after the fields. */
  lemma GenericReaderRun(t: TypeInfo, callbacks: bool, wc: seq<Callee>, rc: seq<Callee>, vals: seq<Value>,
                         enc: (MethodInfo, Value) -> seq<byte>,
                         dec: (MethodInfo, seq<byte>, nat) -> Result<(Value, nat)>,
                         data: seq<byte>, pos: nat)
    requires |wc| == |rc| == |vals| == |GetFieldInfos(t)|
    requires GenericReaderOps(t, callbacks, rc).Success?
    requires forall i :: 0 <= i < |vals| ==> RoundTrips(enc, dec, wc[i].routine, rc[i].routine, vals[i])
    requires HoldsAt(data, pos, FieldsWire(enc, wc, vals, 0))
    ensures RunReader(GenericReaderOps(t, callbacks, rc).value, data, pos, dec, Default(t)) ==
      Success((RecordValue(vals), (pos + |FieldsWire(enc, wc, vals, 0)|) as nat,
               (if t.isClass then [Allocated] else []) + CalledAll(Hooks(t, OnDeserializing, callbacks)) +
               CalledAll(Hooks(t, OnDeserialized, callbacks))))
  {
    var pre, post := Hooks(t, OnDeserializing, callbacks), Hooks(t, OnDeserialized, callbacks);
    CallbackOpsShape(t, OnDeserializing, callbacks);
    CallbackOpsShape(t, OnDeserialized, callbacks);
    var start := AllocOps(t) + CallOps(pre);
    var f := FieldOps(GetFieldInfos(t), rc, 0);
    ReaderStart(t, pre, data, pos, dec);
    var end: nat := pos + |FieldsWire(enc, wc, vals, 0)|;
    assert forall i :: 0 <= i < |f| ==> !f[i].HasValueFlag? by {
      NoFlagInFields(GetFieldInfos(t), rc, 0);
    }
    assert vals[..0] == [];
    ReaderFields(GetFieldInfos(t), wc, rc, 0, vals, enc, dec, data, pos, end);
    ReaderCalls(post, data, end, dec, RecordValue(vals));
    ReaderThree(start, f, CallOps(post), data, pos, dec, Default(t),
                (if t.isClass then [Allocated] else []) + CalledAll(pre), RecordValue(vals), end, CalledAll(post));
  }

  /** ReaderAppend with both runs named: a then b runs a, then b from where a stopped. */
  lemma ReaderSeq(a: seq<Op>, b: seq<Op>, data: seq<byte>, pos: nat, dec: (MethodInfo, seq<byte>, nat) -> Result<(Value, nat)>,
                  acc: Value, v1: Value, p1: nat, e1: seq<Event>, v2: Value, p2: nat, e2: seq<Event>)
    requires forall i :: 0 <= i < |a| ==> !a[i].HasValueFlag?
    requires RunReader(a, data, pos, dec, acc) == Success((v1, p1, e1))
    requires RunReader(b, data, p1, dec, v1) == Success((v2, p2, e2))
    ensures RunReader(a + b, data, pos, dec, acc) == Success((v2, p2, e1 + e2))
  {
    ReaderAppend(a, b, data, pos, dec, acc);
  }

  /** The three parts of a generic reader in a row, each run from where the one before it
      stopped: start builds the empty record, f reads the fields without events, tail only
      calls callbacks. */
  lemma ReaderThree(start: seq<Op>, f: seq<Op>, tail: seq<Op>, data: seq<byte>, pos: nat,
                    dec: (MethodInfo, seq<byte>, nat) -> Result<(Value, nat)>, acc: Value,
                    e0: seq<Event>, v: Value, end: nat, e2: seq<Event>)
    requires forall i :: 0 <= i < |start| ==> !start[i].HasValueFlag?
    requires forall i :: 0 <= i < |f| ==> !f[i].HasValueFlag?
    requires RunReader(start, data, pos, dec, acc) == Success((RecordValue([]), pos, e0))
    requires RunReader(f, data, pos, dec, RecordValue([])) == Success((v, end, []))
    requires RunReader(tail, data, end, dec, v) == Success((v, end, e2))
    ensures RunReader(start + f + tail, data, pos, dec, acc) == Success((v, end, e0 + e2))
  {
    var none: seq<Event> := [];
    ReaderSeq(start, f, data, pos, dec, acc, RecordValue([]), pos, e0, v, end, none);
    assert e0 + none == e0;
    assert forall i :: 0 <= i < |start + f| ==> !(start + f)[i].HasValueFlag?;
    ReaderSeq(start + f, tail, data, pos, dec, acc, v, end, e0, v, end, e2);
  }

  /** Round trip of a generated serializable type: whatever the callees are, if each field's
      writer and reader round-trip on that field's value, then the generated reader, run where
      the generated writer's bytes sit, rebuilds the same field values and stops right after
      those bytes. */
  lemma GenericRoundTrip(t: TypeInfo, callbacks: bool, wc: seq<Callee>, rc: seq<Callee>, vals: seq<Value>,
                         enc: (MethodInfo, Value) -> seq<byte>,
                         dec: (MethodInfo, seq<byte>, nat) -> Result<(Value, nat)>,
                         data: seq<byte>, pos: nat)
    requires |wc| == |rc| == |vals| == |GetFieldInfos(t)|
    requires GenericWriterOps(t, callbacks, wc).Success? && GenericReaderOps(t, callbacks, rc).Success?
    requires forall i :: 0 <= i < |vals| ==> RoundTrips(enc, dec, wc[i].routine, rc[i].routine, vals[i])
    ensures RunWriter(GenericWriterOps(t, callbacks, wc).value, RecordValue(vals), enc).Success?
    ensures HoldsAt(data, pos, Wire(RunWriter(GenericWriterOps(t, callbacks, wc).value, RecordValue(vals), enc).value)) ==>
      var r := RunReader(GenericReaderOps(t, callbacks, rc).value, data, pos, dec, Default(t));
      r.Success? && r.value.0 == RecordValue(vals) &&
      r.value.1 == pos + |Wire(RunWriter(GenericWriterOps(t, callbacks, wc).value, RecordValue(vals), enc).value)|
  {
    GenericWriterRun(t, callbacks, wc, vals, enc);
    if HoldsAt(data, pos, FieldsWire(enc, wc, vals, 0)) {
      GenericReaderRun(t, callbacks, wc, rc, vals, enc, dec, data, pos);
    }
  }

  /** The events of the Nullable<T> writer: the flag, and the value only when there is one. */
  function NullableEvents(enc: (MethodInfo, Value) -> seq<byte>, boolRoutine: MethodInfo, callee: Callee, v: Option<Value>): seq<Event>
  {
    [Wrote(enc(boolRoutine, PrimitiveValue(P.Bool(v.Some?))))] +
    (if v.Some? then [Wrote(enc(callee.routine, v.value))] else [])
  }

  /** The Nullable<T> writer writes HasValue through bool's writer and then, only when it is
      true, the value through T's callee. */
  lemma NullableWriterRun(boolRoutine: MethodInfo, callee: Callee, v: Option<Value>, enc: (MethodInfo, Value) -> seq<byte>)
    ensures RunWriter(NullableOps(boolRoutine, callee), NullableValue(v), enc) == Success(NullableEvents(enc, boolRoutine, callee, v))
    ensures Wire(NullableEvents(enc, boolRoutine, callee, v)) ==
      enc(boolRoutine, PrimitiveValue(P.Bool(v.Some?))) + (if v.Some? then enc(callee.routine, v.value) else [])
  {
    var ops := NullableOps(boolRoutine, callee);
    var nv := NullableValue(v);
    var flag := enc(boolRoutine, PrimitiveValue(P.Bool(v.Some?)));
    var es := NullableEvents(enc, boolRoutine, callee, v);
    assert ops[0] == HasValueFlag(boolRoutine) && ops[1..] == [ValueRoutine(callee)];
    if v.Some? {
      var w := enc(callee.routine, v.value);
      var none: seq<Event> := [];
      assert [ValueRoutine(callee)][1..] == [] && [Wrote(w)] + none == [Wrote(w)];
      assert RunWriter([ValueRoutine(callee)], nv, enc) == Success([Wrote(w)]);
      assert es == [Wrote(flag), Wrote(w)] && es[1..] == [Wrote(w)] && es[1..][1..] == [];
      assert Wire(es[1..]) == w + Wire([]);
    } else {
      assert es == [Wrote(flag)] && es[1..] == [];
    }
  }

  /** Round trip of Nullable<T>: if bool's routines round-trip the flag and T's callees
      round-trip the value, the reader, run on default(T?) where the writer's bytes sit, gives
      back the same nullable (null when it had no value) and stops right after those bytes. */
  lemma NullableRoundTrip(bw: MethodInfo, br: MethodInfo, wc: Callee, rc: Callee, v: Option<Value>,
                          enc: (MethodInfo, Value) -> seq<byte>,
                          dec: (MethodInfo, seq<byte>, nat) -> Result<(Value, nat)>,
                          data: seq<byte>, pos: nat)
    requires RoundTrips(enc, dec, bw, br, PrimitiveValue(P.Bool(v.Some?)))
    requires v.Some? ==> RoundTrips(enc, dec, wc.routine, rc.routine, v.value)
    requires HoldsAt(data, pos, Wire(NullableEvents(enc, bw, wc, v)))
    ensures RunReader(NullableOps(br, rc), data, pos, dec, NullableValue(None)) ==
      Success((NullableValue(v), (pos + |Wire(NullableEvents(enc, bw, wc, v))|) as nat, []))
  {
    NullableWriterRun(bw, wc, v, enc);
    var flag := enc(bw, PrimitiveValue(P.Bool(v.Some?)));
    var rest: seq<byte> := if v.Some? then enc(wc.routine, v.value) else [];
    HoldsAtSplit(data, pos, flag, rest);
    assert dec(br, data, pos) == Success((PrimitiveValue(P.Bool(v.Some?)), (pos + |flag|) as nat));
    var ops := NullableOps(br, rc);
    assert ops[0] == HasValueFlag(br) && ops[1..] == [ValueRoutine(rc)];
    if v.Some? {
      var q: nat := pos + |flag|;
      assert dec(rc.routine, data, q) == Success((v.value, (q + |rest|) as nat));
      assert [ValueRoutine(rc)][1..] == [];
      assert RunReader([ValueRoutine(rc)], data, q, dec, NullableValue(None)) ==
        Success((NullableValue(v), (q + |rest|) as nat, []));
    }
  }

  /** What a built-in static routine writes for v: a primitive routine the bytes of the
      WritePrimitive overload for v's type, NoOpSerializer.Serialize nothing. The routines of
      foreign handlers are not part of this model. */
  function StaticWrite(m: MethodInfo, v: Value): Result<seq<byte>>
  {
    match m
    case PrimitiveMethod(Writer, k) =>
      if v.PrimitiveValue? && P.KindOf(v.p) == k && P.WellFormed(v.p) then Success(P.Encode(v.p))
      else Failure(InvalidCast)
    case NoOpMethod(Writer) => Success([])
    case _ => Failure(NotSupported)
  }

  /** What a built-in static routine reads: a primitive routine the ReadPrimitive overload for
      its type, NoOpSerializer.Deserialize null without touching the stream. */
  function StaticRead(m: MethodInfo, data: seq<byte>, pos: nat): Result<(Value, nat)>
  {
    match m
    case PrimitiveMethod(Reader, k) =>
      if pos > |data| then Failure(EndOfStream)
      else
        var x :- P.Decode(k, data, pos);
        Success((PrimitiveValue(x.0), x.1))
    case NoOpMethod(Reader) => Success((NullValue, pos))
    case _ => Failure(NotSupported)
  }

  /** StaticWrite as the `enc` of the interpreters (nothing where it fails). */
  function StaticEncode(m: MethodInfo, v: Value): seq<byte>
  {
    if StaticWrite(m, v).Success? then StaticWrite(m, v).value else []
  }

  /** The primitive routines of one type round-trip every well-formed value of that type. */
  lemma PrimitiveRoutinesRoundTrip(k: P.Kind, p: P.Primitive)
    requires P.KindOf(p) == k && P.WellFormed(p)
    ensures StaticWrite(PrimitiveMethod(Writer, k), PrimitiveValue(p)) == Success(P.Encode(p))
    ensures RoundTrips(StaticEncode, StaticRead, PrimitiveMethod(Writer, k), PrimitiveMethod(Reader, k), PrimitiveValue(p))
  {
    var enc: (MethodInfo, Value) -> seq<byte> := StaticEncode;
    var dec: (MethodInfo, seq<byte>, nat) -> Result<(Value, nat)> := StaticRead;
    var w, r, x := PrimitiveMethod(Writer, k), PrimitiveMethod(Reader, k), PrimitiveValue(p);
    forall data: seq<byte>, pos: nat, q: nat | q == pos + |enc(w, x)| && q <= |data| && data[pos..q] == enc(w, x)
      ensures dec(r, data, pos) == Success((x, q))
    {
      PrimitiveReadsAt(enc, dec, k, p, data, pos, q);
    }
    RoundTripsFromEnds(enc, dec, w, r, x);
  }

  /** One point of the round trip: where the primitive writer's bytes sit, at data[pos..q],
      the primitive reader returns the value and stops at q. */
  lemma PrimitiveReadsAt(enc: (MethodInfo, Value) -> seq<byte>, dec: (MethodInfo, seq<byte>, nat) -> Result<(Value, nat)>,
                         k: P.Kind, p: P.Primitive, data: seq<byte>, pos: nat, q: nat)
    requires enc == StaticEncode && dec == StaticRead && P.KindOf(p) == k && P.WellFormed(p)
    requires q == pos + |enc(PrimitiveMethod(Writer, k), PrimitiveValue(p))|
    requires q <= |data| && data[pos..q] == enc(PrimitiveMethod(Writer, k), PrimitiveValue(p))
    ensures dec(PrimitiveMethod(Reader, k), data, pos) == Success((PrimitiveValue(p), q))
  {
    var w, r, x := PrimitiveMethod(Writer, k), PrimitiveMethod(Reader, k), PrimitiveValue(p);
    StaticHandles(enc, dec, w, x, r, data, pos);
    StaticEncodeOf(k, p);
    StaticReadEncoded(k, p, data, pos, q);
  }

  /** RoundTrips from the same statement with the end of the written bytes named. */
  lemma RoundTripsFromEnds(enc: (MethodInfo, Value) -> seq<byte>, dec: (MethodInfo, seq<byte>, nat) -> Result<(Value, nat)>,
                           w: MethodInfo, r: MethodInfo, x: Value)
    requires forall data: seq<byte>, pos: nat, q: nat | q == pos + |enc(w, x)| && q <= |data| && data[pos..q] == enc(w, x) ::
      dec(r, data, pos) == Success((x, q))
    ensures RoundTrips(enc, dec, w, r, x)
  {
    forall data: seq<byte>, pos: nat | HoldsAt(data, pos, enc(w, x))
      ensures dec(r, data, pos) == Success((x, (pos + |enc(w, x)|) as nat))
    {
      var q := pos + |enc(w, x)|;
      assert data[pos..q] == enc(w, x);
    }
  }

  /** Calling the built-in static routines through their function values. */
  lemma StaticHandles(enc: (MethodInfo, Value) -> seq<byte>, dec: (MethodInfo, seq<byte>, nat) -> Result<(Value, nat)>,
                      w: MethodInfo, x: Value, r: MethodInfo, data: seq<byte>, pos: nat)
    requires enc == StaticEncode && dec == StaticRead
    ensures enc(w, x) == StaticEncode(w, x) && dec(r, data, pos) == StaticRead(r, data, pos)
  {
  }

  /** A primitive reader routine run where Primitives.Encode(p) sits, at data[pos..q],
      decodes p and stops at q. */
  lemma StaticReadEncoded(k: P.Kind, p: P.Primitive, data: seq<byte>, pos: nat, q: nat)
    requires P.KindOf(p) == k && P.WellFormed(p)
    requires q == pos + |P.Encode(p)| <= |data| && data[pos..q] == P.Encode(p)
    ensures StaticRead(PrimitiveMethod(Reader, k), data, pos) == Success((PrimitiveValue(p), q))
  {
    P.DecodeEncode(p, data, pos, q);
    StaticReadOf(k, data, pos, p, q);
  }

  /** The primitive writer routine emits Primitives.Encode for a value of its type. */
  lemma StaticEncodeOf(k: P.Kind, p: P.Primitive)
    requires P.KindOf(p) == k && P.WellFormed(p)
    ensures StaticEncode(PrimitiveMethod(Writer, k), PrimitiveValue(p)) == P.Encode(p)
  {
  }

  /** The primitive reader routine returns what Primitives.Decode reads. */
  lemma StaticReadOf(k: P.Kind, data: seq<byte>, pos: nat, v: P.Primitive, q: nat)
    requires pos <= |data| && P.Decode(k, data, pos) == Success((v, q))
    ensures StaticRead(PrimitiveMethod(Reader, k), data, pos) == Success((PrimitiveValue(v), q))
  {
  }

  /** NoOpSerializer's routines write nothing and read null without moving the stream, for
      any value. */
  lemma NoOpRoutines(v: Value, data: seq<byte>, pos: nat)
    ensures StaticWrite(NoOpMethod(Writer), v) == Success([])
    ensures StaticRead(NoOpMethod(Reader), data, pos) == Success((NullValue, pos))
  {
  }

  /** An enum value goes over the wire as its underlying integer: the enum's routines are the
      primitive routines of Enum.GetUnderlyingType, so they round-trip every value of it. */
  lemma EnumRoundTrip(t: TypeInfo, p: P.Primitive)
    requires t.isEnum && P.WellFormed(p) && KindName(P.KindOf(p)) == t.enumUnderlying
    ensures GetStaticRoutine(EnumSerializer, Writer, t) == Success(PrimitiveMethod(Writer, P.KindOf(p)))
    ensures GetStaticRoutine(EnumSerializer, Reader, t) == Success(PrimitiveMethod(Reader, P.KindOf(p)))
    ensures RoundTrips(StaticEncode, StaticRead, PrimitiveMethod(Writer, P.KindOf(p)), PrimitiveMethod(Reader, P.KindOf(p)), PrimitiveValue(p))
  {
    PrimitiveKindOfName(P.KindOf(p));
    EnumSerializerRoutines(t, Writer);
    EnumSerializerRoutines(t, Reader);
    PrimitiveRoutinesRoundTrip(P.KindOf(p), p);
  }

  /** A null Nullable<T> goes over the wire as the single byte 0 when bool's routine is the
      primitive one, and a present value as 1 followed by the value's bytes. */
  lemma NullableWire(callee: Callee, v: Option<Value>)
    ensures Wire(NullableEvents(StaticEncode, PrimitiveMethod(Writer, P.BoolKind), callee, v)) ==
      [if v.Some? then 1 else 0] + (if v.Some? then StaticEncode(callee.routine, v.value) else [])
  {
    NullableWriterRun(PrimitiveMethod(Writer, P.BoolKind), callee, v, StaticEncode);
  }
}
