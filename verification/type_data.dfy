/** TypeData: the descriptor of one registered type. Its identity (type, id, handler) is fixed
    when it is built; its routines and the four delegates are slots filled once each, while
    the serializer generates code. */
module Descriptors {
  import opened Wrappers
  import opened Bits
  import opened Types
  import opened Handlers
  import opened Routines
  import opened Delegates

  class TypeData {
    const info: TypeInfo
    const typeId: uint32
    const handler: Handler

    var writer: Option<MethodInfo>        // WriterMethodInfo
    var reader: Option<MethodInfo>        // ReaderMethodInfo
    var writerBody: Option<Body>          // the IL emitted into a dynamic writer stub
    var readerBody: Option<Body>          // the IL emitted into a dynamic reader stub
    var writerTrampoline: Option<Delegate>
    var writerDirect: Option<Delegate>
    var readerTrampoline: Option<Delegate>
    var readerDirect: Option<Delegate>

    /** A descriptor starts with every slot empty. */
    constructor(info: TypeInfo, typeId: uint32, handler: Handler)
      ensures this.info == info && this.typeId == typeId && this.handler == handler
      ensures Empty()
    {
      this.info := info;
      this.typeId := typeId;
      this.handler := handler;
      writer, reader := None, None;
      writerBody, readerBody := None, None;
      writerTrampoline, writerDirect := None, None;
      readerTrampoline, readerDirect := None, None;
    }

    /** No slot is filled yet. */
    predicate Empty()
      reads this
    {
      Snapshot() == NoSlots
    }

    /** The contents of the eight slots, as a value. */
    function Snapshot(): Slots
      reads this
    {
      Slots(writer, reader, writerBody, readerBody,
            writerTrampoline, writerDirect, readerTrampoline, readerDirect)
    }

    /** The Type of the descriptor (TypeInfo.AsType). */
    function Type(): TypeName
    {
      info.name
    }

    /** CanCallDirect: a routine may be called without going through the object handler for a
        value type, an array, and a sealed type whose handler is static (its routine handles
        null itself). */
    predicate CanCallDirect()
    {
      info.isValueType || info.isArray || (info.isSealed && IsStatic(handler))
    }

    /** The routine slot of one direction. */
    function Routine(dir: Direction): Option<MethodInfo>
      reads this
    {
      Snapshot().Routine(dir)
    }

    function Emitted(dir: Direction): Option<Body>
      reads this
    {
      Snapshot().Emitted(dir)
    }

    function Trampoline(dir: Direction): Option<Delegate>
      reads this
    {
      Snapshot().Trampoline(dir)
    }

    function Direct(dir: Direction): Option<Delegate>
      reads this
    {
      Snapshot().Direct(dir)
    }

    /** WriterNeedsInstance / ReaderNeedsInstance: the routine takes the serializer as its
        first of three parameters. Reading it with no routine is a NullReferenceException. */
    function NeedsInstanceOf(dir: Direction): (r: Result<bool>)
      reads this
      ensures r.Success? <==> Routine(dir).Some?
      ensures r.Success? ==> (r.value <==> ParamCount(Routine(dir).value) == 3)
      ensures r.Failure? ==> r.error == NullReference
    {
      match Routine(dir)
      case None => Failure(NullReference)
      case Some(m) => Success(NeedsInstance(m))
    }

    /** Assigns the routine of one direction: a new stub, so the direction has no body yet. */
    method SetRoutine(dir: Direction, m: MethodInfo)
      requires Routine(dir).None?
      modifies this
      ensures Snapshot() == old(Snapshot()).WithRoutine(dir, m)
    {
      if dir == Writer {
        writer, writerBody := Some(m), None;
      } else {
        reader, readerBody := Some(m), None;
      }
    }

    /** Emits the body of a dynamic stub of one direction. */
    method SetBody(dir: Direction, b: Body)
      requires Emitted(dir).None?
      modifies this
      ensures Snapshot() == old(Snapshot()).WithBody(dir, b)
    {
      if dir == Writer {
        writerBody := Some(b);
      } else {
        readerBody := Some(b);
      }
    }

    /** Caches the trampoline (object-typed) delegate of one direction. */
    method SetTrampoline(dir: Direction, d: Delegate)
      requires Trampoline(dir).None?
      modifies this
      ensures Snapshot() == old(Snapshot()).WithTrampoline(dir, d)
    {
      if dir == Writer {
        writerTrampoline := Some(d);
      } else {
        readerTrampoline := Some(d);
      }
    }

    /** Caches the direct (T-typed) delegate of one direction. */
    method SetDirect(dir: Direction, d: Delegate)
      requires Direct(dir).None?
      modifies this
      ensures Snapshot() == old(Snapshot()).WithDirect(dir, d)
    {
      if dir == Writer {
        writerDirect := Some(d);
      } else {
        readerDirect := Some(d);
      }
    }
  }

  /** The eight write-once slots of a descriptor. */
  datatype Slots = Slots(
    writer: Option<MethodInfo>, reader: Option<MethodInfo>,
    writerBody: Option<Body>, readerBody: Option<Body>,
    writerTrampoline: Option<Delegate>, writerDirect: Option<Delegate>,
    readerTrampoline: Option<Delegate>, readerDirect: Option<Delegate>)
  {
    function Routine(dir: Direction): Option<MethodInfo>
    {
      if dir == Writer then writer else reader
    }

    function Emitted(dir: Direction): Option<Body>
    {
      if dir == Writer then writerBody else readerBody
    }

    function Trampoline(dir: Direction): Option<Delegate>
    {
      if dir == Writer then writerTrampoline else readerTrampoline
    }

    function Direct(dir: Direction): Option<Delegate>
    {
      if dir == Writer then writerDirect else readerDirect
    }

    /** The delegate slot of dir that a trampoline (or else a direct delegate) is cached in. */
    function Cached(dir: Direction, trampoline: bool): Option<Delegate>
    {
      if trampoline then Trampoline(dir) else Direct(dir)
    }

    /** Every slot but the routine and the body of dir. */
    function Outside(dir: Direction): Slots
    {
      if dir == Writer then this.(writer := None, writerBody := None)
      else this.(reader := None, readerBody := None)
    }

    /** The routine of dir set to m, with no body emitted for it; every other slot kept. */
    function WithRoutine(dir: Direction, m: MethodInfo): (s: Slots)
      ensures s.Routine(dir) == Some(m) && s.Emitted(dir) == None
      ensures s.Routine(Other(dir)) == Routine(Other(dir)) && s.Emitted(Other(dir)) == Emitted(Other(dir))
      ensures forall e :: s.Trampoline(e) == Trampoline(e) && s.Direct(e) == Direct(e)
    {
      if dir == Writer then this.(writer := Some(m), writerBody := None)
      else this.(reader := Some(m), readerBody := None)
    }

    /** The body of dir set to b; every other slot kept. */
    function WithBody(dir: Direction, b: Body): (s: Slots)
      ensures s.Emitted(dir) == Some(b) && s.Emitted(Other(dir)) == Emitted(Other(dir))
      ensures forall e :: s.Routine(e) == Routine(e) && s.Trampoline(e) == Trampoline(e) && s.Direct(e) == Direct(e)
    {
      if dir == Writer then this.(writerBody := Some(b)) else this.(readerBody := Some(b))
    }

    /** The trampoline of dir set to d; every other slot kept. */
    function WithTrampoline(dir: Direction, d: Delegate): (s: Slots)
      ensures s.Trampoline(dir) == Some(d) && s.Trampoline(Other(dir)) == Trampoline(Other(dir))
      ensures forall e :: s.Routine(e) == Routine(e) && s.Emitted(e) == Emitted(e) && s.Direct(e) == Direct(e)
    {
      if dir == Writer then this.(writerTrampoline := Some(d)) else this.(readerTrampoline := Some(d))
    }

    /** The direct delegate of dir set to d; every other slot kept. */
    function WithDirect(dir: Direction, d: Delegate): (s: Slots)
      ensures s.Direct(dir) == Some(d) && s.Direct(Other(dir)) == Direct(Other(dir))
      ensures forall e :: s.Routine(e) == Routine(e) && s.Emitted(e) == Emitted(e) && s.Trampoline(e) == Trampoline(e)
    {
      if dir == Writer then this.(writerDirect := Some(d)) else this.(readerDirect := Some(d))
    }
  }

  /** The delegate d cached in the slot Cached(dir, trampoline); every other slot kept. */
  function WithCached(sl: Slots, dir: Direction, trampoline: bool, d: Delegate): (s: Slots)
    ensures s.Cached(dir, trampoline) == Some(d)
    ensures forall e :: s.Routine(e) == sl.Routine(e) && s.Emitted(e) == sl.Emitted(e)
    ensures forall e, tr :: e != dir || tr != trampoline ==> s.Cached(e, tr) == sl.Cached(e, tr)
  {
    if trampoline then sl.WithTrampoline(dir, d) else sl.WithDirect(dir, d)
  }

  /** The slots of a new descriptor. */
  const NoSlots := Slots(None, None, None, None, None, None, None, None)

  function Other(dir: Direction): Direction
  {
    if dir == Writer then Reader else Writer
  }
}
