/** The delegate factories of Helpers.cs (CreateSerializeDelegate, CreateDeserializeDelegate):
    whether a descriptor's routine is handed out as the delegate itself or behind a forwarding
    trampoline, and what that trampoline passes on. The trampoline's IL is described by the
    arguments it forwards, not emitted. */
module Delegates {
  import opened Wrappers
  import opened Types
  import opened Handlers

  /** How a trampoline turns its `object` value argument into the routine's parameter type. */
  datatype Conversion =
    | NoConversion
    | UnboxAny            // writer of a value type: unbox.any T
    | CastClass           // writer of a reference type: castclass T
    | ReadIntoLocalAndBox // reader of a value type: read into a local T, then box it into the out object

  datatype Delegate =
    | RoutineDelegate(paramType: TypeName, routine: MethodInfo)   // MethodInfo.CreateDelegate on the routine
    | Trampoline(paramType: TypeName, passSerializer: bool, conversion: Conversion, routine: MethodInfo)

  /** An argument a routine receives when its delegate is called with (serializer, stream, value). */
  datatype Argument = SerializerArgument | StreamArgument | ValueArgument(conversion: Conversion)

  /** The conversion a trampoline applies to the value argument. */
  function ConversionFor(dir: Direction, needTypeConv: bool, isValueType: bool): Conversion
  {
    if !needTypeConv then NoConversion
    else match dir
      case Writer => if isValueType then UnboxAny else CastClass
      case Reader => if isValueType then ReadIntoLocalAndBox else NoConversion
  }

  /** CreateSerializeDelegate (dir == Writer) and CreateDeserializeDelegate (dir == Reader) for
      the descriptor of `dataType`, whose routine in that direction is `routine`. */
  function CreateDelegate(dir: Direction, paramType: TypeName, dataType: TypeName, isValueType: bool,
                          routine: MethodInfo): Result<Delegate>
  {
    if paramType != dataType && paramType != ObjectType then Failure(Unexpected)
    else
      var needTypeConv := paramType != dataType;
      var needsInstance := NeedsInstance(routine);
      if !needTypeConv && needsInstance then Success(RoutineDelegate(paramType, routine))
      else Success(Trampoline(paramType, needsInstance, ConversionFor(dir, needTypeConv, isValueType), routine))
  }

  /** The routine a delegate ends up calling. */
  function Target(d: Delegate): MethodInfo
  {
    d.routine
  }

  /** The arguments the routine receives from one call of the delegate. */
  function Forwarded(d: Delegate): seq<Argument>
  {
    match d
    case RoutineDelegate(_, m) =>
      if NeedsInstance(m) then [SerializerArgument, StreamArgument, ValueArgument(NoConversion)]
      else [StreamArgument, ValueArgument(NoConversion)]
    case Trampoline(_, pass, conv, _) =>
      (if pass then [SerializerArgument] else []) + [StreamArgument, ValueArgument(conv)]
  }

  /** The factories accept only the descriptor's own type or `object` as delegate parameter
      type. On success the delegate calls exactly the descriptor's routine with exactly as many
      arguments as the routine declares (for the two- and three-parameter routines that
      occur), the serializer among them exactly when the routine takes it, and the value
      converted exactly when the parameter type is `object` and the descriptor's type is not. */
  lemma DelegateForwardsToRoutine(dir: Direction, paramType: TypeName, dataType: TypeName,
                                  isValueType: bool, routine: MethodInfo)
    ensures var r := CreateDelegate(dir, paramType, dataType, isValueType, routine);
      (r.Success? <==> paramType == dataType || paramType == ObjectType) &&
      (r.Success? ==>
        Target(r.value) == routine && r.value.paramType == paramType &&
        (ParamCount(routine) == 2 || ParamCount(routine) == 3 ==> |Forwarded(r.value)| == ParamCount(routine)) &&
        (SerializerArgument in Forwarded(r.value) <==> NeedsInstance(routine)) &&
        (paramType == dataType ==> ValueArgument(NoConversion) in Forwarded(r.value)) &&
        (paramType != dataType && isValueType ==> ValueArgument(NoConversion) !in Forwarded(r.value)))
  {
  }

  /** The routine is handed out unwrapped exactly when no conversion is needed and it takes
      the serializer instance; every other successful call builds a trampoline. */
  lemma DirectExactlyWhenNoConversion(dir: Direction, paramType: TypeName, dataType: TypeName,
                                      isValueType: bool, routine: MethodInfo)
    requires paramType == dataType || paramType == ObjectType
    ensures CreateDelegate(dir, paramType, dataType, isValueType, routine).value.RoutineDelegate? <==>
      paramType == dataType && NeedsInstance(routine)
  {
  }
}
