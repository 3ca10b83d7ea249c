/** The reflection facts the serializer consults about a .NET type (System.Reflection.TypeInfo),
    as plain values. A type is known by its full name; its base type is nested, so walks up
    the inheritance chain are structural recursions. */
module Types {
  import opened Wrappers

  /** The full name of a type. */
  datatype TypeName = TypeName(fullName: string)

  const ObjectType: TypeName := TypeName("System.Object")
  const BoolType: TypeName := TypeName("System.Boolean")
  const NullableDefinition: TypeName := TypeName("System.Nullable`1")

  /** The four System.Runtime.Serialization callback attributes. */
  datatype CallbackKind = OnSerializing | OnSerialized | OnDeserializing | OnDeserialized

  /** A method and the callback attributes it carries. */
  datatype MethodDecl = MethodDecl(name: string, attributes: set<CallbackKind>)

  /** A declared field: its name, declared type and the attributes GetFieldInfos filters on. */
  datatype FieldInfo = FieldInfo(
    name: string,
    fieldType: TypeName,
    notSerialized: bool,
    isStatic: bool,
    isLiteral: bool)

  /** What Type/TypeInfo report about one type. `genericDefinition` is Some exactly when
      IsGenericType holds; `enumUnderlying` is Enum.GetUnderlyingType for an enum;
      `hasDefaultConstructor` says a parameterless constructor is declared. */
  datatype TypeInfo = TypeInfo(
    name: TypeName,
    isAbstract: bool,
    isInterface: bool,
    containsGenericParameters: bool,
    isValueType: bool,
    isClass: bool,
    isArray: bool,
    isSealed: bool,
    isSerializable: bool,
    isEnum: bool,
    hasDefaultConstructor: bool,
    enumUnderlying: TypeName,
    genericDefinition: Option<TypeName>,
    genericArguments: seq<TypeName>,
    declaredFields: seq<FieldInfo>,
    methods: seq<MethodDecl>,
    baseType: Option<TypeInfo>)

  /** The names of the proper base classes of t, nearest first. */
  function Ancestors(t: TypeInfo): (r: seq<TypeName>)
    ensures t.baseType.None? <==> r == []
    ensures t.baseType.Some? ==> r[0] == t.baseType.value.name
  {
    match t.baseType
    case None => []
    case Some(b) => [b.name] + Ancestors(b)
  }

  /** Type.IsSubclassOf: x is a proper base class of t. */
  predicate IsSubclassOf(t: TypeInfo, x: TypeName)
  {
    x in Ancestors(t)
  }

  /** A type that never gets a descriptor of its own: registration and Collect skip it. */
  predicate AbstractOrInterface(t: TypeInfo)
  {
    t.isAbstract || t.isInterface
  }

}
