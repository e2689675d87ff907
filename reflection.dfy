/**
  The part of .NET reflection the generator consumes, as plain data.
  A runtime type is a handle (`TypeId`) into a finite table of descriptors, so
  self- and mutually-referential types are representable.
*/
module Reflection {
  import opened Wrappers

  /** `System.TypeCode`, as returned by `Type.GetTypeCode`. */
  datatype TypeCode =
    | Empty | Object | DBNull | Boolean | Char
    | SByte | Byte | Int16 | UInt16 | Int32 | UInt32 | Int64 | UInt64
    | Single | Double | Decimal | DateTime | String

  /**
    Identity of a runtime type. The mapper compares three types by identity
    (`typeof(string)`, `typeof(DateTime)`, `typeof(bool)`); they are the three
    distinguished handles, every other type is a `ReflectedType`.
  */
  datatype TypeId = StringType | DateTimeType | BooleanType | ReflectedType(handle: nat)

  /**
    One public instance member as reflection reports it. `isInitOnly` is
    `FieldInfo.IsInitOnly`, `hasPublicSetter` is `GetSetMethod(false) != null`,
    `isSpecialName` is `MethodInfo.IsSpecialName`.
  */
  datatype MemberDesc =
    | FieldDesc(name: string, fieldType: TypeId, isInitOnly: bool)
    | PropertyDesc(name: string, propertyType: TypeId, hasPublicSetter: bool)
    | MethodDesc(name: string, returnType: TypeId, isSpecialName: bool)

  /**
    A runtime type: its names, namespace and assembly, the underlying type when
    it is `Nullable<T>`, its type code, whether it implements the non-generic
    `IDictionary` / `IEnumerable` interfaces, its generic arguments, and its
    public instance fields, properties and methods in reflection order.
  */
  datatype TypeDesc = TypeDesc(
    name: string,
    fullName: string,
    ns: string,
    assembly: string,
    nullableOf: Option<TypeId>,
    typeCode: TypeCode,
    implementsIDictionary: bool,
    implementsIEnumerable: bool,
    isGeneric: bool,
    genericArgs: seq<TypeId>,
    fields: seq<MemberDesc>,
    properties: seq<MemberDesc>,
    methods: seq<MemberDesc>)

  /**
    What one generator run sees: the type table, the project assemblies it was
    constructed with, and `Environment.NewLine`. `rank` is a proof device only:
    a measure that decreases along every reference the traversal follows.
  */
  datatype Env = Env(
    types: map<TypeId, TypeDesc>,
    assemblies: seq<string>,
    newLine: string,
    ghost rank: map<TypeId, nat>)

  /** Facts reflection guarantees about every descriptor it hands out. */
  ghost predicate WellFormedType(d: TypeDesc) {
    && (forall m | m in d.fields :: m.FieldDesc?)
    && (forall m | m in d.properties :: m.PropertyDesc?)
    && (forall m | m in d.methods :: m.MethodDesc?)
    && (forall m | m in d.fields + d.properties + d.methods :: |m.name| > 0)
  }
}
