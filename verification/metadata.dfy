/** The parts of the Mono.Cecil metadata model that the analyser reads, as immutable values.
    A type that is only a reference (not a definition) has no nested types; a type or method
    that is not a generic instance has no generic arguments. */
module Metadata {
  import opened Wrappers

  /** A `TypeReference`: `scope` is `Scope.Name` (the assembly), `token` the metadata token,
      `declaring` the enclosing type of a nested type, `genericArgs` the arguments of a
      generic instance and `nested` the `NestedTypes` of a type definition. */
  datatype TypeRef = TypeRef(
    scope: string,
    namespace: string,
    name: string,
    fullName: string,
    token: int,
    declaring: Option<TypeRef>,
    genericArgs: seq<TypeRef>,
    nested: seq<TypeRef>)
  {
    /** `IsGenericInstance && type is GenericInstanceType`. */
    predicate IsGenericInstance() {
      |genericArgs| > 0
    }
  }

  /** A `MethodReference`: its declaring type and, for a generic method instance, its
      generic arguments. */
  datatype MethodRef = MethodRef(name: string, declaring: TypeRef, genericArgs: seq<TypeRef>)
  {
    predicate IsGenericInstance() {
      |genericArgs| > 0
    }
  }

  /** The operand of one instruction of a size-table method body. */
  datatype Operand =
    | TypeOperand(typeRef: TypeRef)
    | MethodOperand(methodRef: MethodRef)
    | IntOperand(intValue: int)
    | StringOperand(stringValue: string)
}
