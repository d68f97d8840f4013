/**
 * Mapping a schema type to the text of a UE4 C++ type: the basic (scalar or
 * enum) name, the pointer/reference form of strings, vectors and structs, the
 * wire and accessor forms that pick between them, and the cast wrapped around
 * an enum-typed value.
 */
module TypeNames {
  import opened Schema
  import Names

  /**
   * The name of a scalar type: the enum's own type `E<name>` when asked for
   * the real enum type and the type has an enum, the table entry of its base
   * type otherwise.
   */
  function GenTypeBasic(env: Env, t: Type, realEnum: bool): (r: string)
    ensures realEnum && t.enumDef.Some? ==> r == "E" + t.enumDef.value.name
    ensures !realEnum || t.enumDef.None? ==> r == env.typeName(t.baseType)
  {
    if realEnum && t.enumDef.Some? then "E" + t.enumDef.value.name
    else env.typeName(t.baseType)
  }

  /** How many vector levels the mapping may still descend (a vector of vectors has two). */
  function VectorDepth(t: Type): nat {
    if t.baseType == Vector then (if t.element == Vector then 2 else 1) else 0
  }

  /**
   * The type of a non-scalar: a string is a const `FString` reference, a
   * vector a const `TArray` reference over its element's wire type (never the
   * real enum type), a struct a pointer to its UE4 class, anything else `void`.
   */
  function GenTypePointer(env: Env, t: Type): (r: string)
    requires Resolved(t)
    ensures t.baseType == String ==> r == "const FString &"
    ensures t.baseType == Struct ==> r == "UFB" + t.structDef.value.name + " *"
    ensures t.baseType == Vector && t.element.Scalar? ==>
              r == "const TArray<" + env.typeName(t.element) + "> &"
    ensures t.baseType == Vector && t.element == String ==>
              r == "const TArray<" + "const FString &" + "> &"
    ensures t.baseType == Vector && t.element == Struct ==>
              r == "const TArray<" + ("UFB" + t.structDef.value.name + " *") + "> &"
    ensures t.baseType == Vector && t.element == Vector ==>
              r == "const TArray<" + "const TArray<void> &" + "> &"
    ensures t.baseType == Vector && t.element in {NoneType, Union} ==>
              r == "const TArray<" + "void" + "> &"
    ensures t.baseType !in {String, Vector, Struct} ==> r == "void"
    decreases VectorDepth(t), 0
  {
    match t.baseType
    case String => "const FString &"
    case Vector =>
      "const TArray<" + GenTypeWire(env, VectorType(t), "", false) + "> &"
    case Struct => Names.UE4ClassName(t.structDef.value) + " *"
    case _ => "void"
  }

  /**
   * The type used when building a buffer: a scalar's basic name followed by
   * `postfix`, or the pointer form of a non-scalar (which ignores `postfix`
   * and `realEnum`).
   */
  function GenTypeWire(env: Env, t: Type, postfix: string, realEnum: bool): (r: string)
    requires Resolved(t)
    ensures t.baseType.Scalar? ==> r == GenTypeBasic(env, t, realEnum) + postfix
    ensures !t.baseType.Scalar? ==> r == GenTypePointer(env, t)
    decreases VectorDepth(t), 1
  {
    if t.baseType.Scalar? then GenTypeBasic(env, t, realEnum) + postfix
    else GenTypePointer(env, t)
  }

  /**
   * The type used when reading a buffer: the wire type without postfix,
   * followed by one space; for a scalar this is the wire type with a space as
   * its postfix.
   */
  function GenTypeGet(env: Env, t: Type, realEnum: bool): (r: string)
    requires Resolved(t)
    ensures r == GenTypeWire(env, t, "", realEnum) + " "
    ensures t.baseType.Scalar? ==> r == GenTypeWire(env, t, " ", realEnum)
  {
    (if t.baseType.Scalar? then GenTypeBasic(env, t, realEnum)
     else GenTypePointer(env, t)) + " "
  }

  /**
   * `val` wrapped in a `static_cast` when the field's type is an enum-typed
   * scalar: to the enum type `E<name>` when converting from the underlying
   * type (`from`), to the underlying table type otherwise. Any other field
   * gets `val` unchanged.
   */
  function GenUnderlyingCast(env: Env, field: FieldDef, from: bool, val: string): (r: string)
    ensures var t := field.fieldType;
      t.enumDef.Some? && t.baseType.Scalar? && from ==>
        r == "static_cast<E" + t.enumDef.value.name + ">(" + val + ")"
    ensures var t := field.fieldType;
      t.enumDef.Some? && t.baseType.Scalar? && !from ==>
        r == "static_cast<" + env.typeName(t.baseType) + ">(" + val + ")"
    ensures var t := field.fieldType;
      !(t.enumDef.Some? && t.baseType.Scalar?) ==> r == val
  {
    var t := field.fieldType;
    if t.enumDef.Some? && t.baseType.Scalar?
    then "static_cast<" + GenTypeBasic(env, t, from) + ">(" + val + ")"
    else val
  }

  /**
   * A vector never exposes the real enum type of its elements: a vector of an
   * enum maps to the same type as the same vector without the enum.
   */
  lemma VectorElementsIgnoreEnum(env: Env, t: Type)
    requires Resolved(t) && t.baseType == Vector
    ensures GenTypeGet(env, t, true) == GenTypeGet(env, t.(enumDef := None), true)
  {
  }
}
