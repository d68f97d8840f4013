/**
 * The parsed FlatBuffers schema that the UE4 generator reads: base-type tags,
 * types, definitions (enums, fixed-layout structs and tables), fields, and the
 * parser's ordered lists. The generator only reads this data; the `generated`
 * flag of a definition is an input here, never updated.
 *
 * The helpers the generator calls but that live in other files (the per-base-type
 * name table, number formatting, doc-comment rendering and path stripping) are
 * gathered in `Env` as abstract, total functions.
 */
module Schema {

  datatype Option<T> = None | Some(value: T)

  /** The scalar base types, in the order of the FlatBuffers type table. */
  datatype ScalarKind =
    | UType | Bool | Char | UChar | Short | UShort | Int | UInt
    | Long | ULong | Float | Double

  /**
   * A base-type tag. The scalar tags (UTYPE through DOUBLE) are grouped under
   * `Scalar`, so the scalar test of the schema library is `Scalar?`.
   */
  datatype BaseType =
    | NoneType
    | Scalar(kind: ScalarKind)
    | String
    | Vector
    | Struct
    | Union

  /**
   * What every named definition shares: its name, the components of the
   * namespace it is defined in, its doc-comment lines and whether code for
   * it has already been generated.
   */
  datatype Definition = Definition(
    name: string,
    namespace: seq<string>,
    doc: seq<string>,
    generated: bool)

  /**
   * A schema type: a base-type tag, the element tag of a vector, and the
   * struct and enum definitions it refers to, when it refers to one.
   */
  datatype Type = Type(
    baseType: BaseType,
    element: BaseType,
    structDef: Option<Definition>,
    enumDef: Option<Definition>)

  /**
   * The element type of a vector type: the element tag becomes the base tag,
   * the new element tag is NONE, and the struct and enum references are kept.
   */
  function VectorType(t: Type): Type {
    Type(t.element, NoneType, t.structDef, t.enumDef)
  }

  /**
   * A type whose struct reference is present wherever the generator follows it:
   * a struct type, and a vector whose elements are structs.
   */
  predicate Resolved(t: Type) {
    && (t.baseType == Struct ==> t.structDef.Some?)
    && (t.baseType == Vector && t.element == Struct ==> t.structDef.Some?)
  }

  datatype EnumVal = EnumVal(name: string, value: int, doc: seq<string>)

  datatype EnumDef = EnumDef(def: Definition, vals: seq<EnumVal>)

  datatype FieldDef = FieldDef(
    name: string,
    fieldType: Type,
    deprecated: bool,
    doc: seq<string>)

  /** A struct (`fixed`) or a table (not `fixed`), with its fields in declaration order. */
  datatype StructDef = StructDef(def: Definition, fixed: bool, fields: seq<FieldDef>)

  /**
   * What the parser hands to the generator: enums and structs in declaration
   * order, and the keys of its included-files map in that map's iteration order.
   */
  datatype Parser = Parser(
    enums: seq<EnumDef>,
    structs: seq<StructDef>,
    includedFiles: seq<string>)

  datatype GeneratorOptions = GeneratorOptions(includeDependenceHeaders: bool)

  /**
   * Helpers from elsewhere in the code base, given as abstract functions:
   *  - typeName: the UE4 column of the per-base-type name table;
   *  - numToString: the decimal text of an enum value;
   *  - comment: the text of a doc comment (its lines and a line prefix);
   *  - stripPath, stripExtension: file-name manipulation.
   */
  datatype Env = Env(
    typeName: BaseType -> string,
    numToString: int -> string,
    comment: (seq<string>, string) -> string,
    stripPath: string -> string,
    stripExtension: string -> string)
}
