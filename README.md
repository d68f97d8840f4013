# UE4 bindings generator, modelled in Dafny

This project models the FlatBuffers generator for Unreal Engine 4 headers,
`src/idl_gen_ue4.cpp`. The generator reads a parsed schema: its enums, its
fixed-layout structs, its tables, their fields and namespaces. From it the
generator builds the text of one C++ header holding a `UENUM` per enum and a
`USTRUCT` (named `UFB<name>`) per struct or table. The model has six modules:

- `Schema` (`schema.dfy`): the schema as datatypes. A base-type tag groups
  every scalar tag under `Scalar`, so the source's `IsScalar` is
  `baseType.Scalar?`. A `Type` carries its vector element tag and optional
  struct and enum definitions. `VectorType` gives the element type of a
  vector. `Definition`, `EnumDef`, `FieldDef`, `StructDef` and `Parser`
  complete the data model. `Env` bundles the helpers that live outside the
  modelled file: the per-base-type name table, number formatting, doc-comment
  rendering, and path and extension stripping.
- `Text` (`text.dfy`): the order-preserving filter and string helpers that
  the emitters share.
- `Names` (`names.dfy`): the C++ and UE4 class names of a definition.
- `TypeNames` (`type_names.dfy`): the mapping from a schema type to the text
  of a UE4 type, and the enum cast.
- `Emitters` (`emitters.dfy`): `GenEnum`, `GenDeserialize`, `GenTable` and
  `GenStruct`. Each appends to a `CodeBuffer`, a class whose `text` field
  stands for the `std::string` behind `code_ptr`. Each method is proved to
  append exactly the text of a specification function (`EnumDecl`,
  `DeserializeDecl`, `TableDecl`, `StructDecl`). Lemmas state what that text
  holds.
- `Generate` (`generate.dfy`): the string-returning `GenerateUE4`, which
  assembles the whole header. It is proved to return exactly `UE4Header`,
  whose definition gives the order of the header's sections. Lemmas state
  when that header is empty.

## Model

| member | source | states |
|---|---|---|
| Names.CPPClassName | src/idl_gen_ue4.cpp:39-47 | The qualified name always ends with the definition's own name, and a definition in the global namespace keeps its bare name. |
| Names.CPPClassNameSplits | src/idl_gen_ue4.cpp:39-47 | Round trip: splitting the qualified name at `::` gives back the namespace components, in order, followed by the name, provided none of them contains a colon. |
| Names.UE4ClassName | src/idl_gen_ue4.cpp:49-51 | The UE4 name is `UFB` followed by exactly the definition's name, three characters longer. |
| Names.UE4ClassNameInjective | src/idl_gen_ue4.cpp:49-51 | Two definitions with the same UE4 name have the same name. |
| TypeNames.GenTypeBasic | src/idl_gen_ue4.cpp:54-66 | The result is `E<enum name>` exactly when the real enum type is asked for and the type has an enum. Otherwise it is the table entry of the base type. |
| TypeNames.GenTypePointer | src/idl_gen_ue4.cpp:73-88 | A string maps to `const FString &` and a struct to `UFB<name> *`. A vector maps to `const TArray<…> &` around its element's type: the table name for scalars (never the enum type), `const FString &`, `UFB<name> *`, a nested `const TArray<void> &`, or `void`. Unions and every other tag map to `void`. |
| TypeNames.GenTypeWire | src/idl_gen_ue4.cpp:92-97 | A scalar gets its basic name followed by the postfix. Any other type gets its pointer form, whatever the postfix and enum flag. |
| TypeNames.GenTypeGet | src/idl_gen_ue4.cpp:101-105 | The accessor type is the wire type without postfix, followed by one space. For a scalar this equals the wire type with a space as its postfix. |
| TypeNames.GenUnderlyingCast | src/idl_gen_ue4.cpp:131-137 | An enum-typed scalar field's value is wrapped in `static_cast<E<name>>(…)` when converting from the underlying type, and in a cast to the table type otherwise. Every other field's value is returned unchanged. |
| TypeNames.VectorElementsIgnoreEnum | src/idl_gen_ue4.cpp:76-78 | A vector's accessor type does not depend on the element's enum, even when the real enum type is asked for. |
| Emitters.EnumDecl | src/idl_gen_ue4.cpp:108-125 | An enum's declaration is empty exactly when the enum was already generated. |
| Emitters.GenEnum | src/idl_gen_ue4.cpp:108-125 | Appends exactly `EnumDecl` to the buffer and leaves earlier text unchanged. An already generated enum leaves the buffer as it was. |
| Emitters.EnumEntriesJoin | src/idl_gen_ue4.cpp:115-123 | The first n entries are the value texts joined by `,\n`, then `\n` after the last value and `,\n` after any other. |
| Emitters.EnumDeclLayout | src/idl_gen_ue4.cpp:112-124 | Layout of a pending enum: the header, then one `  name = value` entry per value in declaration order separated by `,\n` with no comma after the last, then `};\n\n`. |
| Emitters.ConstructorCopiesFiltered | src/idl_gen_ue4.cpp:189-198 | The constructor body holds one copy line per non-deprecated scalar field, in field order, and nothing for any other field. |
| Emitters.GenDeserialize | src/idl_gen_ue4.cpp:181-202 | Appends exactly `DeserializeDecl`: the constructor header, the constructor body, then `  }\n`. |
| Emitters.CopiedInFieldOrder | src/idl_gen_ue4.cpp:189-198 | The copy lines of a field list are those of its first part followed by those of the rest. |
| Emitters.DeserializeSkipsUncopied | src/idl_gen_ue4.cpp:193-194 | Inserting a deprecated or non-scalar field anywhere leaves the constructor unchanged. |
| Emitters.TablePropertiesFiltered | src/idl_gen_ue4.cpp:253-271 | A table declares one `UPROPERTY` per non-deprecated field, in field order, and nothing for deprecated ones. |
| Emitters.TableDecl | src/idl_gen_ue4.cpp:235-273 | A table's declaration is empty exactly when the table was already generated. |
| Emitters.GenTable | src/idl_gen_ue4.cpp:235-273 | Appends exactly `TableDecl` (header with a single-line body marker, constructor, properties, `};\n\n`). An already generated table leaves the buffer as it was. |
| Emitters.TableIgnoresDeprecated | src/idl_gen_ue4.cpp:257 | Inserting a deprecated field anywhere in a table leaves its whole declaration unchanged. |
| Emitters.TableDeclaresAllActiveFields | src/idl_gen_ue4.cpp:253-271 | With no deprecated fields, a table declares the same properties as a struct with those fields. |
| Emitters.StructDecl | src/idl_gen_ue4.cpp:276-310 | A struct's declaration is empty exactly when the struct was already generated. |
| Emitters.GenStruct | src/idl_gen_ue4.cpp:276-310 | Appends exactly `StructDecl` (header with the body marker and a blank line, constructor, properties of all fields, `};\n\n`). An already generated struct leaves the buffer as it was. |
| Emitters.StructDeclaresEveryField | src/idl_gen_ue4.cpp:300-308 | A struct declares every field's property, deprecated or not, in field order: an inserted field's property sits between those before and after it. |
| Generate.GenEnums | src/idl_gen_ue4.cpp:325-329 | The enum loop appends the declarations of all enums, in parser order. |
| Generate.GenEnumCode | src/idl_gen_ue4.cpp:325-329 | The enum code is exactly `EnumCode` of the parser's enums. |
| Generate.GenForwardDecls | src/idl_gen_ue4.cpp:333-340 | One `class UFB<name>;` line per struct and table, in parser order, generated or not. |
| Generate.ForwardDeclsAppend | src/idl_gen_ue4.cpp:333-340 | Forward declarations of a list are those of its first part followed by those of the rest. |
| Generate.GenStructs | src/idl_gen_ue4.cpp:344-347 | The first declaration loop appends the declarations of the fixed-layout structs only, in parser order. |
| Generate.GenTables | src/idl_gen_ue4.cpp:348-351 | The second declaration loop appends the declarations of the tables only, in parser order. |
| Generate.GenDeclCode | src/idl_gen_ue4.cpp:342-351 | The declaration code is every fixed-layout struct followed by every table. |
| Generate.Dependencies | src/idl_gen_ue4.cpp:367-372 | The dependency names are exactly the base names of the included files that differ from the file being generated. There are at most as many as included files. |
| Generate.DependencyIncludeLines | src/idl_gen_ue4.cpp:365-376 | The include loop writes one `#include "<base>_generated.h"` per dependency and counts them. |
| Generate.GenHead | src/idl_gen_ue4.cpp:355-383 | The text before the declarations is the do-not-modify line, `#pragma once`, the file's own include, the dependency includes (only when asked for, with a blank line after at least one), the UE4 generated include, and the forward declarations followed by a blank line. It is never empty. |
| Generate.GenerateUE4 | src/idl_gen_ue4.cpp:319-393 | Returns exactly `UE4Header`: nothing when neither the enum code nor the declaration code has any text. Otherwise it returns the head, then the enums, the fixed-layout structs and the tables, in that order. |
| Generate.UE4HeaderEmpty | src/idl_gen_ue4.cpp:353-354 | The header is empty exactly when every enum, struct and table was already generated. |
| Generate.NothingLeftToGenerate | src/idl_gen_ue4.cpp:353-354 | The enum code and the declaration code are both empty exactly when every definition was already generated. |
| Generate.EnumCodeEmpty | src/idl_gen_ue4.cpp:325-329 | The enum code is empty exactly when every enum was already generated. |
| Generate.DeclCodeEmpty | src/idl_gen_ue4.cpp:342-351 | The struct and table code is empty exactly when every struct and table was already generated. |
| Generate.EnumCodeSkipsGenerated | src/idl_gen_ue4.cpp:110 | Dropping the already generated enums from the list leaves the enum code unchanged. |

## Left out

- `include/flatbuffers/flatbuffers_ue4.h` (the `CreateVector` overloads over UE4 arrays) is not part of this model. Those overloads are thin wrappers over builder calls that are not in these files.
- The `bool GenerateUE4` that writes the file (`SaveFile`, `GeneratedFileName`, lines 395-407) is not modelled: it is file I/O. `UE4MakeRule` (lines 409-422) is not modelled either: it depends on the parser's recursive include listing.
- The `#if 0` blocks (`GenTypeGet`/`WrapInNameSpace` stubs, `GenConstructors`, `GenMembers`) and the commented-out lines of `GenTable` and `GenStruct` are not modelled: they are not compiled.
- `GenComment`, `NumToString`, `StripPath`, `StripExtension` and the `FLATBUFFERS_GEN_TYPES` name table are defined outside this file. The model takes them as total functions in `Env` and does not reimplement them. `IsScalar` is the `Scalar` case of the base-type tag. `Type::VectorType` is defined in `Schema`: the element tag becomes the base type, the element tag is reset to `NoneType`, and the struct and enum references stay. It is defined rather than taken as an input because the termination of `GenTypePointer` and `GenTypeWire`, which call each other through it, depends on that reset.
- `parser.included_files_` is a `std::map`. The model takes the sequence of its keys in the map's iteration order.
- The `parser` and `opts` parameters that the emitters never read are dropped.
- The `generated` flag is an input. The file reads it and never sets it.
- Enum values are unbounded integers rather than `int64_t`. Number formatting is the abstract `numToString`, so the width does not show in the output.
- The loops of the source's `GenerateUE4` are modelled as helper methods. The enum loop is `GenEnums`, the forward-declaration loop `GenForwardDecls`, the struct and table loops `GenStructs` and `GenTables`, the include loop `DependencyIncludeLines`, and the code around them `GenHead`. The enum code and the declaration code are written to buffers of their own (`GenEnumCode`, `GenDeclCode`), as in the source, but behind those helpers.
- In the four emitters, each appended line is built as one string and appended once. The source appends it in several pieces. The buffer's final text is the same.
