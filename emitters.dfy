/**
 * The declaration emitters. Each appends the text of one declaration to a
 * shared code buffer: an enum, the deserializing constructor of a struct or
 * table, a table, or a fixed-layout struct. Each method is specified by a
 * function giving exactly the text it appends; the lemmas below state what
 * that text holds.
 */
module Emitters {
  import opened Schema
  import opened Text
  import Names
  import TypeNames

  /** The string the emitters append to. */
  class CodeBuffer {
    var text: string

    constructor ()
      ensures text == ""
    {
      text := "";
    }
  }

  // ----- Enums -----

  /** One enum value without its separator: doc comment, then `  name = value`. */
  function EnumEntryText(env: Env, v: EnumVal): string {
    env.comment(v.doc, "  ") + "  " + v.name + " = " + env.numToString(v.value)
  }

  /** The entry of one value, ended by `,\n`, or by `\n` for the last value. */
  function EnumEntry(env: Env, v: EnumVal, last: bool): string {
    EnumEntryText(env, v) + (if last then "\n" else ",\n")
  }

  /** The entries of the first `n` values of `vals`. */
  function EnumEntries(env: Env, vals: seq<EnumVal>, n: nat): string
    requires n <= |vals|
    decreases n
  {
    if n == 0 then ""
    else EnumEntries(env, vals, n - 1) + EnumEntry(env, vals[n - 1], n == |vals|)
  }

  function EnumHeader(env: Env, e: EnumDef): string {
    env.comment(e.def.doc, "") + "UENUM(BlueprintType)\n" + "enum class E" + e.def.name + " {\n"
  }

  /**
   * The text emitted for an enum: nothing when it was already generated,
   * otherwise a `UENUM` declaration of `E<name>` with all its values.
   */
  function EnumDecl(env: Env, e: EnumDef): (r: string)
    ensures r == "" <==> e.def.generated
  {
    if e.def.generated then ""
    else EnumHeader(env, e) + EnumEntries(env, e.vals, |e.vals|) + "};\n\n"
  }

  method GenEnum(env: Env, e: EnumDef, code: CodeBuffer)
    modifies code
    ensures code.text == old(code.text) + EnumDecl(env, e)
    ensures e.def.generated ==> code.text == old(code.text)
  {
    if e.def.generated {
      return;
    }
    var header := env.comment(e.def.doc, "") + "UENUM(BlueprintType)\n";
    header := header + "enum class E" + e.def.name + " {\n";
    assert header == EnumHeader(env, e);
    ghost var before := code.text;
    code.text := code.text + header;
    ghost var start := code.text;
    for i := 0 to |e.vals|
      invariant code.text == start + EnumEntries(env, e.vals, i)
    {
      var ev := e.vals[i];
      var entry := env.comment(ev.doc, "  ") + "  " + ev.name + " = " + env.numToString(ev.value);
      entry := entry + (if i + 1 != |e.vals| then ",\n" else "\n");
      assert entry == EnumEntry(env, ev, i + 1 == |e.vals|);
      AppendAssoc(start, EnumEntries(env, e.vals, i), entry);
      code.text := code.text + entry;
    }
    code.text := code.text + "};\n\n";
    AppendFour(before, header, EnumEntries(env, e.vals, |e.vals|), "", "};\n\n");
  }

  /** The separator-free texts of the values, in declaration order. */
  function EnumEntryTexts(env: Env, vals: seq<EnumVal>): (r: seq<string>)
    ensures |r| == |vals|
  {
    seq(|vals|, i requires 0 <= i < |vals| => EnumEntryText(env, vals[i]))
  }

  /**
   * The first `n` entries are the value texts joined by `,\n`, followed by
   * `\n` when they are all the values and by `,\n` otherwise.
   */
  lemma {:induction false} EnumEntriesJoin(env: Env, vals: seq<EnumVal>, n: nat)
    requires 1 <= n <= |vals|
    ensures EnumEntries(env, vals, n)
         == Join(EnumEntryTexts(env, vals[..n]), ",\n") + (if n == |vals| then "\n" else ",\n")
    decreases n
  {
    var texts := EnumEntryTexts(env, vals[..n]);
    if n == 1 {
      assert EnumEntries(env, vals, 0) == "";
    } else {
      EnumEntriesJoin(env, vals, n - 1);
      assert texts[..n - 1] == EnumEntryTexts(env, vals[..n - 1]);
    }
  }

  /**
   * The layout of an enum declaration: one `  name = value` entry per value
   * in declaration order, separated by `,\n`, the last one without a comma,
   * and the block closed by `};\n\n`.
   */
  lemma EnumDeclLayout(env: Env, e: EnumDef)
    requires !e.def.generated
    ensures e.vals == [] ==> EnumDecl(env, e) == EnumHeader(env, e) + "};\n\n"
    ensures e.vals != [] ==>
      EnumDecl(env, e)
        == EnumHeader(env, e) + Join(EnumEntryTexts(env, e.vals), ",\n") + "\n" + "};\n\n"
  {
    if e.vals != [] {
      EnumEntriesJoin(env, e.vals, |e.vals|);
      assert e.vals[..|e.vals|] == e.vals;
    }
  }

  // ----- The deserializing constructor -----

  /** A field that the constructor copies: not deprecated and of scalar type. */
  predicate IsCopied(f: FieldDef) {
    !f.deprecated && f.fieldType.baseType.Scalar?
  }

  function CopyLine(f: FieldDef): string {
    "    " + f.name + " = flatbuffer." + f.name + "();\n"
  }

  /** One copy line per field of `fs`, in order. */
  function CopyLines(fs: seq<FieldDef>): string
    decreases |fs|
  {
    if fs == [] then "" else CopyLines(fs[..|fs| - 1]) + CopyLine(fs[|fs| - 1])
  }

  lemma CopyLinesSnoc(fs: seq<FieldDef>, f: FieldDef)
    ensures CopyLines(fs + [f]) == CopyLines(fs) + CopyLine(f)
  {
    assert (fs + [f])[..|fs + [f]| - 1] == fs;
  }

  /**
   * The body of the constructor as the loop over the fields writes it: for
   * each field in order, its copy line when it is copied and nothing else.
   */
  function ConstructorLines(fs: seq<FieldDef>): string
    decreases |fs|
  {
    if fs == [] then ""
    else
      var f := fs[|fs| - 1];
      ConstructorLines(fs[..|fs| - 1]) + (if IsCopied(f) then CopyLine(f) else "")
  }

  /**
   * The constructor body holds exactly one copy line per copied field, in
   * field order, and nothing for the other fields.
   */
  lemma {:induction false} ConstructorCopiesFiltered(fs: seq<FieldDef>)
    ensures ConstructorLines(fs) == CopyLines(Filter(fs, IsCopied))
    decreases |fs|
  {
    if fs != [] {
      var init, last := fs[..|fs| - 1], fs[|fs| - 1];
      assert fs == init + [last];
      ConstructorCopiesFiltered(init);
      FilterSnoc(init, last, IsCopied);
      if IsCopied(last) {
        CopyLinesSnoc(Filter(init, IsCopied), last);
      } else {
        assert Filter(fs, IsCopied) == Filter(init, IsCopied);
      }
    }
  }

  lemma {:induction false} CopyLinesAppend(a: seq<FieldDef>, b: seq<FieldDef>)
    ensures CopyLines(a + b) == CopyLines(a) + CopyLines(b)
    decreases |b|
  {
    if b == [] {
      assert a + b == a;
    } else {
      var init, last := b[..|b| - 1], b[|b| - 1];
      assert b == init + [last];
      assert a + b == (a + init) + [last];
      CopyLinesAppend(a, init);
      CopyLinesSnoc(a + init, last);
      CopyLinesSnoc(init, last);
      AppendAssoc(CopyLines(a), CopyLines(init), CopyLine(last));
    }
  }

  /**
   * The constructor of `UFB<name>` from the C++ object: a copy line for each
   * copied field, in field order.
   */
  function DeserializeHeader(s: StructDef): string {
    "  " + Names.UE4ClassName(s.def) + " (const " + Names.CPPClassName(s.def) + " &flatbuffer) {\n"
  }

  function DeserializeDecl(s: StructDef): string {
    DeserializeHeader(s) + ConstructorLines(s.fields) + "  }\n"
  }

  method GenDeserialize(s: StructDef, code: CodeBuffer)
    modifies code
    ensures code.text == old(code.text) + DeserializeDecl(s)
  {
    var ue4Class := Names.UE4ClassName(s.def);
    var cppClass := Names.CPPClassName(s.def);
    var header := "  " + ue4Class + " (const " + cppClass + " &flatbuffer) {\n";
    assert header == DeserializeHeader(s);
    code.text := code.text + header;
    ghost var start := code.text;
    for i := 0 to |s.fields|
      invariant code.text == start + ConstructorLines(s.fields[..i])
    {
      var field := s.fields[i];
      assert s.fields[..i + 1][..i] == s.fields[..i];
      if !field.deprecated {
        if field.fieldType.baseType.Scalar? {
          var line := "    " + field.name + " = flatbuffer." + field.name + "();\n";
          AppendAssoc(start, ConstructorLines(s.fields[..i]), line);
          code.text := code.text + line;
        }
      }
    }
    assert s.fields[..|s.fields|] == s.fields;
    code.text := code.text + "  }\n";
  }

  /**
   * The constructor copies the copied fields of a field list in order: those
   * of a prefix of the list come before those of the rest.
   */
  lemma CopiedInFieldOrder(a: seq<FieldDef>, b: seq<FieldDef>)
    ensures ConstructorLines(a + b) == ConstructorLines(a) + ConstructorLines(b)
  {
    ConstructorCopiesFiltered(a + b);
    ConstructorCopiesFiltered(a);
    ConstructorCopiesFiltered(b);
    FilterAppend(a, b, IsCopied);
    CopyLinesAppend(Filter(a, IsCopied), Filter(b, IsCopied));
  }

  /**
   * A field that is deprecated or not scalar (a string, vector, struct or
   * union) gets no line in the constructor: adding it anywhere in the field
   * list leaves the constructor unchanged.
   */
  lemma {:induction false} DeserializeSkipsUncopied(s: StructDef, i: nat, f: FieldDef)
    requires i <= |s.fields| && !IsCopied(f)
    ensures DeserializeDecl(s.(fields := s.fields[..i] + [f] + s.fields[i..]))
         == DeserializeDecl(s)
  {
    var a, b := s.fields[..i], s.fields[i..];
    assert s.fields == a + b;
    FilterAppend(a + [f], b, IsCopied);
    FilterSnoc(a, f, IsCopied);
    assert Filter(a + [f], IsCopied) == Filter(a, IsCopied);
    FilterAppend(a, b, IsCopied);
    assert Filter(a + [f] + b, IsCopied) == Filter(s.fields, IsCopied);
    ConstructorCopiesFiltered(a + [f] + b);
    ConstructorCopiesFiltered(s.fields);
  }

  // ----- Tables and structs -----

  /** The `UPROPERTY` declaration of a field, with its accessor type. */
  function PropertyDecl(env: Env, f: FieldDef): string
    requires Resolved(f.fieldType)
  {
    env.comment(f.doc, "  ") + "  UPROPERTY()\n"
    + "  const " + TypeNames.GenTypeGet(env, f.fieldType, true) + f.name + ";\n"
  }

  /** One property declaration per field of `fs`, in order. */
  function PropertyDecls(env: Env, fs: seq<FieldDef>): string
    requires forall f :: f in fs ==> Resolved(f.fieldType)
    decreases |fs|
  {
    if fs == [] then ""
    else PropertyDecls(env, fs[..|fs| - 1]) + PropertyDecl(env, fs[|fs| - 1])
  }

  lemma PropertyDeclsSnoc(env: Env, fs: seq<FieldDef>, f: FieldDef)
    requires forall g :: g in fs + [f] ==> Resolved(g.fieldType)
    ensures PropertyDecls(env, fs + [f]) == PropertyDecls(env, fs) + PropertyDecl(env, f)
  {
    assert (fs + [f])[..|fs + [f]| - 1] == fs;
  }

  /**
   * The properties of a table as the loop over its fields writes them: for
   * each field in order, its declaration unless it is deprecated.
   */
  function TableProperties(env: Env, fs: seq<FieldDef>): string
    requires forall f :: f in fs && !f.deprecated ==> Resolved(f.fieldType)
    decreases |fs|
  {
    if fs == [] then ""
    else
      var f := fs[|fs| - 1];
      assert f in fs;
      TableProperties(env, fs[..|fs| - 1]) + (if f.deprecated then "" else PropertyDecl(env, f))
  }

  /**
   * A table declares exactly one property per non-deprecated field, in field
   * order.
   */
  lemma {:induction false} TablePropertiesFiltered(env: Env, fs: seq<FieldDef>)
    requires forall f :: f in fs && !f.deprecated ==> Resolved(f.fieldType)
    ensures forall f :: f in Filter(fs, IsActive) ==> Resolved(f.fieldType)
    ensures TableProperties(env, fs) == PropertyDecls(env, Filter(fs, IsActive))
    decreases |fs|
  {
    if fs != [] {
      var init, last := fs[..|fs| - 1], fs[|fs| - 1];
      assert fs == init + [last];
      TablePropertiesFiltered(env, init);
      FilterSnoc(init, last, IsActive);
      if IsActive(last) {
        PropertyDeclsSnoc(env, Filter(init, IsActive), last);
      } else {
        assert Filter(fs, IsActive) == Filter(init, IsActive);
      }
    }
  }

  /** One more field of a struct: its property is declared. */
  lemma StructPropertiesStep(env: Env, fs: seq<FieldDef>, i: nat)
    requires i < |fs| && forall f :: f in fs ==> Resolved(f.fieldType)
    ensures fs[i] in fs
    ensures PropertyDecls(env, fs[..i + 1]) == PropertyDecls(env, fs[..i]) + PropertyDecl(env, fs[i])
  {
    assert fs[..i + 1] == fs[..i] + [fs[i]];
    PropertyDeclsSnoc(env, fs[..i], fs[i]);
  }

  predicate IsActive(f: FieldDef) {
    !f.deprecated
  }

  /** The fields a table declares (its non-deprecated ones) have resolved types. */
  predicate TableResolved(s: StructDef) {
    forall f :: f in s.fields && !f.deprecated ==> Resolved(f.fieldType)
  }

  /** The fields a struct declares (all of them) have resolved types. */
  predicate StructResolved(s: StructDef) {
    forall f :: f in s.fields ==> Resolved(f.fieldType)
  }

  function RecordHeader(env: Env, s: StructDef, body: string): string {
    env.comment(s.def.doc, "") + "USTRUCT()\n" + "struct " + Names.UE4ClassName(s.def) + " {\n" + body
  }

  /**
   * The text emitted for a table: nothing when it was already generated,
   * otherwise a `USTRUCT` with the constructor and one property per
   * non-deprecated field, in field order.
   */
  function TableDecl(env: Env, s: StructDef): (r: string)
    requires TableResolved(s)
    ensures r == "" <==> s.def.generated
  {
    if s.def.generated then ""
    else
      RecordHeader(env, s, "  GENERATED_USTRUCT_BODY()\n")
      + DeserializeDecl(s)
      + TableProperties(env, s.fields)
      + "};\n\n"
  }

  method GenTable(env: Env, s: StructDef, code: CodeBuffer)
    requires TableResolved(s)
    modifies code
    ensures code.text == old(code.text) + TableDecl(env, s)
    ensures s.def.generated ==> code.text == old(code.text)
  {
    if s.def.generated {
      return;
    }
    var ue4Class := Names.UE4ClassName(s.def);
    var header := env.comment(s.def.doc, "") + "USTRUCT()\n";
    header := header + "struct " + ue4Class + " {\n";
    header := header + "  GENERATED_USTRUCT_BODY()\n";
    assert header == RecordHeader(env, s, "  GENERATED_USTRUCT_BODY()\n");
    ghost var before := code.text;
    code.text := code.text + header;
    GenDeserialize(s, code);
    ghost var start := code.text;
    for i := 0 to |s.fields|
      invariant code.text == start + TableProperties(env, s.fields[..i])
    {
      var field := s.fields[i];
      assert s.fields[..i + 1][..i] == s.fields[..i];
      if !field.deprecated {
        var decl := env.comment(field.doc, "  ") + "  UPROPERTY()\n";
        decl := decl + "  const " + TypeNames.GenTypeGet(env, field.fieldType, true);
        decl := decl + field.name + ";\n";
        AppendAssoc(start, TableProperties(env, s.fields[..i]), decl);
        code.text := code.text + decl;
      }
    }
    assert s.fields[..|s.fields|] == s.fields;
    code.text := code.text + "};\n\n";
    AppendFour(before, header, DeserializeDecl(s), TableProperties(env, s.fields), "};\n\n");
  }

  /**
   * The text emitted for a fixed-layout struct: nothing when it was already
   * generated, otherwise a `USTRUCT` with the constructor and one property
   * per field, deprecated ones included, in field order.
   */
  function StructDecl(env: Env, s: StructDef): (r: string)
    requires StructResolved(s)
    ensures r == "" <==> s.def.generated
  {
    if s.def.generated then ""
    else
      RecordHeader(env, s, "  GENERATED_USTRUCT_BODY()\n\n")
      + DeserializeDecl(s)
      + PropertyDecls(env, s.fields)
      + "};\n\n"
  }

  method GenStruct(env: Env, s: StructDef, code: CodeBuffer)
    requires StructResolved(s)
    modifies code
    ensures code.text == old(code.text) + StructDecl(env, s)
    ensures s.def.generated ==> code.text == old(code.text)
  {
    if s.def.generated {
      return;
    }
    var ue4Class := Names.UE4ClassName(s.def);
    var header := env.comment(s.def.doc, "") + "USTRUCT()\n";
    header := header + "struct " + ue4Class + " {\n";
    header := header + "  GENERATED_USTRUCT_BODY()\n\n";
    assert header == RecordHeader(env, s, "  GENERATED_USTRUCT_BODY()\n\n");
    ghost var before := code.text;
    code.text := code.text + header;
    GenDeserialize(s, code);
    ghost var start := code.text;
    for i := 0 to |s.fields|
      invariant code.text == start + PropertyDecls(env, s.fields[..i])
    {
      var field := s.fields[i];
      StructPropertiesStep(env, s.fields, i);
      var decl := env.comment(field.doc, "  ") + "  UPROPERTY()\n";
      decl := decl + "  const " + TypeNames.GenTypeGet(env, field.fieldType, true);
      decl := decl + field.name + ";\n";
      AppendAssoc(start, PropertyDecls(env, s.fields[..i]), decl);
      code.text := code.text + decl;
    }
    assert s.fields[..|s.fields|] == s.fields;
    code.text := code.text + "};\n\n";
    AppendFour(before, header, DeserializeDecl(s), PropertyDecls(env, s.fields), "};\n\n");
  }

  /**
   * A deprecated field is invisible in a table's declaration: adding one
   * anywhere in the field list changes neither the properties nor the
   * constructor.
   */
  lemma {:induction false} TableIgnoresDeprecated(env: Env, s: StructDef, i: nat, f: FieldDef)
    requires i <= |s.fields| && f.deprecated && TableResolved(s)
    ensures TableResolved(s.(fields := s.fields[..i] + [f] + s.fields[i..]))
    ensures TableDecl(env, s.(fields := s.fields[..i] + [f] + s.fields[i..])) == TableDecl(env, s)
  {
    var a, b := s.fields[..i], s.fields[i..];
    assert s.fields == a + b;
    var s' := s.(fields := a + [f] + b);
    FilterAppend(a + [f], b, IsActive);
    FilterSnoc(a, f, IsActive);
    assert Filter(a + [f], IsActive) == Filter(a, IsActive);
    FilterAppend(a, b, IsActive);
    assert Filter(s'.fields, IsActive) == Filter(s.fields, IsActive);
    TablePropertiesFiltered(env, s'.fields);
    TablePropertiesFiltered(env, s.fields);
    DeserializeSkipsUncopied(s, i, f);
  }

  /**
   * A struct declares the property of every field, deprecated or not, in
   * field order: the properties of a field list with `f` inserted are those
   * before it, then the property of `f`, then those after it.
   */
  lemma {:induction false} StructDeclaresEveryField(env: Env, a: seq<FieldDef>, f: FieldDef, b: seq<FieldDef>)
    requires forall g :: g in a + [f] + b ==> Resolved(g.fieldType)
    ensures PropertyDecls(env, a + [f] + b)
         == PropertyDecls(env, a) + PropertyDecl(env, f) + PropertyDecls(env, b)
    decreases |b|
  {
    if b == [] {
      assert a + [f] + b == a + [f];
      PropertyDeclsSnoc(env, a, f);
    } else {
      var init, last := b[..|b| - 1], b[|b| - 1];
      assert b == init + [last];
      assert a + [f] + b == (a + [f] + init) + [last];
      StructDeclaresEveryField(env, a, f, init);
      PropertyDeclsSnoc(env, a + [f] + init, last);
      PropertyDeclsSnoc(env, init, last);
      AppendAssoc(PropertyDecls(env, a) + PropertyDecl(env, f), PropertyDecls(env, init), PropertyDecl(env, last));
    }
  }

  /**
   * Without deprecated fields, a table and a struct with the same fields
   * declare the same properties, in the same order.
   */
  lemma TableDeclaresAllActiveFields(env: Env, fs: seq<FieldDef>)
    requires forall f :: f in fs ==> !f.deprecated && Resolved(f.fieldType)
    ensures TableProperties(env, fs) == PropertyDecls(env, fs)
  {
    TablePropertiesFiltered(env, fs);
    FilterKeepsAll(fs, IsActive);
  }
}
