/**
 * Assembling the UE4 header for one schema file: the enums, forward
 * declarations of every struct and table, the fixed-layout structs and then
 * the tables, behind a fixed preamble and the include lines. Nothing is
 * produced when no definition is left to generate.
 */
module Generate {
  import opened Schema
  import opened Text
  import Names
  import opened Emitters

  /** The declarations of the enums, in parser order. */
  function EnumCode(env: Env, es: seq<EnumDef>): string
    decreases |es|
  {
    if es == [] then "" else EnumCode(env, es[..|es| - 1]) + EnumDecl(env, es[|es| - 1])
  }

  function ForwardDecl(s: StructDef): string {
    "class " + Names.UE4ClassName(s.def) + ";\n"
  }

  /** One forward declaration per struct or table, in parser order, generated or not. */
  function ForwardDecls(ss: seq<StructDef>): string
    decreases |ss|
  {
    if ss == [] then "" else ForwardDecls(ss[..|ss| - 1]) + ForwardDecl(ss[|ss| - 1])
  }

  /** A struct or table whose declared fields have resolved types. */
  predicate Declarable(s: StructDef) {
    if s.fixed then StructResolved(s) else TableResolved(s)
  }

  /** The declarations of the fixed-layout structs, in parser order. */
  function StructCode(env: Env, ss: seq<StructDef>): string
    requires forall s :: s in ss ==> Declarable(s)
    decreases |ss|
  {
    if ss == [] then ""
    else
      var s := ss[|ss| - 1];
      assert s in ss && Declarable(s);
      StructCode(env, ss[..|ss| - 1]) + (if s.fixed then StructDecl(env, s) else "")
  }

  /** The declarations of the tables, in parser order. */
  function TableCode(env: Env, ss: seq<StructDef>): string
    requires forall s :: s in ss ==> Declarable(s)
    decreases |ss|
  {
    if ss == [] then ""
    else
      var s := ss[|ss| - 1];
      assert s in ss && Declarable(s);
      TableCode(env, ss[..|ss| - 1]) + (if !s.fixed then TableDecl(env, s) else "")
  }

  /** The base name of an included file: its path and extension stripped. */
  function BaseName(env: Env, path: string): string {
    env.stripPath(env.stripExtension(path))
  }

  /**
   * The base names of the included files other than the file being
   * generated, in the order of the included-files list.
   */
  function Dependencies(env: Env, files: seq<string>, fileName: string): (r: seq<string>)
    ensures |r| <= |files|
    ensures forall b :: b in r <==>
              b != fileName && exists p :: p in files && BaseName(env, p) == b
    decreases |files|
  {
    if files == [] then []
    else
      var init, last := files[..|files| - 1], files[|files| - 1];
      assert files == init + [last];
      var b := BaseName(env, last);
      Dependencies(env, init, fileName) + (if b != fileName then [b] else [])
  }

  function IncludeLine(name: string): string {
    "#include \"" + name + "_generated.h\"\n"
  }

  function IncludeLines(names: seq<string>): string
    decreases |names|
  {
    if names == [] then ""
    else IncludeLines(names[..|names| - 1]) + IncludeLine(names[|names| - 1])
  }

  /**
   * The dependency includes: none unless asked for; otherwise one per
   * dependency, followed by a blank line when there is at least one.
   */
  function DependencyIncludes(env: Env, parser: Parser, fileName: string, opts: GeneratorOptions): string {
    if !opts.includeDependenceHeaders then ""
    else
      var deps := Dependencies(env, parser.includedFiles, fileName);
      IncludeLines(deps) + (if |deps| > 0 then "\n" else "")
  }

  /** The do-not-modify header, the include guard and the file's own generated header. */
  function Preamble(fileName: string): string {
    "// automatically generated by the FlatBuffers compiler, do not modify\n\n"
    + "#pragma once\n"
    + "#include \"" + fileName + "_generated.h\"\n"
  }

  function UE4Include(fileName: string): string {
    "#include \"" + fileName + "_ue4_generated.generated.h\"\n\n"
  }

  /** Every enum and every struct or table was generated before. */
  predicate AllGenerated(parser: Parser) {
    && (forall e :: e in parser.enums ==> e.def.generated)
    && (forall s :: s in parser.structs ==> s.def.generated)
  }

  /**
   * The header for one schema file: nothing when no enum, struct or table
   * produced any code; otherwise, in order, the preamble, the dependency
   * includes, the UE4 generated include, the forward declarations, the
   * enums, the fixed-layout structs and the tables.
   */
  function UE4Header(env: Env, parser: Parser, fileName: string, opts: GeneratorOptions): string
    requires forall s :: s in parser.structs ==> Declarable(s)
  {
    var enums := EnumCode(env, parser.enums);
    var structs := StructCode(env, parser.structs);
    var tables := TableCode(env, parser.structs);
    if |enums| > 0 || |structs + tables| > 0 then
      Preamble(fileName)
      + DependencyIncludes(env, parser, fileName, opts)
      + UE4Include(fileName)
      + ForwardDecls(parser.structs) + "\n"
      + enums + structs + tables
    else ""
  }

  /** The header is empty exactly when every definition was already generated. */
  lemma UE4HeaderEmpty(env: Env, parser: Parser, fileName: string, opts: GeneratorOptions)
    requires forall s :: s in parser.structs ==> Declarable(s)
    ensures UE4Header(env, parser, fileName, opts) == "" <==> AllGenerated(parser)
  {
    NothingLeftToGenerate(env, parser);
    var p := Preamble(fileName);
    assert |p| > 0;
  }

  /**
   * The header for one schema file, built as the generator builds it: the
   * enum code, the forward declarations and the struct and table code first,
   * then, when any enum, struct or table produced code, the header around
   * them.
   */
  method GenerateUE4(env: Env, parser: Parser, fileName: string, opts: GeneratorOptions)
    returns (code: string)
    requires forall s :: s in parser.structs ==> Declarable(s)
    ensures code == UE4Header(env, parser, fileName, opts)
  {
    var enums, structs := parser.enums, parser.structs;

    var enumText := GenEnumCode(env, enums);
    var forwardDeclCode := GenForwardDecls(structs);
    var declText := GenDeclCode(env, structs);

    if |enumText| > 0 || |declText| > 0 {
      var head := GenHead(env, parser, fileName, opts, forwardDeclCode);
      code := head + enumText;
      AppendAssoc(code, StructCode(env, structs), TableCode(env, structs));
      code := code + declText;
    } else {
      code := "";
    }
  }

  /** The enum declarations, written to a buffer of their own. */
  method GenEnumCode(env: Env, enums: seq<EnumDef>) returns (text: string)
    ensures text == EnumCode(env, enums)
  {
    var enumCode := new CodeBuffer();
    GenEnums(env, enums, enumCode);
    EmptyPrefix(EnumCode(env, enums));
    text := enumCode.text;
  }

  /**
   * The struct and table declarations, written to a buffer of their own:
   * first every fixed-layout struct, then every table.
   */
  method GenDeclCode(env: Env, structs: seq<StructDef>) returns (text: string)
    requires forall s :: s in structs ==> Declarable(s)
    ensures text == StructCode(env, structs) + TableCode(env, structs)
  {
    var declCode := new CodeBuffer();
    GenStructs(env, structs, declCode);
    GenTables(env, structs, declCode);
    AppendAssoc("", StructCode(env, structs), TableCode(env, structs));
    EmptyPrefix(StructCode(env, structs) + TableCode(env, structs));
    text := declCode.text;
  }

  /** The loop that forward-declares every struct and table, in parser order. */
  method GenForwardDecls(structs: seq<StructDef>) returns (code: string)
    ensures code == ForwardDecls(structs)
  {
    code := "";
    for i := 0 to |structs|
      invariant code == ForwardDecls(structs[..i])
    {
      assert structs[..i + 1][..i] == structs[..i];
      var ue4Class := Names.UE4ClassName(structs[i].def);
      code := code + ("class " + ue4Class + ";\n");
    }
    assert structs[..|structs|] == structs;
  }

  /**
   * Everything in front of the enum code: the preamble, the dependency
   * includes when asked for, the include of the UE4 generated header and the
   * forward declarations followed by a blank line.
   */
  method GenHead(env: Env, parser: Parser, fileName: string, opts: GeneratorOptions,
                 forwardDeclCode: string)
    returns (code: string)
    requires forwardDeclCode == ForwardDecls(parser.structs)
    ensures code == Preamble(fileName) + DependencyIncludes(env, parser, fileName, opts)
                    + UE4Include(fileName) + ForwardDecls(parser.structs) + "\n"
    ensures |code| > 0
  {
    code := "// automatically generated by the FlatBuffers compiler, do not modify\n\n";
    code := code + "#pragma once\n";
    code := code + "#include \"" + fileName + "_generated.h\"\n";
    ghost var preamble := code;
    assert preamble == Preamble(fileName);

    if opts.includeDependenceHeaders {
      var includes, numIncludes := DependencyIncludeLines(env, parser.includedFiles, fileName);
      code := code + includes;
      if numIncludes > 0 {
        AppendAssoc(preamble, includes, "\n");
        code := code + "\n";
      }
    }
    assert code == preamble + DependencyIncludes(env, parser, fileName, opts);

    // The UE4 generated include goes last.
    var ue4Include := "#include \"" + fileName + "_ue4_generated.generated.h\"\n\n";
    assert ue4Include == UE4Include(fileName);
    code := code + ue4Include;
    code := code + forwardDeclCode;
    code := code + "\n";
  }

  /**
   * The include lines of the dependencies and how many there are: one line
   * per included file whose base name differs from the file being generated.
   */
  method DependencyIncludeLines(env: Env, files: seq<string>, fileName: string)
    returns (code: string, numIncludes: nat)
    ensures code == IncludeLines(Dependencies(env, files, fileName))
    ensures numIncludes == |Dependencies(env, files, fileName)|
  {
    code, numIncludes := "", 0;
    for i := 0 to |files|
      invariant numIncludes == |Dependencies(env, files[..i], fileName)|
      invariant code == IncludeLines(Dependencies(env, files[..i], fileName))
    {
      assert files[..i + 1][..i] == files[..i];
      ghost var deps := Dependencies(env, files[..i], fileName);
      var basename := env.stripPath(env.stripExtension(files[i]));
      assert basename == BaseName(env, files[..i + 1][i]);
      assert Dependencies(env, files[..i + 1], fileName)
          == deps + (if basename != fileName then [basename] else []);
      if basename != fileName {
        var line := "#include \"" + basename + "_generated.h\"\n";
        assert (deps + [basename])[..|deps + [basename]| - 1] == deps;
        assert IncludeLines(deps + [basename]) == IncludeLines(deps) + line;
        code := code + line;
        numIncludes := numIncludes + 1;
      } else {
        assert deps + [] == deps;
      }
    }
    assert files[..|files|] == files;
  }

  /** The loop over the parser's enums: their declarations, in order. */
  method GenEnums(env: Env, enums: seq<EnumDef>, code: CodeBuffer)
    modifies code
    ensures code.text == old(code.text) + EnumCode(env, enums)
  {
    ghost var start := code.text;
    for i := 0 to |enums|
      invariant code.text == start + EnumCode(env, enums[..i])
    {
      assert enums[..i + 1][..i] == enums[..i];
      AppendAssoc(start, EnumCode(env, enums[..i]), EnumDecl(env, enums[i]));
      GenEnum(env, enums[i], code);
    }
    assert enums[..|enums|] == enums;
  }

  /** The loop over the parser's structs that declares the fixed-layout ones, in order. */
  method GenStructs(env: Env, structs: seq<StructDef>, code: CodeBuffer)
    requires forall s :: s in structs ==> Declarable(s)
    modifies code
    ensures code.text == old(code.text) + StructCode(env, structs)
  {
    ghost var start := code.text;
    for i := 0 to |structs|
      invariant code.text == start + StructCode(env, structs[..i])
    {
      StructCodeStep(env, structs, i);
      if structs[i].fixed {
        AppendAssoc(start, StructCode(env, structs[..i]), StructDecl(env, structs[i]));
        GenStruct(env, structs[i], code);
      }
    }
    assert structs[..|structs|] == structs;
  }

  /** The loop over the parser's structs that declares the tables, in order. */
  method GenTables(env: Env, structs: seq<StructDef>, code: CodeBuffer)
    requires forall s :: s in structs ==> Declarable(s)
    modifies code
    ensures code.text == old(code.text) + TableCode(env, structs)
  {
    ghost var start := code.text;
    for i := 0 to |structs|
      invariant code.text == start + TableCode(env, structs[..i])
    {
      TableCodeStep(env, structs, i);
      if !structs[i].fixed {
        AppendAssoc(start, TableCode(env, structs[..i]), TableDecl(env, structs[i]));
        GenTable(env, structs[i], code);
      }
    }
    assert structs[..|structs|] == structs;
  }

  lemma StructCodeStep(env: Env, ss: seq<StructDef>, i: nat)
    requires i < |ss| && forall s :: s in ss ==> Declarable(s)
    ensures ss[i] in ss
    ensures StructCode(env, ss[..i + 1])
         == StructCode(env, ss[..i]) + (if ss[i].fixed then StructDecl(env, ss[i]) else "")
  {
    assert ss[..i + 1][..i] == ss[..i];
  }

  lemma TableCodeStep(env: Env, ss: seq<StructDef>, i: nat)
    requires i < |ss| && forall s :: s in ss ==> Declarable(s)
    ensures ss[i] in ss
    ensures TableCode(env, ss[..i + 1])
         == TableCode(env, ss[..i]) + (if !ss[i].fixed then TableDecl(env, ss[i]) else "")
  {
    assert ss[..i + 1][..i] == ss[..i];
  }

  /** The enum code is empty exactly when every enum was generated before. */
  lemma {:induction false} EnumCodeEmpty(env: Env, es: seq<EnumDef>)
    ensures EnumCode(env, es) == "" <==> forall e :: e in es ==> e.def.generated
    decreases |es|
  {
    if es != [] {
      var init, last := es[..|es| - 1], es[|es| - 1];
      assert es == init + [last];
      EnumCodeEmpty(env, init);
    }
  }

  /**
   * The struct and table code is empty exactly when every struct and table
   * was generated before.
   */
  lemma {:induction false} DeclCodeEmpty(env: Env, ss: seq<StructDef>)
    requires forall s :: s in ss ==> Declarable(s)
    ensures StructCode(env, ss) + TableCode(env, ss) == "" <==> forall s :: s in ss ==> s.def.generated
    decreases |ss|
  {
    if ss != [] {
      var init, last := ss[..|ss| - 1], ss[|ss| - 1];
      assert ss == init + [last];
      DeclCodeEmpty(env, init);
    }
  }

  /**
   * The enum, struct and table code together is empty exactly when every
   * definition of the parser was generated before.
   */
  lemma NothingLeftToGenerate(env: Env, parser: Parser)
    requires forall s :: s in parser.structs ==> Declarable(s)
    ensures (EnumCode(env, parser.enums) == ""
             && StructCode(env, parser.structs) + TableCode(env, parser.structs) == "")
            <==> AllGenerated(parser)
  {
    EnumCodeEmpty(env, parser.enums);
    DeclCodeEmpty(env, parser.structs);
  }

  /**
   * Forward declarations follow parser order: those of a list's first part
   * come before those of the rest.
   */
  lemma {:induction false} ForwardDeclsAppend(a: seq<StructDef>, b: seq<StructDef>)
    ensures ForwardDecls(a + b) == ForwardDecls(a) + ForwardDecls(b)
    decreases |b|
  {
    if b == [] {
      assert a + b == a;
    } else {
      var init, last := b[..|b| - 1], b[|b| - 1];
      assert b == init + [last];
      assert a + b == (a + init) + [last];
      assert (a + init + [last])[..|a + init|] == a + init;
      ForwardDeclsAppend(a, init);
      AppendAssoc(ForwardDecls(a), ForwardDecls(init), ForwardDecl(last));
    }
  }

  /**
   * A definition already generated contributes nothing to the enum code:
   * dropping it leaves the code unchanged.
   */
  lemma {:induction false} EnumCodeSkipsGenerated(env: Env, es: seq<EnumDef>)
    ensures EnumCode(env, es) == EnumCode(env, Filter(es, IsPending))
    decreases |es|
  {
    if es != [] {
      var init, last := es[..|es| - 1], es[|es| - 1];
      assert es == init + [last];
      EnumCodeSkipsGenerated(env, init);
      FilterSnoc(init, last, IsPending);
      var kept := Filter(init, IsPending);
      if IsPending(last) {
        assert (kept + [last])[..|kept + [last]| - 1] == kept;
        assert EnumCode(env, kept + [last]) == EnumCode(env, kept) + EnumDecl(env, last);
      } else {
        assert Filter(es, IsPending) == kept;
        assert EnumDecl(env, last) == "";
        assert EnumCode(env, es) == EnumCode(env, init) + "";
      }
    }
  }

  predicate IsPending(e: EnumDef) {
    !e.def.generated
  }
}
