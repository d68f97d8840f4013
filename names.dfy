/**
 * Name derivation: the namespace-qualified C++ name of a definition and the
 * `UFB`-prefixed name of the UE4 type generated for it.
 */
module Names {
  import opened Schema

  /** Each namespace component followed by `::`, in order. */
  function NamespacePrefix(ns: seq<string>): string
    decreases |ns|
  {
    if ns == [] then "" else ns[0] + "::" + NamespacePrefix(ns[1..])
  }

  /**
   * The C++ name of a definition: its namespace prefix, then its own name.
   * The result always ends with the name, and a definition in the global
   * namespace keeps its bare name.
   */
  function CPPClassName(def: Definition): (r: string)
    ensures |r| >= |def.name| && r[|r| - |def.name|..] == def.name
    ensures def.namespace == [] ==> r == def.name
  {
    NamespacePrefix(def.namespace) + def.name
  }

  /** The UE4 type name: `UFB` followed by the definition's name. */
  function UE4ClassName(def: Definition): (r: string)
    ensures |r| == |def.name| + 3
    ensures r[..3] == "UFB" && r[3..] == def.name
  {
    "UFB" + def.name
  }

  /** Distinct definition names give distinct UE4 type names. */
  lemma UE4ClassNameInjective(a: Definition, b: Definition)
    requires UE4ClassName(a) == UE4ClassName(b)
    ensures a.name == b.name
  {
    assert a.name == UE4ClassName(a)[3..];
  }

  predicate NoColon(s: string) {
    forall i :: 0 <= i < |s| ==> s[i] != ':'
  }

  /** The pieces of `s` between occurrences of `::`. */
  function SplitScope(s: string): (parts: seq<string>)
    ensures |parts| >= 1
    decreases |s|
  {
    if |s| >= 2 && s[0] == ':' && s[1] == ':' then [""] + SplitScope(s[2..])
    else if s == [] then [""]
    else
      var rest := SplitScope(s[1..]);
      [[s[0]] + rest[0]] + rest[1..]
  }

  lemma {:induction false} SplitScopeNoColon(x: string)
    requires NoColon(x)
    ensures SplitScope(x) == [x]
    decreases |x|
  {
    if x != [] {
      SplitScopeNoColon(x[1..]);
      assert [x[0]] + x[1..] == x;
    }
  }

  lemma {:induction false} SplitScopeAfter(x: string, y: string)
    requires NoColon(x)
    ensures SplitScope(x + "::" + y) == [x] + SplitScope(y)
    decreases |x|
  {
    var s := x + "::" + y;
    if x == [] {
      assert s == "::" + y;
      assert s[2..] == y;
    } else {
      assert s[1..] == x[1..] + "::" + y;
      SplitScopeAfter(x[1..], y);
      assert [x[0]] + x[1..] == x;
    }
  }

  /**
   * Round trip: when no namespace component and not the name contains a
   * colon, splitting the C++ name at `::` gives back the namespace components
   * followed by the name.
   */
  lemma {:induction false} CPPClassNameSplits(def: Definition)
    requires forall c :: c in def.namespace ==> NoColon(c)
    requires NoColon(def.name)
    ensures SplitScope(CPPClassName(def)) == def.namespace + [def.name]
    decreases |def.namespace|
  {
    var ns := def.namespace;
    if ns == [] {
      SplitScopeNoColon(def.name);
    } else {
      var inner := def.(namespace := ns[1..]);
      assert ns[1..] + [def.name] == (ns + [def.name])[1..];
      CPPClassNameSplits(inner);
      assert CPPClassName(def) == ns[0] + "::" + CPPClassName(inner);
      SplitScopeAfter(ns[0], CPPClassName(inner));
    }
  }
}
