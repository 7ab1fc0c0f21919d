/** Resolution of a dashboard's template variables to the ordered token map
    that substitution applies (`exprs_for_dashboard`, first half). */
module VariableResolver {
  import opened DashboardTypes
  import opened OrderedMap

  /** The three built-in tokens every dashboard starts with, in this order. */
  function Builtins(): VarMap
  {
    [("$__rate_interval", "1m"), ("$__interval", "1m"), ("$__interval_ms", "60000")]
  }

  function BuiltinKeys(): seq<string>
  {
    ["$__rate_interval", "$__interval", "$__interval_ms"]
  }

  /** The built-in value of a token, stated independently of the map. */
  function BuiltinValue(k: string): Option<string>
  {
    if k == "$__rate_interval" then Some("1m")
    else if k == "$__interval" then Some("1m")
    else if k == "$__interval_ms" then Some("60000")
    else None
  }

  predicate IsDatasource(v: TemplateVar)
  {
    v.kind == "datasource"
  }

  /** The substitution token of a variable. */
  function Token(name: string): string
  {
    "$" + name
  }

  /** The value chosen before overrides: the first selected value, or the
      variable's own name when nothing is selected. */
  function Candidate(v: TemplateVar): (r: string)
    ensures |v.current| > 0 ==> r == v.current[0]
    ensures v.current == [] ==> r == v.name
  {
    if |v.current| > 0 then v.current[0] else v.name
  }

  /** The resolved value, after the `cluster` and `namespace` overrides. */
  function Value(v: TemplateVar): (r: string)
    ensures v.name == "cluster" ==> r == "tales"
    ensures v.name == "namespace" && Candidate(v) == "$__all" ==> r == "cilium"
    ensures v.name == "namespace" && Candidate(v) != "$__all" ==> r == Candidate(v)
    ensures v.name != "cluster" && v.name != "namespace" ==> r == Candidate(v)
  {
    var c := Candidate(v);
    if v.name == "cluster" then "tales"
    else if v.name == "namespace" && c == "$__all" then "cilium"
    else c
  }

  /** One pass of the declaration loop over `v`. */
  function Declare(m: VarMap, v: TemplateVar): VarMap
  {
    if IsDatasource(v) then m else Put(m, Token(v.name), Value(v))
  }

  /** The map after the declaration loop has handled `decls`. */
  function Resolved(decls: seq<TemplateVar>): VarMap
    decreases |decls|
  {
    if decls == [] then Builtins()
    else Declare(Resolved(decls[..|decls| - 1]), decls[|decls| - 1])
  }

  method ResolveVariables(decls: seq<TemplateVar>) returns (m: VarMap)
    ensures m == Resolved(decls)
  {
    m := [("$__rate_interval", "1m"), ("$__interval", "1m"), ("$__interval_ms", "60000")];
    var i := 0;
    while i < |decls|
      invariant 0 <= i <= |decls|
      invariant m == Resolved(decls[..i])
    {
      var v := decls[i];
      assert decls[..i + 1][..i] == decls[..i];
      if v.kind != "datasource" {
        var vals := v.current;
        var val := v.name;
        if |vals| > 0 {
          val := vals[0];
        }
        if v.name == "cluster" {
          val := "tales";
        }
        if v.name == "namespace" && val == "$__all" {
          val := "cilium";
        }
        m := Put(m, "$" + v.name, val);
      }
      i := i + 1;
    }
    assert decls[..i] == decls;
  }

  lemma BuiltinKeysInOrder()
    ensures Keys(Builtins()) == BuiltinKeys()
    ensures Distinct(BuiltinKeys())
  {
    var b := Builtins();
    assert b[1..][1..][1..] == [];
  }

  /** The resolved map is a dictionary: no key twice, and every key a
      `$`-prefixed token. */
  lemma {:induction false} ResolvedWellFormed(decls: seq<TemplateVar>)
    ensures DistinctKeys(Resolved(decls))
    ensures forall k :: k in Keys(Resolved(decls)) ==> |k| > 0 && k[0] == '$'
    decreases |decls|
  {
    if decls == [] {
      BuiltinKeysInOrder();
    } else {
      var p := decls[..|decls| - 1];
      var v := decls[|decls| - 1];
      ResolvedWellFormed(p);
      var m := Resolved(p);
      if !IsDatasource(v) {
        var k := Token(v.name);
        assert k[0] == '$';
        assert Resolved(decls) == Put(m, k, Value(v));
        assert Keys(Resolved(decls)) == if k in Keys(m) then Keys(m) else Keys(m) + [k];
      }
    }
  }

  /** The tokens the declaration loop writes, in order, repeats included. */
  function DeclaredTokens(decls: seq<TemplateVar>): seq<string>
    decreases |decls|
  {
    if decls == [] then []
    else
      var v := decls[|decls| - 1];
      DeclaredTokens(decls[..|decls| - 1]) + (if IsDatasource(v) then [] else [Token(v.name)])
  }

  /** What a token resolves to: the value of the last non-datasource
      declaration of that name, else its built-in value. */
  function LastWrite(decls: seq<TemplateVar>, k: string): Option<string>
    decreases |decls|
  {
    if decls == [] then BuiltinValue(k)
    else
      var v := decls[|decls| - 1];
      if !IsDatasource(v) && Token(v.name) == k then Some(Value(v))
      else LastWrite(decls[..|decls| - 1], k)
  }

  /** The declarations other than the datasource ones, in order. */
  function WithoutDatasources(decls: seq<TemplateVar>): seq<TemplateVar>
    decreases |decls|
  {
    if decls == [] then []
    else
      var v := decls[|decls| - 1];
      WithoutDatasources(decls[..|decls| - 1]) + (if IsDatasource(v) then [] else [v])
  }

  /** Last write wins: every token maps to its last declaration's value,
      built-ins to their own value unless redeclared, and nothing else is a key. */
  lemma {:induction false} ResolvedLookup(decls: seq<TemplateVar>, k: string)
    ensures Lookup(Resolved(decls), k) == LastWrite(decls, k)
    decreases |decls|
  {
    if decls != [] {
      ResolvedLookup(decls[..|decls| - 1], k);
    }
  }

  /** Keys stay in the order of their first insertion: the built-ins first,
      then each declared token where it was first written. */
  lemma {:induction false} ResolvedKeyOrder(decls: seq<TemplateVar>)
    ensures Keys(Resolved(decls)) == FirstOccurrences(BuiltinKeys() + DeclaredTokens(decls))
    decreases |decls|
  {
    if decls == [] {
      assert BuiltinKeys() + DeclaredTokens(decls) == BuiltinKeys();
      BuiltinKeysInOrder();
      FirstOccurrencesOfDistinct(BuiltinKeys());
    } else {
      var p := decls[..|decls| - 1];
      var v := decls[|decls| - 1];
      ResolvedKeyOrder(p);
      var s := BuiltinKeys() + DeclaredTokens(p);
      var m := Resolved(p);
      if IsDatasource(v) {
        assert DeclaredTokens(decls) == DeclaredTokens(p);
        assert Resolved(decls) == m;
      } else {
        var k := Token(v.name);
        var all := BuiltinKeys() + DeclaredTokens(decls);
        assert DeclaredTokens(decls) == DeclaredTokens(p) + [k];
        assert all == s + [k];
        assert all[..|all| - 1] == s;
        assert FirstOccurrences(all) == if k in FirstOccurrences(s) then FirstOccurrences(s) else FirstOccurrences(s) + [k];
        assert Resolved(decls) == Put(m, k, Value(v));
      }
    }
  }

  /** The three built-in tokens always hold the first three positions, even
      when a declaration overwrites one of them. */
  lemma BuiltinsLead(decls: seq<TemplateVar>)
    ensures |Keys(Resolved(decls))| >= 3
    ensures Keys(Resolved(decls))[..3] == BuiltinKeys()
  {
    ResolvedKeyOrder(decls);
    FirstOccurrencesPrefix(BuiltinKeys(), DeclaredTokens(decls));
    FirstOccurrencesOfDistinct(BuiltinKeys());
  }

  /** Datasource declarations never add or change an entry. */
  lemma {:induction false} DatasourcesIgnored(decls: seq<TemplateVar>)
    ensures Resolved(decls) == Resolved(WithoutDatasources(decls))
    decreases |decls|
  {
    if decls != [] {
      var p := decls[..|decls| - 1];
      var v := decls[|decls| - 1];
      DatasourcesIgnored(p);
      assert Resolved(decls) == Declare(Resolved(p), v);
      if IsDatasource(v) {
        assert WithoutDatasources(decls) == WithoutDatasources(p);
      } else {
        var w := WithoutDatasources(p) + [v];
        assert WithoutDatasources(decls) == w;
        assert w[..|w| - 1] == WithoutDatasources(p);
        assert Resolved(w) == Declare(Resolved(WithoutDatasources(p)), v);
      }
    }
  }

  /** With no declarations other than datasources, the map is exactly the
      three built-ins in their fixed order. */
  lemma {:induction false} OnlyBuiltins(decls: seq<TemplateVar>)
    requires forall i :: 0 <= i < |decls| ==> IsDatasource(decls[i])
    ensures Resolved(decls) == Builtins()
    decreases |decls|
  {
    if decls != [] {
      OnlyBuiltins(decls[..|decls| - 1]);
    }
  }

  /** A `cluster` variable resolves to "tales" whatever is selected. */
  lemma ClusterOverrideExample(v: TemplateVar)
    requires v == TemplateVar("query", "cluster", ["prod-east"])
    ensures Lookup(Resolved([v]), "$cluster") == Some("tales")
  {
    assert [v][..0] == [];
    assert Token(v.name) == "$cluster";
    ResolvedLookup([v], "$cluster");
  }

  /** `namespace` set to the all-values sentinel resolves to "cilium"; any
      other selection is kept. */
  lemma NamespaceOverrideExample(all: TemplateVar, one: TemplateVar)
    requires all == TemplateVar("query", "namespace", ["$__all", "kube-system"])
    requires one == TemplateVar("query", "namespace", ["kube-system"])
    ensures Lookup(Resolved([all]), "$namespace") == Some("cilium")
    ensures Lookup(Resolved([one]), "$namespace") == Some("kube-system")
  {
    assert [all][..0] == [] && [one][..0] == [];
    assert Token("namespace") == "$namespace";
    ResolvedLookup([all], "$namespace");
    ResolvedLookup([one], "$namespace");
  }

  /** Distinct names give distinct tokens. */
  lemma TokenInjective(a: string, b: string)
    requires Token(a) == Token(b)
    ensures a == b
  {
    assert Token(a)[1..] == a && Token(b)[1..] == b;
  }

  /** The last non-datasource declaration of a name is its token's last write. */
  lemma {:induction false} LastWriteOfLast(decls: seq<TemplateVar>, j: nat)
    requires j < |decls| && !IsDatasource(decls[j])
    requires forall k :: j < k < |decls| && !IsDatasource(decls[k]) ==> decls[k].name != decls[j].name
    ensures LastWrite(decls, Token(decls[j].name)) == Some(Value(decls[j]))
    decreases |decls|
  {
    var n := |decls|;
    var v := decls[n - 1];
    if j < n - 1 {
      var p := decls[..n - 1];
      if !IsDatasource(v) && Token(v.name) == Token(decls[j].name) {
        TokenInjective(v.name, decls[j].name);
        assert false;
      }
      assert p[j] == decls[j];
      forall k | j < k < |p| && !IsDatasource(p[k])
        ensures p[k].name != p[j].name
      {
        assert p[k] == decls[k];
      }
      LastWriteOfLast(p, j);
    }
  }

  /** When a name repeats, its last non-datasource declaration decides the
      value of its token. */
  lemma LastDeclarationWins(decls: seq<TemplateVar>, j: nat)
    requires j < |decls| && !IsDatasource(decls[j])
    requires forall k :: j < k < |decls| && !IsDatasource(decls[k]) ==> decls[k].name != decls[j].name
    ensures Lookup(Resolved(decls), Token(decls[j].name)) == Some(Value(decls[j]))
  {
    LastWriteOfLast(decls, j);
    ResolvedLookup(decls, Token(decls[j].name));
  }

  /** Every `cluster` declaration writes "tales", so the last write is "tales". */
  lemma {:induction false} ClusterLastWrite(decls: seq<TemplateVar>, j: nat)
    requires j < |decls| && !IsDatasource(decls[j]) && decls[j].name == "cluster"
    ensures LastWrite(decls, "$cluster") == Some("tales")
    decreases |decls|
  {
    var n := |decls|;
    var v := decls[n - 1];
    if !IsDatasource(v) && Token(v.name) == "$cluster" {
      TokenInjective(v.name, "cluster");
    } else {
      assert j != n - 1;
      assert decls[..n - 1][j] == decls[j];
      ClusterLastWrite(decls[..n - 1], j);
    }
  }

  /** Some non-datasource `cluster` declaration makes `$cluster` resolve to
      "tales", whatever each declaration selects. */
  lemma ClusterAlwaysTales(decls: seq<TemplateVar>, j: nat)
    requires j < |decls| && !IsDatasource(decls[j]) && decls[j].name == "cluster"
    ensures Lookup(Resolved(decls), "$cluster") == Some("tales")
  {
    ClusterLastWrite(decls, j);
    ResolvedLookup(decls, "$cluster");
  }

  /** `$namespace` takes the value selected by its last non-datasource
      declaration, with `$__all` read as "cilium". */
  lemma NamespaceOverride(decls: seq<TemplateVar>, j: nat)
    requires j < |decls| && !IsDatasource(decls[j]) && decls[j].name == "namespace"
    requires forall k :: j < k < |decls| && !IsDatasource(decls[k]) ==> decls[k].name != "namespace"
    ensures var c := if |decls[j].current| > 0 then decls[j].current[0] else "namespace";
      Lookup(Resolved(decls), "$namespace") == Some(if c == "$__all" then "cilium" else c)
  {
    LastDeclarationWins(decls, j);
    assert Token("namespace") == "$namespace";
  }
}
