/** The recursive panel walk that collects and substitutes query
    expressions (`add_exprs_for_panel` and the rest of `exprs_for_dashboard`). */
module PanelWalker {
  import opened DashboardTypes
  import opened OrderedMap
  import opened TextReplace
  import opened VariableResolver

  /** `e` after one replace-all per map entry, in map order. */
  function Substituted(e: string, m: VarMap): string
    decreases |m|
  {
    if m == [] then e
    else ReplaceAll(Substituted(e, m[..|m| - 1]), m[|m| - 1].0, m[|m| - 1].1)
  }

  /** The replace loop run on one target's expression. */
  method Substitute(e: string, m: VarMap) returns (r: string)
    ensures r == Substituted(e, m)
  {
    r := e;
    var i := 0;
    while i < |m|
      invariant 0 <= i <= |m|
      invariant r == Substituted(e, m[..i])
    {
      assert m[..i + 1][..i] == m[..i];
      r := ReplaceAll(r, m[i].0, m[i].1);
      i := i + 1;
    }
    assert m[..i] == m;
  }

  /** A target contributes when its `expr` is present and non-empty. */
  predicate HasExpr(t: Target)
  {
    t.expr.Some? && t.expr.value != ""
  }

  /** The substituted expressions of the contributing targets, in order. */
  function TargetExprs(ts: seq<Target>, m: VarMap): seq<string>
    decreases |ts|
  {
    if ts == [] then []
    else
      var t := ts[|ts| - 1];
      TargetExprs(ts[..|ts| - 1], m) + (if HasExpr(t) then [Substituted(t.expr.value, m)] else [])
  }

  /** What the walk appends for one panel: its own targets, then its children. */
  function PanelExprs(p: Panel, m: VarMap): seq<string>
    decreases p, 1
  {
    TargetExprs(p.targets, m) + ForestExprs(p.panels, m)
  }

  /** What the walk appends for a sequence of sibling panels, in order. */
  function ForestExprs(ps: seq<Panel>, m: VarMap): seq<string>
    decreases ps, 0
  {
    if ps == [] then []
    else ForestExprs(ps[..|ps| - 1], m) + PanelExprs(ps[|ps| - 1], m)
  }

  /** The `exprs` list that the walk shares and only ever appends to. */
  class ExprList {
    var items: seq<string>

    constructor ()
      ensures items == []
    {
      items := [];
    }

    method Append(e: string)
      modifies this
      ensures items == old(items) + [e]
    {
      items := items + [e];
    }
  }

  method AddExprsForPanel(panel: Panel, vars: VarMap, exprs: ExprList)
    modifies exprs
    ensures exprs.items == old(exprs.items) + PanelExprs(panel, vars)
    decreases panel
  {
    var i := 0;
    while i < |panel.targets|
      invariant 0 <= i <= |panel.targets|
      invariant exprs.items == old(exprs.items) + TargetExprs(panel.targets[..i], vars)
    {
      assert panel.targets[..i + 1][..i] == panel.targets[..i];
      var target := panel.targets[i];
      if target.expr.Some? && target.expr.value != "" {
        var expr := Substitute(target.expr.value, vars);
        exprs.Append(expr);
      }
      i := i + 1;
    }
    assert panel.targets[..i] == panel.targets;
    var j := 0;
    while j < |panel.panels|
      invariant 0 <= j <= |panel.panels|
      invariant exprs.items == old(exprs.items) + TargetExprs(panel.targets, vars) + ForestExprs(panel.panels[..j], vars)
    {
      assert panel.panels[..j + 1][..j] == panel.panels[..j];
      AddExprsForPanel(panel.panels[j], vars, exprs);
      j := j + 1;
    }
    assert panel.panels[..j] == panel.panels;
  }

  /** The expressions extracted from a dashboard. */
  function DashboardExprs(d: Dashboard): seq<string>
  {
    ForestExprs(d.panels, Resolved(d.templating))
  }

  method ExprsForDashboard(d: Dashboard) returns (exprs: seq<string>)
    ensures exprs == DashboardExprs(d)
  {
    var vars := ResolveVariables(d.templating);
    var acc := new ExprList();
    var i := 0;
    while i < |d.panels|
      invariant 0 <= i <= |d.panels|
      invariant acc.items == ForestExprs(d.panels[..i], vars)
    {
      assert d.panels[..i + 1][..i] == d.panels[..i];
      AddExprsForPanel(d.panels[i], vars, acc);
      i := i + 1;
    }
    assert d.panels[..i] == d.panels;
    exprs := acc.items;
  }

  /** A map with no key occurring in `e` leaves `e` unchanged. */
  lemma {:induction false} SubstituteNoToken(e: string, m: VarMap)
    requires forall i :: 0 <= i < |m| ==> !Occurs(m[i].0, e)
    ensures Substituted(e, m) == e
    decreases |m|
  {
    if m != [] {
      SubstituteNoToken(e, m[..|m| - 1]);
      ReplaceAbsent(e, m[|m| - 1].0, m[|m| - 1].1);
    }
  }

  /** Substitution with the built-ins alone applies `$__rate_interval`, then
      `$__interval`, then `$__interval_ms`. */
  lemma BuiltinSubstitutionOrder(e: string)
    ensures Substituted(e, Builtins()) ==
      ReplaceAll(ReplaceAll(ReplaceAll(e, "$__rate_interval", "1m"), "$__interval", "1m"), "$__interval_ms", "60000")
  {
    var b := Builtins();
    var b2 := b[..2];
    var b1 := b2[..1];
    assert b2 == [("$__rate_interval", "1m"), ("$__interval", "1m")];
    assert b1 == [("$__rate_interval", "1m")];
    assert b1[..0] == [];
    assert Substituted(e, b1) == ReplaceAll(e, "$__rate_interval", "1m");
    assert Substituted(e, b2) == ReplaceAll(Substituted(e, b1), "$__interval", "1m");
  }

  /** `rate(x[$__rate_interval])` becomes `rate(x[1m])`. */
  lemma RateIntervalExample(e: string)
    requires e == "rate(x[$__rate_interval])"
    ensures Substituted(e, Builtins()) == "rate(x[1m])"
  {
    BuiltinSubstitutionOrder(e);
    RateIntervalReplaced(e);
  }

  /** `$__interval` is replaced before `$__interval_ms` gets its turn, so the
      latter never receives its own value. */
  lemma IntervalMsExample(e: string)
    requires e == "x[$__interval_ms]"
    ensures Substituted(e, Builtins()) == "x[1m_ms]"
  {
    BuiltinSubstitutionOrder(e);
    IntervalReplacedFirst(e);
  }

  /** The raw expressions of the contributing targets, in order. */
  function RawExprs(ts: seq<Target>): (es: seq<string>)
    ensures forall i :: 0 <= i < |es| ==> es[i] != ""
    decreases |ts|
  {
    if ts == [] then []
    else
      var t := ts[|ts| - 1];
      RawExprs(ts[..|ts| - 1]) + (if HasExpr(t) then [t.expr.value] else [])
  }

  function SubstituteEach(es: seq<string>, m: VarMap): seq<string>
  {
    seq(|es|, i requires 0 <= i < |es| => Substituted(es[i], m))
  }

  /** Every target of a panel tree, in pre-order: a panel's own targets, then
      those of each child in turn. */
  function AllTargets(p: Panel): seq<Target>
    decreases p, 1
  {
    p.targets + AllTargetsOf(p.panels)
  }

  function AllTargetsOf(ps: seq<Panel>): seq<Target>
    decreases ps, 0
  {
    if ps == [] then []
    else AllTargetsOf(ps[..|ps| - 1]) + AllTargets(ps[|ps| - 1])
  }

  /** Exactly one substituted string per contributing target, in order. */
  lemma {:induction false} TargetExprsSubstituteEach(ts: seq<Target>, m: VarMap)
    ensures TargetExprs(ts, m) == SubstituteEach(RawExprs(ts), m)
    decreases |ts|
  {
    if ts != [] {
      TargetExprsSubstituteEach(ts[..|ts| - 1], m);
    }
  }

  lemma {:induction false} TargetExprsAppend(a: seq<Target>, b: seq<Target>, m: VarMap)
    ensures TargetExprs(a + b, m) == TargetExprs(a, m) + TargetExprs(b, m)
    decreases |b|
  {
    if b == [] {
      assert a + b == a;
    } else {
      var b' := b[..|b| - 1];
      TargetExprsAppend(a, b', m);
      assert (a + b)[..|a + b| - 1] == a + b';
    }
  }

  /** The walk of a panel yields the contributing expressions of its whole
      tree in pre-order. */
  lemma {:induction false} WalkIsPreOrder(p: Panel, m: VarMap)
    ensures PanelExprs(p, m) == TargetExprs(AllTargets(p), m)
    decreases p, 1
  {
    WalkIsPreOrderOf(p.panels, m);
    TargetExprsAppend(p.targets, AllTargetsOf(p.panels), m);
  }

  lemma {:induction false} WalkIsPreOrderOf(ps: seq<Panel>, m: VarMap)
    ensures ForestExprs(ps, m) == TargetExprs(AllTargetsOf(ps), m)
    decreases ps, 0
  {
    if ps != [] {
      var last := ps[|ps| - 1];
      WalkIsPreOrderOf(ps[..|ps| - 1], m);
      WalkIsPreOrder(last, m);
      TargetExprsAppend(AllTargetsOf(ps[..|ps| - 1]), AllTargets(last), m);
    }
  }

  /** A dashboard's expressions are its contributing targets' expressions,
      at any depth and in pre-order, each substituted with the resolved map. */
  lemma DashboardExprsComplete(d: Dashboard)
    ensures DashboardExprs(d) == SubstituteEach(RawExprs(AllTargetsOf(d.panels)), Resolved(d.templating))
    ensures |DashboardExprs(d)| == |RawExprs(AllTargetsOf(d.panels))|
  {
    WalkIsPreOrderOf(d.panels, Resolved(d.templating));
    TargetExprsSubstituteEach(AllTargetsOf(d.panels), Resolved(d.templating));
  }

  /** A dashboard without panels yields no expressions. */
  lemma EmptyDashboard(d: Dashboard)
    requires d.panels == []
    ensures DashboardExprs(d) == []
  {
  }

  /** Three panels nested in each other, one target each, give three
      expressions, outermost first; the empty and the missing `expr` are skipped. */
  lemma NestedExample(d: Dashboard)
    requires d == Dashboard([], [Panel([Target(Some("up"))],
                                   [Panel([Target(Some("")), Target(Some("a")), Target(None)],
                                          [Panel([Target(Some("b"))], [])])])])
    ensures DashboardExprs(d) == ["up", "a", "b"]
  {
    var m := Resolved(d.templating);
    assert m == Builtins();
    forall e | e in ["up", "a", "b"]
      ensures Substituted(e, m) == e
    {
      forall i | 0 <= i < |m|
        ensures !Occurs(m[i].0, e)
      {
        assert |e| < |m[i].0|;
      }
      SubstituteNoToken(e, m);
    }
    DashboardExprsComplete(d);
    NestedTargets(d.panels);
    NestedRawExprs(AllTargetsOf(d.panels));
  }

  lemma NestedTargets(ps: seq<Panel>)
    requires ps == [Panel([Target(Some("up"))],
                          [Panel([Target(Some("")), Target(Some("a")), Target(None)],
                                 [Panel([Target(Some("b"))], [])])])]
    ensures AllTargetsOf(ps) == [Target(Some("up")), Target(Some("")), Target(Some("a")), Target(None), Target(Some("b"))]
  {
    var p1 := ps[0];
    var p2 := p1.panels[0];
    var p3 := p2.panels[0];
    assert [p3][..0] == [] && [p2][..0] == [] && [p1][..0] == [];
    assert AllTargets(p3) == [Target(Some("b"))];
    assert AllTargets(p2) == [Target(Some("")), Target(Some("a")), Target(None), Target(Some("b"))];
  }

  lemma NestedRawExprs(ts: seq<Target>)
    requires ts == [Target(Some("up")), Target(Some("")), Target(Some("a")), Target(None), Target(Some("b"))]
    ensures RawExprs(ts) == ["up", "a", "b"]
  {
    var ts1 := [Target(Some("up"))];
    assert ts1[..0] == [];
    assert RawExprs(ts1) == ["up"];
    var ts2 := ts1 + [Target(Some(""))];
    assert ts2[..1] == ts1;
    assert RawExprs(ts2) == ["up"];
    var ts3 := ts2 + [Target(Some("a"))];
    assert ts3[..2] == ts2;
    assert RawExprs(ts3) == ["up", "a"];
    var ts4 := ts3 + [Target(None)];
    assert ts4[..3] == ts3;
    assert RawExprs(ts4) == ["up", "a"];
    assert ts == ts4 + [Target(Some("b"))];
    assert ts[..4] == ts4;
  }
}
