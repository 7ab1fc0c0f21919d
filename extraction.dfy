/** One dashboard end to end: resolve, walk, and build its rule document. */
module Extraction {
  import opened DashboardTypes
  import opened VariableResolver
  import opened PanelWalker
  import opened RuleSetBuilder

  /** One panel with `rate(x[$__rate_interval])` and no declared variables
      gives the single rule `expr-1: rate(x[1m])`. */
  lemma EndToEndExample(d: Dashboard)
    requires d == Dashboard([], [Panel([Target(Some("rate(x[$__rate_interval])"))], [])])
    ensures DashboardExprs(d) == ["rate(x[1m])"]
    ensures BuildRuleDocument("Cilium", DashboardExprs(d)) ==
      RuleDocument(Metadata("Cilium"), RuleSpec([RuleGroup("Cilium", [Rule("expr-1", "rate(x[1m])")])]))
  {
    var p := d.panels[0];
    assert [p][..0] == [];
    assert p.targets[..0] == [];
    assert Resolved(d.templating) == Builtins();
    RateIntervalExample("rate(x[$__rate_interval])");
    assert DashboardExprs(d) == ["rate(x[1m])"];
    assert RecordName(0) == "expr-1" by {
      assert DecimalString(1) == "1";
      assert forall k :: 0 <= k < 6 ==> RecordName(0)[k] == "expr-1"[k];
    }
    var rules := BuildRules(["rate(x[1m])"]);
    assert rules[0] == Rule("expr-1", "rate(x[1m])");
    assert rules == [Rule("expr-1", "rate(x[1m])")];
  }

  /** A dashboard with no panels gives a document with an empty rule list. */
  lemma EmptyInput(title: string, d: Dashboard)
    requires d.panels == []
    ensures BuildRuleDocument(title, DashboardExprs(d)).spec.groups[0].rules == []
  {
  }
}
