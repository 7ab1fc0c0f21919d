/** The rule-group document written for one dashboard (`yaml_data` in `main`). */
module RuleSetBuilder {

  datatype Rule = Rule(record: string, expr: string)
  datatype RuleGroup = RuleGroup(name: string, rules: seq<Rule>)
  datatype Metadata = Metadata(name: string)
  datatype RuleSpec = RuleSpec(groups: seq<RuleGroup>)
  datatype RuleDocument = RuleDocument(metadata: Metadata, spec: RuleSpec)

  predicate IsDigit(c: char)
  {
    '0' <= c <= '9'
  }

  function DigitChar(d: nat): (c: char)
    requires d < 10
    ensures IsDigit(c)
    ensures c as int - '0' as int == d
  {
    ('0' as int + d) as char
  }

  /** `str(n)`: decimal digits, most significant first, no leading zero. */
  function DecimalString(n: nat): (r: string)
    ensures |r| > 0
    ensures forall i :: 0 <= i < |r| ==> IsDigit(r[i])
    ensures |r| > 1 ==> r[0] != '0'
    decreases n
  {
    if n < 10 then [DigitChar(n)] else DecimalString(n / 10) + [DigitChar(n % 10)]
  }

  /** `int(s)` on a string of decimal digits. */
  function ParseDecimal(s: string): nat
    requires forall i :: 0 <= i < |s| ==> IsDigit(s[i])
    decreases |s|
  {
    if s == [] then 0
    else
      var last := s[|s| - 1];
      assert IsDigit(last);
      10 * ParseDecimal(s[..|s| - 1]) + (last as int - '0' as int)
  }

  /** Reading the digits back gives the number. */
  lemma {:induction false} ParseDecimalString(n: nat)
    ensures ParseDecimal(DecimalString(n)) == n
    decreases n
  {
    if n >= 10 {
      ParseDecimalString(n / 10);
      var r := DecimalString(n);
      assert r[..|r| - 1] == DecimalString(n / 10);
    }
  }

  lemma DecimalStringInjective(a: nat, b: nat)
    requires DecimalString(a) == DecimalString(b)
    ensures a == b
  {
    ParseDecimalString(a);
    ParseDecimalString(b);
  }

  /** The record name of the rule at 0-based position `i`. */
  function RecordName(i: nat): string
  {
    "expr-" + DecimalString(i + 1)
  }

  /** Every record name is `expr-` followed by its 1-based position. */
  lemma RecordNameNumbers(i: nat)
    ensures |RecordName(i)| > 5 && RecordName(i)[..5] == "expr-"
    ensures var digits := RecordName(i)[5..];
      (forall k :: 0 <= k < |digits| ==> IsDigit(digits[k])) && ParseDecimal(digits) == i + 1
  {
    assert RecordName(i)[5..] == DecimalString(i + 1);
    ParseDecimalString(i + 1);
  }

  /** No two positions share a record name. */
  lemma RecordNamesDistinct(i: nat, j: nat)
    requires i != j
    ensures RecordName(i) != RecordName(j)
  {
    if RecordName(i) == RecordName(j) {
      assert RecordName(i)[5..] == DecimalString(i + 1);
      assert RecordName(j)[5..] == DecimalString(j + 1);
      DecimalStringInjective(i + 1, j + 1);
    }
  }

  /** `[{"record": f"expr-{i+1}", "expr": expr} for i, expr in enumerate(exprs)]` */
  function BuildRules(exprs: seq<string>): (rules: seq<Rule>)
    ensures |rules| == |exprs|
    ensures forall i :: 0 <= i < |exprs| ==> rules[i] == Rule(RecordName(i), exprs[i])
  {
    seq(|exprs|, i requires 0 <= i < |exprs| => Rule(RecordName(i), exprs[i]))
  }

  /** The document: metadata and the single group both named by the raw title. */
  function BuildRuleDocument(title: string, exprs: seq<string>): (doc: RuleDocument)
    ensures doc.metadata.name == title
    ensures |doc.spec.groups| == 1 && doc.spec.groups[0].name == title
    ensures doc.spec.groups[0].rules == BuildRules(exprs)
  {
    RuleDocument(Metadata(title), RuleSpec([RuleGroup(title, BuildRules(exprs))]))
  }

  /** N expressions give N rules named `expr-1` .. `expr-N` without repeats,
      each carrying the expression at its position. */
  lemma DocumentRules(title: string, exprs: seq<string>)
    ensures var rules := BuildRuleDocument(title, exprs).spec.groups[0].rules;
      && |rules| == |exprs|
      && (forall i :: 0 <= i < |rules| ==> rules[i].expr == exprs[i] && rules[i].record == "expr-" + DecimalString(i + 1))
      && (forall i, j :: 0 <= i < j < |rules| ==> rules[i].record != rules[j].record)
  {
    forall i, j | 0 <= i < j < |exprs|
      ensures RecordName(i) != RecordName(j)
    {
      RecordNamesDistinct(i, j);
    }
  }

  lemma EmptyDocument(title: string)
    ensures BuildRuleDocument(title, []) == RuleDocument(Metadata(title), RuleSpec([RuleGroup(title, [])]))
  {
  }

  lemma NumberingExample(exprs: seq<string>)
    requires exprs == ["up", "rate(x[1m])"]
    ensures BuildRuleDocument("Nodes", exprs).spec.groups[0].rules ==
      [Rule("expr-1", "up"), Rule("expr-2", "rate(x[1m])")]
  {
    var rules := BuildRuleDocument("Nodes", exprs).spec.groups[0].rules;
    assert DecimalString(1) == "1" && DecimalString(2) == "2";
    assert RecordName(0) == "expr-1" by {
      assert forall k :: 0 <= k < 6 ==> RecordName(0)[k] == "expr-1"[k];
    }
    assert RecordName(1) == "expr-2" by {
      assert forall k :: 0 <= k < 6 ==> RecordName(1)[k] == "expr-2"[k];
    }
    assert rules[0] == Rule("expr-1", "up");
    assert rules[1] == Rule("expr-2", "rate(x[1m])");
  }
}
