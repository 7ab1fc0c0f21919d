# dashpint extract core, modelled in Dafny

`extract.py` reads Grafana dashboards and turns each one into a Prometheus
recording-rule document. This project models the part of it that computes
things and does no I/O:

- **Variable resolution** (`exprs_for_dashboard`, first half), in
  `variables.dfy`. The token map starts with the three built-ins:
  - `$__rate_interval → 1m`
  - `$__interval → 1m`
  - `$__interval_ms → 60000`

  Each template-variable declaration that is not a `datasource` then writes
  `"$" + name` with its chosen value. The chosen value is the first selected
  value, or the variable's own name when nothing is selected. Two overrides
  apply after that: `cluster` always gets `tales`, and `namespace` with
  `$__all` gets `cilium`. Python's dict is modelled in `ordered_map.dfy` as
  an insertion-ordered sequence of pairs. Overwriting a key keeps its first
  position, and that order is the order substitution uses later.
  `ResolveVariables` is the declaration loop, proved against the function
  `Resolved`.
- **Panel walk and substitution** (`add_exprs_for_panel` and the second half
  of `exprs_for_dashboard`), in `walker.dfy`.
  - Each target with a present, non-empty `expr` gets one Python
    `str.replace` per map entry, in map order (`replace.dfy`). The result is
    appended to the shared `exprs` list.
  - That list is the class `ExprList`. Its only update is `Append`.
  - `AddExprsForPanel` recurses over child panels exactly as the source does.
  - Substitution is reproduced as written, including its order dependence:
    `x[$__interval_ms]` becomes `x[1m_ms]` because `$__interval` is replaced
    first.
- **Name sanitising** (`sanitize_name`), in `sanitize.dfy`. Every maximal run
  of characters outside `[A-Za-z0-9]` becomes a single `-`. The regex is
  specified directly over characters. A second, per-character definition
  (`Collapse`) is proved equal to it.
- **Rule-document construction** (the `yaml_data` literal in `main`), in
  `rules.dfy`. The document is a datatype, not YAML text. Rule `i` (counting
  from 0) is recorded as `expr-<i+1>`, written in decimal. The metadata name
  and the single group's name are both the raw dashboard title.

`extraction.dfy` composes the pieces on small dashboards.

A missing `targets`, `panels` or `current.value` field is modelled as an
empty sequence, which is how the source's `.get(..., [])` defaults behave.
A missing `expr` is `None`.

## Model

| member | source | states |
|---|---|---|
| OrderedMap.Lookup | extract.py:36 | a key has a value exactly when it is one of the map's keys |
| OrderedMap.LookupStored | extract.py:36 | in a dict without repeated keys, each stored pair is what looking up its key finds, so the value substituted for a key is the one the map holds |
| OrderedMap.Put | extract.py:57 | dict assignment: an existing key keeps its position, a new key goes last; the key maps to the new value; every other key keeps its value; no key is ever duplicated |
| TextReplace.ReplaceAbsent | extract.py:36 | `replace` leaves a string that does not contain the pattern unchanged |
| TextReplace.ReplaceBySelf | extract.py:36 | replacing a pattern by itself changes nothing, the empty pattern included |
| TextReplace.ReplaceSkipsLead | extract.py:36 | a prefix without the pattern's first character is copied, and replacement continues after it |
| TextReplace.ReplaceSkipsUnmatched | extract.py:36 | a prefix at none of whose positions an occurrence starts is copied, and replacement continues after it |
| TextReplace.ReplaceLeftmost | extract.py:36 | the leftmost occurrence is replaced, whatever precedes it (other `$` tokens included), and scanning resumes after it, so a replacement is never rescanned |
| TextReplace.ReplaceFirst | extract.py:36 | the same for the common case where nothing before the occurrence can start the pattern |
| TextReplace.RateIntervalReplaced | extract.py:36 | the three built-in replaces, in order, turn `rate(x[$__rate_interval])` into `rate(x[1m])` |
| TextReplace.IntervalReplacedFirst | extract.py:36 | the three built-in replaces, in order, turn `x[$__interval_ms]` into `x[1m_ms]` |
| VariableResolver.Candidate | extract.py:49-52 | the value is the first selected value when there is one, otherwise the variable's name |
| VariableResolver.Value | extract.py:53-56 | `cluster` always resolves to `tales`; `namespace` resolves to `cilium` exactly when its candidate is `$__all` and keeps the candidate otherwise; any other name keeps its candidate |
| VariableResolver.ResolveVariables | extract.py:45-57 | the declaration loop computes the resolved token map |
| VariableResolver.BuiltinKeysInOrder | extract.py:45 | the built-in map holds `$__rate_interval`, `$__interval`, `$__interval_ms` in that order, without repeats |
| VariableResolver.ResolvedWellFormed | extract.py:45-57 | the resolved map never holds a key twice, and each key is a `$` token |
| VariableResolver.ResolvedLookup | extract.py:45-57 | each token maps to the value of the last non-datasource declaration that writes it, or to its built-in value when none does; every other string is absent |
| VariableResolver.ResolvedKeyOrder | extract.py:45-57 | the keys are the built-ins, then the declared tokens, in order of first insertion; a rewritten key, built-ins included, keeps its first position |
| VariableResolver.BuiltinsLead | extract.py:45-57 | the first three keys are always the three built-ins, in order |
| VariableResolver.DatasourcesIgnored | extract.py:46-48 | removing the datasource declarations does not change the resolved map |
| VariableResolver.OnlyBuiltins | extract.py:45-48 | with only datasource declarations, or none, the map is exactly the three built-ins |
| VariableResolver.LastDeclarationWins | extract.py:46-57 | when a name is declared more than once, its token resolves to the value of the last non-datasource declaration |
| VariableResolver.ClusterAlwaysTales | extract.py:53-54 | whenever some non-datasource declaration is named `cluster`, `$cluster` resolves to `tales`, whatever any declaration selects |
| VariableResolver.NamespaceOverride | extract.py:49-56 | `$namespace` resolves to the first value selected by its last non-datasource declaration (the name `namespace` when nothing is selected), with `$__all` read as `cilium` |
| VariableResolver.ClusterOverrideExample | extract.py:53-54 | a `cluster` variable with value `prod-east` resolves to `tales` |
| VariableResolver.NamespaceOverrideExample | extract.py:55-56 | `namespace` with `$__all` first resolves to `cilium`; with `kube-system` it keeps `kube-system` |
| PanelWalker.Substitute | extract.py:35-36 | the replace loop over the map yields the expression after one replace-all per entry, in map order |
| PanelWalker.SubstituteNoToken | extract.py:35-36 | an expression that contains no key is unchanged |
| PanelWalker.BuiltinSubstitutionOrder | extract.py:35-36 | with only the built-ins, substitution is `$__rate_interval`, then `$__interval`, then `$__interval_ms` |
| PanelWalker.RateIntervalExample | extract.py:35-36 | `rate(x[$__rate_interval])` becomes `rate(x[1m])` |
| PanelWalker.IntervalMsExample | extract.py:35-36 | `x[$__interval_ms]` becomes `x[1m_ms]`, because `$__interval` is replaced first |
| PanelWalker.ExprList.constructor | extract.py:44 | the accumulator starts empty |
| PanelWalker.ExprList.Append | extract.py:37 | appending adds the expression at the end and leaves earlier entries unchanged |
| PanelWalker.AddExprsForPanel | extract.py:26-39 | the walk only appends to the accumulator, and what it appends is the panel's own contributions followed by its children's, recursively |
| PanelWalker.ExprsForDashboard | extract.py:41-60 | the dashboard's expressions are the walk of its top-level panels, in order, under the resolved map |
| PanelWalker.TargetExprsSubstituteEach | extract.py:32-37 | exactly one substituted string per target whose `expr` is present and non-empty, in declaration order |
| PanelWalker.TargetExprsAppend | extract.py:32-37 | the contributions of two runs of targets are the contributions of each, concatenated |
| PanelWalker.WalkIsPreOrder | extract.py:26-39 | a panel's walk equals the contributions of all targets in its tree listed in pre-order |
| PanelWalker.WalkIsPreOrderOf | extract.py:38-39 | the same holds for a sequence of sibling panels |
| PanelWalker.DashboardExprsComplete | extract.py:58-60 | the result has one entry per contributing target at any depth, in pre-order, each substituted with the resolved map |
| PanelWalker.EmptyDashboard | extract.py:58-60 | a dashboard without panels yields no expressions |
| PanelWalker.NestedExample | extract.py:26-39 | three nested panels give `up`, `a`, `b`; the empty and missing expressions are skipped |
| NameSanitizer.SkipRun | extract.py:144 | the dropped prefix is the maximal leading run outside `[A-Za-z0-9]`: every dropped character is outside the class, and what remains is empty or starts with a letter or digit |
| NameSanitizer.Sanitize | extract.py:143-144 | the result is empty exactly when the name is empty; it starts with the name's first character or with `-` |
| NameSanitizer.SanitizeIsSanitized | extract.py:143-144 | the output contains only `[A-Za-z0-9-]` and never two `-` in a row |
| NameSanitizer.SanitizeKeepsAlnums | extract.py:143-144 | the letters and digits of the name survive, in order |
| NameSanitizer.SanitizedIsFixed | extract.py:143-144 | a name already in sanitized form is unchanged |
| NameSanitizer.SanitizeFixedIff | extract.py:143-144 | a name is unchanged exactly when it is in sanitized form |
| NameSanitizer.SanitizeIdempotent | extract.py:143-144 | sanitising twice is sanitising once |
| NameSanitizer.SanitizeIsCollapse | extract.py:143-144 | collapsing runs agrees with the per-character reading: a letter or digit is copied, and a separator emits `-` only when it follows a letter, a digit or the start |
| NameSanitizer.TeamOpsExample | extract.py:143-144 | `Team / Ops!!` becomes `Team-Ops-`, and stays so when sanitized again |
| NameSanitizer.SingleSeparator | extract.py:143-144 | any single separator between `a` and `b` becomes `-` |
| NameSanitizer.CollisionExample | extract.py:143-144 | the distinct names `a b` and `a_b` sanitize to the same string |
| RuleSetBuilder.DigitChar | extract.py:161 | a digit value maps to the decimal digit character of that value |
| RuleSetBuilder.DecimalString | extract.py:161 | `str(n)` is non-empty, all decimal digits, with no leading zero |
| RuleSetBuilder.ParseDecimalString | extract.py:161 | reading the decimal digits back gives the number |
| RuleSetBuilder.DecimalStringInjective | extract.py:161 | distinct numbers have distinct decimal forms |
| RuleSetBuilder.RecordNameNumbers | extract.py:161 | the record name at position `i` is `expr-` followed by the decimal digits of `i + 1` |
| RuleSetBuilder.RecordNamesDistinct | extract.py:161 | no two positions share a record name |
| RuleSetBuilder.BuildRules | extract.py:160-163 | one rule per expression; rule `i` is named for position `i` and holds `exprs[i]` |
| RuleSetBuilder.BuildRuleDocument | extract.py:154-167 | the metadata name and the single group's name are the raw title, and the group's rules are the numbered expressions |
| RuleSetBuilder.DocumentRules | extract.py:154-167 | N expressions give N rules with pairwise distinct record names, each holding its expression unchanged |
| RuleSetBuilder.EmptyDocument | extract.py:154-167 | no expressions give one group with an empty rule list |
| RuleSetBuilder.NumberingExample | extract.py:160-163 | `up`, `rate(x[1m])` are recorded as `expr-1`, `expr-2` |
| Extraction.EndToEndExample | extract.py:154-167 | a one-panel dashboard using `$__rate_interval` yields `rate(x[1m])`, and the document records it as `expr-1` under the title |
| Extraction.EmptyInput | extract.py:154-167 | a dashboard without panels gives a document whose rule list is empty |

## Left out

- Argument parsing and logging (`argparse`, `logging`) are left out because they only configure and report.
- The HTTP session, pagination and the folder and dashboard fetch loop are left out, along with its error handling; they are network I/O. The model takes the dashboard JSON as a `Dashboard` value.
- Directory creation, the output path built from the sanitized names, and `yaml.safe_dump` are left out. The rule document is a datatype, not YAML text.
- The `dashboards_data` nesting keyed by folder and dashboard title is left out. It groups the per-dashboard results, and it also silently drops results when titles repeat: a later folder with the same title resets that folder's entry (extract.py:125), and a later dashboard with the same title in a folder overwrites the earlier one's expressions (extract.py:138).
- VariableResolver.Candidate: a `current.value` that is a plain string, where `vals[0]` would take its first character, is not modelled. The value is always a sequence of strings.
- Malformed dashboards, such as a declaration without `type` or `name`, or a missing `spec` or `templating`, are not modelled; the source raises `KeyError` on them.
- NameSanitizer.Sanitize: the `re` engine is replaced by a direct character-level definition of the substitution `[^A-Za-z0-9]+ → -`. Its letters and digits are ASCII only, as in the pattern.
- Python strings are sequences of Unicode code points; the model uses Dafny `char` sequences.
