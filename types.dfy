/** The parts of a dashboard definition that the extractor reads. */
module DashboardTypes {

  datatype Option<+T> = None | Some(value: T)

  /** A query target; `expr` is None when the target has no `expr` field. */
  datatype Target = Target(expr: Option<string>)

  /** A panel node. A missing `targets` or `panels` field is the empty sequence. */
  datatype Panel = Panel(targets: seq<Target>, panels: seq<Panel>)

  /** A template-variable declaration: its `type`, its `name` and its
      `current.value` list (empty when `current` or `value` is missing). */
  datatype TemplateVar = TemplateVar(kind: string, name: string, current: seq<string>)

  /** `spec.templating.list` and `spec.panels` (empty when missing) of a dashboard. */
  datatype Dashboard = Dashboard(templating: seq<TemplateVar>, panels: seq<Panel>)
}
