/** The older diagnostic module the scope walk reports through: a single
    kind of diagnostic, the same `EXIT_AND_EMIT` policy, and per-kind
    totals. The mode type and its two flags are shared with `Diagnostics`,
    whose declarations are the same. */
module DiagnosticLegacy {
  import opened Outcome
  import Text
  import D = Diagnostics

  datatype DiagnosticKind = MissingDischarges

  datatype Diagnostic = Diagnostic(render: D.Render, kind: DiagnosticKind)

  /** `Diagnostic::missing_discharges`. */
  function NewMissingDischarges(render: D.Render): (d: Diagnostic)
    ensures d.render == render && d.kind == MissingDischarges
  {
    Diagnostic(render, MissingDischarges)
  }

  /** `ExitAndEmit::new` of this module. */
  function NewExitAndEmit(value: Option<string>): (r: Result<D.ExitAndEmit, D.ModeError>)
    ensures value.None? ==> r == Ok(D.AbortAndEmit)
    ensures value.Some? ==> (r.Ok? <==> D.IsModeName(Text.AsciiLower(value.value)))
    ensures value.Some? && r.Ok? ==> D.ModeName(r.value) == Text.AsciiLower(value.value)
  {
    match value
    case None => Ok(D.AbortAndEmit)
    case Some(v) =>
      match Text.AsciiLower(v)
      case "abort_and_emit" => Ok(D.AbortAndEmit)
      case "abort_and_no_emit" => Ok(D.AbortAndNoEmit)
      case "silence_and_emit" => Ok(D.SilenceAndEmit)
      case "silence_and_no_emit" => Ok(D.SilenceAndNoEmit)
      case _ => Err(D.InvalidValue(v))
  }

  /** Both revisions read the variable the same way. */
  lemma SameModeAsCurrent(value: Option<string>)
    ensures NewExitAndEmit(value) == D.NewExitAndEmit(value)
  {
  }

  /** `total`: with one kind, the count of that kind is the number of
      diagnostics, and the kind is absent when there are none. */
  function Total(ds: seq<Diagnostic>): (r: map<DiagnosticKind, nat>)
    ensures MissingDischarges in r <==> ds != []
    ensures MissingDischarges in r ==> r[MissingDischarges] == |ds|
  {
    if ds == [] then map[] else map[MissingDischarges := |ds|]
  }
}
