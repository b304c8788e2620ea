/** The checker's diagnostics: what is collected, how the `EXIT_AND_EMIT`
    variable selects between emitting and aborting, and what `emit` does.
    A rendered snippet is reduced to its title and the annotated range. */
module Diagnostics {
  import opened Outcome
  import Text

  // ---------------------------------------------------------------------
  // Spans.

  const U32Limit: int := 0x1_0000_0000

  newtype U32 = x: int | 0 <= x < 0x1_0000_0000

  /** A byte range of the source map, positions being `u32`. */
  datatype Span = Span(lo: U32, hi: U32)

  datatype Range = Range(start: nat, end: nat)

  /** `u32` subtraction with wrap-around, as in a build without overflow
      checks. */
  function WrappingSub(a: U32, b: U32): (r: nat)
    ensures r < U32Limit
    ensures a >= b ==> r == (a - b) as nat
    ensures a < b ==> r == U32Limit + (a as int) - (b as int)
  {
    ((a as int - b as int) % U32Limit) as nat
  }

  /** `anno_span`: the node's range relative to the start of the body. */
  function AnnoSpan(body: Span, node: Span): (r: Range)
    ensures body.lo <= node.lo <= node.hi ==>
      r.start == (node.lo - body.lo) as nat && r.end == (node.hi - body.lo) as nat && r.end - r.start == (node.hi - node.lo) as nat
    ensures r.start < U32Limit && r.end < U32Limit
  {
    Range(WrappingSub(node.lo, body.lo), WrappingSub(node.hi, body.lo))
  }

  /** A node that starts before the body it is measured against gives a
      range near the top of the `u32` space instead of a negative offset. */
  lemma AnnoSpanWraps()
    ensures AnnoSpan(Span(10, 20), Span(4, 12)) == Range(U32Limit - 6, 2)
  {
  }

  // ---------------------------------------------------------------------
  // Diagnostics.

  datatype DiagnosticKind = MissingDischarge | DuplicatedDischarge

  /** The rendered snippet: its title and the range annotated in the body. */
  datatype Render = Render(title: string, anno: Range)

  datatype Diagnostic = Diagnostic(render: Render, kind: DiagnosticKind)

  /** `EmitDiagnostics::generate`, reduced to the title and the range. */
  function Generate(title: string, body: Span, node: Span): (r: Render)
    ensures r.title == title && r.anno == AnnoSpan(body, node)
  {
    Render(title, AnnoSpan(body, node))
  }

  // ---------------------------------------------------------------------
  // Emit and abort policy.

  datatype ExitAndEmit = AbortAndEmit | AbortAndNoEmit | SilenceAndEmit | SilenceAndNoEmit

  function ModeName(m: ExitAndEmit): string {
    match m
    case AbortAndEmit => "abort_and_emit"
    case AbortAndNoEmit => "abort_and_no_emit"
    case SilenceAndEmit => "silence_and_emit"
    case SilenceAndNoEmit => "silence_and_no_emit"
  }

  predicate IsModeName(s: string) {
    s == "abort_and_emit" || s == "abort_and_no_emit" || s == "silence_and_emit" || s == "silence_and_no_emit"
  }

  datatype ModeError = InvalidValue(value: string)

  /** `ExitAndEmit::new` given the value of `EXIT_AND_EMIT`: unset selects
      the default, a value is compared case-insensitively with the four mode
      names, and any other value aborts. */
  function NewExitAndEmit(value: Option<string>): (r: Result<ExitAndEmit, ModeError>)
    ensures value.None? ==> r == Ok(AbortAndEmit)
    ensures value.Some? ==> (r.Ok? <==> IsModeName(Text.AsciiLower(value.value)))
    ensures value.Some? && r.Ok? ==> ModeName(r.value) == Text.AsciiLower(value.value)
    ensures r.Err? ==> r.error == InvalidValue(value.value)
  {
    match value
    case None => Ok(AbortAndEmit)
    case Some(v) =>
      var lower := Text.AsciiLower(v);
      if lower == "abort_and_emit" then Ok(AbortAndEmit)
      else if lower == "abort_and_no_emit" then Ok(AbortAndNoEmit)
      else if lower == "silence_and_emit" then Ok(SilenceAndEmit)
      else if lower == "silence_and_no_emit" then Ok(SilenceAndNoEmit)
      else Err(InvalidValue(v))
  }

  /** Every mode is selected by its own name. */
  lemma NewExitAndEmitInvertsName(m: ExitAndEmit)
    ensures NewExitAndEmit(Some(ModeName(m))) == Ok(m)
  {
    var s := ModeName(m);
    assert forall i :: 0 <= i < |s| ==> !('A' <= s[i] <= 'Z');
    assert Text.AsciiLower(s) == s;
  }

  function ShouldAbort(m: ExitAndEmit): bool {
    m == AbortAndEmit || m == AbortAndNoEmit
  }

  function ShouldEmit(m: ExitAndEmit): bool {
    m == AbortAndEmit || m == SilenceAndEmit
  }

  /** The mode with the given pair of flags. */
  function ModeOf(abort: bool, emit: bool): ExitAndEmit {
    if abort then (if emit then AbortAndEmit else AbortAndNoEmit)
    else (if emit then SilenceAndEmit else SilenceAndNoEmit)
  }

  /** The four modes are exactly the pairs of the two flags. */
  lemma ModesAreFlagPairs(abort: bool, emit: bool, m: ExitAndEmit)
    ensures ShouldAbort(ModeOf(abort, emit)) == abort && ShouldEmit(ModeOf(abort, emit)) == emit
    ensures ModeOf(ShouldAbort(m), ShouldEmit(m)) == m
  {
  }

  // ---------------------------------------------------------------------
  // Collecting and emitting.

  datatype EmitDiagnostics = EmitDiagnostics(diagnostics: seq<Diagnostic>, mode: ExitAndEmit)

  function PushMissingDischarge(ed: EmitDiagnostics, title: string, body: Span, node: Span): (r: EmitDiagnostics)
    ensures r.mode == ed.mode
    ensures |r.diagnostics| == |ed.diagnostics| + 1 && r.diagnostics[..|ed.diagnostics|] == ed.diagnostics
    ensures r.diagnostics[|ed.diagnostics|] == Diagnostic(Render(title, AnnoSpan(body, node)), MissingDischarge)
  {
    ed.(diagnostics := ed.diagnostics + [Diagnostic(Generate(title, body, node), MissingDischarge)])
  }

  function PushDuplicateDischarge(ed: EmitDiagnostics, title: string, body: Span, node: Span): (r: EmitDiagnostics)
    ensures r.mode == ed.mode
    ensures |r.diagnostics| == |ed.diagnostics| + 1 && r.diagnostics[..|ed.diagnostics|] == ed.diagnostics
    ensures r.diagnostics[|ed.diagnostics|] == Diagnostic(Render(title, AnnoSpan(body, node)), DuplicatedDischarge)
  {
    ed.(diagnostics := ed.diagnostics + [Diagnostic(Generate(title, body, node), DuplicatedDischarge)])
  }

  /** Number of diagnostics of one kind. */
  function CountKind(ds: seq<Diagnostic>, k: DiagnosticKind): (n: nat)
    ensures n <= |ds|
  {
    if ds == [] then 0 else (if ds[0].kind == k then 1 else 0) + CountKind(ds[1..], k)
  }

  /** `total`: the number of diagnostics of each kind that occurs. */
  function Total(ds: seq<Diagnostic>): (r: map<DiagnosticKind, nat>)
    ensures forall k :: k in r <==> CountKind(ds, k) > 0
    ensures forall k :: k in r ==> r[k] == CountKind(ds, k)
  {
    map k | k in {MissingDischarge, DuplicatedDischarge} && CountKind(ds, k) > 0 :: CountKind(ds, k)
  }

  /** Every diagnostic is counted under exactly one kind. */
  lemma {:induction false} CountsCoverAll(ds: seq<Diagnostic>)
    ensures CountKind(ds, MissingDischarge) + CountKind(ds, DuplicatedDischarge) == |ds|
  {
    if ds != [] {
      CountsCoverAll(ds[1..]);
    }
  }

  lemma {:induction false} CountAppendOne(ds: seq<Diagnostic>, d: Diagnostic, k: DiagnosticKind)
    ensures CountKind(ds + [d], k) == CountKind(ds, k) + (if d.kind == k then 1 else 0)
  {
    if ds != [] {
      assert (ds + [d])[1..] == ds[1..] + [d];
      CountAppendOne(ds[1..], d, k);
    } else {
      assert ds + [d] == [d];
    }
  }

  /** Pushing a missing discharge adds one to its kind and leaves the other
      kind's total alone. */
  lemma PushMissingCounts(ed: EmitDiagnostics, title: string, body: Span, node: Span)
    ensures var r := PushMissingDischarge(ed, title, body, node);
      && CountKind(r.diagnostics, MissingDischarge) == CountKind(ed.diagnostics, MissingDischarge) + 1
      && CountKind(r.diagnostics, DuplicatedDischarge) == CountKind(ed.diagnostics, DuplicatedDischarge)
  {
    var d := Diagnostic(Generate(title, body, node), MissingDischarge);
    CountAppendOne(ed.diagnostics, d, MissingDischarge);
    CountAppendOne(ed.diagnostics, d, DuplicatedDischarge);
  }

  /** What `emit` does, in order. */
  datatype Event = Printed(diagnostic: Diagnostic) | Totals(counts: map<DiagnosticKind, nat>) | Abort

  function PrintAll(ds: seq<Diagnostic>): (r: seq<Event>)
    ensures |r| == |ds| && forall i :: 0 <= i < |ds| ==> r[i] == Printed(ds[i])
  {
    seq(|ds|, i requires 0 <= i < |ds| => Printed(ds[i]))
  }

  /** `emit`: nothing at all without diagnostics; otherwise every
      diagnostic and the totals when emitting, then the abort when
      aborting. */
  function Emit(ed: EmitDiagnostics): (r: seq<Event>)
    ensures ed.diagnostics == [] ==> r == []
    ensures |r| == if ed.diagnostics == [] then 0
                   else (if ShouldEmit(ed.mode) then |ed.diagnostics| + 1 else 0) + (if ShouldAbort(ed.mode) then 1 else 0)
    ensures (exists i :: 0 <= i < |r| && r[i].Printed?) <==> ed.diagnostics != [] && ShouldEmit(ed.mode)
    ensures ed.diagnostics != [] && ShouldEmit(ed.mode) ==>
      forall i :: 0 <= i < |ed.diagnostics| ==> r[i] == Printed(ed.diagnostics[i])
    ensures (exists i :: 0 <= i < |r| && r[i].Totals?) <==> ed.diagnostics != [] && ShouldEmit(ed.mode)
    ensures forall i :: 0 <= i < |r| && r[i].Totals? ==> i == |ed.diagnostics| && r[i].counts == Total(ed.diagnostics)
    ensures Abort in r <==> ed.diagnostics != [] && ShouldAbort(ed.mode)
    ensures forall i :: 0 <= i < |r| - 1 ==> r[i] != Abort
  {
    if ed.diagnostics == [] then []
    else
      var ds := ed.diagnostics;
      var shown := if ShouldEmit(ed.mode) then PrintAll(ds) + [Totals(Total(ds))] else [];
      var r := shown + (if ShouldAbort(ed.mode) then [Abort] else []);
      assert forall i :: 0 <= i < |shown| ==> r[i] == shown[i];
      assert ShouldEmit(ed.mode) ==> r[0].Printed? && r[|ds|] == Totals(Total(ds));
      r
  }

  /** An abort is the last thing `emit` does, and it happens exactly when
      there are diagnostics and the mode aborts. */
  lemma AbortComesLast(ed: EmitDiagnostics)
    ensures Abort in Emit(ed) <==> ed.diagnostics != [] && ShouldAbort(ed.mode)
    ensures forall i :: 0 <= i < |Emit(ed)| - 1 ==> Emit(ed)[i] != Abort
  {
    var r := Emit(ed);
    if ed.diagnostics != [] {
      var shown := if ShouldEmit(ed.mode) then PrintAll(ed.diagnostics) + [Totals(Total(ed.diagnostics))] else [];
      assert forall i :: 0 <= i < |shown| ==> shown[i] != Abort;
      assert r == shown + (if ShouldAbort(ed.mode) then [Abort] else []);
      if !ShouldAbort(ed.mode) {
        assert r == shown;
      }
    }
  }
}
