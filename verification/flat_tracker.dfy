/** The diagnostics of the current flat-map checker: a rendered snippet
    and its kind. */
module FlatDiagnostic {
  import D = Diagnostics

  /** `InvaidTag` in the source: a tag the callee does not have. Nothing
      pushes it, the code that would is commented out. */
  datatype DiagnosticKind = InvalidTag | MissingDischarges

  datatype Diagnostic = Diagnostic(render: D.Render, kind: DiagnosticKind)

  /** `Diagnostic::invalid_tag`. */
  function NewInvalidTag(render: D.Render): (d: Diagnostic)
    ensures d.render == render && d.kind == InvalidTag
  {
    Diagnostic(render, InvalidTag)
  }

  /** `Diagnostic::missing_discharges`. */
  function NewMissingDischarges(render: D.Render): (d: Diagnostic)
    ensures d.render == render && d.kind == MissingDischarges
  {
    Diagnostic(render, MissingDischarges)
  }
}

/** The current revision of the flat-map discharge checker: a function's
    tags are the identifiers of its `Memo` properties, plus the tag of every
    other property when `DISCHARGES_ALL_PROPERTIES` asks for it; a tag the
    callee does not have is ignored; reports are collected, not fatal. */
module FlatTracker {
  import O = Outcome
  import SynExpr
  import Text
  import P = DemoProperty
  import NA = DemoNamedArgs
  import T = TagState
  import D = Diagnostics
  import F = FlatState
  import G = FlatDiagnostic
  import ConfigEnv
  import DemoTracker

  // ---------------------------------------------------------------------
  // Settings.

  const DischargesAllKey: string := "DISCHARGES_ALL_PROPERTIES"

  /** What `push_properties` depends on beyond the attribute: the
      `DISCHARGES_ALL_PROPERTIES` flag and the name a non-`Memo` property is
      recorded under, which the parser crate computes. */
  datatype Settings = Settings(dischargesAll: bool, kindProperty: P.Property -> string)

  /** The flag is on when the variable is set to anything but `0`. */
  function DischargesAll(env: ConfigEnv.Env): (r: bool)
    ensures r <==> DischargesAllKey in env.vars && env.vars[DischargesAllKey] != "0"
  {
    match ConfigEnv.Lookup(env, DischargesAllKey)
    case Some(v) => v != "0"
    case None => false
  }

  // ---------------------------------------------------------------------
  // The tags of a function.

  /** `push_properties`: the identifier of a `Memo` property; for any other
      kind, its recorded name when the flag is on and nothing otherwise. */
  function PushProperty(attr: F.ToolAttr, s: Settings): (r: O.Result<O.Option<string>, F.Failure>)
    ensures NA.ParseInnerAttr(attr).Err? ==> r == O.Err(F.ParsePanic(NA.ParseInnerAttr(attr).error))
    ensures NA.ParseInnerAttr(attr) == O.Ok(O.None) ==> r == O.Ok(O.None)
    ensures NA.ParseInnerAttr(attr).Ok? && NA.ParseInnerAttr(attr).value.Some? ==>
      var p := NA.ParseInnerAttr(attr).value.value;
      && (p.kind != P.Memo ==> r == O.Ok(if s.dischargesAll then O.Some(s.kindProperty(p)) else O.None))
      && (p.kind == P.Memo ==> (r.Ok? <==> F.MemoName(p).Ok?) && (r.Ok? ==> r.value == O.Some(F.MemoName(p).value)))
  {
    match NA.ParseInnerAttr(attr)
    case Err(e) => O.Err(F.ParsePanic(e))
    case Ok(None) => O.Ok(O.None)
    case Ok(Some(p)) =>
      if p.kind == P.Memo then
        var name :- F.MemoName(p);
        O.Ok(O.Some(name))
      else if s.dischargesAll then O.Ok(O.Some(s.kindProperty(p)))
      else O.Ok(O.None)
  }

  /** The discharge attribute generated for a `Memo` property whose first
      argument is an identifier records that identifier, flag or not. */
  lemma MemoAttrRecorded(p: P.Property, name: string, s: Settings)
    requires p.kind == P.Memo && p.expr != [] && p.expr[0] == SynExpr.Path([name])
    ensures PushProperty([P.DischargeAttr(p)], s) == O.Ok(O.Some(name))
  {
    NA.DischargeAttrRoundTrip(p);
  }

  /** The discharge attribute of any other kind records the property's name
      exactly when the flag is on. */
  lemma OtherKindNeedsFlag(p: P.Property, s: Settings)
    requires p.kind != P.Memo
    ensures PushProperty([P.DischargeAttr(p)], s) == O.Ok(if s.dischargesAll then O.Some(s.kindProperty(p)) else O.None)
  {
    NA.DischargeAttrRoundTrip(p);
  }

  /** With the flag off, an attribute records what it records in the
      prototype. */
  lemma SameAsDemoWithoutFlag(attr: F.ToolAttr, s: Settings)
    requires !s.dischargesAll
    ensures PushProperty(attr, s) == DemoTracker.PushProperty(attr)
  {
  }

  function Push(s: Settings): F.ToolAttr -> O.Result<O.Option<string>, F.Failure> {
    attr => PushProperty(attr, s)
  }

  /** `Property::new_with_hir_id`: the tags a node's tool attributes name. */
  function NodeTags(node: F.Node, s: Settings): O.Result<seq<string>, F.Failure> {
    F.NamesOf(node.toolAttrs, Push(s))
  }

  /** `ToolAttrs::new`: the tags of every function with tool attributes. A
      function whose attributes record no tag still gets an entry. */
  function NewToolAttrs(data: seq<F.Data>, s: Settings): (r: O.Result<map<T.PrimaryKey, seq<string>>, F.Failure>)
    ensures r.Ok? ==> forall k :: k in r.value <==> exists i :: 0 <= i < |data| && data[i].hash == k && F.Tagged(data[i])
    ensures r.Ok? <==> forall i :: 0 <= i < |data| && F.Tagged(data[i]) ==> F.NamesOf(data[i].toolAttrs, Push(s)).Ok?
  {
    F.Collect(data, toolAttrs => F.NamesOf(toolAttrs, Push(s)))
  }

  // ---------------------------------------------------------------------
  // Discharging.

  /** The tags of one node, in order: a tag the callee does not have is
      skipped, one already discharged fails the `assert!`, and any other is
      set. */
  function DischargeAll(m: seq<T.Entry>, tags: seq<string>): (r: O.Result<seq<T.Entry>, F.Failure>)
    requires T.UniqueKeys(m)
    ensures r.Ok? <==> F.FreshKnown(m, tags)
    ensures r.Ok? ==> F.Marked(m, tags, r.value) && T.UniqueKeys(r.value)
    ensures r.Err? ==> r.error.AlreadyDischarged?
    decreases |tags|
  {
    if tags == [] then O.Ok(m)
    else
      var t := tags[0];
      var rest := tags[1..];
      assert tags == [t] + rest;
      if t !in T.KeysOf(m) then
        F.FreshKnownSkip(m, t, rest);
        var r := DischargeAll(m, rest);
        if r.Ok? then F.MarkedSkip(m, t, rest, r.value); r else r
      else
        var marked := F.MarkKnown(m, t);
        if marked.Err? then
          assert !F.FreshKnown(m, tags) by {
            var j :| 0 <= j < |m| && m[j].tag == t && m[j].done;
            assert m[j].tag == tags[0];
          }
          O.Err(marked.error)
        else
          var m1 := marked.value;
          F.MarkedKeys(m, [t], m1);
          F.FreshKnownMark(m, t, rest, m1);
          var r := DischargeAll(m1, rest);
          if r.Ok? then F.MarkedCons(m, t, rest, m1, r.value); r else r
  }

  /** Tags the callee does not have change nothing. */
  lemma UnknownTagsIgnored(m: seq<T.Entry>, tags: seq<string>)
    requires T.UniqueKeys(m)
    requires forall i :: 0 <= i < |tags| ==> tags[i] !in T.KeysOf(m)
    ensures DischargeAll(m, tags) == O.Ok(m)
  {
    forall i, j | 0 <= i < |tags| && 0 <= j < |m| ensures m[j].tag != tags[i] {
      assert T.KeysOf(m)[j] == m[j].tag;
    }
    var r := DischargeAll(m, tags).value;
    assert forall j :: 0 <= j < |m| ==> m[j].tag !in tags;
    assert r == m;
  }

  /** When the callee has every tag, both revisions discharge alike. */
  lemma SameAsDemoWhenKnown(m: seq<T.Entry>, tags: seq<string>)
    requires T.UniqueKeys(m)
    requires forall i :: 0 <= i < |tags| ==> tags[i] in T.KeysOf(m)
    ensures DischargeAll(m, tags).Ok? <==> DemoTracker.DischargeAll(m, tags).Ok?
    ensures DischargeAll(m, tags).Ok? ==> DischargeAll(m, tags) == DemoTracker.DischargeAll(m, tags)
  {
    var a := DischargeAll(m, tags);
    var b := DemoTracker.DischargeAll(m, tags);
    if a.Ok? {
      F.MarkedUnique(m, tags, a.value, b.value);
    }
  }

  // ---------------------------------------------------------------------
  // The check.

  /** The diagnostic for `pending` names at `node`. */
  function Missing(pending: seq<string>, body: D.Span, node: F.Node): (d: G.Diagnostic)
    requires pending != []
    ensures d.kind == G.MissingDischarges
    ensures d.render.title == F.Title(pending) && d.render.anno == D.AnnoSpan(body, node.span)
  {
    G.NewMissingDischarges(D.Generate(F.Title(pending), body, node.span))
  }

  /** `check_tag_state`: one diagnostic at the node, listing the pending
      tags, when any tag is pending. */
  function CheckTagState(m: seq<T.Entry>, node: F.Node, body: D.Span, diags: seq<G.Diagnostic>): (r: seq<G.Diagnostic>)
    ensures |diags| <= |r| <= |diags| + 1 && r[..|diags|] == diags
    ensures |r| == |diags| <==> forall i :: 0 <= i < |m| ==> m[i].done
    ensures |r| > |diags| ==> T.Pending(m) != [] && r[|diags|] == Missing(T.Pending(m), body, node)
  {
    var pending := T.Pending(m);
    if pending == [] then diags else diags + [Missing(pending, body, node)]
  }

  /** The `check` closure: the node's tags are discharged and, when there
      were any, the state is reported on; it answers whether the node had no
      tags. */
  function Check(m: seq<T.Entry>, node: F.Node, body: D.Span, diags: seq<G.Diagnostic>, s: Settings)
    : (r: O.Result<(seq<T.Entry>, seq<G.Diagnostic>, bool), F.Failure>)
    requires T.UniqueKeys(m)
    ensures NodeTags(node, s) == O.Ok([]) ==> r == O.Ok((m, diags, true))
    ensures r.Ok? ==> T.UniqueKeys(r.value.0) && T.KeysOf(r.value.0) == T.KeysOf(m)
    ensures r.Ok? ==> (r.value.2 <==> NodeTags(node, s) == O.Ok([]))
    ensures r.Ok? ==> |diags| <= |r.value.1| <= |diags| + 1 && r.value.1[..|diags|] == diags
  {
    var tags :- NodeTags(node, s);
    var m1 :- DischargeAll(m, tags);
    F.MarkedKeys(m, tags, m1);
    if tags == [] then
      assert m1 == m;
      O.Ok((m1, diags, true))
    else
      O.Ok((m1, CheckTagState(m1, node, body, diags), false))
  }

  /** The loop over the enclosing nodes: stop after the first node with
      tags, or after the function item itself. */
  function Walk(m: seq<T.Entry>, parents: seq<F.Node>, fnId: nat, body: D.Span, diags: seq<G.Diagnostic>, s: Settings)
    : (r: O.Result<(seq<T.Entry>, seq<G.Diagnostic>), F.Failure>)
    requires T.UniqueKeys(m)
    ensures r.Ok? ==> T.UniqueKeys(r.value.0) && T.KeysOf(r.value.0) == T.KeysOf(m)
    ensures r.Ok? ==> |diags| <= |r.value.1| <= |diags| + 1 && r.value.1[..|diags|] == diags
    decreases |parents|
  {
    if parents == [] then O.Ok((m, diags))
    else
      var c :- Check(m, parents[0], body, diags, s);
      if !c.2 || parents[0].id == fnId then O.Ok((c.0, c.1))
      else
        var r := Walk(c.0, parents[1..], fnId, body, c.1, s);
        assert c.1 == diags ==> (r.Ok? ==> r.value.1[..|diags|] == diags);
        r
  }

  /** `Call::check_tool_attrs`: nothing for a callee without tool
      attributes; otherwise the call node, whose answer is dropped, the walk,
      and a last check at the call node. A call that leaves a tag pending is
      always reported at the call node. */
  function CheckToolAttrs(call: F.CallSite, table: map<T.PrimaryKey, seq<string>>, diags: seq<G.Diagnostic>, s: Settings)
    : (r: O.Result<(O.Option<seq<T.Entry>>, seq<G.Diagnostic>), F.Failure>)
    ensures call.callee !in table ==> r == O.Ok((O.None, diags))
    ensures call.callee in table && r.Ok? ==> r.value.0.Some? && T.KeysOf(r.value.0.value) == T.Dedup([], table[call.callee])
    ensures r.Ok? ==> |diags| <= |r.value.1| <= |diags| + 3 && r.value.1[..|diags|] == diags
    ensures r.Ok? && r.value.0.Some? && T.Pending(r.value.0.value) != [] ==>
      |r.value.1| > |diags| && r.value.1[|r.value.1| - 1] == Missing(T.Pending(r.value.0.value), call.body, call.node)
  {
    match F.GetTagsViaKey(table, call.callee)
    case None => O.Ok((O.None, diags))
    case Some(m) =>
      var c :- Check(m, call.node, call.body, diags, s);
      var w :- Walk(c.0, call.parents, call.fnId, call.body, c.1, s);
      var d := CheckTagState(w.0, call.node, call.body, w.1);
      assert d[..|diags|] == diags by {
        assert d[..|diags|] == d[..|w.1|][..|diags|];
        assert w.1[..|diags|] == w.1[..|c.1|][..|diags|];
      }
      O.Ok((O.Some(w.0), d))
  }

  /** Every call of the crate in turn; a panic ends the compilation,
      reports accumulate. */
  function CheckCalls(calls: seq<F.CallSite>, table: map<T.PrimaryKey, seq<string>>, diags: seq<G.Diagnostic>, s: Settings)
    : (r: O.Result<seq<G.Diagnostic>, F.Failure>)
    ensures r.Ok? ==> |r.value| >= |diags| && r.value[..|diags|] == diags
    ensures r.Ok? ==> |r.value| <= |diags| + 3 * |calls|
    decreases |calls|
  {
    if calls == [] then O.Ok(diags)
    else
      var c :- CheckToolAttrs(calls[0], table, diags, s);
      var r := CheckCalls(calls[1..], table, c.1, s);
      if r.Ok? then
        assert r.value[..|diags|] == r.value[..|c.1|][..|diags|];
        r
      else r
  }

  // ---------------------------------------------------------------------
  // Properties of the check.

  /** Enclosing nodes without tags leave the state and the diagnostics as
      they are. */
  lemma {:induction false} WalkUntagged(m: seq<T.Entry>, parents: seq<F.Node>, fnId: nat, body: D.Span, diags: seq<G.Diagnostic>, s: Settings)
    requires T.UniqueKeys(m)
    requires forall i :: 0 <= i < |parents| ==> NodeTags(parents[i], s) == O.Ok([])
    ensures Walk(m, parents, fnId, body, diags, s) == O.Ok((m, diags))
    decreases |parents|
  {
    if parents != [] {
      assert NodeTags(parents[0], s) == O.Ok([]);
      assert forall i :: 1 <= i < |parents| ==> parents[i] == parents[1..][i - 1];
      WalkUntagged(m, parents[1..], fnId, body, diags, s);
    }
  }

  /** A call of a function with tags, in a scope where no node names any,
      gets one diagnostic at the call listing every tag of the callee in
      first-occurrence order. */
  lemma UntaggedScopeReportsAll(call: F.CallSite, table: map<T.PrimaryKey, seq<string>>, diags: seq<G.Diagnostic>, s: Settings)
    requires call.callee in table && table[call.callee] != []
    requires NodeTags(call.node, s) == O.Ok([])
    requires forall i :: 0 <= i < |call.parents| ==> NodeTags(call.parents[i], s) == O.Ok([])
    ensures var names := T.Dedup([], table[call.callee]);
      && names != []
      && CheckToolAttrs(call, table, diags, s).Ok?
      && CheckToolAttrs(call, table, diags, s).value.1 == diags + [Missing(names, call.body, call.node)]
  {
    var m := F.GetTagsViaKey(table, call.callee).value;
    WalkUntagged(m, call.parents, call.fnId, call.body, diags, s);
    F.ResetPending(table[call.callee]);
    T.DedupFacts([], table[call.callee]);
    assert table[call.callee][0] in T.Dedup([], table[call.callee]);
  }

  /** A call node naming each tag of its callee once, in a scope where no
      enclosing node names any, passes without a diagnostic; names the
      callee does not have are ignored. */
  lemma CompleteDischargeSilent(call: F.CallSite, table: map<T.PrimaryKey, seq<string>>, diags: seq<G.Diagnostic>, s: Settings, tags: seq<string>)
    requires call.callee in table && NodeTags(call.node, s) == O.Ok(tags)
    requires Text.Distinct(tags)
    requires forall n :: n in table[call.callee] ==> n in tags
    requires forall i :: 0 <= i < |call.parents| ==> NodeTags(call.parents[i], s) == O.Ok([])
    ensures CheckToolAttrs(call, table, diags, s).Ok?
    ensures CheckToolAttrs(call, table, diags, s).value.1 == diags
  {
    var m := F.GetTagsViaKey(table, call.callee).value;
    T.DedupFacts([], table[call.callee]);
    F.DistinctPendingFresh(m, tags);
    var m1 := DischargeAll(m, tags).value;
    assert forall j :: 0 <= j < |m1| ==> m1[j].done by {
      forall j | 0 <= j < |m1| ensures m1[j].done {
        assert T.KeysOf(m)[j] == m[j].tag;
      }
    }
    WalkUntagged(m1, call.parents, call.fnId, call.body, CheckTagState(m1, call.node, call.body, diags), s);
  }

  /** The state after marking fresh names, some of the callee's names
      missing: a tag is left pending. */
  lemma MarkedLeavesPending(m: seq<T.Entry>, tags: seq<string>, after: seq<T.Entry>, n: string)
    requires F.Marked(m, tags, after) && T.AllPending(m)
    requires n in T.KeysOf(m) && n !in tags
    ensures T.Pending(after) != []
  {
    var j :| 0 <= j < |m| && T.KeysOf(m)[j] == n;
    assert !after[j].done;
  }

  /** As written, an enclosing node that discharges only some of the tags
      gets a diagnostic, and the last check at the call node repeats it: two
      diagnostics with the same title for one call. */
  lemma DoubleReport(call: F.CallSite, table: map<T.PrimaryKey, seq<string>>, diags: seq<G.Diagnostic>, s: Settings, tags: seq<string>, n: string)
    requires call.callee in table && n in table[call.callee] && n !in tags
    requires NodeTags(call.node, s) == O.Ok([])
    requires call.parents != [] && NodeTags(call.parents[0], s) == O.Ok(tags) && tags != [] && Text.Distinct(tags)
    ensures var r := CheckToolAttrs(call, table, diags, s);
      && r.Ok? && r.value.0.Some?
      && var pending := T.Pending(r.value.0.value);
      && pending != []
      && r.value.1 == diags + [Missing(pending, call.body, call.parents[0]), Missing(pending, call.body, call.node)]
  {
    var m := F.Reset(table[call.callee]);
    T.DedupFacts([], table[call.callee]);
    F.DistinctPendingFresh(m, tags);
    var m1 := DischargeAll(m, tags).value;
    MarkedLeavesPending(m, tags, m1, n);
    var pending := T.Pending(m1);
    var d1 := diags + [Missing(pending, call.body, call.parents[0])];
    WalkStopsAtTagged(m, call.parents, call.fnId, call.body, diags, s, tags);
    assert Walk(m, call.parents, call.fnId, call.body, diags, s) == O.Ok((m1, d1));
    UntaggedCallUnfold(call, table, diags, s);
    assert CheckTagState(m1, call.node, call.body, d1) == d1 + [Missing(pending, call.body, call.node)];
  }

  /** With an untagged call node, the check is the walk from the fresh
      state followed by the last check. */
  lemma UntaggedCallUnfold(call: F.CallSite, table: map<T.PrimaryKey, seq<string>>, diags: seq<G.Diagnostic>, s: Settings)
    requires call.callee in table && NodeTags(call.node, s) == O.Ok([])
    ensures var w := Walk(F.Reset(table[call.callee]), call.parents, call.fnId, call.body, diags, s);
      CheckToolAttrs(call, table, diags, s) ==
        if w.Err? then O.Err(w.error) else O.Ok((O.Some(w.value.0), CheckTagState(w.value.0, call.node, call.body, w.value.1)))
  {
  }

  /** An enclosing node with tags ends the walk after discharging them and
      reporting on the state. */
  lemma WalkStopsAtTagged(m: seq<T.Entry>, parents: seq<F.Node>, fnId: nat, body: D.Span, diags: seq<G.Diagnostic>, s: Settings, tags: seq<string>)
    requires T.UniqueKeys(m)
    requires parents != [] && NodeTags(parents[0], s) == O.Ok(tags) && tags != [] && DischargeAll(m, tags).Ok?
    ensures var m1 := DischargeAll(m, tags).value;
      Walk(m, parents, fnId, body, diags, s) == O.Ok((m1, CheckTagState(m1, parents[0], body, diags)))
  {
  }
  /** As written, the answer for the call node is dropped and the walk goes
      on: a call node and its enclosing node naming the same tag of the
      callee end in the failed `assert!`, though the call node discharged
      everything. */
  lemma TaggedCallWalksOn(call: F.CallSite, table: map<T.PrimaryKey, seq<string>>, diags: seq<G.Diagnostic>, s: Settings, tag: string)
    requires call.callee in table && table[call.callee] == [tag]
    requires NodeTags(call.node, s) == O.Ok([tag])
    requires call.parents != [] && NodeTags(call.parents[0], s) == O.Ok([tag])
    ensures CheckToolAttrs(call, table, diags, s) == O.Err(F.AlreadyDischarged(tag))
  {
    var m := F.GetTagsViaKey(table, call.callee).value;
    T.DedupFacts([], table[call.callee]);
    assert T.KeysOf(m) == [tag];
    var m1 := DischargeAll(m, [tag]).value;
    assert m1[0].done;
    var w := Walk(m1, call.parents, call.fnId, call.body, CheckTagState(m1, call.node, call.body, diags), s);
    assert !F.FreshKnown(m1, [tag]) by {
      assert m1[0].tag == [tag][0];
    }
  }

  // ---------------------------------------------------------------------
  // The check as the comments describe it.

  /** The tags of the first node with tags, stopping after the function
      item; none when no node has any. */
  function FirstTags(nodes: seq<F.Node>, fnId: nat, s: Settings): (r: O.Result<seq<string>, F.Failure>)
    ensures r.Ok? && r.value != [] ==> exists i :: 0 <= i < |nodes| && NodeTags(nodes[i], s) == r
    ensures (forall i :: 0 <= i < |nodes| ==> NodeTags(nodes[i], s) == O.Ok([])) ==> r == O.Ok([])
    decreases |nodes|
  {
    if nodes == [] then O.Ok([])
    else
      var tags :- NodeTags(nodes[0], s);
      assert forall i :: 1 <= i < |nodes| ==> nodes[i] == nodes[1..][i - 1];
      if tags != [] || nodes[0].id == fnId then O.Ok(tags)
      else FirstTags(nodes[1..], fnId, s)
  }

  /** `Call::check_tool_attrs` with the call node's answer honoured and one
      check at the end: the tags of the first node with tags among the call
      node and its enclosing nodes are discharged, and at most one
      diagnostic, at the call, lists what is left. */
  function CheckToolAttrsOnce(call: F.CallSite, table: map<T.PrimaryKey, seq<string>>, diags: seq<G.Diagnostic>, s: Settings)
    : (r: O.Result<(O.Option<seq<T.Entry>>, seq<G.Diagnostic>), F.Failure>)
    ensures call.callee !in table ==> r == O.Ok((O.None, diags))
    ensures call.callee in table && r.Ok? ==> r.value.0.Some? && T.KeysOf(r.value.0.value) == T.Dedup([], table[call.callee])
    ensures r.Ok? ==> |diags| <= |r.value.1| <= |diags| + 1 && r.value.1[..|diags|] == diags
    ensures r.Ok? && r.value.0.Some? ==>
      (|r.value.1| == |diags| <==> T.Pending(r.value.0.value) == []) &&
      (T.Pending(r.value.0.value) != [] ==> r.value.1[|diags|] == Missing(T.Pending(r.value.0.value), call.body, call.node))
  {
    match F.GetTagsViaKey(table, call.callee)
    case None => O.Ok((O.None, diags))
    case Some(m) =>
      var callTags :- NodeTags(call.node, s);
      var tags :- if callTags != [] then O.Ok(callTags) else FirstTags(call.parents, call.fnId, s);
      var m1 :- DischargeAll(m, tags);
      F.MarkedKeys(m, tags, m1);
      O.Ok((O.Some(m1), CheckTagState(m1, call.node, call.body, diags)))
  }

  /** A call node that names each tag of its callee at most once passes,
      whatever the enclosing nodes say, and without a diagnostic when it
      names them all. */
  lemma OnceStopsAtTaggedCall(call: F.CallSite, table: map<T.PrimaryKey, seq<string>>, diags: seq<G.Diagnostic>, s: Settings, tags: seq<string>)
    requires call.callee in table && NodeTags(call.node, s) == O.Ok(tags) && tags != [] && Text.Distinct(tags)
    ensures CheckToolAttrsOnce(call, table, diags, s).Ok?
    ensures (forall n :: n in table[call.callee] ==> n in tags) ==> CheckToolAttrsOnce(call, table, diags, s).value.1 == diags
  {
    var m := F.Reset(table[call.callee]);
    T.DedupFacts([], table[call.callee]);
    F.DistinctPendingFresh(m, tags);
    var m1 := DischargeAll(m, tags).value;
    assert CheckToolAttrsOnce(call, table, diags, s) == O.Ok((O.Some(m1), CheckTagState(m1, call.node, call.body, diags))) by {
      TaggedCallOnceUnfold(call, table, diags, s, tags);
    }
    if forall n :: n in table[call.callee] ==> n in tags {
      AllNamedDone(m, tags, m1);
    }
  }

  /** With a tagged call node, the corrected check discharges the call
      node's tags and checks once. */
  lemma TaggedCallOnceUnfold(call: F.CallSite, table: map<T.PrimaryKey, seq<string>>, diags: seq<G.Diagnostic>, s: Settings, tags: seq<string>)
    requires call.callee in table && NodeTags(call.node, s) == O.Ok(tags) && tags != []
    ensures var d := DischargeAll(F.Reset(table[call.callee]), tags);
      CheckToolAttrsOnce(call, table, diags, s) ==
        if d.Err? then O.Err(d.error) else O.Ok((O.Some(d.value), CheckTagState(d.value, call.node, call.body, diags)))
  {
  }

  /** Marking every key leaves nothing pending. */
  lemma AllNamedDone(m: seq<T.Entry>, tags: seq<string>, after: seq<T.Entry>)
    requires F.Marked(m, tags, after)
    requires forall j :: 0 <= j < |m| ==> m[j].tag in tags
    ensures forall j :: 0 <= j < |after| ==> after[j].done
  {
  }

  /** The walk as written discharges what the first node with tags names:
      it fails exactly when reading or discharging those tags fails, and
      otherwise ends in the same state. */
  lemma {:induction false} WalkFirstTags(m: seq<T.Entry>, parents: seq<F.Node>, fnId: nat, body: D.Span, diags: seq<G.Diagnostic>, s: Settings)
    requires T.UniqueKeys(m)
    ensures var w := Walk(m, parents, fnId, body, diags, s);
      var f := FirstTags(parents, fnId, s);
      && (w.Ok? <==> f.Ok? && DischargeAll(m, f.value).Ok?)
      && (w.Ok? ==> w.value.0 == DischargeAll(m, f.value).value)
    decreases |parents|
  {
    if parents != [] {
      var tags := NodeTags(parents[0], s);
      if tags.Ok? && tags.value == [] && parents[0].id != fnId {
        WalkFirstTags(m, parents[1..], fnId, body, diags, s);
      }
    }
  }

  /** With an untagged call node, both readings of the check fail alike
      and end in the same state; they differ only in the diagnostics. */
  lemma OnceSameState(call: F.CallSite, table: map<T.PrimaryKey, seq<string>>, diags: seq<G.Diagnostic>, s: Settings)
    requires NodeTags(call.node, s) == O.Ok([])
    ensures CheckToolAttrs(call, table, diags, s).Ok? <==> CheckToolAttrsOnce(call, table, diags, s).Ok?
    ensures CheckToolAttrs(call, table, diags, s).Ok? ==>
      CheckToolAttrs(call, table, diags, s).value.0 == CheckToolAttrsOnce(call, table, diags, s).value.0
  {
    if call.callee in table {
      var m := F.GetTagsViaKey(table, call.callee).value;
      WalkFirstTags(m, call.parents, call.fnId, call.body, diags, s);
    }
  }
}
