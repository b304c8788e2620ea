/** The check of one call to a tagged function: the call node and then its
    enclosing nodes, innermost first, discharge the tags their tool
    attributes name, and the tracker is asked for what is left. The chain of
    enclosing nodes is a list; the compiler's node ids, spans and attribute
    parsing are parameters. */
module ScopeWalk {
  import Text
  import SafetyAttr
  import T = TagState
  import D = Diagnostics
  import L = DiagnosticLegacy

  /** A syntax node: its id, its tool attributes already parsed, and its
      span. */
  datatype Node = Node(id: nat, attrs: seq<seq<SafetyAttr.PropertiesAndReason>>, span: D.Span)

  /** `Property::new_with_hir_id`: the names of every tag of every tool
      attribute, in order. */
  function AttrTags(attrs: seq<seq<SafetyAttr.PropertiesAndReason>>): (r: seq<string>)
    ensures r == [] <==> forall j :: 0 <= j < |attrs| ==> SafetyAttr.TagCount(attrs[j]) == 0
    decreases |attrs|
  {
    if attrs == [] then []
    else
      var init := attrs[..|attrs| - 1];
      NoTagsSnoc(attrs, init);
      T.PushProperties(AttrTags(init), attrs[|attrs| - 1])
  }

  lemma NoTagsSnoc(attrs: seq<seq<SafetyAttr.PropertiesAndReason>>, init: seq<seq<SafetyAttr.PropertiesAndReason>>)
    requires attrs != [] && init == attrs[..|attrs| - 1]
    ensures (forall j :: 0 <= j < |attrs| ==> SafetyAttr.TagCount(attrs[j]) == 0)
      <==> ((forall j :: 0 <= j < |init| ==> SafetyAttr.TagCount(init[j]) == 0)
            && SafetyAttr.TagCount(attrs[|attrs| - 1]) == 0)
  {
    assert forall j :: 0 <= j < |init| ==> attrs[j] == init[j];
  }

  function NodeTags(n: Node): seq<string> {
    AttrTags(n.attrs)
  }

  // ---------------------------------------------------------------------
  // The diagnostic.

  /** Whether the title says "Tag is": the joined report has no comma. */
  predicate Singular(report: seq<string>) {
    ',' !in Text.Join(report, "\n")
  }

  /** The title of a missing-discharge diagnostic: the report's entries one
      per line, after a space when there is one entry and a newline
      otherwise. */
  function Title(report: seq<string>): (t: string)
    requires report != []
    ensures var joined := Text.Join(report, "\n");
      && |t| > |joined| && t[|t| - |joined|..] == joined
      && t[|t| - |joined| - 1] == (if |report| == 1 then ' ' else '\n')
    ensures |t| >= 7 && (t[..7] == "Tag is " <==> Singular(report))
  {
    var joined := Text.Join(report, "\n");
    var newline := if |report| == 1 then " " else "\n";
    var plural := if Text.Count(joined, ',') == 0 then "Tag is" else "Tags are";
    Text.CountZeroIffAbsent(joined, ',');
    var t := plural + " not discharged:" + newline + joined;
    assert t[|t| - |joined|..] == joined;
    assert t[..7] == (plural + " not discharged:")[..7];
    assert ("Tag is" + " not discharged:")[..7] == "Tag is ";
    assert ("Tags are" + " not discharged:")[..7] == "Tags ar";
    t
  }

  /** The diagnostic for `report` at `node`. */
  function Missing(report: seq<string>, body: D.Span, node: Node): (d: L.Diagnostic)
    requires report != []
    ensures d.kind == L.MissingDischarges && d.render.anno == D.AnnoSpan(body, node.span)
  {
    L.NewMissingDischarges(D.Generate(Title(report), body, node.span))
  }

  /** The growth of the diagnostic list across a query: nothing, or one
      diagnostic, and then the tracker has reported. */
  predicate Grew(diags: seq<L.Diagnostic>, after: seq<L.Diagnostic>, st: T.TagState) {
    after == diags || (|after| == |diags| + 1 && after[..|diags|] == diags && st.reported)
  }

  /** `check_tag_state`: the tracker is queried, and a diagnostic at the
      node is pushed when the report is not empty. */
  function CheckTagState(st: T.TagState, node: Node, body: D.Span, diags: seq<L.Diagnostic>)
    : (r: (T.TagState, seq<L.Diagnostic>))
    ensures r.0 == T.Undischarged(st).0
    ensures T.Undischarged(st).1 == [] ==> r.1 == diags
    ensures T.Undischarged(st).1 != [] ==> r.1 == diags + [Missing(T.Undischarged(st).1, body, node)]
    ensures st.reported ==> r.1 == diags
  {
    var (s, report) := T.Undischarged(st);
    if report == [] then (s, diags)
    else (s, diags + [Missing(report, body, node)])
  }

  /** The `check` closure: a node without tags is left alone and reported
      as empty; a node with tags discharges all of them, errors ignored, and
      then queries the tracker. */
  function Check(st: T.TagState, node: Node, body: D.Span, diags: seq<L.Diagnostic>)
    : (r: (T.TagState, seq<L.Diagnostic>, bool))
    requires T.Valid(st)
    ensures T.Valid(r.0)
    ensures r.2 <==> NodeTags(node) == []
    ensures r.2 ==> r.0 == st && r.1 == diags
    ensures !r.2 ==> r.0.reported
    ensures Grew(diags, r.1, r.0) && (st.reported ==> r.1 == diags && r.0.reported == st.reported)
  {
    var tags := NodeTags(node);
    if tags == [] then (st, diags, true)
    else
      var discharged := T.DischargeAll(st, tags);
      T.DischargeAllKeepsFlag(st, tags);
      var (s, d) := CheckTagState(discharged, node, body, diags);
      (s, d, false)
  }

  /** The loop over the enclosing nodes: stop after the first node with
      tags, or after the function item itself. */
  function Walk(st: T.TagState, parents: seq<Node>, fnId: nat, body: D.Span, diags: seq<L.Diagnostic>)
    : (r: (T.TagState, seq<L.Diagnostic>))
    requires T.Valid(st)
    ensures T.Valid(r.0)
    ensures Grew(diags, r.1, r.0) && (st.reported ==> r.1 == diags && r.0.reported)
    decreases |parents|
  {
    if parents == [] then (st, diags)
    else
      var (s, d, empty) := Check(st, parents[0], body, diags);
      if !empty || parents[0].id == fnId then (s, d)
      else Walk(s, parents[1..], fnId, body, d)
  }

  /** One call of a function in the crate. */
  datatype CallSite = CallSite(node: Node, callee: T.PrimaryKey, parents: seq<Node>, fnId: nat, body: D.Span)

  /** `Call::check_tool_attrs`: nothing for a callee without tags;
      otherwise the call node, the walk, and a final query at the call
      node. */
  function CheckToolAttrs(call: CallSite, ta: T.ToolAttrs, diags: seq<L.Diagnostic>)
    : (r: (T.ToolAttrs, seq<L.Diagnostic>))
    ensures call.callee !in ta.props ==> r == (ta, diags)
    ensures r.0.props == ta.props
    ensures call.callee in ta.props ==> r.0.tagged.reported
    ensures |diags| <= |r.1| <= |diags| + 1 && r.1[..|diags|] == diags
    ensures ta.tagged.reported ==> r.1 == diags
  {
    var (ta1, found) := T.GetTagsViaKey(ta, call.callee);
    if !found then (ta, diags)
    else
      var (s1, d1, _) := Check(ta1.tagged, call.node, call.body, diags);
      var (s2, d2) := Walk(s1, call.parents, call.fnId, call.body, d1);
      var (s3, d3) := CheckTagState(s2, call.node, call.body, d2);
      (ta1.(tagged := s3), d3)
  }

  /** Every call of the crate in turn, sharing one table. */
  function CheckCalls(calls: seq<CallSite>, ta: T.ToolAttrs, diags: seq<L.Diagnostic>)
    : (r: (T.ToolAttrs, seq<L.Diagnostic>))
    ensures r.0.props == ta.props
    ensures |r.1| >= |diags| && r.1[..|diags|] == diags
    decreases |calls|
  {
    if calls == [] then (ta, diags)
    else
      var (ta1, d1) := CheckToolAttrs(calls[0], ta, diags);
      var r := CheckCalls(calls[1..], ta1, d1);
      assert r.1[..|diags|] == r.1[..|d1|][..|diags|];
      r
  }

  // ---------------------------------------------------------------------
  // Reporting happens at most once in a crate.

  /** The report flag is never cleared, so however many calls the crate
      makes, at most one missing-discharge diagnostic is pushed, and none
      once the tracker has reported. */
  lemma {:induction false} AtMostOneReport(calls: seq<CallSite>, ta: T.ToolAttrs, diags: seq<L.Diagnostic>)
    ensures |CheckCalls(calls, ta, diags).1| <= |diags| + (if ta.tagged.reported then 0 else 1)
    decreases |calls|
  {
    if calls != [] {
      var (ta1, d1) := CheckToolAttrs(calls[0], ta, diags);
      AtMostOneReport(calls[1..], ta1, d1);
    }
  }

  // ---------------------------------------------------------------------
  // What the walk discharges.

  /** The position at which the walk stops: the first enclosing node with
      tags or the function item, or the end of the chain. */
  function StopAt(parents: seq<Node>, fnId: nat): (k: nat)
    ensures k <= |parents|
    ensures forall i :: 0 <= i < k ==> NodeTags(parents[i]) == [] && parents[i].id != fnId
    ensures k < |parents| ==> NodeTags(parents[k]) != [] || parents[k].id == fnId
  {
    if parents == [] then 0
    else if NodeTags(parents[0]) != [] || parents[0].id == fnId then 0
    else
      var k := StopAt(parents[1..], fnId);
      assert forall i :: 1 <= i < k + 1 ==> parents[i] == parents[1..][i - 1];
      1 + k
  }

  /** The enclosing nodes the walk visits, innermost first. */
  function Visited(parents: seq<Node>, fnId: nat): seq<Node> {
    var k := StopAt(parents, fnId);
    if k < |parents| then parents[..k + 1] else parents
  }

  /** The tag names of a list of nodes, in order. */
  function TagsOf(nodes: seq<Node>): seq<string> {
    if nodes == [] then [] else NodeTags(nodes[0]) + TagsOf(nodes[1..])
  }

  /** A state with its report flag cleared: what discharging depends on. */
  function Forget(st: T.TagState): T.TagState {
    st.(reported := false)
  }

  lemma DischargeForget(st: T.TagState, tag: string)
    requires T.Valid(st)
    ensures T.Discharge(Forget(st), tag).0 == Forget(T.Discharge(st, tag).0)
  {
  }

  lemma {:induction false} DischargeAllForget(st: T.TagState, tags: seq<string>)
    requires T.Valid(st)
    ensures T.DischargeAll(Forget(st), tags) == Forget(T.DischargeAll(st, tags))
    decreases |tags|
  {
    if tags != [] {
      DischargeForget(st, tags[0]);
      DischargeAllForget(T.Discharge(st, tags[0]).0, tags[1..]);
    }
  }

  lemma {:induction false} DischargeAllAppend(st: T.TagState, a: seq<string>, b: seq<string>)
    requires T.Valid(st)
    ensures T.DischargeAll(st, a + b) == T.DischargeAll(T.DischargeAll(st, a), b)
    decreases |a|
  {
    if a == [] {
      assert a + b == b;
    } else {
      assert (a + b)[0] == a[0] && (a + b)[1..] == a[1..] + b;
      DischargeAllAppend(T.Discharge(st, a[0]).0, a[1..], b);
    }
  }

  /** Past an enclosing node without tags that is not the function item,
      the walk visits that node and then the rest of the chain. */
  lemma VisitedStep(parents: seq<Node>, fnId: nat)
    requires parents != [] && NodeTags(parents[0]) == [] && parents[0].id != fnId
    ensures Visited(parents, fnId) == [parents[0]] + Visited(parents[1..], fnId)
  {
    var k := StopAt(parents[1..], fnId);
    assert StopAt(parents, fnId) == 1 + k;
    if k < |parents[1..]| {
      assert parents[..k + 2] == [parents[0]] + parents[1..][..k + 1];
    } else {
      assert parents == [parents[0]] + parents[1..];
    }
  }

  /** The walk discharges exactly the tags of the nodes it visits, in
      order, and leaves the other nodes alone. */
  lemma {:induction false} WalkDischargesVisited(st: T.TagState, parents: seq<Node>, fnId: nat, body: D.Span,
                                                diags: seq<L.Diagnostic>)
    requires T.Valid(st)
    ensures Forget(Walk(st, parents, fnId, body, diags).0) == Forget(T.DischargeAll(st, TagsOf(Visited(parents, fnId))))
    decreases |parents|
  {
    if parents != [] {
      var p := parents[0];
      if NodeTags(p) != [] || p.id == fnId {
        assert StopAt(parents, fnId) == 0;
        assert Visited(parents, fnId) == [p];
        assert TagsOf([p]) == NodeTags(p) + TagsOf([]);
        assert NodeTags(p) + [] == NodeTags(p);
        assert Walk(st, parents, fnId, body, diags).0 == Check(st, p, body, diags).0;
      } else {
        assert Check(st, p, body, diags) == (st, diags, true);
        assert Walk(st, parents, fnId, body, diags) == Walk(st, parents[1..], fnId, body, diags);
        WalkDischargesVisited(st, parents[1..], fnId, body, diags);
        VisitedStep(parents, fnId);
        var rest := Visited(parents[1..], fnId);
        assert TagsOf([p] + rest) == NodeTags(p) + TagsOf(rest) by {
          assert ([p] + rest)[1..] == rest;
        }
        assert NodeTags(p) + TagsOf(rest) == TagsOf(rest);
      }
    }
  }

  /** A checked call leaves its callee's tags discharged exactly by the
      call node's tags and then the visited enclosing nodes' tags; only the
      report flag differs. */
  lemma CheckToolAttrsDischarges(call: CallSite, ta: T.ToolAttrs, diags: seq<L.Diagnostic>)
    requires call.callee in ta.props
    ensures Forget(CheckToolAttrs(call, ta, diags).0.tagged)
      == T.DischargeAll(Forget(T.Refresh(ta.tagged, ta.props[call.callee])),
                        NodeTags(call.node) + TagsOf(Visited(call.parents, call.fnId)))
  {
    var (ta1, _) := T.GetTagsViaKey(ta, call.callee);
    var s0 := ta1.tagged;
    var ct := NodeTags(call.node);
    var vt := TagsOf(Visited(call.parents, call.fnId));
    var (s1, d1, _) := Check(s0, call.node, call.body, diags);
    assert Forget(s1) == Forget(T.DischargeAll(s0, ct));
    var (s2, d2) := Walk(s1, call.parents, call.fnId, call.body, d1);
    WalkDischargesVisited(s1, call.parents, call.fnId, call.body, d1);
    DischargeAllForget(s1, vt);
    DischargeAllForget(s0, ct);
    assert Forget(s1) == T.DischargeAll(Forget(s0), ct);
    DischargeAllAppend(Forget(s0), ct, vt);
    assert Forget(s2) == T.DischargeAll(Forget(s0), ct + vt);
  }

  // ---------------------------------------------------------------------
  // Which query reports.

  /** A walk over enclosing nodes that have no tags changes nothing. */
  lemma {:induction false} WalkUntagged(st: T.TagState, parents: seq<Node>, fnId: nat, body: D.Span, diags: seq<L.Diagnostic>)
    requires T.Valid(st)
    requires forall i :: 0 <= i < |Visited(parents, fnId)| ==> NodeTags(Visited(parents, fnId)[i]) == []
    ensures Walk(st, parents, fnId, body, diags) == (st, diags)
    decreases |parents|
  {
    if parents != [] {
      var p := parents[0];
      assert Visited(parents, fnId)[0] == p;
      assert Check(st, p, body, diags) == (st, diags, true);
      if p.id != fnId {
        VisitedStep(parents, fnId);
        var rest := Visited(parents[1..], fnId);
        assert forall i :: 0 <= i < |rest| ==> rest[i] == Visited(parents, fnId)[i + 1];
        assert Walk(st, parents, fnId, body, diags) == Walk(st, parents[1..], fnId, body, diags);
        WalkUntagged(st, parents[1..], fnId, body, diags);
      }
    }
  }

  /** When neither the call nor any visited enclosing node has tags, the
      final query reports every tag of the callee, at the call. */
  lemma UntaggedScopeReportsAll(call: CallSite, ta: T.ToolAttrs, diags: seq<L.Diagnostic>)
    requires call.callee in ta.props && !ta.tagged.reported
    requires NodeTags(call.node) == []
    requires forall i :: 0 <= i < |Visited(call.parents, call.fnId)| ==> NodeTags(Visited(call.parents, call.fnId)[i]) == []
    ensures var report := T.Report(T.Refresh(ta.tagged, ta.props[call.callee]));
      CheckToolAttrs(call, ta, diags).1 == if report == [] then diags else diags + [Missing(report, call.body, call.node)]
  {
    var (ta1, _) := T.GetTagsViaKey(ta, call.callee);
    WalkUntagged(ta1.tagged, call.parents, call.fnId, call.body, diags);
  }

  /** When the call node itself has tags, its own query is the one that
      reports: tags the enclosing nodes would discharge still appear in the
      diagnostic, which points at the call. */
  lemma TaggedCallDecides(call: CallSite, ta: T.ToolAttrs, diags: seq<L.Diagnostic>)
    requires call.callee in ta.props && !ta.tagged.reported
    requires NodeTags(call.node) != []
    ensures var st := T.DischargeAll(T.Refresh(ta.tagged, ta.props[call.callee]), NodeTags(call.node));
      var report := T.Report(st);
      CheckToolAttrs(call, ta, diags).1 == if report == [] then diags else diags + [Missing(report, call.body, call.node)]
  {
    var (ta1, _) := T.GetTagsViaKey(ta, call.callee);
    T.DischargeAllKeepsFlag(ta1.tagged, NodeTags(call.node));
  }

  // ---------------------------------------------------------------------
  // "Tag is" or "Tags are".

  /** Tag names are identifiers, so none holds a comma. */
  predicate CommaFreeKeys(st: T.TagState) {
    && (forall i :: 0 <= i < |st.vanilla| ==> ',' !in st.vanilla[i].tag)
    && (forall g, i :: 0 <= g < |st.anyGroups| && 0 <= i < |st.anyGroups[g]| ==> ',' !in st.anyGroups[g][i].tag)
  }

  lemma {:induction false} JoinCommaFree(parts: seq<string>, sep: string)
    requires ',' !in sep
    ensures ',' !in Text.Join(parts, sep) <==> forall i :: 0 <= i < |parts| ==> ',' !in parts[i]
    decreases |parts|
  {
    if |parts| >= 2 {
      JoinCommaFree(parts[1..], sep);
      Text.JoinCons(parts, sep);
      assert forall i :: 1 <= i < |parts| ==> parts[i] == parts[1..][i - 1];
    }
  }

  /** Quoted comma-free names joined by a separator with a comma have no
      comma exactly when there is at most one name. */
  lemma {:induction false} QuoteJoinCommaFree(names: seq<string>, sep: string)
    requires forall i :: 0 <= i < |names| ==> ',' !in names[i]
    requires ',' in sep
    ensures ',' !in T.QuoteJoin(names, sep) <==> |names| <= 1
  {
    if |names| == 1 {
      assert T.QuoteJoin(names, sep) == "`" + names[0] + "`";
    } else if |names| >= 2 {
      var r := T.QuoteJoin(names, sep);
      var q := T.Quote(names[0]);
      assert r == q + sep + T.QuoteJoin(names[1..], sep);
      var k :| 0 <= k < |sep| && sep[k] == ',';
      assert r[|q| + k] == ',';
    }
  }

  predicate EntriesCommaFree(es: seq<string>) {
    forall j :: 0 <= j < |es| ==> ',' !in es[j]
  }

  predicate OneNameEach(gs: seq<seq<T.Entry>>) {
    forall g :: 0 <= g < |gs| && !T.AnyDone(gs[g]) ==> |gs[g]| <= 1
  }

  /** The `any` entries have no comma exactly when every undischarged group
      has at most one member. */
  lemma {:induction false} AnyEntriesCommaFree(gs: seq<seq<T.Entry>>)
    requires forall g, i :: 0 <= g < |gs| && 0 <= i < |gs[g]| ==> ',' !in gs[g][i].tag
    ensures EntriesCommaFree(T.AnyEntries(gs)) <==> OneNameEach(gs)
    decreases |gs|
  {
    if gs != [] {
      var tail: seq<seq<T.Entry>> := gs[1..];
      CommaFreeTagsTail(gs);
      AnyEntriesCommaFree(tail);
      var rest := T.AnyEntries(tail);
      var keys := T.KeysOf(gs[0]);
      var head := if T.AnyDone(gs[0]) then [] else [T.QuoteJoin(keys, ", or ")];
      assert T.AnyEntries(gs) == head + rest;
      assert forall i :: 0 <= i < |keys| ==> ',' !in keys[i];
      assert ", or "[0] == ',';
      QuoteJoinCommaFree(keys, ", or ");
      EntriesCommaFreeAppend(head, rest);
      assert EntriesCommaFree(head) <==> T.AnyDone(gs[0]) || |gs[0]| <= 1;
      OneNameEachCons(gs);
    }
  }

  lemma CommaFreeTagsTail(gs: seq<seq<T.Entry>>)
    requires gs != []
    requires forall g, i :: 0 <= g < |gs| && 0 <= i < |gs[g]| ==> ',' !in gs[g][i].tag
    ensures forall g, i :: 0 <= g < |gs[1..]| && 0 <= i < |gs[1..][g]| ==> ',' !in gs[1..][g][i].tag
  {
    assert forall g :: 0 <= g < |gs[1..]| ==> gs[1..][g] == gs[g + 1];
  }

  lemma EntriesCommaFreeAppend(a: seq<string>, b: seq<string>)
    ensures EntriesCommaFree(a + b) <==> EntriesCommaFree(a) && EntriesCommaFree(b)
  {
    assert forall j :: 0 <= j < |a| ==> (a + b)[j] == a[j];
    assert forall j :: 0 <= j < |b| ==> (a + b)[|a| + j] == b[j];
  }

  lemma OneNameEachCons(gs: seq<seq<T.Entry>>)
    requires gs != []
    ensures OneNameEach(gs) <==> (T.AnyDone(gs[0]) || |gs[0]| <= 1) && OneNameEach(gs[1..])
  {
    assert forall g :: 1 <= g < |gs| ==> gs[g] == gs[1..][g - 1];
  }


  /** With comma-free tag names the title says "Tag is" exactly when at
      most one vanilla tag is pending and every undischarged `any` group has
      one member: the count of entries does not matter. */
  lemma SingularIffOneNameEach(st: T.TagState)
    requires CommaFreeKeys(st)
    ensures Singular(T.Report(st)) <==>
      |T.Pending(st.vanilla)| <= 1 && forall g :: 0 <= g < |st.anyGroups| && !T.AnyDone(st.anyGroups[g]) ==> |st.anyGroups[g]| <= 1
  {
    var pending := T.Pending(st.vanilla);
    var head := if pending == [] then [] else [T.QuoteJoin(pending, ", ")];
    var any := T.AnyEntries(st.anyGroups);
    var report := head + any;
    assert T.Report(st) == report;
    JoinCommaFree(report, "\n");
    assert forall i :: 0 <= i < |pending| ==> pending[i] in T.KeysOf(st.vanilla);
    QuoteJoinCommaFree(pending, ", ");
    assert ", "[0] == ',';
    AnyEntriesCommaFree(st.anyGroups);
    assert forall j :: 0 <= j < |any| ==> report[|head| + j] == any[j];
  }

  /** A pending vanilla tag and a one-member `any` group make two entries,
      on separate lines, and the title still says "Tag is". */
  lemma TwoEntriesSayTagIs()
    ensures var st := T.TagState([T.Entry("A", false)], [[T.Entry("X", false)]], false);
      var t := Title(T.Report(st));
      && T.Report(st) == ["`A`", "`X`"]
      && t[..7] == "Tag is "
      && t[|t| - 8..] == "\n`A`\n`X`"
  {
    var st := T.TagState([T.Entry("A", false)], [[T.Entry("X", false)]], false);
    TwoEntriesReport(st);
    TwoEntriesTitle(["`A`", "`X`"]);
  }

  lemma TwoEntriesTitle(report: seq<string>)
    requires report == ["`A`", "`X`"]
    ensures var t := Title(report); t[..7] == "Tag is " && t[|t| - 8..] == "\n`A`\n`X`"
  {
    var joined := Text.Join(report, "\n");
    Text.JoinCons(report, "\n");
    assert joined == "`A`\n`X`";
    assert ',' !in joined;
    var t := Title(report);
    assert t[|t| - 8..] == [t[|t| - 8]] + t[|t| - 7..];
  }


  lemma TwoEntriesReport(st: T.TagState)
    requires st == T.TagState([T.Entry("A", false)], [[T.Entry("X", false)]], false)
    ensures T.Report(st) == ["`A`", "`X`"]
  {
    assert T.Pending(st.vanilla) == ["A"];
    assert !T.AnyDone(st.anyGroups[0]);
    assert T.KeysOf(st.anyGroups[0]) == ["X"];
    assert T.QuoteJoin(["X"], ", or ") == "`X`";
    assert T.AnyEntries(st.anyGroups[1..]) == [];
    assert T.AnyEntries(st.anyGroups) == ["`X`"];
    assert T.QuoteJoin(["A"], ", ") == "`A`";
    assert T.Report(st) == ["`A`"] + ["`X`"];
  }
}
