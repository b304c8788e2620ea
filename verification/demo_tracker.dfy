/** The first revision of the flat-map discharge checker, in the prototype:
    only `Memo` properties are tags, a tag the callee does not have panics,
    and the first report prints its snippet and aborts the compiler. */
module DemoTracker {
  import O = Outcome
  import SynExpr
  import Text
  import P = DemoProperty
  import NA = DemoNamedArgs
  import T = TagState
  import D = Diagnostics
  import F = FlatState

  // ---------------------------------------------------------------------
  // The tags of a function.

  /** `push_properties`: the identifier of a `Memo` property; nothing for
      any other kind or for text that is not a tool attribute. */
  function PushProperty(attr: F.ToolAttr): (r: O.Result<O.Option<string>, F.Failure>)
    ensures NA.ParseInnerAttr(attr).Err? ==> r == O.Err(F.ParsePanic(NA.ParseInnerAttr(attr).error))
    ensures NA.ParseInnerAttr(attr) == O.Ok(O.None) ==> r == O.Ok(O.None)
    ensures NA.ParseInnerAttr(attr).Ok? && NA.ParseInnerAttr(attr).value.Some? ==>
      var p := NA.ParseInnerAttr(attr).value.value;
      && (p.kind != P.Memo ==> r == O.Ok(O.None))
      && (p.kind == P.Memo ==> (r.Ok? <==> F.MemoName(p).Ok?) && (r.Ok? ==> r.value == O.Some(F.MemoName(p).value)))
  {
    match NA.ParseInnerAttr(attr)
    case Err(e) => O.Err(F.ParsePanic(e))
    case Ok(None) => O.Ok(O.None)
    case Ok(Some(p)) =>
      if p.kind != P.Memo then O.Ok(O.None)
      else
        var name :- F.MemoName(p);
        O.Ok(O.Some(name))
  }

  /** The discharge attribute generated for a `Memo` property whose first
      argument is an identifier records that identifier. */
  lemma MemoAttrRecorded(p: P.Property, name: string)
    requires p.kind == P.Memo && p.expr != [] && p.expr[0] == SynExpr.Path([name])
    ensures PushProperty([P.DischargeAttr(p)]) == O.Ok(O.Some(name))
  {
    NA.DischargeAttrRoundTrip(p);
  }

  /** The discharge attribute of any other kind records nothing. */
  lemma OtherKindIgnored(p: P.Property)
    requires p.kind != P.Memo
    ensures PushProperty([P.DischargeAttr(p)]) == O.Ok(O.None)
  {
    NA.DischargeAttrRoundTrip(p);
  }

  function Push(): F.ToolAttr -> O.Result<O.Option<string>, F.Failure> {
    PushProperty
  }

  /** `Property::new_with_hir_id`: the tags a node's tool attributes name. */
  function NodeTags(node: F.Node): O.Result<seq<string>, F.Failure> {
    F.NamesOf(node.toolAttrs, Push())
  }

  /** `ToolAttrs::new`: the tags of every function with tool attributes. */
  function NewToolAttrs(data: seq<F.Data>): (r: O.Result<map<T.PrimaryKey, seq<string>>, F.Failure>)
    ensures r.Ok? ==> forall k :: k in r.value <==> exists i :: 0 <= i < |data| && data[i].hash == k && F.Tagged(data[i])
    ensures r.Ok? <==> forall i :: 0 <= i < |data| && F.Tagged(data[i]) ==> F.NamesOf(data[i].toolAttrs, Push()).Ok?
  {
    F.Collect(data, toolAttrs => F.NamesOf(toolAttrs, Push()))
  }

  // ---------------------------------------------------------------------
  // Discharging.

  /** The tags of one node, in order: a tag the callee does not have
      panics, one already discharged fails the `assert!`, and any other is
      set. */
  function DischargeAll(m: seq<T.Entry>, tags: seq<string>): (r: O.Result<seq<T.Entry>, F.Failure>)
    requires T.UniqueKeys(m)
    ensures r.Ok? <==> (forall i :: 0 <= i < |tags| ==> tags[i] in T.KeysOf(m)) && F.FreshKnown(m, tags)
    ensures r.Ok? ==> F.Marked(m, tags, r.value) && T.UniqueKeys(r.value)
    decreases |tags|
  {
    if tags == [] then O.Ok(m)
    else
      var t := tags[0];
      var rest := tags[1..];
      assert tags == [t] + rest;
      if t !in T.KeysOf(m) then O.Err(F.UnknownTag(t))
      else
        var marked := F.MarkKnown(m, t);
        if marked.Err? then
          assert !F.FreshKnown(m, tags) by {
            var j :| 0 <= j < |m| && m[j].tag == t && m[j].done;
            assert m[j].tag == tags[0];
          }
          O.Err(marked.error)
        else
          var m1 := marked.value;
          F.MarkedKeys(m, [t], m1);
          F.FreshKnownMark(m, t, rest, m1);
          var r := DischargeAll(m1, rest);
          if r.Ok? then F.MarkedCons(m, t, rest, m1, r.value); r else r
  }

  // ---------------------------------------------------------------------
  // The check.

  /** `check_tag_state`: every tag discharged, or the report of the pending
      ones at the node, after which the compiler aborts. */
  function CheckTagState(m: seq<T.Entry>, node: F.Node, body: D.Span): (r: O.Result<seq<T.Entry>, F.Failure>)
    ensures r.Ok? <==> forall i :: 0 <= i < |m| ==> m[i].done
    ensures r.Ok? ==> r.value == m
    ensures r.Err? ==> T.Pending(m) != [] && r.error == F.Aborted(F.Title(T.Pending(m)), D.AnnoSpan(body, node.span))
  {
    var pending := T.Pending(m);
    if pending == [] then O.Ok(m)
    else O.Err(F.Aborted(F.Title(pending), D.AnnoSpan(body, node.span)))
  }

  /** The `print` closure: the node's tags are discharged and, when there
      were any, every tag must be discharged; it answers whether the node
      had no tags. */
  function Check(m: seq<T.Entry>, node: F.Node, body: D.Span): (r: O.Result<(seq<T.Entry>, bool), F.Failure>)
    requires T.UniqueKeys(m)
    ensures NodeTags(node) == O.Ok([]) ==> r == O.Ok((m, true))
    ensures r.Ok? ==> T.UniqueKeys(r.value.0) && T.KeysOf(r.value.0) == T.KeysOf(m)
    ensures r.Ok? ==> (r.value.1 <==> NodeTags(node) == O.Ok([]))
    ensures r.Ok? && !r.value.1 ==> forall i :: 0 <= i < |r.value.0| ==> r.value.0[i].done
  {
    var tags :- NodeTags(node);
    var m1 :- DischargeAll(m, tags);
    F.MarkedKeys(m, tags, m1);
    if tags == [] then
      assert m1 == m;
      O.Ok((m1, true))
    else
      var m2 :- CheckTagState(m1, node, body);
      O.Ok((m2, false))
  }

  /** The loop over the enclosing nodes: stop after the first node with
      tags, or after the function item itself. */
  function Walk(m: seq<T.Entry>, parents: seq<F.Node>, fnId: nat, body: D.Span): (r: O.Result<seq<T.Entry>, F.Failure>)
    requires T.UniqueKeys(m)
    ensures r.Ok? ==> T.UniqueKeys(r.value) && T.KeysOf(r.value) == T.KeysOf(m)
    decreases |parents|
  {
    if parents == [] then O.Ok(m)
    else
      var c :- Check(m, parents[0], body);
      if !c.1 || parents[0].id == fnId then O.Ok(c.0)
      else Walk(c.0, parents[1..], fnId, body)
  }

  /** `Call::check_tool_attrs`: nothing for a callee without tool
      attributes; otherwise the call node, the walk, and a last check at the
      call node. A check that returns leaves every tag of the callee
      discharged. */
  function CheckToolAttrs(call: F.CallSite, table: map<T.PrimaryKey, seq<string>>)
    : (r: O.Result<O.Option<seq<T.Entry>>, F.Failure>)
    ensures call.callee !in table ==> r == O.Ok(O.None)
    ensures call.callee in table && r.Ok? ==> r.value.Some? && T.KeysOf(r.value.value) == T.Dedup([], table[call.callee])
    ensures r.Ok? && r.value.Some? ==> forall i :: 0 <= i < |r.value.value| ==> r.value.value[i].done
  {
    match F.GetTagsViaKey(table, call.callee)
    case None => O.Ok(O.None)
    case Some(m) =>
      var c :- Check(m, call.node, call.body);
      var m2 :- Walk(c.0, call.parents, call.fnId, call.body);
      var m3 :- CheckTagState(m2, call.node, call.body);
      O.Ok(O.Some(m3))
  }

  /** Every call of the crate in turn; the first panic or report ends the
      compilation. */
  function CheckCalls(calls: seq<F.CallSite>, table: map<T.PrimaryKey, seq<string>>): (r: O.Result<(), F.Failure>)
    ensures r.Ok? <==> forall i :: 0 <= i < |calls| ==> CheckToolAttrs(calls[i], table).Ok?
    decreases |calls|
  {
    if calls == [] then O.Ok(())
    else
      var _ :- CheckToolAttrs(calls[0], table);
      var r := CheckCalls(calls[1..], table);
      assert forall i :: 1 <= i < |calls| ==> calls[i] == calls[1..][i - 1];
      r
  }

  // ---------------------------------------------------------------------
  // Properties of the check.

  /** Enclosing nodes without tags leave the state as it is. */
  lemma {:induction false} WalkUntagged(m: seq<T.Entry>, parents: seq<F.Node>, fnId: nat, body: D.Span)
    requires T.UniqueKeys(m)
    requires forall i :: 0 <= i < |parents| ==> NodeTags(parents[i]) == O.Ok([])
    ensures Walk(m, parents, fnId, body) == O.Ok(m)
    decreases |parents|
  {
    if parents != [] {
      assert NodeTags(parents[0]) == O.Ok([]);
      assert forall i :: 1 <= i < |parents| ==> parents[i] == parents[1..][i - 1];
      WalkUntagged(m, parents[1..], fnId, body);
    }
  }

  /** A call of a function with tags, in a scope where no node names any,
      aborts with the report of every tag of the callee, in first-occurrence
      order, at the call. */
  lemma UntaggedScopeAborts(call: F.CallSite, table: map<T.PrimaryKey, seq<string>>)
    requires call.callee in table && table[call.callee] != []
    requires NodeTags(call.node) == O.Ok([])
    requires forall i :: 0 <= i < |call.parents| ==> NodeTags(call.parents[i]) == O.Ok([])
    ensures var names := T.Dedup([], table[call.callee]);
      names != [] && CheckToolAttrs(call, table) == O.Err(F.Aborted(F.Title(names), D.AnnoSpan(call.body, call.node.span)))
  {
    var m := F.GetTagsViaKey(table, call.callee).value;
    WalkUntagged(m, call.parents, call.fnId, call.body);
    F.ResetPending(table[call.callee]);
    T.DedupFacts([], table[call.callee]);
    assert table[call.callee][0] in T.Dedup([], table[call.callee]);
  }

  /** Distinct names that are exactly the names of a fresh state discharge
      all of them. */
  lemma DischargeCovers(names: seq<string>, tags: seq<string>)
    requires Text.Distinct(tags)
    requires forall n :: n in tags <==> n in names
    ensures DischargeAll(F.Reset(names), tags).Ok?
    ensures forall i :: 0 <= i < |DischargeAll(F.Reset(names), tags).value| ==> DischargeAll(F.Reset(names), tags).value[i].done
  {
    var m := F.Reset(names);
    T.DedupFacts([], names);
    F.DistinctPendingFresh(m, tags);
    var m1 := DischargeAll(m, tags).value;
    forall j | 0 <= j < |m1| ensures m1[j].done {
      assert T.KeysOf(m)[j] == m[j].tag;
    }
  }

  /** A state with every tag discharged rejects any further name. */
  lemma DoneRejects(m: seq<T.Entry>, tags: seq<string>)
    requires T.UniqueKeys(m) && tags != []
    requires forall i :: 0 <= i < |m| ==> m[i].done
    ensures DischargeAll(m, tags).Err?
  {
    if tags[0] in T.KeysOf(m) {
      var j :| 0 <= j < |m| && T.KeysOf(m)[j] == tags[0];
      assert m[j].tag == tags[0] && m[j].done;
    }
  }

  /** A call node naming each tag of its callee once, and nothing else, in
      a scope where no enclosing node names any, passes the check. */
  lemma CompleteDischargePasses(call: F.CallSite, table: map<T.PrimaryKey, seq<string>>, tags: seq<string>)
    requires call.callee in table && NodeTags(call.node) == O.Ok(tags)
    requires Text.Distinct(tags)
    requires forall n :: n in tags <==> n in table[call.callee]
    requires forall i :: 0 <= i < |call.parents| ==> NodeTags(call.parents[i]) == O.Ok([])
    ensures CheckToolAttrs(call, table).Ok?
  {
    var m := F.Reset(table[call.callee]);
    DischargeCovers(table[call.callee], tags);
    var m1 := DischargeAll(m, tags).value;
    assert CheckTagState(m1, call.node, call.body) == O.Ok(m1);
    WalkUntagged(m1, call.parents, call.fnId, call.body);
  }

  /** The answer for the call node is dropped, so when the call node
      passes and its innermost enclosing node names any tag, the walk
      panics: every tag of the callee is discharged by then, and a name is
      either one of them or unknown. */
  lemma TaggedCallThenTaggedParentPanics(call: F.CallSite, table: map<T.PrimaryKey, seq<string>>, tags: seq<string>, outer: seq<string>)
    requires call.callee in table
    requires NodeTags(call.node) == O.Ok(tags) && tags != []
    requires call.parents != [] && NodeTags(call.parents[0]) == O.Ok(outer) && outer != []
    ensures CheckToolAttrs(call, table).Err?
  {
    var m := F.GetTagsViaKey(table, call.callee).value;
    var c := Check(m, call.node, call.body);
    if c.Ok? {
      DoneRejects(c.value.0, outer);
    }
  }
}
