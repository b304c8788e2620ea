/** What the two flat-map revisions of the discharge checker share: a
    callee's tags as one ordered map from tag name to a discharged flag, the
    table of tagged functions, and the title of a report. A tool attribute
    reaches them already parsed into its attributes, each the list of its
    argument expressions. */
module FlatState {
  import O = Outcome
  import Text
  import SynExpr
  import P = DemoProperty
  import T = TagState
  import D = Diagnostics

  /** The text of one tool attribute, parsed into attributes. */
  type ToolAttr = seq<seq<SynExpr.Expr>>

  /** How a check of the flat revisions ends early: a panic of the
      attribute parser, a failed `assert!` on a tag discharged twice, a
      `panic!` on a tag the callee does not have, or `process::abort` after
      printing a report. */
  datatype Failure =
    | ParsePanic(panic: P.Panic)
    | AlreadyDischarged(tag: string)
    | UnknownTag(tag: string)
    | Aborted(title: string, anno: D.Range)

  // ---------------------------------------------------------------------
  // The state of one callee.

  /** `clear` followed by `extend` with every name mapped to false: a
      repeated name keeps its first position. */
  function Reset(names: seq<string>): (r: seq<T.Entry>)
    ensures T.UniqueKeys(r) && T.AllPending(r)
    ensures T.KeysOf(r) == T.Dedup([], names)
    ensures forall n :: n in T.KeysOf(r) <==> n in names
  {
    T.ExtendAllPending([], names);
    T.DedupFacts([], names);
    T.Extend([], names)
  }

  /** The names left undischarged are exactly the keys whose flag is
      false. */
  lemma {:induction false} PendingExact(m: seq<T.Entry>)
    ensures forall n :: n in T.Pending(m) <==> exists i :: 0 <= i < |m| && m[i].tag == n && !m[i].done
    decreases |m|
  {
    if m != [] {
      PendingExact(m[1..]);
      assert forall i :: 1 <= i < |m| ==> m[i] == m[1..][i - 1];
      var head := if m[0].done then [] else [m[0].tag];
      assert T.Pending(m) == head + T.Pending(m[1..]);
      forall n ensures n in T.Pending(m) <==> exists i :: 0 <= i < |m| && m[i].tag == n && !m[i].done {
        if exists i :: 0 <= i < |m| && m[i].tag == n && !m[i].done {
          var i :| 0 <= i < |m| && m[i].tag == n && !m[i].done;
          if i > 0 {
            assert m[1..][i - 1].tag == n && !m[1..][i - 1].done;
          }
        }
      }
    }
  }

  /** A freshly reset state has every name pending, in first-occurrence
      order. */
  lemma ResetPending(names: seq<string>)
    ensures T.Pending(Reset(names)) == T.Dedup([], names)
  {
    AllPendingListed(Reset(names));
  }

  lemma {:induction false} AllPendingListed(m: seq<T.Entry>)
    requires T.AllPending(m)
    ensures T.Pending(m) == T.KeysOf(m)
    decreases |m|
  {
    if m != [] {
      AllPendingListed(m[1..]);
      T.KeysOfCons(m);
    }
  }

  // ---------------------------------------------------------------------
  // The table of tagged functions.

  /** A function with the text of each of its tool attributes, parsed. */
  datatype Data = Data(hash: T.PrimaryKey, toolAttrs: seq<ToolAttr>)

  predicate Tagged(d: Data) {
    d.toolAttrs != []
  }

  /** `data[i]` is the last tagged entry for its key. */
  predicate LastTagged(data: seq<Data>, i: nat)
    requires i < |data|
  {
    Tagged(data[i]) && forall j :: i < j < |data| ==> data[j].hash != data[i].hash || !Tagged(data[j])
  }

  /** `ToolAttrs::new`: the tag names of every function with tool
      attributes, read by `props`; a later entry for a key replaces an
      earlier one, and the first panic while reading them, in order, ends
      the build. */
  function Collect(data: seq<Data>, props: seq<ToolAttr> -> O.Result<seq<string>, Failure>)
    : (r: O.Result<map<T.PrimaryKey, seq<string>>, Failure>)
    ensures r.Ok? <==> forall i :: 0 <= i < |data| && Tagged(data[i]) ==> props(data[i].toolAttrs).Ok?
    ensures r.Ok? ==> forall k :: k in r.value <==> exists i :: 0 <= i < |data| && data[i].hash == k && Tagged(data[i])
    ensures r.Ok? ==> forall i :: 0 <= i < |data| && LastTagged(data, i) ==> r.value[data[i].hash] == props(data[i].toolAttrs).value
    ensures r.Err? ==> exists i :: 0 <= i < |data| && FirstFailure(data, props, i) && r.error == props(data[i].toolAttrs).error
    decreases |data|
  {
    if data == [] then O.Ok(map[])
    else if Tagged(data[0]) && props(data[0].toolAttrs).Err? then
      assert FirstFailure(data, props, 0);
      O.Err(props(data[0].toolAttrs).error)
    else
      var rest := Collect(data[1..], props);
      TailFacts(data);
      if rest.Err? then
        FailureShifts(data, props, rest.error);
        O.Err(rest.error)
      else if !Tagged(data[0]) then rest
      else
        var v := props(data[0].toolAttrs);
        assert LastTagged(data, 0) ==> data[0].hash !in rest.value;
        O.Ok(if data[0].hash in rest.value then rest.value else rest.value[data[0].hash := v.value])
  }

  /** `data[i]` is tagged and fails to read, and every tagged entry before
      it reads. */
  predicate FirstFailure(data: seq<Data>, props: seq<ToolAttr> -> O.Result<seq<string>, Failure>, i: nat)
    requires i < |data|
  {
    && Tagged(data[i]) && props(data[i].toolAttrs).Err?
    && forall j :: 0 <= j < i && Tagged(data[j]) ==> props(data[j].toolAttrs).Ok?
  }

  /** The first failure of the tail is the first failure of the whole when
      the head reads. */
  lemma FailureShifts(data: seq<Data>, props: seq<ToolAttr> -> O.Result<seq<string>, Failure>, e: Failure)
    requires data != [] && (Tagged(data[0]) ==> props(data[0].toolAttrs).Ok?)
    requires exists i :: 0 <= i < |data| - 1 && FirstFailure(data[1..], props, i) && e == props(data[1..][i].toolAttrs).error
    ensures exists i :: 0 <= i < |data| && FirstFailure(data, props, i) && e == props(data[i].toolAttrs).error
  {
    var i :| 0 <= i < |data| - 1 && FirstFailure(data[1..], props, i) && e == props(data[1..][i].toolAttrs).error;
    assert data[i + 1] == data[1..][i];
    forall j | 0 <= j < i + 1 && Tagged(data[j])
      ensures props(data[j].toolAttrs).Ok?
    {
      if j > 0 {
        assert data[j] == data[1..][j - 1];
      }
    }
    assert FirstFailure(data, props, i + 1);
  }

  /** When two tagged functions both fail to read, the earlier one's panic
      is the one reported. */
  lemma EarlierFailureReported(d0: Data, d1: Data, props: seq<ToolAttr> -> O.Result<seq<string>, Failure>)
    requires Tagged(d0) && props(d0.toolAttrs).Err?
    ensures Collect([d0, d1], props) == O.Err(props(d0.toolAttrs).error)
  {
  }

  lemma TailFacts(data: seq<Data>)
    requires data != []
    ensures forall i :: 1 <= i < |data| ==> data[i] == data[1..][i - 1]
    ensures forall i :: 1 <= i < |data| && LastTagged(data, i) ==> LastTagged(data[1..], i - 1)
  {
  }

  /** `get_tags_via_key`: the callee's names, all pending, or nothing for a
      callee without tool attributes. */
  function GetTagsViaKey(m: map<T.PrimaryKey, seq<string>>, key: T.PrimaryKey): (r: O.Option<seq<T.Entry>>)
    ensures r.None? <==> key !in m
    ensures r.Some? ==> T.UniqueKeys(r.value) && T.AllPending(r.value)
    ensures r.Some? ==> T.KeysOf(r.value) == T.Dedup([], m[key])
  {
    if key in m then O.Some(Reset(m[key])) else O.None
  }

  // ---------------------------------------------------------------------
  // The title of a report.

  predicate EndsWith(s: string, suffix: string) {
    |suffix| <= |s| && s[|s| - |suffix|..] == suffix
  }

  lemma EndsWithAppend(a: string, b: string, suffix: string)
    requires |suffix| <= |b|
    ensures EndsWith(a + b, suffix) <==> EndsWith(b, suffix)
  {
    assert (a + b)[|a + b| - |suffix|..] == b[|b| - |suffix|..];
  }

  const NotDischarged: string := " not discharged"

  /** The words after the names: "is" for one name, "are" for several. */
  function Verb(n: nat): (v: string)
    ensures EndsWith(v, NotDischarged)
    ensures EndsWith(v, " is" + NotDischarged) <==> n == 1
    ensures |v| >= 18 && NoTick(v)
  {
    var verb: string := if n == 1 then " is" else " are";
    var v := verb + NotDischarged;
    assert v[|v| - |NotDischarged|..] == NotDischarged;
    assert v[|v| - 18] == verb[|verb| - 3];
    v
  }

  /** The title of `check_tag_state`: the pending names quoted and joined
      with commas, then "is" for one name and "are" for several. */
  function Title(pending: seq<string>): (t: string)
    requires pending != []
    ensures |t| > 0 && t[0] == '`'
    ensures EndsWith(t, NotDischarged)
    ensures EndsWith(t, " is" + NotDischarged) <==> |pending| == 1
  {
    var names := T.QuoteJoin(pending, ", ");
    var v := Verb(|pending|);
    EndsWithAppend(names, v, NotDischarged);
    EndsWithAppend(names, v, " is" + NotDischarged);
    assert (names + v)[0] == names[0];
    names + v
  }

  predicate NoTick(s: string) {
    '`' !in s
  }

  lemma {:induction false} QuoteJoinTicks(names: seq<string>, sep: string)
    requires NoTick(sep) && forall i :: 0 <= i < |names| ==> NoTick(names[i])
    ensures Text.Count(T.QuoteJoin(names, sep), '`') == 2 * |names|
    decreases |names|
  {
    if names != [] {
      var q := T.Quote(names[0]);
      Text.CountZeroIffAbsent(names[0], '`');
      Text.CountAppend("`", names[0], '`');
      Text.CountAppend("`" + names[0], "`", '`');
      assert Text.Count(q, '`') == 2;
      if |names| >= 2 {
        QuoteJoinTicks(names[1..], sep);
        Text.CountZeroIffAbsent(sep, '`');
        Text.CountAppend(q, sep, '`');
        Text.CountAppend(q + sep, T.QuoteJoin(names[1..], sep), '`');
      }
    }
  }

  /** With names free of backquotes, the title quotes exactly as many names
      as are pending. */
  lemma TitleTicks(pending: seq<string>)
    requires pending != [] && forall i :: 0 <= i < |pending| ==> NoTick(pending[i])
    ensures Text.Count(Title(pending), '`') == 2 * |pending|
  {
    var names := T.QuoteJoin(pending, ", ");
    var v := Verb(|pending|);
    assert Title(pending) == names + v;
    QuoteJoinTicks(pending, ", ");
    Text.CountAppend(names, v, '`');
    Text.CountZeroIffAbsent(v, '`');
  }

  // ---------------------------------------------------------------------
  // Syntax nodes and calls.

  /** A node of the compiler's tree: its id, the text of each of its tool
      attributes, parsed, and its span. */
  datatype Node = Node(id: nat, toolAttrs: seq<ToolAttr>, span: D.Span)

  /** One call of a function: the call node, the callee's key, the
      enclosing nodes innermost first, the id of the enclosing function item
      and the span of its body. */
  datatype CallSite = CallSite(node: Node, callee: T.PrimaryKey, parents: seq<Node>, fnId: nat, body: D.Span)

  // ---------------------------------------------------------------------
  // The names a function's tool attributes record.

  /** The name a `Memo` property is recorded under: the identifier its
      first argument is. A property without arguments panics on the index,
      one whose first argument is not a plain identifier in `expr_ident`. */
  function MemoName(p: P.Property): (r: O.Result<string, Failure>)
    ensures r.Ok? <==> p.expr != [] && SynExpr.IsIdent(p.expr[0])
    ensures r.Ok? ==> p.expr[0] == SynExpr.Path([r.value])
    ensures p.expr == [] ==> r == O.Err(ParsePanic(P.IndexOutOfBounds(0)))
    ensures p.expr != [] && r.Err? ==> r.error == ParsePanic(P.NotAPath(p.expr[0]))
  {
    if p.expr == [] then O.Err(ParsePanic(P.IndexOutOfBounds(0)))
    else
      match P.ExprIdent(p.expr[0])
      case Ok(name) => O.Ok(name)
      case Err(e) => O.Err(ParsePanic(e))
  }

  /** `Property::new_with_hir_id`, and the list `ToolAttrs::new` builds for
      one function: `push` applied to every tool attribute in order, keeping
      the names it records; the first panic ends the list. */
  function NamesOf(attrs: seq<ToolAttr>, push: ToolAttr -> O.Result<O.Option<string>, Failure>)
    : (r: O.Result<seq<string>, Failure>)
    ensures r.Ok? <==> forall i :: 0 <= i < |attrs| ==> push(attrs[i]).Ok?
    ensures r.Err? ==>
      exists i :: 0 <= i < |attrs| && push(attrs[i]) == O.Err(r.error) && forall j :: 0 <= j < i ==> push(attrs[j]).Ok?
    ensures r.Ok? ==> |r.value| <= |attrs|
    ensures r.Ok? ==> (r.value == [] <==> forall i :: 0 <= i < |attrs| ==> push(attrs[i]).value.None?)
    decreases |attrs|
  {
    if attrs == [] then O.Ok([])
    else
      var first := push(attrs[0]);
      var rest := NamesOf(attrs[1..], push);
      assert forall i :: 1 <= i < |attrs| ==> attrs[i] == attrs[1..][i - 1];
      if first.Err? then O.Err(first.error)
      else if rest.Err? then
        var i :| 0 <= i < |attrs[1..]| && push(attrs[1..][i]) == O.Err(rest.error) &&
          forall j :: 0 <= j < i ==> push(attrs[1..][j]).Ok?;
        assert push(attrs[i + 1]) == O.Err(rest.error);
        O.Err(rest.error)
      else
        O.Ok((if first.value.Some? then [first.value.value] else []) + rest.value)
  }

  // ---------------------------------------------------------------------
  // Discharging.

  /** A tag the callee has: `assert!` that it is not discharged yet, then
      set its flag. */
  function MarkKnown(m: seq<T.Entry>, tag: string): (r: O.Result<seq<T.Entry>, Failure>)
    requires T.UniqueKeys(m) && tag in T.KeysOf(m)
    ensures r.Err? <==> exists j :: 0 <= j < |m| && m[j].tag == tag && m[j].done
    ensures r.Err? ==> r.error == AlreadyDischarged(tag)
    ensures r.Ok? ==> Marked(m, [tag], r.value)
  {
    var i := T.Find(m, tag);
    if m[i].done then O.Err(AlreadyDischarged(tag))
    else
      var r := T.Mark(m, tag);
      assert forall j :: 0 <= j < |m| && j != i ==> m[j].tag != tag by {
        assert T.KeysOf(m)[i] == tag;
      }
      O.Ok(r)
  }

  /** `after` is `before` with the flags of the names in `tags` set: same
      keys, same order. */
  predicate Marked(before: seq<T.Entry>, tags: seq<string>, after: seq<T.Entry>) {
    |after| == |before| &&
    forall j :: 0 <= j < |before| ==> after[j] == T.Entry(before[j].tag, before[j].done || before[j].tag in tags)
  }

  /** No name in `tags` that the callee has is already discharged or comes
      twice. */
  predicate FreshKnown(m: seq<T.Entry>, tags: seq<string>) {
    forall i, j :: 0 <= i < |tags| && 0 <= j < |m| && m[j].tag == tags[i] ==> !m[j].done && tags[i] !in tags[..i]
  }

  /** Marking by the same names gives one result. */
  lemma MarkedUnique(m: seq<T.Entry>, tags: seq<string>, a: seq<T.Entry>, b: seq<T.Entry>)
    requires Marked(m, tags, a) && Marked(m, tags, b)
    ensures a == b
  {
    assert forall j :: 0 <= j < |m| ==> a[j] == b[j];
  }

  /** Marking keeps the keys, hence their uniqueness. */
  lemma MarkedKeys(before: seq<T.Entry>, tags: seq<string>, after: seq<T.Entry>)
    requires Marked(before, tags, after)
    ensures T.KeysOf(after) == T.KeysOf(before)
    ensures T.UniqueKeys(before) ==> T.UniqueKeys(after)
  {
  }

  /** Marking by one name and then by more is marking by all of them. */
  lemma MarkedCons(m: seq<T.Entry>, t: string, rest: seq<string>, m1: seq<T.Entry>, r: seq<T.Entry>)
    requires Marked(m, [t], m1) && Marked(m1, rest, r)
    ensures Marked(m, [t] + rest, r)
  {
  }

  /** A name the callee does not have marks nothing. */
  lemma MarkedSkip(m: seq<T.Entry>, t: string, rest: seq<string>, r: seq<T.Entry>)
    requires t !in T.KeysOf(m) && Marked(m, rest, r)
    ensures Marked(m, [t] + rest, r)
  {
    forall j | 0 <= j < |m| ensures m[j].tag != t {
      assert T.KeysOf(m)[j] == m[j].tag;
    }
  }

  /** A first name the callee has and has pending: the rest are fresh in
      the marked state exactly when all are fresh in the original. */
  lemma FreshKnownMark(m: seq<T.Entry>, t: string, rest: seq<string>, m1: seq<T.Entry>)
    requires Marked(m, [t], m1) && t in T.KeysOf(m)
    requires forall j :: 0 <= j < |m| && m[j].tag == t ==> !m[j].done
    ensures FreshKnown(m, [t] + rest) <==> FreshKnown(m1, rest)
  {
    var tags := [t] + rest;
    assert forall i :: 1 <= i < |tags| ==> tags[i] == rest[i - 1] && tags[..i] == [t] + rest[..i - 1];
    if FreshKnown(m, tags) {
      forall i, j | 0 <= i < |rest| && 0 <= j < |m1| && m1[j].tag == rest[i]
        ensures !m1[j].done && rest[i] !in rest[..i]
      {
        assert tags[i + 1] == rest[i] && tags[..i + 1] == [t] + rest[..i];
        assert m[j].tag == tags[i + 1];
      }
    }
    if FreshKnown(m1, rest) {
      forall i, j | 0 <= i < |tags| && 0 <= j < |m| && m[j].tag == tags[i]
        ensures !m[j].done && tags[i] !in tags[..i]
      {
        if i > 0 {
          assert tags[i] == rest[i - 1] && tags[..i] == [t] + rest[..i - 1];
          assert m1[j].tag == rest[i - 1];
        }
      }
    }
  }

  /** A first name the callee does not have changes nothing about the
      rest. */
  lemma FreshKnownSkip(m: seq<T.Entry>, t: string, rest: seq<string>)
    requires t !in T.KeysOf(m)
    ensures FreshKnown(m, [t] + rest) <==> FreshKnown(m, rest)
  {
    var tags := [t] + rest;
    assert forall i :: 1 <= i < |tags| ==> tags[i] == rest[i - 1] && tags[..i] == [t] + rest[..i - 1];
    forall j | 0 <= j < |m| ensures m[j].tag != t {
      assert T.KeysOf(m)[j] == m[j].tag;
    }
    if FreshKnown(m, tags) {
      forall i, j | 0 <= i < |rest| && 0 <= j < |m| && m[j].tag == rest[i]
        ensures !m[j].done && rest[i] !in rest[..i]
      {
        assert tags[i + 1] == rest[i] && tags[..i + 1] == [t] + rest[..i];
      }
    }
    if FreshKnown(m, rest) {
      forall i, j | 0 <= i < |tags| && 0 <= j < |m| && m[j].tag == tags[i]
        ensures !m[j].done && tags[i] !in tags[..i]
      {
        assert i > 0;
        assert tags[i] == rest[i - 1] && tags[..i] == [t] + rest[..i - 1];
      }
    }
  }

  /** Every name of a list of distinct names, all pending, is fresh. */
  lemma DistinctPendingFresh(m: seq<T.Entry>, tags: seq<string>)
    requires T.AllPending(m) && Text.Distinct(tags)
    ensures FreshKnown(m, tags)
  {
    forall i, j | 0 <= i < |tags| && 0 <= j < |m| && m[j].tag == tags[i] ensures tags[i] !in tags[..i] {
      assert forall k :: 0 <= k < i ==> tags[..i][k] == tags[k];
    }
  }
}
