/** The discharge tracker of the checker: for the unsafe function being
    called, which of its tags the call site has discharged so far. Tag
    identity is the tag name alone. */
module TagState {
  import opened Outcome
  import Text
  import Registry
  import SafetyAttr
  import AnyTag

  // ---------------------------------------------------------------------
  // Insertion-ordered maps from tag names to a discharged flag.

  datatype Entry = Entry(tag: string, done: bool)

  function KeysOf(m: seq<Entry>): (r: seq<string>)
    ensures |r| == |m| && forall i :: 0 <= i < |m| ==> r[i] == m[i].tag
  {
    seq(|m|, i requires 0 <= i < |m| => m[i].tag)
  }

  lemma KeysOfCons(m: seq<Entry>)
    requires m != []
    ensures KeysOf(m) == [m[0].tag] + KeysOf(m[1..])
  {
  }

  /** Replacing an entry by one with the same name keeps the names. */
  lemma KeysOfUpdate(m: seq<Entry>, i: nat, e: Entry)
    requires i < |m| && e.tag == m[i].tag
    ensures KeysOf(m[i := e]) == KeysOf(m)
  {
  }

  lemma KeysOfSnoc(m: seq<Entry>, e: Entry)
    ensures KeysOf(m + [e]) == KeysOf(m) + [e.tag]
  {
  }

  predicate UniqueKeys(m: seq<Entry>) {
    Text.Distinct(KeysOf(m))
  }

  predicate AllPending(m: seq<Entry>) {
    forall i :: 0 <= i < |m| ==> !m[i].done
  }

  /** Position of the entry for `k`. */
  function Find(m: seq<Entry>, k: string): (i: nat)
    requires k in KeysOf(m)
    ensures i < |m| && m[i].tag == k
    ensures forall j :: 0 <= j < i ==> m[j].tag != k
  {
    if m[0].tag == k then 0
    else
      KeysOfCons(m);
      1 + Find(m[1..], k)
  }

  /** `IndexMap::insert`: a present key keeps its position and takes the
      new value, a new key is appended. */
  function Insert(m: seq<Entry>, k: string, v: bool): (r: seq<Entry>)
    requires UniqueKeys(m)
    ensures UniqueKeys(r)
    ensures k in KeysOf(m) ==> |r| == |m| && KeysOf(r) == KeysOf(m) && r[Find(m, k)] == Entry(k, v)
    ensures k in KeysOf(m) ==> forall j :: 0 <= j < |m| && j != Find(m, k) ==> r[j] == m[j]
    ensures k !in KeysOf(m) ==> r == m + [Entry(k, v)]
  {
    if k in KeysOf(m) then
      KeysOfUpdate(m, Find(m, k), Entry(k, v));
      m[Find(m, k) := Entry(k, v)]
    else
      KeysOfSnoc(m, Entry(k, v));
      m + [Entry(k, v)]
  }

  /** `IndexMap::extend` with every name mapped to false. */
  function Extend(m: seq<Entry>, names: seq<string>): (r: seq<Entry>)
    requires UniqueKeys(m)
    ensures UniqueKeys(r)
    decreases |names|
  {
    if names == [] then m else Extend(Insert(m, names[0], false), names[1..])
  }

  /** The names with later repeats removed, first occurrences in order. */
  function Dedup(seen: seq<string>, names: seq<string>): (r: seq<string>)
    decreases |names|
  {
    if names == [] then seen
    else Dedup(if names[0] in seen then seen else seen + [names[0]], names[1..])
  }

  lemma {:induction false} DedupFacts(seen: seq<string>, names: seq<string>)
    requires Text.Distinct(seen)
    ensures Text.Distinct(Dedup(seen, names))
    ensures forall n :: n in Dedup(seen, names) <==> n in seen || n in names
    ensures |Dedup(seen, names)| >= |seen| && Dedup(seen, names)[..|seen|] == seen
    decreases |names|
  {
    if names != [] {
      var next := if names[0] in seen then seen else seen + [names[0]];
      DedupFacts(next, names[1..]);
      assert next[..|seen|] == seen;
    }
  }

  /** Extending an all-false map with names keeps every flag false and
      collapses repeated names onto their first position. */
  lemma {:induction false} ExtendAllPending(m: seq<Entry>, names: seq<string>)
    requires UniqueKeys(m) && AllPending(m)
    ensures AllPending(Extend(m, names))
    ensures KeysOf(Extend(m, names)) == Dedup(KeysOf(m), names)
    decreases |names|
  {
    if names != [] {
      var m2 := Insert(m, names[0], false);
      if names[0] in KeysOf(m) {
        assert m2 == m;
      } else {
        KeysOfSnoc(m, Entry(names[0], false));
      }
      ExtendAllPending(m2, names[1..]);
    }
  }

  // ---------------------------------------------------------------------
  // The state.

  /** The tags of one function: `vanilla` must all be discharged, and each
      of `anyGroups` needs one discharged member. */
  datatype Properties = Properties(vanilla: seq<string>, anyGroups: seq<seq<string>>)

  /** `TagState`. `reported` is the source's `undischarged` field: whether
      the report has been produced once. */
  datatype TagState = TagState(vanilla: seq<Entry>, anyGroups: seq<seq<Entry>>, reported: bool)

  predicate Valid(st: TagState) {
    && UniqueKeys(st.vanilla)
    && forall g :: 0 <= g < |st.anyGroups| ==> UniqueKeys(st.anyGroups[g])
  }

  const Initial := TagState([], [], false)

  /** `clear`: the maps are emptied; the report flag is kept. */
  function Clear(st: TagState): (r: TagState)
    ensures r.vanilla == [] && r.anyGroups == [] && r.reported == st.reported
  {
    st.(vanilla := [], anyGroups := [])
  }

  function FreshGroups(groups: seq<seq<string>>): (r: seq<seq<Entry>>)
    ensures |r| == |groups|
    ensures forall g :: 0 <= g < |r| ==>
      UniqueKeys(r[g]) && AllPending(r[g]) && KeysOf(r[g]) == Dedup([], groups[g])
    decreases |groups|
  {
    if groups == [] then []
    else
      ExtendAllPending([], groups[0]);
      var rest := FreshGroups(groups[1..]);
      assert forall g :: 1 <= g < |groups| ==> groups[g] == groups[1..][g - 1];
      [Extend([], groups[0])] + rest
  }

  /** `refresh`: every tag of the function pending, a repeated name kept
      once, one map per `any` group in order, and the report flag left as it
      was. */
  function Refresh(st: TagState, props: Properties): (r: TagState)
    ensures Valid(r)
    ensures AllPending(r.vanilla) && KeysOf(r.vanilla) == Dedup([], props.vanilla)
    ensures |r.anyGroups| == |props.anyGroups|
    ensures forall g :: 0 <= g < |r.anyGroups| ==> AllPending(r.anyGroups[g]) && KeysOf(r.anyGroups[g]) == Dedup([], props.anyGroups[g])
    ensures r.reported == st.reported
  {
    ExtendAllPending([], props.vanilla);
    TagState(Extend([], props.vanilla), FreshGroups(props.anyGroups), st.reported)
  }

  // ---------------------------------------------------------------------
  // Discharging.

  predicate DoneIn(m: seq<Entry>, tag: string) {
    tag in KeysOf(m) && m[Find(m, tag)].done
  }

  function Mark(m: seq<Entry>, tag: string): (r: seq<Entry>)
    requires tag in KeysOf(m)
    ensures |r| == |m| && KeysOf(r) == KeysOf(m)
  {
    KeysOfUpdate(m, Find(m, tag), Entry(tag, true));
    m[Find(m, tag) := Entry(tag, true)]
  }

  /** Index of the first group in which `tag` is already discharged, or the
      number of groups. */
  function FirstDone(gs: seq<seq<Entry>>, tag: string): (k: nat)
    ensures k <= |gs|
    ensures forall g :: 0 <= g < k ==> !DoneIn(gs[g], tag)
    ensures k < |gs| ==> DoneIn(gs[k], tag)
  {
    if gs == [] then 0
    else if DoneIn(gs[0], tag) then 0
    else
      var k := FirstDone(gs[1..], tag);
      assert forall g :: 1 <= g < k + 1 ==> gs[g] == gs[1..][g - 1];
      1 + k
  }

  /** The `any` loop of `discharge`: the tag is marked in every group that
      has it, in order, until a group where it is already discharged stops
      the loop with an error; groups marked before that stay marked. */
  function MarkGroups(gs: seq<seq<Entry>>, tag: string): (r: (seq<seq<Entry>>, bool))
    ensures |r.0| == |gs|
    ensures r.1 <==> FirstDone(gs, tag) == |gs|
    ensures forall g :: 0 <= g < |gs| ==>
      r.0[g] == if g < FirstDone(gs, tag) then MarkIf(gs[g], tag) else gs[g]
  {
    if gs == [] then ([], true)
    else if DoneIn(gs[0], tag) then (gs, false)
    else
      var rest := MarkGroups(gs[1..], tag);
      MarkGroupsCons(gs, tag, rest.0);
      ([MarkIf(gs[0], tag)] + rest.0, rest.1)
  }

  /** The group marked if it has the tag, as it is otherwise. */
  function MarkIf(m: seq<Entry>, tag: string): (r: seq<Entry>)
    ensures KeysOf(r) == KeysOf(m)
  {
    if tag in KeysOf(m) then Mark(m, tag) else m
  }

  lemma MarkGroupsCons(gs: seq<seq<Entry>>, tag: string, rest: seq<seq<Entry>>)
    requires gs != [] && !DoneIn(gs[0], tag)
    requires |rest| == |gs| - 1
    requires forall g :: 0 <= g < |rest| ==>
      rest[g] == if g < FirstDone(gs[1..], tag) then MarkIf(gs[1..][g], tag) else gs[1..][g]
    ensures forall g :: 0 <= g < |gs| ==>
      ([MarkIf(gs[0], tag)] + rest)[g] == if g < FirstDone(gs, tag) then MarkIf(gs[g], tag) else gs[g]
  {
    var r := [MarkIf(gs[0], tag)] + rest;
    assert FirstDone(gs, tag) == 1 + FirstDone(gs[1..], tag);
    forall g | 1 <= g < |gs|
      ensures r[g] == if g < FirstDone(gs, tag) then MarkIf(gs[g], tag) else gs[g]
    {
      assert r[g] == rest[g - 1] && gs[g] == gs[1..][g - 1];
    }
  }

  /** `discharge`: the new state and whether it returned Ok. */
  function Discharge(st: TagState, tag: string): (r: (TagState, bool))
    requires Valid(st)
    ensures Valid(r.0) && r.0.reported == st.reported
    ensures tag in KeysOf(st.vanilla) ==> r.0.anyGroups == st.anyGroups
    ensures tag in KeysOf(st.vanilla) ==>
      var i := Find(st.vanilla, tag);
      && (r.1 <==> !st.vanilla[i].done)
      && (r.1 ==> r.0.vanilla == st.vanilla[i := Entry(tag, true)])
      && (!r.1 ==> r.0 == st)
    ensures tag !in KeysOf(st.vanilla) ==>
      && r.0.vanilla == st.vanilla
      && |r.0.anyGroups| == |st.anyGroups|
      && (r.1 <==> forall g :: 0 <= g < |st.anyGroups| ==> !DoneIn(st.anyGroups[g], tag))
      && (forall g :: 0 <= g < |st.anyGroups| && g < FirstDone(st.anyGroups, tag) && tag in KeysOf(st.anyGroups[g]) ==>
            DoneIn(r.0.anyGroups[g], tag))
      && (forall g :: 0 <= g < |st.anyGroups| && (FirstDone(st.anyGroups, tag) <= g || tag !in KeysOf(st.anyGroups[g])) ==>
            r.0.anyGroups[g] == st.anyGroups[g])
  {
    if tag in KeysOf(st.vanilla) then
      var i := Find(st.vanilla, tag);
      if st.vanilla[i].done then (st, false)
      else
        KeysOfUpdate(st.vanilla, i, Entry(tag, true));
        (st.(vanilla := st.vanilla[i := Entry(tag, true)]), true)
    else
      var marked := MarkGroups(st.anyGroups, tag);
      MarkedUnique(st.anyGroups, tag, marked.0);
      MarkedDone(st.anyGroups, tag, marked.0);
      (st.(anyGroups := marked.0), marked.1)
  }

  lemma MarkedUnique(gs: seq<seq<Entry>>, tag: string, marked: seq<seq<Entry>>)
    requires forall g :: 0 <= g < |gs| ==> UniqueKeys(gs[g])
    requires marked == MarkGroups(gs, tag).0
    ensures forall g :: 0 <= g < |marked| ==> UniqueKeys(marked[g])
  {
    assert forall g :: 0 <= g < |marked| ==> KeysOf(marked[g]) == KeysOf(gs[g]);
  }

  lemma MarkedDone(gs: seq<seq<Entry>>, tag: string, marked: seq<seq<Entry>>)
    requires forall g :: 0 <= g < |gs| ==> UniqueKeys(gs[g])
    requires marked == MarkGroups(gs, tag).0
    ensures forall g :: 0 <= g < |gs| && g < FirstDone(gs, tag) && tag in KeysOf(gs[g]) ==> DoneIn(marked[g], tag)
  {
    forall g | 0 <= g < |gs| && g < FirstDone(gs, tag) && tag in KeysOf(gs[g])
      ensures DoneIn(marked[g], tag)
    {
      var m := gs[g];
      var i := Find(m, tag);
      assert marked[g] == m[i := Entry(tag, true)];
      KeysOfUpdate(m, i, Entry(tag, true));
      assert Find(marked[g], tag) == i by {
        var j := Find(marked[g], tag);
        assert KeysOf(m)[j] == tag && KeysOf(m)[i] == tag;
      }
    }
  }

  /** A tag the function does not have changes nothing and is not an
      error. */
  lemma DischargeUnknown(st: TagState, tag: string)
    requires Valid(st)
    requires tag !in KeysOf(st.vanilla)
    requires forall g :: 0 <= g < |st.anyGroups| ==> tag !in KeysOf(st.anyGroups[g])
    ensures Discharge(st, tag) == (st, true)
  {
    var r := Discharge(st, tag);
    assert FirstDone(st.anyGroups, tag) == |st.anyGroups|;
    assert r.0.anyGroups == st.anyGroups;
  }

  // ---------------------------------------------------------------------
  // Reporting.

  function Quote(name: string): string {
    "`" + name + "`"
  }

  /** Names quoted and joined with `sep`. */
  function QuoteJoin(names: seq<string>, sep: string): (r: string)
    ensures names != [] ==> r != [] && r[0] == '`'
    ensures names == [] ==> r == []
  {
    if names == [] then []
    else if |names| == 1 then Quote(names[0])
    else Quote(names[0]) + sep + QuoteJoin(names[1..], sep)
  }

  /** Names of the entries not yet discharged, in map order. */
  function Pending(m: seq<Entry>): (r: seq<string>)
    ensures r == [] <==> forall i :: 0 <= i < |m| ==> m[i].done
    ensures forall n :: n in r ==> n in KeysOf(m)
  {
    if m == [] then []
    else
      var rest := Pending(m[1..]);
      assert forall i :: 1 <= i < |m| ==> m[i] == m[1..][i - 1];
      KeysOfCons(m);
      (if m[0].done then [] else [m[0].tag]) + rest
  }

  predicate AnyDone(m: seq<Entry>) {
    exists i :: 0 <= i < |m| && m[i].done
  }

  /** One entry per `any` group with no discharged member, its names joined
      by ", or ". */
  function AnyEntries(gs: seq<seq<Entry>>): (r: seq<string>)
    ensures r == [] <==> forall g :: 0 <= g < |gs| ==> AnyDone(gs[g])
    ensures |r| <= |gs|
  {
    if gs == [] then []
    else
      var rest := AnyEntries(gs[1..]);
      assert forall g :: 1 <= g < |gs| ==> gs[g] == gs[1..][g - 1];
      (if AnyDone(gs[0]) then [] else [QuoteJoin(KeysOf(gs[0]), ", or ")]) + rest
  }

  /** The report: the pending vanilla tags as one entry (left out when there
      are none), then one entry per undischarged `any` group. */
  function Report(st: TagState): (r: seq<string>)
    ensures |r| <= 1 + |st.anyGroups|
  {
    var pending := Pending(st.vanilla);
    (if pending == [] then [] else [QuoteJoin(pending, ", ")]) + AnyEntries(st.anyGroups)
  }

  /** Every vanilla tag discharged and every `any` group with a discharged
      member. */
  predicate FullyDischarged(st: TagState) {
    && (forall i :: 0 <= i < |st.vanilla| ==> st.vanilla[i].done)
    && (forall g :: 0 <= g < |st.anyGroups| ==> AnyDone(st.anyGroups[g]))
  }

  lemma ReportEmptyIffDischarged(st: TagState)
    ensures Report(st) == [] <==> FullyDischarged(st)
  {
  }

  /** `undischarged`: the report the first time, nothing afterwards. */
  function Undischarged(st: TagState): (r: (TagState, seq<string>))
    ensures st.reported ==> r == (st, [])
    ensures !st.reported ==> r.0 == st.(reported := true) && r.1 == Report(st)
    ensures r.0.reported
  {
    if st.reported then (st, [])
    else (st.(reported := true), Report(st))
  }

  /** A second query never reports, however the state changed in between
      through `refresh` or `discharge`. */
  lemma ReportsOnce(st: TagState, props: Properties, tags: seq<string>)
    ensures var s1 := Undischarged(st).0;
      var s2 := DischargeAll(Refresh(s1, props), tags);
      Undischarged(s2).1 == []
  {
    DischargeAllKeepsFlag(Refresh(Undischarged(st).0, props), tags);
  }

  /** `discharge` applied to each tag in turn, errors ignored. */
  function DischargeAll(st: TagState, tags: seq<string>): (r: TagState)
    requires Valid(st)
    ensures Valid(r)
    decreases |tags|
  {
    if tags == [] then st else DischargeAll(Discharge(st, tags[0]).0, tags[1..])
  }

  lemma {:induction false} DischargeAllKeepsFlag(st: TagState, tags: seq<string>)
    requires Valid(st)
    ensures DischargeAll(st, tags).reported == st.reported
    decreases |tags|
  {
    if tags != [] {
      DischargeAllKeepsFlag(Discharge(st, tags[0]).0, tags[1..]);
    }
  }

  // ---------------------------------------------------------------------
  // Collecting a function's tags.

  /** Names of the tags that are not `any`, in order. */
  function VanillaNames(tags: seq<SafetyAttr.Property>): (r: seq<string>)
    ensures |r| <= |tags|
    ensures forall n :: n in r <==> exists i :: 0 <= i < |tags| && tags[i].tag.name == n && n != Registry.Any
  {
    if tags == [] then []
    else
      var rest := VanillaNames(tags[1..]);
      assert forall i :: 1 <= i < |tags| ==> tags[i] == tags[1..][i - 1];
      (if AnyTag.ArgsInAnyTag(tags[0]).Some? then [] else [tags[0].tag.name]) + rest
  }

  /** The group an `any` tag stands for: the names of its inner tags. */
  function InnerNames(p: SafetyAttr.Property): seq<string> {
    AnyTag.Names(AnyTag.InnerTags(p.args))
  }

  /** One group of inner names per `any` tag, in order. */
  function AnyGroupsOf(tags: seq<SafetyAttr.Property>): (r: seq<seq<string>>)
    ensures |r| <= |tags|
    ensures forall g :: g in r <==> exists i :: 0 <= i < |tags| && tags[i].tag.name == Registry.Any && g == InnerNames(tags[i])
  {
    if tags == [] then []
    else
      var head :=
        match AnyTag.ArgsInAnyTag(tags[0])
        case Some(v) => [AnyTag.Names(AnyTag.Tags(v))]
        case None => [];
      var rest := AnyGroupsOf(tags[1..]);
      AnyGroupHead(tags[0]);
      assert forall i :: 1 <= i < |tags| ==> tags[i] == tags[1..][i - 1];
      head + rest
  }

  /** The group `push_attr` builds for a tag is its inner names exactly when
      the tag is `any`. */
  lemma AnyGroupHead(p: SafetyAttr.Property)
    ensures AnyTag.ArgsInAnyTag(p).Some? <==> p.tag.name == Registry.Any
    ensures AnyTag.ArgsInAnyTag(p).Some? ==> AnyTag.Names(AnyTag.Tags(AnyTag.ArgsInAnyTag(p).value)) == InnerNames(p)
  {
    if p.tag.name == Registry.Any {
      AnyTag.TagsSingle(SafetyAttr.PropertiesAndReason(AnyTag.InnerTags(p.args), None));
    }
  }

  lemma {:induction false} VanillaNamesAppend(a: seq<SafetyAttr.Property>, b: seq<SafetyAttr.Property>)
    ensures VanillaNames(a + b) == VanillaNames(a) + VanillaNames(b)
    decreases |a|
  {
    if a == [] {
      Text.AppendNil(b);
      Text.AppendNil(VanillaNames(b));
    } else {
      Text.TailAppend(a, b);
      VanillaNamesAppend(a[1..], b);
      var head := if AnyTag.ArgsInAnyTag(a[0]).Some? then [] else [a[0].tag.name];
      Text.AppendAssoc(head, VanillaNames(a[1..]), VanillaNames(b));
    }
  }

  lemma {:induction false} AnyGroupsOfAppend(a: seq<SafetyAttr.Property>, b: seq<SafetyAttr.Property>)
    ensures AnyGroupsOf(a + b) == AnyGroupsOf(a) + AnyGroupsOf(b)
    decreases |a|
  {
    if a == [] {
      Text.AppendNil(b);
      Text.AppendNil(AnyGroupsOf(b));
    } else {
      Text.TailAppend(a, b);
      AnyGroupsOfAppend(a[1..], b);
      var head :=
        match AnyTag.ArgsInAnyTag(a[0])
        case Some(v) => [AnyTag.Names(AnyTag.Tags(v))]
        case None => [];
      Text.AppendAssoc(head, AnyGroupsOf(a[1..]), AnyGroupsOf(b));
    }
  }

  /** A single tag is a vanilla name or a group, never both. */
  lemma PlacedOne(p: SafetyAttr.Property)
    ensures p.tag.name != Registry.Any ==> VanillaNames([p]) == [p.tag.name] && AnyGroupsOf([p]) == []
    ensures p.tag.name == Registry.Any ==> VanillaNames([p]) == [] && AnyGroupsOf([p]) == [InnerNames(p)]
  {
    assert [p][1..] == [];
    AnyGroupHead(p);
  }

  /** Each tag lands in exactly one of the two lists, at the position the
      tags before it leave: a tag other than `any` is the next vanilla
      name, an `any` tag the next group, holding its inner names. */
  lemma EveryTagPlacedOnce(tags: seq<SafetyAttr.Property>, i: nat)
    requires i < |tags|
    ensures |VanillaNames(tags)| + |AnyGroupsOf(tags)| == |tags|
    ensures |VanillaNames(tags[..i])| + |AnyGroupsOf(tags[..i])| == i
    ensures var v := |VanillaNames(tags[..i])|;
      tags[i].tag.name != Registry.Any ==> v < |VanillaNames(tags)| && VanillaNames(tags)[v] == tags[i].tag.name
    ensures var a := |AnyGroupsOf(tags[..i])|;
      tags[i].tag.name == Registry.Any ==> a < |AnyGroupsOf(tags)| && AnyGroupsOf(tags)[a] == InnerNames(tags[i])
  {
    PlacedCount(tags);
    PlacedCount(tags[..i]);
    assert tags == tags[..i] + ([tags[i]] + tags[i + 1..]);
    PlacedAt(tags, tags[..i], tags[i], tags[i + 1..]);
  }

  /** The splitting step of `EveryTagPlacedOnce`, over the parts. */
  lemma PlacedAt(tags: seq<SafetyAttr.Property>, before: seq<SafetyAttr.Property>, t: SafetyAttr.Property, after: seq<SafetyAttr.Property>)
    requires tags == before + ([t] + after)
    ensures t.tag.name != Registry.Any ==>
      |VanillaNames(before)| < |VanillaNames(tags)| && VanillaNames(tags)[|VanillaNames(before)|] == t.tag.name
    ensures t.tag.name == Registry.Any ==>
      |AnyGroupsOf(before)| < |AnyGroupsOf(tags)| && AnyGroupsOf(tags)[|AnyGroupsOf(before)|] == InnerNames(t)
  {
    VanillaNamesAppend(before, [t] + after);
    VanillaNamesAppend([t], after);
    AnyGroupsOfAppend(before, [t] + after);
    AnyGroupsOfAppend([t], after);
    PlacedOne(t);
  }

  /** As many names and groups as tags. */
  lemma {:induction false} PlacedCount(tags: seq<SafetyAttr.Property>)
    ensures |VanillaNames(tags)| + |AnyGroupsOf(tags)| == |tags|
    decreases |tags|
  {
    if tags != [] {
      PlacedCount(tags[1..]);
    }
  }

  /** `Properties::push_attr`: the attribute's `any` tags become groups and
      the others vanilla tags, order kept, with no duplicate check. What
      was collected before stays in front, one entry is added per tag, and
      the new vanilla names are exactly the attribute's names other than
      `any`. */
  function PushAttr(props: Properties, groups: seq<SafetyAttr.PropertiesAndReason>): (r: Properties)
    ensures |props.vanilla| <= |r.vanilla| && r.vanilla[..|props.vanilla|] == props.vanilla
    ensures |props.anyGroups| <= |r.anyGroups| && r.anyGroups[..|props.anyGroups|] == props.anyGroups
    ensures (|r.vanilla| - |props.vanilla|) + (|r.anyGroups| - |props.anyGroups|) == SafetyAttr.TagCount(groups)
    ensures forall n :: n in r.vanilla[|props.vanilla|..] <==>
      exists i :: 0 <= i < |AnyTag.Tags(groups)| && AnyTag.Tags(groups)[i].tag.name == n && n != Registry.Any
  {
    var tags := AnyTag.Tags(groups);
    var r := Properties(props.vanilla + VanillaNames(tags), props.anyGroups + AnyGroupsOf(tags));
    PlacedCount(tags);
    assert r.vanilla[..|props.vanilla|] == props.vanilla;
    assert r.vanilla[|props.vanilla|..] == VanillaNames(tags);
    assert r.anyGroups[..|props.anyGroups|] == props.anyGroups;
    r
  }

  /** Tag `i` of group `g` of an attribute lands where `push_attr` puts it:
      after the names and groups already collected and those of the tags
      before it, as a vanilla name or, for `any`, as its group of inner
      names. */
  lemma PushAttrPlaces(props: Properties, groups: seq<SafetyAttr.PropertiesAndReason>, g: nat, i: nat)
    requires g < |groups| && i < |groups[g].tags|
    ensures var t := groups[g].tags[i];
      var before := AnyTag.Tags(groups)[..SafetyAttr.Offset(groups, g) + i];
      var r := PushAttr(props, groups);
      && (t.tag.name != Registry.Any ==>
            |props.vanilla| + |VanillaNames(before)| < |r.vanilla|
            && r.vanilla[|props.vanilla| + |VanillaNames(before)|] == t.tag.name)
      && (t.tag.name == Registry.Any ==>
            |props.anyGroups| + |AnyGroupsOf(before)| < |r.anyGroups|
            && r.anyGroups[|props.anyGroups| + |AnyGroupsOf(before)|] == InnerNames(t))
  {
    var tags := AnyTag.Tags(groups);
    var k := SafetyAttr.Offset(groups, g) + i;
    AnyTag.TagsAt(groups, g, i);
    EveryTagPlacedOnce(tags, k);
    PushAttrParts(props, groups);
    var r := PushAttr(props, groups);
    Text.IndexAppend(props.vanilla, VanillaNames(tags), |VanillaNames(tags[..k])|);
    Text.IndexAppend(props.anyGroups, AnyGroupsOf(tags), |AnyGroupsOf(tags[..k])|);
  }

  lemma PushAttrParts(props: Properties, groups: seq<SafetyAttr.PropertiesAndReason>)
    ensures PushAttr(props, groups).vanilla == props.vanilla + VanillaNames(AnyTag.Tags(groups))
    ensures PushAttr(props, groups).anyGroups == props.anyGroups + AnyGroupsOf(AnyTag.Tags(groups))
  {
  }

  /** `push_attr` over every tool attribute of a function: a name is
      vanilla, and a group is an `any` group, exactly when some attribute
      contributes it. */
  function PropertiesOf(attrs: seq<seq<SafetyAttr.PropertiesAndReason>>): (r: Properties)
    ensures forall n :: n in r.vanilla <==> exists k :: 0 <= k < |attrs| && n in VanillaNames(AnyTag.Tags(attrs[k]))
    ensures forall g :: g in r.anyGroups <==> exists k :: 0 <= k < |attrs| && g in AnyGroupsOf(AnyTag.Tags(attrs[k]))
    decreases |attrs|
  {
    if attrs == [] then Properties([], [])
    else
      var init := attrs[..|attrs| - 1];
      var last := attrs[|attrs| - 1];
      var prev := PropertiesOf(init);
      PushAttrParts(prev, last);
      var tags := AnyTag.Tags(last);
      VanillaSnoc(attrs, init, prev.vanilla, prev.vanilla + VanillaNames(tags));
      AnyGroupsSnoc(attrs, init, prev.anyGroups, prev.anyGroups + AnyGroupsOf(tags));
      PushAttr(prev, last)
  }

  /** The vanilla names of all attributes but the last, followed by those
      of the last, are the names some attribute contributes. */
  lemma VanillaSnoc(attrs: seq<seq<SafetyAttr.PropertiesAndReason>>, init: seq<seq<SafetyAttr.PropertiesAndReason>>,
                    prev: seq<string>, all: seq<string>)
    requires attrs != [] && init == attrs[..|attrs| - 1]
    requires all == prev + VanillaNames(AnyTag.Tags(attrs[|attrs| - 1]))
    requires forall n :: n in prev <==> exists k :: 0 <= k < |init| && n in VanillaNames(AnyTag.Tags(init[k]))
    ensures forall n :: n in all <==> exists k :: 0 <= k < |attrs| && n in VanillaNames(AnyTag.Tags(attrs[k]))
  {
    forall n | n in prev
      ensures exists k :: 0 <= k < |attrs| && n in VanillaNames(AnyTag.Tags(attrs[k]))
    {
      var k :| 0 <= k < |init| && n in VanillaNames(AnyTag.Tags(init[k]));
      assert init[k] == attrs[k];
    }
    forall k, n | 0 <= k < |init| && n in VanillaNames(AnyTag.Tags(attrs[k]))
      ensures n in prev
    {
      assert init[k] == attrs[k];
    }
  }

  /** The same for the `any` groups. */
  lemma AnyGroupsSnoc(attrs: seq<seq<SafetyAttr.PropertiesAndReason>>, init: seq<seq<SafetyAttr.PropertiesAndReason>>,
                      prev: seq<seq<string>>, all: seq<seq<string>>)
    requires attrs != [] && init == attrs[..|attrs| - 1]
    requires all == prev + AnyGroupsOf(AnyTag.Tags(attrs[|attrs| - 1]))
    requires forall g :: g in prev <==> exists k :: 0 <= k < |init| && g in AnyGroupsOf(AnyTag.Tags(init[k]))
    ensures forall g :: g in all <==> exists k :: 0 <= k < |attrs| && g in AnyGroupsOf(AnyTag.Tags(attrs[k]))
  {
    forall g | g in prev
      ensures exists k :: 0 <= k < |attrs| && g in AnyGroupsOf(AnyTag.Tags(attrs[k]))
    {
      var k :| 0 <= k < |init| && g in AnyGroupsOf(AnyTag.Tags(init[k]));
      assert init[k] == attrs[k];
    }
    forall k, g | 0 <= k < |init| && g in AnyGroupsOf(AnyTag.Tags(attrs[k]))
      ensures g in prev
    {
      assert init[k] == attrs[k];
    }
  }

  /** `push_properties`: every tag's name, `any` included, in order. */
  function PushProperties(v: seq<string>, groups: seq<SafetyAttr.PropertiesAndReason>): (r: seq<string>)
    ensures |r| == |v| + SafetyAttr.TagCount(groups)
    ensures r[..|v|] == v
    ensures forall g, i :: 0 <= g < |groups| && 0 <= i < |groups[g].tags| ==>
      r[|v| + SafetyAttr.Offset(groups, g) + i] == groups[g].tags[i].tag.name
  {
    var r := v + AnyTag.Names(AnyTag.Tags(groups));
    forall g, i | 0 <= g < |groups| && 0 <= i < |groups[g].tags|
      ensures r[|v| + SafetyAttr.Offset(groups, g) + i] == groups[g].tags[i].tag.name
    {
      AnyTag.TagsAt(groups, g, i);
    }
    r
  }

  // ---------------------------------------------------------------------
  // The per-crate table.

  /** Stand-in for a definition's path hash. */
  datatype PrimaryKey = PrimaryKey(hash1: nat, hash2: nat)

  /** A function with its tool attributes, each already parsed into
      groups. */
  datatype Data = Data(hash: PrimaryKey, toolAttrs: seq<seq<SafetyAttr.PropertiesAndReason>>)

  /** `ToolAttrs`: the tags of every tagged function and the one tracker
      shared by all calls. */
  datatype ToolAttrs = ToolAttrs(props: map<PrimaryKey, Properties>, tagged: TagState)

  predicate Tagged(d: Data) {
    d.toolAttrs != []
  }

  /** `data[i]` is the last tagged entry for its key. */
  predicate LastTagged(data: seq<Data>, i: nat)
    requires i < |data|
  {
    Tagged(data[i]) && forall j :: i < j < |data| ==> data[j].hash != data[i].hash || !Tagged(data[j])
  }

  function Collect(data: seq<Data>): (m: map<PrimaryKey, Properties>)
    ensures forall k :: k in m <==> exists i :: 0 <= i < |data| && data[i].hash == k && Tagged(data[i])
    ensures forall i :: 0 <= i < |data| && LastTagged(data, i) ==> m[data[i].hash] == PropertiesOf(data[i].toolAttrs)
    decreases |data|
  {
    if data == [] then map[]
    else
      var init := data[..|data| - 1];
      var last := data[|data| - 1];
      var m := Collect(init);
      CollectStep(data, init, m);
      if !Tagged(last) then m else m[last.hash := PropertiesOf(last.toolAttrs)]
  }

  lemma CollectStep(data: seq<Data>, init: seq<Data>, m: map<PrimaryKey, Properties>)
    requires data != [] && init == data[..|data| - 1]
    requires forall k :: k in m <==> exists i :: 0 <= i < |init| && init[i].hash == k && Tagged(init[i])
    requires forall i :: 0 <= i < |init| && LastTagged(init, i) ==> m[init[i].hash] == PropertiesOf(init[i].toolAttrs)
    ensures var last := data[|data| - 1];
      var m2 := if !Tagged(last) then m else m[last.hash := PropertiesOf(last.toolAttrs)];
      && (forall k :: k in m2 <==> exists i :: 0 <= i < |data| && data[i].hash == k && Tagged(data[i]))
      && (forall i :: 0 <= i < |data| && LastTagged(data, i) ==> m2[data[i].hash] == PropertiesOf(data[i].toolAttrs))
  {
    var last := data[|data| - 1];
    var m2 := if !Tagged(last) then m else m[last.hash := PropertiesOf(last.toolAttrs)];
    CollectStepKeys(data, init, m, m2);
    assert forall i :: 0 <= i < |init| && Tagged(init[i]) ==> init[i].hash in m;
    CollectStepValues(data, init, m, m2);
  }

  lemma CollectStepKeys(data: seq<Data>, init: seq<Data>, m: map<PrimaryKey, Properties>, m2: map<PrimaryKey, Properties>)
    requires data != [] && init == data[..|data| - 1]
    requires forall k :: k in m <==> exists i :: 0 <= i < |init| && init[i].hash == k && Tagged(init[i])
    requires var last := data[|data| - 1];
      m2 == if !Tagged(last) then m else m[last.hash := PropertiesOf(last.toolAttrs)]
    ensures forall k :: k in m2 <==> exists i :: 0 <= i < |data| && data[i].hash == k && Tagged(data[i])
  {
    var n := |data| - 1;
    forall k ensures k in m2 <==> exists i :: 0 <= i < |data| && data[i].hash == k && Tagged(data[i]) {
      if k in m2 {
        if k in m {
          var i :| 0 <= i < |init| && init[i].hash == k && Tagged(init[i]);
          assert data[i] == init[i];
        } else {
          assert data[n].hash == k && Tagged(data[n]);
        }
      }
      if exists i :: 0 <= i < |data| && data[i].hash == k && Tagged(data[i]) {
        var i :| 0 <= i < |data| && data[i].hash == k && Tagged(data[i]);
        if i < n {
          assert init[i] == data[i];
        }
      }
    }
  }

  lemma CollectStepValues(data: seq<Data>, init: seq<Data>, m: map<PrimaryKey, Properties>, m2: map<PrimaryKey, Properties>)
    requires data != [] && init == data[..|data| - 1]
    requires forall i :: 0 <= i < |init| && Tagged(init[i]) ==> init[i].hash in m
    requires forall i :: 0 <= i < |init| && LastTagged(init, i) ==> m[init[i].hash] == PropertiesOf(init[i].toolAttrs)
    requires var last := data[|data| - 1];
      m2 == if !Tagged(last) then m else m[last.hash := PropertiesOf(last.toolAttrs)]
    ensures forall i :: 0 <= i < |data| && LastTagged(data, i) ==> data[i].hash in m2 && m2[data[i].hash] == PropertiesOf(data[i].toolAttrs)
  {
    if Tagged(data[|data| - 1]) {
      ValuesTagged(data, init, m);
    } else {
      ValuesUntagged(data, init, m);
    }
  }

  lemma ValuesUntagged(data: seq<Data>, init: seq<Data>, m: map<PrimaryKey, Properties>)
    requires data != [] && init == data[..|data| - 1] && !Tagged(data[|data| - 1])
    requires forall i :: 0 <= i < |init| && Tagged(init[i]) ==> init[i].hash in m
    requires forall i :: 0 <= i < |init| && LastTagged(init, i) ==> m[init[i].hash] == PropertiesOf(init[i].toolAttrs)
    ensures forall i :: 0 <= i < |data| && LastTagged(data, i) ==> data[i].hash in m && m[data[i].hash] == PropertiesOf(data[i].toolAttrs)
  {
    forall i | 0 <= i < |data| && LastTagged(data, i)
      ensures data[i].hash in m && m[data[i].hash] == PropertiesOf(data[i].toolAttrs)
    {
      EarlierLastTagged(data, init, i);
    }
  }

  lemma ValuesTagged(data: seq<Data>, init: seq<Data>, m: map<PrimaryKey, Properties>)
    requires data != [] && init == data[..|data| - 1] && Tagged(data[|data| - 1])
    requires forall i :: 0 <= i < |init| && Tagged(init[i]) ==> init[i].hash in m
    requires forall i :: 0 <= i < |init| && LastTagged(init, i) ==> m[init[i].hash] == PropertiesOf(init[i].toolAttrs)
    ensures var last := data[|data| - 1];
      var m2 := m[last.hash := PropertiesOf(last.toolAttrs)];
      forall i :: 0 <= i < |data| && LastTagged(data, i) ==> data[i].hash in m2 && m2[data[i].hash] == PropertiesOf(data[i].toolAttrs)
  {
    var last := data[|data| - 1];
    var m2 := m[last.hash := PropertiesOf(last.toolAttrs)];
    forall i | 0 <= i < |data| && LastTagged(data, i)
      ensures data[i].hash in m2 && m2[data[i].hash] == PropertiesOf(data[i].toolAttrs)
    {
      if i < |data| - 1 {
        EarlierLastTagged(data, init, i);
      }
    }
  }

  /** An entry before the last one that is last tagged for its key in
      `data` is so in `init` too, and the last entry does not share its
      key unless untagged. */
  lemma EarlierLastTagged(data: seq<Data>, init: seq<Data>, i: nat)
    requires data != [] && init == data[..|data| - 1] && i < |init|
    requires LastTagged(data, i)
    ensures init[i] == data[i] && LastTagged(init, i)
    ensures data[i].hash != data[|data| - 1].hash || !Tagged(data[|data| - 1])
  {
    forall j | i < j < |init| ensures init[j].hash != init[i].hash || !Tagged(init[j]) {
      assert init[j] == data[j];
    }
  }


  /** `ToolAttrs::new`: only functions with tool attributes get an entry; a
      later entry for the same key replaces an earlier one. */
  function NewToolAttrs(data: seq<Data>): (r: ToolAttrs)
    ensures r.tagged == Initial
    ensures forall k :: k in r.props <==> exists i :: 0 <= i < |data| && data[i].hash == k && Tagged(data[i])
    ensures forall i :: 0 <= i < |data| && LastTagged(data, i) ==> r.props[data[i].hash] == PropertiesOf(data[i].toolAttrs)
  {
    ToolAttrs(Collect(data), Initial)
  }

  /** `get_tags_via_key`: the shared tracker refreshed with the callee's
      tags, or nothing for an untagged callee. */
  function GetTagsViaKey(ta: ToolAttrs, key: PrimaryKey): (r: (ToolAttrs, bool))
    ensures key !in ta.props ==> r == (ta, false)
    ensures key in ta.props ==> r.1 && r.0.props == ta.props && r.0.tagged == Refresh(ta.tagged, ta.props[key])
  {
    if key in ta.props then (ta.(tagged := Refresh(ta.tagged, ta.props[key])), true)
    else (ta, false)
  }
}
