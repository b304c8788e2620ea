/** Usage statistics of safety tags: for every registered tag, how often it
    was used as a plain ("vanilla") tag or inside `any`, and under which
    predicate. Counters are `u16` in insertion-ordered maps. */
module Stats {
  import opened Outcome
  import Registry
  import SafetyAttr
  import AnyTag

  // ---------------------------------------------------------------------
  // Counters.

  const U16Limit: int := 0x1_0000

  newtype U16 = x: int | 0 <= x < 0x1_0000

  /** `u16` increment with wrap-around, as in a build without overflow
      checks. */
  function Inc(x: U16): (r: U16)
    ensures x as int + 1 < U16Limit ==> r as int == x as int + 1
    ensures x as int + 1 == U16Limit ==> r == 0
  {
    ((x as int + 1) % U16Limit) as U16
  }

  /** The value of key `k` in an insertion-ordered map, if present. */
  function Lookup<K(==)>(m: seq<(K, U16)>, k: K): Option<U16> {
    if m == [] then None else if m[0].0 == k then Some(m[0].1) else Lookup(m[1..], k)
  }

  function Keys<K>(m: seq<(K, U16)>): (r: seq<K>)
    ensures |r| == |m| && forall i :: 0 <= i < |m| ==> r[i] == m[i].0
  {
    seq(|m|, i requires 0 <= i < |m| => m[i].0)
  }

  /** `entry(k).and_modify(|c| *c += 1).or_insert(0)`: an existing counter
      goes up by one in place, a missing one is appended at 0. */
  function Bump<K(==,!new)>(m: seq<(K, U16)>, k: K): (r: seq<(K, U16)>)
    ensures Lookup(m, k).None? ==> Keys(r) == Keys(m) + [k]
    ensures Lookup(m, k).Some? ==> Keys(r) == Keys(m)
  {
    if m == [] then [(k, 0)]
    else if m[0].0 == k then
      var r := [(k, Inc(m[0].1))] + m[1..];
      assert Keys(r) == Keys(m);
      r
    else
      var rest := Bump(m[1..], k);
      var r := [m[0]] + rest;
      assert Keys(m) == [m[0].0] + Keys(m[1..]);
      assert Keys(r) == [m[0].0] + Keys(rest);
      r
  }

  /** Bumping a key moves only that key's counter: up by one, or in at 0. */
  lemma {:induction false} BumpLookup<K(!new)>(m: seq<(K, U16)>, k: K, j: K)
    ensures Lookup(Bump(m, k), j) ==
      if j != k then Lookup(m, j)
      else if Lookup(m, k).None? then Some(0) else Some(Inc(Lookup(m, k).value))
  {
    if m != [] {
      var r := Bump(m, k);
      if m[0].0 == k {
        assert r[1..] == m[1..];
      } else {
        BumpLookup(m[1..], k, j);
        assert r[1..] == Bump(m[1..], k);
      }
    }
  }

  /** The counter after `c` increments, starting from `v`: the first
      increment of a missing counter inserts 0. */
  function BumpedBy(v: Option<U16>, c: nat): Option<U16>
    decreases c
  {
    if c == 0 then v else BumpedBy(Some(if v.None? then 0 else Inc(v.value)), c - 1)
  }

  /** An existing counter advances by `c`, modulo 2^16. */
  lemma {:induction false} BumpedBySome(x: U16, c: nat)
    ensures BumpedBy(Some(x), c) == Some(((x as int + c) % U16Limit) as U16)
    decreases c
  {
    if c > 0 {
      BumpedBySome(Inc(x), c - 1);
      assert ((x as int + 1) % U16Limit + (c - 1)) % U16Limit == (x as int + c) % U16Limit;
    }
  }

  /** A counter absent after no increment, and otherwise holding `c - 1`
      modulo 2^16. */
  predicate LessOne(v: Option<U16>, c: nat) {
    && (c == 0 ==> v.None?)
    && (c > 0 ==> v.Some? && v.value as int == (c - 1) % U16Limit)
  }

  /** A missing counter lags the number of increments by one. */
  lemma BumpedByNone(c: nat)
    ensures LessOne(BumpedBy(None, c), c)
  {
    if c > 0 {
      BumpedBySome(0, c - 1);
    }
  }

  // ---------------------------------------------------------------------
  // Tags, functions and the specification table.

  datatype TagTypeUsage = VanillaUse | AnyUse

  datatype Predicate = Requires | Checked | Delegated

  datatype Usage = Usage(types: seq<(TagTypeUsage, U16)>, predicates: seq<(Predicate, U16)>)

  const EmptyUsage := Usage([], [])

  datatype SpecItem = SpecItem(item: Registry.Key, usage: Usage)

  /** `Spec`: one item per registered tag, in registry order, and the
      documentation flags. */
  datatype Spec = Spec(names: seq<string>, items: map<string, SpecItem>, doc: Registry.GenDocOption)

  /** `Spec::new`: every registered tag with no usage yet. */
  function NewSpec(reg: Registry.Registry): (s: Spec)
    ensures s.names == reg.names && s.doc == reg.doc
    ensures forall n :: n in s.items <==> n in reg.keys
    ensures forall n :: n in s.items ==> s.items[n] == SpecItem(reg.keys[n], EmptyUsage)
  {
    Spec(reg.names, map n | n in reg.keys :: SpecItem(reg.keys[n], EmptyUsage), reg.doc)
  }

  datatype TagType = VanillaType(prop: SafetyAttr.Property) | AnyType(groups: seq<SafetyAttr.PropertiesAndReason>)

  datatype Tag = Tag(pred: Predicate, tag: TagType, doc: Option<string>)

  /** `Tag::requires_vanilla`. */
  function RequiresVanilla(prop: SafetyAttr.Property): (t: Tag)
    ensures t.pred == Requires && t.doc.None? && t.tag.VanillaType? && t.tag.prop == prop
  {
    Tag(Requires, VanillaType(prop), None)
  }

  /** `Tag::requires_any`. */
  function RequiresAny(groups: seq<SafetyAttr.PropertiesAndReason>): (t: Tag)
    ensures t.pred == Requires && t.doc.None? && t.tag.AnyType? && t.tag.groups == groups
  {
    Tag(Requires, AnyType(groups), None)
  }

  datatype Func = Func(name: string, tags: seq<Tag>, path: string, span: string, unsafeCalls: seq<Func>)

  // ---------------------------------------------------------------------
  // Metrics.

  /** One counter increment: a tag name, its type usage and predicate. */
  datatype Use = Use(name: string, typ: TagTypeUsage, pred: Predicate)

  /** The increments one tag causes: one for a vanilla tag, one per inner
      tag of every group for an `any` tag. */
  function TagUses(t: Tag): (r: seq<Use>)
    ensures t.tag.VanillaType? ==> r == [Use(t.tag.prop.tag.name, VanillaUse, t.pred)]
    ensures t.tag.AnyType? ==> |r| == SafetyAttr.TagCount(t.tag.groups)
    ensures t.tag.AnyType? ==>
      forall i :: 0 <= i < |r| ==> r[i] == Use(AnyTag.Tags(t.tag.groups)[i].tag.name, AnyUse, t.pred)
  {
    match t.tag
    case VanillaType(p) => [Use(p.tag.name, VanillaUse, t.pred)]
    case AnyType(gs) =>
      var inner := AnyTag.Tags(gs);
      seq(|inner|, i requires 0 <= i < |inner| => Use(inner[i].tag.name, AnyUse, t.pred))
  }

  function TagsUses(tags: seq<Tag>): seq<Use> {
    if tags == [] then [] else TagUses(tags[0]) + TagsUses(tags[1..])
  }

  /** The increments of `update_metrics`, in order: the functions' own
      tags, not those of their unsafe calls. */
  function FuncsUses(funcs: seq<Func>): seq<Use> {
    if funcs == [] then [] else TagsUses(funcs[0].tags) + FuncsUses(funcs[1..])
  }

  datatype StatError = NotInSpec(name: string)

  /** `Spec::get_usage_mut`, which aborts for an unregistered name. */
  function GetUsage(spec: Spec, name: string): (r: Result<Usage, StatError>)
    ensures r.Ok? <==> name in spec.items
    ensures r.Ok? ==> r.value == spec.items[name].usage
    ensures r.Err? ==> r.error == NotInSpec(name)
  {
    if name in spec.items then Ok(spec.items[name].usage) else Err(NotInSpec(name))
  }

  /** One increment of the type counter and of the predicate counter. */
  function ApplyUse(spec: Spec, u: Use): (r: Result<Spec, StatError>)
    ensures r.Ok? <==> u.name in spec.items
  {
    var usage :- GetUsage(spec, u.name);
    var item := spec.items[u.name].(usage := Usage(Bump(usage.types, u.typ), Bump(usage.predicates, u.pred)));
    Ok(spec.(items := spec.items[u.name := item]))
  }

  /** Same shape: names, doc flags, registered tags and their keys. */
  predicate SameShape(a: Spec, b: Spec) {
    && a.names == b.names && a.doc == b.doc
    && a.items.Keys == b.items.Keys
    && (forall n :: n in a.items ==> a.items[n].item == b.items[n].item)
  }

  /** Every increment names a registered tag. */
  predicate AllRegistered(spec: Spec, uses: seq<Use>) {
    forall i :: 0 <= i < |uses| ==> uses[i].name in spec.items
  }

  function ApplyUses(spec: Spec, uses: seq<Use>): (r: Result<Spec, StatError>)
    ensures r.Ok? <==> AllRegistered(spec, uses)
    ensures r.Ok? ==> SameShape(spec, r.value)
    decreases |uses|
  {
    if uses == [] then Ok(spec)
    else
      var s :- ApplyUse(spec, uses[0]);
      assert forall i :: 1 <= i < |uses| ==> uses[i] == uses[1..][i - 1];
      ApplyUses(s, uses[1..])
  }

  /** `Stat::update_metrics`. */
  function UpdateMetrics(spec: Spec, funcs: seq<Func>): (r: Result<Spec, StatError>)
    ensures r.Ok? <==> AllRegistered(spec, FuncsUses(funcs))
    ensures r.Ok? ==> SameShape(spec, r.value)
  {
    ApplyUses(spec, FuncsUses(funcs))
  }

  function CountType(uses: seq<Use>, name: string, t: TagTypeUsage): nat {
    if uses == [] then 0
    else (if uses[0].name == name && uses[0].typ == t then 1 else 0) + CountType(uses[1..], name, t)
  }

  function CountPred(uses: seq<Use>, name: string, p: Predicate): nat {
    if uses == [] then 0
    else (if uses[0].name == name && uses[0].pred == p then 1 else 0) + CountPred(uses[1..], name, p)
  }

  /** One increment advances the two counters it names and no other. */
  lemma ApplyUseCounts(spec: Spec, u: Use, name: string, t: TagTypeUsage, p: Predicate)
    requires u.name in spec.items && name in spec.items
    ensures var after := ApplyUse(spec, u).value.items[name].usage;
      var before := spec.items[name].usage;
      && Lookup(after.types, t) == BumpedBy(Lookup(before.types, t), if u.name == name && u.typ == t then 1 else 0)
      && Lookup(after.predicates, p) == BumpedBy(Lookup(before.predicates, p), if u.name == name && u.pred == p then 1 else 0)
  {
    var before := spec.items[name].usage;
    if u.name == name {
      BumpLookup(before.types, u.typ, t);
      BumpLookup(before.predicates, u.pred, p);
    }
  }

  /** Advancing by at most one and then by `c` is advancing by the sum. */
  lemma BumpedByAdd(v: Option<U16>, w: Option<U16>, x: Option<U16>, d: nat, c: nat)
    requires d <= 1 && w == BumpedBy(v, d) && x == BumpedBy(w, c)
    ensures x == BumpedBy(v, d + c)
  {
    if d == 1 {
      assert BumpedBy(v, 1 + c) == BumpedBy(Some(if v.None? then 0 else Inc(v.value)), c);
    }
  }

  /** Each counter ends up advanced by the number of increments aimed at
      it. */
  lemma {:induction false} ApplyUsesCounts(spec: Spec, uses: seq<Use>, name: string, t: TagTypeUsage, p: Predicate)
    requires ApplyUses(spec, uses).Ok? && name in spec.items
    ensures var u := ApplyUses(spec, uses).value.items[name].usage;
      && Lookup(u.types, t) == BumpedBy(Lookup(spec.items[name].usage.types, t), CountType(uses, name, t))
      && Lookup(u.predicates, p) == BumpedBy(Lookup(spec.items[name].usage.predicates, p), CountPred(uses, name, p))
    decreases |uses|
  {
    if uses == [] {
      assert CountType(uses, name, t) == 0 && CountPred(uses, name, p) == 0;
    } else {
      ApplyUsesCons(spec, uses);
      var s := ApplyUse(spec, uses[0]).value;
      ApplyUsesCounts(s, uses[1..], name, t, p);
      ApplyUseCounts(spec, uses[0], name, t, p);
      CountsCons(uses, name, t, p);
      var u := uses[0];
      var before := spec.items[name].usage;
      var mid := s.items[name].usage;
      var after := ApplyUses(s, uses[1..]).value.items[name].usage;
      BumpedByAdd(Lookup(before.types, t), Lookup(mid.types, t), Lookup(after.types, t),
                  if u.name == name && u.typ == t then 1 else 0, CountType(uses[1..], name, t));
      BumpedByAdd(Lookup(before.predicates, p), Lookup(mid.predicates, p), Lookup(after.predicates, p),
                  if u.name == name && u.pred == p then 1 else 0, CountPred(uses[1..], name, p));
    }
  }

  lemma ApplyUsesCons(spec: Spec, uses: seq<Use>)
    requires uses != [] && ApplyUses(spec, uses).Ok?
    ensures ApplyUse(spec, uses[0]).Ok?
    ensures ApplyUses(spec, uses) == ApplyUses(ApplyUse(spec, uses[0]).value, uses[1..])
  {
  }

  lemma CountsCons(uses: seq<Use>, name: string, t: TagTypeUsage, p: Predicate)
    requires uses != []
    ensures CountType(uses, name, t) == (if uses[0].name == name && uses[0].typ == t then 1 else 0) + CountType(uses[1..], name, t)
    ensures CountPred(uses, name, p) == (if uses[0].name == name && uses[0].pred == p then 1 else 0) + CountPred(uses[1..], name, p)
  {
  }

  /** Starting from `Spec::new`, a counter is absent when its tag was never
      used that way, and otherwise holds the number of uses less one. */
  lemma MetricsCountUsesLessOne(reg: Registry.Registry, funcs: seq<Func>, name: string, t: TagTypeUsage, p: Predicate)
    requires UpdateMetrics(NewSpec(reg), funcs).Ok? && name in reg.keys
    ensures var u := UpdateMetrics(NewSpec(reg), funcs).value.items[name].usage;
      && LessOne(Lookup(u.types, t), CountType(FuncsUses(funcs), name, t))
      && LessOne(Lookup(u.predicates, p), CountPred(FuncsUses(funcs), name, p))
  {
    var spec := NewSpec(reg);
    var uses := FuncsUses(funcs);
    var before := spec.items[name].usage;
    assert Lookup(before.types, t) == None && Lookup(before.predicates, p) == None;
    ApplyUsesCounts(spec, uses, name, t, p);
    BumpedByNone(CountType(uses, name, t));
    BumpedByNone(CountPred(uses, name, p));
  }
}
