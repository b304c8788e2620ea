/** The tag registry: tag tables read from one or more TOML documents are
    merged into one map from tag name to definition, keyed in sorted order,
    together with the OR of every document's doc-generation flags. The
    documents arrive already deserialized; reading and parsing the files is
    outside the model. */
module Registry {
  import opened Outcome
  import Text

  /** Reserved name of the built-in `any` tag. */
  const Any: string := "any"

  datatype TagType = Precond | Hazard | Option

  /** The lower-case spelling a TOML document uses for a tag type. */
  function TagTypeName(t: TagType): string {
    match t
    case Precond => "precond"
    case Hazard => "hazard"
    case Option => "option"
  }

  /** `TagType::new`: exact match, any other spelling is fatal. */
  function ParseTagType(s: string): (r: Result<TagType, string>)
    ensures r.Ok? <==> s in {"precond", "hazard", "option"}
    ensures r.Ok? ==> TagTypeName(r.value) == s
  {
    if s == "precond" then Ok(Precond)
    else if s == "hazard" then Ok(Hazard)
    else if s == "option" then Ok(Option)
    else Err("Only support: precond, hazard, and option.")
  }

  lemma TagTypeRoundTrip(t: TagType)
    ensures ParseTagType(TagTypeName(t)) == Ok(t)
  {
  }

  /** Types given to a tag whose document omits `types`. */
  const DefaultTypes: seq<TagType> := [Precond]

  datatype Tag = Tag(
    args: seq<string>,
    desc: Option<string>,
    expr: Option<string>,
    types: seq<TagType>,
    url: Option<string>)

  /** A tag definition as written in a document, before the serde defaults
      for absent fields are filled in. */
  datatype TagFields = TagFields(
    args: Option<seq<string>>,
    desc: Option<string>,
    expr: Option<string>,
    types: Option<seq<TagType>>,
    url: Option<string>)

  function Deserialize(f: TagFields): (t: Tag)
    ensures f.args.None? ==> t.args == []
    ensures f.types.None? ==> t.types == DefaultTypes
    ensures f.args.Some? ==> t.args == f.args.value
    ensures f.types.Some? ==> t.types == f.types.value
    ensures t.desc == f.desc && t.expr == f.expr && t.url == f.url
  {
    Tag(f.args.GetOr([]), f.desc, f.expr, f.types.GetOr(DefaultTypes), f.url)
  }

  datatype GenDocOption = GenDocOption(headingSafetyTitle: bool, headingTag: bool)

  const NoDocOption := GenDocOption(false, false)

  /** `GenDocOption::merge`: a flag becomes true when the other side has it. */
  function Merge(self: GenDocOption, other: GenDocOption): (r: GenDocOption)
    ensures self.headingSafetyTitle ==> r.headingSafetyTitle
    ensures self.headingTag ==> r.headingTag
    ensures other.headingSafetyTitle ==> r.headingSafetyTitle
    ensures other.headingTag ==> r.headingTag
    ensures r.headingSafetyTitle ==> self.headingSafetyTitle || other.headingSafetyTitle
    ensures r.headingTag ==> self.headingTag || other.headingTag
  {
    GenDocOption(
      if other.headingSafetyTitle then true else self.headingSafetyTitle,
      if other.headingTag then true else self.headingTag)
  }

  datatype Package = Package(name: string, version: Option<string>, crateName: Option<string>)

  /** One TOML document: its `[tag.*]` tables in document order. */
  datatype Configuration = Configuration(
    package: Option<Package>,
    tags: seq<(string, Tag)>,
    doc: GenDocOption)

  /** A document together with the path it was read from. */
  datatype Source = Source(config: Configuration, path: string)

  /** A registered tag and the document that defined it. */
  datatype Key = Key(tag: Tag, src: string)

  datatype LoadError =
    | ReservedAny(path: string)
    | Redefined(name: string, previous: Key)

  /** The loaded registry. `names` is the key order of the source's
      IndexMap; `keys` its contents. */
  datatype Registry = Registry(names: seq<string>, keys: map<string, Key>, doc: GenDocOption)

  /** The names occurring in `tags`, in order. */
  function NamesOf(tags: seq<(string, Tag)>): (r: seq<string>)
    ensures |r| == |tags|
    ensures forall i :: 0 <= i < |tags| ==> r[i] == tags[i].0
  {
    if tags == [] then [] else [tags[0].0] + NamesOf(tags[1..])
  }

  /** Every tag name defined by `sources`, document after document. */
  function AllNames(sources: seq<Source>): seq<string> {
    if sources == [] then [] else NamesOf(sources[0].config.tags) + AllNames(sources[1..])
  }

  predicate SetsFlagTitle(sources: seq<Source>) {
    exists i :: 0 <= i < |sources| && sources[i].config.doc.headingSafetyTitle
  }

  predicate SetsFlagTag(sources: seq<Source>) {
    exists i :: 0 <= i < |sources| && sources[i].config.doc.headingTag
  }

  /** Partial registry built while loading: names in insertion order. */
  datatype Acc = Acc(names: seq<string>, keys: map<string, Key>) {
    predicate Valid() {
      && Text.Distinct(names)
      && (forall n :: n in names ==> n in keys)
      && (forall n :: n in keys ==> n in names)
    }
  }

  lemma DistinctAppend(a: seq<string>, x: string, rest: seq<string>)
    requires Text.Distinct(a)
    ensures Text.Distinct(a + [x] + rest) <==> x !in a && Text.Distinct(a + [x]) && Text.Distinct(a + [x] + rest)
    ensures x !in a ==> Text.Distinct(a + [x])
    ensures x in a ==> !Text.Distinct(a + [x] + rest)
  {
    if x in a {
      var k :| 0 <= k < |a| && a[k] == x;
      assert (a + [x] + rest)[k] == (a + [x] + rest)[|a|];
    }
  }

  lemma DistinctOfPrefix(x: seq<string>, y: seq<string>)
    requires Text.Distinct(x + y)
    ensures Text.Distinct(x)
  {
    forall i, j | 0 <= i < j < |x|
      ensures x[i] != x[j]
    {
      assert (x + y)[i] == x[i] && (x + y)[j] == x[j];
    }
  }

  lemma FlagsCons(sources: seq<Source>)
    requires sources != []
    ensures SetsFlagTitle(sources) <==> sources[0].config.doc.headingSafetyTitle || SetsFlagTitle(sources[1..])
    ensures SetsFlagTag(sources) <==> sources[0].config.doc.headingTag || SetsFlagTag(sources[1..])
  {
    if SetsFlagTitle(sources[1..]) {
      var k :| 0 <= k < |sources[1..]| && sources[1..][k].config.doc.headingSafetyTitle;
      assert sources[k + 1] == sources[1..][k];
    }
    if SetsFlagTitle(sources) && !sources[0].config.doc.headingSafetyTitle {
      var k :| 0 <= k < |sources| && sources[k].config.doc.headingSafetyTitle;
      assert sources[1..][k - 1] == sources[k];
    }
    if SetsFlagTag(sources[1..]) {
      var k :| 0 <= k < |sources[1..]| && sources[1..][k].config.doc.headingTag;
      assert sources[k + 1] == sources[1..][k];
    }
    if SetsFlagTag(sources) && !sources[0].config.doc.headingTag {
      var k :| 0 <= k < |sources| && sources[k].config.doc.headingTag;
      assert sources[1..][k - 1] == sources[k];
    }
  }

  /** Adds one document's tags in order, failing on `any` (when
      `rejectAny`) or on a name already present. */
  function AddTags(acc: Acc, tags: seq<(string, Tag)>, path: string, rejectAny: bool): (r: Result<Acc, LoadError>)
    requires acc.Valid()
    ensures r.Ok? <==>
      Text.Distinct(acc.names + NamesOf(tags)) && (rejectAny ==> Any !in NamesOf(tags))
    ensures r.Ok? ==> r.value.Valid() && r.value.names == acc.names + NamesOf(tags)
    ensures r.Ok? ==> KeepsKeys(acc.keys, r.value.keys)
    ensures r.Ok? ==> HasKeys(r.value.keys, tags, path)
    decreases |tags|
  {
    if tags == [] then
      assert acc.names + NamesOf(tags) == acc.names;
      Ok(acc)
    else
      var (name, tag) := tags[0];
      assert NamesOf(tags) == [name] + NamesOf(tags[1..]);
      assert acc.names + NamesOf(tags) == acc.names + [name] + NamesOf(tags[1..]);
      DistinctAppend(acc.names, name, NamesOf(tags[1..]));
      if rejectAny && name == Any then
        Err(ReservedAny(path))
      else if name in acc.keys then
        Err(Redefined(name, acc.keys[name]))
      else
        var next := Acc(acc.names + [name], acc.keys[name := Key(tag, path)]);
        var r := AddTags(next, tags[1..], path, rejectAny);
        if r.Ok? then AddTagsKeys(acc.keys, tags, path, r.value.keys); r else r
  }

  /** Every key of `before` is in `after` with the same value. */
  predicate KeepsKeys(before: map<string, Key>, after: map<string, Key>) {
    forall n :: n in before ==> n in after && after[n] == before[n]
  }

  /** Every tag of `tags` is in `keys`, defined by `path`. */
  predicate HasKeys(keys: map<string, Key>, tags: seq<(string, Tag)>, path: string) {
    forall i :: 0 <= i < |tags| ==> tags[i].0 in keys && keys[tags[i].0] == Key(tags[i].1, path)
  }

  lemma AddTagsKeys(before: map<string, Key>, tags: seq<(string, Tag)>, path: string, after: map<string, Key>)
    requires tags != [] && tags[0].0 !in before
    requires KeepsKeys(before[tags[0].0 := Key(tags[0].1, path)], after)
    requires HasKeys(after, tags[1..], path)
    ensures KeepsKeys(before, after) && HasKeys(after, tags, path)
  {
    forall i | 1 <= i < |tags|
      ensures tags[i].0 in after && after[tags[i].0] == Key(tags[i].1, path)
    {
      assert tags[i] == tags[1..][i - 1];
    }
  }

  /** The document loop of the loader: tags, then the doc-flag merge. */
  function AddSources(acc: Acc, doc: GenDocOption, sources: seq<Source>, rejectAny: bool): (r: Result<(Acc, GenDocOption), LoadError>)
    requires acc.Valid()
    ensures r.Ok? <==>
      Text.Distinct(acc.names + AllNames(sources)) && (rejectAny ==> Any !in AllNames(sources))
    ensures r.Ok? ==> r.value.0.Valid() && r.value.0.names == acc.names + AllNames(sources)
    ensures r.Ok? ==> KeepsKeys(acc.keys, r.value.0.keys)
    ensures r.Ok? ==> forall s :: 0 <= s < |sources| ==> HasKeys(r.value.0.keys, sources[s].config.tags, sources[s].path)
    ensures r.Ok? ==> (r.value.1.headingSafetyTitle <==> doc.headingSafetyTitle || SetsFlagTitle(sources))
    ensures r.Ok? ==> (r.value.1.headingTag <==> doc.headingTag || SetsFlagTag(sources))
    decreases |sources|
  {
    if sources == [] then
      assert acc.names + AllNames(sources) == acc.names;
      Ok((acc, doc))
    else
      var first := sources[0];
      var own := NamesOf(first.config.tags);
      assert acc.names + AllNames(sources) == (acc.names + own) + AllNames(sources[1..]);
      var added := AddTags(acc, first.config.tags, first.path, rejectAny);
      if added.Err? then
        assert Text.Distinct(acc.names + AllNames(sources)) ==> Text.Distinct(acc.names + own) by {
          if Text.Distinct(acc.names + AllNames(sources)) {
            DistinctOfPrefix(acc.names + own, AllNames(sources[1..]));
          }
        }
        Err(added.error)
      else
        var r := AddSources(added.value, Merge(doc, first.config.doc), sources[1..], rejectAny);
        FlagsCons(sources);
        if r.Ok? then AddSourcesKeys(acc.keys, sources, added.value.keys, r.value.0.keys); r else r
  }

  lemma AddSourcesKeys(before: map<string, Key>, sources: seq<Source>, mid: map<string, Key>, after: map<string, Key>)
    requires sources != []
    requires KeepsKeys(before, mid) && HasKeys(mid, sources[0].config.tags, sources[0].path) && KeepsKeys(mid, after)
    requires forall s :: 0 <= s < |sources[1..]| ==> HasKeys(after, sources[1..][s].config.tags, sources[1..][s].path)
    ensures KeepsKeys(before, after)
    ensures forall s :: 0 <= s < |sources| ==> HasKeys(after, sources[s].config.tags, sources[s].path)
  {
    forall s | 1 <= s < |sources|
      ensures HasKeys(after, sources[s].config.tags, sources[s].path)
    {
      assert sources[s] == sources[1..][s - 1];
    }
  }

  /** The registry load: every document in order, `any` rejected when
      `rejectAny`, then the keys sorted. */
  function LoadWith(sources: seq<Source>, rejectAny: bool): (r: Result<Registry, LoadError>)
    ensures r.Ok? <==> Text.Distinct(AllNames(sources)) && (rejectAny ==> Any !in AllNames(sources))
    ensures r.Ok? ==> Text.StrictlySorted(r.value.names)
    ensures r.Ok? ==> forall n :: n in r.value.names <==> n in AllNames(sources)
    ensures r.Ok? ==> forall n :: n in r.value.keys <==> n in AllNames(sources)
    ensures r.Ok? ==> forall s :: 0 <= s < |sources| ==> HasKeys(r.value.keys, sources[s].config.tags, sources[s].path)
    ensures r.Ok? ==> (r.value.doc.headingSafetyTitle <==> SetsFlagTitle(sources))
    ensures r.Ok? ==> (r.value.doc.headingTag <==> SetsFlagTag(sources))
  {
    var loaded :- AddSources(Acc([], map[]), NoDocOption, sources, rejectAny);
    assert [] + AllNames(sources) == AllNames(sources);
    var sorted := Text.Sort(loaded.0.names);
    assert forall n :: n in sorted <==> n in multiset(loaded.0.names);
    Ok(Registry(sorted, loaded.0.keys, loaded.1))
  }

  /** The registry of `configuration/mod.rs`, which reserves `any`. */
  function Load(sources: seq<Source>): (r: Result<Registry, LoadError>)
    ensures r.Ok? <==> Text.Distinct(AllNames(sources)) && Any !in AllNames(sources)
    ensures r.Ok? ==> r == LoadWith(sources, true)
  {
    LoadWith(sources, true)
  }

  datatype LookupError = Undefined(name: string)

  /** `get_tag`: an undefined name is fatal. */
  function GetTag(reg: Registry, name: string): (r: Result<Tag, LookupError>)
    ensures r.Ok? <==> name in reg.keys
    ensures r.Ok? ==> r.value == reg.keys[name].tag
  {
    if name in reg.keys then Ok(reg.keys[name].tag) else Err(Undefined(name))
  }

  /** `get_tag_opt`: an undefined name is None. */
  function GetTagOpt(reg: Registry, name: string): (r: Outcome.Option<Tag>)
    ensures r.Some? <==> name in reg.keys
    ensures r.Some? ==> r.value == reg.keys[name].tag
  {
    if name in reg.keys then Some(reg.keys[name].tag) else None
  }

  lemma GetTagAgreesWithOpt(reg: Registry, name: string)
    ensures GetTag(reg, name).Ok? <==> GetTagOpt(reg, name).Some?
    ensures GetTag(reg, name).Ok? ==> GetTag(reg, name).value == GetTagOpt(reg, name).value
  {
  }

  datatype DefinedTag = DefinedTag(name: string, tag: Tag)

  /** `get_tags`: one entry per key, in key order. */
  function GetTags(reg: Registry): (r: seq<DefinedTag>)
    requires forall n :: n in reg.names ==> n in reg.keys
    ensures |r| == |reg.names|
    ensures forall i :: 0 <= i < |r| ==> r[i].name == reg.names[i] && r[i].tag == reg.keys[reg.names[i]].tag
  {
    seq(|reg.names|, i requires 0 <= i < |reg.names| => DefinedTag(reg.names[i], reg.keys[reg.names[i]].tag))
  }

  /** After a successful load, `get_tags` lists every defined tag exactly
      once, in increasing name order, with the definition its document
      gave it. */
  lemma GetTagsAfterLoad(sources: seq<Source>, rejectAny: bool)
    requires LoadWith(sources, rejectAny).Ok?
    ensures var reg := LoadWith(sources, rejectAny).value;
      var all := GetTags(reg);
      && (forall i, j :: 0 <= i < j < |all| ==> Text.Less(all[i].name, all[j].name))
      && (forall n :: n in AllNames(sources) <==> exists i :: 0 <= i < |all| && all[i].name == n)
  {
    var reg := LoadWith(sources, rejectAny).value;
    var all := GetTags(reg);
    forall n | n in AllNames(sources)
      ensures exists i :: 0 <= i < |all| && all[i].name == n
    {
      var i :| 0 <= i < |reg.names| && reg.names[i] == n;
      assert all[i].name == n;
    }
  }
}
