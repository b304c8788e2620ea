/** The earlier single-file registry: the same loader without the
    reservation of `any`, and a path lookup that treats a missing
    configuration as fatal. */
module LegacyRegistry {
  import opened Outcome
  import Text
  import Registry
  import ConfigEnv

  /** Load without the `any` check: only a repeated name is fatal. */
  function Load(sources: seq<Registry.Source>): (r: Result<Registry.Registry, Registry.LoadError>)
    ensures r.Ok? <==> Text.Distinct(Registry.AllNames(sources))
    ensures r.Ok? ==> Text.StrictlySorted(r.value.names)
  {
    Registry.LoadWith(sources, false)
  }

  /** The current loader accepts exactly the inputs the earlier one accepts
      that do not define `any`, and then builds the same registry. */
  lemma CurrentRefinesLegacy(sources: seq<Registry.Source>)
    ensures Registry.Load(sources).Ok? <==> Load(sources).Ok? && Registry.Any !in Registry.AllNames(sources)
    ensures Registry.Load(sources).Ok? ==> Registry.Load(sources) == Load(sources)
  {
    if Registry.Load(sources).Ok? {
      SameAccumulation(Registry.Acc([], map[]), Registry.NoDocOption, sources);
    }
  }

  lemma SameAccumulation(acc: Registry.Acc, doc: Registry.GenDocOption, sources: seq<Registry.Source>)
    requires acc.Valid()
    requires Registry.AddSources(acc, doc, sources, true).Ok?
    ensures Registry.AddSources(acc, doc, sources, true) == Registry.AddSources(acc, doc, sources, false)
    decreases |sources|
  {
    if sources != [] {
      SameTags(acc, sources[0].config.tags, sources[0].path);
      var added := Registry.AddTags(acc, sources[0].config.tags, sources[0].path, true);
      SameAccumulation(added.value, Registry.Merge(doc, sources[0].config.doc), sources[1..]);
    }
  }

  lemma SameTags(acc: Registry.Acc, tags: seq<(string, Registry.Tag)>, path: string)
    requires acc.Valid()
    requires Registry.AddTags(acc, tags, path, true).Ok?
    ensures Registry.AddTags(acc, tags, path, true) == Registry.AddTags(acc, tags, path, false)
    decreases |tags|
  {
    if tags != [] {
      var (name, tag) := tags[0];
      SameTags(Registry.Acc(acc.names + [name], acc.keys[name := Registry.Key(tag, path)]), tags[1..], path);
    }
  }

  /** A document defining `any` is accepted here and rejected by the
      current loader. */
  lemma AnyIsOrdinaryHere()
    ensures var t := Registry.Tag([], None, None, Registry.DefaultTypes, None);
      var src := Registry.Source(Registry.Configuration(None, [(Registry.Any, t)], Registry.NoDocOption), "a.toml");
      Load([src]).Ok? && Registry.Load([src]).Err?
  {
    var t := Registry.Tag([], None, None, Registry.DefaultTypes, None);
    var src := Registry.Source(Registry.Configuration(None, [(Registry.Any, t)], Registry.NoDocOption), "a.toml");
    assert Registry.AllNames([src]) == [Registry.Any];
  }

  /** The earlier `toml_file_paths`: as the current one, except that with
      no source at all it is fatal instead of returning nothing. */
  function TomlFilePaths(env: ConfigEnv.Env, fs: ConfigEnv.Fs): (r: Result<seq<string>, string>)
    ensures ConfigEnv.ConfigExists(env, fs) == Ok(false) ==> r.Err?
    ensures ConfigEnv.ConfigExists(env, fs) == Ok(true) ==> r == ConfigEnv.TomlFilePaths(env, fs)
  {
    var local :- ConfigEnv.CrateSpPaths(env, fs);
    if local.Some? then Ok(local.value)
    else match ConfigEnv.Lookup(env, ConfigEnv.SpFile)
      case Some(file) => Ok([file])
      case None =>
        match ConfigEnv.Lookup(env, ConfigEnv.SpDir)
        case Some(dir) => ConfigEnv.ListTomlFiles(fs, dir)
        case None => Err("Environment variable `SP_FILE` or `SP_DIR` should be specified.")
  }
}
