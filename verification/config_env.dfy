/** Where the tag documents come from. The process environment and the file
    system are explicit inputs: a map of environment variables and a set of
    files plus a listing of each directory. */
module ConfigEnv {
  import opened Outcome

  const SpFile: string := "SP_FILE"
  const SpDir: string := "SP_DIR"
  const SpDisableCheck: string := "SP_DISABLE_CHECK"
  const ManifestDir: string := "CARGO_MANIFEST_DIR"
  const LocalSpFile: string := "safety-tags.toml"
  const LocalSpDir: string := "safety-tags"

  /** Environment variables that are set (to a Unicode value). */
  datatype Env = Env(vars: map<string, string>)

  /** Plain files, and directories with the full paths of their entries in
      listing order. */
  datatype Fs = Fs(files: set<string>, dirs: map<string, seq<string>>)

  /** `Path::join` of a relative name: a separator is added unless the base
      is empty or already ends with one. */
  function JoinPath(dir: string, name: string): (p: string)
    ensures |p| >= |name| && p[|p| - |name|..] == name
  {
    if dir == [] || dir[|dir| - 1] == '/' then dir + name else dir + "/" + name
  }

  predicate Exists(fs: Fs, p: string) {
    p in fs.files || p in fs.dirs
  }

  /** The last component of a path: the text after its final `/`. */
  function FileName(p: string): (r: string)
    ensures '/' !in r
    ensures |r| <= |p| && r == p[|p| - |r|..]
  {
    if p == [] then []
    else if p[|p| - 1] == '/' then []
    else FileName(p[..|p| - 1]) + [p[|p| - 1]]
  }

  /** Index of the last `.` in `s`, if any. */
  function LastDot(s: string): (r: Outcome.Option<nat>)
    ensures r.Some? ==> r.value < |s| && s[r.value] == '.' && '.' !in s[r.value + 1..]
    ensures r.None? ==> '.' !in s
  {
    if s == [] then None
    else if s[|s| - 1] == '.' then Some(|s| - 1)
    else
      var r := LastDot(s[..|s| - 1]);
      assert s == s[..|s| - 1] + [s[|s| - 1]];
      r
  }

  /** `Path::extension`: the text after the last `.` of the file name,
      except when that dot starts the name (`.toml` has no extension) or the
      name is `..`. */
  function Extension(p: string): (r: Outcome.Option<string>)
    ensures r.Some? ==> '.' !in r.value
  {
    var name := FileName(p);
    if name == ".." then None
    else match LastDot(name)
      case None => None
      case Some(i) => if i == 0 then None else Some(name[i + 1..])
  }

  predicate IsToml(p: string) {
    Extension(p) == Some("toml")
  }

  function FilterToml(entries: seq<string>): (r: seq<string>)
    ensures forall x :: x in r <==> x in entries && IsToml(x)
    ensures |r| <= |entries|
  {
    if entries == [] then []
    else (if IsToml(entries[0]) then [entries[0]] else []) + FilterToml(entries[1..])
  }

  /** `list_toml_files`: reading a directory that does not exist is fatal;
      otherwise the entries whose extension is `toml`, in listing order. */
  function ListTomlFiles(fs: Fs, dir: string): (r: Result<seq<string>, string>)
    ensures r.Ok? <==> dir in fs.dirs
    ensures r.Ok? ==> forall x :: x in r.value <==> x in fs.dirs[dir] && IsToml(x)
  {
    if dir in fs.dirs then Ok(FilterToml(fs.dirs[dir])) else Err("Failed to read folder")
  }

  /** `crate_sp_paths`: a crate-local `safety-tags.toml` wins over a
      crate-local `safety-tags/` directory; without `CARGO_MANIFEST_DIR`
      or either of them the answer is None. */
  function CrateSpPaths(env: Env, fs: Fs): (r: Result<Outcome.Option<seq<string>>, string>)
    ensures ManifestDir !in env.vars ==> r == Ok(None)
    ensures ManifestDir in env.vars && Exists(fs, JoinPath(env.vars[ManifestDir], LocalSpFile)) ==>
      r == Ok(Some([JoinPath(env.vars[ManifestDir], LocalSpFile)]))
  {
    if ManifestDir in env.vars then
      var dir := env.vars[ManifestDir];
      var spFile := JoinPath(dir, LocalSpFile);
      var spDir := JoinPath(dir, LocalSpDir);
      if Exists(fs, spFile) then Ok(Some([spFile]))
      else if Exists(fs, spDir) then
        var files :- ListTomlFiles(fs, spDir);
        Ok(Some(files))
      else Ok(None)
    else Ok(None)
  }

  /** `config_exists`: crate-local documents, or `SP_FILE`, or `SP_DIR`. */
  function ConfigExists(env: Env, fs: Fs): (r: Result<bool, string>)
    ensures r.Ok? <==> CrateSpPaths(env, fs).Ok?
    ensures r.Ok? ==> (r.value <==> CrateSpPaths(env, fs).value.Some? || SpFile in env.vars || SpDir in env.vars)
  {
    var local :- CrateSpPaths(env, fs);
    Ok(local.Some? || SpFile in env.vars || SpDir in env.vars)
  }

  /** `disable_check`: `SP_DISABLE_CHECK` set to anything but `0`. */
  function DisableCheck(env: Env): (r: bool)
    ensures r <==> SpDisableCheck in env.vars && env.vars[SpDisableCheck] != "0"
  {
    match Lookup(env, SpDisableCheck)
    case Some(v) => v != "0"
    case None => false
  }

  function Lookup(env: Env, key: string): (r: Outcome.Option<string>)
    ensures r.Some? <==> key in env.vars
    ensures r.Some? ==> r.value == env.vars[key]
  {
    if key in env.vars then Some(env.vars[key]) else None
  }

  /** `need_check`: tags are checked against the registry only when a
      configuration exists and checking is not disabled. */
  function NeedCheck(env: Env, fs: Fs): (r: Result<bool, string>)
    ensures r.Ok? <==> ConfigExists(env, fs).Ok?
    ensures r.Ok? ==> (r.value <==> ConfigExists(env, fs).value && !DisableCheck(env))
  {
    var exists_ :- ConfigExists(env, fs);
    Ok(exists_ && !DisableCheck(env))
  }

  /** `toml_file_paths`: crate-local paths, else `[SP_FILE]`, else the
      `.toml` files of `SP_DIR`, else nothing. */
  function TomlFilePaths(env: Env, fs: Fs): (r: Result<seq<string>, string>)
    ensures CrateSpPaths(env, fs).Err? ==> r.Err?
  {
    var local :- CrateSpPaths(env, fs);
    if local.Some? then Ok(local.value)
    else match Lookup(env, SpFile)
      case Some(file) => Ok([file])
      case None =>
        match Lookup(env, SpDir)
        case Some(dir) => ListTomlFiles(fs, dir)
        case None => Ok([])
  }

  /** A path is a candidate document when it is the crate-local
      `safety-tags.toml`, the value of `SP_FILE`, or a `.toml` entry of a
      listed directory. */
  predicate Candidate(env: Env, fs: Fs, p: string) {
    || (ManifestDir in env.vars && p == JoinPath(env.vars[ManifestDir], LocalSpFile))
    || (SpFile in env.vars && p == env.vars[SpFile])
    || (exists d :: d in fs.dirs && p in fs.dirs[d] && IsToml(p))
  }

  /** Every returned path is a candidate document, and no document is
      returned exactly when no configuration exists or the chosen directory
      holds no `.toml` file. */
  lemma TomlFilePathsSound(env: Env, fs: Fs)
    requires TomlFilePaths(env, fs).Ok?
    ensures forall p :: p in TomlFilePaths(env, fs).value ==> Candidate(env, fs, p)
    ensures ConfigExists(env, fs) == Ok(false) ==> TomlFilePaths(env, fs) == Ok([])
  {
    var r := TomlFilePaths(env, fs).value;
    forall p | p in r
      ensures Candidate(env, fs, p)
    {
      var local := CrateSpPaths(env, fs).value;
      if local.Some? {
        var dir := env.vars[ManifestDir];
        if !Exists(fs, JoinPath(dir, LocalSpFile)) {
          assert p in fs.dirs[JoinPath(dir, LocalSpDir)];
        }
      } else if SpFile !in env.vars {
        assert p in fs.dirs[env.vars[SpDir]];
      }
    }
  }

  /** Precedence: a crate-local `safety-tags.toml` is the only document,
      whatever `SP_FILE` and `SP_DIR` say; `SP_FILE` hides `SP_DIR`. */
  lemma TomlFilePathsPrecedence(env: Env, fs: Fs)
    ensures ManifestDir in env.vars && Exists(fs, JoinPath(env.vars[ManifestDir], LocalSpFile)) ==>
      TomlFilePaths(env, fs) == Ok([JoinPath(env.vars[ManifestDir], LocalSpFile)])
    ensures CrateSpPaths(env, fs) == Ok(None) && SpFile in env.vars ==>
      TomlFilePaths(env, fs) == Ok([env.vars[SpFile]])
    ensures CrateSpPaths(env, fs) == Ok(None) && SpFile !in env.vars && SpDir in env.vars ==>
      TomlFilePaths(env, fs) == ListTomlFiles(fs, env.vars[SpDir])
  {
  }
}
