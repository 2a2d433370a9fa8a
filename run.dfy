/** Launching and installing a package (src/run/mod.rs). Starting the
    process itself is outside the model: `Start` returns what it would
    launch. */
module Run {
  import opened Base
  import opened PathText
  import opened Fs
  import opened Chunks
  import opened Types
  import opened Manifest
  import opened ChunkTree
  import opened ChunkFetch
  import opened Versions

  /** `{repo}/installed/{id}`. */
  function InstalledPath(repoPath: string, id: string): string
  {
    JoinPath(JoinPath(repoPath, "installed"), id)
  }

  // ------------------------------------------------------------------
  // Entrypoint selection.
  // ------------------------------------------------------------------

  /** The index of the first command, in manifest order, whose path ends
      with the entrypoint component by component. */
  function FirstEndingWith(commands: seq<string>, entrypoint: string): (r: Option<nat>)
    ensures r.Some? ==> r.value < |commands| && EndsWith(commands[r.value], entrypoint)
    ensures r.Some? ==> forall j :: 0 <= j < r.value ==> !EndsWith(commands[j], entrypoint)
    ensures r.None? ==> forall j :: 0 <= j < |commands| ==> !EndsWith(commands[j], entrypoint)
  {
    if commands == [] then None
    else if EndsWith(commands[0], entrypoint) then Some(0)
    else
      var rest := FirstEndingWith(commands[1..], entrypoint);
      assert forall j :: 1 <= j < |commands| ==> commands[j] == commands[1..][j - 1];
      if rest.None? then None else Some(rest.value + 1)
  }

  /** An empty entrypoint has no components, so it selects the first
      command of any package that has one. */
  lemma EmptyEntrypointSelectsFirst(commands: seq<string>)
    requires commands != []
    ensures FirstEndingWith(commands, "") == Some(0)
  {
    EverythingEndsWithEmpty(commands[0]);
  }

  /** `str::trim_start_matches('/')`. */
  function TrimStartSlashes(s: string): (r: string)
    ensures |r| <= |s| && r == s[|s| - |r|..]
    ensures forall i :: 0 <= i < |s| - |r| ==> s[i] == '/'
    ensures r == [] || r[0] != '/'
  {
    if s != [] && s[0] == '/' then TrimStartSlashes(s[1..]) else s
  }

  // ------------------------------------------------------------------
  // Environment rewriting.
  // ------------------------------------------------------------------

  /** `str::replace("./", rep)`: a left-to-right scan replacing each
      non-overlapping `./`. */
  function ReplaceDotSlash(s: string, rep: string): string
  {
    if |s| < 2 then s
    else if s[0] == '.' && s[1] == '/' then rep + ReplaceDotSlash(s[2..], rep)
    else [s[0]] + ReplaceDotSlash(s[1..], rep)
  }

  /** The number of positions at which `./` occurs in `s`. */
  function DotSlashCount(s: string): nat
  {
    if |s| < 2 then 0
    else (if s[0] == '.' && s[1] == '/' then 1 else 0) + DotSlashCount(s[1..])
  }

  /** `./` cannot overlap itself, so the scan replaces every occurrence:
      the result grows by `|rep| - 2` per occurrence. */
  lemma {:induction false} ReplaceDotSlashLength(s: string, rep: string)
    ensures |ReplaceDotSlash(s, rep)| == |s| + DotSlashCount(s) * (|rep| - 2)
  {
    if |s| >= 2 {
      if s[0] == '.' && s[1] == '/' {
        ReplaceDotSlashLength(s[2..], rep);
        assert s[1..][1..] == s[2..];
        assert DotSlashCount(s[1..]) == DotSlashCount(s[2..]);
      } else {
        ReplaceDotSlashLength(s[1..], rep);
      }
    }
  }

  /** `str::contains("./")` holds exactly when there is an occurrence. */
  lemma {:induction false} ContainsIffCount(s: string)
    ensures Contains(s, "./") <==> DotSlashCount(s) > 0
  {
    if |s| >= 2 {
      ContainsIffCount(s[1..]);
      assert "./" <= s <==> s[0] == '.' && s[1] == '/';
    } else {
      assert !("./" <= s);
      if s != [] {
        assert !Contains(s[1..], "./");
      }
    }
  }

  /** A value without `./` is left as it is. */
  lemma {:induction false} NoDotSlashUnchanged(s: string, rep: string)
    requires DotSlashCount(s) == 0
    ensures ReplaceDotSlash(s, rep) == s
  {
    if |s| >= 2 {
      NoDotSlashUnchanged(s[1..], rep);
    }
  }

  /** The loop over `keys_to_update`: every value containing `./` has each
      occurrence replaced by `{installed}/`; keys and other values are
      unchanged. The order of the keys does not matter. */
  method RewriteEnv(envs: map<string, string>, installed: string) returns (envs': map<string, string>)
    ensures envs'.Keys == envs.Keys
    ensures forall k :: k in envs ==> envs'[k] == ReplaceDotSlash(envs[k], installed + "/")
    ensures forall k :: k in envs && !Contains(envs[k], "./") ==> envs'[k] == envs[k]
  {
    var rep := installed + "/";
    var pending := set k | k in envs && Contains(envs[k], "./");
    envs' := envs;
    while pending != {}
      invariant pending <= envs.Keys && envs'.Keys == envs.Keys
      invariant forall k :: k in envs && k !in pending && Contains(envs[k], "./") ==>
        envs'[k] == ReplaceDotSlash(envs[k], rep)
      invariant forall k :: k in envs && (k in pending || !Contains(envs[k], "./")) ==> envs'[k] == envs[k]
      decreases pending
    {
      var k :| k in pending;
      envs' := envs'[k := ReplaceDotSlash(envs'[k], rep)];
      pending := pending - {k};
    }
    forall k | k in envs && !Contains(envs[k], "./")
      ensures envs'[k] == ReplaceDotSlash(envs[k], rep)
    {
      ContainsIffCount(envs[k]);
      NoDotSlashUnchanged(envs[k], rep);
    }
  }

  // ------------------------------------------------------------------
  // start
  // ------------------------------------------------------------------

  /** What `start` hands to `Command`: the program, its arguments and the
      extra environment. */
  datatype Launch = Launch(program: string, args: seq<string>, env: map<string, string>)

  /** `start`, up to spawning the process. */
  method Start(repoPath: string, pkg: PackageManifest, entrypoint: string, args: seq<string>) returns (r: Result<Launch>)
    ensures r.Err? <==> forall j :: 0 <= j < |pkg.commands| ==> !EndsWith(pkg.commands[j], entrypoint)
    ensures r.Err? ==> r.msg == "Entrypoint does not exist."
    ensures r.Ok? ==>
      var installed := InstalledPath(repoPath, pkg.id);
      var chosen := pkg.commands[FirstEndingWith(pkg.commands, entrypoint).value];
      var env := if pkg.env.Some? then pkg.env.value else map[];
      && r.value.program == JoinPath(installed, TrimStartSlashes(chosen))
      && installed <= r.value.program
      && r.value.args == args
      && r.value.env.Keys == env.Keys
      && forall k :: k in env ==> r.value.env[k] == ReplaceDotSlash(env[k], installed + "/")
  {
    var installed := InstalledPath(repoPath, pkg.id);
    var chosen := FirstEndingWith(pkg.commands, entrypoint);
    if chosen.None? {
      return Err("Entrypoint does not exist.");
    }
    var command := TrimStartSlashes(pkg.commands[chosen.value]);
    var envs := if pkg.env.Some? then pkg.env.value else map[];
    envs := RewriteEnv(envs, installed);
    r := Ok(Launch(JoinPath(installed, command), args, envs));
  }

  // ------------------------------------------------------------------
  // install
  // ------------------------------------------------------------------

  /** `install`: read the manifest, find the package, fetch the chunks the
      store lacks, then rebuild `installed/{id}` and write `install.meta`
      there. Each step runs only after the previous one succeeded. */
  method Install(files: Files, parse: Parser, crypto: Crypto, serialize: PackageManifest -> Bytes,
                 blake3: Bytes -> string, fetch: string -> Option<Bytes>, id: string,
                 store: Store, installed: map<string, Tree>)
    returns (r: Result<()>, store': Store, installed': map<string, Tree>)
    ensures ReadManifest(files, parse, crypto).Err? ==>
      r == Err(ReadManifest(files, parse, crypto).msg) && store' == store && installed' == installed
    ensures ReadManifest(files, parse, crypto).Ok? && GetPackage(ReadManifest(files, parse, crypto).value, id).Err? ==>
      r == Err("Failed to get package from Repository.") && store' == store && installed' == installed
    ensures ReadManifest(files, parse, crypto).Ok? && GetPackage(ReadManifest(files, parse, crypto).value, id).Ok? ==>
      var m := ReadManifest(files, parse, crypto).value;
      var pkg := GetPackage(m, id).value;
      var fetched := FetchAll(Missing(pkg.chunks, store), m.mirrors, fetch, m.hashKind, blake3, store);
      var placed := Placed(installed, id, fetched.1, pkg.chunks, serialize(pkg));
      var loaded := Load(if id in installed then installed[id] else map[], fetched.1, pkg.chunks);
      && store' == fetched.1
      && (fetched.0.Err? ==> r == Err("Failed to install package.") && installed' == installed)
      && (fetched.0.Ok? ==> (r.Ok? <==> placed.0.Ok?) && installed' == placed.1)
      && (fetched.0.Ok? && loaded.0.Err? ==> r == Err("Failed to rebuild the tree."))
      && (fetched.0.Ok? && r.Err? ==> r == placed.0)
  {
    store', installed' := store, installed;
    var manifest := ReadManifest(files, parse, crypto);
    if manifest.Err? {
      return Err(manifest.msg), store', installed';
    }
    var pkg := GetPackage(manifest.value, id);
    if pkg.Err? {
      return Err("Failed to get package from Repository."), store', installed';
    }
    var fetched;
    fetched, store' := InstallTree(pkg.value.chunks, manifest.value.mirrors, manifest.value.hashKind, blake3, fetch, store);
    if fetched.Err? {
      return Err("Failed to install package."), store', installed';
    }
    var placed;
    placed, installed' := PlaceTree(installed, id, store', pkg.value.chunks, serialize(pkg.value));
    PlacedMetaLast(installed, id, store', pkg.value.chunks, serialize(pkg.value));
    if placed.Err? {
      return Err(placed.msg), store', installed';
    }
    r := Ok(());
  }

  /** A first installation succeeds when every chunk the store lacks can
      be fetched from some mirror and the chunk paths form a proper tree:
      the fetch step succeeds and every chunk is then in the store, so the
      rebuild and the `install.meta` write succeed too. */
  lemma InstallSucceeds(chunks: seq<Chunk>, mirrors: seq<string>, fetch: string -> Option<Bytes>, kind: HashKind,
                        blake3: Bytes -> string, store: Store, installed: map<string, Tree>, id: string, meta: Bytes)
    requires forall c :: c in chunks && StoreKey(c) !in store ==> Available(c, mirrors, fetch, kind, blake3)
    requires id !in installed && chunks != [] && PrefixFree(chunks)
    requires forall c :: c in chunks ==> !(MetaFile < c.path)
    ensures var fetched := FetchAll(Missing(chunks, store), mirrors, fetch, kind, blake3, store);
      fetched.0.Ok? && Placed(installed, id, fetched.1, chunks, meta).0.Ok?
  {
    var missing := Missing(chunks, store);
    MissingMembers(chunks, store);
    FetchAllSucceeds(missing, mirrors, fetch, kind, blake3, store);
    assert forall j :: 0 <= j < |missing| ==> Available(missing[j], mirrors, fetch, kind, blake3) by {
      forall j | 0 <= j < |missing| ensures Available(missing[j], mirrors, fetch, kind, blake3) {
        assert missing[j] in missing;
      }
    }
    FetchAllStoresEvery(missing, mirrors, fetch, kind, blake3, store);
    var s := FetchAll(missing, mirrors, fetch, kind, blake3, store).1;
    assert forall c :: c in chunks ==> StoreKey(c) in s;
    FreshPlacement(installed, id, s, chunks, meta);
  }
}
