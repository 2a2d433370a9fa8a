/** Installed versions of a package (src/repo/versions.rs). The
    repository's `versions` directory is a map from entry name to the tree
    below it; `installed` is a map from entry name to what is stored
    there: a symbolic link with its target, or a real directory (what
    `install` in src/run/mod.rs rebuilds). */
module Versions {
  import opened Base
  import opened Fs
  import opened Chunks
  import opened Types
  import opened Manifest
  import opened ChunkTree

  /** The `versions` directory: one tree per entry. */
  type VersionDirs = map<EntryName, Tree>

  /** An entry of the `installed` directory. */
  datatype InstalledEntry = Link(target: string) | RealDir

  /** The `installed` directory. */
  type Links = map<string, InstalledEntry>

  /** The directory name of a version: `{id}-{hash}`. */
  function VersionDirName(id: string, hash: string): string
  {
    id + "-" + hash
  }

  /** The version a directory name denotes for `id`, as `get_versions`
      reads it: the last `-`-separated piece is the hash and the pieces
      before it, joined again with `-`, must be `id`. */
  function VersionOf(name: string, id: string): Option<string>
  {
    var parts := Split(name, '-');
    if Join(parts[..|parts| - 1], '-') == id then Some(parts[|parts| - 1]) else None
  }

  /** `VersionOf` inverts `VersionDirName` for hashes without `-`; the only
      other names it accepts are hash-only names when `id` is empty. */
  lemma VersionOfIff(name: string, id: string, h: string)
    ensures VersionOf(name, id) == Some(h) <==>
      '-' !in h && (name == VersionDirName(id, h) || (id == "" && name == h))
  {
    var parts := Split(name, '-');
    var n := |parts| - 1;
    JoinSplit(name, '-');
    if VersionOf(name, id) == Some(h) {
      assert h == parts[n];
      if n >= 1 {
        JoinSnoc(parts, '-');
      } else {
        assert parts == [h];
      }
    }
    if '-' !in h && name == VersionDirName(id, h) {
      SplitAround(id, h, '-');
      SplitWithout(h, '-');
      JoinSplit(id, '-');
      assert parts == Split(id, '-') + [h];
      assert parts[..n] == Split(id, '-');
    }
    if '-' !in h && id == "" && name == h {
      SplitWithout(h, '-');
    }
  }

  /** Three dash-free pieces joined by `-` split back into those pieces. */
  lemma SplitThreePieces(a: string, b: string, c: string)
    requires '-' !in a && '-' !in b && '-' !in c
    ensures Split(a + "-" + b + "-" + c, '-') == [a, b, c]
  {
    SplitAround(b, c, '-');
    SplitWithout(b, '-');
    SplitWithout(c, '-');
    SplitAround(a, b + "-" + c, '-');
    SplitWithout(a, '-');
    assert a + "-" + b + "-" + c == a + ['-'] + (b + ['-'] + c);
  }

  /** A version directory of package `a-b` is never taken for a version of
      package `a`, although `a-b-c` starts with `a-`. */
  lemma LongerIdNotAVersion(a: string, b: string, c: string)
    requires '-' !in a && '-' !in b && '-' !in c
    ensures VersionOf(a + "-" + b + "-" + c, a) == None
    ensures VersionOf(a + "-" + b + "-" + c, a + "-" + b) == Some(c)
  {
    SplitThreePieces(a, b, c);
    var parts := Split(a + "-" + b + "-" + c, '-');
    assert parts[..2] == [a, b];
    assert Join([a, b], '-') == a + "-" + b;
  }

  /** The hashes `get_versions` reports, in listing order. */
  function VersionsListed(listing: seq<EntryName>, id: string): seq<string>
  {
    if listing == [] then []
    else
      var name := listing[|listing| - 1];
      VersionsListed(listing[..|listing| - 1], id)
        + (if name.Utf8? && VersionOf(name.text, id).Some? then [VersionOf(name.text, id).value] else [])
  }

  /** `get_versions` over the entries `read_dir` yields, in its order;
      names that are not UTF-8 are skipped. */
  method GetVersions(listing: seq<EntryName>, id: string) returns (versions: seq<string>)
    ensures versions == VersionsListed(listing, id)
  {
    versions := [];
    var i := 0;
    while i < |listing|
      invariant 0 <= i <= |listing|
      invariant versions == VersionsListed(listing[..i], id)
    {
      assert listing[..i + 1][..i] == listing[..i];
      var name := listing[i];
      if name.Utf8? {
        var v := VersionOf(name.text, id);
        if v.Some? {
          versions := versions + [v.value];
        }
      }
      i := i + 1;
    }
    assert listing[..i] == listing;
  }

  /** A hash is reported exactly when some UTF-8 entry is `{id}-{hash}`
      with no `-` in the hash (or, for an empty id, is the hash itself). */
  lemma {:induction false} VersionsListedMembers(listing: seq<EntryName>, id: string)
    ensures forall h :: h in VersionsListed(listing, id) <==>
      exists i :: 0 <= i < |listing| && listing[i].Utf8? && VersionOf(listing[i].text, id) == Some(h)
  {
    if listing != [] {
      var init := listing[..|listing| - 1];
      VersionsListedMembers(init, id);
      forall h | h in VersionsListed(listing, id)
        ensures exists i :: 0 <= i < |listing| && listing[i].Utf8? && VersionOf(listing[i].text, id) == Some(h)
      {
        if h in VersionsListed(init, id) {
          var i :| 0 <= i < |init| && init[i].Utf8? && VersionOf(init[i].text, id) == Some(h);
          assert listing[i] == init[i];
        }
      }
      forall h, i | 0 <= i < |listing| && listing[i].Utf8? && VersionOf(listing[i].text, id) == Some(h)
        ensures h in VersionsListed(listing, id)
      {
        if i < |init| {
          assert init[i] == listing[i];
        }
      }
    }
  }

  /** `install.meta` sits at the top of an installed tree; `fs::write`
      creates it with mode 0o644 under the usual umask. */
  const MetaFile: Path := ["install.meta"]
  const MetaMode: U32 := 0x1A4

  /** The context both callers attach to a failed `load_tree`. */
  const RebuildFailed := "Failed to rebuild the tree."

  /** Rebuild `chunks` into the directory `name` of `dirs`, then write
      `install.meta` there. `load_tree` makes the directory only while
      creating the first chunk's parents, so when nothing creates it the
      final write fails; a failed rebuild keeps what it had made and
      reports `RebuildFailed`, while a failed write reports its own error. */
  function Placed<K>(dirs: map<K, Tree>, name: K, store: Store, chunks: seq<Chunk>, meta: Bytes): (Result<()>, map<K, Tree>)
  {
    var start := if name in dirs then dirs[name] else map[];
    var loaded := Load(start, store, chunks);
    var created := name in dirs || (chunks != [] && chunks[0].path != []);
    var kept := if created then dirs[name := loaded.1] else dirs;
    if loaded.0.Err? then (Err(RebuildFailed), kept)
    else if !created then (Err("No such file or directory"), dirs)
    else
      match WriteFile(loaded.1, MetaFile, meta, MetaMode)
      case Err(e) => (Err(e), kept)
      case Ok(t) => (Ok(()), dirs[name := t])
  }

  /** The rebuild and the `install.meta` write of `install_version` and
      `install`. */
  method PlaceTree<K>(dirs: map<K, Tree>, name: K, store: Store, chunks: seq<Chunk>, meta: Bytes)
    returns (r: Result<()>, dirs': map<K, Tree>)
    ensures (r, dirs') == Placed(dirs, name, store, chunks, meta)
  {
    dirs' := dirs;
    var start := if name in dirs then dirs[name] else map[];
    // the directory comes into being when the first chunk's parent
    // directories are created
    var created := name in dirs || (chunks != [] && chunks[0].path != []);
    var loaded, target := LoadTree(start, store, chunks);
    if created {
      dirs' := dirs'[name := target];
    }
    if loaded.Err? {
      return Err(RebuildFailed), dirs';
    }
    if !created {
      return Err("No such file or directory"), dirs;
    }
    var written := WriteFile(target, MetaFile, meta, MetaMode);
    if written.Err? {
      return Err(written.msg), dirs';
    }
    dirs' := dirs[name := written.value];
    r := Ok(());
  }

  /** `install.meta` is written only after the whole tree has loaded: a
      failed placement leaves either nothing or exactly the partly loaded
      tree, and a successful one differs from the loaded tree only at
      `install.meta`. Other directories are never touched. */
  lemma PlacedMetaLast<K>(dirs: map<K, Tree>, name: K, store: Store, chunks: seq<Chunk>, meta: Bytes)
    ensures var start := if name in dirs then dirs[name] else map[];
      var loaded := Load(start, store, chunks);
      var (r, dirs') := Placed(dirs, name, store, chunks, meta);
      && dirs'.Keys <= dirs.Keys + {name}
      && (forall k :: k in dirs && k != name ==> dirs'[k] == dirs[k])
      && (r.Ok? ==>
            loaded.0.Ok? && name in dirs' && dirs'[name] == loaded.1[MetaFile := File(meta, MetaMode)])
      && (r.Err? ==> dirs' == dirs || (name in dirs' && dirs'[name] == loaded.1))
      && (loaded.0.Err? ==> r == Err(RebuildFailed))
  {
  }

  /** A fresh directory is always placed when every chunk is in the store,
      no chunk path is empty or nested in another, and no chunk lies below
      an `install.meta` directory: each chunk's bytes end up at its path
      and `install.meta` holds the manifest. */
  lemma FreshPlacement<K>(dirs: map<K, Tree>, name: K, store: Store, chunks: seq<Chunk>, meta: Bytes)
    requires name !in dirs && chunks != []
    requires PrefixFree(chunks) && forall c :: c in chunks ==> StoreKey(c) in store
    requires forall c :: c in chunks ==> !(MetaFile < c.path)
    ensures var (r, dirs') := Placed(dirs, name, store, chunks, meta);
      && r.Ok? && name in dirs'
      && dirs'[name][MetaFile] == File(meta, MetaMode)
      && forall c :: c in chunks && c.path != MetaFile ==>
           c.path in dirs'[name] && dirs'[name][c.path] == File(store[StoreKey(c)], c.permissions % 512)
  {
    LoadMaterialises(store, chunks);
    var t := Load(map[], store, chunks).1;
    assert chunks[0] in chunks;
    assert !IsDir(t, MetaFile);
  }

  /** `install_version`: resolve the package, name its directory by the
      hash of its serialised manifest, and place the tree there. */
  method InstallVersion(files: Files, parse: Parser, crypto: Crypto, serialize: PackageManifest -> Bytes,
                        blake3: Bytes -> string, id: string, versions: VersionDirs, store: Store)
    returns (r: Result<string>, versions': VersionDirs)
    ensures ReadManifest(files, parse, crypto).Err? ==>
      r == Err(ReadManifest(files, parse, crypto).msg) && versions' == versions
    ensures ReadManifest(files, parse, crypto).Ok? && GetPackage(ReadManifest(files, parse, crypto).value, id).Err? ==>
      r == Err("Failed to get package from Repository.") && versions' == versions
    ensures ReadManifest(files, parse, crypto).Ok? && GetPackage(ReadManifest(files, parse, crypto).value, id).Ok? ==>
      var m := ReadManifest(files, parse, crypto).value;
      var pkg := GetPackage(m, id).value;
      var h := Hash(blake3, m.hashKind, serialize(pkg));
      var name := Utf8(VersionDirName(id, h));
      var placed := Placed(versions, name, store, pkg.chunks, serialize(pkg));
      var loaded := Load(if name in versions then versions[name] else map[], store, pkg.chunks);
      && versions' == placed.1
      && (r.Ok? <==> placed.0.Ok?)
      && (r.Ok? ==> r.value == h)
      && (loaded.0.Err? ==> r == Err("Failed to rebuild the tree."))
      && (r.Err? ==> r.msg == placed.0.msg)
  {
    var manifest := ReadManifest(files, parse, crypto);
    if manifest.Err? {
      return Err(manifest.msg), versions;
    }
    var pkg := GetPackage(manifest.value, id);
    if pkg.Err? {
      return Err("Failed to get package from Repository."), versions;
    }
    var p := pkg.value;
    var h := Hash(blake3, manifest.value.hashKind, serialize(p));
    var placed;
    placed, versions' := PlaceTree(versions, Utf8(VersionDirName(p.id, h)), store, p.chunks, serialize(p));
    PlacedMetaLast(versions, Utf8(VersionDirName(p.id, h)), store, p.chunks, serialize(p));
    if placed.Err? {
      return Err(placed.msg), versions';
    }
    r := Ok(h);
  }

  /** A version `install_version` has written is reported by
      `get_versions` for the same package, whenever the hash has no `-`
      (a Blake3 hex digest never has one). */
  lemma InstalledVersionListed(listing: seq<EntryName>, id: string, h: string)
    requires '-' !in h && Utf8(VersionDirName(id, h)) in listing
    ensures h in VersionsListed(listing, id)
  {
    var i :| 0 <= i < |listing| && listing[i] == Utf8(VersionDirName(id, h));
    VersionOfIff(VersionDirName(id, h), id, h);
    VersionsListedMembers(listing, id);
  }

  /** `switch_version`: create the link `{id}.tmp` pointing at
      `../versions/{id}-{hash}` and rename it over `{id}`. Whether that
      version exists is not checked. A link cannot be renamed over a real
      directory, so after `install` has rebuilt `installed/{id}` the switch
      fails and leaves `{id}.tmp` behind. */
  method SwitchVersion(installed: Links, hash: string, id: string) returns (r: Result<()>, installed': Links)
    ensures id + ".tmp" in installed ==> r.Err? && installed' == installed
    ensures id + ".tmp" !in installed && id in installed && installed[id].RealDir? ==>
      && r.Err?
      && installed' == installed[id + ".tmp" := Link("../versions/" + VersionDirName(id, hash))]
    ensures id + ".tmp" !in installed && !(id in installed && installed[id].RealDir?) ==>
      && r.Ok?
      && installed'.Keys == installed.Keys + {id}
      && installed'[id] == Link("../versions/" + VersionDirName(id, hash))
      && forall e :: e in installed && e != id ==> installed'[e] == installed[e]
  {
    var tmp := id + ".tmp";
    var target := Link("../versions/" + VersionDirName(id, hash));
    if tmp in installed {
      // `symlink` refuses to replace an existing entry
      return Err("File exists"), installed;
    }
    assert |tmp| == |id| + 4;
    var staged := installed[tmp := target];
    if id in staged && staged[id].RealDir? {
      // `rename` of a link over a directory fails with EISDIR
      return Err("Is a directory"), staged;
    }
    installed' := (staged - {tmp})[id := staged[tmp]];
    r := Ok(());
  }

  /** `remove_version`: delete `versions/{id}-{hash}` when it exists,
      otherwise fail and change nothing. */
  method RemoveVersion(versions: VersionDirs, hash: string, id: string) returns (r: Result<()>, versions': VersionDirs)
    ensures r.Ok? <==> Utf8(VersionDirName(id, hash)) in versions
    ensures r.Ok? ==> versions' == versions - {Utf8(VersionDirName(id, hash))}
    ensures r.Err? ==>
      versions' == versions && r.msg == "The version " + hash + " is not installed for package " + id
  {
    var name := Utf8(VersionDirName(id, hash));
    if name in versions {
      return Ok(()), versions - {name};
    }
    return Err("The version " + hash + " is not installed for package " + id), versions;
  }
}
