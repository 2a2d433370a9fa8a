/** Building a self-extracting bundle of a one-package repository
    (src/build/bundle.rs). The repository is a directory tree, its walk
    order a parameter; `get_installed_package` (which is not part of this
    model) is a parameter giving its outcome for a package id, and the tar
    writer a parameter turning the archived entries into bytes. */
module BuildBundle {
  import opened Base
  import opened Fs
  import opened Types
  import opened Manifest
  import opened Bundle

  /** An archived regular file: its path relative to the repository root,
      its contents and its mode. */
  datatype Entry = Entry(path: Path, data: Bytes, mode: U32)

  /** The top-level regular files of a tree, by name (what the manifest
      functions read). */
  function TopFiles(t: Tree): (d: Files)
    ensures forall name :: name in d <==> IsFile(t, [name])
    ensures forall name :: name in d ==> IsFile(t, [name]) && d[name] == t[[name]].data
  {
    assert forall p :: p in t && |p| == 1 ==> p == [p[0]];
    map p | p in t && |p| == 1 && t[p].File? :: p[0] := t[p].data
  }

  /** The regular files of the tree in walk order; directories and other
      entries are passed over. */
  function Archived(t: Tree, order: seq<Path>): seq<Entry>
  {
    if order == [] then []
    else
      var p := order[|order| - 1];
      Archived(t, order[..|order| - 1])
        + if IsFile(t, p) then [Entry(p, t[p].data, t[p].mode)] else []
  }

  /** Every archived entry is a regular file of the tree, with its
      contents and mode. */
  lemma {:induction false} ArchivedSound(t: Tree, order: seq<Path>)
    ensures forall e :: e in Archived(t, order) ==>
      e.path in order && IsFile(t, e.path) && e.data == t[e.path].data && e.mode == t[e.path].mode
  {
    if order != [] {
      var init := order[..|order| - 1];
      ArchivedSound(t, init);
      assert forall p :: p in init ==> p in order;
    }
  }

  /** Every regular file the walk visits is archived. */
  lemma {:induction false} ArchivedComplete(t: Tree, order: seq<Path>, i: nat)
    requires i < |order| && IsFile(t, order[i])
    ensures Entry(order[i], t[order[i]].data, t[order[i]].mode) in Archived(t, order)
  {
    if i < |order| - 1 {
      var init := order[..|order| - 1];
      assert init[i] == order[i];
      ArchivedComplete(t, init, i);
    }
  }

  /** `compress`: walk the repository and add each regular file under its
      relative path. */
  method Compress(t: Tree, order: seq<Path>, archive: seq<Entry> -> Bytes) returns (tar: Bytes)
    ensures tar == archive(Archived(t, order))
  {
    var entries: seq<Entry> := [];
    for i := 0 to |order|
      invariant entries == Archived(t, order[..i])
    {
      assert order[..i + 1][..i] == order[..i];
      var p := order[i];
      if p in t && t[p].File? {
        entries := entries + [Entry(p, t[p].data, t[p].mode)];
      }
    }
    assert order[..|order|] == order;
    tar := archive(entries);
  }

  /** What `build_bundle` produces: the padded header, then the manifest
      checks, then the installed-package check, then the archive. */
  function Bundled(header: Bytes, repo: Tree, order: seq<Path>, parse: Parser, crypto: Crypto,
                   installed: string -> Result<PackageManifest>, archive: seq<Entry> -> Bytes): (r: Result<Bytes>)
    ensures Pad(header).Err? ==> r == Err("Header too large.")
    ensures r.Ok? <==>
      && Pad(header).Ok?
      && ReadManifest(TopFiles(repo), parse, crypto).Ok?
      && |ReadManifest(TopFiles(repo), parse, crypto).value.packages| == 1
      && installed(ReadManifest(TopFiles(repo), parse, crypto).value.packages[0].id).Ok?
    ensures Pad(header).Ok? && ReadManifest(TopFiles(repo), parse, crypto).Ok? ==>
      var packages := ReadManifest(TopFiles(repo), parse, crypto).value.packages;
      && (packages == [] ==> r == Err("No packages found in Repository."))
      && (|packages| > 1 ==> r == Err("More than one package found."))
    ensures r.Ok? ==>
      var tar := archive(Archived(repo, order));
      && Pad(header).value <= r.value
      && r.value[|Pad(header).value|..] == tar
      && |r.value| == |Pad(header).value| + |tar|
  {
    match Pad(header)
    case Err(e) => Err(e)
    case Ok(padded) =>
      match ReadManifest(TopFiles(repo), parse, crypto)
      case Err(e) => Err(e)
      case Ok(m) =>
        if m.packages == [] then Err("No packages found in Repository.")
        else if |m.packages| != 1 then Err("More than one package found.")
        else
          match installed(m.packages[0].id)
          case Err(e) => Err(e)
          case Ok(_) => Ok(padded + archive(Archived(repo, order)))
  }

  /** `build_bundle`, step by step. */
  method BuildBundle(header: Bytes, repo: Tree, order: seq<Path>, parse: Parser, crypto: Crypto,
                     installed: string -> Result<PackageManifest>, archive: seq<Entry> -> Bytes)
    returns (r: Result<Bytes>)
    ensures r == Bundled(header, repo, order, parse, crypto, installed, archive)
  {
    var padded := PadHeader(header);
    if padded.Err? {
      return Err(padded.msg);
    }
    var manifest := ReadManifest(TopFiles(repo), parse, crypto);
    if manifest.Err? {
      return Err(manifest.msg);
    }
    if |manifest.value.packages| == 0 {
      return Err("No packages found in Repository.");
    }
    if |manifest.value.packages| != 1 {
      return Err("More than one package found.");
    }
    var package := installed(manifest.value.packages[0].id);
    if package.Err? {
      return Err(package.msg);
    }
    var tar := Compress(repo, order, archive);
    r := Ok(padded.value + tar);
  }

  /** A bundle gives back its archive: when the tar writer puts the magic
      in its first block and no block of the header executable carries
      it, the extractor finds exactly the archive after the header. */
  lemma BundleYieldsArchive(header: Bytes, repo: Tree, order: seq<Path>, parse: Parser, crypto: Crypto,
                            installed: string -> Result<PackageManifest>, archive: seq<Entry> -> Bytes)
    requires Bundled(header, repo, order, parse, crypto, installed, archive).Ok?
    requires forall k :: 0 <= k < MaxChunks ==> !MagicBlock(header, k)
    requires MagicBlock(archive(Archived(repo, order)), 0)
    ensures TarOf(Bundled(header, repo, order, parse, crypto, installed, archive).value)
         == Ok(archive(Archived(repo, order)))
  {
    var tar := archive(Archived(repo, order));
    RoundTrip(header, tar);
  }
}
