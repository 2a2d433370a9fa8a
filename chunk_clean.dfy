/** Removing unreferenced entries from the chunk store (src/chunks/utils.rs). */
module ChunkClean {
  import opened Base
  import opened Chunks
  import opened Types

  /** The whitelist `clean` builds: the store name of every allowed chunk. */
  function AllowedNames(chunks: seq<Chunk>): (names: set<string>)
    ensures forall c :: c in chunks ==> ChunkFilename(c.hash, c.permissions) in names
    ensures forall n :: n in names ==> exists c :: c in chunks && n == ChunkFilename(c.hash, c.permissions)
  {
    set c | c in chunks :: ChunkFilename(c.hash, c.permissions)
  }

  /** Whether `clean` keeps the entry: names that are not UTF-8 are skipped,
      the rest must be whitelisted. */
  predicate Kept(name: EntryName, allowed: set<string>)
  {
    name.NonUtf8? || name.text in allowed
  }

  /** The store after `clean`. */
  function Cleaned(store: Store, allowed: set<string>): Store
  {
    map k | k in store && Kept(k, allowed) :: store[k]
  }

  /** `clean`: every remaining UTF-8 name is whitelisted, every kept entry
      is untouched, and nothing is created. */
  method Clean(store: Store, allowed: set<string>) returns (store': Store)
    ensures store' == Cleaned(store, allowed)
    ensures store'.Keys <= store.Keys
    ensures forall k :: k in store' && k.Utf8? ==> k.text in allowed
    ensures forall k :: k in store && Kept(k, allowed) ==> k in store' && store'[k] == store[k]
  {
    store' := store;
    var todo := store.Keys;
    while todo != {}
      invariant todo <= store.Keys
      invariant forall k :: k in store' <==> k in store && (k in todo || Kept(k, allowed))
      invariant forall k :: k in store' ==> store'[k] == store[k]
      decreases |todo|
    {
      var k :| k in todo;
      if !Kept(k, allowed) {
        store' := map j | j in store' && j != k :: store'[j];
      }
      todo := todo - {k};
    }
    assert store'.Keys == Cleaned(store, allowed).Keys;
  }

  /** Cleaning twice with the same whitelist changes nothing the second time. */
  lemma CleanedIdempotent(store: Store, allowed: set<string>)
    ensures Cleaned(Cleaned(store, allowed), allowed) == Cleaned(store, allowed)
  {
    var once := Cleaned(store, allowed);
    assert Cleaned(once, allowed).Keys == once.Keys;
  }

  /** The test `test_clean`: entries of the two allowed chunks stay, the
      third is removed. */
  lemma CleanExample(d1: Bytes, d2: Bytes, d3: Bytes)
    ensures var n1, n2, n3 := ChunkFilename("hash1", 0x1A4), ChunkFilename("hash2", 0x1A4), ChunkFilename("hash3", 0x1A4);
      var allowed := AllowedNames([Chunk(["file1"], "hash1", 0x1A4, 1), Chunk(["file2"], "hash2", 0x1A4, 1)]);
      Cleaned(map[Utf8(n1) := d1, Utf8(n2) := d2, Utf8(n3) := d3], allowed) == map[Utf8(n1) := d1, Utf8(n2) := d2]
  {
    var n1, n2, n3 := ChunkFilename("hash1", 0x1A4), ChunkFilename("hash2", 0x1A4), ChunkFilename("hash3", 0x1A4);
    ChunkFilenameInjective("hash3", 0x1A4, "hash1", 0x1A4);
    ChunkFilenameInjective("hash3", 0x1A4, "hash2", 0x1A4);
    ChunkFilenameInjective("hash1", 0x1A4, "hash2", 0x1A4);
    TwoChunkNames(Chunk(["file1"], "hash1", 0x1A4, 1), Chunk(["file2"], "hash2", 0x1A4, 1));
    CleanThree(n1, n2, n3, d1, d2, d3);
  }

  lemma TwoChunkNames(c1: Chunk, c2: Chunk)
    ensures AllowedNames([c1, c2]) == {ChunkFilename(c1.hash, c1.permissions), ChunkFilename(c2.hash, c2.permissions)}
  {
    assert forall c :: c in [c1, c2] ==> c == c1 || c == c2;
  }

  lemma CleanThree(n1: string, n2: string, n3: string, d1: Bytes, d2: Bytes, d3: Bytes)
    requires n3 != n1 && n3 != n2 && n1 != n2
    ensures Cleaned(map[Utf8(n1) := d1, Utf8(n2) := d2, Utf8(n3) := d3], {n1, n2}) == map[Utf8(n1) := d1, Utf8(n2) := d2]
  {
    var st := map[Utf8(n1) := d1, Utf8(n2) := d2, Utf8(n3) := d3];
    assert Cleaned(st, {n1, n2}).Keys == {Utf8(n1), Utf8(n2)};
  }

  /** The chunks of every listed package, package by package. */
  function PackageChunks(packages: seq<PackageManifest>): seq<Chunk>
  {
    if packages == [] then [] else PackageChunks(packages[..|packages| - 1]) + packages[|packages| - 1].chunks
  }

  lemma {:induction false} PackageChunksMembers(packages: seq<PackageManifest>)
    ensures forall c :: c in PackageChunks(packages) <==> exists p :: p in packages && c in p.chunks
  {
    if packages != [] {
      var init := packages[..|packages| - 1];
      var last := packages[|packages| - 1];
      PackageChunksMembers(init);
      assert packages == init + [last];
      forall c | c in PackageChunks(packages) ensures exists p :: p in packages && c in p.chunks {
        if c in PackageChunks(init) {
          var p :| p in init && c in p.chunks;
          assert p in packages;
        } else {
          assert last in packages;
        }
      }
      forall c, p | p in packages && c in p.chunks ensures c in PackageChunks(packages) {
        if p != last {
          assert p in init;
        }
      }
    }
  }

  /** The loops of `clean_unused` and `clean_used`: each repository entry
      gives its package list (`get_all_packages` or
      `get_all_installed_packages`, which are not part of this model); the
      first failing entry aborts before the store is touched, otherwise
      the chunks of all packages become the whitelist. */
  method CleanWith(repos: seq<Result<seq<PackageManifest>>>, store: Store) returns (r: Result<()>, store': Store)
    ensures r.Err? <==> exists i :: 0 <= i < |repos| && repos[i].Err?
    ensures r.Err? ==> store' == store
    ensures r.Ok? ==> store' == Cleaned(store, AllowedNames(RepoChunks(repos)))
  {
    var chunks: seq<Chunk> := [];
    var i := 0;
    while i < |repos|
      invariant 0 <= i <= |repos|
      invariant forall j :: 0 <= j < i ==> repos[j].Ok?
      invariant chunks == RepoChunks(repos[..i])
    {
      if repos[i].Err? {
        return Err(repos[i].msg), store;
      }
      assert repos[..i + 1][..i] == repos[..i] && repos[..i + 1][i] == repos[i];
      assert RepoChunks(repos[..i + 1]) == RepoChunks(repos[..i]) + PackageChunks(repos[i].value);
      chunks := AppendPackageChunks(chunks, repos[i].value);
      i := i + 1;
    }
    assert repos[..i] == repos;
    store' := Clean(store, AllowedNames(chunks));
    r := Ok(());
  }

  /** The two inner loops: push every chunk of every package. */
  method AppendPackageChunks(chunks: seq<Chunk>, packages: seq<PackageManifest>) returns (chunks': seq<Chunk>)
    ensures chunks' == chunks + PackageChunks(packages)
  {
    chunks' := chunks;
    var j := 0;
    while j < |packages|
      invariant 0 <= j <= |packages|
      invariant chunks' == chunks + PackageChunks(packages[..j])
    {
      assert packages[..j + 1][..j] == packages[..j] && packages[..j + 1][j] == packages[j];
      var k := 0;
      ghost var before := chunks';
      while k < |packages[j].chunks|
        invariant 0 <= k <= |packages[j].chunks|
        invariant chunks' == before + packages[j].chunks[..k]
      {
        assert packages[j].chunks[..k + 1] == packages[j].chunks[..k] + [packages[j].chunks[k]];
        chunks' := chunks' + [packages[j].chunks[k]];
        k := k + 1;
      }
      assert packages[j].chunks[..k] == packages[j].chunks;
      j := j + 1;
    }
    assert packages[..j] == packages;
  }

  /** The chunks of every package of every repository entry, in order;
      entries that failed contribute nothing. */
  function RepoChunks(repos: seq<Result<seq<PackageManifest>>>): seq<Chunk>
  {
    if repos == [] then []
    else
      var last := repos[|repos| - 1];
      RepoChunks(repos[..|repos| - 1]) + (if last.Ok? then PackageChunks(last.value) else [])
  }

  /** What survives `clean_unused` / `clean_used`: a UTF-8 entry stays exactly
      when some package of some repository has a chunk of that name. */
  lemma {:induction false} CleanKeepsReferenced(repos: seq<Result<seq<PackageManifest>>>, store: Store, name: string)
    requires forall i :: 0 <= i < |repos| ==> repos[i].Ok?
    ensures Utf8(name) in Cleaned(store, AllowedNames(RepoChunks(repos))) <==>
      Utf8(name) in store && exists i, p, c :: (0 <= i < |repos| && p in repos[i].value && c in p.chunks
        && name == ChunkFilename(c.hash, c.permissions))
  {
    RepoChunksMembers(repos);
  }

  lemma RepoChunksMembers(repos: seq<Result<seq<PackageManifest>>>)
    requires forall i :: 0 <= i < |repos| ==> repos[i].Ok?
    ensures forall c :: c in RepoChunks(repos) <==>
      exists i, p :: 0 <= i < |repos| && p in repos[i].value && c in p.chunks
  {
    RepoChunksSound(repos);
    RepoChunksComplete(repos);
  }

  /** Every collected chunk belongs to a package of some repository. */
  lemma {:induction false} RepoChunksSound(repos: seq<Result<seq<PackageManifest>>>)
    ensures forall c :: c in RepoChunks(repos) ==>
      exists i, p :: 0 <= i < |repos| && repos[i].Ok? && p in repos[i].value && c in p.chunks
  {
    if repos != [] {
      var n := |repos| - 1;
      var init := repos[..n];
      RepoChunksSound(init);
      if repos[n].Ok? {
        PackageChunksMembers(repos[n].value);
      }
      forall c | c in RepoChunks(repos)
        ensures exists i, p :: 0 <= i < |repos| && repos[i].Ok? && p in repos[i].value && c in p.chunks
      {
        if c in RepoChunks(init) {
          var i, p :| 0 <= i < |init| && init[i].Ok? && p in init[i].value && c in p.chunks;
          assert repos[i] == init[i];
        } else {
          var p :| p in repos[n].value && c in p.chunks;
        }
      }
    }
  }

  /** Every chunk of every package of every readable repository is collected. */
  lemma {:induction false} RepoChunksComplete(repos: seq<Result<seq<PackageManifest>>>)
    ensures forall i, p, c :: 0 <= i < |repos| && repos[i].Ok? && p in repos[i].value && c in p.chunks ==>
      c in RepoChunks(repos)
  {
    if repos != [] {
      var n := |repos| - 1;
      var init := repos[..n];
      RepoChunksComplete(init);
      if repos[n].Ok? {
        PackageChunksMembers(repos[n].value);
      }
      forall i, p, c | 0 <= i < |repos| && repos[i].Ok? && p in repos[i].value && c in p.chunks
        ensures c in RepoChunks(repos)
      {
        if i < n {
          assert init[i] == repos[i];
          assert c in RepoChunks(init);
        }
      }
    }
  }
}
