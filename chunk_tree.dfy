/** Turning a file tree into chunks and back (src/chunks/tree.rs). */
module ChunkTree {
  import opened Base
  import opened Fs
  import opened Chunks

  /** What `WalkDir::new(root)` yields: every entry at or below `root`,
      each exactly once, in the walk's own order. */
  ghost predicate WalkOf(fs: Tree, root: Path, walk: seq<Path>)
  {
    && WalkWithin(fs, root, walk)
    && (forall i, j :: 0 <= i < j < |walk| ==> walk[i] != walk[j])
    && (forall p :: p in fs && root <= p ==> p in walk)
  }

  /** Every walked entry exists and lies at or below `root`. */
  ghost predicate WalkWithin(fs: Tree, root: Path, walk: seq<Path>)
  {
    forall i :: 0 <= i < |walk| ==> walk[i] in fs && root <= walk[i]
  }

  /** The chunk recorded for a file with bytes `data` and mode `mode` that
      sits at `rel` below the saved tree. */
  function FileChunk(rel: Path, data: Bytes, mode: U32, kind: HashKind, blake3: Bytes -> string): Chunk
  {
    Chunk(rel, Hash(blake3, kind, data), mode % 512, |data| / 1024)
  }

  // ------------------------------------------------------------------
  // save_tree
  // ------------------------------------------------------------------

  /** The chunks of the regular files among the walked entries, in walk order. */
  function SavedChunks(fs: Tree, root: Path, walk: seq<Path>, kind: HashKind, blake3: Bytes -> string): seq<Chunk>
    requires WalkWithin(fs, root, walk)
  {
    if walk == [] then []
    else
      var w := walk[|walk| - 1];
      SavedChunks(fs, root, walk[..|walk| - 1], kind, blake3)
        + (if fs[w].File? then [FileChunk(w[|root|..], fs[w].data, fs[w].mode, kind, blake3)] else [])
  }

  /** The store after each walked regular file has been linked or written
      under its chunk file name. */
  function SavedStore(fs: Tree, root: Path, walk: seq<Path>, kind: HashKind, blake3: Bytes -> string, store: Store): Store
    requires WalkWithin(fs, root, walk)
  {
    if walk == [] then store
    else
      var w := walk[|walk| - 1];
      var s := SavedStore(fs, root, walk[..|walk| - 1], kind, blake3, store);
      if fs[w].File? then s[StoreKey(FileChunk(w[|root|..], fs[w].data, fs[w].mode, kind, blake3)) := fs[w].data]
      else s
  }

  /** `save_tree`: a single file gives one chunk named after the file;
      a directory gives one chunk per regular file below it, in walk order.
      Every file's bytes land in the store under the chunk's file name
      (`hard_link` and the `fs::write` fallback leave the same bytes). */
  method SaveTree(fs: Tree, treePath: Path, walk: seq<Path>, kind: HashKind, blake3: Bytes -> string, store: Store)
    returns (r: Result<seq<Chunk>>, store': Store)
    requires WalkWithin(fs, treePath, walk)
    ensures treePath !in fs ==> r.Err? && store' == store
    ensures IsFile(fs, treePath) && treePath != [] ==>
      var c := FileChunk([treePath[|treePath| - 1]], fs[treePath].data, fs[treePath].mode, kind, blake3);
      r == Ok([c]) && store' == store[StoreKey(c) := fs[treePath].data]
    ensures treePath in fs && !fs[treePath].File? ==>
      r == Ok(SavedChunks(fs, treePath, walk, kind, blake3))
      && store' == SavedStore(fs, treePath, walk, kind, blake3, store)
  {
    store' := store;
    if IsFile(fs, treePath) {
      if treePath == [] {
        // `file_name().unwrap()` panics on the root
        return Err("path has no file name"), store';
      }
      var node := fs[treePath];
      var c := FileChunk([treePath[|treePath| - 1]], node.data, node.mode, kind, blake3);
      store' := store'[StoreKey(c) := node.data];
      return Ok([c]), store';
    }
    if treePath !in fs {
      // the walk's first entry is an error
      return Err("No such file or directory"), store';
    }
    var chunks;
    chunks, store' := SaveWalk(fs, treePath, walk, kind, blake3, store);
    r := Ok(chunks);
  }

  /** The `WalkDir` loop of `save_tree`: non-files are skipped. */
  method SaveWalk(fs: Tree, root: Path, walk: seq<Path>, kind: HashKind, blake3: Bytes -> string, store: Store)
    returns (chunks: seq<Chunk>, store': Store)
    requires WalkWithin(fs, root, walk)
    ensures chunks == SavedChunks(fs, root, walk, kind, blake3)
    ensures store' == SavedStore(fs, root, walk, kind, blake3, store)
  {
    chunks, store' := [], store;
    var i := 0;
    while i < |walk|
      invariant 0 <= i <= |walk|
      invariant chunks == SavedChunks(fs, root, walk[..i], kind, blake3)
      invariant store' == SavedStore(fs, root, walk[..i], kind, blake3, store)
    {
      var w := walk[i];
      SavedStep(fs, root, walk, i, kind, blake3, store);
      if fs[w].File? {
        var c := FileChunk(w[|root|..], fs[w].data, fs[w].mode, kind, blake3);
        store' := store'[StoreKey(c) := fs[w].data];
        chunks := chunks + [c];
      }
      i := i + 1;
    }
    assert walk[..|walk|] == walk;
  }

  /** Saving one more walked entry extends the chunks and the store. */
  lemma SavedStep(fs: Tree, root: Path, walk: seq<Path>, i: nat, kind: HashKind, blake3: Bytes -> string, store: Store)
    requires WalkWithin(fs, root, walk) && i < |walk|
    ensures WalkWithin(fs, root, walk[..i]) && WalkWithin(fs, root, walk[..i + 1])
    ensures var w := walk[i];
      SavedChunks(fs, root, walk[..i + 1], kind, blake3)
        == SavedChunks(fs, root, walk[..i], kind, blake3)
           + (if fs[w].File? then [FileChunk(w[|root|..], fs[w].data, fs[w].mode, kind, blake3)] else [])
    ensures var w := walk[i];
      SavedStore(fs, root, walk[..i + 1], kind, blake3, store)
        == if fs[w].File? then SavedStore(fs, root, walk[..i], kind, blake3, store)[StoreKey(FileChunk(w[|root|..], fs[w].data, fs[w].mode, kind, blake3)) := fs[w].data]
           else SavedStore(fs, root, walk[..i], kind, blake3, store)
  {
    assert walk[..i + 1][..i] == walk[..i];
  }

  /** Every saved chunk describes a regular file below the root: its path is
      the file's path relative to the root, its permissions are the mode's
      low nine bits (never above 0o777), its size is the byte count divided
      by 1024, and its hash is the hash of the bytes; conversely every
      walked regular file has a chunk. */
  lemma {:induction false} SavedChunksDescribeFiles(fs: Tree, root: Path, walk: seq<Path>, kind: HashKind, blake3: Bytes -> string)
    requires WalkWithin(fs, root, walk)
    ensures forall c :: c in SavedChunks(fs, root, walk, kind, blake3) <==>
      exists i :: 0 <= i < |walk| && IsFile(fs, walk[i])
        && c == FileChunk(walk[i][|root|..], fs[walk[i]].data, fs[walk[i]].mode, kind, blake3)
    ensures forall c :: c in SavedChunks(fs, root, walk, kind, blake3) ==>
      IsFile(fs, root + c.path) && c.permissions <= 0x1FF
      && c == FileChunk(c.path, fs[root + c.path].data, fs[root + c.path].mode, kind, blake3)
  {
    if walk != [] {
      var init := walk[..|walk| - 1];
      SavedChunksDescribeFiles(fs, root, init, kind, blake3);
      forall i | 0 <= i < |walk| ensures root + walk[i][|root|..] == walk[i] {
        assert root <= walk[i];
      }
      forall c | c in SavedChunks(fs, root, walk, kind, blake3)
        ensures exists i :: (0 <= i < |walk| && IsFile(fs, walk[i])
          && c == FileChunk(walk[i][|root|..], fs[walk[i]].data, fs[walk[i]].mode, kind, blake3))
      {
        if c in SavedChunks(fs, root, init, kind, blake3) {
          var i :| 0 <= i < |init| && IsFile(fs, init[i])
            && c == FileChunk(init[i][|root|..], fs[init[i]].data, fs[init[i]].mode, kind, blake3);
          assert init[i] == walk[i];
        } else {
          assert c == FileChunk(walk[|walk| - 1][|root|..], fs[walk[|walk| - 1]].data, fs[walk[|walk| - 1]].mode, kind, blake3);
        }
      }
      forall i | 0 <= i < |walk| && IsFile(fs, walk[i])
        ensures FileChunk(walk[i][|root|..], fs[walk[i]].data, fs[walk[i]].mode, kind, blake3) in SavedChunks(fs, root, walk, kind, blake3)
      {
        if i < |init| { assert init[i] == walk[i]; }
      }
    }
  }

  /** No two chunks share a path. */
  ghost predicate DistinctPaths(cs: seq<Chunk>)
  {
    forall i, j :: 0 <= i < j < |cs| ==> cs[i].path != cs[j].path
  }

  /** A walk that visits each entry once yields chunks with distinct paths. */
  lemma {:induction false} SavedChunkPathsDistinct(fs: Tree, root: Path, walk: seq<Path>, kind: HashKind, blake3: Bytes -> string)
    requires WalkWithin(fs, root, walk)
    requires forall i, j :: 0 <= i < j < |walk| ==> walk[i] != walk[j]
    ensures DistinctPaths(SavedChunks(fs, root, walk, kind, blake3))
  {
    if walk != [] {
      var init := walk[..|walk| - 1];
      var w := walk[|walk| - 1];
      SavedChunkPathsDistinct(fs, root, init, kind, blake3);
      SavedChunksDescribeFiles(fs, root, init, kind, blake3);
      var cs0 := SavedChunks(fs, root, init, kind, blake3);
      if fs[w].File? {
        forall c | c in cs0 ensures c.path != w[|root|..] {
          var i :| 0 <= i < |init| && IsFile(fs, init[i])
            && c == FileChunk(init[i][|root|..], fs[init[i]].data, fs[init[i]].mode, kind, blake3);
          assert root + init[i][|root|..] == init[i] && root + w[|root|..] == w;
          assert init[i] == walk[i] != w;
        }
        var cw := FileChunk(w[|root|..], fs[w].data, fs[w].mode, kind, blake3);
        var cs := cs0 + [cw];
        assert SavedChunks(fs, root, walk, kind, blake3) == cs;
        forall i, j | 0 <= i < j < |cs| ensures cs[i].path != cs[j].path {
          if j == |cs0| {
            assert cs[i] == cs0[i] && cs[j] == cw;
            assert cs0[i] in cs0;
          } else {
            assert cs[i] == cs0[i] && cs[j] == cs0[j];
            assert DistinctPaths(cs0);
          }
        }
      } else {
        assert SavedChunks(fs, root, walk, kind, blake3) == cs0;
      }
    }
  }

  /** Files whose store names coincide have equal bytes: what a collision-free
      hash of fixed length guarantees. */
  ghost predicate StoreNamesSeparateContents(fs: Tree, root: Path, kind: HashKind, blake3: Bytes -> string)
  {
    forall p, q :: IsFile(fs, p) && IsFile(fs, q) && root <= p && root <= q
      && ChunkFilename(Hash(blake3, kind, fs[p].data), fs[p].mode % 512)
         == ChunkFilename(Hash(blake3, kind, fs[q].data), fs[q].mode % 512)
      ==> fs[p].data == fs[q].data
  }

  /** Blake3 digests all have one length, so when they do not collide on the
      tree's files the store names keep distinct contents apart. */
  lemma Blake3SeparatesContents(fs: Tree, root: Path, blake3: Bytes -> string)
    requires forall p, q :: IsFile(fs, p) && IsFile(fs, q) ==> |blake3(fs[p].data)| == |blake3(fs[q].data)|
    requires forall p, q :: IsFile(fs, p) && IsFile(fs, q) && blake3(fs[p].data) == blake3(fs[q].data) ==> fs[p].data == fs[q].data
    ensures StoreNamesSeparateContents(fs, root, Blake3, blake3)
  {
    forall p, q | IsFile(fs, p) && IsFile(fs, q) && root <= p && root <= q
      && ChunkFilename(Hash(blake3, Blake3, fs[p].data), fs[p].mode % 512)
         == ChunkFilename(Hash(blake3, Blake3, fs[q].data), fs[q].mode % 512)
      ensures fs[p].data == fs[q].data
    {
      ChunkFilenameInjective(blake3(fs[p].data), fs[p].mode % 512, blake3(fs[q].data), fs[q].mode % 512);
    }
  }

  /** With the unimplemented kinds every hash is "", so two files with the
      same permission bits share one store entry whatever their bytes. */
  lemma UnimplementedKindsShareEntries(d1: Bytes, d2: Bytes, mode: U32, blake3: Bytes -> string)
    ensures FileChunk(["a"], d1, mode, Sha256, blake3).hash == FileChunk(["b"], d2, mode, Sha256, blake3).hash == ""
    ensures StoreKey(FileChunk(["a"], d1, mode, Sha256, blake3)) == StoreKey(FileChunk(["b"], d2, mode, Sha256, blake3))
  {
  }

  /** `s` holds, under each chunk's store name, the bytes of the file the
      chunk describes, and differs from `before` only at chunk names. */
  ghost predicate StoreHolds(fs: Tree, root: Path, cs: seq<Chunk>, before: Store, s: Store)
  {
    StoreHoldsFiles(fs, root, cs, s) && OnlyChunkEntriesChanged(cs, before, s)
  }

  /** Each chunk's store entry holds the bytes of the file it describes. */
  ghost predicate StoreHoldsFiles(fs: Tree, root: Path, cs: seq<Chunk>, s: Store)
  {
    forall c :: c in cs ==> StoreKey(c) in s && IsFile(fs, root + c.path) && s[StoreKey(c)] == fs[root + c.path].data
  }

  /** `s` differs from `before` only at the store names of `cs`. */
  ghost predicate OnlyChunkEntriesChanged(cs: seq<Chunk>, before: Store, s: Store)
  {
    && before.Keys <= s.Keys
    && (forall k :: k in s && !(k in before && s[k] == before[k]) ==> exists c :: c in cs && k == StoreKey(c))
  }

  /** After saving, every chunk's store entry holds the bytes of the file it
      describes, and the store only gained or changed chunk entries. */
  lemma {:induction false} SavedStoreHoldsFiles(fs: Tree, root: Path, walk: seq<Path>, kind: HashKind, blake3: Bytes -> string, store: Store)
    requires WalkWithin(fs, root, walk)
    requires StoreNamesSeparateContents(fs, root, kind, blake3)
    ensures StoreHolds(fs, root, SavedChunks(fs, root, walk, kind, blake3), store, SavedStore(fs, root, walk, kind, blake3, store))
  {
    if walk != [] {
      var init := walk[..|walk| - 1];
      var w := walk[|walk| - 1];
      SavedStoreHoldsFiles(fs, root, init, kind, blake3, store);
      SavedChunksDescribeFiles(fs, root, init, kind, blake3);
      var cs0 := SavedChunks(fs, root, init, kind, blake3);
      var s0 := SavedStore(fs, root, init, kind, blake3, store);
      if fs[w].File? {
        var cw := FileChunk(w[|root|..], fs[w].data, fs[w].mode, kind, blake3);
        assert SavedChunks(fs, root, walk, kind, blake3) == cs0 + [cw];
        assert SavedStore(fs, root, walk, kind, blake3, store) == s0[StoreKey(cw) := fs[w].data];
        forall c | c in cs0 && StoreKey(c) == StoreKey(cw) ensures fs[root + c.path].data == fs[w].data {
          SameNameSameData(fs, root, c, w, kind, blake3);
        }
        StoreHoldsStep(fs, root, cs0, store, s0, w, kind, blake3);
      } else {
        assert SavedChunks(fs, root, walk, kind, blake3) == cs0;
      }
    }
  }

  /** A chunk saved earlier whose store name equals the name of file `w`'s
      chunk described the same bytes. */
  lemma SameNameSameData(fs: Tree, root: Path, c: Chunk, w: Path, kind: HashKind, blake3: Bytes -> string)
    requires IsFile(fs, root + c.path)
    requires c == FileChunk(c.path, fs[root + c.path].data, fs[root + c.path].mode, kind, blake3)
    requires IsFile(fs, w) && root <= w
    requires StoreNamesSeparateContents(fs, root, kind, blake3)
    ensures StoreKey(c) == StoreKey(FileChunk(w[|root|..], fs[w].data, fs[w].mode, kind, blake3)) ==>
      fs[root + c.path].data == fs[w].data
  {
    var p := root + c.path;
    assert root <= p;
  }

  lemma StoreHoldsStep(fs: Tree, root: Path, cs0: seq<Chunk>, store: Store, s0: Store, w: Path, kind: HashKind, blake3: Bytes -> string)
    requires StoreHolds(fs, root, cs0, store, s0)
    requires IsFile(fs, w) && root <= w
    requires forall c :: c in cs0 && StoreKey(c) == StoreKey(FileChunk(w[|root|..], fs[w].data, fs[w].mode, kind, blake3)) ==>
      fs[root + c.path].data == fs[w].data
    ensures var cw := FileChunk(w[|root|..], fs[w].data, fs[w].mode, kind, blake3);
      StoreHolds(fs, root, cs0 + [cw], store, s0[StoreKey(cw) := fs[w].data])
  {
    var cw := FileChunk(w[|root|..], fs[w].data, fs[w].mode, kind, blake3);
    assert root + w[|root|..] == w;
    StoreHoldsFilesStep(fs, root, cs0, s0, cw, fs[w].data);
    OnlyChunkEntriesStep(cs0, store, s0, cw, fs[w].data);
  }

  lemma StoreHoldsFilesStep(fs: Tree, root: Path, cs0: seq<Chunk>, s0: Store, cw: Chunk, data: Bytes)
    requires StoreHoldsFiles(fs, root, cs0, s0)
    requires IsFile(fs, root + cw.path) && fs[root + cw.path].data == data
    requires forall c :: c in cs0 && StoreKey(c) == StoreKey(cw) ==> fs[root + c.path].data == data
    ensures StoreHoldsFiles(fs, root, cs0 + [cw], s0[StoreKey(cw) := data])
  {
    forall c | c in cs0 + [cw]
      ensures StoreKey(c) in s0[StoreKey(cw) := data] && IsFile(fs, root + c.path)
        && s0[StoreKey(cw) := data][StoreKey(c)] == fs[root + c.path].data
    {
      if c != cw {
        assert c in cs0;
      }
    }
  }

  lemma OnlyChunkEntriesStep(cs0: seq<Chunk>, store: Store, s0: Store, cw: Chunk, data: Bytes)
    requires OnlyChunkEntriesChanged(cs0, store, s0)
    ensures OnlyChunkEntriesChanged(cs0 + [cw], store, s0[StoreKey(cw) := data])
  {
    var cs := cs0 + [cw];
    var s := s0[StoreKey(cw) := data];
    forall k | k in s && !(k in store && s[k] == store[k]) ensures exists c :: c in cs && k == StoreKey(c) {
      if k == StoreKey(cw) {
        assert cw in cs;
      } else {
        var c :| c in cs0 && k == StoreKey(c);
        assert c in cs;
      }
    }
  }

  // ------------------------------------------------------------------
  // load_tree
  // ------------------------------------------------------------------

  /** One iteration of `load_tree`: create the parent directories, link or
      copy the store entry into place, set the permission bits. A failure
      keeps the directories already created. */
  function LoadChunk(t: Tree, store: Store, c: Chunk): (Result<()>, Tree)
  {
    var p := c.path;
    if p == [] then (Err("Could not copy data while extracting"), t)
    else
      match CreateDirAll(t, p[..|p| - 1])
      case Err(e) => (Err(e), t)
      case Ok(t1) =>
        if StoreKey(c) !in store then (Err("Could not copy data while extracting"), t1)
        else
          match WriteFile(t1, p, store[StoreKey(c)], c.permissions % 512)
          case Err(e) => (Err("Could not copy data while extracting"), t1)
          case Ok(t2) => (Ok(()), t2)
  }

  /** `load_tree` over a list of chunks: stops at the first failure, keeping
      what the earlier chunks wrote. */
  function Load(t: Tree, store: Store, chunks: seq<Chunk>): (Result<()>, Tree)
  {
    if chunks == [] then (Ok(()), t)
    else
      var prev := Load(t, store, chunks[..|chunks| - 1]);
      if prev.0.Err? then prev else LoadChunk(prev.1, store, chunks[|chunks| - 1])
  }

  /** Once a prefix of the chunks fails, the later chunks change nothing. */
  lemma {:induction false} LoadStopsAtError(t: Tree, store: Store, chunks: seq<Chunk>, k: nat)
    requires k <= |chunks| && Load(t, store, chunks[..k]).0.Err?
    ensures Load(t, store, chunks) == Load(t, store, chunks[..k])
  {
    if k < |chunks| {
      var init := chunks[..|chunks| - 1];
      assert init[..k] == chunks[..k];
      LoadStopsAtError(t, store, init, k);
    } else {
      assert chunks[..k] == chunks;
    }
  }

  /** `load_tree`: the chunks are materialised one after another below the
      target; the first failure ends the loop with its error. */
  method LoadTree(target: Tree, store: Store, chunks: seq<Chunk>) returns (r: Result<()>, target': Tree)
    ensures (r, target') == Load(target, store, chunks)
  {
    target' := target;
    var i := 0;
    while i < |chunks|
      invariant 0 <= i <= |chunks|
      invariant (Ok(()), target') == Load(target, store, chunks[..i])
    {
      assert chunks[..i + 1][..i] == chunks[..i];
      var c := chunks[i];
      assert Load(target, store, chunks[..i + 1]) == LoadChunk(target', store, c);
      var p := c.path;
      if p == [] {
        LoadStopsAtError(target, store, chunks, i + 1);
        return Err("Could not copy data while extracting"), target';
      }
      var made := CreateDirAll(target', p[..|p| - 1]);
      if made.Err? {
        LoadStopsAtError(target, store, chunks, i + 1);
        return Err(made.msg), target';
      }
      target' := made.value;
      if StoreKey(c) !in store {
        LoadStopsAtError(target, store, chunks, i + 1);
        return Err("Could not copy data while extracting"), target';
      }
      var written := WriteFile(target', p, store[StoreKey(c)], c.permissions % 512);
      if written.Err? {
        LoadStopsAtError(target, store, chunks, i + 1);
        return Err("Could not copy data while extracting"), target';
      }
      target' := written.value;
      i := i + 1;
    }
    assert chunks[..|chunks|] == chunks;
    r := Ok(());
  }

  /** `t` holds each chunk's store bytes at the chunk's path with the
      chunk's permission bits, and otherwise only directories above them. */
  ghost predicate Materialised(t: Tree, store: Store, chunks: seq<Chunk>)
  {
    && (forall c :: c in chunks ==>
          c.path != [] && StoreKey(c) in store && c.path in t && t[c.path] == File(store[StoreKey(c)], c.permissions % 512))
    && (forall p :: p in t ==>
          (exists c :: c in chunks && p == c.path) || (t[p] == Dir && exists c :: c in chunks && p < c.path))
  }

  /** No chunk path is empty, equal to another or a proper prefix of another. */
  ghost predicate PrefixFree(chunks: seq<Chunk>)
  {
    && (forall i :: 0 <= i < |chunks| ==> chunks[i].path != [])
    && (forall i, j :: 0 <= i < |chunks| && 0 <= j < |chunks| && i != j ==> !(chunks[i].path <= chunks[j].path))
  }

  /** A chunk that is neither above nor below any materialised chunk loads:
      no file stands in the way of its parent directories or its own path. */
  lemma LoadChunkExtends(t: Tree, store: Store, cs: seq<Chunk>, c: Chunk)
    requires Materialised(t, store, cs)
    requires c.path != [] && StoreKey(c) in store
    requires forall d :: d in cs ==> !(d.path <= c.path) && !(c.path <= d.path)
    ensures LoadChunk(t, store, c).0.Ok?
    ensures Materialised(LoadChunk(t, store, c).1, store, cs + [c])
  {
    var p := c.path;
    var t1 := LoadChunkParents(t, store, cs, c);
    LoadChunkWrites(t, t1, store, cs, c);
  }

  lemma LoadChunkParents(t: Tree, store: Store, cs: seq<Chunk>, c: Chunk) returns (t1: Tree)
    requires Materialised(t, store, cs)
    requires c.path != [] && StoreKey(c) in store
    requires forall d :: d in cs ==> !(d.path <= c.path) && !(c.path <= d.path)
    ensures CreateDirAll(t, c.path[..|c.path| - 1]) == Ok(t1)
    ensures !IsDir(t1, c.path) && (|c.path| == 1 || IsDir(t1, c.path[..|c.path| - 1]))
    ensures LoadChunk(t, store, c) == (Ok(()), t1[c.path := File(store[StoreKey(c)], c.permissions % 512)])
  {
    var p := c.path;
    var parent := p[..|p| - 1];
    forall k | 1 <= k <= |parent| && parent[..k] in t ensures t[parent[..k]].Dir? {
      var q := parent[..k];
      assert q < p;
      forall d | d in cs ensures q != d.path {
        assert !(d.path <= p);
      }
    }
    t1 := CreateDirAll(t, parent).value;
    if p in t {
      forall d | d in cs ensures p != d.path && !(p < d.path) {
        assert !(p <= d.path);
      }
    }
    assert |p| > 1 ==> IsDir(t1, p[..|p| - 1]) by {
      if |p| > 1 { assert parent[..|parent|] == parent; }
    }
  }

  lemma LoadChunkWrites(t: Tree, t1: Tree, store: Store, cs: seq<Chunk>, c: Chunk)
    requires Materialised(t, store, cs)
    requires c.path != [] && StoreKey(c) in store
    requires forall d :: d in cs ==> !(d.path <= c.path) && !(c.path <= d.path)
    requires CreateDirAll(t, c.path[..|c.path| - 1]) == Ok(t1)
    ensures Materialised(t1[c.path := File(store[StoreKey(c)], c.permissions % 512)], store, cs + [c])
  {
    LoadChunkKeepsFiles(t, t1, store, cs, c);
    LoadChunkAddsDirs(t, t1, store, cs, c);
  }

  lemma LoadChunkKeepsFiles(t: Tree, t1: Tree, store: Store, cs: seq<Chunk>, c: Chunk)
    requires Materialised(t, store, cs)
    requires c.path != [] && StoreKey(c) in store
    requires forall d :: d in cs ==> !(d.path <= c.path)
    requires CreateDirAll(t, c.path[..|c.path| - 1]) == Ok(t1)
    ensures var t2 := t1[c.path := File(store[StoreKey(c)], c.permissions % 512)];
      forall d :: d in cs + [c] ==>
        d.path != [] && StoreKey(d) in store && d.path in t2 && t2[d.path] == File(store[StoreKey(d)], d.permissions % 512)
  {
    var t2 := t1[c.path := File(store[StoreKey(c)], c.permissions % 512)];
    forall d | d in cs + [c]
      ensures d.path != [] && StoreKey(d) in store && d.path in t2 && t2[d.path] == File(store[StoreKey(d)], d.permissions % 512)
    {
      if d != c {
        assert d in cs;
        assert d.path != c.path;
        assert t1[d.path] == t[d.path];
      }
    }
  }

  lemma LoadChunkAddsDirs(t: Tree, t1: Tree, store: Store, cs: seq<Chunk>, c: Chunk)
    requires Materialised(t, store, cs)
    requires c.path != [] && StoreKey(c) in store
    requires CreateDirAll(t, c.path[..|c.path| - 1]) == Ok(t1)
    ensures var t2 := t1[c.path := File(store[StoreKey(c)], c.permissions % 512)];
      forall q :: q in t2 ==> (exists d :: d in cs + [c] && q == d.path) || (t2[q] == Dir && exists d :: d in cs + [c] && q < d.path)
  {
    var p := c.path;
    var parent := p[..|p| - 1];
    var t2 := t1[p := File(store[StoreKey(c)], c.permissions % 512)];
    forall q | q in t2
      ensures (exists d :: d in cs + [c] && q == d.path) || (t2[q] == Dir && exists d :: d in cs + [c] && q < d.path)
    {
      if q == p {
        assert c in cs + [c];
      } else if q in t {
        if exists d :: d in cs && q == d.path {
          var d :| d in cs && q == d.path;
          assert d in cs + [c];
        } else {
          var d :| d in cs && q < d.path;
          assert d in cs + [c];
        }
      } else {
        assert q <= parent && q < p;
        assert c in cs + [c];
      }
    }
  }

  lemma PrefixFreeSplit(chunks: seq<Chunk>)
    requires PrefixFree(chunks) && chunks != []
    ensures PrefixFree(chunks[..|chunks| - 1])
    ensures var c := chunks[|chunks| - 1];
      c.path != [] && forall d :: d in chunks[..|chunks| - 1] ==> !(d.path <= c.path) && !(c.path <= d.path)
  {
    var init := chunks[..|chunks| - 1];
    var c := chunks[|chunks| - 1];
    forall i, j | 0 <= i < |init| && 0 <= j < |init| && i != j
      ensures !(init[i].path <= init[j].path)
    {
      assert init[i] == chunks[i] && init[j] == chunks[j];
    }
    forall d | d in init ensures !(d.path <= c.path) && !(c.path <= d.path) {
      var i :| 0 <= i < |init| && init[i] == d;
      assert chunks[i] == d;
    }
  }

  /** Loading prefix-free chunks whose bytes are all in the store into an
      empty directory succeeds and materialises exactly those chunks. */
  lemma {:induction false} LoadMaterialises(store: Store, chunks: seq<Chunk>)
    requires PrefixFree(chunks)
    requires forall c :: c in chunks ==> StoreKey(c) in store
    ensures Load(map[], store, chunks).0.Ok?
    ensures Materialised(Load(map[], store, chunks).1, store, chunks)
  {
    if chunks != [] {
      var init := chunks[..|chunks| - 1];
      var c := chunks[|chunks| - 1];
      PrefixFreeSplit(chunks);
      LoadMaterialises(store, init);
      assert Load(map[], store, chunks) == LoadChunk(Load(map[], store, init).1, store, c);
      LoadChunkExtends(Load(map[], store, init).1, store, init, c);
      assert init + [c] == chunks;
    }
  }

  /** In a well-formed tree no regular file lies above another one. */
  lemma FilesNotNested(fs: Tree, root: Path, x: Path, y: Path)
    requires WellFormed(fs) && IsFile(fs, root + x) && IsFile(fs, root + y) && x <= y
    ensures x == y
  {
    assert |x| < |y| ==> (root + y)[..|root + x|] == root + x && IsDir(fs, (root + y)[..|root + x|]);
  }

  /** The chunks of a well-formed directory are prefix-free: a file's path
      can be neither another file's path nor a directory above it. */
  lemma SavedChunksPrefixFree(fs: Tree, root: Path, walk: seq<Path>, kind: HashKind, blake3: Bytes -> string)
    requires WellFormed(fs) && WalkOf(fs, root, walk) && IsDir(fs, root)
    ensures PrefixFree(SavedChunks(fs, root, walk, kind, blake3))
  {
    var cs := SavedChunks(fs, root, walk, kind, blake3);
    SavedChunksDescribeFiles(fs, root, walk, kind, blake3);
    SavedChunkPathsDistinct(fs, root, walk, kind, blake3);
    forall i | 0 <= i < |cs| ensures cs[i].path != [] {
      assert cs[i] in cs;
      assert IsFile(fs, root + cs[i].path);
    }
    forall i, j | 0 <= i < |cs| && 0 <= j < |cs| && i != j ensures !(cs[i].path <= cs[j].path) {
      assert cs[i] in cs && cs[j] in cs;
      if cs[i].path <= cs[j].path {
        FilesNotNested(fs, root, cs[i].path, cs[j].path);
        assert false;
      }
    }
  }

  /** Every regular file below the root has a chunk at its relative path. */
  lemma SavedChunksCoverFiles(fs: Tree, root: Path, walk: seq<Path>, kind: HashKind, blake3: Bytes -> string)
    requires WalkOf(fs, root, walk)
    ensures forall q :: IsFile(fs, root + q) ==>
      FileChunk(q, fs[root + q].data, fs[root + q].mode, kind, blake3) in SavedChunks(fs, root, walk, kind, blake3)
  {
    SavedChunksDescribeFiles(fs, root, walk, kind, blake3);
    forall q | IsFile(fs, root + q)
      ensures FileChunk(q, fs[root + q].data, fs[root + q].mode, kind, blake3) in SavedChunks(fs, root, walk, kind, blake3)
    {
      var p := root + q;
      assert p in fs && root <= p;
      var i :| 0 <= i < |walk| && walk[i] == p;
      assert p[|root|..] == q;
    }
  }

  /** Round trip (the tests `test_load_tree` and `test_permissions`): loading
      the chunks `save_tree` produced from a directory, out of the store it
      filled, into an empty directory reproduces every regular file with its
      bytes and its permission bits, and nothing else but directories. */
  lemma SaveThenLoad(fs: Tree, root: Path, walk: seq<Path>, kind: HashKind, blake3: Bytes -> string, store: Store)
    requires WellFormed(fs) && WalkOf(fs, root, walk) && IsDir(fs, root)
    requires StoreNamesSeparateContents(fs, root, kind, blake3)
    ensures Load(map[], SavedStore(fs, root, walk, kind, blake3, store), SavedChunks(fs, root, walk, kind, blake3)).0.Ok?
    ensures ReproducesFiles(fs, root, Load(map[], SavedStore(fs, root, walk, kind, blake3, store), SavedChunks(fs, root, walk, kind, blake3)).1)
  {
    var cs := SavedChunks(fs, root, walk, kind, blake3);
    var s := SavedStore(fs, root, walk, kind, blake3, store);
    SavedChunksPrefixFree(fs, root, walk, kind, blake3);
    SavedStoreHoldsFiles(fs, root, walk, kind, blake3, store);
    SavedChunksDescribeFiles(fs, root, walk, kind, blake3);
    SavedChunksCoverFiles(fs, root, walk, kind, blake3);
    LoadMaterialises(s, cs);
    forall q | IsFile(fs, root + q) ensures exists c :: c in cs && c.path == q {
      var c := FileChunk(q, fs[root + q].data, fs[root + q].mode, kind, blake3);
      assert c in cs;
    }
    MaterialisedReproduces(fs, root, cs, store, s, Load(map[], s, cs).1);
  }

  /** `t` holds every regular file below `root` at its relative path, with
      its bytes and its low nine permission bits, and besides those only
      directories. */
  ghost predicate ReproducesFiles(fs: Tree, root: Path, t: Tree)
  {
    && (forall q :: IsFile(fs, root + q) ==> q in t && t[q] == File(fs[root + q].data, fs[root + q].mode % 512))
    && (forall q :: q in t ==> IsFile(fs, root + q) || t[q] == Dir)
  }

  /** Masking the permission bits twice is masking them once. */
  lemma MaskTwice(m: U32)
    ensures (m % 512) % 512 == m % 512
  {
  }

  lemma MaterialisedReproduces(fs: Tree, root: Path, cs: seq<Chunk>, before: Store, s: Store, t: Tree)
    requires Materialised(t, s, cs) && StoreHolds(fs, root, cs, before, s)
    requires forall c :: c in cs ==> c.permissions == fs[root + c.path].mode % 512
    requires forall q :: IsFile(fs, root + q) ==> exists c :: c in cs && c.path == q
    ensures ReproducesFiles(fs, root, t)
  {
    forall q | IsFile(fs, root + q) ensures q in t && t[q] == File(fs[root + q].data, fs[root + q].mode % 512) {
      var c :| c in cs && c.path == q;
      MaskTwice(fs[root + q].mode);
    }
    forall q | q in t ensures IsFile(fs, root + q) || t[q] == Dir {
      if t[q] != Dir {
        var c :| c in cs && q == c.path;
      }
    }
  }

  // ------------------------------------------------------------------
  // install_tree's filter and estimate_tree_size
  // ------------------------------------------------------------------

  /** The chunks whose store entry is absent, in their original order. */
  function Missing(chunks: seq<Chunk>, store: Store): seq<Chunk>
  {
    if chunks == [] then []
    else
      var last := chunks[|chunks| - 1];
      Missing(chunks[..|chunks| - 1], store) + (if StoreKey(last) !in store then [last] else [])
  }

  /** The filter keeps exactly the chunks whose store entry is absent, and
      never more chunks than it was given. */
  lemma {:induction false} MissingMembers(chunks: seq<Chunk>, store: Store)
    ensures forall c :: c in Missing(chunks, store) <==> c in chunks && StoreKey(c) !in store
    ensures |Missing(chunks, store)| <= |chunks|
  {
    if chunks != [] {
      var init := chunks[..|chunks| - 1];
      MissingMembers(init, store);
      assert chunks == init + [chunks[|chunks| - 1]];
    }
  }

  /** The loop in `install_tree` that collects the chunks still to fetch. */
  method MissingChunks(chunks: seq<Chunk>, store: Store) returns (r: seq<Chunk>)
    ensures r == Missing(chunks, store)
  {
    r := [];
    var i := 0;
    while i < |chunks|
      invariant 0 <= i <= |chunks|
      invariant r == Missing(chunks[..i], store)
    {
      assert chunks[..i + 1][..i] == chunks[..i] && chunks[..i + 1][i] == chunks[i];
      assert Missing(chunks[..i + 1], store)
        == Missing(chunks[..i], store) + (if StoreKey(chunks[i]) !in store then [chunks[i]] else []);
      if StoreKey(chunks[i]) !in store {
        r := r + [chunks[i]];
      }
      i := i + 1;
    }
    assert chunks[..|chunks|] == chunks;
  }

  /** Sum of the chunks' sizes in KiB. */
  function TotalSize(chunks: seq<Chunk>): nat
  {
    if chunks == [] then 0 else TotalSize(chunks[..|chunks| - 1]) + chunks[|chunks| - 1].size
  }

  lemma {:induction false} TotalSizeAppend(a: seq<Chunk>, b: seq<Chunk>)
    ensures TotalSize(a + b) == TotalSize(a) + TotalSize(b)
  {
    if b != [] {
      assert (a + b)[..|a + b| - 1] == a + b[..|b| - 1];
      TotalSizeAppend(a, b[..|b| - 1]);
    } else {
      assert a + b == a;
    }
  }

  /** `estimate_tree_size`: the sum of the chunk sizes, 0 for no chunks. */
  method EstimateTreeSize(chunks: seq<Chunk>) returns (size: nat)
    ensures size == TotalSize(chunks)
    ensures chunks == [] ==> size == 0
    ensures forall c :: c in chunks ==> c.size <= size
  {
    size := 0;
    var i := 0;
    while i < |chunks|
      invariant 0 <= i <= |chunks|
      invariant size == TotalSize(chunks[..i])
      invariant forall j :: 0 <= j < i ==> chunks[j].size <= size
    {
      assert chunks[..i + 1][..i] == chunks[..i];
      size := size + chunks[i].size;
      i := i + 1;
    }
    assert chunks[..|chunks|] == chunks;
  }

  /** The test `test_tree_size`: files of 1024 and 4096 bytes are 5 KiB. */
  lemma TreeSizeExample(a: Bytes, b: Bytes, kind: HashKind, blake3: Bytes -> string)
    requires |a| == 1024 && |b| == 4096
    ensures TotalSize([FileChunk(["file"], a, 0x1A4, kind, blake3), FileChunk(["path", "file"], b, 0x1A4, kind, blake3)]) == 5
  {
    var cs := [FileChunk(["file"], a, 0x1A4, kind, blake3), FileChunk(["path", "file"], b, 0x1A4, kind, blake3)];
    assert cs[..1][..0] == [];
    assert cs[..1] == [cs[0]];
    assert cs[0].size == 1 && cs[1].size == 4;
    assert TotalSize(cs[..1]) == 1;
    assert TotalSize(cs) == TotalSize(cs[..1]) + cs[1].size;
  }
}
