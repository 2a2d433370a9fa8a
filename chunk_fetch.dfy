/** Fetching chunks from mirrors into the store (src/chunks/network.rs and
    `install_tree` in src/chunks/tree.rs). The transport is the function
    `fetch`: the body a URL returns, or `None` when the request fails. */
module ChunkFetch {
  import opened Base
  import opened Chunks
  import opened ChunkTree

  /** The body `mirror` serves for chunk `c`, requested at
      `{mirror}/chunks/{store name}`. */
  function Body(fetch: string -> Option<Bytes>, mirror: string, c: Chunk): Option<Bytes>
  {
    fetch(mirror + "/chunks/" + ChunkFilename(c.hash, c.permissions))
  }

  /** `mirror` returns a body whose hash is the chunk's hash. */
  predicate Serves(fetch: string -> Option<Bytes>, mirror: string, c: Chunk, kind: HashKind, blake3: Bytes -> string)
  {
    Body(fetch, mirror, c).Some? && Hash(blake3, kind, Body(fetch, mirror, c).value) == c.hash
  }

  /** `install_chunk`: the body is written under the chunk's store name only
      when its hash matches; otherwise the store is left as it was. */
  method InstallChunk(c: Chunk, mirror: string, kind: HashKind, blake3: Bytes -> string,
                      fetch: string -> Option<Bytes>, store: Store)
    returns (r: Result<()>, store': Store)
    ensures r.Ok? <==> Serves(fetch, mirror, c, kind, blake3)
    ensures r.Ok? ==> store' == store[StoreKey(c) := Body(fetch, mirror, c).value]
    ensures r.Err? ==> store' == store
    ensures Body(fetch, mirror, c).Some? && !Serves(fetch, mirror, c, kind, blake3) ==> r == Err("Invalid chunk data returned.")
  {
    var url := mirror + "/chunks/" + ChunkFilename(c.hash, c.permissions);
    var response := fetch(url);
    if response.None? {
      return Err("error sending request"), store;
    }
    var body := response.value;
    if Hash(blake3, kind, body) == c.hash {
      return Ok(()), store[StoreKey(c) := body];
    }
    return Err("Invalid chunk data returned."), store;
  }

  /** The index of the first mirror serving `c`, if any. */
  function FirstServing(c: Chunk, mirrors: seq<string>, fetch: string -> Option<Bytes>, kind: HashKind, blake3: Bytes -> string): (r: Option<nat>)
    ensures r.Some? ==> r.value < |mirrors| && Serves(fetch, mirrors[r.value], c, kind, blake3)
    ensures r.Some? ==> forall j :: 0 <= j < r.value ==> !Serves(fetch, mirrors[j], c, kind, blake3)
    ensures r.None? ==> forall j :: 0 <= j < |mirrors| ==> !Serves(fetch, mirrors[j], c, kind, blake3)
  {
    if mirrors == [] then None
    else if Serves(fetch, mirrors[0], c, kind, blake3) then Some(0)
    else match FirstServing(c, mirrors[1..], fetch, kind, blake3)
      case None => None
      case Some(k) => Some(k + 1)
  }

  /** The mirror loop for one chunk in `install_chunks`: mirrors are tried in
      list order and the first one serving a matching body wins; when none
      does, the store is untouched. */
  method InstallFromMirrors(c: Chunk, mirrors: seq<string>, kind: HashKind, blake3: Bytes -> string,
                            fetch: string -> Option<Bytes>, store: Store)
    returns (r: Result<()>, store': Store)
    ensures (r, store') == FetchOne(c, mirrors, fetch, kind, blake3, store)
  {
    var i := 0;
    while i < |mirrors|
      invariant 0 <= i <= |mirrors|
      invariant forall j :: 0 <= j < i ==> !Serves(fetch, mirrors[j], c, kind, blake3)
    {
      var attempt, next := InstallChunk(c, mirrors[i], kind, blake3, fetch, store);
      if attempt.Ok? {
        return Ok(()), next;
      }
      i := i + 1;
    }
    return Err("All mirrors failed for chunk " + c.hash), store;
  }

  /** Every entry that differs from `before` is the store name of one of
      `chunks` and holds a body whose hash is that chunk's hash. */
  ghost predicate OnlyVerifiedWrites(before: Store, after: Store, chunks: seq<Chunk>, kind: HashKind, blake3: Bytes -> string)
  {
    && before.Keys <= after.Keys
    && forall k :: k in after && !(k in before && after[k] == before[k]) ==>
         exists c :: c in chunks && k == StoreKey(c) && Hash(blake3, kind, after[k]) == c.hash
  }

  /** Some mirror serves `c`. */
  predicate Available(c: Chunk, mirrors: seq<string>, fetch: string -> Option<Bytes>, kind: HashKind, blake3: Bytes -> string)
  {
    FirstServing(c, mirrors, fetch, kind, blake3).Some?
  }

  /** Fetching one chunk: the first serving mirror's body is stored; when no
      mirror serves it, the error `install_chunks` reports. */
  function FetchOne(c: Chunk, mirrors: seq<string>, fetch: string -> Option<Bytes>, kind: HashKind, blake3: Bytes -> string, s: Store): (Result<()>, Store)
  {
    match FirstServing(c, mirrors, fetch, kind, blake3)
    case None => (Err("All mirrors failed for chunk " + c.hash), s)
    case Some(m) => (Ok(()), s[StoreKey(c) := Body(fetch, mirrors[m], c).value])
  }

  /** Fetching `chunks` one after another, stopping at the first failure. */
  function FetchAll(chunks: seq<Chunk>, mirrors: seq<string>, fetch: string -> Option<Bytes>, kind: HashKind, blake3: Bytes -> string, store: Store): (Result<()>, Store)
  {
    if chunks == [] then (Ok(()), store)
    else
      var prior := FetchAll(chunks[..|chunks| - 1], mirrors, fetch, kind, blake3, store);
      if prior.0.Err? then prior
      else FetchOne(chunks[|chunks| - 1], mirrors, fetch, kind, blake3, prior.1)
  }

  /** `install_chunks`, modelled one chunk after another (the concurrent
      version's outcome is the same when it succeeds). */
  method InstallChunks(chunks: seq<Chunk>, mirrors: seq<string>, kind: HashKind, blake3: Bytes -> string,
                       fetch: string -> Option<Bytes>, store: Store)
    returns (r: Result<()>, store': Store)
    ensures (r, store') == FetchAll(chunks, mirrors, fetch, kind, blake3, store)
  {
    store' := store;
    var i := 0;
    while i < |chunks|
      invariant 0 <= i <= |chunks|
      invariant (Ok(()), store') == FetchAll(chunks[..i], mirrors, fetch, kind, blake3, store)
    {
      assert chunks[..i + 1][..i] == chunks[..i];
      var attempt, next := InstallFromMirrors(chunks[i], mirrors, kind, blake3, fetch, store');
      if attempt.Err? {
        assert chunks[..i + 1] == chunks[..i] + [chunks[i]];
        FetchAllStops(chunks, i + 1, mirrors, fetch, kind, blake3, store);
        return attempt, next;
      }
      store' := next;
      i := i + 1;
    }
    assert chunks[..i] == chunks;
    r := Ok(());
  }

  /** Once a prefix has failed, the whole run has the prefix's outcome. */
  lemma {:induction false} FetchAllStops(chunks: seq<Chunk>, n: nat, mirrors: seq<string>, fetch: string -> Option<Bytes>, kind: HashKind, blake3: Bytes -> string, store: Store)
    requires n <= |chunks| && FetchAll(chunks[..n], mirrors, fetch, kind, blake3, store).0.Err?
    ensures FetchAll(chunks, mirrors, fetch, kind, blake3, store) == FetchAll(chunks[..n], mirrors, fetch, kind, blake3, store)
    decreases |chunks|
  {
    if n < |chunks| {
      var init := chunks[..|chunks| - 1];
      assert init[..n] == chunks[..n];
      FetchAllStops(init, n, mirrors, fetch, kind, blake3, store);
    } else {
      assert chunks[..n] == chunks;
    }
  }

  /** Installing succeeds exactly when every chunk has a serving mirror. */
  lemma {:induction false} FetchAllSucceeds(chunks: seq<Chunk>, mirrors: seq<string>, fetch: string -> Option<Bytes>, kind: HashKind, blake3: Bytes -> string, store: Store)
    ensures FetchAll(chunks, mirrors, fetch, kind, blake3, store).0.Ok?
      <==> forall j :: 0 <= j < |chunks| ==> Available(chunks[j], mirrors, fetch, kind, blake3)
  {
    if chunks != [] {
      var n := |chunks| - 1;
      var init := chunks[..n];
      FetchAllSucceeds(init, mirrors, fetch, kind, blake3, store);
      var prior := FetchAll(init, mirrors, fetch, kind, blake3, store);
      assert FetchAll(chunks, mirrors, fetch, kind, blake3, store)
        == if prior.0.Err? then prior else FetchOne(chunks[n], mirrors, fetch, kind, blake3, prior.1);
      assert FetchOne(chunks[n], mirrors, fetch, kind, blake3, prior.1).0.Ok? <==> Available(chunks[n], mirrors, fetch, kind, blake3);
      assert forall j :: 0 <= j < n ==> init[j] == chunks[j];
    }
  }

  /** A failed install names the first chunk no mirror serves. */
  lemma {:induction false} FetchAllFailsFirst(chunks: seq<Chunk>, mirrors: seq<string>, fetch: string -> Option<Bytes>, kind: HashKind, blake3: Bytes -> string, store: Store)
    ensures FetchAll(chunks, mirrors, fetch, kind, blake3, store).0.Err? ==>
      exists k :: (0 <= k < |chunks| && FailsFirstAt(chunks, k, mirrors, fetch, kind, blake3)
        && FetchAll(chunks, mirrors, fetch, kind, blake3, store).0.msg == "All mirrors failed for chunk " + chunks[k].hash)
  {
    if chunks != [] {
      var n := |chunks| - 1;
      var init := chunks[..n];
      FetchAllFailsFirst(init, mirrors, fetch, kind, blake3, store);
      var prior := FetchAll(init, mirrors, fetch, kind, blake3, store);
      if prior.0.Err? {
        var k :| 0 <= k < n && FailsFirstAt(init, k, mirrors, fetch, kind, blake3)
          && prior.0.msg == "All mirrors failed for chunk " + init[k].hash;
        FailsFirstAtPrefix(chunks, n, k, mirrors, fetch, kind, blake3);
      } else if !Available(chunks[n], mirrors, fetch, kind, blake3) {
        FetchAllSucceeds(init, mirrors, fetch, kind, blake3, store);
        assert forall j :: 0 <= j < n ==> init[j] == chunks[j];
        assert FailsFirstAt(chunks, n, mirrors, fetch, kind, blake3);
      }
    }
  }

  /** Chunk `k` is the first one no mirror serves. */
  ghost predicate FailsFirstAt(chunks: seq<Chunk>, k: nat, mirrors: seq<string>, fetch: string -> Option<Bytes>, kind: HashKind, blake3: Bytes -> string)
    requires k < |chunks|
  {
    && !Available(chunks[k], mirrors, fetch, kind, blake3)
    && forall j :: 0 <= j < k ==> Available(chunks[j], mirrors, fetch, kind, blake3)
  }

  lemma FailsFirstAtPrefix(chunks: seq<Chunk>, n: nat, k: nat, mirrors: seq<string>, fetch: string -> Option<Bytes>, kind: HashKind, blake3: Bytes -> string)
    requires k < n <= |chunks| && FailsFirstAt(chunks[..n], k, mirrors, fetch, kind, blake3)
    ensures FailsFirstAt(chunks, k, mirrors, fetch, kind, blake3) && chunks[..n][k] == chunks[k]
  {
    assert forall j :: 0 <= j <= k ==> chunks[..n][j] == chunks[j];
  }

  /** Every requested chunk has an entry after a successful install. */
  lemma {:induction false} FetchAllStoresEvery(chunks: seq<Chunk>, mirrors: seq<string>, fetch: string -> Option<Bytes>, kind: HashKind, blake3: Bytes -> string, store: Store)
    ensures store.Keys <= FetchAll(chunks, mirrors, fetch, kind, blake3, store).1.Keys
    ensures FetchAll(chunks, mirrors, fetch, kind, blake3, store).0.Ok? ==>
      forall c :: c in chunks ==> StoreKey(c) in FetchAll(chunks, mirrors, fetch, kind, blake3, store).1
  {
    if chunks != [] {
      var init := chunks[..|chunks| - 1];
      FetchAllStoresEvery(init, mirrors, fetch, kind, blake3, store);
      assert chunks == init + [chunks[|chunks| - 1]];
    }
  }

  /** Whatever the outcome, every entry the install adds or changes is the
      store name of a requested chunk and holds a body hashing to that
      chunk's hash: nothing unverified is ever written. */
  lemma {:induction false} FetchAllOnlyVerified(chunks: seq<Chunk>, all: seq<Chunk>, mirrors: seq<string>, fetch: string -> Option<Bytes>, kind: HashKind, blake3: Bytes -> string, store: Store)
    requires forall c :: c in chunks ==> c in all
    ensures OnlyVerifiedWrites(store, FetchAll(chunks, mirrors, fetch, kind, blake3, store).1, all, kind, blake3)
  {
    if chunks != [] {
      var init := chunks[..|chunks| - 1];
      var c := chunks[|chunks| - 1];
      FetchAllOnlyVerified(init, all, mirrors, fetch, kind, blake3, store);
      var prior := FetchAll(init, mirrors, fetch, kind, blake3, store);
      if prior.0.Ok? && FirstServing(c, mirrors, fetch, kind, blake3).Some? {
        var m := FirstServing(c, mirrors, fetch, kind, blake3).value;
        VerifiedWriteStep(store, prior.1, all, c, Body(fetch, mirrors[m], c).value, kind, blake3);
      }
    }
  }

  /** Writing a verified body under a requested chunk's name keeps
      `OnlyVerifiedWrites`. */
  lemma VerifiedWriteStep(store: Store, s: Store, chunks: seq<Chunk>, c: Chunk, body: Bytes, kind: HashKind, blake3: Bytes -> string)
    requires OnlyVerifiedWrites(store, s, chunks, kind, blake3)
    requires c in chunks && Hash(blake3, kind, body) == c.hash
    ensures OnlyVerifiedWrites(store, s[StoreKey(c) := body], chunks, kind, blake3)
  {
    var s' := s[StoreKey(c) := body];
    forall k | k in s' && !(k in store && s'[k] == store[k])
      ensures exists d :: d in chunks && k == StoreKey(d) && Hash(blake3, kind, s'[k]) == d.hash
    {
      if k != StoreKey(c) {
        assert k in s && s'[k] == s[k];
      }
    }
  }

  /** When no two requested chunks share a store name with different hashes
      (always so for Blake3 digests, which have one length), a successful
      install leaves every requested chunk verified in the store. */
  lemma InstalledChunksVerify(store: Store, store': Store, chunks: seq<Chunk>, kind: HashKind, blake3: Bytes -> string)
    requires OnlyVerifiedWrites(store, store', chunks, kind, blake3)
    requires forall c :: c in chunks ==> StoreKey(c) in store' && StoreKey(c) !in store
    requires forall c, d :: c in chunks && d in chunks && StoreKey(c) == StoreKey(d) ==> c.hash == d.hash
    ensures forall c :: c in chunks ==> Hash(blake3, kind, store'[StoreKey(c)]) == c.hash
  {
    forall c | c in chunks ensures Hash(blake3, kind, store'[StoreKey(c)]) == c.hash {
      var d :| d in chunks && StoreKey(c) == StoreKey(d) && Hash(blake3, kind, store'[StoreKey(c)]) == d.hash;
    }
  }

  /** `install_tree`: only chunks whose store entry is absent are fetched, so
      entries already present are never rewritten; on success every chunk
      of the tree has an entry. */
  method InstallTree(chunks: seq<Chunk>, mirrors: seq<string>, kind: HashKind, blake3: Bytes -> string,
                     fetch: string -> Option<Bytes>, store: Store)
    returns (r: Result<()>, store': Store)
    ensures (r, store') == FetchAll(Missing(chunks, store), mirrors, fetch, kind, blake3, store)
    ensures forall k :: k in store ==> k in store' && store'[k] == store[k]
    ensures r.Ok? <==> forall c :: c in chunks && StoreKey(c) !in store ==> Available(c, mirrors, fetch, kind, blake3)
    ensures r.Ok? ==> forall c :: c in chunks ==> StoreKey(c) in store'
    ensures forall k :: k in store' && k !in store ==>
      exists c :: c in chunks && k == StoreKey(c) && Hash(blake3, kind, store'[k]) == c.hash
  {
    var missing := MissingChunks(chunks, store);
    MissingMembers(chunks, store);
    r, store' := InstallChunks(missing, mirrors, kind, blake3, fetch, store);
    FetchAllSucceeds(missing, mirrors, fetch, kind, blake3, store);
    assert (forall j :: 0 <= j < |missing| ==> Available(missing[j], mirrors, fetch, kind, blake3))
      <==> (forall c :: c in missing ==> Available(c, mirrors, fetch, kind, blake3));
    FetchAllStoresEvery(missing, mirrors, fetch, kind, blake3, store);
    FetchAllOnlyVerified(missing, missing, mirrors, fetch, kind, blake3, store);
    forall k | k in store ensures k in store' && store'[k] == store[k] {
      assert forall c :: c in missing ==> StoreKey(c) != k;
    }
    forall k | k in store' && k !in store
      ensures exists c :: c in chunks && k == StoreKey(c) && Hash(blake3, kind, store'[k]) == c.hash
    {
      var c :| c in missing && k == StoreKey(c) && Hash(blake3, kind, store'[k]) == c.hash;
    }
  }
}
