/** Arranging a package's sources before the build (src/build/sources.rs).
    The temporary extraction directory, the local source directory and the
    target are directory trees; `read_dir` and `WalkDir` orders are
    parameters. Cloning with git and downloading and unpacking archives
    are outside the model: they are parameters of `GetSources`. */
module Sources {
  import opened Base
  import opened Fs

  // ------------------------------------------------------------------
  // Files and the directories above them.
  // ------------------------------------------------------------------

  /** `t` holds exactly the regular files of `files`, at their paths, and
      the directories above them, and nothing else. */
  ghost predicate IsLayout(t: Tree, files: map<Path, Node>)
  {
    [] !in t && HasFiles(t, files) && HasParents(t, files) && OnlyParents(t, files)
  }

  /** Every file is in the tree. */
  predicate HasFiles(t: Tree, files: map<Path, Node>)
  {
    forall p :: p in files ==> p in t && t[p] == files[p]
  }

  /** Every directory above a file is in the tree. */
  predicate HasParents(t: Tree, files: map<Path, Node>)
  {
    forall p, k :: p in files && 1 <= k < |p| ==> p[..k] in t
  }

  /** Every other entry is a directory above some file. */
  ghost predicate OnlyParents(t: Tree, files: map<Path, Node>)
  {
    forall p :: p in t && p !in files ==> t[p] == Dir && exists q :: q in files && p < q
  }

  /** No path is a proper prefix of another. */
  predicate PrefixFree(paths: set<Path>)
  {
    forall p, q :: p in paths && q in paths ==> !(p < q)
  }

  /** Every entry is a regular file, and the root is not one of them. */
  predicate AllFiles(files: map<Path, Node>)
  {
    [] !in files && forall p :: p in files ==> files[p].File?
  }

  /** The regular files of a tree. */
  function FilesOf(t: Tree): (f: map<Path, Node>)
    ensures forall p :: p in f <==> IsFile(t, p)
    ensures forall p :: p in f ==> IsFile(t, p) && f[p] == t[p]
  {
    map p | p in t && t[p].File? :: t[p]
  }

  /** In a tree a filesystem can hold, no regular file lies below another. */
  lemma WellFormedFilesPrefixFree(t: Tree)
    requires WellFormed(t)
    ensures PrefixFree(FilesOf(t).Keys) && AllFiles(FilesOf(t))
  {
    forall p, q | p in FilesOf(t) && q in FilesOf(t) && |p| < |q| ensures q[..|p|] != p {
      assert IsDir(t, q[..|p|]);
    }
  }

  /** A layout of no files is the empty tree. */
  lemma EmptyLayout(t: Tree)
    requires IsLayout(t, map[])
    ensures t == map[]
  {
    assert forall p :: p !in t;
  }

  /** Copying one regular file to `dest`, creating the directories above it
      first (`create_dir_all(parent)` then `fs::copy` or `fs::rename`). */
  function PlaceFile(t: Tree, dest: Path, data: Bytes, mode: U32): Result<Tree>
    requires dest != []
  {
    match CreateDirAll(t, dest[..|dest| - 1])
    case Err(e) => Err(e)
    case Ok(t1) => WriteFile(t1, dest, data, mode)
  }

  /** Placing a file at `dest` succeeds when no file of the layout lies
      above `dest` and `dest` is not one of its directories: the missing
      directories above `dest` are created and the file written. */
  lemma PlaceSucceeds(t: Tree, files: map<Path, Node>, dest: Path, data: Bytes, mode: U32)
    requires IsLayout(t, files) && AllFiles(files) && dest != []
    requires forall p :: p in files ==> !(p < dest) && !(dest < p)
    ensures CreateDirAll(t, dest[..|dest| - 1]).Ok?
    ensures PlaceFile(t, dest, data, mode) == Ok(CreateDirAll(t, dest[..|dest| - 1]).value[dest := File(data, mode)])
  {
    var parent := dest[..|dest| - 1];
    forall k | 1 <= k <= |parent| && parent[..k] in t ensures t[parent[..k]].Dir? {
      assert parent[..k] == dest[..k] && dest[..k] < dest;
    }
    var t1 := CreateDirAll(t, parent).value;
    assert dest in t ==> dest in files;
    assert !(dest <= parent);
    assert |dest| > 1 ==> IsDir(t1, parent) by {
      if |dest| > 1 { assert parent[..|parent|] == parent; }
    }
  }

  /** Placing a file into a layout, at a path that neither lies below nor
      above one of its files, succeeds and gives the layout with that file
      added. */
  lemma PlaceInLayout(t: Tree, files: map<Path, Node>, dest: Path, data: Bytes, mode: U32)
    requires IsLayout(t, files) && AllFiles(files) && dest != []
    requires forall p :: p in files ==> !(p < dest) && !(dest < p)
    ensures PlaceFile(t, dest, data, mode).Ok?
    ensures IsLayout(PlaceFile(t, dest, data, mode).value, files[dest := File(data, mode)])
  {
    PlaceSucceeds(t, files, dest, data, mode);
    var parent := dest[..|dest| - 1];
    var t1 := CreateDirAll(t, parent).value;
    var files' := files[dest := File(data, mode)];
    var t2 := t1[dest := File(data, mode)];
    PlaceHasParents(t, t1, files, dest, data, mode);
    PlaceOnlyParents(t, t1, files, dest, data, mode);
  }

  lemma PlaceHasParents(t: Tree, t1: Tree, files: map<Path, Node>, dest: Path, data: Bytes, mode: U32)
    requires HasParents(t, files) && dest != []
    requires CreateDirAll(t, dest[..|dest| - 1]) == Ok(t1)
    ensures HasParents(t1[dest := File(data, mode)], files[dest := File(data, mode)])
  {
    var parent := dest[..|dest| - 1];
    forall p, k | p in files[dest := File(data, mode)] && 1 <= k < |p| ensures p[..k] in t1 {
      if p == dest {
        assert p[..k] == parent[..k];
      }
    }
  }

  lemma PlaceOnlyParents(t: Tree, t1: Tree, files: map<Path, Node>, dest: Path, data: Bytes, mode: U32)
    requires OnlyParents(t, files) && dest != []
    requires CreateDirAll(t, dest[..|dest| - 1]) == Ok(t1)
    ensures OnlyParents(t1[dest := File(data, mode)], files[dest := File(data, mode)])
  {
    var parent := dest[..|dest| - 1];
    var files' := files[dest := File(data, mode)];
    var t2 := t1[dest := File(data, mode)];
    forall p | p in t2 && p !in files' ensures t2[p] == Dir && exists q :: q in files' && p < q {
      assert p != dest && p in t1 && t2[p] == t1[p];
      if p in t {
        assert p !in files && t1[p] == t[p];
        var q :| q in files && p < q;
        assert q in files';
      } else {
        assert t1[p] == Dir && p <= parent && p != [];
        assert p < dest && dest in files';
      }
    }
  }

  // ------------------------------------------------------------------
  // Copying the files a walk visits.
  // ------------------------------------------------------------------

  /** The walk-ordered copy loop: each visited path that is a regular file
      of `src` is placed at the same relative path of the target; other
      entries are passed over. */
  function CopyFiles(t: Tree, src: Tree, walk: seq<Path>): Result<Tree>
  {
    if walk == [] then Ok(t)
    else
      match CopyFiles(t, src, walk[..|walk| - 1])
      case Err(e) => Err(e)
      case Ok(t1) =>
        var p := walk[|walk| - 1];
        if p != [] && IsFile(src, p) then PlaceFile(t1, p, src[p].data, src[p].mode) else Ok(t1)
  }

  /** The regular files of `src` that the walk visits. */
  function Visited(src: Tree, walk: seq<Path>): (f: map<Path, Node>)
    ensures forall p :: p in f <==> p in walk && p != [] && IsFile(src, p)
    ensures forall p :: p in f ==> IsFile(src, p) && f[p] == src[p]
  {
    map p | p in walk && p != [] && IsFile(src, p) :: src[p]
  }

  /** One more step of the walk adds at most its own path. */
  lemma VisitedStep(src: Tree, walk: seq<Path>)
    requires walk != []
    ensures var p := walk[|walk| - 1];
      Visited(src, walk) == if p != [] && IsFile(src, p) then Visited(src, walk[..|walk| - 1])[p := src[p]]
                            else Visited(src, walk[..|walk| - 1])
  {
    var init := walk[..|walk| - 1];
    assert forall q :: q in walk <==> q in init || q == walk[|walk| - 1];
  }

  /** Copying into a layout the files of a walk, when no file lies below
      another, succeeds and gives the layout of all of them, whatever the
      walk order. */
  lemma {:induction false} CopyFilesLayout(t: Tree, files: map<Path, Node>, src: Tree, walk: seq<Path>)
    requires IsLayout(t, files) && AllFiles(files)
    requires PrefixFree(files.Keys + Visited(src, walk).Keys)
    ensures CopyFiles(t, src, walk).Ok?
    ensures IsLayout(CopyFiles(t, src, walk).value, files + Visited(src, walk))
  {
    if walk != [] {
      var init := walk[..|walk| - 1];
      var p := walk[|walk| - 1];
      var before := Visited(src, init);
      VisitedStep(src, walk);
      assert before.Keys <= Visited(src, walk).Keys;
      PrefixFreeSubset(files.Keys + before.Keys, files.Keys + Visited(src, walk).Keys);
      CopyFilesLayout(t, files, src, init);
      var t1 := CopyFiles(t, src, init).value;
      var acc := files + before;
      if p != [] && IsFile(src, p) {
        assert p in Visited(src, walk);
        assert AllFiles(acc);
        PlaceInLayout(t1, acc, p, src[p].data, src[p].mode);
        assert CopyFiles(t, src, walk) == PlaceFile(t1, p, src[p].data, src[p].mode);
        assert src[p] == File(src[p].data, src[p].mode);
        UpdateUnion(files, before, p, src[p]);
      }
    }
  }

  lemma UpdateUnion<K, V>(a: map<K, V>, b: map<K, V>, k: K, v: V)
    ensures (a + b)[k := v] == a + b[k := v]
  {
  }

  lemma PrefixFreeSubset(small: set<Path>, large: set<Path>)
    requires small <= large && PrefixFree(large)
    ensures PrefixFree(small)
  {
  }

  /** Once a copy fails, the rest of the walk is not visited. */
  lemma {:induction false} CopyFilesStop(t: Tree, src: Tree, walk: seq<Path>, k: nat)
    requires 1 <= k <= |walk|
    requires CopyFiles(t, src, walk[..k]).Err?
    ensures CopyFiles(t, src, walk) == CopyFiles(t, src, walk[..k])
    decreases |walk|
  {
    if k < |walk| {
      var init := walk[..|walk| - 1];
      assert init[..k] == walk[..k];
      CopyFilesStop(t, src, init, k);
    } else {
      assert walk[..k] == walk;
    }
  }

  /** The copy loop, step by step. */
  method CopyWalk(t: Tree, src: Tree, walk: seq<Path>) returns (r: Result<Tree>)
    ensures r == CopyFiles(t, src, walk)
  {
    var cur := t;
    for i := 0 to |walk|
      invariant CopyFiles(t, src, walk[..i]) == Ok(cur)
    {
      assert walk[..i + 1][..i] == walk[..i];
      var p := walk[i];
      if p != [] && p in src && src[p].File? {
        var dirs := CreateDirAll(cur, p[..|p| - 1]);
        if dirs.Err? {
          CopyFilesStop(t, src, walk, i + 1);
          return Err(dirs.msg);
        }
        var placed := WriteFile(dirs.value, p, src[p].data, src[p].mode);
        if placed.Err? {
          CopyFilesStop(t, src, walk, i + 1);
          return Err(placed.msg);
        }
        cur := placed.value;
      }
    }
    assert walk[..|walk|] == walk;
    r := Ok(cur);
  }

  // ------------------------------------------------------------------
  // unwrap_tar_contents
  // ------------------------------------------------------------------

  /** The walk of the top-level directory `e`, relative to `e`, as paths of
      the extraction directory. */
  function Prefixed(e: string, walk: seq<Path>): (r: seq<Path>)
    ensures |r| == |walk| && forall i :: 0 <= i < |walk| ==> r[i] == [e] + walk[i]
  {
    seq(|walk|, i requires 0 <= i < |walk| => [e] + walk[i])
  }

  /** `top` is a `read_dir` listing: each name is a top-level entry. */
  predicate Listed(src: Tree, top: seq<string>)
  {
    forall i :: 0 <= i < |top| ==> [top[i]] in src
  }

  /** Copying one top-level entry under its own name: a directory file by
      file along its walk, anything else with `fs::copy`, which the model
      refuses for an entry that is not a regular file. */
  function CopyEntry(t: Tree, src: Tree, e: string, walk: string -> seq<Path>): Result<Tree>
    requires [e] in src
  {
    match src[[e]]
    case Dir => CopyFiles(t, src, Prefixed(e, walk(e)))
    case File(data, mode) => WriteFile(t, [e], data, mode)
    case Special => Err("Not a regular file")
  }

  /** Copying the top-level entries in listing order, stopping at the
      first failure. */
  function CopyEntries(t: Tree, src: Tree, top: seq<string>, walk: string -> seq<Path>): Result<Tree>
    requires Listed(src, top)
  {
    if top == [] then Ok(t)
    else
      match CopyEntries(t, src, top[..|top| - 1], walk)
      case Err(e) => Err(e)
      case Ok(t1) => CopyEntry(t1, src, top[|top| - 1], walk)
  }

  /** What `unwrap_tar_contents` does to the target: a sole top-level
      directory is unwrapped (its files land at the target root), anything
      else is copied entry by entry under its own name. */
  function Unwrapped(dst: Tree, src: Tree, top: seq<string>, walk: string -> seq<Path>): Result<Tree>
    requires Listed(src, top)
  {
    if |top| == 1 && src[[top[0]]].Dir? then CopyFiles(dst, Subtree(src, [top[0]]), walk(top[0]))
    else CopyEntries(dst, src, top, walk)
  }

  /** Once an entry fails, the rest of the listing is not copied. */
  lemma {:induction false} CopyEntriesStop(t: Tree, src: Tree, top: seq<string>, walk: string -> seq<Path>, k: nat)
    requires Listed(src, top) && 1 <= k <= |top|
    requires CopyEntries(t, src, top[..k], walk).Err?
    ensures CopyEntries(t, src, top, walk) == CopyEntries(t, src, top[..k], walk)
    decreases |top|
  {
    if k < |top| {
      var init := top[..|top| - 1];
      assert init[..k] == top[..k];
      CopyEntriesStop(t, src, init, walk, k);
    } else {
      assert top[..k] == top;
    }
  }

  /** One top-level entry of the copy loop. */
  method CopyOne(t: Tree, src: Tree, e: string, walk: string -> seq<Path>) returns (r: Result<Tree>)
    requires [e] in src
    ensures r == CopyEntry(t, src, e, walk)
  {
    match src[[e]] {
      case Dir =>
        r := CopyWalk(t, src, Prefixed(e, walk(e)));
      case File(data, mode) =>
        r := WriteFile(t, [e], data, mode);
      case Special =>
        r := Err("Not a regular file");
    }
  }

  /** `unwrap_tar_contents`, step by step. The sole directory's files are
      moved with `fs::rename`; the model writes them into the target and
      leaves the extraction directory as it was. */
  method UnwrapTarContents(dst: Tree, src: Tree, top: seq<string>, walk: string -> seq<Path>)
    returns (r: Result<Tree>)
    requires Listed(src, top)
    ensures r == Unwrapped(dst, src, top, walk)
  {
    if |top| == 1 && src[[top[0]]].Dir? {
      var e := top[0];
      r := CopyWalk(dst, Subtree(src, [e]), walk(e));
      return;
    }
    var cur := dst;
    for i := 0 to |top|
      invariant CopyEntries(dst, src, top[..i], walk) == Ok(cur)
    {
      assert top[..i + 1][..i] == top[..i];
      var next := CopyOne(cur, src, top[i], walk);
      if next.Err? {
        CopyEntriesStop(dst, src, top, walk, i + 1);
        return next;
      }
      cur := next.value;
    }
    assert top[..|top|] == top;
    r := Ok(cur);
  }

  /** The regular files of `src` below the top-level names of `names`. */
  function Within(src: Tree, names: seq<string>): (f: map<Path, Node>)
    ensures forall p :: p in f <==> IsFile(src, p) && p != [] && p[0] in names
    ensures forall p :: p in f ==> IsFile(src, p) && f[p] == src[p]
  {
    map p | p in src && src[p].File? && p != [] && p[0] in names :: src[p]
  }

  /** The files of a sole top-level directory, relative to it. */
  lemma SubtreeFilesPrefixFree(src: Tree, d: string)
    requires WellFormed(src)
    ensures PrefixFree(FilesOf(Subtree(src, [d])).Keys) && AllFiles(FilesOf(Subtree(src, [d])))
  {
    var sub := Subtree(src, [d]);
    WellFormedFilesPrefixFree(src);
    forall p, q | p in FilesOf(sub) && q in FilesOf(sub) ensures !(p < q) {
      assert [d] + p in FilesOf(src) && [d] + q in FilesOf(src);
      assert p < q ==> [d] + p < [d] + q;
    }
  }

  /** A sole top-level directory is unwrapped: when its walk reaches all
      its files, the target ends up holding exactly those files, at their
      paths relative to that directory, and the directories above them. */
  lemma UnwrapSoleDirectory(src: Tree, top: seq<string>, walk: string -> seq<Path>)
    requires WellFormed(src) && Listed(src, top)
    requires |top| == 1 && IsDir(src, [top[0]])
    requires forall q :: IsFile(Subtree(src, [top[0]]), q) ==> q in walk(top[0])
    ensures Unwrapped(map[], src, top, walk).Ok?
    ensures IsLayout(Unwrapped(map[], src, top, walk).value, FilesOf(Subtree(src, [top[0]])))
  {
    var d := top[0];
    var sub := Subtree(src, [d]);
    SubtreeFilesPrefixFree(src, d);
    assert Visited(sub, walk(d)) == FilesOf(sub);
    assert map[] + FilesOf(sub) == FilesOf(sub);
    CopyFilesLayout(map[], map[], sub, walk(d));
  }

  /** A sole top-level regular file is copied under its own name. */
  lemma UnwrapSoleFile(src: Tree, top: seq<string>, walk: string -> seq<Path>)
    requires Listed(src, top)
    requires |top| == 1 && IsFile(src, [top[0]])
    ensures Unwrapped(map[], src, top, walk) == Ok(map[[top[0]] := src[[top[0]]]])
  {
    var e := top[0];
    assert top[..0] == [];
    assert CopyEntries(map[], src, top[..0], walk) == Ok(map[]);
    assert src[[e]] == File(src[[e]].data, src[[e]].mode);
  }

  /** Every regular file is below one of the listed top-level names. */
  predicate Covers(src: Tree, top: seq<string>)
  {
    forall p :: p in src && p != [] ==> p[0] in top
  }

  /** The walk of each top-level directory reaches all its files. */
  ghost predicate WalksCover(src: Tree, walk: string -> seq<Path>)
  {
    forall p :: IsFile(src, p) && |p| > 1 ==> p[1..] in walk(p[0])
  }

  /** The walk of a top-level directory visits exactly the files below it. */
  lemma PrefixedVisited(src: Tree, e: string, walk: string -> seq<Path>)
    requires IsDir(src, [e]) && WalksCover(src, walk)
    ensures forall p :: p in Visited(src, Prefixed(e, walk(e))) <==> IsFile(src, p) && p != [] && p[0] == e
  {
    var w := Prefixed(e, walk(e));
    forall p | IsFile(src, p) && p != [] && p[0] == e ensures p in w {
      assert |p| == 1 ==> p == [e];
      assert p == [e] + p[1..];
      var i :| 0 <= i < |walk(e)| && walk(e)[i] == p[1..];
      assert w[i] == p;
    }
    forall p | p in w ensures p != [] && p[0] == e {
      var i :| 0 <= i < |w| && w[i] == p;
    }
  }

  /** Copying a top-level directory adds exactly the files below it. */
  lemma WithinDirStep(src: Tree, init: seq<string>, e: string, walk: string -> seq<Path>)
    requires IsDir(src, [e]) && WalksCover(src, walk)
    ensures Within(src, init) + Visited(src, Prefixed(e, walk(e))) == Within(src, init + [e])
  {
    PrefixedVisited(src, e, walk);
    assert forall n :: n in init + [e] <==> n in init || n == e;
  }

  /** Copying a top-level regular file adds exactly that file. */
  lemma WithinFileStep(src: Tree, init: seq<string>, e: string)
    requires WellFormed(src) && IsFile(src, [e])
    ensures Within(src, init)[[e] := src[[e]]] == Within(src, init + [e])
  {
    forall p | IsFile(src, p) && p != [] && p[0] == e ensures p == [e] {
      assert p[..1] == [e];
      assert |p| == 1 ==> p == [p[0]];
    }
    assert forall n :: n in init + [e] <==> n in init || n == e;
  }

  /** The entry-by-entry copy of the listed top-level entries gives the
      layout of the regular files below them. */
  lemma {:induction false} CopyEntriesLayout(src: Tree, top: seq<string>, walk: string -> seq<Path>)
    requires WellFormed(src) && Listed(src, top) && WalksCover(src, walk)
    requires forall i :: 0 <= i < |top| ==> !src[[top[i]]].Special?
    ensures CopyEntries(map[], src, top, walk).Ok?
    ensures IsLayout(CopyEntries(map[], src, top, walk).value, Within(src, top))
  {
    if top != [] {
      var init := top[..|top| - 1];
      var e := top[|top| - 1];
      assert init + [e] == top;
      CopyEntriesLayout(src, init, walk);
      var t1 := CopyEntries(map[], src, init, walk).value;
      var acc := Within(src, init);
      WellFormedFilesPrefixFree(src);
      if src[[e]].Dir? {
        PrefixFreeSubset(acc.Keys + Visited(src, Prefixed(e, walk(e))).Keys, FilesOf(src).Keys);
        CopyFilesLayout(t1, acc, src, Prefixed(e, walk(e)));
        WithinDirStep(src, init, e, walk);
      } else {
        assert IsFile(src, [e]);
        forall q | q in acc ensures !(q < [e]) && !([e] < q) {
          assert q != [] && [e] in FilesOf(src) && q in FilesOf(src);
        }
        PlaceInLayout(t1, acc, [e], src[[e]].data, src[[e]].mode);
        assert PlaceFile(t1, [e], src[[e]].data, src[[e]].mode) == WriteFile(t1, [e], src[[e]].data, src[[e]].mode);
        WithinFileStep(src, init, e);
      }
    }
  }

  /** Without a sole top-level directory, every regular file lands at its
      own path: the target holds exactly the extracted files and the
      directories above them (an empty extraction leaves it empty). */
  lemma UnwrapEntries(src: Tree, top: seq<string>, walk: string -> seq<Path>)
    requires WellFormed(src) && Listed(src, top) && Covers(src, top) && WalksCover(src, walk)
    requires forall i :: 0 <= i < |top| ==> !src[[top[i]]].Special?
    requires !(|top| == 1 && IsDir(src, [top[0]]))
    ensures Unwrapped(map[], src, top, walk).Ok?
    ensures IsLayout(Unwrapped(map[], src, top, walk).value, FilesOf(src))
    ensures src == map[] ==> Unwrapped(map[], src, top, walk) == Ok(map[])
  {
    CopyEntriesLayout(src, top, walk);
    assert Within(src, top) == FilesOf(src);
    if src == map[] {
      EmptyLayout(Unwrapped(map[], src, top, walk).value);
    }
  }

  // ------------------------------------------------------------------
  // pull_local
  // ------------------------------------------------------------------

  /** What `pull_local` leaves in the target, which it first removes and
      creates again empty: along the walk of the source, which starts at
      the source root itself (the empty path), each directory is created
      and every other entry copied with `fs::copy`, which the model refuses
      for an entry that is not a regular file. */
  function Pulled(src: Tree, walk: seq<Path>): Result<Tree>
  {
    if walk == [] then Ok(map[])
    else
      match Pulled(src, walk[..|walk| - 1])
      case Err(e) => Err(e)
      case Ok(t) =>
        var p := walk[|walk| - 1];
        if p == [] || IsDir(src, p) then CreateDirAll(t, p)
        else if IsFile(src, p) then WriteFile(t, p, src[p].data, src[p].mode)
        else Err("Not a regular file")
  }

  /** Once a step fails, the rest of the walk is not visited. */
  lemma {:induction false} PulledStop(src: Tree, walk: seq<Path>, k: nat)
    requires 1 <= k <= |walk|
    requires Pulled(src, walk[..k]).Err?
    ensures Pulled(src, walk) == Pulled(src, walk[..k])
    decreases |walk|
  {
    if k < |walk| {
      var init := walk[..|walk| - 1];
      assert init[..k] == walk[..k];
      PulledStop(src, init, k);
    } else {
      assert walk[..k] == walk;
    }
  }

  /** `pull_local`, step by step. */
  method PullLocal(src: Tree, walk: seq<Path>) returns (r: Result<Tree>)
    ensures r == Pulled(src, walk)
  {
    var target: Tree := map[];
    for i := 0 to |walk|
      invariant Pulled(src, walk[..i]) == Ok(target)
    {
      assert walk[..i + 1][..i] == walk[..i];
      var p := walk[i];
      var next: Result<Tree>;
      if p == [] || (p in src && src[p].Dir?) {
        next := CreateDirAll(target, p);
      } else if p in src && src[p].File? {
        next := WriteFile(target, p, src[p].data, src[p].mode);
      } else {
        next := Err("Not a regular file");
      }
      if next.Err? {
        PulledStop(src, walk, i + 1);
        return next;
      }
      target := next.value;
    }
    assert walk[..|walk|] == walk;
    r := Ok(target);
  }

  /** A walk that visits every directory before what lies below it. */
  ghost predicate ParentsFirst(walk: seq<Path>)
  {
    forall i, k :: 0 <= i < |walk| && 1 <= k < |walk[i]| ==> walk[i][..k] in walk[..i]
  }

  /** The entries of `src` the walk has visited. */
  function Seen(src: Tree, walk: seq<Path>): (f: Tree)
    ensures forall p :: p in f <==> p in src && p in walk
    ensures forall p :: p in f ==> p in src && f[p] == src[p]
  {
    map p | p in src && p in walk :: src[p]
  }

  /** The conditions under which `pull_local` reproduces its source: a
      tree a filesystem can hold, without entries other than files and
      directories, walked parents first over its own entries. */
  ghost predicate Copyable(src: Tree, walk: seq<Path>)
  {
    && WellFormed(src)
    && (forall p :: p in src ==> !src[p].Special?)
    && (forall p :: p in walk ==> p == [] || p in src)
    && ParentsFirst(walk)
  }

  lemma CopyableInit(src: Tree, walk: seq<Path>)
    requires walk != [] && Copyable(src, walk)
    ensures Copyable(src, walk[..|walk| - 1])
  {
    var init := walk[..|walk| - 1];
    forall i, k | 0 <= i < |init| && 1 <= k < |init[i]| ensures init[i][..k] in init[..i] {
      assert init[..i] == walk[..i];
    }
  }

  /** Visiting a directory adds just that directory: the ones above it
      were visited before. */
  lemma PulledDirStep(src: Tree, walk: seq<Path>)
    requires walk != [] && Copyable(src, walk)
    requires var p := walk[|walk| - 1]; p == [] || IsDir(src, p)
    ensures CreateDirAll(Seen(src, walk[..|walk| - 1]), walk[|walk| - 1]) == Ok(Seen(src, walk))
  {
    var init := walk[..|walk| - 1];
    var p := walk[|walk| - 1];
    var t := Seen(src, init);
    assert forall q :: q in walk <==> q in init || q == p;
    forall k | 1 <= k <= |p| && p[..k] in t ensures t[p[..k]].Dir? {
      assert k == |p| ==> p[..k] == p;
    }
    var r := CreateDirAll(t, p).value;
    forall q | q in r && q !in t ensures q == p {
      assert q == p[..|q|];
      assert |q| < |p| ==> q in init && IsDir(src, q);
    }
    assert p != [] ==> p[..|p|] == p && p in r;
    var seen := Seen(src, walk);
    forall q | q in r ensures q in seen && r[q] == seen[q] {
      if q !in t { assert q == p && IsDir(r, p); }
    }
    forall q | q in seen ensures q in r {
      assert q in t || q == p;
    }
    assert r == seen;
  }

  /** Visiting a regular file copies it: its directory was visited
      before. */
  lemma PulledFileStep(src: Tree, walk: seq<Path>)
    requires walk != [] && Copyable(src, walk)
    requires IsFile(src, walk[|walk| - 1])
    ensures var p := walk[|walk| - 1];
      WriteFile(Seen(src, walk[..|walk| - 1]), p, src[p].data, src[p].mode) == Ok(Seen(src, walk))
  {
    var init := walk[..|walk| - 1];
    var p := walk[|walk| - 1];
    assert forall q :: q in walk <==> q in init || q == p;
    assert |p| > 1 ==> p[..|p| - 1] in init && IsDir(src, p[..|p| - 1]);
    assert src[p] == File(src[p].data, src[p].mode);
    var t := Seen(src, init);
    var seen := Seen(src, walk);
    assert !IsDir(t, p) && (|p| == 1 || IsDir(t, p[..|p| - 1]));
    forall q | q in seen ensures q in t[p := src[p]] {
      assert q in t || q == p;
    }
    assert t[p := src[p]] == seen;
  }

  /** Along a walk that visits parents first, the target holds exactly the
      entries visited so far. */
  lemma {:induction false} PulledSeen(src: Tree, walk: seq<Path>)
    requires Copyable(src, walk)
    ensures Pulled(src, walk) == Ok(Seen(src, walk))
  {
    if walk == [] {
      assert Seen(src, walk) == map[];
    } else {
      var init := walk[..|walk| - 1];
      var p := walk[|walk| - 1];
      CopyableInit(src, walk);
      PulledSeen(src, init);
      if p == [] || IsDir(src, p) {
        PulledDirStep(src, walk);
      } else {
        assert IsFile(src, p);
        PulledFileStep(src, walk);
      }
    }
  }

  /** `pull_local` reproduces every file and directory of the source at
      the same relative path, and nothing else, when its walk visits every
      entry. */
  lemma PullLocalCopies(src: Tree, walk: seq<Path>)
    requires Copyable(src, walk)
    requires forall p :: p in src ==> p in walk
    ensures Pulled(src, walk) == Ok(src)
  {
    PulledSeen(src, walk);
    assert Seen(src, walk) == src;
  }

  // ------------------------------------------------------------------
  // fix_dir_times
  // ------------------------------------------------------------------

  /** A directory tree with modification times (whole seconds since the
      epoch): a directory's children are in `read_dir` order. */
  datatype Stamped = Leaf(mtime: int) | Folder(mtime: int, children: seq<(string, Stamped)>)

  /** The latest of some times, never earlier than the epoch (`latest`
      starts at `FileTime::from_unix_time(0, 0)`). */
  function Latest(xs: seq<int>): (r: int)
    ensures r >= 0 && forall i :: 0 <= i < |xs| ==> xs[i] <= r
    ensures r == 0 || exists i :: 0 <= i < |xs| && xs[i] == r
  {
    if xs == [] then 0
    else
      var m := Latest(xs[..|xs| - 1]);
      assert forall i :: 0 <= i < |xs| - 1 ==> xs[..|xs| - 1][i] == xs[i];
      if xs[|xs| - 1] > m then xs[|xs| - 1] else m
  }

  /** The times of some entries. */
  function Mtimes(cs: seq<(string, Stamped)>): (r: seq<int>)
    ensures |r| == |cs| && forall i :: 0 <= i < |cs| ==> r[i] == cs[i].1.mtime
  {
    seq(|cs|, i requires 0 <= i < |cs| => cs[i].1.mtime)
  }

  /** An entry after `fix_dir_times`: a regular file keeps its time; a
      directory's children are fixed first and its time becomes the latest
      of their new times. */
  function Fixed(c: Stamped): (r: Stamped)
    ensures c.Leaf? ==> r == c
    ensures c.Folder? ==> r.Folder? && |r.children| == |c.children|
    ensures c.Folder? ==> forall i :: 0 <= i < |c.children| ==>
      r.children[i].0 == c.children[i].0 && r.children[i].1.Leaf? == c.children[i].1.Leaf?
  {
    match c
    case Leaf(_) => c
    case Folder(_, ch) =>
      var f := seq(|ch|, i requires 0 <= i < |ch| => (ch[i].0, Fixed(ch[i].1)));
      Folder(Latest(Mtimes(f)), f)
  }

  /** The children of a directory after `fix_dir_times` ran on it. */
  function FixedChildren(ch: seq<(string, Stamped)>): (f: seq<(string, Stamped)>)
    ensures |f| == |ch| && forall i :: 0 <= i < |ch| ==> f[i] == (ch[i].0, Fixed(ch[i].1))
  {
    seq(|ch|, i requires 0 <= i < |ch| => (ch[i].0, Fixed(ch[i].1)))
  }

  /** `fix_dir_times(path)`: each child directory, in listing order, is
      fixed and then stamped with the latest time among its children; the
      directory `path` itself keeps its own time, and anything that is not
      a directory cannot be listed. */
  method FixDirTimes(node: Stamped) returns (r: Result<Stamped>)
    ensures node.Leaf? ==> r == Err("Not a directory")
    ensures node.Folder? ==> r == Ok(Folder(node.mtime, FixedChildren(node.children)))
    decreases node
  {
    if node.Leaf? {
      return Err("Not a directory");
    }
    var ch := node.children;
    var out: seq<(string, Stamped)> := [];
    for i := 0 to |ch|
      invariant |out| == i && forall k :: 0 <= k < i ==> out[k] == (ch[k].0, Fixed(ch[k].1))
    {
      var (name, child) := ch[i];
      if child.Folder? {
        var fixed := FixDirTimes(child);
        var kids := fixed.value.children;
        var times := Mtimes(kids);
        var latest := 0;
        for j := 0 to |kids|
          invariant latest == Latest(times[..j])
        {
          assert times[..j + 1][..j] == times[..j];
          if kids[j].1.mtime > latest {
            latest := kids[j].1.mtime;
          }
        }
        assert times[..|kids|] == times;
        assert kids == FixedChildren(child.children);
        out := out + [(name, Folder(latest, kids))];
      } else {
        out := out + [(name, child)];
      }
    }
    assert out == FixedChildren(ch);
    r := Ok(Folder(node.mtime, out));
  }

  /** All the regular file times below an entry (a file's own time for a
      file). */
  function FileTimes(c: Stamped): seq<int>
  {
    match c
    case Leaf(m) => [m]
    case Folder(_, ch) => Concat(seq(|ch|, i requires 0 <= i < |ch| => FileTimes(ch[i].1)))
  }

  function Concat(xss: seq<seq<int>>): seq<int>
  {
    if xss == [] then [] else Concat(xss[..|xss| - 1]) + xss[|xss| - 1]
  }

  lemma {:induction false} LatestAppend(xs: seq<int>, ys: seq<int>)
    ensures Latest(xs + ys) == if Latest(xs) > Latest(ys) then Latest(xs) else Latest(ys)
    decreases |ys|
  {
    if ys != [] {
      var init := ys[..|ys| - 1];
      assert (xs + ys)[..|xs + ys| - 1] == xs + init;
      LatestAppend(xs, init);
    } else {
      assert xs + ys == xs;
    }
  }

  /** The latest time of a concatenation is the latest of the latest
      times of its parts. */
  lemma {:induction false} LatestConcat(xss: seq<seq<int>>)
    ensures Latest(Concat(xss)) == Latest(seq(|xss|, i requires 0 <= i < |xss| => Latest(xss[i])))
  {
    if xss != [] {
      var init := xss[..|xss| - 1];
      LatestConcat(init);
      LatestAppend(Concat(init), xss[|xss| - 1]);
      var lasts := seq(|xss|, i requires 0 <= i < |xss| => Latest(xss[i]));
      assert lasts[..|xss| - 1] == seq(|init|, i requires 0 <= i < |init| => Latest(init[i]));
    }
  }

  /** Times before the epoch count as the epoch. */
  lemma {:induction false} LatestClamped(xs: seq<int>, ys: seq<int>)
    requires |xs| == |ys|
    requires forall i :: 0 <= i < |xs| ==> ys[i] == if xs[i] > 0 then xs[i] else 0
    ensures Latest(xs) == Latest(ys)
  {
    if xs != [] {
      LatestClamped(xs[..|xs| - 1], ys[..|ys| - 1]);
    }
  }

  /** After `fix_dir_times`, a directory's time is the latest time of the
      regular files anywhere below it, or the epoch when there is none
      (or all are older): `Fixed` propagates times bottom-up. */
  lemma {:induction false} FixedIsLatestFile(c: Stamped)
    ensures (if Fixed(c).mtime > 0 then Fixed(c).mtime else 0) == Latest(FileTimes(c))
  {
    match c
    case Leaf(m) =>
      assert [m][..0] == [];
    case Folder(_, ch) =>
      var f := FixedChildren(ch);
      var clamped := seq(|ch|, i requires 0 <= i < |ch| => if f[i].1.mtime > 0 then f[i].1.mtime else 0);
      var parts := seq(|ch|, i requires 0 <= i < |ch| => FileTimes(ch[i].1));
      forall i | 0 <= i < |ch| ensures clamped[i] == Latest(parts[i]) {
        FixedIsLatestFile(ch[i].1);
      }
      LatestClamped(Mtimes(f), clamped);
      LatestConcat(parts);
      assert clamped == seq(|parts|, i requires 0 <= i < |parts| => Latest(parts[i]));
  }

  // ------------------------------------------------------------------
  // get_sources
  // ------------------------------------------------------------------

  /** A source of a build manifest; `kind` should be "git", "tar" or
      "local". */
  datatype Source = Source(kind: string, url: string, path: Option<string>)

  /** The kinds `get_sources` has a handler for; "tar" only when the
      package manager is built with its `network` feature. Any other kind
      stops the program, so the model requires every kind to be handled. */
  predicate Handled(kind: string, network: bool)
  {
    kind == "git" || kind == "local" || (network && kind == "tar")
  }

  /** The context `get_sources` puts on the failure of a source of that
      kind. */
  function Context(kind: string, sourcePath: string): string
  {
    if kind == "git" then "Failed to pull git repo from " + sourcePath
    else if kind == "tar" then "Failed to extract tar archive from " + sourcePath
    else "Failed to copy local source from " + sourcePath
  }

  /** What `get_sources` leaves in the build directory: the sources are
      pulled into it in order, each one from the tree left by the one
      before. `git` (clone and checkout) and `tar` (download, unpack,
      `unwrap_tar_contents` and `fix_dir_times` into a fresh directory)
      are parameters; a local source is the tree at `sourcePath`, walked
      by `walk`. */
  function Fetched(target: Tree, sourcePath: string, local: Tree, walk: seq<Path>, sources: seq<Source>,
                   git: (Source, Tree) -> Result<Tree>, tar: Source -> Result<Tree>, network: bool): Result<Tree>
    requires forall i :: 0 <= i < |sources| ==> Handled(sources[i].kind, network)
  {
    if sources == [] then Ok(target)
    else
      match Fetched(target, sourcePath, local, walk, sources[..|sources| - 1], git, tar, network)
      case Err(e) => Err(e)
      case Ok(t) =>
        var s := sources[|sources| - 1];
        var pulled := if s.kind == "git" then git(s, t) else if s.kind == "tar" then tar(s) else Pulled(local, walk);
        if pulled.Err? then Err(Context(s.kind, sourcePath)) else pulled
  }

  /** Once a source fails, the later ones are not pulled. */
  lemma {:induction false} FetchedStop(target: Tree, sourcePath: string, local: Tree, walk: seq<Path>, sources: seq<Source>,
                                       git: (Source, Tree) -> Result<Tree>, tar: Source -> Result<Tree>, network: bool, k: nat)
    requires forall i :: 0 <= i < |sources| ==> Handled(sources[i].kind, network)
    requires 1 <= k <= |sources|
    requires Fetched(target, sourcePath, local, walk, sources[..k], git, tar, network).Err?
    ensures Fetched(target, sourcePath, local, walk, sources, git, tar, network)
         == Fetched(target, sourcePath, local, walk, sources[..k], git, tar, network)
    decreases |sources|
  {
    if k < |sources| {
      var init := sources[..|sources| - 1];
      assert init[..k] == sources[..k];
      FetchedStop(target, sourcePath, local, walk, init, git, tar, network, k);
    } else {
      assert sources[..k] == sources;
    }
  }

  /** `get_sources`, step by step. */
  method GetSources(target: Tree, sourcePath: string, local: Tree, walk: seq<Path>, sources: seq<Source>,
                    git: (Source, Tree) -> Result<Tree>, tar: Source -> Result<Tree>, network: bool)
    returns (r: Result<Tree>)
    requires forall i :: 0 <= i < |sources| ==> Handled(sources[i].kind, network)
    ensures r == Fetched(target, sourcePath, local, walk, sources, git, tar, network)
  {
    var cur := target;
    for i := 0 to |sources|
      invariant Fetched(target, sourcePath, local, walk, sources[..i], git, tar, network) == Ok(cur)
    {
      assert sources[..i + 1][..i] == sources[..i];
      var s := sources[i];
      var pulled: Result<Tree>;
      if s.kind == "git" {
        pulled := git(s, cur);
      } else if s.kind == "tar" {
        pulled := tar(s);
      } else {
        pulled := PullLocal(local, walk);
      }
      if pulled.Err? {
        FetchedStop(target, sourcePath, local, walk, sources, git, tar, network, i + 1);
        return Err(Context(s.kind, sourcePath));
      }
      cur := pulled.value;
    }
    assert sources[..|sources|] == sources;
    r := Ok(cur);
  }

  /** A failure names the kind of a listed source and the source path. */
  lemma {:induction false} FetchedFailsWithContext(target: Tree, sourcePath: string, local: Tree, walk: seq<Path>,
                                                   sources: seq<Source>, git: (Source, Tree) -> Result<Tree>,
                                                   tar: Source -> Result<Tree>, network: bool)
    requires forall i :: 0 <= i < |sources| ==> Handled(sources[i].kind, network)
    requires Fetched(target, sourcePath, local, walk, sources, git, tar, network).Err?
    ensures var r := Fetched(target, sourcePath, local, walk, sources, git, tar, network);
      exists i :: 0 <= i < |sources| && r.msg == Context(sources[i].kind, sourcePath)
  {
    var init := sources[..|sources| - 1];
    if Fetched(target, sourcePath, local, walk, init, git, tar, network).Err? {
      FetchedFailsWithContext(target, sourcePath, local, walk, init, git, tar, network);
      var prev := Fetched(target, sourcePath, local, walk, init, git, tar, network);
      var i :| 0 <= i < |init| && prev.msg == Context(init[i].kind, sourcePath);
      assert sources[i] == init[i];
    }
  }

  /** When the last source is local, the build directory ends up an exact
      copy of the source directory, whatever the earlier sources left. */
  lemma LastLocalSourceWins(target: Tree, sourcePath: string, local: Tree, walk: seq<Path>, sources: seq<Source>,
                            git: (Source, Tree) -> Result<Tree>, tar: Source -> Result<Tree>, network: bool)
    requires forall i :: 0 <= i < |sources| ==> Handled(sources[i].kind, network)
    requires Copyable(local, walk) && forall p :: p in local ==> p in walk
    requires sources != [] && sources[|sources| - 1].kind == "local"
    requires Fetched(target, sourcePath, local, walk, sources, git, tar, network).Ok?
    ensures Fetched(target, sourcePath, local, walk, sources, git, tar, network) == Ok(local)
  {
    PullLocalCopies(local, walk);
  }
}
