/** A directory tree as a map from component paths to entries, with the few
    `std::fs` primitives the package manager uses on it. */
module Fs {
  import opened Base

  /** A directory entry. `Special` is anything that is neither a regular file
      nor a directory (a symbolic link, a device, a socket); the model never
      follows symbolic links. */
  datatype Node = File(data: Bytes, mode: U32) | Dir | Special

  /** Entries keyed by their path below the tree's root; the root itself is
      not an entry. */
  type Tree = map<Path, Node>

  predicate IsFile(t: Tree, p: Path) { p in t && t[p].File? }

  predicate IsDir(t: Tree, p: Path) { p in t && t[p].Dir? }

  /** A tree a real filesystem can hold: every proper prefix of an entry's
      path is a directory entry. */
  ghost predicate WellFormed(t: Tree)
  {
    && [] !in t
    && forall p, k :: p in t && 1 <= k < |p| ==> IsDir(t, p[..k])
  }

  /** `fs::create_dir_all(dir)`: every non-empty prefix of `dir` becomes a
      directory; fails when one of them exists and is not a directory. */
  function CreateDirAll(t: Tree, dir: Path): (r: Result<Tree>)
    ensures r.Ok? <==> forall k :: 1 <= k <= |dir| && dir[..k] in t ==> t[dir[..k]].Dir?
    ensures r.Ok? ==> forall k :: 1 <= k <= |dir| ==> IsDir(r.value, dir[..k])
    ensures r.Ok? ==> forall p :: p in t ==> p in r.value && r.value[p] == t[p]
    ensures r.Ok? ==> forall p :: p in r.value && p !in t ==> r.value[p] == Dir && p <= dir && p != []
  {
    if dir == [] then Ok(t)
    else
      var parent := dir[..|dir| - 1];
      assert forall k :: 1 <= k <= |parent| ==> parent[..k] == dir[..k];
      assert dir[..|dir|] == dir;
      match CreateDirAll(t, parent)
      case Err(e) => Err(e)
      case Ok(t1) =>
        assert dir in t1 ==> dir in t && t1[dir] == t[dir];
        if dir !in t1 then
          var t2 := t1[dir := Dir];
          assert forall k :: 1 <= k <= |dir| ==> IsDir(t2, dir[..k]) by {
            forall k | 1 <= k <= |dir| ensures IsDir(t2, dir[..k]) {
              if k < |dir| { assert IsDir(t1, parent[..k]); }
            }
          }
          Ok(t2)
        else if t1[dir].Dir? then Ok(t1)
        else Err("File exists")
  }

  /** Creating or replacing the regular file `p` (`fs::write`, `fs::copy`,
      `fs::rename` of a file): fails when `p` is a directory or when its
      parent is not an existing directory. */
  function WriteFile(t: Tree, p: Path, data: Bytes, mode: U32): (r: Result<Tree>)
    requires p != []
    ensures r.Ok? <==> !IsDir(t, p) && (|p| == 1 || IsDir(t, p[..|p| - 1]))
    ensures r.Ok? ==> r.value == t[p := File(data, mode)]
  {
    if IsDir(t, p) then Err("Is a directory")
    else if |p| > 1 && !IsDir(t, p[..|p| - 1]) then Err("No such file or directory")
    else Ok(t[p := File(data, mode)])
  }

  /** The entries strictly below `dir`, re-rooted at `dir` (what a walk of
      `dir` sees, with `strip_prefix(dir)` applied). */
  function Subtree(t: Tree, dir: Path): (s: Tree)
    ensures forall q :: q in s <==> q != [] && dir + q in t
    ensures forall q :: q in s ==> s[q] == t[dir + q]
  {
    map q | q in Suffixes(t, dir) :: t[dir + q]
  }

  function Suffixes(t: Tree, dir: Path): (qs: set<Path>)
    ensures forall q :: q in qs <==> q != [] && dir + q in t
  {
    var qs := set p | p in t && dir < p :: p[|dir|..];
    assert forall q :: q != [] && dir + q in t ==> (dir + q)[|dir|..] == q && dir < dir + q;
    assert forall p :: dir < p ==> dir + p[|dir|..] == p;
    qs
  }
}
