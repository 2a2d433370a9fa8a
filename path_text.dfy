/** Unix path text as Rust's `std::path` reads it: the components of a
    path, and the comparisons and name manipulations built on them. */
module PathText {
  import opened Base

  /** The root component `/` (never a normal component, which holds no `/`). */
  const Root := "/"

  /** The pieces that are normal components (or `..`): empty pieces
      (repeated or trailing separators) and interior `.` are dropped. */
  function Normals(pieces: seq<string>): (r: seq<string>)
    ensures |r| <= |pieces|
    ensures forall i :: 0 <= i < |r| ==> r[i] != "" && r[i] != "." && r[i] in pieces
  {
    if pieces == [] then []
    else
      var rest := Normals(pieces[1..]);
      if pieces[0] == "" || pieces[0] == "." then rest else [pieces[0]] + rest
  }

  /** `Path::components`: a leading `/` gives the root component, a leading
      `.` of a relative path is kept, everything else is a normal piece. */
  function Components(p: string): seq<string>
  {
    var pieces := Split(p, '/');
    if p != [] && p[0] == '/' then [Root] + Normals(pieces)
    else if pieces[0] == "." then ["."] + Normals(pieces[1..])
    else Normals(pieces)
  }

  /** `Path::ends_with`: `e`'s components are a suffix of `p`'s. */
  predicate EndsWith(p: string, e: string)
  {
    var cp, ce := Components(p), Components(e);
    |ce| <= |cp| && cp[|cp| - |ce|..] == ce
  }

  /** `Path::starts_with`: `base`'s components are a prefix of `p`'s. */
  predicate StartsWith(p: string, base: string)
  {
    Components(base) <= Components(p)
  }

  /** The empty path has no components, so every path ends with it. */
  lemma EverythingEndsWithEmpty(p: string)
    ensures EndsWith(p, "")
  {
    assert Split("", '/') == [""];
  }

  /** A piece that is a normal component on its own. */
  predicate IsNormal(a: string)
  {
    a != "" && a != "." && '/' !in a
  }

  /** The pieces of `a/b` for pieces `a` and `b` without separators. */
  lemma SplitTwo(a: string, b: string)
    requires '/' !in a && '/' !in b
    ensures Split(a + "/" + b, '/') == [a, b]
  {
    SplitWithout(a, '/');
    SplitWithout(b, '/');
    SplitAround(a, b, '/');
  }

  /** The components of a normal piece `b`, of `a/b` and of `/a/b`. */
  lemma ComponentsOfTwo(a: string, b: string)
    requires IsNormal(a) && IsNormal(b)
    ensures Components(b) == [b]
    ensures Components(a + "/" + b) == [a, b]
    ensures Components("/" + a + "/" + b) == [Root, a, b]
  {
    SplitWithout(b, '/');
    assert Normals([b]) == [b];
    SplitTwo(a, b);
    assert Normals([a, b]) == [a, b] by {
      assert [a, b][1..] == [b];
    }
    var ab := a + "/" + b;
    SplitAround("", ab, '/');
    SplitWithout("", '/');
    assert "/" + ab == "" + ['/'] + ab;
    assert Split("/" + ab, '/') == [""] + [a, b];
    assert Normals([""] + [a, b]) == [a, b] by {
      assert ([""] + [a, b])[1..] == [a, b];
    }
    assert "/" + a + "/" + b == "/" + ab;
  }

  /** The comparison is by whole components, not by characters: `a/b`
      ends with `c/b` only when `a` and `c` are the same component (so
      `bin/bash` does not end with `in/bash`), and `/a/b` ends with `b`. */
  lemma ComponentWiseSuffix(a: string, b: string, c: string)
    requires IsNormal(a) && IsNormal(b) && IsNormal(c)
    ensures EndsWith(a + "/" + b, c + "/" + b) <==> a == c
    ensures EndsWith("/" + a + "/" + b, b)
    ensures EndsWith("/" + a + "/" + b, a + "/" + b)
  {
    ComponentsOfTwo(a, b);
    ComponentsOfTwo(c, b);
  }

  /** `Path::file_name`: the last component when it is a normal one. */
  function FileName(p: string): (r: Option<string>)
    ensures r.Some? ==> r.value != "" && r.value != "." && r.value != ".." && '/' !in r.value
  {
    var cs := Components(p);
    if cs == [] then None
    else
      var last := cs[|cs| - 1];
      if last == Root || last == "." || last == ".." then None
      else
        LastIsPiece(p);
        Some(last)
  }

  /** A normal component is one of the `/`-separated pieces. */
  lemma LastIsPiece(p: string)
    requires Components(p) != []
    ensures var cs := Components(p);
      cs[|cs| - 1] != Root ==> '/' !in cs[|cs| - 1] && cs[|cs| - 1] != ""
  {
    var pieces := Split(p, '/');
    var cs := Components(p);
    var last := cs[|cs| - 1];
    if last != Root && last != "." {
      assert last in pieces;
    }
  }

  /** The position of the last `c` in `s`, if any. */
  function LastIndex(s: string, c: char): (r: Option<nat>)
    ensures r.Some? ==> r.value < |s| && s[r.value] == c && c !in s[r.value + 1..]
    ensures r.None? ==> c !in s
  {
    if s == [] then None
    else if s[|s| - 1] == c then Some(|s| - 1)
    else
      var r := LastIndex(s[..|s| - 1], c);
      assert s == s[..|s| - 1] + [s[|s| - 1]];
      r
  }

  /** `PathBuf::set_extension("new")` on a file name: the extension after
      the last `.` is replaced, and a name whose only `.` leads it has no
      extension, so `.new` is appended. */
  function WithNewExtension(name: string): string
  {
    match LastIndex(name, '.')
    case Some(i) => if i > 0 then name[..i] + ".new" else name + ".new"
    case None => name + ".new"
  }

  /** Where the last `.` of `pre.rest` is, when `rest` has none. */
  lemma {:induction false} LastIndexAfterDot(pre: string, rest: string)
    requires '.' !in rest
    ensures LastIndex(pre + "." + rest, '.') == Some(|pre|)
  {
    var s := pre + "." + rest;
    if rest != [] {
      var init := rest[..|rest| - 1];
      assert s[..|s| - 1] == pre + "." + init;
      assert '.' !in init by {
        forall i | 0 <= i < |init| ensures init[i] != '.' { assert init[i] == rest[i]; }
      }
      LastIndexAfterDot(pre, init);
      assert s[|s| - 1] == rest[|rest| - 1];
    }
  }

  /** The temporary name ends in `.new`, and it is the name itself exactly
      when the name already has the extension `new` (and is more than
      `.new`, which has no extension). */
  lemma WithNewExtensionShape(name: string)
    ensures var t := WithNewExtension(name);
      && |t| >= 4 && t[|t| - 4..] == ".new"
      && (t == name <==> |name| >= 5 && name[|name| - 4..] == ".new")
  {
    if |name| >= 5 && name[|name| - 4..] == ".new" {
      var pre := name[..|name| - 4];
      assert name == pre + "." + "new";
      LastIndexAfterDot(pre, "new");
    }
    match LastIndex(name, '.')
    case Some(i) =>
      if i > 0 {
        assert |WithNewExtension(name)| == i + 4;
      } else {
        assert |WithNewExtension(name)| == |name| + 4;
      }
    case None =>
      assert |WithNewExtension(name)| == |name| + 4;
  }

  /** `a` and `a.new` share the temporary name `a.new`. */
  lemma TemporaryNamesCollide()
    ensures WithNewExtension("a") == "a.new" == WithNewExtension("a.new")
  {
    WithNewExtensionShape("a.new");
  }
}
