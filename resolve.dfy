/** Finding repositories and packages (src/utils/mod.rs). `canonicalize`
    is a parameter: the canonical form of a path, or nothing when the path
    does not exist. The repositories directory is its listing in
    `read_dir` order, each repository its path and its files. */
module Resolve {
  import opened Base
  import opened PathText
  import opened Types
  import opened Manifest

  /** `resolve_repo`: the canonical path of `base/repoName`, refused when
      it does not lie component-wise under the canonical base. */
  function ResolveRepo(base: string, repoName: string, canon: string -> Option<string>): (r: Result<string>)
    ensures canon(base).None? ==> r == Err("Failed to canonicalize base path")
    ensures canon(base).Some? && canon(JoinPath(base, repoName)).None? ==> r == Err("Failed to canonicalize repo path")
    ensures r.Ok? <==>
      && canon(base).Some? && canon(JoinPath(base, repoName)).Some?
      && StartsWith(canon(JoinPath(base, repoName)).value, canon(base).value)
    ensures r.Ok? ==> r.value == canon(JoinPath(base, repoName)).value && StartsWith(r.value, canon(base).value)
  {
    var candidate := JoinPath(base, repoName);
    match canon(base)
    case None => Err("Failed to canonicalize base path")
    case Some(baseCanon) =>
      match canon(candidate)
      case None => Err("Failed to canonicalize repo path")
      case Some(candidateCanon) =>
        if !StartsWith(candidateCanon, baseCanon) then Err("Invalid repo path: escapes repository root")
        else Ok(candidateCanon)
  }

  /** Containment is by whole components: under `/a/b`, the sibling
      `/a/c` is refused even when `b` is a textual prefix of `c` (so
      `/srv/repos-evil` is not inside `/srv/repos`), and `/a/b/c` is
      accepted. */
  lemma SiblingIsOutside(a: string, b: string, c: string)
    requires IsNormal(a) && IsNormal(b) && IsNormal(c)
    ensures StartsWith("/" + a + "/" + c, "/" + a + "/" + b) <==> b == c
  {
    ComponentsOfTwo(a, b);
    ComponentsOfTwo(a, c);
    if StartsWith("/" + a + "/" + c, "/" + a + "/" + b) {
      assert [Root, a, b][2] == [Root, a, c][2];
    }
  }

  /** A path made only of normal pieces under an absolute base lies
      inside it. */
  lemma ChildIsInside(a: string, b: string)
    requires IsNormal(a) && IsNormal(b)
    ensures StartsWith("/" + a + "/" + b, "/" + a)
  {
    ComponentsOfTwo(a, b);
    SplitAround("", a, '/');
    SplitWithout("", '/');
    SplitWithout(a, '/');
    assert "/" + a == "" + ['/'] + a;
    assert Normals([""] + [a]) == [a] by {
      assert ([""] + [a])[1..] == [a];
      assert Normals([a]) == [a];
    }
  }

  /** A repository holding the package, with that package's manifest. */
  datatype Candidate = Candidate(path: string, pkg: PackageManifest)

  /** The repositories, in listing order, whose manifest has the package
      and that pass the filter; an unreadable manifest stops the search
      with its error. */
  function Candidates(repos: seq<(string, Files)>, id: string, filter: string -> bool, parse: Parser, crypto: Crypto)
    : Result<seq<Candidate>>
  {
    if repos == [] then Ok([])
    else
      var prev := Candidates(repos[..|repos| - 1], id, filter, parse, crypto);
      var (path, files) := repos[|repos| - 1];
      if prev.Err? then prev
      else
        match ReadManifest(files, parse, crypto)
        case Err(e) => Err(e)
        case Ok(m) =>
          if GetPackage(m, id).Ok? && filter(path) then Ok(prev.value + [Candidate(path, GetPackage(m, id).value)])
          else prev
  }

  /** The search succeeds exactly when every manifest is readable. */
  lemma {:induction false} CandidatesOk(repos: seq<(string, Files)>, id: string, filter: string -> bool,
                                        parse: Parser, crypto: Crypto)
    ensures Candidates(repos, id, filter, parse, crypto).Ok?
        <==> forall i :: 0 <= i < |repos| ==> ReadManifest(repos[i].1, parse, crypto).Ok?
  {
    if repos != [] {
      var init := repos[..|repos| - 1];
      CandidatesOk(init, id, filter, parse, crypto);
      assert forall i :: 0 <= i < |init| ==> repos[i] == init[i];
    }
  }

  /** Every candidate stands for a listed repository that holds the
      package and passes the filter. */
  lemma {:induction false} CandidatesSound(repos: seq<(string, Files)>, id: string, filter: string -> bool,
                                           parse: Parser, crypto: Crypto, c: Candidate)
    requires Candidates(repos, id, filter, parse, crypto).Ok?
    requires c in Candidates(repos, id, filter, parse, crypto).value
    ensures exists i :: 0 <= i < |repos| && Holds(repos[i], id, filter, parse, crypto) && c == CandidateOf(repos[i], id, parse, crypto)
  {
    var init := repos[..|repos| - 1];
    var prev := Candidates(init, id, filter, parse, crypto);
    if prev.Ok? && c in prev.value {
      CandidatesSound(init, id, filter, parse, crypto, c);
      var i :| 0 <= i < |init| && Holds(init[i], id, filter, parse, crypto) && c == CandidateOf(init[i], id, parse, crypto);
      assert repos[i] == init[i];
    } else {
      assert Holds(repos[|repos| - 1], id, filter, parse, crypto);
    }
  }

  /** Every listed repository that holds the package and passes the
      filter is a candidate. */
  lemma {:induction false} CandidatesComplete(repos: seq<(string, Files)>, id: string, filter: string -> bool,
                                              parse: Parser, crypto: Crypto, i: nat)
    requires Candidates(repos, id, filter, parse, crypto).Ok?
    requires i < |repos| && Holds(repos[i], id, filter, parse, crypto)
    ensures CandidateOf(repos[i], id, parse, crypto) in Candidates(repos, id, filter, parse, crypto).value
  {
    var init := repos[..|repos| - 1];
    if i < |init| {
      assert init[i] == repos[i];
      CandidatesComplete(init, id, filter, parse, crypto, i);
    }
  }

  /** Repository `repo` has a readable manifest holding the package and
      passes the filter. */
  predicate Holds(repo: (string, Files), id: string, filter: string -> bool, parse: Parser, crypto: Crypto)
  {
    var m := ReadManifest(repo.1, parse, crypto);
    m.Ok? && GetPackage(m.value, id).Ok? && filter(repo.0)
  }

  /** The candidate repository `repo` stands for. */
  function CandidateOf(repo: (string, Files), id: string, parse: Parser, crypto: Crypto): Candidate
    requires ReadManifest(repo.1, parse, crypto).Ok? && GetPackage(ReadManifest(repo.1, parse, crypto).value, id).Ok?
  {
    Candidate(repo.0, GetPackage(ReadManifest(repo.1, parse, crypto).value, id).value)
  }

  /** The loop of `resolve_package` collecting `possible_repos`. */
  method CollectCandidates(repos: seq<(string, Files)>, id: string, filter: string -> bool, parse: Parser, crypto: Crypto)
    returns (r: Result<seq<Candidate>>)
    ensures r == Candidates(repos, id, filter, parse, crypto)
  {
    var possible: seq<Candidate> := [];
    var i := 0;
    while i < |repos|
      invariant 0 <= i <= |repos|
      invariant Candidates(repos[..i], id, filter, parse, crypto) == Ok(possible)
    {
      assert repos[..i + 1][..i] == repos[..i];
      var (path, files) := repos[i];
      var manifest := ReadManifest(files, parse, crypto);
      if manifest.Err? {
        CandidatesStop(repos, id, filter, parse, crypto, i + 1);
        return Err(manifest.msg);
      }
      var pkg := GetPackage(manifest.value, id);
      if pkg.Ok? && filter(path) {
        possible := possible + [Candidate(path, pkg.value)];
      }
      i := i + 1;
    }
    assert repos[..i] == repos;
    r := Ok(possible);
  }

  /** Once a manifest is unreadable the rest of the listing is not read. */
  lemma {:induction false} CandidatesStop(repos: seq<(string, Files)>, id: string, filter: string -> bool,
                                          parse: Parser, crypto: Crypto, k: nat)
    requires 1 <= k <= |repos|
    requires Candidates(repos[..k], id, filter, parse, crypto).Err?
    ensures Candidates(repos, id, filter, parse, crypto) == Candidates(repos[..k], id, filter, parse, crypto)
    decreases |repos|
  {
    if k < |repos| {
      var init := repos[..|repos| - 1];
      assert init[..k] == repos[..k];
      CandidatesStop(init, id, filter, parse, crypto, k);
    } else {
      assert repos[..k] == repos;
    }
  }

  /** `resolve_package`: no candidate is an error, one candidate is the
      answer, and among several `choose` (the interactive `choose_repo`)
      picks one of them or fails. */
  method ResolvePackage(repos: seq<(string, Files)>, id: string, filter: string -> bool, parse: Parser, crypto: Crypto,
                        choose: seq<Candidate> -> Result<Candidate>)
    returns (r: Result<Candidate>)
    requires forall cs :: choose(cs).Ok? ==> choose(cs).value in cs
    ensures var cands := Candidates(repos, id, filter, parse, crypto);
      && (cands.Err? ==> r == Err(cands.msg))
      && (cands.Ok? && cands.value == [] ==> r == Err("No Repositories contain that package."))
      && (cands.Ok? && |cands.value| == 1 ==> r == Ok(cands.value[0]))
      && (cands.Ok? && |cands.value| > 1 ==> r == choose(cands.value))
      && (r.Ok? ==> cands.Ok? && r.value in cands.value)
  {
    var cands := CollectCandidates(repos, id, filter, parse, crypto);
    if cands.Err? {
      return Err(cands.msg);
    }
    if |cands.value| > 1 {
      return choose(cands.value);
    }
    if |cands.value| == 1 {
      return Ok(cands.value[0]);
    }
    r := Err("No Repositories contain that package.");
  }

  /** A resolved package is the one asked for, from a repository whose
      readable manifest holds it and that passes the filter. */
  lemma ResolvedIsGenuine(repos: seq<(string, Files)>, id: string, filter: string -> bool, parse: Parser, crypto: Crypto,
                          c: Candidate)
    requires Candidates(repos, id, filter, parse, crypto).Ok? && c in Candidates(repos, id, filter, parse, crypto).value
    ensures c.pkg.id == id && filter(c.path)
    ensures exists i :: 0 <= i < |repos| && repos[i].0 == c.path && Holds(repos[i], id, filter, parse, crypto)
  {
    CandidatesSound(repos, id, filter, parse, crypto, c);
    var i :| 0 <= i < |repos| && Holds(repos[i], id, filter, parse, crypto) && c == CandidateOf(repos[i], id, parse, crypto);
  }
}
