/** Reconciling the quicklaunch directory (src/run/quicklaunch.rs): one
    launcher script per command file name of every package of every
    repository, and nothing else. The directory is a map from entry name
    to entry; the running executable's canonical path is a parameter. */
module Quicklaunch {
  import opened Base
  import opened PathText
  import opened Types
  import opened Manifest

  /** An entry of the quicklaunch directory. */
  datatype Entry = Script(text: string, mode: U32) | Subdir

  type QuickDir = map<string, Entry>

  /** Mode given to a file `fs::write` creates, taken as 0o644 since the
      process umask is not modelled, and the mode every launcher is given
      (0o755). A staged file keeps the first only when its rename fails. */
  const NewFileMode: U32 := 0x1A4
  const LauncherMode: U32 := 0x1ED

  /** The script that runs command `name` of package `id`. */
  function LauncherScript(exe: string, id: string, name: string): string
  {
    "#!/bin/bash\n" + exe + " run " + id + " -- " + name + " $@"
  }

  /** The code as written stages each script under
      `PathBuf::set_extension("new")` of its name. */
  function Staged(name: string): string
  {
    WithNewExtension(name)
  }

  /** Writing the launcher for one command: stage the script under
      `stage(name)`, rename it over `name`, make it executable. The name is
      returned so that it can join the allowed set. */
  function WriteLauncher(q: QuickDir, exe: Option<string>, id: string, cmd: string, stage: string -> string)
    : (Result<string>, QuickDir)
  {
    match FileName(cmd)
    case None => (Err("Could not get entrypoint name"), q)
    case Some(name) =>
      if exe.None? then (Err("Could not get current executable path"), q)
      else
        var script := LauncherScript(exe.value, id, name);
        var tmp := stage(name);
        if tmp in q && q[tmp].Subdir? then (Err("Is a directory"), q)
        else
          // `fs::write` keeps the mode of a file it overwrites
          var q1 := q[tmp := Script(script, if tmp in q then q[tmp].mode else NewFileMode)];
          if tmp != name && name in q1 && q1[name].Subdir? then (Err("Is a directory"), q1)
          else
            var q2 := if tmp == name then q1 else (q1 - {tmp})[name := q1[tmp]];
            (Ok(name), q2[name := Script(script, LauncherMode)])
  }

  /** One command's write, step by step. */
  method InstallLauncher(q: QuickDir, exe: Option<string>, id: string, cmd: string, stage: string -> string)
    returns (r: Result<string>, q': QuickDir)
    ensures (r, q') == WriteLauncher(q, exe, id, cmd, stage)
  {
    q' := q;
    var name := FileName(cmd);
    if name.None? {
      return Err("Could not get entrypoint name"), q';
    }
    if exe.None? {
      return Err("Could not get current executable path"), q';
    }
    var script := LauncherScript(exe.value, id, name.value);
    var tmp := stage(name.value);
    if tmp in q' && q'[tmp].Subdir? {
      return Err("Is a directory"), q';
    }
    q' := q'[tmp := Script(script, if tmp in q' then q'[tmp].mode else NewFileMode)];
    if tmp != name.value {
      if name.value in q' && q'[name.value].Subdir? {
        return Err("Is a directory"), q';
      }
      var staged := q'[tmp];
      q' := (q' - {tmp})[name.value := staged];
    }
    q' := q'[name.value := Script(script, LauncherMode)];
    r := Ok(name.value);
  }

  /** Where the first phase has got to: its outcome, the directory, and the
      names allowed so far. */
  datatype Progress = Progress(r: Result<()>, q: QuickDir, allowed: set<string>)

  /** The launchers of one package's commands, in order, stopping at the
      first failure. */
  function WriteCommands(q: QuickDir, allowed: set<string>, exe: Option<string>, id: string, cmds: seq<string>,
                         stage: string -> string): Progress
  {
    if cmds == [] then Progress(Ok(()), q, allowed)
    else
      var prev := WriteCommands(q, allowed, exe, id, cmds[..|cmds| - 1], stage);
      if prev.r.Err? then prev
      else
        var (res, q') := WriteLauncher(prev.q, exe, id, cmds[|cmds| - 1], stage);
        if res.Err? then Progress(Err(res.msg), q', prev.allowed)
        else Progress(Ok(()), q', prev.allowed + {res.value})
  }

  /** The launchers of every package of one manifest. */
  function WritePackages(q: QuickDir, allowed: set<string>, exe: Option<string>, pkgs: seq<PackageManifest>,
                         stage: string -> string): Progress
  {
    if pkgs == [] then Progress(Ok(()), q, allowed)
    else
      var prev := WritePackages(q, allowed, exe, pkgs[..|pkgs| - 1], stage);
      if prev.r.Err? then prev
      else
        var p := pkgs[|pkgs| - 1];
        WriteCommands(prev.q, prev.allowed, exe, p.id, p.commands, stage)
  }

  /** The first phase over the repositories in listing order: an
      unreadable manifest stops everything. */
  function WriteRepos(q: QuickDir, allowed: set<string>, repos: seq<Files>, parse: Parser, crypto: Crypto,
                      exe: Option<string>, stage: string -> string): Progress
  {
    if repos == [] then Progress(Ok(()), q, allowed)
    else
      var prev := WriteRepos(q, allowed, repos[..|repos| - 1], parse, crypto, exe, stage);
      if prev.r.Err? then prev
      else
        match ReadManifest(repos[|repos| - 1], parse, crypto)
        case Err(e) => Progress(Err(e), prev.q, prev.allowed)
        case Ok(m) => WritePackages(prev.q, prev.allowed, exe, m.packages, stage)
  }

  /** The entries outside `allowed` are all files, so `remove_file` can
      delete them. */
  predicate NoStaleDirs(q: QuickDir, allowed: set<string>)
  {
    forall k :: k in q && k !in allowed ==> q[k] != Subdir
  }

  /** The directory keeping only allowed entries. */
  function Restrict(q: QuickDir, allowed: set<string>): (r: QuickDir)
    ensures r.Keys == q.Keys * allowed
    ensures forall k :: k in r ==> r[k] == q[k]
  {
    map k | k in q && k in allowed :: q[k]
  }

  /** The second phase: delete every entry whose name is not allowed. The
      order of the listing is left open. */
  method RemoveStale(q: QuickDir, allowed: set<string>) returns (r: Result<()>, q': QuickDir)
    ensures r.Ok? <==> NoStaleDirs(q, allowed)
    ensures r.Ok? ==> q' == Restrict(q, allowed)
    ensures r.Err? ==> q'.Keys <= q.Keys && q.Keys * allowed <= q'.Keys && forall k :: k in q' ==> q'[k] == q[k]
  {
    q' := q;
    var pending := set k | k in q && k !in allowed;
    while pending != {}
      invariant pending <= q.Keys
      invariant forall k :: k in q' ==> k in q && q'[k] == q[k]
      invariant forall k :: k in q ==> (k in q' <==> k in allowed || k in pending)
      invariant forall k :: k in q && k !in allowed && k !in pending ==> q[k] != Subdir
      decreases pending
    {
      var k :| k in pending;
      if q'[k].Subdir? {
        return Err("Is a directory"), q';
      }
      q' := q' - {k};
      pending := pending - {k};
    }
    r := Ok(());
  }

  /** The innermost loop: one package's commands. */
  method WriteCommandLaunchers(q: QuickDir, allowed: set<string>, exe: Option<string>, id: string, cmds: seq<string>)
    returns (p: Progress)
    ensures p == WriteCommands(q, allowed, exe, id, cmds, Staged)
  {
    p := Progress(Ok(()), q, allowed);
    var k := 0;
    while k < |cmds|
      invariant 0 <= k <= |cmds|
      invariant p == WriteCommands(q, allowed, exe, id, cmds[..k], Staged) && p.r.Ok?
    {
      WriteCommandsStep(q, allowed, exe, id, cmds, Staged, k);
      var name, q' := InstallLauncher(p.q, exe, id, cmds[k], Staged);
      if name.Err? {
        p := Progress(Err(name.msg), q', p.allowed);
        WriteCommandsStops(q, allowed, exe, id, cmds, Staged, k + 1);
        return;
      }
      p := Progress(Ok(()), q', p.allowed + {name.value});
      k := k + 1;
    }
    assert cmds[..k] == cmds;
  }

  /** One more command, in terms of its launcher write. */
  lemma WriteCommandsStep(q: QuickDir, allowed: set<string>, exe: Option<string>, id: string, cmds: seq<string>,
                          stage: string -> string, k: nat)
    requires k < |cmds|
    ensures var prev := WriteCommands(q, allowed, exe, id, cmds[..k], stage);
      var w := WriteLauncher(prev.q, exe, id, cmds[k], stage);
      WriteCommands(q, allowed, exe, id, cmds[..k + 1], stage)
        == if prev.r.Err? then prev
           else if w.0.Err? then Progress(Err(w.0.msg), w.1, prev.allowed)
           else Progress(Ok(()), w.1, prev.allowed + {w.0.value})
  {
    assert cmds[..k + 1][..k] == cmds[..k];
  }

  /** The middle loop: the packages of one manifest. */
  method WritePackageLaunchers(q: QuickDir, allowed: set<string>, exe: Option<string>, pkgs: seq<PackageManifest>)
    returns (p: Progress)
    ensures p == WritePackages(q, allowed, exe, pkgs, Staged)
  {
    p := Progress(Ok(()), q, allowed);
    var j := 0;
    while j < |pkgs|
      invariant 0 <= j <= |pkgs|
      invariant p == WritePackages(q, allowed, exe, pkgs[..j], Staged) && p.r.Ok?
    {
      assert pkgs[..j + 1][..j] == pkgs[..j];
      p := WriteCommandLaunchers(p.q, p.allowed, exe, pkgs[j].id, pkgs[j].commands);
      if p.r.Err? {
        WritePackagesStops(q, allowed, exe, pkgs, Staged, j + 1);
        return;
      }
      j := j + 1;
    }
    assert pkgs[..j] == pkgs;
  }

  /** The outer loop: the repositories in listing order. */
  method WriteRepoLaunchers(q: QuickDir, repos: seq<Files>, parse: Parser, crypto: Crypto, exe: Option<string>)
    returns (p: Progress)
    ensures p == WriteRepos(q, {}, repos, parse, crypto, exe, Staged)
  {
    p := Progress(Ok(()), q, {});
    var i := 0;
    while i < |repos|
      invariant 0 <= i <= |repos|
      invariant p == WriteRepos(q, {}, repos[..i], parse, crypto, exe, Staged) && p.r.Ok?
    {
      WriteReposStep(q, repos, parse, crypto, exe, Staged, i);
      var manifest := ReadManifest(repos[i], parse, crypto);
      if manifest.Err? {
        p := Progress(Err(manifest.msg), p.q, p.allowed);
        WriteReposStops(q, repos, parse, crypto, exe, Staged, i + 1);
        return;
      }
      p := WritePackageLaunchers(p.q, p.allowed, exe, manifest.value.packages);
      if p.r.Err? {
        WriteReposStops(q, repos, parse, crypto, exe, Staged, i + 1);
        return;
      }
      i := i + 1;
    }
    assert repos[..i] == repos;
  }

  /** One more repository, in terms of its manifest. */
  lemma WriteReposStep(q: QuickDir, repos: seq<Files>, parse: Parser, crypto: Crypto, exe: Option<string>,
                       stage: string -> string, i: nat)
    requires i < |repos|
    ensures var prev := WriteRepos(q, {}, repos[..i], parse, crypto, exe, stage);
      var m := ReadManifest(repos[i], parse, crypto);
      WriteRepos(q, {}, repos[..i + 1], parse, crypto, exe, stage)
        == if prev.r.Err? then prev
           else if m.Err? then Progress(Err(m.msg), prev.q, prev.allowed)
           else WritePackages(prev.q, prev.allowed, exe, m.value.packages, stage)
  {
    assert repos[..i + 1][..i] == repos[..i];
  }

  /** `update_quicklaunch`: write every launcher, then delete what is not
      allowed. */
  method UpdateQuicklaunch(repos: seq<Files>, q: QuickDir, parse: Parser, crypto: Crypto, exe: Option<string>)
    returns (r: Result<()>, q': QuickDir)
    ensures var w := WriteRepos(q, {}, repos, parse, crypto, exe, Staged);
      && (w.r.Err? ==> r.Err? && q' == w.q)
      && (w.r.Ok? ==> (r.Ok? <==> NoStaleDirs(w.q, w.allowed)))
      && (r.Ok? ==> w.r.Ok? && q' == Restrict(w.q, w.allowed))
  {
    var w := WriteRepoLaunchers(q, repos, parse, crypto, exe);
    if w.r.Err? {
      return w.r, w.q;
    }
    r, q' := RemoveStale(w.q, w.allowed);
  }

  // ------------------------------------------------------------------
  // A failure stops each phase.
  // ------------------------------------------------------------------

  lemma {:induction false} WriteCommandsStops(q: QuickDir, allowed: set<string>, exe: Option<string>, id: string,
                                              cmds: seq<string>, stage: string -> string, k: nat)
    requires k <= |cmds| && WriteCommands(q, allowed, exe, id, cmds[..k], stage).r.Err?
    ensures WriteCommands(q, allowed, exe, id, cmds, stage) == WriteCommands(q, allowed, exe, id, cmds[..k], stage)
    decreases |cmds|
  {
    if k < |cmds| {
      var init := cmds[..|cmds| - 1];
      assert init[..k] == cmds[..k];
      WriteCommandsStops(q, allowed, exe, id, init, stage, k);
    } else {
      assert cmds[..k] == cmds;
    }
  }

  lemma {:induction false} WritePackagesStops(q: QuickDir, allowed: set<string>, exe: Option<string>,
                                              pkgs: seq<PackageManifest>, stage: string -> string, k: nat)
    requires 1 <= k <= |pkgs|
    requires WritePackages(q, allowed, exe, pkgs[..k], stage).r.Err?
    ensures WritePackages(q, allowed, exe, pkgs, stage) == WritePackages(q, allowed, exe, pkgs[..k], stage)
    decreases |pkgs|
  {
    if k < |pkgs| {
      var init := pkgs[..|pkgs| - 1];
      assert init[..k] == pkgs[..k];
      WritePackagesStops(q, allowed, exe, init, stage, k);
    } else {
      assert pkgs[..k] == pkgs;
    }
  }

  lemma {:induction false} WriteReposStops(q: QuickDir, repos: seq<Files>, parse: Parser, crypto: Crypto,
                                           exe: Option<string>, stage: string -> string, k: nat)
    requires 1 <= k <= |repos|
    requires WriteRepos(q, {}, repos[..k], parse, crypto, exe, stage).r.Err?
    ensures WriteRepos(q, {}, repos, parse, crypto, exe, stage) == WriteRepos(q, {}, repos[..k], parse, crypto, exe, stage)
    decreases |repos|
  {
    if k < |repos| {
      var init := repos[..|repos| - 1];
      assert init[..k] == repos[..k];
      WriteReposStops(q, init, parse, crypto, exe, stage, k);
    } else {
      assert repos[..k] == repos;
    }
  }

  // ------------------------------------------------------------------
  // The allowed set.
  // ------------------------------------------------------------------

  /** The file names of some commands, the ones that have one. */
  function CommandNames(cmds: seq<string>): set<string>
  {
    if cmds == [] then {}
    else
      CommandNames(cmds[..|cmds| - 1])
        + match FileName(cmds[|cmds| - 1])
          case Some(n) => {n}
          case None => {}
  }

  /** The file names of all commands of some packages. */
  function PackageNames(pkgs: seq<PackageManifest>): set<string>
  {
    if pkgs == [] then {} else PackageNames(pkgs[..|pkgs| - 1]) + CommandNames(pkgs[|pkgs| - 1].commands)
  }

  /** The file names of all commands of all packages of the repositories
      whose manifests can be read. */
  function ReposNames(repos: seq<Files>, parse: Parser, crypto: Crypto): set<string>
  {
    if repos == [] then {}
    else
      ReposNames(repos[..|repos| - 1], parse, crypto)
        + match ReadManifest(repos[|repos| - 1], parse, crypto)
          case Ok(m) => PackageNames(m.packages)
          case Err(_) => {}
  }

  /** Every file name in `CommandNames` is that of a command. */
  lemma {:induction false} CommandNamesSound(cmds: seq<string>, n: string)
    requires n in CommandNames(cmds)
    ensures exists c :: c in cmds && FileName(c) == Some(n)
  {
    var init := cmds[..|cmds| - 1];
    if n in CommandNames(init) {
      CommandNamesSound(init, n);
      var c :| c in init && FileName(c) == Some(n);
      assert c in cmds;
    } else {
      assert FileName(cmds[|cmds| - 1]) == Some(n);
    }
  }

  /** The file name of every command is in `CommandNames`. */
  lemma {:induction false} CommandNamesComplete(cmds: seq<string>, i: nat)
    requires i < |cmds| && FileName(cmds[i]).Some?
    ensures FileName(cmds[i]).value in CommandNames(cmds)
  {
    if i < |cmds| - 1 {
      var init := cmds[..|cmds| - 1];
      assert init[i] == cmds[i];
      CommandNamesComplete(init, i);
    }
  }

  /** Every file name in `PackageNames` is that of a command of a package. */
  lemma {:induction false} PackageNamesSound(pkgs: seq<PackageManifest>, n: string)
    requires n in PackageNames(pkgs)
    ensures exists j, c :: 0 <= j < |pkgs| && c in pkgs[j].commands && FileName(c) == Some(n)
  {
    var init := pkgs[..|pkgs| - 1];
    if n in PackageNames(init) {
      PackageNamesSound(init, n);
      var j, c :| 0 <= j < |init| && c in init[j].commands && FileName(c) == Some(n);
      assert pkgs[j] == init[j];
    } else {
      CommandNamesSound(pkgs[|pkgs| - 1].commands, n);
    }
  }

  /** The file name of every command of every package is in
      `PackageNames`. */
  lemma {:induction false} PackageNamesComplete(pkgs: seq<PackageManifest>, j: nat, i: nat)
    requires j < |pkgs| && i < |pkgs[j].commands| && FileName(pkgs[j].commands[i]).Some?
    ensures FileName(pkgs[j].commands[i]).value in PackageNames(pkgs)
  {
    if j < |pkgs| - 1 {
      var init := pkgs[..|pkgs| - 1];
      assert init[j] == pkgs[j];
      PackageNamesComplete(init, j, i);
    } else {
      CommandNamesComplete(pkgs[j].commands, i);
    }
  }

  /** A launcher write that succeeds reports the command's file name. */
  lemma WriteLauncherName(q: QuickDir, exe: Option<string>, id: string, cmd: string, stage: string -> string)
    ensures WriteLauncher(q, exe, id, cmd, stage).0.Ok? ==>
      exe.Some? && FileName(cmd) == Some(WriteLauncher(q, exe, id, cmd, stage).0.value)
  {
  }

  lemma {:induction false} WriteCommandsNames(q: QuickDir, allowed: set<string>, exe: Option<string>, id: string,
                                              cmds: seq<string>, stage: string -> string)
    ensures var w := WriteCommands(q, allowed, exe, id, cmds, stage);
      w.r.Ok? ==> (forall c :: c in cmds ==> FileName(c).Some?) && w.allowed == allowed + CommandNames(cmds)
  {
    if cmds != [] {
      var init := cmds[..|cmds| - 1];
      var prev := WriteCommands(q, allowed, exe, id, init, stage);
      WriteCommandsNames(q, allowed, exe, id, init, stage);
      var last := cmds[|cmds| - 1];
      WriteLauncherName(prev.q, exe, id, last, stage);
      var l := WriteLauncher(prev.q, exe, id, last, stage);
      assert CommandNames(cmds) == CommandNames(init) + (if FileName(last).Some? then {FileName(last).value} else {});
      if WriteCommands(q, allowed, exe, id, cmds, stage).r.Ok? {
        assert prev.r.Ok? && l.0.Ok?;
        forall c | c in cmds ensures FileName(c).Some? {
          assert c in init || c == last;
        }
      }
    }
  }

  lemma {:induction false} WritePackagesNames(q: QuickDir, allowed: set<string>, exe: Option<string>,
                                              pkgs: seq<PackageManifest>, stage: string -> string)
    ensures var w := WritePackages(q, allowed, exe, pkgs, stage);
      w.r.Ok? ==> w.allowed == allowed + PackageNames(pkgs)
  {
    if pkgs != [] {
      var init := pkgs[..|pkgs| - 1];
      var last := pkgs[|pkgs| - 1];
      WritePackagesNames(q, allowed, exe, init, stage);
      var prev := WritePackages(q, allowed, exe, init, stage);
      WriteCommandsNames(prev.q, prev.allowed, exe, last.id, last.commands, stage);
      assert PackageNames(pkgs) == PackageNames(init) + CommandNames(last.commands);
      assert WritePackages(q, allowed, exe, pkgs, stage)
          == if prev.r.Err? then prev else WriteCommands(prev.q, prev.allowed, exe, last.id, last.commands, stage);
    }
  }

  /** The first phase, when it succeeds, has allowed exactly the file
      names of all commands of all packages of every repository. */
  lemma {:induction false} WriteReposNames(q: QuickDir, repos: seq<Files>, parse: Parser, crypto: Crypto,
                                           exe: Option<string>, stage: string -> string)
    ensures var w := WriteRepos(q, {}, repos, parse, crypto, exe, stage);
      w.r.Ok? ==> w.allowed == ReposNames(repos, parse, crypto)
  {
    if repos != [] {
      var init := repos[..|repos| - 1];
      WriteReposNames(q, init, parse, crypto, exe, stage);
      var prev := WriteRepos(q, {}, init, parse, crypto, exe, stage);
      var m := ReadManifest(repos[|repos| - 1], parse, crypto);
      if m.Ok? {
        WritePackagesNames(prev.q, prev.allowed, exe, m.value.packages, stage);
      }
    }
  }

  // ------------------------------------------------------------------
  // Which launchers survive.
  // ------------------------------------------------------------------

  /** The package each command name is launched for: every command with a
      file name hands it to its package's id, so a later command with the
      same file name takes it over from an earlier one. */
  function CommandOwners(owners: map<string, string>, id: string, cmds: seq<string>): map<string, string>
  {
    if cmds == [] then owners
    else
      var prev := CommandOwners(owners, id, cmds[..|cmds| - 1]);
      match FileName(cmds[|cmds| - 1])
      case Some(n) => prev[n := id]
      case None => prev
  }

  function PackageOwners(owners: map<string, string>, pkgs: seq<PackageManifest>): map<string, string>
  {
    if pkgs == [] then owners
    else
      var p := pkgs[|pkgs| - 1];
      CommandOwners(PackageOwners(owners, pkgs[..|pkgs| - 1]), p.id, p.commands)
  }

  /** The owners over the repositories whose manifests can be read, in
      listing order. */
  function ReposOwners(repos: seq<Files>, parse: Parser, crypto: Crypto): map<string, string>
  {
    if repos == [] then map[]
    else
      var prev := ReposOwners(repos[..|repos| - 1], parse, crypto);
      match ReadManifest(repos[|repos| - 1], parse, crypto)
      case Ok(m) => PackageOwners(prev, m.packages)
      case Err(_) => prev
  }

  /** Every name of `owners` holds the executable launcher that runs that
      command of the package `owners` gives for it. */
  ghost predicate Launchers(q: QuickDir, owners: map<string, string>, exe: string)
  {
    forall n :: n in owners ==> n in q && q[n] == Script(LauncherScript(exe, owners[n], n), LauncherMode)
  }

  /** No name of `names` is the staging name of another one. */
  predicate NoClash(stage: string -> string, names: set<string>)
  {
    forall m, n :: m in names && n in names && stage(n) == m ==> m == n
  }

  lemma LauncherStep(q: QuickDir, owners: map<string, string>, exe: string, id: string, cmd: string,
                     stage: string -> string)
    requires WriteLauncher(q, Some(exe), id, cmd, stage).0.Ok?
    requires Launchers(q, owners, exe)
    requires NoClash(stage, owners.Keys + {WriteLauncher(q, Some(exe), id, cmd, stage).0.value})
    ensures var (r, q') := WriteLauncher(q, Some(exe), id, cmd, stage);
      Launchers(q', owners[r.value := id], exe)
  {
    var (r, q') := WriteLauncher(q, Some(exe), id, cmd, stage);
    var n := r.value;
    forall m | m in owners && m != n ensures m in q' && q'[m] == q[m] {
      assert stage(n) != m;
    }
  }

  lemma {:induction false} WriteCommandsLaunchers(q: QuickDir, allowed: set<string>, owners: map<string, string>,
                                                  exe: string, id: string, cmds: seq<string>, stage: string -> string)
    requires Launchers(q, owners, exe)
    requires WriteCommands(q, allowed, Some(exe), id, cmds, stage).r.Ok?
    requires NoClash(stage, CommandOwners(owners, id, cmds).Keys)
    ensures Launchers(WriteCommands(q, allowed, Some(exe), id, cmds, stage).q, CommandOwners(owners, id, cmds), exe)
  {
    if cmds != [] {
      var init := cmds[..|cmds| - 1];
      var last := cmds[|cmds| - 1];
      var prev := WriteCommands(q, allowed, Some(exe), id, init, stage);
      var w := WriteLauncher(prev.q, Some(exe), id, last, stage);
      assert prev.r.Ok? && w.0.Ok?;
      WriteLauncherName(prev.q, Some(exe), id, last, stage);
      var before := CommandOwners(owners, id, init);
      var n := w.0.value;
      assert CommandOwners(owners, id, cmds) == before[n := id];
      assert before[n := id].Keys == before.Keys + {n};
      WriteCommandsLaunchers(q, allowed, owners, exe, id, init, stage);
      LauncherStep(prev.q, before, exe, id, last, stage);
      assert WriteCommands(q, allowed, Some(exe), id, cmds, stage).q == w.1;
    }
  }

  /** The names the owners of some commands cover. */
  lemma {:induction false} CommandOwnersKeys(owners: map<string, string>, id: string, cmds: seq<string>)
    ensures CommandOwners(owners, id, cmds).Keys == owners.Keys + CommandNames(cmds)
  {
    if cmds != [] {
      CommandOwnersKeys(owners, id, cmds[..|cmds| - 1]);
    }
  }

  /** A package's commands hand their names to it and leave the owners of
      all other names as they were. */
  lemma {:induction false} CommandOwnersTakeOver(owners: map<string, string>, id: string, cmds: seq<string>, n: string)
    ensures n in CommandNames(cmds) ==> n in CommandOwners(owners, id, cmds) && CommandOwners(owners, id, cmds)[n] == id
    ensures n !in CommandNames(cmds) ==>
      (n in CommandOwners(owners, id, cmds) <==> n in owners)
      && (n in owners ==> CommandOwners(owners, id, cmds)[n] == owners[n])
  {
    if cmds != [] {
      CommandOwnersTakeOver(owners, id, cmds[..|cmds| - 1], n);
    }
  }

  lemma {:induction false} PackageOwnersKeys(owners: map<string, string>, pkgs: seq<PackageManifest>)
    ensures PackageOwners(owners, pkgs).Keys == owners.Keys + PackageNames(pkgs)
  {
    if pkgs != [] {
      var init := pkgs[..|pkgs| - 1];
      PackageOwnersKeys(owners, init);
      CommandOwnersKeys(PackageOwners(owners, init), pkgs[|pkgs| - 1].id, pkgs[|pkgs| - 1].commands);
    }
  }

  /** The names the owners cover are exactly the allowed names. */
  lemma {:induction false} ReposOwnersKeys(repos: seq<Files>, parse: Parser, crypto: Crypto)
    ensures ReposOwners(repos, parse, crypto).Keys == ReposNames(repos, parse, crypto)
  {
    if repos != [] {
      var init := repos[..|repos| - 1];
      ReposOwnersKeys(init, parse, crypto);
      var m := ReadManifest(repos[|repos| - 1], parse, crypto);
      if m.Ok? {
        PackageOwnersKeys(ReposOwners(init, parse, crypto), m.value.packages);
      }
    }
  }

  /** Names that none of some packages' commands has keep their owner. */
  lemma {:induction false} PackageOwnersKeep(owners: map<string, string>, pkgs: seq<PackageManifest>, n: string)
    requires n !in PackageNames(pkgs)
    ensures n in PackageOwners(owners, pkgs) <==> n in owners
    ensures n in owners ==> PackageOwners(owners, pkgs)[n] == owners[n]
  {
    if pkgs != [] {
      var init := pkgs[..|pkgs| - 1];
      var last := pkgs[|pkgs| - 1];
      PackageOwnersKeep(owners, init, n);
      CommandOwnersTakeOver(PackageOwners(owners, init), last.id, last.commands, n);
    }
  }

  /** The owner of a name is the last package, in manifest order, that has
      a command with that file name. */
  lemma {:induction false} PackageOwnersLast(owners: map<string, string>, pkgs: seq<PackageManifest>, j: nat, n: string)
    requires j < |pkgs| && n in CommandNames(pkgs[j].commands)
    requires forall k :: j < k < |pkgs| ==> n !in CommandNames(pkgs[k].commands)
    ensures n in PackageOwners(owners, pkgs) && PackageOwners(owners, pkgs)[n] == pkgs[j].id
    decreases |pkgs|
  {
    var init := pkgs[..|pkgs| - 1];
    var last := pkgs[|pkgs| - 1];
    if j == |pkgs| - 1 {
      CommandOwnersTakeOver(PackageOwners(owners, init), last.id, last.commands, n);
    } else {
      assert forall k :: j < k < |init| ==> init[k] == pkgs[k];
      PackageOwnersLast(owners, init, j, n);
      CommandOwnersTakeOver(PackageOwners(owners, init), last.id, last.commands, n);
    }
  }

  /** The owner of a name is the id of the last package, in repository
      listing order and then manifest order, with a command of that file
      name. */
  lemma {:induction false} ReposOwnersLast(repos: seq<Files>, parse: Parser, crypto: Crypto, i: nat, j: nat, n: string)
    requires i < |repos| && ReadManifest(repos[i], parse, crypto).Ok?
    requires var pkgs := ReadManifest(repos[i], parse, crypto).value.packages;
      && j < |pkgs| && n in CommandNames(pkgs[j].commands)
      && forall k :: j < k < |pkgs| ==> n !in CommandNames(pkgs[k].commands)
    requires forall k :: i < k < |repos| && ReadManifest(repos[k], parse, crypto).Ok? ==>
      n !in PackageNames(ReadManifest(repos[k], parse, crypto).value.packages)
    ensures n in ReposOwners(repos, parse, crypto)
    ensures ReposOwners(repos, parse, crypto)[n] == ReadManifest(repos[i], parse, crypto).value.packages[j].id
    decreases |repos|
  {
    var init := repos[..|repos| - 1];
    var m := ReadManifest(repos[|repos| - 1], parse, crypto);
    if i == |repos| - 1 {
      PackageOwnersLast(ReposOwners(init, parse, crypto), m.value.packages, j, n);
    } else {
      assert forall k :: i < k < |init| ==> init[k] == repos[k];
      assert init[i] == repos[i];
      ReposOwnersLast(init, parse, crypto, i, j, n);
      if m.Ok? {
        PackageOwnersKeep(ReposOwners(init, parse, crypto), m.value.packages, n);
      }
    }
  }

  /** Every owner is the id of a package, in a readable repository, that
      has a command with that file name. */
  lemma {:induction false} PackageOwnersSound(owners: map<string, string>, pkgs: seq<PackageManifest>, n: string)
    requires n in PackageOwners(owners, pkgs)
    ensures (n in owners && PackageOwners(owners, pkgs)[n] == owners[n])
      || exists j :: 0 <= j < |pkgs| && n in CommandNames(pkgs[j].commands) && pkgs[j].id == PackageOwners(owners, pkgs)[n]
  {
    if pkgs != [] {
      var init := pkgs[..|pkgs| - 1];
      var last := pkgs[|pkgs| - 1];
      CommandOwnersTakeOver(PackageOwners(owners, init), last.id, last.commands, n);
      if n !in CommandNames(last.commands) {
        PackageOwnersSound(owners, init, n);
        if !(n in owners && PackageOwners(owners, pkgs)[n] == owners[n]) {
          var j :| 0 <= j < |init| && n in CommandNames(init[j].commands) && init[j].id == PackageOwners(owners, init)[n];
          assert pkgs[j] == init[j];
        }
      }
    }
  }

  lemma {:induction false} ReposOwnersSound(repos: seq<Files>, parse: Parser, crypto: Crypto, n: string)
    requires n in ReposOwners(repos, parse, crypto)
    ensures exists i, j ::
              && 0 <= i < |repos| && ReadManifest(repos[i], parse, crypto).Ok?
              && 0 <= j < |ReadManifest(repos[i], parse, crypto).value.packages|
              && n in CommandNames(ReadManifest(repos[i], parse, crypto).value.packages[j].commands)
              && ReadManifest(repos[i], parse, crypto).value.packages[j].id == ReposOwners(repos, parse, crypto)[n]
  {
    var init := repos[..|repos| - 1];
    var prev := ReposOwners(init, parse, crypto);
    var m := ReadManifest(repos[|repos| - 1], parse, crypto);
    var here := m.Ok? && !(n in prev && ReposOwners(repos, parse, crypto)[n] == prev[n]);
    if m.Ok? {
      PackageOwnersSound(prev, m.value.packages, n);
    }
    if here {
      var j :| 0 <= j < |m.value.packages| && n in CommandNames(m.value.packages[j].commands)
        && m.value.packages[j].id == ReposOwners(repos, parse, crypto)[n];
      assert ReadManifest(repos[|repos| - 1], parse, crypto).value.packages[j] == m.value.packages[j];
    } else {
      ReposOwnersSound(init, parse, crypto, n);
      var i, j :| 0 <= i < |init| && ReadManifest(init[i], parse, crypto).Ok?
        && 0 <= j < |ReadManifest(init[i], parse, crypto).value.packages|
        && n in CommandNames(ReadManifest(init[i], parse, crypto).value.packages[j].commands)
        && ReadManifest(init[i], parse, crypto).value.packages[j].id == prev[n];
      assert repos[i] == init[i];
    }
  }

  lemma {:induction false} WritePackagesLaunchers(q: QuickDir, allowed: set<string>, owners: map<string, string>,
                                                  exe: string, pkgs: seq<PackageManifest>, stage: string -> string)
    requires Launchers(q, owners, exe)
    requires WritePackages(q, allowed, Some(exe), pkgs, stage).r.Ok?
    requires NoClash(stage, PackageOwners(owners, pkgs).Keys)
    ensures Launchers(WritePackages(q, allowed, Some(exe), pkgs, stage).q, PackageOwners(owners, pkgs), exe)
  {
    if pkgs != [] {
      var init := pkgs[..|pkgs| - 1];
      var last := pkgs[|pkgs| - 1];
      var prev := WritePackages(q, allowed, Some(exe), init, stage);
      var before := PackageOwners(owners, init);
      CommandOwnersKeys(before, last.id, last.commands);
      WritePackagesLaunchers(q, allowed, owners, exe, init, stage);
      WriteCommandsLaunchers(prev.q, prev.allowed, before, exe, last.id, last.commands, stage);
    }
  }

  lemma {:induction false} WriteReposLaunchers(q: QuickDir, repos: seq<Files>, parse: Parser, crypto: Crypto,
                                               exe: string, stage: string -> string)
    requires WriteRepos(q, {}, repos, parse, crypto, Some(exe), stage).r.Ok?
    requires NoClash(stage, ReposOwners(repos, parse, crypto).Keys)
    ensures Launchers(WriteRepos(q, {}, repos, parse, crypto, Some(exe), stage).q, ReposOwners(repos, parse, crypto), exe)
  {
    if repos != [] {
      var init := repos[..|repos| - 1];
      var prev := WriteRepos(q, {}, init, parse, crypto, Some(exe), stage);
      var before := ReposOwners(init, parse, crypto);
      var m := ReadManifest(repos[|repos| - 1], parse, crypto).value;
      PackageOwnersKeys(before, m.packages);
      WriteReposLaunchers(q, init, parse, crypto, exe, stage);
      WritePackagesLaunchers(prev.q, prev.allowed, before, exe, m.packages, stage);
    }
  }

  /** Every manifest has been read when the first phase succeeds. */
  lemma {:induction false} WriteReposReadsAll(q: QuickDir, repos: seq<Files>, parse: Parser, crypto: Crypto,
                                              exe: Option<string>, stage: string -> string)
    requires WriteRepos(q, {}, repos, parse, crypto, exe, stage).r.Ok?
    ensures forall i :: 0 <= i < |repos| ==> ReadManifest(repos[i], parse, crypto).Ok?
  {
    if repos != [] {
      var init := repos[..|repos| - 1];
      WriteReposReadsAll(q, init, parse, crypto, exe, stage);
      assert forall i :: 0 <= i < |init| ==> repos[i] == init[i];
    }
  }

  /** When no command's staging name is another command's name, a
      successful update leaves exactly one executable launcher per command
      name of every package of every repository, running that command of
      the last package to have it, and nothing else. */
  lemma UpdateLeavesExactlyLaunchers(q: QuickDir, repos: seq<Files>, parse: Parser, crypto: Crypto,
                                     exe: string, stage: string -> string)
    requires WriteRepos(q, {}, repos, parse, crypto, Some(exe), stage).r.Ok?
    requires NoClash(stage, ReposNames(repos, parse, crypto))
    ensures var w := WriteRepos(q, {}, repos, parse, crypto, Some(exe), stage);
      && Restrict(w.q, w.allowed).Keys == ReposNames(repos, parse, crypto)
      && Launchers(Restrict(w.q, w.allowed), ReposOwners(repos, parse, crypto), exe)
  {
    WriteReposNames(q, repos, parse, crypto, Some(exe), stage);
    ReposOwnersKeys(repos, parse, crypto);
    WriteReposLaunchers(q, repos, parse, crypto, exe, stage);
  }

  /** Staging each script under its own name: the evident intent, with no
      temporary name that could be another command's name. */
  function InPlace(name: string): string
  {
    name
  }

  /** With in-place staging every successful update leaves exactly the
      launchers of all command names, whatever the names are. */
  lemma InPlaceKeepsEveryLauncher(q: QuickDir, repos: seq<Files>, parse: Parser, crypto: Crypto, exe: string)
    requires WriteRepos(q, {}, repos, parse, crypto, Some(exe), InPlace).r.Ok?
    ensures var w := WriteRepos(q, {}, repos, parse, crypto, Some(exe), InPlace);
      && Restrict(w.q, w.allowed).Keys == ReposNames(repos, parse, crypto)
      && Launchers(Restrict(w.q, w.allowed), ReposOwners(repos, parse, crypto), exe)
  {
    UpdateLeavesExactlyLaunchers(q, repos, parse, crypto, exe, InPlace);
  }

  /** A normal piece is its own file name. */
  lemma FileNameOfNormal(a: string)
    requires IsNormal(a) && a != ".."
    ensures FileName(a) == Some(a)
  {
    SplitWithout(a, '/');
    assert Normals([a]) == [a];
  }

  /** A launcher write whose command has a file name and whose two names
      are not directories succeeds: the staging entry, if distinct, is
      gone and the name holds the executable script. */
  lemma WriteLauncherEffect(q: QuickDir, exe: string, id: string, cmd: string, stage: string -> string, name: string)
    requires FileName(cmd) == Some(name)
    requires stage(name) !in q || q[stage(name)].Script?
    requires name !in q || q[name].Script?
    ensures WriteLauncher(q, Some(exe), id, cmd, stage)
      == (Ok(name), (if stage(name) == name then q else q - {stage(name)})[name := Script(LauncherScript(exe, id, name), LauncherMode)])
  {
    var tmp := stage(name);
    var script := Script(LauncherScript(exe, id, name), LauncherMode);
    var q1 := q[tmp := Script(LauncherScript(exe, id, name), if tmp in q then q[tmp].mode else NewFileMode)];
    if tmp != name {
      var q2 := (q1 - {tmp})[name := q1[tmp]];
      assert q2[name := script] == (q - {tmp})[name := script];
    } else {
      assert q1[name := script] == q[name := script];
    }
  }

  /** As written, the commands `a.new` and `a` of one package both stage
      under `a.new`: writing `a` overwrites the launcher of `a.new` and
      renames it away, yet the update succeeds with `a.new` allowed and
      missing. */
  lemma StagingClobbersLauncher(exe: string, id: string)
    ensures var w := WriteCommands(map[], {}, Some(exe), id, ["a.new", "a"], Staged);
      && w.r.Ok? && w.allowed == {"a.new", "a"}
      && "a.new" !in w.q
      && Restrict(w.q, w.allowed).Keys == {"a"}
  {
    var cmds := ["a.new", "a"];
    TemporaryNamesCollide();
    FileNameOfNormal("a.new");
    FileNameOfNormal("a");
    WriteCommandsStep(map[], {}, Some(exe), id, cmds, Staged, 0);
    WriteCommandsStep(map[], {}, Some(exe), id, cmds, Staged, 1);
    assert cmds[..0] == [] && cmds[..2] == cmds;
    WriteLauncherEffect(map[], exe, id, "a.new", Staged, "a.new");
    var q1 := map["a.new" := Script(LauncherScript(exe, id, "a.new"), LauncherMode)];
    WriteLauncherEffect(q1, exe, id, "a", Staged, "a");
  }
}
