/** The programs of Starting and the names of PathSearch, said in terms of the tree alone. */
module OnDisk {
  import opened Text
  import opened Paths
  import opened FileTree
  import opened Remap
  import opened Creation
  import opened Shebang
  import opened Elf
  import opened Toolchain
  import opened Exec
  import opened Starting
  import opened PathSearch

  function Living(t: Tree): Path -> bool {
    (p: Path) => Lives(t, p)
  }

  lemma {:induction false} SeesPath(m: Machine, p: Path)
    requires WellFormed(m.tree) && Normalised(p)
    ensures m.Sees(Render(p)) <==> Lives(m.tree, p)
    ensures Lives(m.tree, p) ==> m.Reaches(Render(p)) == Some(p) && m.Target(Render(p)) == Some(Render(p))
    ensures Lives(m.tree, p) && m.tree[p].File? ==> m.Read(Render(p)) == Some(m.tree[p].data)
  {
    LookupOfRender(m.tree, m.cwd, p);
  }

  /** The same for a relative spelling, from the root as working directory. */
  lemma {:induction false} SeesRelative(m: Machine, p: Path)
    requires WellFormed(m.tree) && m.cwd == [] && p != [] && p in m.tree && Alive(m.tree[p])
    ensures m.Sees(RenderRel(p)) && m.Reaches(RenderRel(p)) == Some(p) && m.Target(RenderRel(p)) == Some(RenderRel(p))
    ensures m.tree[p].File? ==> m.Read(RenderRel(p)) == Some(m.tree[p].data)
  {
    hide Namei, Steps, Split, Join;
    StepsOfRelative(p);
    NameiOfPath(m.tree, p);
    RelativeIsNotAbsolute(p);
    SplitJoin(p, '/');
    assert IsName(p[|p| - 1]);
  }

  /** The candidate an exec finds for a classic name. */
  lemma {:induction false} FirstLiving(m: Machine, l: Layout, p: Path)
    requires l.Valid() && m.roots == l.Text() && WellFormed(m.tree) && Classic(p)
    ensures m.FirstCandidate(Render(p)) == Rendered(Find(CandidatePaths(l, p), Living(m.tree)))
  {
    hide WellFormed, Normalised, CandidatePaths, Candidates;
    CandidatesAgree(l, p);
    var texts, paths := Candidates(Render(p), l.Text()), CandidatePaths(l, p);
    forall i | 0 <= i < 4 ensures m.Seen()(texts[i]) == Living(m.tree)(paths[i]) {
      SeesPath(m, paths[i]);
    }
    FindRendered(texts, paths, m.Seen(), Living(m.tree));
  }

  lemma {:induction false} LastNameOf(p: Path)
    requires Normalised(p) && p != []
    ensures LastName(Render(p)) == p[|p| - 1]
  {
    var front, name := Parent(p), p[|p| - 1];
    assert p == front + [name];
    var cut := if front == [] then "/" else Render(front) + "/";
    if front != [] {
      JoinConcat(front, [name], '/');
      JoinOne(name, '/');
    } else {
      JoinOne(name, '/');
    }
    assert Render(p) == cut + name;
    assert IsName(name);
    assert forall j :: 0 <= j < |name| ==> (cut + name)[|cut| + j] == name[j];
    EndIs(Render(p), IsSlash(), |cut|);
  }

  /** A program that is no script and needs no loader that is missing. */
  ghost predicate Program(t: Tree, p: Path) {
    p in t && t[p].File? && IsElf(t[p].data) && Interp(t[p].data).None?
  }

  lemma {:induction false} ProgramRunsAsItIs(m: Machine, p: Path)
    requires WellFormed(m.tree) && Normalised(p) && Program(m.tree, p)
    ensures RunsAsItIs(m, Render(p)) && m.Reaches(Render(p)) == Some(p)
  {
    SeesPath(m, p);
  }

  /** A script file: its first line is short, names `interp`, and is split alike by the library and
      the kernel. */
  ghost predicate ScriptFile(t: Tree, s: Path, interp: string, arg: Option<string>) {
    && s in t && t[s].File?
    && exists line, rest ::
         && t[s].data == "#!" + line + "\n" + rest && |line| + 3 <= SHEBANG_MAX && Free(line, '\n')
         && KernelSplit(line) == Some((interp, arg)) && SplitsAlike(line)
  }

  lemma {:induction false} HeadOfScript(data: string, line: string, rest: string)
    requires data == "#!" + line + "\n" + rest && |line| + 3 <= SHEBANG_MAX && Free(line, '\n')
    ensures "#!" <= HeadOf(data) && LineOf(HeadOf(data)) == line && !Free(HeadOf(data)[2..], '\n')
  {
    var head := HeadOf(data);
    var tail := "\n" + rest[..|head| - |line| - 3];
    assert head == "#!" + line + tail;
    LineIs(head, line, tail);
    assert head[2..][|line|] == '\n';
  }

  /** A script whose classic interpreter is missing but has a living candidate is one that
      `prepare_exec` rewrites. */
  lemma {:induction false} ScriptIsMoved(m: Machine, l: Layout, s: Path, q: Path, arg: Option<string>, c: Path)
    requires l.Valid() && m.roots == l.Text() && WellFormed(m.tree)
    requires ScriptFile(m.tree, s, Render(q), arg) && Classic(q) && !Lives(m.tree, q)
    requires Find(CandidatePaths(l, q), Living(m.tree)) == Some(c)
    ensures MovedScript(m, Render(s), Render(q), arg, Render(c))
    ensures m.Target(Render(s)) == Some(Render(s))
  {
    hide CandidatePaths, KernelSplit, LineOf, HeadOf, SplitsAlike;
    SeesPath(m, s);
    SeesPath(m, q);
    FirstLiving(m, l, q);
    var line, rest :|
      && m.tree[s].data == "#!" + line + "\n" + rest && |line| + 3 <= SHEBANG_MAX && Free(line, '\n')
      && KernelSplit(line) == Some((Render(q), arg)) && SplitsAlike(line);
    HeadOfScript(m.tree[s].data, line, rest);
  }

  lemma FilesAreNormalised(t: Tree, s: Path, c: Path)
    requires WellFormed(t) && Program(t, c)
    requires s == c || (s in t && t[s].File?)
    ensures Normalised(s) && s != [] && Normalised(c) && c != []
  {
  }

  lemma ScriptIsFile(t: Tree, s: Path, interp: string, arg: Option<string>)
    requires ScriptFile(t, s, interp, arg)
    ensures s in t && t[s].File?
  {
  }

  lemma {:induction false} NoDriver(m: Machine, s: Path, argv: seq<string>, envp: seq<string>)
    requires Normalised(s) && s != []
    requires GnuDriver(s[|s| - 1]).None? && s[|s| - 1] != "pkg-config" && s[|s| - 1] != "pkgconf"
    ensures ToolchainExec(m, Render(s), argv, envp).None?
  {
    LastNameOf(s);
  }

  /** A script on disk: starting it runs the interpreter found below the roots on the script's own
      path, with the script's argument in front and the caller's arguments behind. */
  lemma {:induction false} ScriptOnDisk(
      m: Machine, l: Layout, s: Path, q: Path, arg: Option<string>, c: Path, argv: seq<string>, envp: seq<string>,
      depth: nat)
    requires l.Valid() && m.roots == l.Text() && WellFormed(m.tree)
    requires ScriptFile(m.tree, s, Render(q), arg) && Classic(q) && !Lives(m.tree, q)
    requires Find(CandidatePaths(l, q), Living(m.tree)) == Some(c) && Program(m.tree, c)
    requires GnuDriver(s[|s| - 1]).None? && s[|s| - 1] != "pkg-config" && s[|s| - 1] != "pkgconf"
    ensures Prepared(m, Render(s), argv, envp).Some?
    ensures var e := Prepared(m, Render(s), argv, envp).value;
            KernelExec(m.tree, Reaching(m), e.file, e.Argv(argv), depth)
            == Runs(c, [Render(c)] + (ArgOf(arg) + [Render(s)] + Tail(argv)))
  {
    hide *;
    ScriptIsMoved(m, l, s, q, arg, c);
    ScriptIsFile(m.tree, s, Render(q), arg);
    FilesAreNormalised(m.tree, s, c);
    ProgramRunsAsItIs(m, c);
    NoDriver(m, s, argv, envp);
    ScriptStartsTheSame(m, Render(s), argv, envp, depth, Render(q), arg, Render(c));
  }

  /** Where this system keeps its copy of a loader. */
  function LoaderPath(l: Layout, name: string): Option<Path> {
    if "ld-linux" <= name then Some(l.Union() + [GNU, "lib", name])
    else if "ld-musl" <= name then Some(l.MuslSysdir() + ["lib", name])
    else None
  }

  lemma {:induction false} JoinTwice(base: Path, mid: Path, name: string)
    requires Normalised(base) && Normalised(mid) && mid != [] && IsName(name)
    ensures PathJoin(PathJoin(Render(base), RenderRel(mid)), name) == Render(base + mid + [name])
    ensures Normalised(base + mid + [name])
  {
    hide PathJoin, Render, RenderRel;
    JoinRendered(base, mid);
    TwoNames(name, "");
    JoinRendered(base + mid, [name]);
  }

  lemma {:induction false} LoaderText(l: Layout, q: Path)
    requires l.Valid() && Normalised(q) && q != []
    ensures SystemLoader(l.Text(), Render(q)) == Rendered(LoaderPath(l, q[|q| - 1]))
    ensures LoaderPath(l, q[|q| - 1]).Some? ==> Normalised(LoaderPath(l, q[|q| - 1]).value)
  {
    hide PathJoin, Render, RenderRel, LastName, IsName;
    var name := q[|q| - 1];
    LastNameOf(q);
    UnderAgrees(l);
    RootsAreNormalised(l);
    LoaderDirs();
    JoinTwice(l.Union(), [GNU, "lib"], name);
    JoinTwice(l.MuslSysdir(), ["lib"], name);
    assert l.Union() + [GNU, "lib"] + [name] == l.Union() + [GNU, "lib", name];
    assert l.MuslSysdir() + ["lib"] + [name] == l.MuslSysdir() + ["lib", name];
  }

  lemma LoaderDirs()
    ensures Normalised([GNU, "lib"]) && Normalised(["lib"])
    ensures RenderRel([GNU, "lib"]) == "x86_64-zainium-linux-gnu/lib" && RenderRel(["lib"]) == "lib"
  {
    TwoNames(GNU, "lib");
    TwoNames("lib", "");
  }

  /** A program file that names the loader `q`. */
  ghost predicate NamesLoader(t: Tree, s: Path, q: Path) {
    && s in t && t[s].File? && IsElf(t[s].data)
    && Normalised(q) && q != [] && Interp(t[s].data) == Some(Render(q))
  }

  lemma {:induction false} LoaderIsMoved(m: Machine, l: Layout, s: Path, q: Path, ld: Path)
    requires l.Valid() && m.roots == l.Text() && WellFormed(m.tree)
    requires NamesLoader(m.tree, s, q) && !Lives(m.tree, q)
    requires LoaderPath(l, q[|q| - 1]) == Some(ld) && Program(m.tree, ld)
    ensures MovedLoader(m, Render(s), Render(q), Render(ld))
    ensures m.Target(Render(s)) == Some(Render(s)) && Normalised(s) && s != [] && Normalised(ld)
  {
    hide Interp;
    SeesPath(m, s);
    SeesPath(m, q);
    SeesPath(m, ld);
    LoaderText(l, q);
  }

  /** A program on disk whose loader is missing: the system's copy is run, and makes of its
      arguments a start of the program at its own path with exactly the caller's arguments. */
  lemma {:induction false} LoaderOnDisk(
      m: Machine, l: Layout, s: Path, q: Path, ld: Path, argv: seq<string>, envp: seq<string>, depth: nat)
    requires l.Valid() && m.roots == l.Text() && WellFormed(m.tree)
    requires NamesLoader(m.tree, s, q) && !Lives(m.tree, q)
    requires LoaderPath(l, q[|q| - 1]) == Some(ld) && Program(m.tree, ld)
    requires GnuDriver(s[|s| - 1]).None? && s[|s| - 1] != "pkg-config" && s[|s| - 1] != "pkgconf"
    ensures Prepared(m, Render(s), argv, envp).Some?
    ensures var e := Prepared(m, Render(s), argv, envp).value;
            && KernelExec(m.tree, Reaching(m), e.file, e.Argv(argv), depth) == Runs(ld, e.Argv(argv))
            && |e.Argv(argv)| > 0
            && LoaderRuns(LooksUpNames(e.file), e.Argv(argv)[1..], None) == Launch(Render(s), CallerArgv(argv, Render(s)))
  {
    hide *;
    LoaderIsMoved(m, l, s, q, ld);
    ProgramRunsAsItIs(m, ld);
    NoDriver(m, s, argv, envp);
    AbsoluteIsProgramWord(s);
    LoaderStartsTheProgramIff(m, Render(s), argv, envp, depth, Render(q), Render(ld));
  }

  lemma AbsoluteIsProgramWord(s: Path)
    ensures !("--" <= Render(s)) && !Free(Render(s), '/')
  {
    assert Render(s)[0] == '/';
  }

  /** Which classic names `posix_spawnp` loses: a file stands where a directory above the name is
      asked for, and the name has a living candidate. */
  lemma {:induction false} LostIff(m: Machine, l: Layout, p: Path)
    requires l.Valid() && m.roots == l.Text() && WellFormed(m.tree) && Classic(p)
    ensures Lost(m, Render(p)) <==>
            && Blocked(m.tree, p)
            && exists i :: 0 <= i < 4 && Lives(m.tree, CandidatePaths(l, p)[i])
  {
    hide WellFormed, CandidatePaths, Candidates, Namei, LookupText, Blocked;
    FirstLiving(m, l, p);
    SeesPath(m, p);
    LookupIsExact(m.tree, m.cwd, p);
    if Blocked(m.tree, p) {
      BlockedIsMissing(m.tree, p);
    }
    var found := Find(CandidatePaths(l, p), Living(m.tree));
    if i :| 0 <= i < 4 && Lives(m.tree, CandidatePaths(l, p)[i]) {
      assert Living(m.tree)(CandidatePaths(l, p)[i]);
    }
    if found.Some? {
      var i := First(CandidatePaths(l, p), Living(m.tree));
      assert Lives(m.tree, CandidatePaths(l, p)[i]);
    }
  }

  /** A program asked for by a classic name that is missing: the candidate found runs, with exactly
      the caller's arguments. */
  lemma {:induction false} ProgramOnDisk(
      m: Machine, l: Layout, p: Path, c: Path, argv: seq<string>, envp: seq<string>)
    requires l.Valid() && m.roots == l.Text() && WellFormed(m.tree) && Classic(p) && !Lives(m.tree, p)
    requires Find(CandidatePaths(l, p), Living(m.tree)) == Some(c) && Program(m.tree, c)
    requires GnuDriver(c[|c| - 1]).None? && c[|c| - 1] != "pkg-config" && c[|c| - 1] != "pkgconf"
    ensures m.Target(Render(p)) == Some(Render(c)) && !m.Sees(Render(p))
    ensures Attempt(m, argv, envp)(Render(p)) == Runs(c, argv)
  {
    hide *;
    FilesAreNormalised(m.tree, c, c);
    TargetIs(m, l, p, c);
    NoDriver(m, c, argv, envp);
    ProgramPlan(m, Render(p), c, argv, envp);
    ArgvUnchanged(Render(c), None, argv);
    ProgramRunsAsItIs(m, c);
    ReachesItself(m, Render(c));
    RunsDirectly(m, Reaching(m), Render(c), Render(c), argv, DEPTH);
    AttemptIs(m, Render(p), Render(c), argv, envp);
  }

  lemma {:induction false} TargetIs(m: Machine, l: Layout, p: Path, c: Path)
    requires l.Valid() && m.roots == l.Text() && WellFormed(m.tree) && Classic(p) && !Lives(m.tree, p)
    requires Find(CandidatePaths(l, p), Living(m.tree)) == Some(c)
    ensures m.Target(Render(p)) == Some(Render(c)) && !m.Sees(Render(p))
  {
    hide CandidatePaths, Candidates, WellFormed, Lives;
    SeesPath(m, p);
    FirstLiving(m, l, p);
  }

  /** A program that needs no other rewriting is started at its place. */
  lemma {:induction false} ProgramPlan(m: Machine, path: string, c: Path, argv: seq<string>, envp: seq<string>)
    requires WellFormed(m.tree) && Normalised(c) && Program(m.tree, c)
    requires m.Target(path) == Some(Render(c)) && !m.Sees(path) && ToolchainExec(m, Render(c), argv, envp).None?
    ensures Prepared(m, path, argv, envp) == Some(Exec(Render(c), None, None))
  {
    hide Interp, Render, WellFormed;
    SeesPath(m, c);
    ElfIsNoScript(m.tree[c].data);
  }

  lemma AttemptIs(m: Machine, path: string, file: string, argv: seq<string>, envp: seq<string>)
    requires Prepared(m, path, argv, envp) == Some(Exec(file, None, None))
    ensures Attempt(m, argv, envp)(path) == KernelExec(m.tree, Reaching(m), file, argv, DEPTH)
  {
  }

  lemma ProgramLives(t: Tree, p: Path)
    requires Program(t, p)
    ensures Lives(t, p)
  {
  }

  lemma ArgvUnchanged(file: string, envp: Option<CArray>, original: seq<string>)
    ensures Exec(file, None, envp).Argv(original) == original
  {
  }
}
