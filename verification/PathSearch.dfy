/** The search along `$PATH` of `execvpe` and `posix_spawnp` (src/preload.rs; POSIX.1-2017 XBD,
    section 8.3). */
module PathSearch {
  import opened Text
  import opened Paths
  import opened FileTree
  import opened Remap
  import opened Creation
  import opened Elf
  import opened Exec
  import opened Starting

  const DEFAULT_PATH := "/usr/local/bin:/bin:/usr/bin"

  /** An empty directory name is the current directory. */
  function Joined(dir: string, name: string): string {
    if dir == "" then name else dir + "/" + name
  }

  /** The names tried, in order; those that do not fit a path buffer are left out. */
  function NamesIn(dirs: seq<string>, name: string): seq<string> {
    if dirs == [] then []
    else
      var c := Joined(dirs[0], name);
      (if |c| < PATH_MAX then [c] else []) + NamesIn(dirs[1..], name)
  }

  function PathOr(path: Option<string>): string {
    match path case Some(p) => p case None => DEFAULT_PATH
  }

  function NamesOnPath(path: Option<string>, name: string): seq<string> {
    NamesIn(Split(PathOr(path), ':'), name)
  }

  /** A closure with state: what it becomes, and whether it asks to stop. */
  type Visit<!S> = (S, string) -> (S, bool)

  function VisitAll<S>(names: seq<string>, f: Visit<S>, s: S): S {
    if names == [] then s
    else
      var (next, stop) := f(s, names[0]);
      if stop then next else VisitAll(names[1..], f, next)
  }

  /** Each `dir/name` on the path in order, built in one buffer. */
  method ForEachOnPath<S>(path: Option<string>, name: string, f: Visit<S>, start: S) returns (s: S)
    requires Free(name, NUL) && Free(PathOr(path), NUL)
    ensures s == VisitAll(NamesOnPath(path, name), f, start)
  {
    hide Split, NamesIn, VisitAll, Joined, UpToNul;
    s := start;
    var buf := new char[PATH_MAX](_ => NUL);
    var dirs := Split(PathOr(path), ':');
    PiecesAreFree(PathOr(path), ':', NUL);
    for i := 0 to |dirs|
      invariant VisitAll(NamesOnPath(path, name), f, start) == VisitAll(NamesIn(dirs[i..], name), f, s)
    {
      var dir := dirs[i];
      NamesStep(dirs, i, name);
      var sep := if dir == "" then 0 else 1;
      var len := |dir| + sep + |name|;
      if len >= buf.Length {
        continue;
      }
      BuildName(buf, dir, name);
      var (next, stop) := f(s, UpToNul(buf[..]));
      VisitStep(Joined(dir, name), NamesIn(dirs[i + 1..], name), f, s);
      s := next;
      if stop {
        return;
      }
    }
    VisitNone(NamesIn(dirs[|dirs|..], name), f, s, name, dirs);
  }

  lemma NamesStep(dirs: seq<string>, i: nat, name: string)
    requires i < |dirs|
    ensures |Joined(dirs[i], name)| == |dirs[i]| + (if dirs[i] == "" then 0 else 1) + |name|
    ensures NamesIn(dirs[i..], name) ==
            if |Joined(dirs[i], name)| < PATH_MAX then [Joined(dirs[i], name)] + NamesIn(dirs[i + 1..], name)
            else NamesIn(dirs[i + 1..], name)
  {
  }

  lemma VisitStep<S>(c: string, rest: seq<string>, f: Visit<S>, s: S)
    ensures VisitAll([c] + rest, f, s) == if f(s, c).1 then f(s, c).0 else VisitAll(rest, f, f(s, c).0)
  {
  }

  lemma VisitEmpty<S>(names: seq<string>, f: Visit<S>, s: S)
    requires names == []
    ensures VisitAll(names, f, s) == s
  {
  }

  lemma VisitNone<S>(names: seq<string>, f: Visit<S>, s: S, name: string, dirs: seq<string>)
    requires names == NamesIn(dirs[|dirs|..], name)
    ensures VisitAll(names, f, s) == s
  {
  }

  method BuildName(buf: array<char>, dir: string, name: string)
    requires buf.Length == PATH_MAX && |Joined(dir, name)| < PATH_MAX && Free(dir, NUL) && Free(name, NUL)
    modifies buf
    ensures UpToNul(buf[..]) == Joined(dir, name)
  {
    var c := Joined(dir, name);
    for i := 0 to |c|
      invariant forall j :: 0 <= j < i ==> buf[j] == c[j]
    {
      buf[i] := if i < |dir| then dir[i] else if |dir| > 0 && i == |dir| then '/' else name[i - (|c| - |name|)];
    }
    buf[|c|] := NUL;
    assert forall j :: 0 <= j < |c| ==> buf[..][j] == c[j] && c[j] != NUL;
    assert IndexOf(buf[..], NUL) == |c|;
  }

  predicate Passes(e: int) {
    e == EACCES || e == ENOENT || e == ENOTDIR
  }

  datatype Search = Search(errno: int, seenEacces: bool, stop: bool, started: Option<Run>)

  function TryNext(exec: string -> Run): Visit<Search> {
    (s: Search, c: string) =>
      match exec(c)
      case Runs(_, _) => (s.(started := Some(exec(c))), true)
      case Fails(e) => (Search(e, s.seenEacces || e == EACCES, !Passes(e), None), !Passes(e))
  }

  function SearchEnd(s: Search): Run {
    match s.started
    case Some(r) => r
    case None => Fails(if !s.stop && s.seenEacces then EACCES else s.errno)
  }

  /** What a search that tries `exec` on every name comes to; `errno` is what was there before. */
  function Searched(names: seq<string>, exec: string -> Run, errno: int): Run {
    SearchEnd(VisitAll(names, TryNext(exec), Search(errno, false, false, None)))
  }

  method Execvpe(path: Option<string>, file: string, errno: int, exec: string -> Run) returns (r: Run)
    requires Free(file, NUL) && Free(PathOr(path), NUL)
    ensures r == ExecvpeRun(path, file, errno, exec)
    ensures file == "" ==> r == Fails(ENOENT)
    ensures !Free(file, '/') ==> r == exec(file)
    ensures file != "" && Free(file, '/') ==> r == InOrder(NamesOnPath(path, file), exec, errno)
  {
    if file == "" {
      return Fails(ENOENT);
    }
    if IndexOf(file, '/') < |file| {
      return exec(file);
    }
    SearchIsInOrder(NamesOnPath(path, file), exec, errno);
    var s := ForEachOnPath(path, file, TryNext(exec), Search(errno, false, false, None));
    r := SearchEnd(s);
  }

  function ExecvpeRun(path: Option<string>, file: string, errno: int, exec: string -> Run): Run {
    if file == "" then Fails(ENOENT)
    else if IndexOf(file, '/') < |file| then exec(file)
    else Searched(NamesOnPath(path, file), exec, errno)
  }

  /** An attempt that ends the search: it starts something or fails for another reason. */
  function Decides(exec: string -> Run): string -> bool {
    (c: string) => exec(c) !in {Fails(EACCES), Fails(ENOENT), Fails(ENOTDIR)}
  }

  ghost predicate Denied(names: seq<string>, exec: string -> Run) {
    exists i :: 0 <= i < |names| && exec(names[i]) == Fails(EACCES)
  }

  /** The names tried in order up to the first that decides. When none does, the error is EACCES if
      any attempt gave it, else that of the last attempt. */
  ghost function InOrder(names: seq<string>, exec: string -> Run, errno: int): Run {
    var i := First(names, Decides(exec));
    if i < |names| then exec(names[i])
    else if Denied(names, exec) then Fails(EACCES)
    else if names == [] then Fails(errno)
    else exec(names[|names| - 1])
  }

  /** Remembering EACCES along the way comes to just that. */
  lemma {:induction false} SearchIsInOrder(names: seq<string>, exec: string -> Run, errno: int)
    ensures Searched(names, exec, errno) == InOrder(names, exec, errno)
  {
    SearchFrom(names, exec, Search(errno, false, false, None));
  }

  /** The same without `Decides`: what each of the ways to end comes to. */
  lemma {:induction false} SearchEnds(names: seq<string>, exec: string -> Run, errno: int, k: nat)
    requires k <= |names|
    requires forall j :: 0 <= j < k ==> exec(names[j]) in {Fails(EACCES), Fails(ENOENT), Fails(ENOTDIR)}
    ensures k < |names| && exec(names[k]) !in {Fails(EACCES), Fails(ENOENT), Fails(ENOTDIR)} ==>
              Searched(names, exec, errno) == exec(names[k])
    ensures k == |names| && Denied(names, exec) ==> Searched(names, exec, errno) == Fails(EACCES)
    ensures k == |names| > 0 && !Denied(names, exec) ==> Searched(names, exec, errno) == exec(names[k - 1])
    ensures names == [] ==> Searched(names, exec, errno) == Fails(errno)
  {
    hide Searched;
    SearchIsInOrder(names, exec, errno);
    if k == |names| || exec(names[k]) !in {Fails(EACCES), Fails(ENOENT), Fails(ENOTDIR)} {
      FirstIs(names, Decides(exec), k);
    }
  }

  lemma {:induction false} SearchFrom(names: seq<string>, exec: string -> Run, s: Search)
    requires !s.stop && s.started.None?
    ensures var i := First(names, Decides(exec));
            SearchEnd(VisitAll(names, TryNext(exec), s)) ==
            if i < |names| then exec(names[i])
            else if s.seenEacces || Denied(names, exec) then Fails(EACCES)
            else if names == [] then Fails(s.errno)
            else exec(names[|names| - 1])
    decreases |names|
  {
    if names != [] && !Decides(exec)(names[0]) {
      var e := exec(names[0]).errno;
      var next := Search(e, s.seenEacces || e == EACCES, false, None);
      SearchFrom(names[1..], exec, next);
      assert First(names, Decides(exec)) == 1 + First(names[1..], Decides(exec));
      if Denied(names, exec) && e != EACCES {
        var j :| 0 <= j < |names| && exec(names[j]) == Fails(EACCES);
        assert names[1..][j - 1] == names[j];
      }
      if Denied(names[1..], exec) {
        var j :| 0 <= j < |names[1..]| && exec(names[1..][j]) == Fails(EACCES);
        assert names[j + 1] == names[1..][j];
      }
    }
  }

  // posix_spawnp: look first, then start.

  const DEPTH: nat := 5

  /** One exec hook call: the plan if there is one, else the file as asked for. */
  function Attempt(m: Machine, argv: seq<string>, envp: seq<string>): string -> Run {
    (c: string) =>
      match Prepared(m, c, argv, envp)
      case Some(e) => KernelExec(m.tree, Reaching(m), e.file, e.Argv(argv), DEPTH)
      case None => KernelExec(m.tree, Reaching(m), c, argv, DEPTH)
  }

  function Direct(m: Machine, argv: seq<string>): string -> Run {
    (c: string) => KernelExec(m.tree, Reaching(m), c, argv, DEPTH)
  }

  /** The errno of `access(c, X_OK)`, 0 when it succeeds; `x` is the execute permission. */
  function AccessErrno(m: Machine, c: string, x: string -> bool): int {
    if m.Sees(c) then if x(c) then 0 else EACCES
    else
      match LookupText(m.tree, m.cwd, c)
      case Missing(e) => e
      case At(_) => ENOENT
  }

  function Look(m: Machine, argv: seq<string>, envp: seq<string>, x: string -> bool): Visit<Option<Exec>> {
    (fixed: Option<Exec>, c: string) =>
      var e := AccessErrno(m, c, x);
      if e == 0 then (Prepared(m, c, argv, envp), true)
      else if e == ENOENT then (Prepared(m, c, argv, envp), Prepared(m, c, argv, envp).Some?)
      else (fixed, fixed.Some?)
  }

  /** The real `posix_spawnp` knows the kernel only. */
  function RealSpawnp(m: Machine, names: seq<string>, argv: seq<string>): Run {
    Searched(names, Direct(m, argv), ENOENT)
  }

  function SpawnedFrom(m: Machine, names: seq<string>, argv: seq<string>, envp: seq<string>, x: string -> bool): Run {
    match VisitAll(names, Look(m, argv, envp, x), None)
    case Some(e) => KernelExec(m.tree, Reaching(m), e.file, e.Argv(argv), DEPTH)
    case None => RealSpawnp(m, names, argv)
  }

  function PosixSpawnpRun(m: Machine, path: Option<string>, file: string, argv: seq<string>, envp: seq<string>,
                          x: string -> bool): Run {
    if IndexOf(file, '/') < |file| then Attempt(m, argv, envp)(file)
    else SpawnedFrom(m, NamesOnPath(path, file), argv, envp, x)
  }

  method PosixSpawnp(m: Machine, path: Option<string>, file: string, argv: seq<string>, envp: seq<string>,
                     x: string -> bool) returns (r: Run)
    requires Free(file, NUL) && Free(PathOr(path), NUL)
    ensures r == PosixSpawnpRun(m, path, file, argv, envp, x)
    ensures !Free(file, '/') ==> r == Attempt(m, argv, envp)(file)
    ensures Free(file, '/') && AllRun(m, NamesOnPath(path, file), argv, envp, x) ==>
              r == FirstSought(m, NamesOnPath(path, file), argv, envp)
  {
    if IndexOf(file, '/') < |file| {
      return Attempt(m, argv, envp)(file);
    }
    hide AllRun, Prepared, KernelExec, NamesOnPath, FirstSought;
    ghost var names := NamesOnPath(path, file);
    if AllRun(m, names, argv, envp, x) {
      SpawnsFirstSought(m, names, argv, envp, x);
    }
    var fixed := ForEachOnPath(path, file, Look(m, argv, envp, x), None);
    match fixed {
      case Some(e) => r := KernelExec(m.tree, Reaching(m), e.file, e.Argv(argv), DEPTH);
      case None => r := RealSpawnp(m, NamesOnPath(path, file), argv);
    }
  }

  /** A name whose own lookup fails for another reason than ENOENT, though it has a candidate. */
  predicate Lost(m: Machine, c: string) {
    !m.Sees(c) && LookupText(m.tree, m.cwd, c) == Missing(ENOTDIR) && m.FirstCandidate(c).Some?
  }

  /** Every file a search comes across is executable and runs. */
  ghost predicate AllRun(m: Machine, names: seq<string>, argv: seq<string>, envp: seq<string>, x: string -> bool) {
    forall i :: 0 <= i < |names| && m.Target(names[i]).Some? ==>
                  (m.Sees(names[i]) ==> x(names[i])) && Attempt(m, argv, envp)(names[i]).Runs?
  }

  lemma {:induction false} LookupErrors(m: Machine, c: string)
    ensures LookupText(m.tree, m.cwd, c).Missing? ==> LookupText(m.tree, m.cwd, c).errno in {ENOENT, ENOTDIR}
  {
    NameiErrors(m.tree, if IsAbsolute(c) then [] else m.cwd, Steps(c));
  }

  /** What one name means to both searches. */
  lemma {:induction false} OneName(m: Machine, c: string, argv: seq<string>, envp: seq<string>, x: string -> bool)
    requires m.Sees(c) ==> x(c)
    ensures m.Target(c).None? ==>
              && Attempt(m, argv, envp)(c) == Fails(ENOENT) && Prepared(m, c, argv, envp).None?
              && AccessErrno(m, c, x) in {ENOENT, ENOTDIR}
    ensures m.Target(c).Some? && !m.Sees(c) ==>
              && Prepared(m, c, argv, envp).Some? && Direct(m, argv)(c) == Fails(ENOENT)
              && (AccessErrno(m, c, x) == ENOENT <==> !Lost(m, c)) && AccessErrno(m, c, x) in {ENOENT, ENOTDIR}
    ensures m.Sees(c) ==> AccessErrno(m, c, x) == 0
    ensures !m.Sees(c) ==> Direct(m, argv)(c) == Fails(ENOENT)
    ensures Prepared(m, c, argv, envp).None? ==> Attempt(m, argv, envp)(c) == Direct(m, argv)(c)
  {
    LookupErrors(m, c);
  }

  /** A name that can be started, and one that both searches see can be. */
  function HasTarget(m: Machine): string -> bool {
    (c: string) => m.Target(c).Some?
  }

  function Sought(m: Machine): string -> bool {
    (c: string) => m.Target(c).Some? && !Lost(m, c)
  }

  /** A name looking stops at: a file that may be executed, or a missing name with a candidate, unless
      a file stands above it. */
  function Taken(m: Machine, x: string -> bool): string -> bool {
    (c: string) =>
      if m.Sees(c) then x(c) else LookupText(m.tree, m.cwd, c) != Missing(ENOTDIR) && m.FirstCandidate(c).Some?
  }

  lemma {:induction false} LookAt(m: Machine, c: string, argv: seq<string>, envp: seq<string>, x: string -> bool)
    ensures Look(m, argv, envp, x)(None, c) ==
            if Taken(m, x)(c) then (Prepared(m, c, argv, envp), true) else (None, false)
  {
    hide ToolchainExec, LoaderPlan, ScriptPlan, Candidates, LookupText, ExistsFrom;
    LookupErrors(m, c);
  }

  lemma {:induction false} LookFinds(m: Machine, names: seq<string>, argv: seq<string>, envp: seq<string>,
                                     x: string -> bool)
    ensures var i := First(names, Taken(m, x));
            VisitAll(names, Look(m, argv, envp, x), None) ==
            if i < |names| then Prepared(m, names[i], argv, envp) else None
    decreases |names|
  {
    hide *;
    if names == [] {
      VisitEmpty(names, Look(m, argv, envp, x), None);
    } else {
      LookAt(m, names[0], argv, envp, x);
      VisitStep(names[0], names[1..], Look(m, argv, envp, x), None);
      assert names == [names[0]] + names[1..];
      if Taken(m, x)(names[0]) {
        FirstIs(names, Taken(m, x), 0);
      } else {
        LookFinds(m, names[1..], argv, envp, x);
        FirstIs(names, Taken(m, x), 1 + First(names[1..], Taken(m, x)));
      }
    }
  }

  /** `posix_spawnp` of a bare name, whatever may be executed: the plan for the first name taken, and
      when there is none, or no such name, the kernel's own search in order. */
  lemma {:induction false} SpawnedIsExact(m: Machine, names: seq<string>, argv: seq<string>, envp: seq<string>,
                                          x: string -> bool)
    ensures var i := First(names, Taken(m, x));
            var plan := if i < |names| then Prepared(m, names[i], argv, envp) else None;
            SpawnedFrom(m, names, argv, envp, x) ==
            match plan
            case Some(e) => KernelExec(m.tree, Reaching(m), e.file, e.Argv(argv), DEPTH)
            case None => InOrder(names, Direct(m, argv), ENOENT)
  {
    hide Prepared, KernelExec, Taken, InOrder, Searched;
    LookFinds(m, names, argv, envp, x);
    SearchIsInOrder(names, Direct(m, argv), ENOENT);
  }

  lemma {:induction false} TakenIsSought(m: Machine, names: seq<string>, x: string -> bool)
    requires forall j :: 0 <= j < |names| ==> (m.Sees(names[j]) ==> x(names[j]))
    ensures First(names, Taken(m, x)) == First(names, Sought(m))
  {
    hide Candidates, LookupText, ExistsFrom;
    var i := First(names, Sought(m));
    forall j | 0 <= j < |names| ensures Taken(m, x)(names[j]) == Sought(m)(names[j]) {
    }
    FirstIs(names, Taken(m, x), i);
  }

  /** The kernel's own search reaches the same name when that needs no plan. */
  lemma {:induction false} RealFinds(m: Machine, names: seq<string>, argv: seq<string>, i: nat)
    requires i <= |names|
    requires forall j :: 0 <= j < i ==> Direct(m, argv)(names[j]) == Fails(ENOENT)
    requires i < |names| ==> Direct(m, argv)(names[i]).Runs?
    ensures i < |names| ==> RealSpawnp(m, names, argv) == Direct(m, argv)(names[i])
    ensures i == |names| ==> RealSpawnp(m, names, argv) == Fails(ENOENT)
  {
    SearchIsInOrder(names, Direct(m, argv), ENOENT);
    hide Prepared, KernelExec;
    forall j | 0 <= j < i ensures !Decides(Direct(m, argv))(names[j]) {
      assert Direct(m, argv)(names[j]) == Fails(ENOENT);
    }
    FirstIs(names, Decides(Direct(m, argv)), i);
  }

  ghost predicate Agree(ran: Run, spawned: Run) {
    (ran.Runs? <==> spawned.Runs?) && (ran.Runs? ==> ran == spawned)
  }

  /** What the first name that can be started and is not lost comes to. */
  function FirstSought(m: Machine, names: seq<string>, argv: seq<string>, envp: seq<string>): Run {
    var i := First(names, Sought(m));
    if i < |names| then Attempt(m, argv, envp)(names[i]) else Fails(ENOENT)
  }

  /** `posix_spawnp` comes to just that. */
  lemma {:induction false} SpawnsFirstSought(m: Machine, names: seq<string>, argv: seq<string>, envp: seq<string>,
                                             x: string -> bool)
    requires AllRun(m, names, argv, envp, x)
    ensures SpawnedFrom(m, names, argv, envp, x) == FirstSought(m, names, argv, envp)
  {
    var i := First(names, Sought(m));
    forall j | 0 <= j < |names| ensures m.Sees(names[j]) ==> x(names[j]) {
      assert m.Sees(names[j]) ==> m.Target(names[j]).Some?;
    }
    LookFinds(m, names, argv, envp, x);
    TakenIsSought(m, names, x);
    forall j | 0 <= j < |names|
      ensures j < i ==> Direct(m, argv)(names[j]) == Fails(ENOENT)
      ensures Prepared(m, names[j], argv, envp).None? ==> Attempt(m, argv, envp)(names[j]) == Direct(m, argv)(names[j])
    {
      OneName(m, names[j], argv, envp, x);
      assert j < i ==> !Sought(m)(names[j]);
    }
    hide Prepared, KernelExec, Direct;
    if i == |names| || Prepared(m, names[i], argv, envp).None? {
      RealFinds(m, names, argv, i);
    }
  }

  /** `execvpe` starts the first name that can be started. */
  lemma {:induction false} RunsFirstTarget(m: Machine, names: seq<string>, argv: seq<string>, envp: seq<string>,
                                           x: string -> bool, errno: int)
    requires AllRun(m, names, argv, envp, x)
    ensures var i := First(names, HasTarget(m));
            if i < |names| then
              Searched(names, Attempt(m, argv, envp), errno) == Attempt(m, argv, envp)(names[i]) && Attempt(m, argv, envp)(names[i]).Runs?
            else !Searched(names, Attempt(m, argv, envp), errno).Runs?
  {
    hide KernelExec, Prepared, Searched;
    var i := Startable(m, names, argv, envp, x);
    FirstIs(names, HasTarget(m), i);
    SearchIsInOrder(names, Attempt(m, argv, envp), errno);
  }

  /** Along one given path the two start the same file with the same arguments, or neither anything,
      exactly when there is nothing to start, or what `posix_spawnp` takes, the first startable name
      that is not lost, starts the same as the first startable name. */
  lemma {:induction false} SameStartIff(m: Machine, names: seq<string>, argv: seq<string>, envp: seq<string>,
                                        x: string -> bool, errno: int)
    requires AllRun(m, names, argv, envp, x)
    ensures var i, j := First(names, HasTarget(m)), First(names, Sought(m));
            Agree(Searched(names, Attempt(m, argv, envp), errno), SpawnedFrom(m, names, argv, envp, x)) <==>
            i == |names| || (j < |names| && Attempt(m, argv, envp)(names[i]) == Attempt(m, argv, envp)(names[j]))
  {
    var i, j := First(names, HasTarget(m)), First(names, Sought(m));
    hide Attempt, Searched, SpawnedFrom, AllRun;
    RunsFirstTarget(m, names, argv, envp, x, errno);
    SpawnsFirstSought(m, names, argv, envp, x);
    assert j < |names| ==> HasTarget(m)(names[j]);
  }

  ghost predicate HooksAgree(m: Machine, path: Option<string>, file: string, argv: seq<string>, envp: seq<string>,
                             x: string -> bool, errno: int) {
    Agree(ExecvpeRun(path, file, errno, Attempt(m, argv, envp)), PosixSpawnpRun(m, path, file, argv, envp, x))
  }

  /** The two hooks themselves, for every `PATH`, set or not, and every program name: with a slash
      they always agree, without one exactly when the searches do. */
  lemma {:induction false} HooksAgreeIff(m: Machine, path: Option<string>, file: string, argv: seq<string>,
                                         envp: seq<string>, x: string -> bool, errno: int)
    requires file != "" && (Free(file, '/') ==> AllRun(m, NamesOnPath(path, file), argv, envp, x))
    ensures var names := NamesOnPath(path, file);
            var i, j := First(names, HasTarget(m)), First(names, Sought(m));
            HooksAgree(m, path, file, argv, envp, x, errno) <==>
            !Free(file, '/') || i == |names|
            || (j < |names| && Attempt(m, argv, envp)(names[i]) == Attempt(m, argv, envp)(names[j]))
  {
    hide Attempt, Searched, SpawnedFrom, AllRun, NamesOnPath;
    if Free(file, '/') {
      SameStartIff(m, NamesOnPath(path, file), argv, envp, x, errno);
    }
  }

  /** So no lost name, no difference. */
  lemma {:induction false} SameStart(m: Machine, path: Option<string>, file: string, argv: seq<string>,
                                     envp: seq<string>, x: string -> bool, errno: int)
    requires file != "" && (Free(file, '/') ==> AllRun(m, NamesOnPath(path, file), argv, envp, x))
    requires forall i :: 0 <= i < |NamesOnPath(path, file)| ==> !Lost(m, NamesOnPath(path, file)[i])
    ensures HooksAgree(m, path, file, argv, envp, x, errno)
  {
    hide Attempt, AllRun, NamesOnPath, Lost, HooksAgree;
    HooksAgreeIff(m, path, file, argv, envp, x, errno);
    var names := NamesOnPath(path, file);
    var i := First(names, HasTarget(m));
    assert forall k :: 0 <= k < i ==> !HasTarget(m)(names[k]);
    FirstIs(names, Sought(m), i);
  }

  /** The first name that can be started is the first attempt that decides. */
  lemma {:induction false} Startable(m: Machine, names: seq<string>, argv: seq<string>, envp: seq<string>,
                                     x: string -> bool) returns (i: nat)
    requires AllRun(m, names, argv, envp, x)
    ensures i == First(names, Decides(Attempt(m, argv, envp)))
    ensures forall j :: 0 <= j < i ==> m.Target(names[j]).None?
    ensures i < |names| ==> m.Target(names[i]).Some? && Attempt(m, argv, envp)(names[i]).Runs?
    ensures i == |names| ==> forall j :: 0 <= j < |names| ==> Attempt(m, argv, envp)(names[j]) == Fails(ENOENT)
  {
    i := First(names, Decides(Attempt(m, argv, envp)));
    forall j | 0 <= j < |names|
      ensures Decides(Attempt(m, argv, envp))(names[j]) <==> m.Target(names[j]).Some?
      ensures m.Target(names[j]).None? ==> Attempt(m, argv, envp)(names[j]) == Fails(ENOENT)
    {
      OneName(m, names[j], argv, envp, x);
    }
  }

  /** A single lost name tells the two apart: `execvpe` starts its candidate, `posix_spawnp` finds nothing. */
  lemma {:induction false} LostDiffers(m: Machine, c: string, argv: seq<string>, envp: seq<string>,
                                       x: string -> bool, errno: int)
    requires AllRun(m, [c], argv, envp, x) && Lost(m, c)
    ensures Searched([c], Attempt(m, argv, envp), errno).Runs?
    ensures !SpawnedFrom(m, [c], argv, envp, x).Runs?
  {
    hide Attempt, Searched, SpawnedFrom, AllRun;
    assert [c][0] == c && m.Target(c).Some?;
    FirstIs([c], HasTarget(m), 0);
    FirstIs([c], Sought(m), 1);
    RunsFirstTarget(m, [c], argv, envp, x, errno);
    SpawnsFirstSought(m, [c], argv, envp, x);
  }

  lemma {:induction false} NamesComeFromDirs(dirs: seq<string>, name: string, i: nat) returns (j: nat)
    requires i < |NamesIn(dirs, name)|
    ensures j < |dirs| && NamesIn(dirs, name)[i] == Joined(dirs[j], name) && |Joined(dirs[j], name)| < PATH_MAX
  {
    if |Joined(dirs[0], name)| < PATH_MAX {
      if i == 0 {
        j := 0;
        return;
      }
      j := NamesComeFromDirs(dirs[1..], name, i - 1);
    } else {
      j := NamesComeFromDirs(dirs[1..], name, i);
    }
    j := j + 1;
  }

  /** The names a `PATH` gives: each directory, in order, adds itself, a slash and the name, or for an
      empty directory the name alone, unless that is 4096 bytes or more. */
  lemma {:induction false} LastDirAdds(dirs: seq<string>, dir: string, name: string)
    ensures NamesIn(dirs + [dir], name) ==
            NamesIn(dirs, name) +
            if dir == "" then if |name| < 4096 then [name] else []
            else if |dir + "/" + name| < 4096 then [dir + "/" + name] else []
  {
    hide NamesIn;
    OneDir(dir, name);
    NamesConcat(dirs, [dir], name);
  }

  lemma OneDir(dir: string, name: string)
    ensures NamesIn([dir], name) ==
            if dir == "" then if |name| < 4096 then [name] else []
            else if |dir + "/" + name| < 4096 then [dir + "/" + name] else []
  {
    assert [dir][1..] == [];
    NoDirs(name);
  }

  lemma {:induction false} NamesConcat(a: seq<string>, b: seq<string>, name: string)
    ensures NamesIn(a + b, name) == NamesIn(a, name) + NamesIn(b, name)
    decreases |a|
  {
    hide *;
    if a == [] {
      assert a + b == b;
      NoDirs(name);
    } else {
      NamesCons(a[0], a[1..], name);
      NamesCons(a[0], a[1..] + b, name);
      assert a == [a[0]] + a[1..] && a + b == [a[0]] + (a[1..] + b);
      NamesConcat(a[1..], b, name);
    }
  }

  lemma NamesCons(dir: string, dirs: seq<string>, name: string)
    ensures NamesIn([dir] + dirs, name) == NamesIn([dir], name) + NamesIn(dirs, name)
  {
    hide Joined;
    assert ([dir] + dirs)[1..] == dirs && [dir][1..] == [];
  }

  /** The directories searched when `PATH` is not set. */
  lemma {:induction false} UnsetPath(name: string)
    requires |name| < 4081
    ensures NamesOnPath(None, name) == ["/usr/local/bin/" + name, "/bin/" + name, "/usr/bin/" + name]
  {
    hide Split, NamesIn;
    SplitFirst("/usr/local/bin", ':', "/bin:/usr/bin");
    SplitFirst("/bin", ':', "/usr/bin");
    SplitNone("/usr/bin");
    assert DEFAULT_PATH == "/usr/local/bin" + [':'] + "/bin:/usr/bin" && "/bin:/usr/bin" == "/bin" + [':'] + "/usr/bin";
    var dirs := ["/usr/local/bin", "/bin", "/usr/bin"];
    assert Split(DEFAULT_PATH, ':') == dirs;
    NoDirs(name);
    LastDirAdds([], "/usr/local/bin", name);
    LastDirAdds(["/usr/local/bin"], "/bin", name);
    LastDirAdds(["/usr/local/bin", "/bin"], "/usr/bin", name);
    assert [] + ["/usr/local/bin"] == ["/usr/local/bin"];
    assert ["/usr/local/bin"] + ["/bin"] == ["/usr/local/bin", "/bin"] && ["/usr/local/bin", "/bin"] + ["/usr/bin"] == dirs;
    assert "/usr/local/bin" + "/" == "/usr/local/bin/" && "/bin" + "/" == "/bin/" && "/usr/bin" + "/" == "/usr/bin/";
  }

  lemma SplitNone(s: string)
    requires Free(s, ':')
    ensures Split(s, ':') == [s]
  {
  }

  lemma NoDirs(name: string)
    ensures NamesIn([], name) == []
  {
  }

  lemma {:induction false} SingleDir(dir: string, name: string)
    requires Free(dir, ':') && |Joined(dir, name)| < PATH_MAX
    ensures NamesOnPath(Some(dir), name) == [Joined(dir, name)]
  {
    assert IndexOf(dir, ':') == |dir|;
    assert Split(dir, ':') == [dir];
    assert [dir][1..] == [];
    assert NamesIn([dir], name) == [Joined(dir, name)] + NamesIn([], name);
  }

  /** The two hooks agree on a bare name along every `PATH` exactly when no name a `PATH` can
      produce is lost. */
  lemma {:induction false} AgreeEverywhereIff(m: Machine, file: string, argv: seq<string>, envp: seq<string>,
                                              x: string -> bool, errno: int)
    requires file != "" && Free(file, '/')
    requires forall path :: AllRun(m, NamesOnPath(path, file), argv, envp, x)
    ensures (forall path :: HooksAgree(m, path, file, argv, envp, x, errno)) <==>
            (forall path, i :: 0 <= i < |NamesOnPath(path, file)| ==> !Lost(m, NamesOnPath(path, file)[i]))
  {
    hide HooksAgree, Lost, NamesOnPath, AllRun;
    if forall path, i :: 0 <= i < |NamesOnPath(path, file)| ==> !Lost(m, NamesOnPath(path, file)[i]) {
      forall path ensures HooksAgree(m, path, file, argv, envp, x, errno) {
        SameStart(m, path, file, argv, envp, x, errno);
      }
    }
    forall path, i | 0 <= i < |NamesOnPath(path, file)| && Lost(m, NamesOnPath(path, file)[i])
      ensures exists other :: !HooksAgree(m, other, file, argv, envp, x, errno)
    {
      var dir := DirOf(path, file, i);
      assert AllRun(m, NamesOnPath(Some(dir), file), argv, envp, x);
      LostTellsApart(m, dir, file, argv, envp, x, errno);
    }
  }

  lemma {:induction false} LostTellsApart(m: Machine, dir: string, file: string, argv: seq<string>, envp: seq<string>,
                                          x: string -> bool, errno: int)
    requires file != "" && Free(file, '/') && NamesOnPath(Some(dir), file) == [Joined(dir, file)]
    requires AllRun(m, [Joined(dir, file)], argv, envp, x) && Lost(m, Joined(dir, file))
    ensures !HooksAgree(m, Some(dir), file, argv, envp, x, errno)
  {
    hide Searched, SpawnedFrom, Lost, NamesOnPath, Attempt, AllRun;
    LostDiffers(m, Joined(dir, file), argv, envp, x, errno);
  }

  lemma {:induction false} DirOf(path: Option<string>, name: string, i: nat) returns (dir: string)
    requires i < |NamesOnPath(path, name)|
    ensures NamesOnPath(Some(dir), name) == [Joined(dir, name)]
    ensures Joined(dir, name) == NamesOnPath(path, name)[i]
  {
    var dirs := Split(PathOr(path), ':');
    var j := NamesComeFromDirs(dirs, name, i);
    SplitPieces(PathOr(path), ':');
    dir := dirs[j];
    SingleDir(dir, name);
  }

  /** With no in-scope name at the root no absolute name is ever lost. */
  lemma {:induction false} BareRootLosesNothing(m: Machine, c: string)
    requires WellFormed(m.tree) && RootIsBare(m.tree) && IsAbsolute(c)
    ensures !Lost(m, c)
  {
    if m.FirstCandidate(c).Some? {
      var steps := Steps(c);
      assert InScope(c);
      assert Components(c)[1] == steps[0];
      var top := Next([], steps[0]);
      assert top == [steps[0].name];
      assert top !in m.tree;
      assert Namei(m.tree, [], steps) == Namei(m.tree, top, steps[1..]);
    }
  }
}
