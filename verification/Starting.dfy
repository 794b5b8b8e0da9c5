/** What the kernel and a loader start, and that the plans of `prepare_exec` start the same. */
module Starting {
  import opened Text
  import opened Paths
  import opened FileTree
  import opened Remap
  import opened Shebang
  import opened Elf
  import opened Toolchain
  import opened Exec

  /** The file an image comes from and the arguments it sees. */
  datatype Run = Runs(image: Path, argv: seq<string>) | Fails(errno: int)

  /** Which file a name reaches. */
  type Reach = string -> Option<Path>

  const ELOOP := 40

  function ArgOf(arg: Option<string>): seq<string> {
    match arg case Some(a) => [a] case None => []
  }

  /** `execve(2)`: a `#!` line runs its interpreter on the script, to a limited depth; a program
      runs when the loader it names, if any, can be reached. */
  function KernelExec(t: Tree, reach: Reach, file: string, argv: seq<string>, depth: nat): Run
    decreases depth
  {
    match reach(file)
    case None => Fails(ENOENT)
    case Some(p) =>
      if p !in t || !t[p].File? then Fails(EACCES)
      else
        var data := t[p].data;
        if "#!" <= HeadOf(data) then
          if depth == 0 then Fails(ELOOP)
          else
            match KernelSplit(LineOf(HeadOf(data)))
            case None => Fails(ENOEXEC)
            case Some((interp, arg)) =>
              KernelExec(t, reach, interp, [interp] + ArgOf(arg) + [file] + Tail(argv), depth - 1)
        else if !IsElf(data) then Fails(ENOEXEC)
        else
          match Interp(data)
          case Some(loader) => if reach(loader).Some? then Runs(p, argv) else Fails(ENOENT)
          case None => Runs(p, argv)
  }

  function Reaching(m: Machine): Reach {
    (text: string) => m.Reaches(text)
  }

  /** The same names, with `name` another name of what `real_` reaches. */
  function Aliased(m: Machine, name: string, real_: string): Reach {
    (text: string) => if text == name then m.Reaches(real_) else m.Reaches(text)
  }

  /** A program that is no script and whose loader, if any, is where it says. */
  ghost predicate RunsAsItIs(m: Machine, file: string) {
    match m.Reaches(file)
    case None => false
    case Some(p) =>
      && p in m.tree && m.tree[p].File? && IsElf(m.tree[p].data)
      && (Interp(m.tree[p].data).Some? ==> m.Sees(Interp(m.tree[p].data).value))
  }

  lemma {:induction false} ElfIsNoScript(data: string)
    requires IsElf(data)
    ensures !("#!" <= HeadOf(data))
  {
    assert HeadOf(data)[0] == data[0] == '\U{7f}';
  }

  lemma {:induction false} RunsDirectly(m: Machine, reach: Reach, file: string, target: string, argv: seq<string>, depth: nat)
    requires RunsAsItIs(m, target) && reach(file) == m.Reaches(target)
    requires forall text :: m.Reaches(text).Some? ==> reach(text).Some?
    ensures KernelExec(m.tree, reach, file, argv, depth) == Runs(m.Reaches(target).value, argv)
  {
    ElfIsNoScript(m.tree[m.Reaches(target).value].data);
  }

  /** A script the plan is for: its line ends within the head, is split alike by the library and the
      kernel, and names an interpreter that is missing but has a candidate. */
  ghost predicate MovedScript(m: Machine, target: string, interp: string, arg: Option<string>, real_: string) {
    && m.Read(target).Some?
    && var head := HeadOf(m.Read(target).value);
       && "#!" <= head && !Free(head[2..], '\n')
       && KernelSplit(LineOf(head)) == Some((interp, arg)) && SplitsAlike(LineOf(head))
       && !m.Sees(interp) && m.FirstCandidate(interp) == Some(real_)
  }

  lemma {:induction false} ScriptPlanned(m: Machine, target: string, argv: seq<string>,
                                         interp: string, arg: Option<string>, real_: string)
    requires MovedScript(m, target, interp, arg, real_)
    ensures var data := m.Read(target).value;
            && LoaderPlan(m, target, data, argv) == None
            && ScriptPlan(m, target, data, argv)
            == Some(Exec(real_, Some(Terminated([real_] + ArgOf(arg) + [target] + Tail(argv))), None))
  {
    hide SplitLine, LineOf, Interp, KernelSplit, SplitsAlike, UpToNul;
    var data := m.Read(target).value;
    SplitsAsKernelIff(LineOf(HeadOf(data)));
    if IsElf(data) {
      ElfIsNoScript(data);
    }
  }

  /** The plan for a script starts the interpreter's file with the arguments the kernel's own rule
      gives it on a machine where the missing name is another name of that file; only the name the
      interpreter is called by differs. */
  lemma {:induction false} ScriptStartsTheSame(
      m: Machine, path: string, argv: seq<string>, envp: seq<string>, depth: nat,
      interp: string, arg: Option<string>, real_: string)
    requires m.Target(path).Some?
    requires MovedScript(m, m.Target(path).value, interp, arg, real_) && RunsAsItIs(m, real_)
    requires ToolchainExec(m, m.Target(path).value, argv, envp).None?
    ensures var target := m.Target(path).value;
            var image := m.Reaches(real_).value;
            var given := ArgOf(arg) + [target] + Tail(argv);
            && Prepared(m, path, argv, envp).Some?
            && var e := Prepared(m, path, argv, envp).value;
               && KernelExec(m.tree, Reaching(m), e.file, e.Argv(argv), depth) == Runs(image, [real_] + given)
               && KernelExec(m.tree, Aliased(m, interp, real_), target, argv, depth + 1)
                  == Runs(image, [interp] + given)
  {
    PlanStarts(m, path, argv, envp, depth, interp, arg, real_);
    KernelStarts(m, m.Target(path).value, argv, depth, interp, arg, real_);
  }

  lemma {:induction false} PlanStarts(
      m: Machine, path: string, argv: seq<string>, envp: seq<string>, depth: nat,
      interp: string, arg: Option<string>, real_: string)
    requires m.Target(path).Some?
    requires MovedScript(m, m.Target(path).value, interp, arg, real_) && RunsAsItIs(m, real_)
    requires ToolchainExec(m, m.Target(path).value, argv, envp).None?
    ensures Prepared(m, path, argv, envp).Some?
    ensures var e := Prepared(m, path, argv, envp).value;
            (KernelExec(m.tree, Reaching(m), e.file, e.Argv(argv), depth)
             == Runs(m.Reaches(real_).value, [real_] + (ArgOf(arg) + [m.Target(path).value] + Tail(argv))))
  {
    hide *;
    var target := m.Target(path).value;
    var given := ArgOf(arg) + [target] + Tail(argv);
    ScriptIsRead(m, target, interp, arg, real_);
    ScriptPlanned(m, target, argv, interp, arg, real_);
    PreparedIsScriptPlan(m, path, argv, envp);
    assert [real_] + ArgOf(arg) + [target] + Tail(argv) == [real_] + given;
    ArgvOfPlan(real_, [real_] + given, argv);
    ReachesItself(m, real_);
    RunsDirectly(m, Reaching(m), real_, real_, [real_] + given, depth);
  }

  lemma ScriptIsRead(m: Machine, target: string, interp: string, arg: Option<string>, real_: string)
    requires MovedScript(m, target, interp, arg, real_)
    ensures m.Read(target).Some?
  {
  }

  lemma ArgvOfPlan(file: string, words: seq<string>, original: seq<string>)
    ensures Exec(file, Some(Terminated(words)), None).Argv(original) == words
  {
  }

  lemma {:induction false} AliasReaches(m: Machine, name: string, real_: string)
    requires RunsAsItIs(m, real_)
    ensures Aliased(m, name, real_)(name) == m.Reaches(real_) && m.Reaches(real_).Some?
    ensures forall text :: m.Reaches(text).Some? ==> Aliased(m, name, real_)(text).Some?
  {
  }

  lemma {:induction false} KernelStarts(m: Machine, target: string, argv: seq<string>, depth: nat,
                                        interp: string, arg: Option<string>, real_: string)
    requires MovedScript(m, target, interp, arg, real_) && RunsAsItIs(m, real_) && m.Sees(target)
    ensures KernelExec(m.tree, Aliased(m, interp, real_), target, argv, depth + 1)
         == Runs(m.Reaches(real_).value, [interp] + (ArgOf(arg) + [target] + Tail(argv)))
  {
    hide *;
    var given := ArgOf(arg) + [target] + Tail(argv);
    AliasReaches(m, interp, real_);
    KernelReadsTheLine(m, target, argv, depth, interp, arg, real_);
    assert [interp] + ArgOf(arg) + [target] + Tail(argv) == [interp] + given;
    RunsDirectly(m, Aliased(m, interp, real_), interp, real_, [interp] + given, depth);
  }

  lemma {:induction false} PreparedIsScriptPlan(m: Machine, path: string, argv: seq<string>, envp: seq<string>)
    requires m.Target(path).Some? && m.Read(m.Target(path).value).Some?
    requires ToolchainExec(m, m.Target(path).value, argv, envp).None?
    requires LoaderPlan(m, m.Target(path).value, m.Read(m.Target(path).value).value, argv).None?
    requires ScriptPlan(m, m.Target(path).value, m.Read(m.Target(path).value).value, argv).Some?
    ensures Prepared(m, path, argv, envp)
         == ScriptPlan(m, m.Target(path).value, m.Read(m.Target(path).value).value, argv)
  {
  }

  lemma {:induction false} KernelReadsTheLine(m: Machine, target: string, argv: seq<string>, depth: nat,
                                              interp: string, arg: Option<string>, real_: string)
    requires MovedScript(m, target, interp, arg, real_) && m.Sees(target)
    ensures KernelExec(m.tree, Aliased(m, interp, real_), target, argv, depth + 1) ==
            KernelExec(m.tree, Aliased(m, interp, real_), interp,
                       [interp] + ArgOf(arg) + [target] + Tail(argv), depth)
  {
    hide KernelSplit, LineOf, Interp;
    assert target != interp;
    assert Aliased(m, interp, real_)(target) == m.Reaches(target);
  }

  // Programs whose loader is missing.

  datatype Launch = Launch(program: string, argv: seq<string>) | LooksUp(name: string) | Refused

  /** glibc's loader (`ld-linux`) looks for a program word without a slash where libraries are;
      musl's opens every program word as it is. */
  predicate LooksUpNames(loader: string) {
    "ld-linux" <= LastName(loader)
  }

  /** A loader started as a program: leading `--` words are options, `--argv0` takes the next word,
      the first other word is the program. Any other option does something else. */
  function LoaderRuns(looksUp: bool, words: seq<string>, argv0: Option<string>): Launch
    decreases |words|
  {
    if words == [] then Refused
    else if words[0] == "--argv0" then
      if |words| < 2 then Refused else LoaderRuns(looksUp, words[2..], Some(words[1]))
    else if "--" <= words[0] then Refused
    else if looksUp && Free(words[0], '/') then LooksUp(words[0])
    else Launch(words[0], [if argv0.Some? then argv0.value else words[0]] + words[1..])
  }

  /** The words a loader can start as a program. */
  predicate IsProgramWord(looksUp: bool, word: string) {
    !("--" <= word) && (looksUp ==> !Free(word, '/'))
  }

  /** No loader ever starts anything else. */
  lemma {:induction false} OnlyProgramWords(looksUp: bool, words: seq<string>, argv0: Option<string>)
    ensures LoaderRuns(looksUp, words, argv0).Launch? ==> IsProgramWord(looksUp, LoaderRuns(looksUp, words, argv0).program)
    decreases |words|
  {
    if |words| >= 2 && words[0] == "--argv0" {
      OnlyProgramWords(looksUp, words[2..], Some(words[1]));
    }
  }

  /** A program the plan is for: the loader it names is missing and this system has a copy. */
  ghost predicate MovedLoader(m: Machine, target: string, interp: string, loader: string) {
    && m.Read(target).Some? && IsElf(m.Read(target).value)
    && Interp(m.Read(target).value) == Some(interp) && !m.Sees(interp)
    && SystemLoader(m.roots, interp) == Some(loader) && m.Sees(loader)
  }

  lemma {:induction false} LoaderPlanned(m: Machine, path: string, argv: seq<string>, envp: seq<string>,
                                         interp: string, loader: string)
    requires m.Target(path).Some? && MovedLoader(m, m.Target(path).value, interp, loader)
    requires ToolchainExec(m, m.Target(path).value, argv, envp).None?
    ensures Prepared(m, path, argv, envp).Some?
    ensures m.Sees(m.Target(path).value) && m.Reaches(loader).Some? && m.Reaches(m.Target(path).value).Some?
    ensures var e := Prepared(m, path, argv, envp).value;
            var target := m.Target(path).value;
            && e.file == loader && e.argv.Some?
            && e.argv == Some(Terminated([loader, "--argv0", CallerArgv(argv, target)[0], target] + Tail(argv)))
            && e.Argv(argv) == [loader, "--argv0", CallerArgv(argv, target)[0], target] + Tail(argv)
  {
    var target := m.Target(path).value;
    WordsOfTerminated([loader, "--argv0", CallerArgv(argv, target)[0], target] + Tail(argv));
  }

  lemma {:induction false} LoaderGets(looksUp: bool, argv0: string, program: string, rest: seq<string>)
    ensures LoaderRuns(looksUp, ["--argv0", argv0, program] + rest, None) == Launch(program, [argv0] + rest) <==>
            IsProgramWord(looksUp, program)
  {
    var words := ["--argv0", argv0, program] + rest;
    assert words[2..] == [program] + rest;
    assert ([program] + rest)[1..] == rest;
    OnlyProgramWords(looksUp, words, None);
    assert LoaderRuns(looksUp, words, None) == LoaderRuns(looksUp, [program] + rest, Some(argv0));
  }

  lemma {:induction false} LastNameBehind(front: string, name: string)
    requires Free(name, '/') && front != "" && front[|front| - 1] == '/'
    ensures LastName(front + name) == name
  {
    forall j | |front| <= j < |front + name| ensures !IsSlash()((front + name)[j]) {
      assert (front + name)[j] == name[j - |front|];
    }
    EndIs(front + name, IsSlash(), |front|);
  }

  /** The system's loader has the last name of the one the program asks for. */
  lemma {:induction false} LoaderKeepsName(roots: Roots, interp: string)
    requires SystemLoader(roots, interp).Some?
    ensures LastName(SystemLoader(roots, interp).value) == LastName(interp)
  {
    var name := LastName(interp);
    forall j | 0 <= j < |name| ensures name[j] != '/' {
      assert !IsSlash()(interp[End(interp, IsSlash()) + j]);
    }
    assert name != "" && !IsAbsolute(name);
    var dir := if "ld-linux" <= name then PathJoin(roots.union, "x86_64-zainium-linux-gnu/lib")
               else PathJoin(roots.muslSysdir, "lib");
    assert dir[|dir| - 1] == 'b';
    LastNameBehind(dir + "/", name);
  }

  /** The plan makes the loader run the program with exactly the caller's arguments, for any number
      of them, just when the program's path does not look like an option and, for glibc's loader,
      has a slash: a relative path that starts with `--` is lost, and so is a bare name in the
      current directory. The image is the one the kernel would run. */
  lemma {:induction false} LoaderStartsTheProgramIff(
      m: Machine, path: string, argv: seq<string>, envp: seq<string>, depth: nat, interp: string, loader: string)
    requires m.Target(path).Some? && MovedLoader(m, m.Target(path).value, interp, loader)
    requires RunsAsItIs(m, loader) && ToolchainExec(m, m.Target(path).value, argv, envp).None?
    ensures Prepared(m, path, argv, envp).Some?
    ensures var e := Prepared(m, path, argv, envp).value;
            var target := m.Target(path).value;
            && KernelExec(m.tree, Reaching(m), e.file, e.Argv(argv), depth)
               == Runs(m.Reaches(loader).value, e.Argv(argv))
            && |e.Argv(argv)| > 0
            && LooksUpNames(e.file) == ("ld-linux" <= LastName(interp))
            && (LoaderRuns(LooksUpNames(e.file), e.Argv(argv)[1..], None) == Launch(target, CallerArgv(argv, target)) <==>
                !("--" <= target) && ("ld-linux" <= LastName(interp) ==> !Free(target, '/')))
            && KernelExec(m.tree, Aliased(m, interp, loader), target, CallerArgv(argv, target), depth)
               == Runs(m.Reaches(target).value, CallerArgv(argv, target))
  {
    hide *;
    var target := m.Target(path).value;
    LoaderPlanned(m, path, argv, envp, interp, loader);
    var e := Prepared(m, path, argv, envp).value;
    assert KernelExec(m.tree, Reaching(m), e.file, e.Argv(argv), depth)
        == Runs(m.Reaches(loader).value, e.Argv(argv)) by {
      ReachesItself(m, loader);
      RunsDirectly(m, Reaching(m), loader, loader, e.Argv(argv), depth);
    }
    LoaderIsNamed(m, target, interp, loader);
    LoaderGetsCaller(LooksUpNames(loader), loader, argv, target);
    ProgramRuns(m, target, interp, loader, CallerArgv(argv, target), depth);
  }

  lemma ReachesItself(m: Machine, file: string)
    ensures Reaching(m)(file) == m.Reaches(file)
    ensures forall text :: m.Reaches(text).Some? ==> Reaching(m)(text).Some?
  {
  }

  lemma LoaderIsNamed(m: Machine, target: string, interp: string, loader: string)
    requires MovedLoader(m, target, interp, loader)
    ensures LooksUpNames(loader) == ("ld-linux" <= LastName(interp))
  {
    hide LastName, SystemLoader;
    LoaderKeepsName(m.roots, interp);
  }

  lemma {:induction false} LoaderGetsCaller(looksUp: bool, loader: string, argv: seq<string>, target: string)
    ensures CallerArgv(argv, target) != []
    ensures var words := [loader, "--argv0", CallerArgv(argv, target)[0], target] + Tail(argv);
            && |words| > 0
            && (LoaderRuns(looksUp, words[1..], None) == Launch(target, CallerArgv(argv, target)) <==>
                !("--" <= target) && (looksUp ==> !Free(target, '/')))
  {
    var called := CallerArgv(argv, target);
    var words := [loader, "--argv0", called[0], target] + Tail(argv);
    assert words[1..] == ["--argv0", called[0], target] + Tail(argv);
    LoaderGets(looksUp, called[0], target, Tail(argv));
    assert [called[0]] + Tail(argv) == called;
  }

  lemma {:induction false} ProgramRuns(m: Machine, target: string, interp: string, loader: string,
                                       argv: seq<string>, depth: nat)
    requires MovedLoader(m, target, interp, loader) && m.Sees(target)
    ensures KernelExec(m.tree, Aliased(m, interp, loader), target, argv, depth)
         == Runs(m.Reaches(target).value, argv)
  {
    ElfIsNoScript(m.Read(target).value);
    assert target != interp;
  }

  /** A script whose interpreter, as the library reads its first 256 bytes, is missing and has a
      candidate. */
  ghost predicate MissingInterpreter(m: Machine, target: string, interp: string, arg: Option<string>) {
    && m.Read(target).Some?
    && var data := m.Read(target).value;
       && ParseShebang(data[..Min(|data|, 256)]) == Some((interp, arg))
       && !m.Sees(UpToNul(interp)) && m.FirstCandidate(UpToNul(interp)).Some?
  }

  /** A file that is there is started in another way exactly when the toolchain says so, when its
      loader is missing and this system has a copy, or when its interpreter is missing and has a
      candidate. */
  lemma {:induction false} ChangedIff(m: Machine, path: string, argv: seq<string>, envp: seq<string>)
    requires m.Sees(path)
    ensures Prepared(m, path, argv, envp).Some? <==>
            || ToolchainExec(m, path, argv, envp).Some?
            || (exists interp, loader :: MovedLoader(m, path, interp, loader))
            || exists interp, arg :: MissingInterpreter(m, path, interp, arg)
  {
    hide ToolchainExec, Interp, SystemLoader, ParseShebang, UpToNul;
    var data := match m.Read(path) case Some(d) => d case None => "";
    NoHeadNoScript();
    if LoaderPlan(m, path, data, argv).Some? {
      assert MovedLoader(m, path, Interp(data).value, SystemLoader(m.roots, Interp(data).value).value);
    }
    if ScriptPlan(m, path, data, argv).Some? {
      var (interp, arg) := ParseShebang(HeadOf(data)).value;
      assert MissingInterpreter(m, path, interp, arg);
    }
    if interp, loader :| MovedLoader(m, path, interp, loader) {
      assert LoaderPlan(m, path, data, argv).Some?;
    }
    if interp, arg :| MissingInterpreter(m, path, interp, arg) {
      assert ScriptPlan(m, path, data, argv).Some?;
    }
  }

  lemma NoHeadNoScript()
    ensures ParseShebang("") == None && HeadOf("") == "" && !IsElf("")
  {
  }

  /** With glibc picked, pkg-config sees glibc's `.pc` directories only, and every other variable of
      the caller as it was. */
  lemma {:induction false} PkgConfigSees(roots: Roots, envp: seq<string>, key: string)
    requires Free(key, '=')
    ensures EnvValue(PkgConfigEnv(roots, envp), key) ==
            if key == "PKG_CONFIG_LIBDIR" then Some(PkgConfigLibdir(roots))
            else if key == "PKG_CONFIG_PATH" then None
            else EnvValue(envp, key)
    decreases |envp|
  {
    hide PkgConfigLibdir;
    var added := LIBDIR_KEY + "=" + PkgConfigLibdir(roots);
    BindsOnly(added, LIBDIR_KEY, PkgConfigLibdir(roots), key);
    if envp == [] {
      assert KeptEnv(envp) + [added] == [added];
    } else {
      PkgConfigSees(roots, envp[1..], key);
      ReplacedBinds(envp[0], key);
      var rest := PkgConfigEnv(roots, envp[1..]);
      if Replaced(envp[0]) {
        assert KeptEnv(envp) == KeptEnv(envp[1..]);
      } else {
        assert PkgConfigEnv(roots, envp) == [envp[0]] + rest;
        assert ([envp[0]] + rest)[1..] == rest;
      }
    }
  }

  lemma BindsOnly(entry: string, name: string, value: string, key: string)
    requires entry == name + "=" + value && Free(name, '=') && Free(key, '=')
    ensures Binds(entry, key) <==> key == name
    ensures entry[|name| + 1..] == value
  {
    if Binds(entry, key) {
      assert entry[|key|] == '=' && entry[|name|] == '=';
      assert forall j :: 0 <= j < |key| ==> entry[j] == key[j];
      assert forall j :: 0 <= j < |name| ==> entry[j] == name[j];
      assert |key| == |name|;
    }
  }

  lemma ReplacedBinds(entry: string, key: string)
    requires Free(key, '=')
    ensures Replaced(entry) <==> Binds(entry, LIBDIR_KEY) || Binds(entry, PATH_KEY)
    ensures Replaced(entry) && Binds(entry, key) ==> key == LIBDIR_KEY || key == PATH_KEY
  {
  }
}
