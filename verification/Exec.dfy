/** What is started instead of what the caller asked for (src/preload.rs). */
module Exec {
  import opened Text
  import opened Utf8
  import opened Paths
  import opened FileTree
  import opened Remap
  import opened Shebang
  import opened Elf
  import opened Toolchain

  const SHEBANG_MAX: nat := 256

  /** A C array of strings, from its first element on. */
  type CArray = seq<Option<string>>

  function Words(a: CArray): seq<string> {
    if a == [] || a[0].None? then [] else [a[0].value] + Words(a[1..])
  }

  function Terminated(words: seq<string>): CArray {
    if words == [] then [None] else [Some(words[0])] + Terminated(words[1..])
  }

  lemma {:induction false} WordsOfTerminated(words: seq<string>)
    ensures Words(Terminated(words)) == words
  {
    if words != [] {
      WordsOfTerminated(words[1..]);
      assert Terminated(words)[1..] == Terminated(words[1..]);
    }
  }

  lemma {:induction false} TerminatedGrows(words: seq<string>, w: string)
    ensures |Terminated(words)| == |words| + 1
    ensures Terminated(words)[..|words|] + [Some(w), None] == Terminated(words + [w])
  {
    if words == [] {
      assert Terminated([w]) == [Some(w)] + Terminated([]);
    } else {
      TerminatedGrows(words[1..], w);
      assert (words + [w])[1..] == words[1..] + [w];
      assert Terminated(words)[..|words|] == [Some(words[0])] + Terminated(words[1..])[..|words| - 1];
    }
  }

  /** A null pointer counts as no arguments. */
  function ArgWords(argv: Option<CArray>): seq<string> {
    match argv case Some(a) => Words(a) case None => []
  }

  function Tail(words: seq<string>): seq<string> {
    if words == [] then [] else words[1..]
  }

  datatype Exec = Exec(file: string, argv: Option<CArray>, envp: Option<CArray>) {
    function Argv(original: seq<string>): seq<string> {
      match argv case Some(a) => Words(a) case None => original
    }
  }

  ghost predicate HasNull(a: Option<CArray>) {
    a.Some? ==> None in a.value
  }

  /** The words themselves, without a terminator. */
  function Somes(words: seq<string>): CArray {
    seq(|words|, i requires 0 <= i < |words| => Some(words[i]))
  }

  lemma {:induction false} SomesTerminated(words: seq<string>)
    ensures Somes(words) + [None] == Terminated(words)
  {
    if words != [] {
      SomesTerminated(words[1..]);
      assert Somes(words) == [Some(words[0])] + Somes(words[1..]);
    }
  }

  lemma {:induction false} WordsStep(a: CArray, i: nat)
    requires None in a && i <= |Words(a)|
    ensures |Words(a)| < |a| && a[|Words(a)|] == None
    ensures i < |Words(a)| ==> a[i] == Some(Words(a)[i])
    decreases |a|
  {
    if a[0].Some? {
      assert None in a[1..];
      WordsStep(a[1..], if i == 0 then 0 else i - 1);
    }
  }

  /** The given words, all of the caller's but the first behind them, and the NULL. */
  method WithArgs(first: seq<string>, argv: Option<CArray>) returns (v: CArray)
    requires HasNull(argv)
    ensures v == Terminated(first + Tail(ArgWords(argv)))
  {
    v := Somes(first);
    ghost var words := ArgWords(argv);
    if argv.Some? && argv.value != [] && argv.value[0].Some? {
      var a := argv.value;
      WordsStep(a, 0);
      var i := 1;
      WordsStep(a, i);
      while a[i].Some?
        invariant 1 <= i <= |words| < |a| && a[|words|] == None
        invariant i < |words| ==> a[i] == Some(words[i])
        invariant v == Somes(first + words[1..i])
        decreases |words| - i
      {
        v := v + [a[i]];
        i := i + 1;
        WordsStep(a, i);
        assert first + words[1..i] == first + words[1..i - 1] + [words[i - 1]];
      }
      assert i == |words|;
      assert words[1..i] == Tail(words);
    } else {
      assert words == [] by {
        if argv.Some? { WordsStep(argv.value, 0); }
      }
      assert first + Tail(words) == first;
    }
    SomesTerminated(first + Tail(words));
    v := v + [None];
  }

  predicate Binds(entry: string, key: string) {
    |entry| > |key| && key <= entry && entry[|key|] == '='
  }

  /** What an environment binds a key to: its first entry decides. */
  function EnvValue(envp: seq<string>, key: string): Option<string> {
    if envp == [] then None
    else if Binds(envp[0], key) then Some(envp[0][|key| + 1..])
    else EnvValue(envp[1..], key)
  }

  function IsSlash(): char -> bool {
    (c: char) => c == '/'
  }

  function LastName(path: string): string {
    path[End(path, IsSlash())..]
  }

  datatype Machine = Machine(tree: Tree, cwd: Path, roots: Roots) {
    /** `access(text, F_OK) == 0`. */
    predicate Sees(text: string) {
      ExistsFrom(tree, cwd, text)
    }

    function Seen(): string -> bool {
      (text: string) => Sees(text)
    }

    /** The file an open of `text` reaches. */
    function Reaches(text: string): Option<Path> {
      if Sees(text) then Some(LookupText(tree, cwd, text).path) else None
    }

    function Read(text: string): Option<string> {
      match Reaches(text)
      case Some(p) => if p in tree && tree[p].File? then Some(tree[p].data) else None
      case None => None
    }

    function FirstCandidate(path: string): Option<string> {
      Find(Candidates(path, roots), Seen())
    }

    /** Where `path` really is. */
    function Target(path: string): Option<string> {
      if Sees(path) then Some(path) else FirstCandidate(path)
    }

    function GlibcPicked(envp: seq<string>): bool {
      match EnvValue(envp, ENV)
      case Some(v) => IsUtf8(v) && Parse(v) == Some(Glibc)
      case None =>
        match Read(SettingPath(roots))
        case Some(data) =>
          var b := data[..Min(|data|, 16)];
          b != "" && IsUtf8(b) && Parse(b) == Some(Glibc)
        case None => false
    }
  }

  const LIBDIR_KEY := "PKG_CONFIG_LIBDIR"
  const PATH_KEY := "PKG_CONFIG_PATH"

  predicate Replaced(entry: string) {
    LIBDIR_KEY + "=" <= entry || PATH_KEY + "=" <= entry
  }

  function KeptEnv(envp: seq<string>): seq<string> {
    if envp == [] then []
    else (if Replaced(envp[0]) then [] else [envp[0]]) + KeptEnv(envp[1..])
  }

  function PkgConfigEnv(roots: Roots, envp: seq<string>): seq<string> {
    KeptEnv(envp) + [LIBDIR_KEY + "=" + PkgConfigLibdir(roots)]
  }

  predicate InBaseBin(m: Machine, target: string) {
    var end := End(target, IsSlash());
    end > 0 && target[..end - 1] == PathJoin(m.roots.syshub, "bin")
  }

  function GnuCompiler(roots: Roots, driver: string): string {
    PathJoin(roots.union, "bin/" + GNU + "-" + driver)
  }

  /** With glibc picked, the base's compiler drivers start glibc's, and pkg-config sees only
      glibc's files. */
  function ToolchainExec(m: Machine, target: string, argv: seq<string>, envp: seq<string>): Option<Exec> {
    var driver := GnuDriver(LastName(target));
    var pkgConfig := LastName(target) == "pkg-config" || LastName(target) == "pkgconf";
    if (driver.None? && !pkgConfig) || !InBaseBin(m, target) || !m.GlibcPicked(envp) then None
    else if driver.Some? then
      var gnu := GnuCompiler(m.roots, driver.value);
      if m.Sees(gnu) then Some(Exec(gnu, Some(Terminated([gnu] + Tail(argv))), None)) else None
    else
      Some(Exec(target, None, Some(Terminated(PkgConfigEnv(m.roots, envp)))))
  }

  /** Where a loader of that name is kept here. */
  function SystemLoader(roots: Roots, interp: string): Option<string> {
    var name := LastName(interp);
    if "ld-linux" <= name then Some(PathJoin(PathJoin(roots.union, "x86_64-zainium-linux-gnu/lib"), name))
    else if "ld-musl" <= name then Some(PathJoin(PathJoin(roots.muslSysdir, "lib"), name))
    else None
  }

  function HeadOf(data: string): string {
    data[..Min(|data|, SHEBANG_MAX)]
  }

  predicate IsElf(data: string) {
    "\U{7f}ELF" <= data
  }

  function CallerArgv(argv: seq<string>, program: string): seq<string> {
    if argv == [] then [program] else argv
  }

  /** The plan for a program whose loader is missing. */
  function LoaderPlan(m: Machine, target: string, data: string, argv: seq<string>): Option<Exec> {
    if !IsElf(data) || Interp(data).None? || m.Sees(Interp(data).value) then None
    else
      match SystemLoader(m.roots, Interp(data).value)
      case None => None
      case Some(ld) =>
        if !m.Sees(ld) then None
        else
          Some(Exec(ld, Some(Terminated([ld, "--argv0", CallerArgv(argv, target)[0], target] + Tail(argv))), None))
  }

  /** An argument with a NUL inside is dropped. */
  function UsableArg(arg: Option<string>): seq<string> {
    if arg.Some? && Free(arg.value, NUL) then [arg.value] else []
  }

  /** The plan for a script whose interpreter is missing. */
  function ScriptPlan(m: Machine, target: string, data: string, argv: seq<string>): Option<Exec> {
    match ParseShebang(HeadOf(data))
    case None => None
    case Some((interp, arg)) =>
      var name := UpToNul(interp);
      if m.Sees(name) then None
      else
        match m.FirstCandidate(name)
        case None => None
        case Some(real_) =>
          Some(Exec(real_, Some(Terminated([real_] + UsableArg(arg) + [target] + Tail(argv))), None))
  }

  function Prepared(m: Machine, path: string, argv: seq<string>, envp: seq<string>): Option<Exec> {
    match m.Target(path)
    case None => None
    case Some(target) =>
      match ToolchainExec(m, target, argv, envp)
      case Some(e) => Some(e)
      case None =>
        var data := match m.Read(target) case Some(d) => d case None => "";
        match LoaderPlan(m, target, data, argv)
        case Some(e) => Some(e)
        case None =>
          match ScriptPlan(m, target, data, argv)
          case Some(e) => Some(e)
          case None => if m.Sees(path) then None else Some(Exec(target, None, None))
  }
}
