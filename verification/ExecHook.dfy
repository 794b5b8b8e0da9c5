/** `prepare_exec` step by step: buffers filled, argument vectors pushed (src/preload.rs). */
module ExecHook {
  import opened Text
  import opened Shebang
  import opened Elf
  import opened Toolchain
  import opened Exec

  lemma {:induction false} KeptEnvGrows(envp: seq<string>, i: nat)
    requires i < |envp|
    ensures KeptEnv(envp[..i + 1]) == KeptEnv(envp[..i]) + if Replaced(envp[i]) then [] else [envp[i]]
    decreases i
  {
    if i == 0 {
      assert envp[..1][1..] == [] && envp[..0] == [];
    } else {
      KeptEnvGrows(envp[1..], i - 1);
      assert envp[..i + 1][1..] == envp[1..][..i] && envp[..i][1..] == envp[1..][..i - 1];
    }
  }

  /** The caller's environment without the two variables, then the new one. */
  method FilterEnv(envp: Option<CArray>, added: string) returns (e: CArray)
    requires HasNull(envp)
    ensures e == Terminated(KeptEnv(ArgWords(envp)) + [added])
  {
    ghost var words := ArgWords(envp);
    e := [];
    if envp.Some? {
      var a := envp.value;
      var i := 0;
      WordsStep(a, 0);
      while a[i].Some?
        invariant i <= |words| < |a| && a[|words|] == None
        invariant i < |words| ==> a[i] == Some(words[i])
        invariant e == Somes(KeptEnv(words[..i]))
        decreases |words| - i
      {
        KeptEnvGrows(words, i);
        if !Replaced(a[i].value) {
          e := e + [a[i]];
        }
        i := i + 1;
        WordsStep(a, i);
      }
      assert words[..i] == words;
    }
    SomesTerminated(KeptEnv(words) + [added]);
    e := e + [Some(added)];
    e := e + [None];
  }

  method ToolchainPlan(m: Machine, target: string, argv: Option<CArray>, envp: Option<CArray>)
    returns (e: Option<Exec>)
    requires HasNull(argv) && HasNull(envp)
    ensures e == ToolchainExec(m, target, ArgWords(argv), ArgWords(envp))
  {
    var name := LastName(target);
    var driver := GnuDriver(name);
    var pkgConfig := name == "pkg-config" || name == "pkgconf";
    if driver.None? && !pkgConfig {
      return None;
    }
    if !InBaseBin(m, target) || !m.GlibcPicked(ArgWords(envp)) {
      return None;
    }
    if driver.Some? {
      var gnu := GnuCompiler(m.roots, driver.value);
      if !m.Sees(gnu) {
        return None;
      }
      var v := WithArgs([gnu], argv);
      return Some(Exec(gnu, Some(v), None));
    }
    var vars := FilterEnv(envp, "PKG_CONFIG_LIBDIR" + "=" + PkgConfigLibdir(m.roots));
    return Some(Exec(target, None, Some(vars)));
  }

  /** The exec hooks' preparation: locate the program, then ask the three plans in turn. */
  method PrepareExec(m: Machine, path: string, argv: Option<CArray>, envp: Option<CArray>)
    returns (e: Option<Exec>)
    requires HasNull(argv) && HasNull(envp)
    ensures e == Prepared(m, path, ArgWords(argv), ArgWords(envp))
  {
    hide ToolchainExec, Interp, SplitLine, SystemLoader, Terminated;
    var file: Option<string> := None;
    if !m.Sees(path) {
      file := m.FirstCandidate(path);
      if file.None? {
        return None;
      }
    }
    var target := if file.Some? then file.value else path;
    var plan := ToolchainPlan(m, target, argv, envp);
    if plan.Some? {
      return plan;
    }
    var read := m.Read(target);
    var data := match read case Some(d) => d case None => "";
    plan := LoaderStep(m, target, data, argv);
    if plan.Some? {
      return plan;
    }
    plan := ScriptStep(m, target, data, argv);
    if plan.Some? {
      return plan;
    }
    e := if file.Some? then Some(Exec(target, None, None)) else None;
  }

  method LoaderStep(m: Machine, program: string, data: string, argv: Option<CArray>) returns (e: Option<Exec>)
    requires HasNull(argv)
    ensures e == LoaderPlan(m, program, data, ArgWords(argv))
  {
    hide Interp, SystemLoader, Terminated;
    var interp := new char[PATH_MAX](_ => NUL);
    if !IsElf(data) {
      return None;
    }
    var len := ElfInterp(data, interp);
    if len.None? {
      return None;
    }
    var loader := SystemLoader(m.roots, interp[..len.value]);
    if m.Sees(interp[..len.value]) || loader.None? || !m.Sees(loader.value) {
      return None;
    }
    ghost var words := ArgWords(argv);
    var argv0 := program;
    if argv.Some? && argv.value != [] && argv.value[0].Some? {
      argv0 := argv.value[0].value;
      WordsStep(argv.value, 0);
    } else if argv.Some? {
      WordsStep(argv.value, 0);
    }
    assert argv0 == CallerArgv(words, program)[0];
    var v := WithArgs([loader.value, "--argv0", argv0, program], argv);
    e := Some(Exec(loader.value, Some(v), None));
  }

  method ScriptStep(m: Machine, script: string, data: string, argv: Option<CArray>) returns (e: Option<Exec>)
    requires HasNull(argv)
    ensures e == ScriptPlan(m, script, data, ArgWords(argv))
  {
    hide SplitLine, Terminated;
    match ParseShebang(HeadOf(data)) {
      case None => return None;
      case Some((interp, arg)) =>
        var name := UpToNul(interp);
        if m.Sees(name) {
          return None;
        }
        var found := m.FirstCandidate(name);
        if found.None? {
          return None;
        }
        // in the order of the kernel's own `#!` rule
        var first := [found.value];
        if arg.Some? && Free(arg.value, NUL) {
          first := first + [arg.value];
        }
        first := first + [script];
        assert first == [found.value] + UsableArg(arg) + [script];
        var v := WithArgs(first, argv);
        e := Some(Exec(found.value, Some(v), None));
    }
  }
}
