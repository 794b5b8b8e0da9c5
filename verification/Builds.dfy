/** Which libc a build uses, and what that starts, said in terms of the environment and the files on
    the tree (src/preload.rs, src/toolchain.rs). */
module Builds {
  import opened Text
  import opened Utf8
  import opened Paths
  import opened FileTree
  import opened Remap
  import opened Creation
  import opened Shebang
  import opened Toolchain
  import opened Exec
  import opened Starting
  import opened OnDisk

  // Whether glibc is picked.

  /** Entry `i` is the first that binds the variable, and binds it to `v`. */
  predicate FirstBinding(envp: seq<string>, i: nat, v: string) {
    && i < |envp| && envp[i] == "ZAINIUM_LIBC=" + v
    && forall j :: 0 <= j < i ==> !("ZAINIUM_LIBC=" <= envp[j])
  }

  predicate Unbound(envp: seq<string>) {
    forall j :: 0 <= j < |envp| ==> !("ZAINIUM_LIBC=" <= envp[j])
  }

  /** The file `sys-resolver set` writes. */
  function SettingFile(l: Layout): Path {
    l.Syshub() + ["etc", "sys-resolver", "toolchain"]
  }

  ghost predicate SaysGlibc(s: string) {
    Says(s, "glibc") || Says(s, "gnu")
  }

  /** The environment asks for glibc, or says nothing and the first 16 bytes of the setting do. */
  ghost predicate GlibcAsked(l: Layout, t: Tree, envp: seq<string>) {
    || (exists i: nat, v :: FirstBinding(envp, i, v) && SaysGlibc(v))
    || (Unbound(envp) && SettingFile(l) in t && t[SettingFile(l)].File?
        && SaysGlibc(t[SettingFile(l)].data[..Min(|t[SettingFile(l)].data|, 16)]))
  }

  lemma BindsIff(entry: string, key: string)
    ensures Binds(entry, key) <==> key + "=" <= entry
    ensures Binds(entry, key) ==> entry == key + "=" + entry[|key| + 1..]
  {
  }

  lemma {:induction false} EnvValueOf(envp: seq<string>, i: nat, v: string)
    requires FirstBinding(envp, i, v)
    ensures EnvValue(envp, ENV) == Some(v)
    decreases i
  {
    BindsIff(envp[0], ENV);
    assert ENV + "=" == "ZAINIUM_LIBC=";
    if i > 0 {
      EnvValueOf(envp[1..], i - 1, v);
    }
  }

  lemma {:induction false} EnvValueFound(envp: seq<string>) returns (i: nat)
    ensures EnvValue(envp, ENV) == None <==> Unbound(envp)
    ensures EnvValue(envp, ENV).Some? ==> FirstBinding(envp, i, EnvValue(envp, ENV).value)
  {
    i := 0;
    if envp != [] {
      BindsIff(envp[0], ENV);
      assert ENV + "=" == "ZAINIUM_LIBC=";
      if !Binds(envp[0], ENV) {
        i := EnvValueFound(envp[1..]);
        i := i + 1;
        assert Unbound(envp[1..]) ==> Unbound(envp);
      }
    }
  }

  lemma {:induction false} GlibcTextIff(s: string)
    ensures s != "" && IsUtf8(s) && Parse(s) == Some(Glibc) <==> SaysGlibc(s)
  {
    hide Parse;
    ParseIff(s);
    if name, front, back :| (name == "glibc" || name == "gnu") && Padded(s, front, name, back) {
      AsciiIsValid(s);
    }
  }

  lemma {:induction false} SettingText(l: Layout)
    requires l.Valid()
    ensures SettingPath(l.Text()) == Render(SettingFile(l)) && Normalised(SettingFile(l))
  {
    hide IsName;
    UnderAgrees(l);
    RootsAreNormalised(l);
    SettingNames();
    JoinRendered(l.Syshub(), ["etc", "sys-resolver", "toolchain"]);
    NormalisedConcat(l.Syshub(), ["etc", "sys-resolver", "toolchain"]);
  }

  lemma SettingWords()
    ensures "etc" + ['/'] + ("sys-resolver" + "/" + "toolchain") == "etc/sys-resolver/toolchain"
  {
  }

  lemma PlainSettingNames()
    ensures IsName("etc") && IsName("sys-resolver") && IsName("toolchain")
  {
  }

  lemma SettingNames()
    ensures Normalised(["etc", "sys-resolver", "toolchain"])
    ensures RenderRel(["etc", "sys-resolver", "toolchain"]) == "etc/sys-resolver/toolchain"
  {
    PlainSettingNames();
    SettingWords();
    hide IsName, Join;
    JoinCons("etc", ["sys-resolver", "toolchain"], '/');
    TwoNames("sys-resolver", "toolchain");
    assert ["etc"] + ["sys-resolver", "toolchain"] == ["etc", "sys-resolver", "toolchain"];
  }

  /** When glibc is picked: the first binding of the variable decides, without one the setting file. */
  lemma {:induction false} GlibcPickedIff(m: Machine, l: Layout, envp: seq<string>)
    requires l.Valid() && m.roots == l.Text() && WellFormed(m.tree)
    ensures m.GlibcPicked(envp) <==> GlibcAsked(l, m.tree, envp)
  {
    hide Parse, IsUtf8, SaysGlibc, WellFormed, Render, SettingFile;
    var k := EnvValueFound(envp);
    match EnvValue(envp, ENV) {
      case Some(v) =>
        GlibcTextIff(v);
        EmptySaysNothing();
        forall i, w | FirstBinding(envp, i, w) ensures w == v {
          EnvValueOf(envp, i, w);
        }
      case None =>
        forall i, w ensures !FirstBinding(envp, i, w) {
          if FirstBinding(envp, i, w) {
            EnvValueOf(envp, i, w);
          }
        }
        SettingText(l);
        SettingRead(m, SettingFile(l));
    }
  }

  lemma EmptySaysNothing()
    ensures Parse("") == None
  {
  }

  lemma {:induction false} SettingRead(m: Machine, p: Path)
    requires WellFormed(m.tree) && Normalised(p)
    ensures m.Read(Render(p)) == if p in m.tree && m.tree[p].File? then Some(m.tree[p].data) else None
    ensures p in m.tree && m.tree[p].File? ==>
              var b := m.tree[p].data[..Min(|m.tree[p].data|, 16)];
              b != "" && IsUtf8(b) && Parse(b) == Some(Glibc) <==> SaysGlibc(b)
  {
    hide Parse, IsUtf8, SaysGlibc, WellFormed;
    LookupOfRender(m.tree, m.cwd, p);
    if p in m.tree && m.tree[p].File? {
      GlibcTextIff(m.tree[p].data[..Min(|m.tree[p].data|, 16)]);
    }
  }

  lemma SaysOnly(name: string)
    ensures Says(name, name) && Says(name + "\n", name)
  {
    assert Padded(name, "", name, "") && Padded(name + "\n", "", name, "\n");
  }

  lemma {:induction false} OtherWords()
    ensures !SaysGlibc("") && !SaysGlibc("musl") && !SaysGlibc("musl\n")
  {
    SaysOnly("musl");
    ParseIff("musl");
    ParseIff("musl\n");
    ParseIff("");
    EmptySaysNothing();
  }

  /** The variable in the environment: the first entry that binds it decides, whatever the setting. */
  lemma {:induction false} VariableDecides(l: Layout, t: Tree, envp: seq<string>, i: nat)
    requires i < |envp| && forall j :: 0 <= j < i ==> !("ZAINIUM_LIBC=" <= envp[j])
    ensures envp[i] == "ZAINIUM_LIBC=glibc" || envp[i] == "ZAINIUM_LIBC=gnu" ==> GlibcAsked(l, t, envp)
    ensures envp[i] == "ZAINIUM_LIBC=musl" || envp[i] == "ZAINIUM_LIBC=" ==> !GlibcAsked(l, t, envp)
  {
    hide SaysGlibc, SettingFile;
    forall v | envp[i] == "ZAINIUM_LIBC=" + v ensures GlibcAsked(l, t, envp) <==> SaysGlibc(v) {
      OneBinding(l, t, envp, i, v);
    }
    assert "ZAINIUM_LIBC=" + "glibc" == "ZAINIUM_LIBC=glibc" && "ZAINIUM_LIBC=" + "gnu" == "ZAINIUM_LIBC=gnu";
    assert "ZAINIUM_LIBC=" + "musl" == "ZAINIUM_LIBC=musl" && "ZAINIUM_LIBC=" + "" == "ZAINIUM_LIBC=";
    NamesOfGlibc();
    OtherWords();
  }

  lemma {:induction false} OneBinding(l: Layout, t: Tree, envp: seq<string>, i: nat, v: string)
    requires FirstBinding(envp, i, v)
    ensures GlibcAsked(l, t, envp) <==> SaysGlibc(v)
  {
    hide SaysGlibc;
    forall k, w | FirstBinding(envp, k, w) ensures w == v {
      EnvValueOf(envp, i, v);
      EnvValueOf(envp, k, w);
    }
    assert "ZAINIUM_LIBC=" <= envp[i];
  }

  lemma NamesOfGlibc()
    ensures SaysGlibc("glibc") && SaysGlibc("gnu") && SaysGlibc("glibc\n")
  {
    SaysOnly("glibc");
    SaysOnly("gnu");
    assert "glibc" + "\n" == "glibc\n";
  }

  /** Without the variable the setting file decides: as `sys-resolver set` writes it, or absent. */
  lemma {:induction false} SettingDecides(l: Layout, t: Tree, envp: seq<string>)
    requires Unbound(envp)
    ensures SettingFile(l) !in t ==> !GlibcAsked(l, t, envp)
    ensures SettingFile(l) in t && t[SettingFile(l)] == File(Glibc.Name() + "\n") ==> GlibcAsked(l, t, envp)
    ensures SettingFile(l) in t && t[SettingFile(l)] == File(Musl.Name() + "\n") ==> !GlibcAsked(l, t, envp)
  {
    hide SaysGlibc, SettingFile;
    NamesOfGlibc();
    OtherWords();
    var glibc, musl := Glibc.Name() + "\n", Musl.Name() + "\n";
    assert glibc == "glibc\n" && musl == "musl\n";
    assert glibc[..Min(|glibc|, 16)] == glibc && musl[..Min(|musl|, 16)] == musl;
    forall i: nat, v ensures !FirstBinding(envp, i, v) {
      if i < |envp| {
        assert !("ZAINIUM_LIBC=" <= envp[i]);
      }
    }
  }

  // Builds with glibc picked.

  function BaseBin(l: Layout): Path {
    l.Syshub() + ["bin"]
  }

  function DriverPath(l: Layout, driver: string): Path {
    l.Union() + ["bin", GNU + "-" + driver]
  }

  /** The compiler drivers that change, and what each becomes. */
  lemma {:induction false} StandIns(l: Layout, name: string)
    ensures (match GnuDriver(name) case Some(d) => Some(DriverPath(l, d)) case None => None) ==
            if name == "gcc" || name == "cc" then Some(l.Union() + ["bin", "x86_64-zainium-linux-gnu-gcc"])
            else if name == "g++" || name == "c++" then Some(l.Union() + ["bin", "x86_64-zainium-linux-gnu-g++"])
            else if name == "cpp" then Some(l.Union() + ["bin", "x86_64-zainium-linux-gnu-cpp"])
            else None
  {
    assert GNU + "-" + "gcc" == "x86_64-zainium-linux-gnu-gcc";
    assert GNU + "-" + "g++" == "x86_64-zainium-linux-gnu-g++";
    assert GNU + "-" + "cpp" == "x86_64-zainium-linux-gnu-cpp";
  }

  /** The directories pkg-config is given: glibc's two below the union. */
  lemma {:induction false} LibdirText(l: Layout)
    requires l.Valid()
    ensures PkgConfigLibdir(l.Text()) ==
            Render(l.Union() + ["x86_64-zainium-linux-gnu", "lib", "pkgconfig"]) + ":"
            + Render(l.Union() + ["x86_64-zainium-linux-gnu", "share", "pkgconfig"])
  {
    hide Render, PathJoin, IsName;
    UnderAgrees(l);
    RootsAreNormalised(l);
    TwoNames(GNU, "");
    LibdirNames();
    JoinRendered(l.Union(), [GNU]);
    var dir := l.Union() + [GNU];
    NormalisedConcat(l.Union(), [GNU]);
    Deeper(dir, "lib", "pkgconfig");
    Deeper(dir, "share", "pkgconfig");
    assert dir + ["lib", "pkgconfig"] == l.Union() + ["x86_64-zainium-linux-gnu", "lib", "pkgconfig"];
    assert dir + ["share", "pkgconfig"] == l.Union() + ["x86_64-zainium-linux-gnu", "share", "pkgconfig"];
    var text := Render(dir);
    assert text + "/lib/pkgconfig:" + text + "/share/pkgconfig"
        == text + "/" + "lib" + "/" + "pkgconfig" + ":" + (text + "/" + "share" + "/" + "pkgconfig");
  }

  lemma LibdirNames()
    ensures Normalised([GNU]) && IsName("lib") && IsName("share") && IsName("pkgconfig")
  {
  }

  lemma {:induction false} Deeper(dir: Path, a: string, b: string)
    requires dir != []
    ensures Render(dir + [a, b]) == Render(dir) + "/" + a + "/" + b
  {
    TwoNames(a, b);
    JoinConcat(dir, [a, b], '/');
  }

  /** The two places that decide, by name. */
  lemma {:induction false} BuildPlaces(l: Layout)
    ensures BaseBin(l) == l.sysroot + ["overlayer", "syshub", "bin"]
    ensures SettingFile(l) == l.sysroot + ["overlayer", "syshub", "etc", "sys-resolver", "toolchain"]
  {
    assert l.Syshub() == l.sysroot + ["overlayer", "syshub"];
  }

  predicate IsPkgConfig(name: string) {
    name == "pkg-config" || name == "pkgconf"
  }

  lemma {:induction false} FrontOf(p: Path)
    requires Normalised(p) && p != []
    ensures End(Render(p), IsSlash()) > 0
    ensures var front := Render(p)[..End(Render(p), IsSlash()) - 1];
            front == if |p| == 1 then "" else Render(Parent(p))
  {
    hide End;
    LastNameOf(p);
    var parent, name := Parent(p), p[|p| - 1];
    assert p == parent + [name];
    JoinOne(name, '/');
    if parent != [] {
      JoinConcat(parent, [name], '/');
    }
    var cut := if parent == [] then "/" else Render(parent) + "/";
    assert Render(p) == cut + name;
    assert |Render(p)[End(Render(p), IsSlash())..]| == |name|;
    assert End(Render(p), IsSlash()) == |cut|;
    assert (cut + name)[..|cut| - 1] == cut[..|cut| - 1];
  }

  lemma {:induction false} InBaseBinIff(m: Machine, l: Layout, p: Path)
    requires l.Valid() && m.roots == l.Text() && Normalised(p) && p != []
    ensures InBaseBin(m, Render(p)) <==> Parent(p) == BaseBin(l)
  {
    hide End, Render, PathJoin;
    FrontOf(p);
    UnderAgrees(l);
    RootsAreNormalised(l);
    NamesOfBin();
    JoinRendered(l.Syshub(), ["bin"]);
    assert Normalised(Parent(p));
    if Render(Parent(p)) == Render(BaseBin(l)) {
      RenderIsInjective(Parent(p), BaseBin(l));
    }
    assert Render(BaseBin(l)) != "" by {
      RenderIsText(BaseBin(l));
    }
    assert |p| == 1 ==> Parent(p) == [];
  }

  lemma RenderIsText(p: Path)
    ensures Render(p) != ""
  {
  }

  lemma NamesOfBin()
    ensures Normalised(["bin"]) && RenderRel(["bin"]) == "bin"
  {
    JoinOne("bin", '/');
  }

  lemma {:induction false} DriverText(l: Layout, name: string)
    requires l.Valid() && GnuDriver(name).Some?
    ensures GnuCompiler(l.Text(), GnuDriver(name).value) == Render(DriverPath(l, GnuDriver(name).value))
    ensures Normalised(DriverPath(l, GnuDriver(name).value))
  {
    hide PathJoin, Render, RenderRel, IsName;
    var driver := GnuDriver(name).value;
    UnderAgrees(l);
    RootsAreNormalised(l);
    DriverIsName(name);
    TwoNames("bin", GNU + "-" + driver);
    assert "bin" + "/" + (GNU + "-" + driver) == "bin/" + GNU + "-" + driver;
    JoinRendered(l.Union(), ["bin", GNU + "-" + driver]);
    NormalisedConcat(l.Union(), ["bin", GNU + "-" + driver]);
  }

  lemma DriverIsName(name: string)
    requires GnuDriver(name).Some?
    ensures IsName("bin") && IsName(GNU + "-" + GnuDriver(name).value)
  {
  }

  /** When the toolchain is changed: with glibc asked for, for pkg-config of the base, and for a
      compiler driver of the base whose glibc counterpart is installed. */
  lemma {:induction false} ToolchainIff(m: Machine, l: Layout, p: Path, argv: seq<string>, envp: seq<string>)
    requires l.Valid() && m.roots == l.Text() && WellFormed(m.tree) && Normalised(p) && p != []
    ensures ToolchainExec(m, Render(p), argv, envp).Some? <==>
            var name := p[|p| - 1];
            && Parent(p) == BaseBin(l) && GlibcAsked(l, m.tree, envp)
            && (IsPkgConfig(name)
                || (GnuDriver(name).Some? && Lives(m.tree, DriverPath(l, GnuDriver(name).value))))
  {
    hide LastName, InBaseBin, Render, GnuCompiler, DriverPath, Lives, WellFormed, PkgConfigEnv, GlibcAsked;
    LastNameOf(p);
    InBaseBinIff(m, l, p);
    GlibcPickedIff(m, l, envp);
    if GnuDriver(p[|p| - 1]).Some? {
      DriverText(l, p[|p| - 1]);
      SeesPath(m, DriverPath(l, GnuDriver(p[|p| - 1]).value));
    }
  }

  /** A compiler driver of the base starts glibc's, under its own path and with the caller's other
      arguments. */
  lemma {:induction false} DriverOnDisk(
      m: Machine, l: Layout, p: Path, argv: seq<string>, envp: seq<string>, depth: nat)
    requires l.Valid() && m.roots == l.Text() && WellFormed(m.tree)
    requires p != [] && Lives(m.tree, p) && Parent(p) == BaseBin(l) && GlibcAsked(l, m.tree, envp)
    requires GnuDriver(p[|p| - 1]).Some? && Program(m.tree, DriverPath(l, GnuDriver(p[|p| - 1]).value))
    ensures Prepared(m, Render(p), argv, envp).Some?
    ensures var gnu := DriverPath(l, GnuDriver(p[|p| - 1]).value);
            var e := Prepared(m, Render(p), argv, envp).value;
            && e.envp == None
            && KernelExec(m.tree, Reaching(m), e.file, e.Argv(argv), depth) == Runs(gnu, [Render(gnu)] + Tail(argv))
  {
    hide *;
    var gnu := DriverPath(l, GnuDriver(p[|p| - 1]).value);
    var words := [Render(gnu)] + Tail(argv);
    DriverText(l, p[|p| - 1]);
    LivesNormalised(m.tree, p);
    ProgramLives(m.tree, gnu);
    SeesPath(m, p);
    DriverPlanned(m, l, p, argv, envp);
    PreparedByToolchain(m, Render(p), argv, envp);
    ArgvOfPlan(Render(gnu), words, argv);
    ProgramRunsAsItIs(m, gnu);
    ReachesItself(m, Render(gnu));
    RunsDirectly(m, Reaching(m), Render(gnu), Render(gnu), words, depth);
  }

  lemma LivesNormalised(t: Tree, p: Path)
    requires WellFormed(t) && Lives(t, p)
    ensures Normalised(p)
  {
  }

  lemma {:induction false} DriverPlanned(m: Machine, l: Layout, p: Path, argv: seq<string>, envp: seq<string>)
    requires l.Valid() && m.roots == l.Text() && WellFormed(m.tree) && Normalised(p) && p != []
    requires Parent(p) == BaseBin(l) && GlibcAsked(l, m.tree, envp)
    requires GnuDriver(p[|p| - 1]).Some? && Lives(m.tree, DriverPath(l, GnuDriver(p[|p| - 1]).value))
    ensures var gnu := Render(DriverPath(l, GnuDriver(p[|p| - 1]).value));
            ToolchainExec(m, Render(p), argv, envp) == Some(Exec(gnu, Some(Terminated([gnu] + Tail(argv))), None))
  {
    hide LastName, InBaseBin, Render, GnuCompiler, DriverPath, Lives, WellFormed, PkgConfigEnv, Terminated, GlibcAsked;
    DriverText(l, p[|p| - 1]);
    SeesPath(m, DriverPath(l, GnuDriver(p[|p| - 1]).value));
    ToolchainIff(m, l, p, argv, envp);
    LastNameOf(p);
  }

  lemma PkgConfigIsNoDriver(name: string)
    requires IsPkgConfig(name)
    ensures GnuDriver(name).None?
  {
    assert |"pkg-config"| == 10 && |"pkgconf"| == 7 && |"gcc"| == 3 && |"g++"| == 3 && |"c++"| == 3 && |"cpp"| == 3;
  }

  lemma {:induction false} PkgConfigPlanned(m: Machine, l: Layout, p: Path, argv: seq<string>, envp: seq<string>)
    requires l.Valid() && m.roots == l.Text() && WellFormed(m.tree) && Normalised(p) && p != []
    requires Parent(p) == BaseBin(l) && GlibcAsked(l, m.tree, envp) && IsPkgConfig(p[|p| - 1])
    ensures ToolchainExec(m, Render(p), argv, envp) ==
            Some(Exec(Render(p), None, Some(Terminated(PkgConfigEnv(m.roots, envp)))))
  {
    hide LastName, InBaseBin, Render, GnuCompiler, DriverPath, Lives, WellFormed, PkgConfigEnv, Terminated, GlibcAsked, GnuDriver;
    PkgConfigIsNoDriver(p[|p| - 1]);
    ToolchainIff(m, l, p, argv, envp);
    LastNameOf(p);
  }

  /** pkg-config of the base starts as it is, with glibc's directories in its environment. */
  lemma {:induction false} PkgConfigOnDisk(
      m: Machine, l: Layout, p: Path, argv: seq<string>, envp: seq<string>, depth: nat)
    requires l.Valid() && m.roots == l.Text() && WellFormed(m.tree)
    requires p != [] && Program(m.tree, p) && Parent(p) == BaseBin(l) && GlibcAsked(l, m.tree, envp)
    requires IsPkgConfig(p[|p| - 1])
    ensures Prepared(m, Render(p), argv, envp).Some?
    ensures var e := Prepared(m, Render(p), argv, envp).value;
            && e.envp == Some(Terminated(PkgConfigEnv(m.roots, envp)))
            && KernelExec(m.tree, Reaching(m), e.file, e.Argv(argv), depth) == Runs(p, argv)
  {
    hide *;
    ProgramLives(m.tree, p);
    LivesNormalised(m.tree, p);
    SeesPath(m, p);
    PkgConfigPlanned(m, l, p, argv, envp);
    PreparedByToolchain(m, Render(p), argv, envp);
    ArgvUnchanged(Render(p), Some(Terminated(PkgConfigEnv(m.roots, envp))), argv);
    ProgramRunsAsItIs(m, p);
    ReachesItself(m, Render(p));
    RunsDirectly(m, Reaching(m), Render(p), Render(p), argv, depth);
  }

  lemma PreparedByToolchain(m: Machine, path: string, argv: seq<string>, envp: seq<string>)
    requires m.Target(path) == Some(path) && ToolchainExec(m, path, argv, envp).Some?
    ensures Prepared(m, path, argv, envp) == ToolchainExec(m, path, argv, envp)
  {
  }

  /** Unless glibc is asked for, every program of the base starts as it is. */
  lemma {:induction false} UnaskedStartsAsItIs(
      m: Machine, l: Layout, p: Path, argv: seq<string>, envp: seq<string>)
    requires l.Valid() && m.roots == l.Text() && WellFormed(m.tree) && p != [] && Program(m.tree, p)
    requires !GlibcAsked(l, m.tree, envp)
    ensures Prepared(m, Render(p), argv, envp) == None
  {
    hide *;
    ProgramLives(m.tree, p);
    LivesNormalised(m.tree, p);
    ToolchainIff(m, l, p, argv, envp);
    SeesPath(m, p);
    ProgramStays(m, Render(p), p, argv, envp);
  }

  lemma {:induction false} ProgramStays(m: Machine, path: string, p: Path, argv: seq<string>, envp: seq<string>)
    requires Program(m.tree, p) && m.Target(path) == Some(path) && m.Sees(path) && m.Reaches(path) == Some(p)
    requires ToolchainExec(m, path, argv, envp).None?
    ensures Prepared(m, path, argv, envp) == None
  {
    hide UpToNul;
    ElfIsNoScript(m.tree[p].data);
  }
}
