/** A tree on which two programs are lost to their loader. */
module LoaderWitness {
  import opened Text
  import opened Paths
  import opened FileTree
  import opened Remap
  import opened Shebang
  import opened Elf
  import opened Toolchain
  import opened TinyPrograms
  import opened Exec
  import opened Starting
  import opened OnDisk
  import opened Witnesses

  // Two program files that name glibc's loader, asked for by relative paths.

  const LD := "ld-linux-x86-64.so.2"

  const LD_DIR: Path := ["overlayer", "zexlib", "union", "x86_64-zainium-linux-gnu", "lib"]

  /** Nothing but the directories down to `p`. */
  function Chain(p: Path): Tree {
    if p == [] then map[[] := Dir] else Chain(Parent(p))[p := Dir]
  }

  lemma {:induction false} ChainStands(p: Path)
    requires Normalised(p)
    ensures WellFormed(Chain(p)) && IsDir(Chain(p), []) && IsDir(Chain(p), p)
    ensures forall q :: q in Chain(p) <==> q <= p
    decreases |p|
  {
    if p != [] {
      ChainStands(Parent(p));
      Grown(Chain(Parent(p)), p, Dir);
      assert Parent(p) + [p[|p| - 1]] == p;
      forall q ensures q in Chain(p) <==> q <= p {
        PrefixOf(p, q);
      }
    }
  }

  lemma PrefixOf(p: Path, q: Path)
    requires p != []
    ensures q <= p <==> q <= Parent(p) || q == p
  {
    assert q <= p && |q| == |p| ==> q == p;
  }

  function LoaderTree(): Tree {
    var elf := File(ProgramFile("/lib64/" + LD));
    WithFile(Chain(LD_DIR)[LD_DIR + [LD] := PROGRAM], ["--x"], "prog", elf)[["prog"] := elf]
  }

  lemma LoaderWords()
    ensures Normalised(LD_DIR) && IsName(LD) && IsName("--x") && IsName("prog") && IsName("lib64")
    ensures |"/lib64/" + LD| == 27 && Free("/lib64/" + LD, NUL)
  {
  }

  lemma {:induction false} LoaderTreeStands()
    ensures var t := LoaderTree();
            && WellFormed(t) && t[LD_DIR + [LD]] == PROGRAM && LD_DIR + [LD] in t && ["lib64", LD] !in t
            && ["--x", "prog"] in t && t[["--x", "prog"]] == File(ProgramFile("/lib64/" + LD))
            && ["prog"] in t && t[["prog"]] == File(ProgramFile("/lib64/" + LD))
  {
    hide WellFormed, WithFile, ProgramFile;
    LoaderWords();
    ChainStands(LD_DIR);
    LoaderKeys();
    var ld := LD_DIR + [LD];
    var elf := File(ProgramFile("/lib64/" + LD));
    var t1 := Chain(LD_DIR)[ld := PROGRAM];
    assert Parent(ld) == LD_DIR && !(ld <= LD_DIR);
    Grown(Chain(LD_DIR), ld, PROGRAM);
    assert ["--x"] + ["prog"] == ["--x", "prog"] && Parent(["--x"]) == [] && Parent(["prog"]) == [];
    WithFileStands(t1, ["--x"], "prog", elf);
    Grown(WithFile(t1, ["--x"], "prog", elf), ["prog"], elf);
  }

  lemma LoaderKeys()
    ensures !(["--x"] <= LD_DIR) && !(["prog"] <= LD_DIR) && !(["lib64", LD] <= LD_DIR)
    ensures ["prog"] != ["--x"] && ["lib64", LD] != ["--x", "prog"] && ["lib64", LD] != LD_DIR + [LD]
  {
    assert LD_DIR[0] == "overlayer" && "overlayer"[0] == 'o' && "--x"[0] == '-' && "prog"[0] == 'p' && "lib64"[0] == 'l';
    assert ["--x"][0] == "--x" && ["prog"][0] == "prog" && ["lib64", LD][0] == "lib64" && ["--x", "prog"][0] == "--x";
  }

  ghost predicate Started(m: Machine, path: string, argv: seq<string>, envp: seq<string>) {
    && Prepared(m, path, argv, envp).Some?
    && var e := Prepared(m, path, argv, envp).value;
       && e.Argv(argv) != []
       && LoaderRuns(LooksUpNames(e.file), e.Argv(argv)[1..], None) == Launch(path, CallerArgv(argv, path))
  }

  /** The kernel, were the loader where the file says, would run the program; the rewritten call
      starts it from neither `--x/prog` nor `prog`. */
  lemma {:induction false} OptionAndBareNameLost(argv: seq<string>, envp: seq<string>)
    ensures var m := Machine(LoaderTree(), [], Layout([]).Text());
            && m.Reaches("--x/prog") == Some(["--x", "prog"]) && m.Reaches("prog") == Some(["prog"])
            && Prepared(m, "--x/prog", argv, envp).Some? && !Started(m, "--x/prog", argv, envp)
            && Prepared(m, "prog", argv, envp).Some? && !Started(m, "prog", argv, envp)
  {
    hide *;
    RelativeTexts();
    LoaderTreeStands();
    LostRelative(["--x", "prog"], argv, envp);
    LostRelative(["prog"], argv, envp);
  }

  lemma {:induction false} RelativeTexts()
    ensures RenderRel(["--x", "prog"]) == "--x/prog" && RenderRel(["prog"]) == "prog"
    ensures LastName("--x/prog") == "prog" && LastName("prog") == "prog"
    ensures "--" <= "--x/prog" && Free("prog", '/')
  {
    TwoNames("--x", "prog");
    TwoNames("prog", "");
    LastNameBehind("--x/", "prog");
    assert "--x/" + "prog" == "--x/prog";
    EndIs("prog", IsSlash(), 0);
  }

  lemma {:induction false} LostRelative(p: Path, argv: seq<string>, envp: seq<string>)
    requires p == ["--x", "prog"] || p == ["prog"]
    requires p in LoaderTree() && LoaderTree()[p] == File(ProgramFile("/lib64/" + LD))
    ensures var m := Machine(LoaderTree(), [], Layout([]).Text());
            && m.Reaches(RenderRel(p)) == Some(p)
            && Prepared(m, RenderRel(p), argv, envp).Some? && !Started(m, RenderRel(p), argv, envp)
  {
    hide LoaderTree, LooksUpNames, LoaderRuns, MovedLoader, KernelExec, Prepared, ProgramFile, RunsAsItIs, ToolchainExec, WellFormed;
    var l, q, ld := Layout([]), ["lib64", LD], LD_DIR + [LD];
    var m, path := Machine(LoaderTree(), [], l.Text()), RenderRel(p);
    BaseStands();
    RelativeTexts();
    LoaderTreeStands();
    LoaderWords();
    LdTexts();
    SeesRelative(m, p);
    TinyNames("/lib64/" + LD);
    MovesTo(m, l, path, q, ld);
    NotInBase(m, path, argv, envp);
    LoaderStartsTheProgramIff(m, path, argv, envp, 0, Render(q), Render(ld));
  }

  lemma {:induction false} LdTexts()
    ensures Render(["lib64", LD]) == "/lib64/" + LD && LastName("/lib64/" + LD) == LD && "ld-linux" <= LD
    ensures LoaderPath(Layout([]), LD) == Some(LD_DIR + [LD]) && Normalised(["lib64", LD])
  {
    hide IsName;
    LoaderWords();
    TwoNames("lib64", LD);
    assert "/" + ("lib64" + "/" + LD) == "/lib64/" + LD;
    LastNameOf(["lib64", LD]);
    assert [] + ["overlayer"] + ["zexlib", "union"] + [GNU, "lib", LD] == LD_DIR + [LD];
  }

  lemma {:induction false} MovesTo(m: Machine, l: Layout, path: string, q: Path, ld: Path)
    requires l.Valid() && m.roots == l.Text() && WellFormed(m.tree) && Normalised(q) && q != [] && q !in m.tree
    requires LoaderPath(l, q[|q| - 1]) == Some(ld) && ld in m.tree && m.tree[ld] == PROGRAM
    requires m.Read(path) == Some(ProgramFile("/lib64/" + LD)) && Render(q) == "/lib64/" + LD
    requires Interp(ProgramFile("/lib64/" + LD)) == Some("/lib64/" + LD) && IsElf(ProgramFile("/lib64/" + LD))
    ensures MovedLoader(m, path, Render(q), Render(ld)) && RunsAsItIs(m, Render(ld))
  {
    hide Interp, ProgramFile, LastName, SystemLoader, WellFormed, LoaderPath;
    ProgramIsStatic();
    LoaderText(l, q);
    SeesPath(m, q);
    SeesPath(m, ld);
    ProgramRunsAsItIs(m, ld);
  }

  lemma NotInBase(m: Machine, path: string, argv: seq<string>, envp: seq<string>)
    requires LastName(path) == "prog"
    ensures ToolchainExec(m, path, argv, envp).None?
  {
    assert |"prog"| == 4 && |"pkg-config"| == 10 && |"pkgconf"| == 7 && |"gcc"| == 3 && |"g++"| == 3 && |"cpp"| == 3;
  }
}
