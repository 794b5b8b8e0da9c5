/** Concrete inputs at which the code and its promise part. */
module Witnesses {
  import opened Text
  import opened Utf8
  import opened Paths
  import opened FileTree
  import opened Remap
  import opened Fallback
  import opened Deletion
  import opened Creation
  import opened Kernel
  import opened Elf
  import opened Toolchain
  import opened Exec
  import opened Starting
  import opened PathSearch
  import opened OnDisk
  import opened Reach
  import opened Sockets
  import opened Rendezvous
  import Runs

  lemma {:induction false} NameStep(name: string)
    requires IsName(name)
    ensures Steps(name) == [Normal(name)]
  {
    JoinOne(name, '/');
    StepsOfRelative([name]);
  }

  lemma {:induction false} UpStep()
    ensures Steps("..") == [ParentDir]
  {
    assert IndexOf("..", '/') == 2;
    assert Split("..", '/') == [".."];
    assert [".."][1..] == [];
  }

  /** `/usr/../../home` is in scope and has no doubled slash, yet its first candidate names `/home`. */
  lemma {:induction false} ClimbingEscapes()
    ensures var path := "/usr/../../home";
            && InScope(path) && !DoubledSlash(path)
            && |Candidates(path, Layout([]).Text())| == 4
            && Folded([], Steps(Candidates(path, Layout([]).Text())[0])) == ["home"]
  {
    hide *;
    var path, rel, l := "/usr/../../home", "../../home", Layout([]);
    ClimbingScope();
    ClimbingSteps();
    ClimbingRemainder();
    BaseStands();
    CandidateTexts(l, path, rel);
    RootTexts(l, 0);
    StepsOfJoin(Render(l.Syshub()), rel);
    StepsOfRender(l.Syshub());
    FoldedConcat([], Names(l.Syshub()), Steps(rel));
    FoldedNames([], l.Syshub());
    assert [] + l.Syshub() == l.Syshub();
    FoldsTo(l.Syshub(), "home");
  }

  lemma {:induction false} ClimbingScope()
    ensures var path := "/usr/../../home"; InScope(path) && IsAbsolute(path) && !DoubledSlash(path)
    ensures !IsAbsolute("../../home")
  {
    hide Steps;
    var path := "/usr/../../home";
    assert path[1] == 'u' && path[5] == '.' && "/usr//"[5] == '/' && "/usr/local//"[5] == 'l';
    ClimbingSteps();
    UsrFirst(path, Steps("../../home"));
  }

  lemma UsrFirst(path: string, rest: seq<Component>)
    requires IsAbsolute(path) && Steps(path) == [Normal("usr")] + rest
    ensures InScope(path)
  {
    hide Steps;
    assert Components(path)[1] == Normal("usr");
    assert "usr" in SCOPE by {
      assert SCOPE[3] == "usr";
    }
  }

  lemma CandidateTexts(l: Layout, path: string, rel: string)
    requires IsAbsolute(path) && InScope(path) && StripLegacy(path) == Some(rel)
    ensures Candidates(path, l.Text()) == JoinAll(l.Text().ProbeOrder(), rel)
    ensures |Candidates(path, l.Text())| == 4
    ensures Candidates(path, l.Text())[0] == PathJoin(l.Text().ProbeOrder()[0], rel)
    ensures l.ProbeOrder()[0] == l.Syshub()
  {
  }

  lemma {:induction false} ClimbingRemainder()
    ensures StripLegacy("/usr/../../home") == Some("../../home")
  {
    var path, rel := "/usr/../../home", "../../home";
    hide DropUsr, FoldLib64, Relocate, IsUtf8;
    AsciiIsValid(path);
    assert path[1..] == "usr/" + rel;
    DropsUsr(rel);
    NotMoved(rel);
  }

  lemma DropsUsr(rel: string)
    requires rel != "" && rel[0] != 'l'
    ensures DropUsr("usr/" + rel) == rel
  {
    assert ("usr/" + rel)[4] == rel[0] && ("usr/" + rel)[4..] == rel;
  }

  /** A text that starts with neither letter is neither folded nor moved. */
  lemma NotMoved(s: string)
    requires s != "" && s[0] != 'l' && s[0] != 'b'
    ensures FoldLib64(s) == s && Relocate(s) == s
  {
  }

  lemma FoldsTo(cur: Path, name: string)
    requires |cur| == 2
    ensures Folded(cur, [ParentDir, ParentDir, Normal(name)]) == [name]
  {
    var s := [ParentDir, ParentDir, Normal(name)];
    assert s[1..][1..] == [Normal(name)] && s[1..][1..][1..] == [];
    assert Parent(Parent(cur)) + [name] == [name];
    assert Folded(Parent(Parent(cur)), [Normal(name)]) == Folded(Parent(Parent(cur)) + [name], [Normal(name)][1..]);
  }

  lemma {:induction false} ClimbingSteps()
    ensures Steps("../../home") == [ParentDir, ParentDir, Normal("home")]
    ensures Steps("/usr/../../home") == [Normal("usr")] + Steps("../../home")
  {
    hide Steps;
    UpStep();
    NameStep("home");
    NameStep("usr");
    NoSteps();
    StepsConcat("..", "home");
    assert ".." + "/" + "home" == "../home";
    StepsConcat("..", "../home");
    assert ".." + "/" + "../home" == "../../home";
    StepsConcat("usr", "../../home");
    assert "usr" + "/" + "../../home" == "usr/../../home";
    StepsConcat("", "usr/../../home");
    assert "" + "/" + "usr/../../home" == "/usr/../../home";
  }

  // Small trees below `/` as system root.

  const HUB: Path := ["overlayer", "syshub"]

  const PROGRAM: Node := File("\U{7f}ELF")

  function Base(): Tree {
    map[[] := Dir][["overlayer"] := Dir][HUB := Dir]
  }

  lemma Grown(t: Tree, p: Path, n: Node)
    requires WellFormed(t) && p != [] && Normalised(p) && IsDir(t, Parent(p)) && p !in t
    ensures WellFormed(t[p := n])
  {
  }

  lemma PlainWords()
    ensures IsName("overlayer") && IsName("syshub") && IsName("x86_64-zainium-linux-musl")
    ensures IsName("usr") && IsName("bin") && IsName("share") && IsName("x") && IsName("etc") && IsName("var")
    ensures IsName("a") && IsName("b") && IsName("home") && IsName("sh")
  {
  }

  lemma {:induction false} BaseStands()
    ensures WellFormed(Base()) && Layout([]).Valid() && |HUB| == 2
    ensures Layout([]).Syshub() == HUB && Layout([]).MuslSysdir() == HUB + ["x86_64-zainium-linux-musl"]
  {
    PlainWords();
    var t0: Tree := map[[] := Dir];
    assert WellFormed(t0);
    assert Parent(["overlayer"]) == [] && Parent(HUB) == ["overlayer"];
    Grown(t0, ["overlayer"], Dir);
    Grown(t0[["overlayer"] := Dir], HUB, Dir);
  }

  /** A classic path of two plain names that nothing moves. */
  lemma {:induction false} TwoClassic(a: string, b: string)
    requires IsName(a) && IsName(b) && a in SCOPE && Ascii(a) && Ascii(b)
    ensures Classic([a, b]) && Render([a, b]) == "/" + a + "/" + b
  {
    TwoNames(a, b);
    AsciiIsValid("/" + a + "/" + b);
    assert "/" + (a + "/" + b) == "/" + a + "/" + b;
  }

  lemma PlainStrip(p: Path)
    requires p != [] && p[0] != "usr" && p[0] != "lib64" && p[0] != "lib" && p[0] != "boot"
    ensures StripNames(p) == p
  {
  }

  /** Nothing stands above the last but one name. */
  lemma {:induction false} TopMissing(t: Tree, cwd: Path, a: string, b: string)
    requires WellFormed(t) && IsName(a) && IsName(b) && [a] !in t
    ensures Entry(t, cwd, Render([a, b])) == Missing(ENOENT)
  {
    EntryWalks(t, cwd, [a, b]);
    assert Parent([a, b]) == [a] && Names([a]) == [Normal(a)];
    assert Next([], Normal(a)) == [a];
    assert Namei(t, [], [Normal(a)]) == Namei(t, [a], [Normal(a)][1..]);
  }

  // mkdir: the node made is hidden behind an earlier one.

  function MkdirTree(): Tree {
    Base()[HUB + ["share"] := Dir][HUB + ["x86_64-zainium-linux-musl"] := Dir]
  }

  lemma TopIsMissing(t: Tree, a: string, b: string)
    requires WellFormed(t) && [a] !in t
    ensures [a, b] !in t && !IsDir(t, Parent([a, b])) && !Blocked(t, [a, b])
  {
    assert [a, b][..0] == [] && [a, b][..1] == [a] == Parent([a, b]);
  }

  lemma {:induction false} MkdirTreeStands()
    ensures WellFormed(MkdirTree()) && ["usr"] !in MkdirTree()
    ensures HUB + ["share"] in MkdirTree() && IsDir(MkdirTree(), HUB + ["x86_64-zainium-linux-musl"])
    ensures HUB + ["x86_64-zainium-linux-musl", "share"] !in MkdirTree()
  {
    BaseStands();
    PlainWords();
    assert |"usr"| != |"overlayer"| && |"share"| != |"x86_64-zainium-linux-musl"|;
    Grown(Base(), HUB + ["share"], Dir);
    Grown(Base()[HUB + ["share"] := Dir], HUB + ["x86_64-zainium-linux-musl"], Dir);
  }

  /** `mkdir("/usr/share")` where syshub has a `share` and the musl directory none: it reports
      success, but the name leads to the old one. */
  lemma {:induction false} MkdirHides()
    ensures var l, t, p := Layout([]), MkdirTree(), ["usr", "share"];
            var made := HUB + ["x86_64-zainium-linux-musl", "share"];
            var o := Redirected(Mkdir([]), Negative(), t, Render(p), l.Text());
            && Render(p) == "/usr/share" && o == Outcome(0, t[made := Dir], 0)
            && ExistingTarget(o.tree, Render(p), l.Text()) == Some(Render(HUB + ["share"]))
  {
    hide *;
    var l, t, p := Layout([]), MkdirTree(), ["usr", "share"];
    var made := HUB + ["x86_64-zainium-linux-musl", "share"];
    BaseStands();
    MkdirTreeStands();
    PlainWords();
    UsrShare();
    TopIsMissing(t, "usr", "share");
    MkdirExact(l, t, p, []);
    ShareCandidates();
    FirstVacant(t, CandidatePaths(l, p), made);
    MadeTree(t, made);
    FoundIff(l, t[made := Dir], p, 0);
  }

  lemma FirstVacant(t: Tree, cands: seq<Path>, made: Path)
    requires |cands| == 4 && cands[0] in t && cands[1] == made && IsDir(t, Parent(made)) && made !in t
    ensures Find(cands, Vacant(t)) == Some(made)
  {
    assert !Vacant(t)(cands[0]) && Vacant(t)(cands[1]);
    SecondOf(cands, Vacant(t));
  }

  lemma SecondOf(cands: seq<Path>, p: Path -> bool)
    requires |cands| >= 2 && !p(cands[0]) && p(cands[1])
    ensures Find(cands, p) == Some(cands[1])
  {
    hide First;
    FirstIs(cands, p, 1);
  }

  lemma MadeTree(t: Tree, made: Path)
    requires WellFormed(t) && made != [] && Normalised(made) && IsDir(t, Parent(made)) && made !in t
    ensures WellFormed(t[made := Dir])
  {
    Grown(t, made, Dir);
  }

  lemma {:induction false} UsrShare()
    ensures Classic(["usr", "share"]) && Render(["usr", "share"]) == "/usr/share"
  {
    PlainWords();
    assert "usr" in SCOPE by {
      assert SCOPE[3] == "usr";
    }
    TwoClassic("usr", "share");
    assert "/" + "usr" + "/" + "share" == "/usr/share";
  }

  lemma {:induction false} ShareCandidates()
    ensures var c := CandidatePaths(Layout([]), ["usr", "share"]);
            && c[0] == HUB + ["share"] && Parent(c[0]) == HUB
            && |c| == 4 && c[1] == HUB + ["x86_64-zainium-linux-musl", "share"] && Normalised(c[1]) && c[1] != []
            && Parent(c[1]) == HUB + ["x86_64-zainium-linux-musl"]
  {
    BaseStands();
    PlainWords();
    DisplacedIff(["share"]);
    assert |"share"| != |"local"| || "share"[0] != "local"[0];
    assert ["usr"] + ["share"] == ["usr", "share"];
    assert |"lib64"| == 5 && "share"[0] == 's' && "lib64"[0] == 'l' && |"boot"| == 4 && |"lib"| == 3;
  }

  // rename: the file asked for is left behind, and a file of the base is taken.

  /** `dir/a` below an existing directory. */
  function WithFile(t: Tree, dir: Path, name: string, n: Node): Tree {
    t[dir := Dir][dir + [name] := n]
  }

  lemma {:induction false} WithFileStands(t: Tree, dir: Path, name: string, n: Node)
    requires WellFormed(t) && dir != [] && Normalised(dir) && IsDir(t, Parent(dir)) && dir !in t && IsName(name)
    ensures WellFormed(WithFile(t, dir, name, n)) && IsDir(WithFile(t, dir, name, n), dir)
    ensures forall p :: p in WithFile(t, dir, name, n) <==> p in t || p == dir || p == dir + [name]
    ensures forall p :: p in t && p != dir + [name] ==> WithFile(t, dir, name, n)[p] == t[p]
    ensures WithFile(t, dir, name, n)[dir + [name]] == n
  {
    Grown(t, dir, Dir);
    assert Parent(dir + [name]) == dir;
    if dir + [name] in t {
      AboveExists(t, dir + [name], dir);
    }
    Grown(t[dir := Dir], dir + [name], n);
  }

  function EtcTree(): Tree {
    WithFile(Base(), ["etc"], "a", File("1"))
  }

  function BothTree(): Tree {
    WithFile(EtcTree(), HUB + ["etc"], "a", File("2"))
  }

  function RenameTree(): Tree {
    BothTree()[HUB + ["var"] := Dir]
  }

  lemma EtcIsNotVar()
    ensures "etc" != "var" && ["etc"] != ["var"] && ["etc"] != ["overlayer"] && ["var"] != ["overlayer"]
  {
    assert "etc"[0] == 'e' && "var"[0] == 'v' && "overlayer"[0] == 'o';
    assert ["etc"][0] == "etc" && ["var"][0] == "var" && ["overlayer"][0] == "overlayer";
  }

  lemma {:induction false} EtcTreeStands()
    ensures WellFormed(EtcTree()) && ["etc", "a"] in EtcTree() && IsDir(EtcTree(), HUB)
    ensures forall p :: p in EtcTree() ==> p == [] || p[0] != "var"
    ensures forall p :: p in EtcTree() ==> |p| <= 2
  {
    hide WellFormed, WithFile;
    BaseStands();
    PlainWords();
    EtcIsNotVar();
    BaseKeys();
    WithFileStands(Base(), ["etc"], "a", File("1"));
    assert ["etc"] + ["a"] == ["etc", "a"];
  }

  lemma {:induction false} BothTreeStands()
    ensures WellFormed(BothTree()) && ["etc", "a"] in BothTree() && HUB + ["etc", "a"] in BothTree()
    ensures IsDir(BothTree(), HUB) && ["var"] !in BothTree()
    ensures forall p :: p in BothTree() && |p| > 2 ==> p[2] != "var"
  {
    hide WellFormed, WithFile, EtcTree;
    PlainWords();
    EtcIsNotVar();
    EtcTreeStands();
    assert Parent(HUB + ["etc"]) == HUB && (HUB + ["etc"])[2] == "etc";
    assert HUB + ["etc"] + ["a"] == HUB + ["etc", "a"] && (HUB + ["etc", "a"])[2] == "etc";
    WithFileStands(EtcTree(), HUB + ["etc"], "a", File("2"));
  }

  lemma {:induction false} RenameTreeStands()
    ensures WellFormed(RenameTree())
    ensures ["etc", "a"] in RenameTree() && HUB + ["etc", "a"] in RenameTree() && IsDir(RenameTree(), HUB + ["var"])
    ensures ["var"] !in RenameTree() && HUB + ["var", "b"] !in RenameTree()
  {
    hide WellFormed, BothTree;
    PlainWords();
    BothTreeStands();
    assert (HUB + ["var"])[2] == "var" && (HUB + ["var", "b"])[2] == "var" && Parent(HUB + ["var"]) == HUB;
    Grown(BothTree(), HUB + ["var"], Dir);
  }

  lemma BaseKeys()
    ensures forall p :: p in Base() <==> p == [] || p == ["overlayer"] || p == HUB
    ensures IsDir(Base(), []) && IsDir(Base(), HUB) && Parent(["etc"]) == []
  {
  }

  lemma {:induction false} EtcAndVar()
    ensures Classic(["etc", "a"]) && Render(["etc", "a"]) == "/etc/a"
    ensures Classic(["var", "b"]) && Render(["var", "b"]) == "/var/b"
    ensures CandidatePaths(Layout([]), ["etc", "a"])[0] == HUB + ["etc", "a"]
    ensures CandidatePaths(Layout([]), ["var", "b"])[0] == HUB + ["var", "b"]
    ensures Parent(HUB + ["var", "b"]) == HUB + ["var"]
  {
    hide Classic, Render, StripNames;
    PlainWords();
    BaseStands();
    assert "etc" in SCOPE && "var" in SCOPE by {
      assert SCOPE[6] == "etc" && SCOPE[5] == "var";
    }
    TwoClassic("etc", "a");
    TwoClassic("var", "b");
    assert "/" + "etc" + "/" + "a" == "/etc/a" && "/" + "var" + "/" + "b" == "/var/b";
    assert "etc"[0] == 'e' && "var"[0] == 'v' && "usr"[0] == 'u' && "lib"[0] == 'l' && "lib64"[0] == 'l' && "boot"[0] == 'b';
    PlainStrip(["etc", "a"]);
    PlainStrip(["var", "b"]);
  }

  lemma NoChildren(t: Tree, p: Path)
    requires WellFormed(t) && p !in t
    ensures !HasChildren(t, p)
  {
  }

  lemma RenameMissing(t: Tree, cwd: Path, from: string, to: string)
    requires Entry(t, cwd, from).At? && Entry(t, cwd, to) == Missing(ENOENT)
    ensures Rename(cwd)(t, from, to) == Outcome(-1, t, ENOENT)
  {
  }

  lemma ExistingEntry(t: Tree, cwd: Path, p: Path)
    requires WellFormed(t) && p in t && p != []
    ensures Entry(t, cwd, Render(p)) == At(p)
  {
    EntryOfRender(t, cwd, p);
  }

  lemma EntryMoves(t: Tree, src: Path, dst: Path)
    requires src != [] && !(src <= dst) && !HasChildren(t, dst) && dst !in t
    ensures RenameEntry(t, src, dst).value == 0
  {
  }

  lemma FirstOf(cands: seq<Path>, p: Path -> bool)
    requires cands != [] && p(cands[0])
    ensures Find(cands, p) == Some(cands[0])
  {
    FirstIs(cands, p, 0);
  }

  lemma EndsOf(l: Layout, t: Tree, from: Path, to: Path, src: Path, dst: Path)
    requires Classic(from) && Find(CandidatePaths(l, from), In(t)) == Some(src)
    requires Find(CandidatePaths(l, to), HasHome(t)) == Some(dst)
    ensures Source(l, t, from) == src && Destination(l, t, to) == dst
  {
  }

  /** `rename("/etc/a", "/var/b")` where `/etc/a` exists, `/var` does not, and syshub has both:
      it reports success, `/etc/a` is still there, and syshub's file is gone. */
  lemma {:induction false} RenameLeavesBehind()
    ensures var l, t := Layout([]), RenameTree();
            var o := TwoPathsOutcome(Rename([]), t, "/etc/a", "/var/b", true, l.Text());
            && o.value == 0 && ["etc", "a"] in t && ["etc", "a"] in o.tree && o.tree[["etc", "a"]] == t[["etc", "a"]]
            && HUB + ["etc", "a"] in t && HUB + ["etc", "a"] !in o.tree
  {
    hide *;
    var l, t, from, to := Layout([]), RenameTree(), ["etc", "a"], ["var", "b"];
    var src, dst := HUB + ["etc", "a"], HUB + ["var", "b"];
    BaseStands();
    PlainWords();
    RenameTreeStands();
    EtcAndVar();
    ClassicNames(from);
    ExistingEntry(t, [], from);
    TopMissing(t, [], "var", "b");
    RenameMissing(t, [], Render(from), Render(to));
    HomeOf(t, dst);
    FirstOf(CandidatePaths(l, from), In(t));
    FirstOf(CandidatePaths(l, to), HasHome(t));
    EndsOf(l, t, from, to, src, dst);
    RenameExact(l, t, [], from, to);
    NoChildren(t, dst);
    HubEnds();
    EntryMoves(t, src, dst);
    RenameKeepsIff(t, src, dst, from);
    MovedAway(t, src, dst);
  }

  lemma ClassicNames(p: Path)
    requires Classic(p)
    ensures Normalised(p)
  {
  }

  lemma HomeOf(t: Tree, dst: Path)
    requires IsDir(t, Parent(dst))
    ensures HasHome(t)(dst)
    ensures forall p :: p in t ==> In(t)(p)
  {
  }

  lemma HubEnds()
    ensures var src, dst := HUB + ["etc", "a"], HUB + ["var", "b"];
            src != [] && src != dst && !(src <= dst) && !(src <= ["etc", "a"]) && dst != ["etc", "a"]
            && Parent(dst) == HUB + ["var"]
    ensures |CandidatePaths(Layout([]), ["etc", "a"])| == 4 && |CandidatePaths(Layout([]), ["var", "b"])| == 4
  {
    assert "etc"[0] == 'e' && "var"[0] == 'v';
    assert (HUB + ["etc", "a"])[2] == "etc" && (HUB + ["var", "b"])[2] == "var";
  }

  lemma MovedAway(t: Tree, src: Path, dst: Path)
    requires WellFormed(t) && src in t && dst !in t && src != dst && RenameEntry(t, src, dst).value == 0
    ensures src !in RenameEntry(t, src, dst).tree
  {
    if src in Relocated(t, src, dst) {
      RelocatedKeys(t, src, dst, src);
      AboveExists(t, src, dst);
    }
  }

  lemma AboveExists(t: Tree, p: Path, above: Path)
    requires WellFormed(t) && p in t && above <= p
    ensures above in t
  {
    if above < p {
      AncestorsAreDirs(t, p, |above|);
      assert p[..|above|] == above;
    } else {
      assert above == p;
    }
  }

  // A rename of a file of the base.

  function GuardedTree(): Tree {
    WithFile(Base(), HUB + ["bin"], "sh", PROGRAM)[["home"] := Dir]
  }

  lemma {:induction false} GuardedTreeStands()
    ensures WellFormed(GuardedTree()) && HUB + ["bin", "sh"] in GuardedTree() && IsDir(GuardedTree(), ["home"])
    ensures ["home", "sh"] !in GuardedTree() && Layout([]).Union() + ["bin", "sh"] !in GuardedTree()
  {
    hide WellFormed, WithFile;
    BaseStands();
    PlainWords();
    BaseKeys();
    assert Parent(HUB + ["bin"]) == HUB && HUB + ["bin"] + ["sh"] == HUB + ["bin", "sh"] && Parent(["home"]) == [];
    WithFileStands(Base(), HUB + ["bin"], "sh", PROGRAM);
    assert "home"[0] == 'h' && "overlayer"[0] == 'o' && ["home"][0] == "home" && ["home", "sh"][0] == "home";
    Grown(WithFile(Base(), HUB + ["bin"], "sh", PROGRAM), ["home"], Dir);
    assert |Layout([]).Union() + ["bin", "sh"]| == 5;
  }

  /** `rename("/overlayer/syshub/bin/sh", "/home/sh")`: the guard covers the file, and it is gone. */
  lemma {:induction false} RenameTakesGuarded()
    ensures var l, t, src, dst := Layout([]), GuardedTree(), HUB + ["bin", "sh"], ["home", "sh"];
            var e := Runs.Move([], Render(src), Render(dst));
            && Render(src) == "/overlayer/syshub/bin/sh" && Render(dst) == "/home/sh"
            && src in t && Guarded(l, t, src) && Runs.Moves(l, t, e, src) && src !in Runs.After(l, t, e)
  {
    hide Rename, GuardedTree, WellFormed, RenameEntry, Render;
    var l, t, src, dst := Layout([]), GuardedTree(), HUB + ["bin", "sh"], ["home", "sh"];
    BaseStands();
    PlainWords();
    GuardedTreeStands();
    GuardedTexts();
    assert "bin" != "var" && "bin" != "etc" && src[2..] == ["bin", "sh"];
    assert src[0] == "overlayer" && dst[0] == "home" && |"overlayer"| != |"home"| && Parent(dst) == ["home"];
    RenameByPaths(t, [], src, dst);
    NoChildren(t, dst);
    EntryMoves(t, src, dst);
    MovedAway(t, src, dst);
    Runs.MoveKeepsIff(l, t, [], Render(src), Render(dst), src);
  }

  lemma {:induction false} GuardedTexts()
    ensures Render(HUB + ["bin", "sh"]) == "/overlayer/syshub/bin/sh" && Render(["home", "sh"]) == "/home/sh"
  {
    TwoNames("home", "sh");
    TwoNames("bin", "sh");
    JoinCons("syshub", ["bin", "sh"], '/');
    JoinCons("overlayer", ["syshub", "bin", "sh"], '/');
    assert ["syshub"] + ["bin", "sh"] == ["syshub", "bin", "sh"];
    assert ["overlayer"] + ["syshub", "bin", "sh"] == HUB + ["bin", "sh"];
  }

  // The audit: a file in the place of the musl directory is in none of the four walks.

  lemma {:induction false} MuslFileUncounted()
    ensures var l, t := Layout([]), Base()[HUB + ["x86_64-zainium-linux-musl"] := File("")];
            && WellFormed(t) && AllFiles(t, l) == {l.MuslSysdir()}
            && |WalkFiles(t, l.Syshub(), Some(l.MuslSysdir()))| + |WalkFiles(t, l.MuslSysdir(), None)|
               + |WalkFiles(t, l.Union(), None)| + |WalkFiles(t, l.Zaisys(), None)| == 0
  {
    var l, t, m := Layout([]), Base()[HUB + ["x86_64-zainium-linux-musl"] := File("")], HUB + ["x86_64-zainium-linux-musl"];
    BaseStands();
    PlainWords();
    BaseKeys();
    Grown(Base(), m, File(""));
    assert Parent(m) == HUB;
    assert forall p :: p in t && t[p] != Dir <==> p == m;
    assert m[1] == "syshub" && l.Union()[1] == "zexlib" && l.Zaisys()[1] == "zaisys";
    assert "syshub"[0] == 's' && "zexlib"[0] == 'z' && "zaisys"[0] == 'z';
    assert !(l.Union() < m) && !(l.Zaisys() < m) && l.Syshub() < m;
    assert AllFiles(t, l) == {m};
    WalksPartition(t, l);
  }

  // posix_spawnp: a name below a file, with a candidate.

  function LostTree(): Tree {
    WithFile(Base(), HUB + ["bin"], "x", PROGRAM)[["usr"] := File("")]
  }

  lemma {:induction false} LostTreeStands()
    ensures WellFormed(LostTree()) && Program(LostTree(), HUB + ["bin", "x"])
    ensures ["usr"] in LostTree() && LostTree()[["usr"]] != Dir && ["usr", "bin", "x"] !in LostTree()
  {
    hide WellFormed, WithFile;
    BaseStands();
    PlainWords();
    BaseKeys();
    ProgramIsStatic();
    assert Parent(HUB + ["bin"]) == HUB && HUB + ["bin"] + ["x"] == HUB + ["bin", "x"] && Parent(["usr"]) == [];
    WithFileStands(Base(), HUB + ["bin"], "x", PROGRAM);
    assert "usr"[0] == 'u' && "overlayer"[0] == 'o' && ["usr"][0] == "usr" && ["usr", "bin", "x"][0] == "usr";
    Grown(WithFile(Base(), HUB + ["bin"], "x", PROGRAM), ["usr"], File(""));
  }

  lemma ProgramIsStatic()
    ensures IsElf(PROGRAM.data) && Interp(PROGRAM.data) == None
  {
  }

  lemma {:induction false} UsrBinX()
    ensures var p := ["usr", "bin", "x"];
            Classic(p) && Render(p) == "/usr/bin/x" && CandidatePaths(Layout([]), p)[0] == HUB + ["bin", "x"]
    ensures NamesOnPath(Some("/usr/bin"), "x") == ["/usr/bin/x"] && Free("x", '/')
  {
    hide *;
    UsrBinXText();
    UsrBinXCandidate();
    UsrBinXOnPath();
  }

  lemma {:induction false} UsrBinXText()
    ensures Classic(["usr", "bin", "x"]) && Render(["usr", "bin", "x"]) == "/usr/bin/x"
  {
    hide IsUtf8, IsName;
    PlainWords();
    TwoNames("bin", "x");
    JoinCons("usr", ["bin", "x"], '/');
    assert ["usr"] + ["bin", "x"] == ["usr", "bin", "x"];
    assert "/" + ("usr" + ['/'] + ("bin" + "/" + "x")) == "/usr/bin/x";
    AsciiIsValid("/usr/bin/x");
    assert "usr" in SCOPE by {
      assert SCOPE[3] == "usr";
    }
  }

  lemma {:induction false} UsrBinXCandidate()
    ensures CandidatePaths(Layout([]), ["usr", "bin", "x"])[0] == HUB + ["bin", "x"]
  {
    hide StripNames;
    BaseStands();
    assert ["usr"] + ["bin", "x"] == ["usr", "bin", "x"];
    assert "bin"[0] == 'b' && |"bin"| == 3 && |"boot"| == 4 && "local"[0] == 'l' && "lib"[0] == 'l' && "lib64"[0] == 'l';
    DisplacedIff(["bin", "x"]);
  }

  lemma UsrBinXOnPath()
    ensures NamesOnPath(Some("/usr/bin"), "x") == ["/usr/bin/x"] && Free("x", '/')
  {
    hide NamesOnPath;
    assert "/usr/bin" + "/" + "x" == "/usr/bin/x";
    SingleDir("/usr/bin", "x");
  }

  /** `PATH=/usr/bin`, `/usr` a file, `x` in syshub: `execvpe("x")` starts it, `posix_spawnp` does not. */
  lemma {:induction false} LostOnPath(argv: seq<string>, envp: seq<string>, x: string -> bool, errno: int)
    ensures var m := Machine(LostTree(), [], Layout([]).Text());
            && AllRun(m, NamesOnPath(Some("/usr/bin"), "x"), argv, envp, x)
            && ExecvpeRun(Some("/usr/bin"), "x", errno, Attempt(m, argv, envp)).Runs?
            && !HooksAgree(m, Some("/usr/bin"), "x", argv, envp, x, errno)
  {
    hide *;
    var l, p, c := Layout([]), ["usr", "bin", "x"], HUB + ["bin", "x"];
    var m := Machine(LostTree(), [], l.Text());
    BaseStands();
    LostTreeStands();
    UsrBinX();
    ProgramLives(m.tree, c);
    LivingOf(m.tree, c);
    FirstOf(CandidatePaths(l, p), Living(m.tree));
    DeadOf(m.tree, p);
    PlainProgram();
    assert p[..1] == ["usr"];
    ProgramOnDisk(m, l, p, c, argv, envp);
    LostHere(m, l, p, c);
    RunsAlone(m, Render(p), c, argv, envp, x);
    LostStarts(m, "/usr/bin", "x", argv, envp, x, errno);
  }

  lemma LivingOf(t: Tree, c: Path)
    requires Lives(t, c)
    ensures Living(t)(c)
  {
  }

  lemma DeadOf(t: Tree, p: Path)
    requires p !in t
    ensures !Lives(t, p)
  {
  }

  lemma PlainProgram()
    ensures var c := HUB + ["bin", "x"];
            c[|c| - 1] == "x" && GnuDriver("x").None? && "x" != "pkg-config" && "x" != "pkgconf"
    ensures Joined("/usr/bin", "x") == "/usr/bin/x"
  {
    assert |"x"| == 1 && |"gcc"| == 3 && |"cc"| == 2 && |"pkg-config"| == 10 && |"pkgconf"| == 7;
  }

  lemma {:induction false} LostHere(m: Machine, l: Layout, p: Path, c: Path)
    requires l.Valid() && m.roots == l.Text() && WellFormed(m.tree) && Classic(p)
    requires |p| > 1 && p[..1] in m.tree && m.tree[p[..1]] != Dir
    requires Lives(m.tree, c) && CandidatePaths(l, p)[0] == c
    ensures Lost(m, Render(p))
  {
    hide Lost, CandidatePaths, WellFormed, Classic, Lives;
    LostIff(m, l, p);
  }

  lemma RunsAlone(m: Machine, c: string, image: Path, argv: seq<string>, envp: seq<string>, x: string -> bool)
    requires !m.Sees(c) && Attempt(m, argv, envp)(c) == Runs(image, argv)
    ensures AllRun(m, [c], argv, envp, x)
  {
  }

  lemma {:induction false} LostStarts(m: Machine, dir: string, file: string, argv: seq<string>, envp: seq<string>,
                                      x: string -> bool, errno: int)
    requires file != "" && Free(file, '/') && NamesOnPath(Some(dir), file) == [Joined(dir, file)]
    requires AllRun(m, [Joined(dir, file)], argv, envp, x) && Lost(m, Joined(dir, file))
    ensures ExecvpeRun(Some(dir), file, errno, Attempt(m, argv, envp)).Runs?
    ensures !HooksAgree(m, Some(dir), file, argv, envp, x, errno)
  {
    hide Searched, SpawnedFrom, Lost, NamesOnPath, Attempt, AllRun;
    LostDiffers(m, Joined(dir, file), argv, envp, x, errno);
    LostTellsApart(m, dir, file, argv, envp, x, errno);
  }

  // Spellings.

  /** `/usr//x`: every candidate is `/x`. */
  lemma {:induction false} DoubledSlashEscapes()
    ensures var path := "/usr//x"; InScope(path) && DoubledSlash(path)
    ensures |Candidates("/usr//x", Layout([]).Text())| == 4 && Candidates("/usr//x", Layout([]).Text())[0] == "/x"
  {
    hide *;
    var path, l := "/usr//x", Layout([]);
    DoubledScope();
    DoubledRemainder();
    CandidateTexts(l, path, "/x");
    JoinForgets(l.Text().ProbeOrder()[0]);
  }

  lemma JoinForgets(base: string)
    ensures PathJoin(base, "/x") == "/x"
  {
  }

  lemma {:induction false} DoubledScope()
    ensures var path := "/usr//x"; IsAbsolute(path) && InScope(path) && DoubledSlash(path)
  {
    hide Steps;
    NoSteps();
    PlainWords();
    NameStep("usr");
    StepsConcat("usr", "/x");
    StepsConcat("", "usr//x");
    assert "usr" + "/" + "/x" == "usr//x" && "" + "/" + "usr//x" == "/usr//x";
    UsrFirst("/usr//x", Steps("/x"));
  }

  lemma {:induction false} DoubledRemainder()
    ensures StripLegacy("/usr//x") == Some("/x")
  {
    hide DropUsr, FoldLib64, Relocate, IsUtf8;
    AsciiIsValid("/usr//x");
    assert "/usr//x"[1..] == "usr/" + "/x";
    DropsUsr("/x");
    NotMoved("/x");
  }

  /** `/lib64/x` has no candidates, `/usr/lib64/x` leads to `lib/x`. */
  lemma {:induction false} Lib64Unscoped()
    ensures Render(["lib64", "x"]) == "/lib64/x" && Candidates("/lib64/x", Layout([]).Text()) == []
    ensures Candidates("/usr/lib64/x", Layout([]).Text()) != []
    ensures Candidates("/usr/lib64/x", Layout([]).Text())[0] == "/overlayer/syshub/lib/x"
  {
    hide *;
    var l, p := Layout([]), ["usr", "lib64", "x"];
    BaseStands();
    Lib64Texts();
    NoCandidatesIff(l, ["lib64", "x"]);
    CandidatesAgree(l, p);
    Lib64Folds();
  }

  lemma {:induction false} Lib64Texts()
    ensures Normalised(["lib64", "x"]) && Render(["lib64", "x"]) == "/lib64/x" && ["lib64", "x"][0] !in SCOPE
    ensures Classic(["usr", "lib64", "x"]) && Render(["usr", "lib64", "x"]) == "/usr/lib64/x"
    ensures Render(HUB + ["lib", "x"]) == "/overlayer/syshub/lib/x"
  {
    hide IsUtf8, IsName, RenderRel;
    PlainWords();
    LibWords();
    HubLibText();
    TwoNames("lib64", "x");
    JoinCons("usr", ["lib64", "x"], '/');
    assert ["usr"] + ["lib64", "x"] == ["usr", "lib64", "x"];
    RenderCons("usr", ["lib64", "x"]);
    assert "/" + ("usr" + "/" + ("lib64" + "/" + "x")) == "/usr/lib64/x";
    AsciiIsValid("/usr/lib64/x");
  }

  lemma RenderCons(name: string, p: Path)
    requires p != []
    ensures RenderRel([name] + p) == name + "/" + RenderRel(p)
  {
    JoinCons(name, p, '/');
  }

  lemma {:induction false} HubLibText()
    ensures Render(HUB + ["lib", "x"]) == "/overlayer/syshub/lib/x"
  {
    hide RenderRel;
    TwoNames("lib", "x");
    RenderCons("syshub", ["lib", "x"]);
    RenderCons("overlayer", ["syshub"] + ["lib", "x"]);
    assert ["overlayer"] + (["syshub"] + ["lib", "x"]) == HUB + ["lib", "x"];
    assert "/" + ("overlayer" + "/" + ("syshub" + "/" + ("lib" + "/" + "x"))) == "/overlayer/syshub/lib/x";
  }

  lemma LibWords()
    ensures IsName("lib64") && IsName("lib") && "lib64" !in SCOPE && "usr" in SCOPE
  {
    assert SCOPE[3] == "usr" && |"lib64"| == 5;
    assert forall i :: 0 <= i < |SCOPE| ==> |SCOPE[i]| != 5;
  }

  lemma {:induction false} Lib64Folds()
    ensures CandidatePaths(Layout([]), ["usr", "lib64", "x"])[0] == HUB + ["lib", "x"]
  {
    BaseStands();
    var p := ["usr", "lib64", "x"];
    assert p[1..] == ["lib64", "x"] && |"lib64"| == 5 && "local"[1] == 'o' && "lib64"[1] == 'i';
    assert DropUsrNames(p) == ["lib64", "x"];
    assert ["lib64"] <= ["lib64", "x"] && ["lib64", "x"][1..] == ["x"] && ["lib"] + ["x"] == ["lib", "x"];
    assert FoldLib64Names(["lib64", "x"]) == ["lib", "x"];
    assert "x"[0] == 'x' && "modules"[0] == 'm' && "firmware"[0] == 'f' && ["lib", "x"][1] == "x";
    assert "lib"[0] == 'l' && "boot"[0] == 'b' && ["lib", "x"][0] == "lib";
    assert RelocateNames(["lib", "x"]) == ["lib", "x"];
  }

  // A new name that is shadowed by what stands there already.

  function OldTree(): Tree {
    WithFile(Base(), ["var"], "b", File("old"))
  }

  function BothFiles(): Tree {
    WithFile(OldTree(), HUB + ["etc"], "a", File("new"))
  }

  function ShadowTree(): Tree {
    BothFiles()[HUB + ["var"] := Dir]
  }

  lemma {:induction false} OldTreeStands()
    ensures WellFormed(OldTree()) && IsDir(OldTree(), HUB)
    ensures ["var", "b"] in OldTree() && OldTree()[["var", "b"]] == File("old")
    ensures forall p :: p in OldTree() ==> |p| <= 2 && (p == [] || p[0] != "etc")
  {
    hide WellFormed, WithFile;
    BaseStands();
    PlainWords();
    EtcIsNotVar();
    BaseKeys();
    assert Parent(["var"]) == [] && ["var"] + ["b"] == ["var", "b"];
    WithFileStands(Base(), ["var"], "b", File("old"));
  }

  lemma {:induction false} BothFilesStand()
    ensures WellFormed(BothFiles()) && ["etc"] !in BothFiles() && IsDir(BothFiles(), HUB)
    ensures ["var", "b"] in BothFiles() && BothFiles()[["var", "b"]] == File("old")
    ensures HUB + ["etc", "a"] in BothFiles() && BothFiles()[HUB + ["etc", "a"]] == File("new")
    ensures forall p :: p in BothFiles() && |p| > 2 ==> p[2] != "var"
  {
    hide WellFormed, WithFile, OldTree;
    PlainWords();
    EtcIsNotVar();
    OldTreeStands();
    assert Parent(HUB + ["etc"]) == HUB && HUB + ["etc"] + ["a"] == HUB + ["etc", "a"];
    assert (HUB + ["etc"])[2] == "etc" && (HUB + ["etc", "a"])[2] == "etc" && ["etc"][0] == "etc";
    WithFileStands(OldTree(), HUB + ["etc"], "a", File("new"));
  }

  lemma {:induction false} ShadowTreeStands()
    ensures WellFormed(ShadowTree()) && ["etc"] !in ShadowTree()
    ensures ["var", "b"] in ShadowTree() && ShadowTree()[["var", "b"]] == File("old")
    ensures HUB + ["etc", "a"] in ShadowTree() && ShadowTree()[HUB + ["etc", "a"]] == File("new")
    ensures IsDir(ShadowTree(), HUB + ["var"]) && HUB + ["var", "b"] !in ShadowTree()
  {
    hide WellFormed, BothFiles;
    PlainWords();
    EtcIsNotVar();
    BothFilesStand();
    assert (HUB + ["var"])[2] == "var" && (HUB + ["var", "b"])[2] == "var" && Parent(HUB + ["var"]) == HUB;
    assert (HUB + ["etc", "a"])[2] == "etc" && |HUB + ["var"]| == 3;
    Grown(BothFiles(), HUB + ["var"], Dir);
  }

  lemma NotThere(t: Tree, cwd: Path, from: string, to: string)
    requires Entry(t, cwd, from) == Missing(ENOENT)
    ensures Rename(cwd)(t, from, to) == Outcome(-1, t, ENOENT)
  {
  }

  lemma FilesLive(t: Tree, p: Path)
    requires p in t && t[p].File?
    ensures Lives(t, p)
  {
  }

  /** `rename("/etc/a", "/var/b")` where `/var/b` exists, and `etc/a` and `var` in syshub only: it
      reports success, but every lookup of `/var/b` still answers for the old file. */
  lemma {:induction false} NewNameShadowed<T>(g: Call<T>, failed: T -> bool, cwd: Path)
    requires Answers(g, failed, cwd)
    ensures var l, t := Layout([]), ShadowTree();
            var o := TwoPathsOutcome(Rename([]), t, "/etc/a", "/var/b", true, l.Text());
            && o.value == 0 && ["var", "b"] in o.tree && o.tree[["var", "b"]] == File("old")
            && Redirected(g, failed, o.tree, "/var/b", l.Text()) == g(o.tree, "/var/b")
  {
    hide *;
    var l, t, from, to := Layout([]), ShadowTree(), ["etc", "a"], ["var", "b"];
    var src, dst := HUB + ["etc", "a"], HUB + ["var", "b"];
    BaseStands();
    PlainWords();
    ShadowTreeStands();
    EtcAndVar();
    ClassicNames(from);
    ClassicNames(to);
    TopMissing(t, [], "etc", "a");
    NotThere(t, [], Render(from), Render(to));
    HomeOf(t, dst);
    HubEnds();
    FirstOf(CandidatePaths(l, from), In(t));
    FirstOf(CandidatePaths(l, to), HasHome(t));
    EndsOf(l, t, from, to, src, dst);
    RenameExact(l, t, [], from, to);
    NoChildren(t, dst);
    EntryMoves(t, src, dst);
    HubIsNotVar();
    RenameKeepsIff(t, src, dst, to);
    RenameEntryPlaces(t, src, dst);
    StillWellFormed(t, src, dst);
    var t' := RenameEntry(t, src, dst).tree;
    FilesLive(t', to);
    LookupOfLiving(g, failed, cwd, t', to, l);
  }

  lemma HubIsNotVar()
    ensures !(HUB + ["etc", "a"] <= ["var", "b"]) && HUB + ["var", "b"] != ["var", "b"]
    ensures HUB + ["var", "b"] != [] && Normalised(HUB + ["var", "b"])
  {
    PlainWords();
    assert |HUB + ["etc", "a"]| == 4 && |HUB + ["var", "b"]| == 4;
  }

  lemma StillWellFormed(t: Tree, src: Path, dst: Path)
    requires Placed(t, RenameEntry(t, src, dst).tree, dst)
    ensures WellFormed(RenameEntry(t, src, dst).tree)
  {
  }

  lemma {:induction false} LookupOfLiving<T>(g: Call<T>, failed: T -> bool, cwd: Path, t: Tree, p: Path, l: Layout)
    requires l.Valid() && WellFormed(t) && Normalised(p) && Lives(t, p) && Answers(g, failed, cwd)
    ensures Redirected(g, failed, t, Render(p), l.Text()) == g(t, Render(p))
  {
    hide Redirected;
    LookupOfRender(t, cwd, p);
    FallbackRefinesResolve(l, g, failed, cwd, t, Render(p));
  }

  // A socket address whose length ends the path.

  function CutAddress(): SockAddr {
    SockAddr(AF_UNIX, "/var/run" + Zeros(100), FAMILY_SIZE + 6, "")
  }

  function VarTree(): Tree {
    Base()[HUB + ["var"] := Dir]
  }

  lemma {:induction false} VarTreeStands()
    ensures WellFormed(VarTree()) && ["var"] !in VarTree() && IsDir(VarTree(), HUB + ["var"])
    ensures HUB + ["var", "run"] !in VarTree()
  {
    BaseStands();
    PlainWords();
    EtcIsNotVar();
    BaseKeys();
    assert Parent(HUB + ["var"]) == HUB && |HUB + ["var", "run"]| == 4;
    Grown(Base(), HUB + ["var"], Dir);
  }

  lemma {:induction false} CutPaths()
    ensures CutAddress().KernelPath() == "/var/r" && CutAddress().CPath() == "/var/run"
    ensures CutAddress().Valid() && CutAddress().Accepted() && CutAddress().family == AF_UNIX
  {
    var a := CutAddress();
    assert a.sunPath + a.behind == "/var/run" + [NUL] + Zeros(99);
    UpToNulOf("/var/run", Zeros(99));
    assert (a.sunPath + a.behind)[8] == NUL;
    assert a.Passed() == "/var/r";
    UpToNulOf("/var/r", "");
  }

  lemma {:induction false} VarRun()
    ensures IsName("run") && IsName("r") && Classic(["var", "run"]) && NulFree(["var", "run"])
    ensures Render(["var", "run"]) == "/var/run" && Render(["var", "r"]) == "/var/r"
    ensures CandidatePaths(Layout([]), ["var", "run"])[0] == HUB + ["var", "run"]
    ensures |CandidatePaths(Layout([]), ["var", "run"])| == 4 && Parent(HUB + ["var", "run"]) == HUB + ["var"]
    ensures |Render(HUB + ["var", "run"])| < SUN_PATH
  {
    hide Classic, StripNames, RenderRel;
    PlainWords();
    BaseStands();
    assert "var" in SCOPE by {
      assert SCOPE[5] == "var";
    }
    TwoClassic("var", "run");
    TwoNames("var", "r");
    assert "/" + "var" + "/" + "run" == "/var/run" && "/" + ("var" + "/" + "r") == "/var/r";
    assert "var"[0] == 'v' && "usr"[0] == 'u' && "lib"[0] == 'l' && "lib64"[0] == 'l' && "boot"[0] == 'b';
    PlainStrip(["var", "run"]);
    TwoNames("var", "run");
    RenderCons("syshub", ["var", "run"]);
    RenderCons("overlayer", ["syshub"] + ["var", "run"]);
    assert ["overlayer"] + (["syshub"] + ["var", "run"]) == HUB + ["var", "run"];
  }

  /** `bind` to `/var/r`, the rest of `/var/run` behind the length: the kernel finds no `/var`, and the
      retry makes the socket at the candidate of `/var/run`. */
  lemma {:induction false} LengthIsIgnored()
    ensures CutAddress().KernelPath() == "/var/r" && CutAddress().CPath() == "/var/run"
    ensures |CutAddress().sunPath| == SUN_PATH
    ensures SockOutcome(Bind([]), VarTree(), CutAddress(), true, Layout([]).Text())
         == Outcome(0, VarTree()[HUB + ["var", "run"] := Socket], 0)
  {
    hide *;
    var l, t, p, a := Layout([]), VarTree(), ["var", "run"], CutAddress();
    BaseStands();
    VarTreeStands();
    CutPaths();
    VarRun();
    PlainWords();
    TopMissing(t, [], "var", "r");
    CutIsMissed(t, [], a);
    CutIsRead(a, p);
    HomeOf(t, HUB + ["var", "run"]);
    FirstOf(CandidatePaths(l, p), HasHome(t));
    NoNames(l);
    BindExact(l, t, [], a, p);
  }

  lemma NoNames(l: Layout)
    requires l.sysroot == []
    ensures NulFree(l.sysroot)
  {
  }

  lemma CutIsMissed(t: Tree, cwd: Path, a: SockAddr)
    requires a.family == AF_UNIX && a.Accepted() && a.KernelPath() == "/var/r"
    requires Entry(t, cwd, "/var/r") == Missing(ENOENT)
    ensures Bind(cwd)(t, a) == Outcome(-1, t, ENOENT)
  {
  }

  lemma CutIsRead(a: SockAddr, p: Path)
    requires a.Valid() && a.family == AF_UNIX && Classic(p) && NulFree(p) && a.CPath() == Render(p)
    ensures LibraryReads(a, p) && |a.sunPath| == SUN_PATH
  {
  }
}
