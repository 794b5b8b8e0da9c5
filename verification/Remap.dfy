/** Classic paths and the places they are looked for (src/remap.rs). */
module Remap {
  import opened Text
  import opened Utf8
  import opened Paths
  import opened FileTree

  const SCOPE: seq<string> := ["bin", "sbin", "lib", "usr", "opt", "var", "etc", "boot"]

  datatype Roots = Roots(syshub: string, muslSysdir: string, union: string, zaisys: string) {
    function ProbeOrder(): seq<string> {
      [syshub, muslSysdir, union, zaisys]
    }
  }

  function Under(sysroot: string): Roots {
    var overlayer := PathJoin(sysroot, "overlayer");
    Roots(
      PathJoin(overlayer, "syshub"),
      PathJoin(overlayer, "syshub/x86_64-zainium-linux-musl"),
      PathJoin(overlayer, "zexlib/union"),
      PathJoin(overlayer, "zaisys"))
  }

  predicate InScope(path: string) {
    var comps := Components(path);
    |comps| >= 2 && comps[0] == RootDir && comps[1].Normal? && comps[1].name in SCOPE
  }

  predicate IsTopLevel(path: string) {
    InScope(path) && |Components(path)| == 2
  }

  function DropUsr(s: string): string {
    if "usr/local/" <= s then s[10..]
    else if "usr/" <= s then s[4..]
    else s
  }

  /** `from` and everything below it, moved to `to`. */
  function Moved(s: string, from: string, to: string): Option<string> {
    if from + "/" <= s then Some(to + "/" + s[|from| + 1..])
    else if s == from then Some(to)
    else None
  }

  function FoldLib64(s: string): string {
    match Moved(s, "lib64", "lib")
    case Some(r) => r
    case None => s
  }

  function Relocate(s: string): string {
    match Moved(s, "lib/modules", "drivers/modules")
    case Some(r) => r
    case None =>
      match Moved(s, "lib/firmware", "drivers/hardware/firmwares")
      case Some(r) => r
      case None =>
        match Moved(s, "boot", "kernel")
        case Some(r) => r
        case None => s
  }

  /** The part of a classic path below the roots, worked out on its text. */
  function StripLegacy(path: string): Option<string> {
    if !IsUtf8(path) || !IsAbsolute(path) then None
    else
      var s := Relocate(FoldLib64(DropUsr(path[1..])));
      if s == "" then None else Some(s)
  }

  lemma MovedIsSomething(s: string, from: string, to: string)
    requires to != ""
    ensures Moved(s, from, to).Some? ==> Moved(s, from, to).value != ""
  {
  }

  lemma {:induction false} FoldsToSomething(s: string)
    ensures Relocate(FoldLib64(s)) == "" <==> s == ""
  {
    hide Moved;
    MovedIsSomething(s, "lib64", "lib");
    var r := FoldLib64(s);
    MovedIsSomething(r, "lib/modules", "drivers/modules");
    MovedIsSomething(r, "lib/firmware", "drivers/hardware/firmwares");
    MovedIsSomething(r, "boot", "kernel");
    EmptyIsNotMoved();
  }

  lemma EmptyIsNotMoved()
    ensures Moved("", "lib64", "lib") == None && Moved("", "lib/modules", "drivers/modules") == None
    ensures Moved("", "lib/firmware", "drivers/hardware/firmwares") == None && Moved("", "boot", "kernel") == None
  {
  }

  /** Of the absolute texts that are UTF-8 exactly three leave nothing to look for below the roots. */
  lemma {:induction false} NothingLeftIff(path: string)
    ensures StripLegacy(path) == None <==>
            !IsUtf8(path) || !IsAbsolute(path) || path == "/" || path == "/usr/" || path == "/usr/local/"
  {
    hide IsUtf8, FoldLib64, Relocate;
    if IsAbsolute(path) {
      FoldsToSomething(DropUsr(path[1..]));
      DropsAllIff(path[1..]);
      assert path == "/" + path[1..];
    }
  }

  lemma DropsAllIff(s: string)
    ensures DropUsr(s) == "" <==> s == "" || s == "usr/" || s == "usr/local/"
    ensures s == "" <==> "/" + s == "/"
    ensures s == "usr/" <==> "/" + s == "/usr/"
    ensures s == "usr/local/" <==> "/" + s == "/usr/local/"
  {
    assert ("/" + s)[1..] == s && "/usr/"[1..] == "usr/" && "/usr/local/"[1..] == "usr/local/";
    assert "/" + "usr/" == "/usr/" && "/" + "usr/local/" == "/usr/local/";
    if DropUsr(s) == "" {
      if "usr/local/" <= s {
        assert s == s[..10] + s[10..] && s[..10] == "usr/local/";
      } else if "usr/" <= s {
        assert s == s[..4] + s[4..] && s[..4] == "usr/";
      }
    }
  }

  /** The names in scope. */
  lemma {:induction false} ScopeNames(name: string)
    ensures name in SCOPE <==>
            || name == "bin" || name == "sbin" || name == "lib" || name == "usr"
            || name == "opt" || name == "var" || name == "etc" || name == "boot"
  {
    assert SCOPE[0] == "bin" && SCOPE[1] == "sbin" && SCOPE[2] == "lib" && SCOPE[3] == "usr";
    assert SCOPE[4] == "opt" && SCOPE[5] == "var" && SCOPE[6] == "etc" && SCOPE[7] == "boot";
  }

  function JoinAll(roots: seq<string>, rel: string): (cands: seq<string>)
    ensures |cands| == |roots|
    ensures forall i :: 0 <= i < |roots| ==> cands[i] == PathJoin(roots[i], rel)
  {
    seq(|roots|, i requires 0 <= i < |roots| => PathJoin(roots[i], rel))
  }

  function Candidates(path: string, roots: Roots): seq<string> {
    if !IsAbsolute(path) || !InScope(path) then []
    else
      match StripLegacy(path)
      case None => []
      case Some(rel) => JoinAll(roots.ProbeOrder(), rel)
  }

  function Live(t: Tree): string -> bool {
    (c: string) => Exists(t, c)
  }

  function Resolve(t: Tree, path: string, roots: Roots): Option<string> {
    Find(Candidates(path, roots), Live(t))
  }

  // The same on names.

  /** The four roots of an absolute normalised system root. */
  datatype Layout = Layout(sysroot: Path) {
    function Overlayer(): Path { sysroot + ["overlayer"] }

    function Syshub(): Path { Overlayer() + ["syshub"] }

    function MuslSysdir(): Path { Overlayer() + ["syshub", "x86_64-zainium-linux-musl"] }

    function Union(): Path { Overlayer() + ["zexlib", "union"] }

    function Zaisys(): Path { Overlayer() + ["zaisys"] }

    function ProbeOrder(): (roots: seq<Path>)
      ensures |roots| == 4
    {
      [Syshub(), MuslSysdir(), Union(), Zaisys()]
    }

    ghost predicate Valid() {
      Normalised(sysroot)
    }

    function Text(): Roots {
      Under(Render(sysroot))
    }
  }

  function DropUsrNames(p: Path): Path {
    if |p| >= 3 && p[0] == "usr" && p[1] == "local" then p[2..]
    else if |p| >= 2 && p[0] == "usr" then p[1..]
    else p
  }

  function MovedNames(p: Path, from: Path, to: Path): Option<Path> {
    if from <= p then Some(to + p[|from|..]) else None
  }

  function FoldLib64Names(p: Path): Path {
    match MovedNames(p, ["lib64"], ["lib"])
    case Some(r) => r
    case None => p
  }

  function RelocateNames(p: Path): Path {
    match MovedNames(p, ["lib", "modules"], ["drivers", "modules"])
    case Some(r) => r
    case None =>
      match MovedNames(p, ["lib", "firmware"], ["drivers", "hardware", "firmwares"])
      case Some(r) => r
      case None =>
        match MovedNames(p, ["boot"], ["kernel"])
        case Some(r) => r
        case None => p
  }

  function StripNames(p: Path): Path {
    RelocateNames(FoldLib64Names(DropUsrNames(p)))
  }

  /** The roots, in the order they are asked. */
  lemma {:induction false} RootsAre(l: Layout)
    ensures l.ProbeOrder() == [
              l.sysroot + ["overlayer", "syshub"],
              l.sysroot + ["overlayer", "syshub", "x86_64-zainium-linux-musl"],
              l.sysroot + ["overlayer", "zexlib", "union"],
              l.sysroot + ["overlayer", "zaisys"]]
  {
    assert l.Syshub() == l.sysroot + ["overlayer", "syshub"];
    assert l.MuslSysdir() == l.sysroot + ["overlayer", "syshub", "x86_64-zainium-linux-musl"];
    assert l.Union() == l.sysroot + ["overlayer", "zexlib", "union"];
    assert l.Zaisys() == l.sysroot + ["overlayer", "zaisys"];
  }

  /** Where the classic names lead below each root. */
  lemma {:induction false} LegacyNames(rest: Path)
    ensures StripNames(["boot"] + rest) == StripNames(["usr", "boot"] + rest) == ["kernel"] + rest
    ensures StripNames(["lib", "modules"] + rest) == StripNames(["usr", "lib", "modules"] + rest)
         == StripNames(["lib64", "modules"] + rest) == StripNames(["usr", "lib64", "modules"] + rest)
         == ["drivers", "modules"] + rest
    ensures StripNames(["lib", "firmware"] + rest) == StripNames(["usr", "lib", "firmware"] + rest)
         == StripNames(["lib64", "firmware"] + rest) == StripNames(["usr", "lib64", "firmware"] + rest)
         == ["drivers", "hardware", "firmwares"] + rest
    ensures rest != [] && rest[0] != "modules" && rest[0] != "firmware" ==>
              StripNames(["lib64"] + rest) == StripNames(["usr", "lib64"] + rest) == ["lib"] + rest
    ensures rest != [] && rest[0] != "usr" ==> StripNames(["usr", "local"] + rest) == StripNames(rest)
    ensures rest != [] && rest[0] !in {"usr", "lib", "lib64", "boot"} ==> StripNames(rest) == rest
  {
    hide *;
    if rest != [] && rest[0] != "usr" {
      StripLocal(rest);
      if rest[0] != "lib" && rest[0] != "lib64" && rest[0] != "boot" {
        StripNothing(rest);
      }
    }
    StripOne("boot", rest);
    StripTwo("lib", "modules", rest);
    StripTwo("lib64", "modules", rest);
    StripTwo("lib", "firmware", rest);
    StripTwo("lib64", "firmware", rest);
    if rest != [] && rest[0] != "modules" && rest[0] != "firmware" {
      StripOne("lib64", rest);
    }
  }

  lemma StripLocal(rest: Path)
    requires rest != [] && rest[0] != "usr"
    ensures StripNames(["usr", "local"] + rest) == StripNames(rest)
  {
    assert (["usr", "local"] + rest)[2..] == rest;
  }

  lemma StripNothing(rest: Path)
    requires rest != [] && rest[0] != "usr" && rest[0] != "lib" && rest[0] != "lib64" && rest[0] != "boot"
    ensures StripNames(rest) == rest
  {
  }

  lemma {:induction false} StripOne(first: string, rest: Path)
    requires first == "boot" || (first == "lib64" && rest != [] && rest[0] != "modules" && rest[0] != "firmware")
    ensures StripNames([first] + rest) == StripNames(["usr", first] + rest)
         == if first == "boot" then ["kernel"] + rest else ["lib"] + rest
  {
    hide StripNames;
    StripOf(first, rest);
    assert ["usr"] + ([first] + rest) == ["usr", first] + rest;
  }

  lemma {:induction false} StripTwo(first: string, second: string, rest: Path)
    requires (first == "lib" || first == "lib64") && (second == "modules" || second == "firmware")
    ensures StripNames([first, second] + rest) == StripNames(["usr", first, second] + rest)
         == (if second == "modules" then ["drivers", "modules"] else ["drivers", "hardware", "firmwares"]) + rest
  {
    hide StripNames;
    OtherFirsts();
    StripOf(first, [second] + rest);
    assert [first] + ([second] + rest) == [first, second] + rest;
    assert ["usr"] + ([first, second] + rest) == ["usr", first, second] + rest;
    assert ([second] + rest)[1..] == rest;
  }

  lemma OtherFirsts()
    ensures "boot" != "usr" && "lib" != "usr" && "lib64" != "usr" && "lib" != "lib64" && "boot" != "lib" && "boot" != "lib64"
    ensures "boot" != "local" && "lib" != "local" && "lib64" != "local" && "modules" != "firmware"
  {
    assert |"boot"| == 4 && |"usr"| == |"lib"| == 3 && |"lib64"| == |"local"| == 5;
    assert "usr"[0] == 'u' && "lib"[0] == 'l' && "lib64"[1] == 'i' && "local"[1] == 'o';
    assert |"modules"| == 7 && |"firmware"| == 8;
  }

  lemma {:induction false} StripOf(first: string, rest: Path)
    requires first == "boot" || first == "lib" || first == "lib64"
    ensures StripNames([first] + rest) == StripNames(["usr"] + ([first] + rest)) ==
            if first == "boot" then ["kernel"] + rest
            else if rest != [] && rest[0] == "modules" then ["drivers", "modules"] + rest[1..]
            else if rest != [] && rest[0] == "firmware" then ["drivers", "hardware", "firmwares"] + rest[1..]
            else ["lib"] + rest
  {
    hide RelocateNames, FoldLib64Names;
    OtherFirsts();
    var p := [first] + rest;
    assert (["usr"] + p)[1..] == p;
    assert DropUsrNames(p) == p && DropUsrNames(["usr"] + p) == p;
    FoldOf(first, rest);
    RelocateOf(if first == "boot" then "boot" else "lib", rest);
  }

  lemma FoldOf(first: string, rest: Path)
    ensures FoldLib64Names([first] + rest) == if first == "lib64" then ["lib"] + rest else [first] + rest
  {
    assert ([first] + rest)[1..] == rest;
  }

  lemma RelocateOf(first: string, rest: Path)
    requires first == "boot" || first == "lib"
    ensures RelocateNames([first] + rest) ==
            if first == "boot" then ["kernel"] + rest
            else if rest != [] && rest[0] == "modules" then ["drivers", "modules"] + rest[1..]
            else if rest != [] && rest[0] == "firmware" then ["drivers", "hardware", "firmwares"] + rest[1..]
            else ["lib"] + rest
  {
    OtherFirsts();
    var p := [first] + rest;
    assert p[1..] == rest && p[0] == first;
    var modules, firmware := ["lib", "modules"], ["lib", "firmware"];
    assert rest != [] ==> p[1] == rest[0] && p[2..] == rest[1..];
    assert modules <= p <==> first == "lib" && rest != [] && rest[0] == "modules" by {
      assert modules[0] == "lib" && modules[1] == "modules";
    }
    assert firmware <= p <==> first == "lib" && rest != [] && rest[0] == "firmware" by {
      assert firmware[0] == "lib" && firmware[1] == "firmware";
    }
    assert ["boot"] <= p <==> first == "boot";
  }

  ghost predicate Classic(p: Path) {
    p != [] && Normalised(p) && p[0] in SCOPE && IsUtf8(Render(p))
  }

  function CandidatePaths(l: Layout, p: Path): (cands: seq<Path>)
    ensures |cands| == 4
  {
    var rel := StripNames(p);
    [l.Syshub() + rel, l.MuslSysdir() + rel, l.Union() + rel, l.Zaisys() + rel]
  }

  /** Below a path in text is below it in names. */
  lemma {:induction false} BelowByNames(from: Path, p: Path)
    requires Normalised(from) && Normalised(p) && from != [] && p != []
    ensures RenderRel(from) + "/" <= RenderRel(p) <==> from < p
    ensures from < p ==> RenderRel(p) == RenderRel(from) + "/" + RenderRel(p[|from|..])
    ensures RenderRel(p) == RenderRel(from) <==> p == from
  {
    SplitJoin(p, '/');
    SplitJoin(from, '/');
    var f, s := RenderRel(from), RenderRel(p);
    if f + "/" <= s {
      var rest := s[|f| + 1..];
      assert s == f + ['/'] + rest;
      SplitConcat(f, '/', rest);
    }
    if from < p {
      JoinConcat(from, p[|from|..], '/');
      assert p == from + p[|from|..];
    }
  }

  lemma {:induction false} MovedAgrees(p: Path, from: Path, fromText: string, to: Path, toText: string)
    requires Normalised(from) && Normalised(to) && Normalised(p) && from != [] && to != [] && p != []
    requires fromText == RenderRel(from) && toText == RenderRel(to)
    ensures Moved(RenderRel(p), fromText, toText) ==
            match MovedNames(p, from, to) case Some(r) => Some(RenderRel(r)) case None => None
    ensures MovedNames(p, from, to).Some? ==>
              Normalised(MovedNames(p, from, to).value) && MovedNames(p, from, to).value != []
  {
    BelowByNames(from, p);
    if from < p {
      var rest := p[|from|..];
      assert RenderRel(p)[|fromText| + 1..] == RenderRel(rest);
      JoinConcat(to, rest, '/');
      NormalisedConcat(to, rest);
    } else if from == p {
      assert to + p[|from|..] == to;
    }
  }

  lemma {:induction false} TwoNames(a: string, b: string)
    ensures RenderRel([a]) == a
    ensures RenderRel([a, b]) == a + "/" + b
  {
    JoinCons(a, [b], '/');
    assert [a] + [b] == [a, b];
  }

  lemma {:induction false} DropUsrAgrees(p: Path)
    requires Normalised(p) && p != []
    ensures DropUsr(RenderRel(p)) == RenderRel(DropUsrNames(p))
    ensures Normalised(DropUsrNames(p)) && DropUsrNames(p) != []
  {
    TwoNames("usr", "local");
    BelowByNames(["usr"], p);
    BelowByNames(["usr", "local"], p);
    assert "usr" + "/" + "local" + "/" == "usr/local/";
    assert "usr" + "/" == "usr/";
  }

  lemma {:induction false} FoldLib64Agrees(p: Path)
    requires Normalised(p) && p != []
    ensures FoldLib64(RenderRel(p)) == RenderRel(FoldLib64Names(p))
    ensures Normalised(FoldLib64Names(p)) && FoldLib64Names(p) != []
  {
    TwoNames("lib64", "");
    TwoNames("lib", "");
    MovedAgrees(p, ["lib64"], "lib64", ["lib"], "lib");
  }

  lemma PlainNames()
    ensures IsName("lib") && IsName("modules") && IsName("firmware") && IsName("boot")
    ensures IsName("drivers") && IsName("hardware") && IsName("firmwares") && IsName("kernel")
  {
  }

  lemma {:induction false} MovedTexts()
    ensures RenderRel(["lib", "modules"]) == "lib/modules"
    ensures RenderRel(["lib", "firmware"]) == "lib/firmware"
    ensures RenderRel(["boot"]) == "boot"
    ensures RenderRel(["drivers", "modules"]) == "drivers/modules"
    ensures RenderRel(["drivers", "hardware", "firmwares"]) == "drivers/hardware/firmwares"
    ensures RenderRel(["kernel"]) == "kernel"
    ensures Normalised(["lib", "modules"]) && Normalised(["lib", "firmware"]) && Normalised(["boot"])
    ensures Normalised(["drivers", "modules"]) && Normalised(["drivers", "hardware", "firmwares"]) && Normalised(["kernel"])
  {
    PlainNames();
    TwoNames("lib", "modules");
    TwoNames("lib", "firmware");
    TwoNames("boot", "");
    TwoNames("drivers", "modules");
    TwoNames("hardware", "firmwares");
    TwoNames("kernel", "");
    JoinCons("drivers", ["hardware", "firmwares"], '/');
    assert ["drivers"] + ["hardware", "firmwares"] == ["drivers", "hardware", "firmwares"];
  }

  lemma {:induction false} RelocateAgrees(p: Path)
    requires Normalised(p) && p != []
    ensures Relocate(RenderRel(p)) == RenderRel(RelocateNames(p))
    ensures Normalised(RelocateNames(p)) && RelocateNames(p) != []
  {
    hide Moved, MovedNames, RenderRel, Normalised;
    MovedTexts();
    MovedAgrees(p, ["lib", "modules"], "lib/modules", ["drivers", "modules"], "drivers/modules");
    MovedAgrees(p, ["lib", "firmware"], "lib/firmware",
                ["drivers", "hardware", "firmwares"], "drivers/hardware/firmwares");
    MovedAgrees(p, ["boot"], "boot", ["kernel"], "kernel");
  }

  /** The textual stripping and the stripping of names agree on normalised paths. */
  lemma {:induction false} StripLegacyAgrees(p: Path)
    requires Normalised(p) && p != [] && IsUtf8(Render(p))
    ensures StripLegacy(Render(p)) == Some(RenderRel(StripNames(p)))
    ensures Normalised(StripNames(p)) && StripNames(p) != []
  {
    assert Render(p)[1..] == RenderRel(p);
    DropUsrAgrees(p);
    FoldLib64Agrees(DropUsrNames(p));
    RelocateAgrees(FoldLib64Names(DropUsrNames(p)));
    RelativeIsNotAbsolute(StripNames(p));
  }

  lemma {:induction false} RootsAreNormalised(l: Layout)
    requires l.Valid()
    ensures Normalised(l.Syshub()) && Normalised(l.MuslSysdir()) && Normalised(l.Union()) && Normalised(l.Zaisys())
  {
    NormalisedConcat(l.sysroot, ["overlayer"]);
    NormalisedConcat(l.Overlayer(), ["syshub"]);
    NormalisedConcat(l.Overlayer(), ["syshub", "x86_64-zainium-linux-musl"]);
    NormalisedConcat(l.Overlayer(), ["zexlib", "union"]);
    NormalisedConcat(l.Overlayer(), ["zaisys"]);
  }

  lemma {:induction false} RootText(l: Layout, rel: Path, text: string)
    requires l.Valid() && Normalised(rel) && rel != [] && text == RenderRel(rel)
    ensures PathJoin(PathJoin(Render(l.sysroot), "overlayer"), text) == Render(l.Overlayer() + rel)
  {
    TwoNames("overlayer", "");
    NormalisedConcat(l.sysroot, ["overlayer"]);
    JoinRendered(l.sysroot, ["overlayer"]);
    JoinRendered(l.Overlayer(), rel);
  }

  lemma PlainRootNames()
    ensures IsName("syshub") && IsName("x86_64-zainium-linux-musl") && IsName("zexlib") && IsName("union")
    ensures IsName("zaisys")
  {
  }

  lemma {:induction false} RootNames()
    ensures RenderRel(["syshub"]) == "syshub" && RenderRel(["zaisys"]) == "zaisys"
    ensures RenderRel(["syshub", "x86_64-zainium-linux-musl"]) == "syshub/x86_64-zainium-linux-musl"
    ensures RenderRel(["zexlib", "union"]) == "zexlib/union"
    ensures Normalised(["syshub"]) && Normalised(["zaisys"])
    ensures Normalised(["syshub", "x86_64-zainium-linux-musl"]) && Normalised(["zexlib", "union"])
  {
    hide IsName, RenderRel;
    PlainRootNames();
    TwoNames("syshub", "x86_64-zainium-linux-musl");
    TwoNames("zexlib", "union");
    TwoNames("zaisys", "");
  }

  /** The textual roots are the rendered names. */
  lemma {:induction false} UnderAgrees(l: Layout)
    requires l.Valid()
    ensures l.Text().syshub == Render(l.Syshub())
    ensures l.Text().muslSysdir == Render(l.MuslSysdir())
    ensures l.Text().union == Render(l.Union())
    ensures l.Text().zaisys == Render(l.Zaisys())
  {
    RootNames();
    RootText(l, ["syshub"], "syshub");
    RootText(l, ["syshub", "x86_64-zainium-linux-musl"], "syshub/x86_64-zainium-linux-musl");
    RootText(l, ["zexlib", "union"], "zexlib/union");
    RootText(l, ["zaisys"], "zaisys");
  }

  lemma {:induction false} RootTexts(l: Layout, i: nat)
    requires l.Valid() && i < 4
    ensures l.Text().ProbeOrder()[i] == Render(l.ProbeOrder()[i])
    ensures Normalised(l.ProbeOrder()[i]) && l.ProbeOrder()[i] != []
  {
    UnderAgrees(l);
    RootsAreNormalised(l);
  }

  lemma {:induction false} ScopeOfRender(p: Path)
    requires Normalised(p)
    ensures InScope(Render(p)) <==> p != [] && p[0] in SCOPE
    ensures IsTopLevel(Render(p)) <==> |p| == 1 && p[0] in SCOPE
  {
    StepsOfRender(p);
  }

  /** A normalised path has no candidates exactly when its first name is not in the guard or it is
      not UTF-8. */
  lemma {:induction false} NoCandidatesIff(l: Layout, p: Path)
    requires l.Valid() && Normalised(p)
    ensures Candidates(Render(p), l.Text()) == [] <==> p == [] || p[0] !in SCOPE || !IsUtf8(Render(p))
  {
    ScopeOfRender(p);
    if Classic(p) {
      CandidatesAgree(l, p);
    }
  }

  lemma {:induction false} CandidateList(l: Layout, p: Path)
    requires l.Valid() && Classic(p)
    ensures StripNames(p) != [] && Normalised(StripNames(p))
    ensures Candidates(Render(p), l.Text()) == JoinAll(l.Text().ProbeOrder(), RenderRel(StripNames(p)))
  {
    ScopeOfRender(p);
    StripLegacyAgrees(p);
  }

  lemma {:induction false} CandidateAt(l: Layout, p: Path, i: nat)
    requires l.Valid() && Normalised(StripNames(p)) && StripNames(p) != [] && i < 4
    ensures CandidatePaths(l, p)[i] == l.ProbeOrder()[i] + StripNames(p)
    ensures Normalised(CandidatePaths(l, p)[i])
    ensures PathJoin(l.Text().ProbeOrder()[i], RenderRel(StripNames(p))) == Render(CandidatePaths(l, p)[i])
  {
    RootTexts(l, i);
    var root := l.ProbeOrder()[i];
    JoinRendered(root, StripNames(p));
    NormalisedConcat(root, StripNames(p));
  }

  /** A classic path has four candidates, the i-th being its remainder below the i-th root. */
  lemma {:induction false} CandidatesAgree(l: Layout, p: Path)
    requires l.Valid() && Classic(p)
    ensures StripNames(p) != []
    ensures |Candidates(Render(p), l.Text())| == 4
    ensures forall i :: 0 <= i < 4 ==>
              && CandidatePaths(l, p)[i] == l.ProbeOrder()[i] + StripNames(p)
              && Normalised(CandidatePaths(l, p)[i])
              && Candidates(Render(p), l.Text())[i] == Render(CandidatePaths(l, p)[i])
  {
    CandidateList(l, p);
    var rel := RenderRel(StripNames(p));
    var roots := l.Text().ProbeOrder();
    forall i | 0 <= i < 4
      ensures CandidatePaths(l, p)[i] == l.ProbeOrder()[i] + StripNames(p)
      ensures Normalised(CandidatePaths(l, p)[i])
      ensures JoinAll(roots, rel)[i] == Render(CandidatePaths(l, p)[i])
    {
      CandidateAt(l, p, i);
      assert JoinAll(roots, rel)[i] == PathJoin(roots[i], rel);
    }
  }

  /** Remapping a candidate again yields nothing exactly when the system root is not itself
      under an in-scope name; so never with `/` as the system root. */
  lemma {:induction false} RemapsOnce(l: Layout, p: Path, i: nat)
    requires l.Valid() && Classic(p) && i < 4
    requires IsUtf8(Render(CandidatePaths(l, p)[i]))
    ensures |Candidates(Render(p), l.Text())| == 4
    ensures Candidates(Candidates(Render(p), l.Text())[i], l.Text()) == [] <==>
            l.sysroot == [] || l.sysroot[0] !in SCOPE
  {
    CandidatesAgree(l, p);
    var c := CandidatePaths(l, p)[i];
    ScopeOfRender(c);
    CandidateStart(l, StripNames(p), i);
    if l.sysroot != [] && l.sysroot[0] in SCOPE {
      CandidatesAgree(l, c);
    } else {
      assert !InScope(Render(c));
    }
  }

  lemma CandidateStart(l: Layout, rel: Path, i: nat)
    requires i < 4
    ensures (l.ProbeOrder()[i] + rel)[0] == if l.sysroot == [] then "overlayer" else l.sysroot[0]
    ensures "overlayer" !in SCOPE
  {
  }

  /** The caller's spellings whose remainder is an absolute text. */
  predicate DoubledSlash(path: string) {
    "//" <= path || "/usr//" <= path || "/usr/local//" <= path
  }

  lemma {:induction false} RemainderStart(s: string)
    ensures IsAbsolute(Relocate(FoldLib64(s))) <==> IsAbsolute(s)
  {
  }

  lemma {:induction false} AbsoluteRemainder(path: string)
    requires StripLegacy(path).Some?
    ensures IsAbsolute(StripLegacy(path).value) <==> DoubledSlash(path)
  {
    var s := path[1..];
    RemainderStart(DropUsr(s));
    SlashForms(s);
    assert path == "/" + s;
  }

  lemma {:induction false} SlashForms(s: string)
    ensures IsAbsolute(DropUsr(s)) <==> "/" <= s || "usr//" <= s || "usr/local//" <= s
    ensures DoubledSlash("/" + s) <==> "/" <= s || "usr//" <= s || "usr/local//" <= s
  {
    SlashAfter("/", s);
    SlashAfter("usr//", s);
    SlashAfter("usr/local//", s);
    PrefixConcat("usr/", "/", s);
    PrefixConcat("usr/local/", "/", s);
    assert "usr/" + "/" == "usr//" && "usr/local/" + "/" == "usr/local//";
    assert "usr//" <= s ==> s[4] == '/';
    assert "usr/local/" <= s ==> s[4] == 'l' && s[0] == 'u' && "usr/" <= s;
    assert "/" <= s <==> IsAbsolute(s);
    assert "usr/" <= s ==> ("/" <= s[4..] <==> IsAbsolute(s[4..]));
    assert "usr/local/" <= s ==> ("/" <= s[10..] <==> IsAbsolute(s[10..]));
  }

  lemma SlashAfter(b: string, s: string)
    ensures "/" + b <= "/" + s <==> b <= s
  {
    PrefixConcat("/", b, "/" + s);
  }

  /** Names entered less directories left. */
  function Depth(steps: seq<Component>): int {
    if steps == [] then 0
    else (if steps[0].Normal? then 1 else if steps[0] == ParentDir then -1 else 0) + Depth(steps[1..])
  }

  /** At some point more `..` than names have gone by. */
  predicate Climbs(steps: seq<Component>) {
    exists n :: 0 <= n <= |steps| && Depth(steps[..n]) < 0
  }

  lemma {:induction false} StaysIff(root: Path, cur: Path, steps: seq<Component>)
    requires root != [] && root <= cur
    ensures (forall n :: 0 <= n <= |steps| ==> root <= Folded(cur, steps[..n])) <==>
            (forall n :: 0 <= n <= |steps| ==> |cur| - |root| + Depth(steps[..n]) >= 0)
    decreases |steps|
  {
    if steps != [] {
      var next, rest := Next(cur, steps[0]), steps[1..];
      forall n | 0 < n <= |steps|
        ensures Folded(cur, steps[..n]) == Folded(next, rest[..n - 1])
        ensures |cur| + Depth(steps[..n]) == |next| + Depth(rest[..n - 1])
      {
        assert steps[..n][0] == steps[0] && steps[..n][1..] == rest[..n - 1];
      }
      assert rest[..0] == [] && steps[..0] == [];
      if root <= next {
        StaysIff(root, next, rest);
        StepsShift(root, cur, steps);
      } else {
        assert !(root <= Folded(cur, steps[..1]));
        assert |cur| - |root| + Depth(steps[..1]) < 0;
      }
    }
  }

  lemma {:induction false} StepsShift(root: Path, cur: Path, steps: seq<Component>)
    requires steps != [] && root <= cur
    requires forall n :: 0 < n <= |steps| ==>
               && Folded(cur, steps[..n]) == Folded(Next(cur, steps[0]), steps[1..][..n - 1])
               && |cur| + Depth(steps[..n]) == |Next(cur, steps[0])| + Depth(steps[1..][..n - 1])
    ensures (forall n :: 0 <= n <= |steps| ==> root <= Folded(cur, steps[..n])) <==>
            (forall n :: 0 <= n <= |steps[1..]| ==> root <= Folded(Next(cur, steps[0]), steps[1..][..n]))
    ensures (forall n :: 0 <= n <= |steps| ==> |cur| - |root| + Depth(steps[..n]) >= 0) <==>
            (forall n :: 0 <= n <= |steps[1..]| ==>
                           |Next(cur, steps[0])| - |root| + Depth(steps[1..][..n]) >= 0)
  {
    hide Folded, Depth;
    var next, rest := Next(cur, steps[0]), steps[1..];
    assert steps[..0] == [] && Folded(cur, []) == cur && Depth([]) == 0 by {
      Standing(cur);
    }
    forall n | 0 <= n <= |rest|
      ensures Folded(next, rest[..n]) == Folded(cur, steps[..n + 1])
      ensures |next| + Depth(rest[..n]) == |cur| + Depth(steps[..n + 1])
    {
    }
  }

  lemma Standing(cur: Path)
    ensures Folded(cur, []) == cur && Depth([]) == 0
  {
  }

  /** Walking the text enters `root` and never leaves it again. */
  ghost predicate StaysBelow(root: Path, text: string) {
    && Names(root) <= Steps(text)
    && forall n :: |root| <= n <= |Steps(text)| ==> root <= Folded([], Steps(text)[..n])
  }

  lemma {:induction false} StaysBelowIff(root: Path, rel: string)
    requires Normalised(root) && root != [] && !IsAbsolute(rel)
    ensures StaysBelow(root, PathJoin(Render(root), rel)) <==> !Climbs(Steps(rel))
  {
    hide PathJoin, Steps;
    var steps, tail := Steps(PathJoin(Render(root), rel)), Steps(rel);
    StepsOfJoin(Render(root), rel);
    StepsOfRender(root);
    forall n | 0 <= n <= |tail| ensures Folded([], steps[..|root| + n]) == Folded(root, tail[..n]) {
      assert steps[..|root| + n] == Names(root) + tail[..n];
      FoldedConcat([], Names(root), tail[..n]);
      FoldedNames([], root);
      assert [] + root == root;
    }
    forall n | |root| <= n <= |steps| ensures Folded([], steps[..n]) == Folded(root, tail[..n - |root|]) {
      assert steps[..n] == steps[..|root| + (n - |root|)];
    }
    StaysIff(root, root, tail);
  }

  /** The walk of every candidate of any in-scope text stays below its root exactly when the text
      has no doubled slash where a prefix is dropped (`join` with an absolute text forgets the
      root) and its remainder never climbs out with `..`. */
  lemma {:induction false} BelowRootsIff(l: Layout, path: string)
    requires l.Valid() && IsAbsolute(path) && InScope(path) && StripLegacy(path).Some?
    ensures |Candidates(path, l.Text())| == 4
    ensures (forall i :: 0 <= i < 4 ==> StaysBelow(l.ProbeOrder()[i], Candidates(path, l.Text())[i]))
            <==> !DoubledSlash(path) && !Climbs(Steps(StripLegacy(path).value))
  {
    hide StaysBelow, Climbs, DoubledSlash, PathJoin, InScope, StripLegacy;
    AbsoluteRemainder(path);
    var rel := StripLegacy(path).value;
    var roots := l.Text().ProbeOrder();
    assert Candidates(path, l.Text()) == JoinAll(roots, rel);
    forall i | 0 <= i < 4
      ensures JoinAll(roots, rel)[i] == PathJoin(Render(l.ProbeOrder()[i]), rel)
      ensures !IsAbsolute(rel) ==> (StaysBelow(l.ProbeOrder()[i], JoinAll(roots, rel)[i]) <==> !Climbs(Steps(rel)))
    {
      RootTexts(l, i);
      if !IsAbsolute(rel) {
        StaysBelowIff(l.ProbeOrder()[i], rel);
      }
    }
    if IsAbsolute(rel) {
      AbsoluteJoin(Render(l.ProbeOrder()[0]), rel);
      AbsoluteJoin(Render(l.ProbeOrder()[3]), rel);
      DistinctRoots(l, rel);
    } else {
      assert StaysBelow(l.ProbeOrder()[0], JoinAll(roots, rel)[0]) <==> !Climbs(Steps(rel));
    }
  }

  lemma AbsoluteJoin(base: string, rel: string)
    requires IsAbsolute(rel)
    ensures PathJoin(base, rel) == rel
  {
  }

  lemma {:induction false} DistinctRoots(l: Layout, text: string)
    ensures !(StaysBelow(l.ProbeOrder()[0], text) && StaysBelow(l.ProbeOrder()[3], text))
  {
    var k := |l.sysroot| + 1;
    assert l.Syshub()[k] == "syshub" && l.Zaisys()[k] == "zaisys";
    assert "syshub"[0] == 's' && "zaisys"[0] == 'z';
    assert Names(l.Syshub()) <= Steps(text) ==> Steps(text)[k] == Names(l.Syshub())[k];
    assert Names(l.Zaisys()) <= Steps(text) ==> Steps(text)[k] == Names(l.Zaisys())[k];
  }

  /** Under an absolute system root every candidate of every text is absolute. */
  lemma {:induction false} CandidatesAreAbsolute(l: Layout, path: string)
    requires l.Valid()
    ensures forall i :: 0 <= i < |Candidates(path, l.Text())| ==> IsAbsolute(Candidates(path, l.Text())[i])
  {
    if StripLegacy(path).Some? {
      var rel := StripLegacy(path).value;
      var roots := l.Text().ProbeOrder();
      forall i | 0 <= i < 4 ensures IsAbsolute(JoinAll(roots, rel)[i]) {
        RootTexts(l, i);
        JoinIsAbsolute(roots[i], rel);
      }
    }
  }

  lemma JoinIsAbsolute(base: string, p: string)
    requires IsAbsolute(base)
    ensures IsAbsolute(PathJoin(base, p))
  {
  }
}
