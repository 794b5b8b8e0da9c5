/** What the audit reports: which files have no working classic name, and how many it looked at
    (src/audit.rs). */
module Reach {
  import opened Text
  import opened Utf8
  import opened Paths
  import opened FileTree
  import opened Remap
  import opened Audit

  datatype Reason = SourceIsDanglingSymlink | NoAliasResolved

  datatype Miss = Miss(realPath: string, aliasTried: string, reason: Reason)

  datatype AuditResult = AuditResult(rootLabel: string, checked: nat, misses: seq<Miss>)

  function AliasOf(rel: Path): string {
    PathJoin("/usr", RenderRel(rel))
  }

  /** What is reported about one file, if anything. */
  function MissOf(t: Tree, roots: Roots, root: string, rel: Path): Option<Miss> {
    if Resolve(t, AliasOf(rel), roots).Some? then None
    else
      var real_ := PathJoin(root, RenderRel(rel));
      Some(Miss(real_, AliasOf(rel),
                if !Exists(t, real_) && LExists(t, real_) then SourceIsDanglingSymlink else NoAliasResolved))
  }

  function MissesOf(t: Tree, roots: Roots, root: string, rels: seq<Path>): seq<Miss> {
    if rels == [] then []
    else
      var last := |rels| - 1;
      MissesOf(t, roots, root, rels[..last]) +
      match MissOf(t, roots, root, rels[last]) case Some(m) => [m] case None => []
  }

  /** `rels` are the wanted entries below `root`, each once. */
  ghost predicate WalkOf(t: Tree, root: Path, exclude: Option<Path>, rels: seq<Path>) {
    && NoDup(rels)
    && (forall p :: Wanted(t, root, exclude, p) ==> p[|root|..] in rels)
    && (forall r :: r in rels ==> Wanted(t, root, exclude, root + r))
  }

  method AuditOneRoot(label_: string, t: Tree, l: Layout, root: Path, exclude: Option<Path>)
    returns (result: AuditResult, ghost relatives: seq<Path>)
    requires WellFormed(t)
    ensures result.rootLabel == label_
    ensures result.checked == |relatives| && WalkOf(t, root, exclude, relatives)
    ensures result.misses == MissesOf(t, l.Text(), Render(root), relatives)
  {
    hide MissOf, Wanted, NoDup, WellFormed;
    var rels := WalkRelative(t, root, exclude);
    var misses: seq<Miss> := [];
    for i := 0 to |rels|
      invariant misses == MissesOf(t, l.Text(), Render(root), rels[..i])
    {
      assert rels[..i + 1][..i] == rels[..i];
      match MissOf(t, l.Text(), Render(root), rels[i]) {
        case Some(m) => misses := misses + [m];
        case None =>
      }
    }
    assert rels[..|rels|] == rels;
    result, relatives := AuditResult(label_, |rels|, misses), rels;
  }

  /** The files whose classic `/usr` name is answered from elsewhere. */
  predicate Displaced(rel: Path) {
    && rel != []
    && ((rel[0] == "local" && |rel| >= 2) || rel[0] == "lib64" || rel[0] == "boot"
        || (rel[0] == "lib" && |rel| >= 2 && (rel[1] == "modules" || rel[1] == "firmware")))
  }

  /** Stripping `/usr/` + rel gives rel back exactly for the files that are not displaced. */
  lemma DisplacedIff(rel: Path)
    requires rel != []
    ensures StripNames(["usr"] + rel) != rel <==> Displaced(rel)
  {
  }

  ghost predicate TextNames(p: Path) {
    forall i :: 0 <= i < |p| ==> IsUtf8(p[i])
  }

  lemma {:induction false} AliasIsClassic(rel: Path)
    requires Normalised(rel) && rel != [] && TextNames(rel)
    ensures Classic(["usr"] + rel) && AliasOf(rel) == Render(["usr"] + rel)
  {
    NormalisedConcat(["usr"], rel);
    TwoNames("usr", "");
    JoinRendered(["usr"], rel);
    assert Render(["usr"]) == "/usr";
    var p := ["usr"] + rel;
    AsciiIsValid("usr");
    forall i | 0 <= i < |p| ensures IsUtf8(p[i]) {
      assert i > 0 ==> p[i] == rel[i - 1];
    }
    JoinIsValid(p, '/');
    AsciiPrefix("/", RenderRel(p));
  }

  /** Audit completeness: a file reported without a working name is a displaced one whose data is
      there; a file that is not displaced is reached unless it is a dangling link, and the dangling
      links are told apart exactly. */
  lemma {:induction false} MissesAreDisplaced(t: Tree, l: Layout, k: nat, rel: Path)
    requires l.Valid() && WellFormed(t) && k < 4 && rel != [] && TextNames(rel)
    requires l.ProbeOrder()[k] + rel in t
    ensures var m := MissOf(t, l.Text(), Render(l.ProbeOrder()[k]), rel);
            var alive := Alive(t[l.ProbeOrder()[k] + rel]);
            && (m.Some? ==> (m.value.reason == SourceIsDanglingSymlink <==> !alive))
            && (m.Some? && m.value.reason == NoAliasResolved ==> Displaced(rel))
            && (!Displaced(rel) && alive ==> m.None?)
  {
    var root := l.ProbeOrder()[k];
    var real_ := root + rel;
    RootTexts(l, k);
    assert Normalised(real_);
    RelOfNormalised(root, rel);
    JoinRendered(root, rel);
    LookupOfRender(t, [], real_);
    if !Displaced(rel) && Alive(t[real_]) {
      ReachedByOwnRoot(t, l, k, rel);
    }
  }

  /** A miss names the file where it is, and the classic name that does not lead there. */
  lemma {:induction false} MissNames(t: Tree, l: Layout, k: nat, rel: Path)
    requires l.Valid() && k < 4 && Normalised(rel) && rel != []
    ensures match MissOf(t, l.Text(), Render(l.ProbeOrder()[k]), rel)
            case None => Resolve(t, "/usr/" + RenderRel(rel), l.Text()).Some?
            case Some(m) =>
              && Resolve(t, "/usr/" + RenderRel(rel), l.Text()).None?
              && m.realPath == Render(l.ProbeOrder()[k] + rel) && m.aliasTried == "/usr/" + RenderRel(rel)
  {
    hide Resolve, Exists, LExists;
    RootTexts(l, k);
    JoinRendered(l.ProbeOrder()[k], rel);
    RelativeIsNotAbsolute(rel);
    assert "/usr" + "/" + RenderRel(rel) == "/usr/" + RenderRel(rel);
  }

  lemma RelOfNormalised(root: Path, rel: Path)
    requires Normalised(root + rel)
    ensures Normalised(rel)
  {
    assert forall i :: 0 <= i < |rel| ==> rel[i] == (root + rel)[|root| + i];
  }

  lemma {:induction false} ReachedByOwnRoot(t: Tree, l: Layout, k: nat, rel: Path)
    requires l.Valid() && WellFormed(t) && k < 4 && rel != [] && TextNames(rel) && Normalised(rel)
    requires l.ProbeOrder()[k] + rel in t && Alive(t[l.ProbeOrder()[k] + rel]) && !Displaced(rel)
    ensures Resolve(t, AliasOf(rel), l.Text()).Some?
  {
    AliasIsClassic(rel);
    DisplacedIff(rel);
    var p := ["usr"] + rel;
    CandidatesAgree(l, p);
    var c := CandidatePaths(l, p)[k];
    assert c == l.ProbeOrder()[k] + rel;
    LookupOfRender(t, [], c);
    assert Live(t)(Candidates(Render(p), l.Text())[k]);
  }

  // How many files the four walks look at.

  function FilesBelow(t: Tree, root: Path): set<Path> {
    set p | p in t && t[p] != Dir && root < p
  }

  /** The files below a root that a walk with this exclusion lists. */
  function WalkFiles(t: Tree, root: Path, exclude: Option<Path>): set<Path> {
    set p | p in FilesBelow(t, root) && !(exclude.Some? && |root| < |exclude.value| && exclude.value <= p)
  }

  lemma {:induction false} DistinctCount(s: seq<Path>)
    requires NoDup(s)
    ensures |(set x | x in s)| == |s|
  {
    if s == [] {
      assert (set x | x in s) == {};
    } else {
      var last := |s| - 1;
      var rest := s[..last];
      DistinctCount(rest);
      assert s == rest + [s[last]];
      assert (set x | x in s) == (set x | x in rest) + {s[last]};
      assert s[last] !in rest;
    }
  }

  function Rooted(root: Path, rels: seq<Path>): (ps: seq<Path>)
    ensures |ps| == |rels|
    ensures forall i :: 0 <= i < |rels| ==> ps[i] == root + rels[i]
  {
    seq(|rels|, i requires 0 <= i < |rels| => root + rels[i])
  }

  /** A walk counts the files below its root, except those it leaves out. */
  lemma {:induction false} WalkCounts(t: Tree, root: Path, exclude: Option<Path>, rels: seq<Path>)
    requires WalkOf(t, root, exclude, rels)
    ensures |rels| == |WalkFiles(t, root, exclude)|
  {
    var ps := Rooted(root, rels);
    DistinctCount(ps);
    var files := WalkFiles(t, root, exclude);
    forall p ensures p in files <==> p in ps {
      if p in files {
        assert Wanted(t, root, exclude, p);
        var i :| 0 <= i < |rels| && rels[i] == p[|root|..];
        assert ps[i] == p;
      }
      if p in ps {
        var i :| 0 <= i < |ps| && ps[i] == p;
        assert rels[i] in rels;
      }
    }
    assert files == (set x | x in ps);
  }

  /** The report of a root holds what is to be said about each of its files, and nothing else. */
  lemma {:induction false} ReportIsExact(t: Tree, roots: Roots, root: string, rels: seq<Path>)
    ensures forall m :: m in MissesOf(t, roots, root, rels) <==>
                        exists i :: 0 <= i < |rels| && MissOf(t, roots, root, rels[i]) == Some(m)
  {
    hide MissOf;
    if rels != [] {
      var last := |rels| - 1;
      ReportIsExact(t, roots, root, rels[..last]);
      forall m ensures m in MissesOf(t, roots, root, rels) <==>
                       exists i :: 0 <= i < |rels| && MissOf(t, roots, root, rels[i]) == Some(m)
      {
        if m in MissesOf(t, roots, root, rels[..last]) {
          var i :| 0 <= i < last && MissOf(t, roots, root, rels[..last][i]) == Some(m);
          assert rels[i] == rels[..last][i];
        }
        if i :| 0 <= i < |rels| && MissOf(t, roots, root, rels[i]) == Some(m) {
          if i < last {
            assert rels[..last][i] == rels[i];
          }
        }
      }
    }
  }

  /** A file counts as reached exactly when its stripped name lives below one of the four roots. */
  lemma {:induction false} ReachedIff(t: Tree, l: Layout, rel: Path)
    requires l.Valid() && WellFormed(t) && rel != [] && TextNames(rel) && Normalised(rel)
    ensures Resolve(t, AliasOf(rel), l.Text()).Some? <==>
            exists k :: 0 <= k < 4 && Lives(t, CandidatePaths(l, ["usr"] + rel)[k])
  {
    hide Lives;
    AliasIsClassic(rel);
    var p := ["usr"] + rel;
    CandidatesAgree(l, p);
    var cs := Candidates(AliasOf(rel), l.Text());
    forall k | 0 <= k < 4 ensures Live(t)(cs[k]) <==> Lives(t, CandidatePaths(l, p)[k]) {
      LiveIsStanding(t, CandidatePaths(l, p)[k]);
      assert cs[k] == Render(CandidatePaths(l, p)[k]);
    }
    FoundIffLive(t, AliasOf(rel), l.Text());
  }

  lemma FoundIffLive(t: Tree, path: string, roots: Roots)
    ensures Resolve(t, path, roots).Some? <==>
            exists k :: 0 <= k < |Candidates(path, roots)| && Live(t)(Candidates(path, roots)[k])
  {
  }

  lemma LiveIsStanding(t: Tree, p: Path)
    requires WellFormed(t) && Normalised(p)
    ensures Live(t)(Render(p)) <==> Lives(t, p)
  {
    LookupOfRender(t, [], p);
  }

  // The four walks together.

  function AllFiles(t: Tree, l: Layout): set<Path> {
    FilesBelow(t, l.Syshub()) + FilesBelow(t, l.Union()) + FilesBelow(t, l.Zaisys())
  }

  /** The musl directory's own name taken by something that is not a directory. */
  predicate MuslIsAFile(t: Tree, l: Layout) {
    l.MuslSysdir() in t && t[l.MuslSysdir()] != Dir
  }

  lemma BelowMusl(t: Tree, l: Layout, p: Path)
    requires l.MuslSysdir() <= p
    ensures l.Syshub() < p
  {
  }

  /** The walk of syshub and the walk of the musl directory share no file, and leave none out
      but the musl directory's own name. */
  lemma {:induction false} SyshubSplits(t: Tree, l: Layout)
    ensures var hub := WalkFiles(t, l.Syshub(), Some(l.MuslSysdir()));
            var musl := WalkFiles(t, l.MuslSysdir(), None);
            && hub !! musl
            && FilesBelow(t, l.Syshub()) ==
               hub + musl + (if MuslIsAFile(t, l) then {l.MuslSysdir()} else {})
            && l.MuslSysdir() !in hub + musl
  {
    var m := l.MuslSysdir();
    forall p | p in t && m <= p ensures l.Syshub() < p && (m < p <==> p != m) {
      BelowMusl(t, l, p);
    }
    assert |l.Syshub()| < |m|;
  }

  /** The roots differ in the name after `overlayer`. */
  lemma {:induction false} RootsApart(t: Tree, l: Layout)
    ensures FilesBelow(t, l.Syshub()) !! FilesBelow(t, l.Union())
    ensures FilesBelow(t, l.Syshub()) !! FilesBelow(t, l.Zaisys())
    ensures FilesBelow(t, l.Union()) !! FilesBelow(t, l.Zaisys())
  {
    var k := |l.Overlayer()|;
    assert forall p :: p in FilesBelow(t, l.Syshub()) ==> p[k] == "syshub";
    assert forall p :: p in FilesBelow(t, l.Union()) ==> p[k] == "zexlib";
    assert forall p :: p in FilesBelow(t, l.Zaisys()) ==> p[k] == "zaisys";
    assert "syshub"[0] == 's' && "zexlib"[1] == 'e' && "zaisys"[1] == 'a';
  }

  /** The four walks together see every file below syshub, the union and zaisys once. They miss
      one, exactly when the musl directory's own name is taken by a file. */
  lemma {:induction false} WalksPartition(t: Tree, l: Layout)
    ensures |WalkFiles(t, l.Syshub(), Some(l.MuslSysdir()))| + |WalkFiles(t, l.MuslSysdir(), None)|
            + |WalkFiles(t, l.Union(), None)| + |WalkFiles(t, l.Zaisys(), None)|
            == |AllFiles(t, l)| - (if MuslIsAFile(t, l) then 1 else 0)
  {
    SyshubSplits(t, l);
    RootsApart(t, l);
    SumOfParts(WalkFiles(t, l.Syshub(), Some(l.MuslSysdir())), WalkFiles(t, l.MuslSysdir(), None),
               if MuslIsAFile(t, l) then {l.MuslSysdir()} else {}, FilesBelow(t, l.Syshub()),
               FilesBelow(t, l.Union()), FilesBelow(t, l.Zaisys()));
    WholeWalk(t, l.Union());
    WholeWalk(t, l.Zaisys());
  }

  lemma WholeWalk(t: Tree, root: Path)
    ensures WalkFiles(t, root, None) == FilesBelow(t, root)
  {
  }

  lemma SumOfParts<T>(a: set<T>, b: set<T>, c: set<T>, abc: set<T>, d: set<T>, e: set<T>)
    requires a !! b && a + b !! c && abc == a + b + c
    requires abc !! d && abc !! e && d !! e
    ensures |abc + d + e| == |a| + |b| + |c| + |d| + |e|
  {
  }

  /** Every name in the tree is text. */
  ghost predicate AllText(t: Tree) {
    forall p :: p in t ==> TextNames(p)
  }

  /** The miss is what there is to say about a displaced file of the walk. */
  ghost predicate OfDisplaced(t: Tree, roots: Roots, root: string, rels: seq<Path>, m: Miss) {
    exists i :: 0 <= i < |rels| && Displaced(rels[i]) && MissOf(t, roots, root, rels[i]) == Some(m)
  }

  /** Completeness of one report: whatever it calls unresolved is a displaced file. */
  lemma {:induction false} MissesExplained(t: Tree, l: Layout, k: nat, exclude: Option<Path>, rels: seq<Path>)
    requires l.Valid() && WellFormed(t) && AllText(t) && k < 4
    requires WalkOf(t, l.ProbeOrder()[k], exclude, rels)
    ensures forall m :: m in MissesOf(t, l.Text(), Render(l.ProbeOrder()[k]), rels) && m.reason == NoAliasResolved ==>
                        OfDisplaced(t, l.Text(), Render(l.ProbeOrder()[k]), rels, m)
  {
    hide MissOf, MissesOf, WellFormed, Displaced;
    var root := l.ProbeOrder()[k];
    ReportIsExact(t, l.Text(), Render(root), rels);
    forall m | m in MissesOf(t, l.Text(), Render(root), rels) && m.reason == NoAliasResolved
      ensures OfDisplaced(t, l.Text(), Render(root), rels, m)
    {
      var i :| 0 <= i < |rels| && MissOf(t, l.Text(), Render(root), rels[i]) == Some(m);
      assert rels[i] in rels;
      TextTail(root, rels[i]);
      MissesAreDisplaced(t, l, k, rels[i]);
    }
  }

  lemma TextTail(root: Path, rel: Path)
    requires TextNames(root + rel)
    ensures TextNames(rel)
  {
    assert forall i :: 0 <= i < |rel| ==> rel[i] == (root + rel)[|root| + i];
  }

  /** The whole audit: how many files the four results count together, and what each reports. */
  method FullAudit(t: Tree, l: Layout) returns (results: seq<AuditResult>, ghost walked: seq<seq<Path>>)
    requires WellFormed(t)
    ensures |results| == 4 && |walked| == 4
    ensures results[0].rootLabel == "syshub" && results[1].rootLabel == "MUSL_SYSDIR"
    ensures results[2].rootLabel == "zexlib/union" && results[3].rootLabel == "zaisys"
    ensures forall k :: 0 <= k < 4 ==> results[k].checked == |walked[k]|
    ensures results[0].checked + results[1].checked + results[2].checked + results[3].checked ==
            |AllFiles(t, l)| - (if MuslIsAFile(t, l) then 1 else 0)
    ensures forall k :: 0 <= k < 4 ==>
              results[k].misses == MissesOf(t, l.Text(), Render(l.ProbeOrder()[k]), walked[k])
    ensures forall k :: 0 <= k < 4 ==>
              WalkOf(t, l.ProbeOrder()[k], if k == 0 then Some(l.MuslSysdir()) else None, walked[k])
    ensures l.Valid() && AllText(t) ==>
              forall k, m :: 0 <= k < 4 && m in results[k].misses && m.reason == NoAliasResolved ==>
                             OfDisplaced(t, l.Text(), Render(l.ProbeOrder()[k]), walked[k], m)
  {
    hide WalkOf, MissesOf, WalkFiles, AllFiles, MuslIsAFile, WellFormed, OfDisplaced, AllText;
    var hub, hubFiles := AuditOneRoot("syshub", t, l, l.Syshub(), Some(l.MuslSysdir()));
    var musl, muslFiles := AuditOneRoot("MUSL_SYSDIR", t, l, l.MuslSysdir(), None);
    var union, unionFiles := AuditOneRoot("zexlib/union", t, l, l.Union(), None);
    var zaisys, zaisysFiles := AuditOneRoot("zaisys", t, l, l.Zaisys(), None);
    results, walked := [hub, musl, union, zaisys], [hubFiles, muslFiles, unionFiles, zaisysFiles];
    WalkCounts(t, l.Syshub(), Some(l.MuslSysdir()), hubFiles);
    WalkCounts(t, l.MuslSysdir(), None, muslFiles);
    WalkCounts(t, l.Union(), None, unionFiles);
    WalkCounts(t, l.Zaisys(), None, zaisysFiles);
    WalksPartition(t, l);
    if l.Valid() && AllText(t) {
      forall k | 0 <= k < 4
        ensures forall m :: m in results[k].misses && m.reason == NoAliasResolved ==>
                            OfDisplaced(t, l.Text(), Render(l.ProbeOrder()[k]), walked[k], m)
      {
        MissesExplained(t, l, k, if k == 0 then Some(l.MuslSysdir()) else None, walked[k]);
      }
    }
  }
}
