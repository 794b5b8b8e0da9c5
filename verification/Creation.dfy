/** Where a redirected rename, link, symlink or mkdir puts its new name, and whether a later
    lookup finds it there (src/preload.rs). */
module Creation {
  import opened Text
  import opened Paths
  import opened FileTree
  import opened Remap
  import opened Fallback

  /** `parent().is_some_and(is_dir)` of an absolute text. */
  predicate ParentIsDir(t: Tree, text: string) {
    var steps := Steps(text);
    steps != [] &&
    var found := Namei(t, [], steps[..|steps| - 1]);
    found.At? && IsDir(t, found.path)
  }

  function Holds(t: Tree): string -> bool {
    (c: string) => ParentIsDir(t, c)
  }

  /** The first candidate that a new entry could be made at. */
  function CreateTarget(t: Tree, path: string, roots: Roots): Option<string> {
    Find(Candidates(path, roots), Holds(t))
  }

  /** A real function of an old and a new path. */
  type PairCall = (Tree, string, string) -> Outcome<int>

  function OrElse(o: Option<string>, default: string): string {
    match o case Some(v) => v case None => default
  }

  function TwoPathsOutcome(f: PairCall, t: Tree, old_: string, new_: string, oldExists: bool, roots: Roots)
    : Outcome<int>
  {
    var r := f(t, old_, new_);
    if r.value == 0 || r.errno != ENOENT then r
    else
      var o := if oldExists then ExistingTarget(r.tree, old_, roots) else None;
      var n := CreateTarget(r.tree, new_, roots);
      if o.None? && n.None? then r else f(r.tree, OrElse(o, old_), OrElse(n, new_))
  }

  /** The candidate whose parent is a directory with none before it. */
  method FindCreatable(os: Os, path: string) returns (c: Option<string>)
    modifies os`errno
    ensures c == CreateTarget(os.tree, path, os.roots)
    ensures c.None? ==> forall j :: 0 <= j < |Candidates(path, os.roots)| ==>
                                      !ParentIsDir(os.tree, Candidates(path, os.roots)[j])
    ensures c.Some? ==> exists k :: 0 <= k < |Candidates(path, os.roots)| && c.value == Candidates(path, os.roots)[k]
                                    && ParentIsDir(os.tree, c.value)
                                    && forall j :: 0 <= j < k ==> !ParentIsDir(os.tree, Candidates(path, os.roots)[j])
  {
    hide Candidates, ParentIsDir;
    var cands := Candidates(path, os.roots);
    for i := 0 to |cands|
      invariant forall j :: 0 <= j < i ==> !ParentIsDir(os.tree, cands[j])
    {
      var home := ParentIsDir(os.tree, cands[i]);
      os.errno := *;
      if home {
        FirstIs(cands, Holds(os.tree), i);
        return Some(cands[i]);
      }
    }
    FirstIs(cands, Holds(os.tree), |cands|);
    return None;
  }

  /** One call with both names; if something was missing, one more with each name replaced that has
      a candidate to take its place. */
  method TwoPaths(os: Os, old_: string, new_: string, oldExists: bool, f: PairCall) returns (r: int)
    modifies os
    ensures Outcome(r, os.tree, os.errno) == TwoPathsOutcome(f, old(os.tree), old_, new_, oldExists, os.roots)
    ensures var o := f(old(os.tree), old_, new_);
            o.value == 0 || o.errno != ENOENT ==> Outcome(r, os.tree, os.errno) == o
  {
    var reply := f(os.tree, old_, new_);
    os.tree, os.errno, r := reply.tree, reply.errno, reply.value;
    if r == 0 || os.errno != ENOENT {
      return;
    }
    var first := os.errno;
    var o: Option<string> := None;
    if oldExists {
      o := os.FindExisting(old_);
    }
    var n := FindCreatable(os, new_);
    if o.None? && n.None? {
      os.errno := first;
      return;
    }
    var reply2 := f(os.tree, OrElse(o, old_), OrElse(n, new_));
    os.tree, os.errno, r := reply2.tree, reply2.errno, reply2.value;
    if r != 0 && os.errno == ENOENT {
      os.errno := first;
    }
  }

  // The same choices on names.

  function In(t: Tree): Path -> bool {
    (c: Path) => c in t
  }

  function HasHome(t: Tree): Path -> bool {
    (c: Path) => IsDir(t, Parent(c))
  }

  function Rendered(o: Option<Path>): Option<string> {
    match o case Some(c) => Some(Render(c)) case None => None
  }

  lemma FindRendered(texts: seq<string>, paths: seq<Path>, p: string -> bool, q: Path -> bool)
    requires |texts| == |paths|
    requires forall i :: 0 <= i < |paths| ==> texts[i] == Render(paths[i]) && p(texts[i]) == q(paths[i])
    ensures Find(texts, p) == Rendered(Find(paths, q))
  {
  }

  lemma {:induction false} ParentOfRender(t: Tree, c: Path)
    requires WellFormed(t) && Normalised(c) && c != []
    ensures ParentIsDir(t, Render(c)) <==> IsDir(t, Parent(c))
  {
    StepsOfRender(c);
    assert Names(c)[..|c| - 1] == Names(Parent(c));
    NameiOfPath(t, Parent(c));
  }

  lemma {:induction false} TargetsByPaths(l: Layout, t: Tree, p: Path)
    requires l.Valid() && WellFormed(t) && Classic(p)
    ensures ExistingTarget(t, Render(p), l.Text()) == Rendered(Find(CandidatePaths(l, p), In(t)))
    ensures CreateTarget(t, Render(p), l.Text()) == Rendered(Find(CandidatePaths(l, p), HasHome(t)))
  {
    CandidatesAgree(l, p);
    var texts, paths := Candidates(Render(p), l.Text()), CandidatePaths(l, p);
    forall i | 0 <= i < 4
      ensures Stands(t)(texts[i]) == In(t)(paths[i]) && Holds(t)(texts[i]) == HasHome(t)(paths[i])
    {
      LookupOfRender(t, [], paths[i]);
      ParentOfRender(t, paths[i]);
    }
    FindRendered(texts, paths, Stands(t), In(t));
    FindRendered(texts, paths, Holds(t), HasHome(t));
  }

  /** Nothing new outside the subtree at `n`. */
  ghost predicate GrowsOnlyAt(t: Tree, t': Tree, n: Path) {
    forall q :: q in t' ==> q in t || n <= q
  }

  ghost predicate Placed(t: Tree, t': Tree, n: Path) {
    WellFormed(t') && n in t' && GrowsOnlyAt(t, t', n)
  }

  /** `rename`, `link` and `symlink`: only success changes the tree, and then everything new is
      at or below the new name. */
  ghost predicate Places(f: PairCall) {
    forall t, o, n {:trigger f(t, o, n)} :: WellFormed(t) ==> PlacesAt(f(t, o, n), t, n)
  }

  ghost predicate PlacesAt(r: Outcome<int>, t: Tree, n: string) {
    && (r.value != 0 ==> r.tree == t)
    && (r.value == 0 ==> forall p :: Normalised(p) && Render(p) == n ==> Placed(t, r.tree, p))
  }

  /** No candidate is below one of a later root, so filling a later one never supplies an earlier one. */
  lemma {:induction false} CandidatesNotNested(l: Layout, p: Path, j: nat, k: nat)
    requires j < k < 4
    ensures !(CandidatePaths(l, p)[k] <= CandidatePaths(l, p)[j])
  {
    var c, d := CandidatePaths(l, p)[k], CandidatePaths(l, p)[j];
    var o := |l.Overlayer()|;
    assert l.Overlayer() == c[..o] == d[..o];
    if k >= 2 {
      assert c[o] == if k == 2 then "zexlib" else "zaisys";
      assert d[o] == if j == 2 then "zexlib" else "syshub";
      assert d[o][0] == if j == 2 then 'z' else 's';
      assert c[o][0] == 'z' && c[o][1] == if k == 2 then 'e' else 'a';
      assert d[o] != c[o];
    }
  }

  /** What a new node brings never stands at an earlier candidate. */
  lemma {:induction false} EarlierAreOld(l: Layout, t: Tree, t': Tree, p: Path, k: nat)
    requires k < 4 && GrowsOnlyAt(t, t', CandidatePaths(l, p)[k])
    ensures forall j :: 0 <= j < k && CandidatePaths(l, p)[j] in t' ==> CandidatePaths(l, p)[j] in t
  {
    forall j | 0 <= j < k ensures CandidatePaths(l, p)[j] in t' ==> CandidatePaths(l, p)[j] in t {
      CandidatesNotNested(l, p, j, k);
    }
  }

  /** A candidate that exists is the one found exactly when no earlier one exists. */
  lemma {:induction false} FoundIff(l: Layout, t: Tree, p: Path, k: nat)
    requires l.Valid() && WellFormed(t) && Classic(p) && k < 4 && CandidatePaths(l, p)[k] in t
    ensures ExistingTarget(t, Render(p), l.Text()) == Some(Render(CandidatePaths(l, p)[k])) <==>
            forall j :: 0 <= j < k ==> CandidatePaths(l, p)[j] !in t
  {
    TargetsByPaths(l, t, p);
    CandidatesDiffer(l, p);
    FoundAmong(CandidatePaths(l, p), t, k);
  }

  lemma {:induction false} FoundAmong(cands: seq<Path>, t: Tree, k: nat)
    requires k < |cands| && cands[k] in t
    requires forall i :: 0 <= i < |cands| ==> Normalised(cands[i])
    requires forall i, j :: 0 <= i < j < |cands| ==> cands[i] != cands[j]
    ensures Rendered(Find(cands, In(t))) == Some(Render(cands[k])) <==> forall j :: 0 <= j < k ==> cands[j] !in t
  {
    FirstStands(cands, t, k);
    var i := First(cands, In(t));
    if i < k && Render(cands[i]) == Render(cands[k]) {
      RenderIsInjective(cands[i], cands[k]);
    }
  }

  lemma FirstStands(cands: seq<Path>, t: Tree, k: nat)
    requires k < |cands| && cands[k] in t
    ensures First(cands, In(t)) <= k && cands[First(cands, In(t))] in t
    ensures forall j :: 0 <= j < First(cands, In(t)) ==> cands[j] !in t
    ensures Find(cands, In(t)) == Some(cands[First(cands, In(t))])
  {
  }

  lemma {:induction false} CandidatesDiffer(l: Layout, p: Path)
    requires l.Valid() && Classic(p)
    ensures forall i :: 0 <= i < 4 ==> Normalised(CandidatePaths(l, p)[i]) && CandidatePaths(l, p)[i] != []
    ensures forall j, k :: 0 <= j < k < 4 ==> CandidatePaths(l, p)[j] != CandidatePaths(l, p)[k]
  {
    CandidatesAgree(l, p);
    forall j, k | 0 <= j < k < 4 ensures CandidatePaths(l, p)[j] != CandidatePaths(l, p)[k] {
      CandidatesNotNested(l, p, j, k);
    }
  }

  lemma {:induction false} RenderIsInjective(a: Path, b: Path)
    requires Normalised(a) && Normalised(b) && Render(a) == Render(b)
    ensures a == b
  {
    StepsOfRender(a);
    StepsOfRender(b);
    assert forall i :: 0 <= i < |a| && i < |b| ==> Names(a)[i] == Normal(a[i]) && Names(b)[i] == Normal(b[i]);
  }

  /** A redirected two-path call that succeeded: what makes the call at `n` its effect. */
  ghost predicate RedirectedPair(f: PairCall, t: Tree, old_: string, p: Path, oldExists: bool, roots: Roots) {
    && f(t, old_, Render(p)).value != 0 && f(t, old_, Render(p)).errno == ENOENT
    && CreateTarget(t, Render(p), roots).Some?
    && TwoPathsOutcome(f, t, old_, Render(p), oldExists, roots).value == 0
  }

  lemma {:induction false} FirstHome(cands: seq<Path>, t: Tree) returns (k: nat)
    requires WellFormed(t) && Rendered(Find(cands, HasHome(t))).Some?
    requires forall i :: 0 <= i < |cands| ==> cands[i] != []
    ensures k < |cands| && Rendered(Find(cands, HasHome(t))) == Some(Render(cands[k])) && IsDir(t, Parent(cands[k]))
    ensures forall j :: 0 <= j < k ==> cands[j] !in t
  {
    k := First(cands, HasHome(t));
    forall j | 0 <= j < k ensures cands[j] !in t {
      assert !HasHome(t)(cands[j]);
    }
  }

  /** The first candidate with a home: no earlier one exists. */
  lemma {:induction false} ChosenHome(l: Layout, t: Tree, p: Path) returns (k: nat)
    requires l.Valid() && WellFormed(t) && Classic(p) && CreateTarget(t, Render(p), l.Text()).Some?
    ensures k < 4 && CreateTarget(t, Render(p), l.Text()) == Some(Render(CandidatePaths(l, p)[k]))
    ensures Normalised(CandidatePaths(l, p)[k]) && IsDir(t, Parent(CandidatePaths(l, p)[k]))
    ensures forall j :: 0 <= j < k ==> CandidatePaths(l, p)[j] !in t
  {
    hide *;
    TargetsByPaths(l, t, p);
    CandidatesDiffer(l, p);
    k := FirstHome(CandidatePaths(l, p), t);
  }

  lemma {:induction false} PlacedByPair(l: Layout, f: PairCall, t: Tree, old_: string, p: Path, oldExists: bool)
    returns (k: nat)
    requires l.Valid() && WellFormed(t) && Classic(p) && Places(f)
    requires RedirectedPair(f, t, old_, p, oldExists, l.Text())
    ensures k < 4 && CreateTarget(t, Render(p), l.Text()) == Some(Render(CandidatePaths(l, p)[k]))
    ensures IsDir(t, Parent(CandidatePaths(l, p)[k]))
    ensures forall j :: 0 <= j < k ==> CandidatePaths(l, p)[j] !in t
    ensures Placed(t, TwoPathsOutcome(f, t, old_, Render(p), oldExists, l.Text()).tree, CandidatePaths(l, p)[k])
  {
    assert PlacesAt(f(t, old_, Render(p)), t, Render(p));
    k := ChosenHome(l, t, p);
    var n := Render(CandidatePaths(l, p)[k]);
    var o := if oldExists then ExistingTarget(t, old_, l.Text()) else None;
    assert PlacesAt(f(t, OrElse(o, old_), n), t, n);
  }

  /** Create-then-find for `rename`, `link` and `symlink`: once the new name was redirected and the
      call succeeded, the name is found at exactly the node `create_target` chose. */
  lemma {:induction false} CreateThenFind(
      l: Layout, f: PairCall, t: Tree, old_: string, p: Path, oldExists: bool)
    requires l.Valid() && WellFormed(t) && Classic(p) && Places(f)
    requires RedirectedPair(f, t, old_, p, oldExists, l.Text())
    ensures var t' := TwoPathsOutcome(f, t, old_, Render(p), oldExists, l.Text()).tree;
            && WellFormed(t')
            && ExistingTarget(t', Render(p), l.Text()) == CreateTarget(t, Render(p), l.Text())
  {
    var k := PlacedByPair(l, f, t, old_, p, oldExists);
    var t' := TwoPathsOutcome(f, t, old_, Render(p), oldExists, l.Text()).tree;
    EarlierAreOld(l, t, t', p, k);
    FoundIff(l, t', p, k);
  }

  /** No in-scope name at the root itself. */
  ghost predicate RootIsBare(t: Tree) {
    forall q :: q in t && q != [] ==> q[0] !in SCOPE
  }

  lemma StaysBare(l: Layout, t: Tree, t': Tree, rel: Path, k: nat)
    requires RootIsBare(t) && k < 4 && rel != [] && IsDir(t, Parent(l.ProbeOrder()[k] + rel))
    requires GrowsOnlyAt(t, t', l.ProbeOrder()[k] + rel)
    ensures RootIsBare(t')
  {
  }

  /** A bare root stays bare under such a call, so nothing ever lives at the new name itself. */
  lemma {:induction false} CreateStaysBare(
      l: Layout, f: PairCall, t: Tree, old_: string, p: Path, oldExists: bool)
    requires l.Valid() && WellFormed(t) && Classic(p) && Places(f) && RootIsBare(t)
    requires RedirectedPair(f, t, old_, p, oldExists, l.Text())
    ensures var t' := TwoPathsOutcome(f, t, old_, Render(p), oldExists, l.Text()).tree;
            RootIsBare(t') && !Lives(t', p)
  {
    var k := PlacedByPair(l, f, t, old_, p, oldExists);
    CandidatesAgree(l, p);
    StaysBare(l, t, TwoPathsOutcome(f, t, old_, Render(p), oldExists, l.Text()).tree, StripNames(p), k);
  }

  /** A later lookup of the new name through the fallback reaches the node `create_target` chose,
      unless something lives at the name itself: then it reaches that. */
  lemma {:induction false} CreateThenLookup<T>(
      l: Layout, f: PairCall, t: Tree, old_: string, p: Path, oldExists: bool,
      g: Call<T>, failed: T -> bool, cwd: Path)
    requires l.Valid() && WellFormed(t) && Classic(p) && Places(f) && Answers(g, failed, cwd)
    requires RedirectedPair(f, t, old_, p, oldExists, l.Text())
    ensures var t' := TwoPathsOutcome(f, t, old_, Render(p), oldExists, l.Text()).tree;
            var n := CreateTarget(t, Render(p), l.Text()).value;
            Exists(t', n) ==> Redirected(g, failed, t', Render(p), l.Text()) ==
                              if Lives(t', p) then g(t', Render(p)) else g(t', n)
  {
    hide Redirected, Answers;
    CreateThenFind(l, f, t, old_, p, oldExists);
    var t' := TwoPathsOutcome(f, t, old_, Render(p), oldExists, l.Text()).tree;
    var n := CreateTarget(t, Render(p), l.Text()).value;
    if Exists(t', n) {
      LookupOfFound(l, g, failed, cwd, t', p, n);
    }
  }

  lemma {:induction false} LookupOfFound<T>(
      l: Layout, g: Call<T>, failed: T -> bool, cwd: Path, t: Tree, p: Path, n: string)
    requires l.Valid() && WellFormed(t) && Classic(p) && Answers(g, failed, cwd)
    requires ExistingTarget(t, Render(p), l.Text()) == Some(n) && Exists(t, n)
    ensures Redirected(g, failed, t, Render(p), l.Text()) == if Lives(t, p) then g(t, Render(p)) else g(t, n)
  {
    LookupOfRender(t, cwd, p);
    FallbackRefinesResolve(l, g, failed, cwd, t, Render(p));
    ResolvedFirst(Candidates(Render(p), l.Text()), t, n);
  }

  lemma ResolvedFirst(cands: seq<string>, t: Tree, n: string)
    requires Find(cands, Stands(t)) == Some(n) && Exists(t, n)
    ensures Find(cands, Live(t)) == Some(n)
  {
    hide First, LookupText;
    var i := First(cands, Stands(t));
    forall j | 0 <= j < i ensures !Live(t)(cands[j]) {
      assert !Stands(t)(cands[j]);
    }
    FirstIs(cands, Live(t), i);
  }

  /** A redirected `rename`, `link` or `symlink` acts on the tree at most once, and not at all when
      it reports failure. */
  lemma {:induction false} PairActsOnce(f: PairCall, t: Tree, old_: string, new_: string, oldExists: bool, roots: Roots)
    requires forall t, o, n {:trigger f(t, o, n)} :: f(t, o, n).value != 0 ==> f(t, o, n).tree == t
    ensures var r := TwoPathsOutcome(f, t, old_, new_, oldExists, roots);
            && (r.value != 0 ==> r.tree == t)
            && (r.value == 0 ==>
                  exists o, n :: o in [old_] + (if oldExists then Candidates(old_, roots) else [])
                                 && n in [new_] + Candidates(new_, roots) && r == f(t, o, n))
  {
    var r := f(t, old_, new_);
    if r.value != 0 && r.errno == ENOENT {
      var o := if oldExists then ExistingTarget(t, old_, roots) else None;
      var n := CreateTarget(t, new_, roots);
      var r2 := f(t, OrElse(o, old_), OrElse(n, new_));
    }
  }

  /** `mkdir`, `mkfifo`, `mknod`: success makes one new node and loses none. */
  ghost predicate Makes(f: Call<int>) {
    forall t, n {:trigger f(t, n)} :: WellFormed(t) ==> MakesAt(f(t, n), t, n)
  }

  ghost predicate MakesAt(r: Outcome<int>, t: Tree, n: string) {
    && (r.value < 0 ==> r.tree == t)
    && (r.value >= 0 ==> forall p :: Normalised(p) && Render(p) == n ==>
                                       Placed(t, r.tree, p) && p !in t && t.Keys <= r.tree.Keys)
  }

  function Negative(): int -> bool {
    (r: int) => r < 0
  }

  /** These go through `with_fallback` instead, which moves on from EEXIST. The node made is the
      one found afterwards exactly when no earlier candidate existed before. */
  lemma {:induction false} MadeIsFoundIff(l: Layout, f: Call<int>, t: Tree, p: Path) returns (k: nat)
    requires l.Valid() && WellFormed(t) && Classic(p) && Makes(f)
    requires f(t, Render(p)).value < 0 && f(t, Render(p)).errno == ENOENT
    requires Redirected(f, Negative(), t, Render(p), l.Text()).value >= 0
    ensures k < 4
    ensures var o := Redirected(f, Negative(), t, Render(p), l.Text());
            && o == f(t, Render(CandidatePaths(l, p)[k])) && CandidatePaths(l, p)[k] !in t
            && (ExistingTarget(o.tree, Render(p), l.Text()) == Some(Render(CandidatePaths(l, p)[k])) <==>
                forall j :: 0 <= j < k ==> CandidatePaths(l, p)[j] !in t)
  {
    var o := Redirected(f, Negative(), t, Render(p), l.Text());
    assert MakesAt(f(t, Render(p)), t, Render(p));
    CandidatesAgree(l, p);
    k := FirstGoodAt(f, t, Candidates(Render(p), l.Text()), f(t, Render(p)).value);
    var c := CandidatePaths(l, p)[k];
    assert MakesAt(f(t, Render(c)), t, Render(c));
    assert Placed(t, o.tree, c);
    EarlierAreOld(l, t, o.tree, p, k);
    FoundIff(l, o.tree, p, k);
  }

  lemma {:induction false} FirstGoodAt(f: Call<int>, t: Tree, cands: seq<string>, original: int) returns (k: nat)
    requires Makes(f) && WellFormed(t) && original < 0
    requires Retried(f, Negative(), t, cands, original, ENOENT).value >= 0
    ensures k < |cands| && Retried(f, Negative(), t, cands, original, ENOENT) == f(t, cands[k])
    decreases |cands|
  {
    if f(t, cands[0]).value >= 0 {
      k := 0;
    } else {
      assert MakesAt(f(t, cands[0]), t, cands[0]);
      k := FirstGoodAt(f, t, cands[1..], original);
      k := k + 1;
    }
  }
}
