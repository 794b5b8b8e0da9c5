/** A kernel without permissions that meets the contracts the redirected calls rely on, and what
    the hooks do on top of it. */
module Kernel {
  import opened Text
  import opened Paths
  import opened FileTree
  import opened Remap
  import opened Fallback
  import opened Deletion
  import opened Creation

  function Start(base: Path, text: string): Path {
    if IsAbsolute(text) then [] else base
  }

  /** The last piece of a path, slashes at its end aside. */
  function LastPiece(segments: seq<string>): string {
    if segments == [] then ""
    else if segments[|segments| - 1] != "" then segments[|segments| - 1]
    else LastPiece(segments[..|segments| - 1])
  }

  predicate TrailingSlash(text: string) {
    |text| > 0 && text[|text| - 1] == '/'
  }

  /** Where an entry named `text` is or would be. A path that ends in `.` or `..`, or is the root,
      names no entry; EEXIST stands for that, once everything in front of it was found. */
  function Entry(t: Tree, base: Path, text: string): Lookup {
    var steps := Steps(text);
    if text == "" then Missing(ENOENT)
    else if steps == [] || LastPiece(Split(text, '/')) == "." then
      match Namei(t, Start(base, text), steps)
      case Missing(e) => Missing(e)
      case At(d) => Missing(if IsDir(t, d) then EEXIST else ENOTDIR)
    else
      match Namei(t, Start(base, text), steps[..|steps| - 1])
      case Missing(e) => Missing(e)
      case At(d) =>
        if !IsDir(t, d) then Missing(ENOTDIR)
        else
          match steps[|steps| - 1]
          case Normal(n) => At(d + [n])
          case _ => Missing(EEXIST)
  }

  lemma {:induction false} EntryWalks(t: Tree, base: Path, c: Path)
    requires Normalised(c) && c != []
    ensures Entry(t, base, Render(c)) ==
            match Namei(t, [], Names(Parent(c)))
            case Missing(e) => Missing(e)
            case At(d) => if IsDir(t, d) then At(d + [c[|c| - 1]]) else Missing(ENOTDIR)
    ensures !TrailingSlash(Render(c))
  {
    hide Namei, Steps, Split;
    StepsOfRender(c);
    SplitRender(c);
    RelativeEnd(c);
    assert Names(c)[..|c| - 1] == Names(Parent(c));
    assert ([""] + c)[|c|] == c[|c| - 1] && IsName(c[|c| - 1]);
  }

  lemma {:induction false} EntryOfRender(t: Tree, base: Path, c: Path)
    requires WellFormed(t) && Normalised(c) && c != []
    ensures Entry(t, base, Render(c)).At? <==> IsDir(t, Parent(c))
    ensures IsDir(t, Parent(c)) ==> Entry(t, base, Render(c)) == At(c)
    ensures !TrailingSlash(Render(c))
  {
    hide Entry, Namei, WellFormed, Steps, Normalised, TrailingSlash;
    EntryWalks(t, base, c);
    NameiOfPath(t, Parent(c));
    assert Parent(c) + [c[|c| - 1]] == c;
  }

  /** The whole of it for a normalised path, by names. */
  lemma {:induction false} EntryIsExact(t: Tree, base: Path, c: Path)
    requires WellFormed(t) && Normalised(c) && c != []
    ensures Entry(t, base, Render(c)) ==
            if IsDir(t, Parent(c)) then At(c) else Missing(if Blocked(t, c) then ENOTDIR else ENOENT)
  {
    hide Entry, Namei, WellFormed, Normalised;
    EntryWalks(t, base, c);
    NameiOfPath(t, Parent(c));
    NameiErrors(t, [], Names(Parent(c)));
    BlockedIff(t, [], Parent(c));
    assert Parent(c) + [c[|c| - 1]] == c;
    forall k | 0 <= k < |c| ensures k < |c| - 1 ==> [] + Parent(c)[..k] == c[..k] {
    }
    assert c[..|c| - 1] == Parent(c);
    assert !IsDir(t, Parent(c)) && Parent(c) in t ==> Blocked(t, c);
    if k :| 0 <= k < |c| - 1 && [] + Parent(c)[..k] in t && t[[] + Parent(c)[..k]] != Dir {
      assert c[..k] in t;
    }
    if Blocked(t, c) {
      var k :| 0 <= k < |c| && c[..k] in t && t[c[..k]] != Dir;
      assert k < |c| - 1 ==> [] + Parent(c)[..k] in t;
    }
  }

  predicate HasChildren(t: Tree, p: Path) {
    exists q :: q in t && q != [] && Parent(q) == p
  }

  function Unlink(base: Option<Path>): Call<int> {
    (t: Tree, text: string) =>
      if !IsAbsolute(text) && base.None? then Outcome(-1, t, ENOTDIR)
      else
        var found := LookupText(t, if IsAbsolute(text) then [] else base.value, text);
        if found.Missing? then Outcome(-1, t, found.errno)
        else if IsDir(t, found.path) then Outcome(-1, t, EISDIR)
        else Outcome(0, t - {found.path}, 0)
  }

  lemma UnlinkRemoves(base: Option<Path>)
    ensures Removes(Unlink(base), base)
  {
  }

  /** The guard is exact: a program other than zex can unlink a file that is not a directory by
      its own path exactly when the guard does not cover it. */
  lemma {:induction false} DeletableIffUnguarded(l: Layout, t: Tree, p: Path, dir: Directory)
    requires l.Valid() && WellFormed(t) && p in t && t[p] != Dir
    ensures p !in HookOutcome(l, t, dir, Render(p), false, Unlink(dir.path)).tree <==> !Guarded(l, t, p)
  {
    LookupOfRender(t, [], p);
    StepsOfRender(p);
    FoldedNames([], p);
    assert [] + p == p;
  }

  /** Said by names: of the files below syshub exactly those in `var`, in `etc` or with a counterpart in
      the union can be unlinked, and so can every file elsewhere. */
  lemma {:induction false} DeletableIff(l: Layout, t: Tree, p: Path, dir: Directory)
    requires l.Valid() && WellFormed(t) && p in t && t[p] != Dir
    ensures var t' := HookOutcome(l, t, dir, Render(p), false, Unlink(dir.path)).tree;
            p !in t' <==>
            || !(l.Syshub() <= p)
            || var rel := p[|l.Syshub()|..];
               rel != [] && (rel[0] == "var" || rel[0] == "etc" || l.Union() + rel in t)
  {
    hide HookOutcome, Unlink;
    DeletableIffUnguarded(l, t, p, dir);
  }

  /** What the `unlink` hook makes of a normalised path, from the guard to the guarded retry. */
  lemma {:induction false} UnlinkExact(l: Layout, t: Tree, p: Path, dir: Directory, zex: bool)
    requires l.Valid() && WellFormed(t) && Normalised(p)
    ensures HookOutcome(l, t, dir, Render(p), zex, Unlink(dir.path)) ==
            if Guarded(l, t, p) && !zex then Outcome(-1, t, EPERM)
            else if p in t then Unlinked(t, p)
            else if Blocked(t, p) then Outcome(-1, t, ENOTDIR)
            else if !Classic(p) then Outcome(-1, t, ENOENT)
            else
              match Find(CandidatePaths(l, p), In(t))
              case None => Outcome(-1, t, ENOENT)
              case Some(c) => if Guarded(l, t, c) && !zex then Outcome(-1, t, EPERM) else Unlinked(t, c)
  {
    hide *;
    RefusesByPath(l, t, dir, p, zex);
    UnlinkAt(t, dir.path, p);
    UnlinkedFails(t, p);
    HookSteps(l, t, dir, Render(p), zex, Unlink(dir.path));
    if Classic(p) {
      TargetsByPaths(l, t, p);
      var found := Find(CandidatePaths(l, p), In(t));
      RenderedIs(found);
      if found.Some? {
        FoundStands(l, t, p);
        RefusesByPath(l, t, dir, found.value, zex);
        UnlinkAt(t, dir.path, found.value);
      }
    } else {
      NoTarget(l, t, p);
    }
  }

  lemma HookSteps(l: Layout, t: Tree, dir: Directory, path: string, zex: bool, f: Call<int>)
    ensures var r := HookOutcome(l, t, dir, path, zex, f);
            if Refuses(l, t, dir, path, zex) then r == Outcome(-1, t, EPERM)
            else if f(t, path) != Outcome(-1, t, ENOENT) then
              f(t, path).value == 0 || f(t, path).errno != ENOENT ==> r == f(t, path)
            else
              match ExistingTarget(t, path, l.Text())
              case None => r == Outcome(-1, t, ENOENT)
              case Some(c) => r == if Refuses(l, t, dir, c, zex) then Outcome(-1, t, EPERM) else f(t, c)
  {
    hide Refuses, ExistingTarget;
  }

  lemma UnlinkedFails(t: Tree, p: Path)
    ensures Unlinked(t, p).value == 0 || Unlinked(t, p).errno != ENOENT
    ensures ENOTDIR != ENOENT
  {
  }

  lemma RenderedIs(o: Option<Path>)
    ensures Rendered(o) == match o case Some(c) => Some(Render(c)) case None => None
  {
  }

  lemma {:induction false} FoundStands(l: Layout, t: Tree, p: Path)
    requires l.Valid() && Classic(p) && Find(CandidatePaths(l, p), In(t)).Some?
    ensures var c := Find(CandidatePaths(l, p), In(t)).value; c in t && Normalised(c)
  {
    CandidatesDiffer(l, p);
    assert In(t)(CandidatePaths(l, p)[First(CandidatePaths(l, p), In(t))]);
  }

  function Unlinked(t: Tree, p: Path): Outcome<int> {
    if IsDir(t, p) then Outcome(-1, t, EISDIR) else Outcome(0, t - {p}, 0)
  }

  lemma {:induction false} UnlinkAt(t: Tree, base: Option<Path>, p: Path)
    requires WellFormed(t) && Normalised(p)
    ensures Unlink(base)(t, Render(p)) ==
            if p in t then Unlinked(t, p) else Outcome(-1, t, if Blocked(t, p) then ENOTDIR else ENOENT)
  {
    LookupIsExact(t, [], p);
  }

  lemma {:induction false} RefusesByPath(l: Layout, t: Tree, dir: Directory, p: Path, zex: bool)
    requires Normalised(p)
    ensures Refuses(l, t, dir, Render(p), zex) <==> Guarded(l, t, p) && !zex
  {
    StepsOfRender(p);
    FoldedNames([], p);
    assert [] + p == p;
  }

  lemma {:induction false} NoTarget(l: Layout, t: Tree, p: Path)
    requires l.Valid() && Normalised(p) && !Classic(p)
    ensures ExistingTarget(t, Render(p), l.Text()) == None
  {
    NoCandidatesIff(l, p);
  }

  function Mkdir(cwd: Path): Call<int> {
    (t: Tree, text: string) =>
      match Entry(t, cwd, text)
      case Missing(e) => Outcome(-1, t, e)
      case At(q) => if q in t then Outcome(-1, t, EEXIST) else Outcome(0, t[q := Dir], 0)
  }

  lemma {:induction false} MkdirMakes(cwd: Path)
    ensures Makes(Mkdir(cwd))
  {
    forall t: Tree, n: string | WellFormed(t) ensures MakesAt(Mkdir(cwd)(t, n), t, n) {
      var r := Mkdir(cwd)(t, n);
      if r.value >= 0 {
        forall p | Normalised(p) && Render(p) == n
          ensures Placed(t, r.tree, p) && p !in t && t.Keys <= r.tree.Keys
        {
          RootIsNoEntry(t, cwd, p);
          EntryOfRender(t, cwd, p);
        }
      }
    }
  }

  lemma RootIsNoEntry(t: Tree, base: Path, p: Path)
    requires Normalised(p) && Entry(t, base, Render(p)).At?
    ensures p != []
  {
    StepsOfRender(p);
  }

  /** `mkdir` of a classic name. One that exists is EEXIST, whatever is vacant below the roots, one with
      its parent is made in place, and one below a file is ENOTDIR. Only then the roots are tried: it
      is made at the first that has its parent and lacks the name, even when an earlier one has the
      name already, and ENOENT comes back when there is none. */
  lemma {:induction false} MkdirExact(l: Layout, t: Tree, p: Path, cwd: Path)
    requires l.Valid() && WellFormed(t) && Classic(p)
    ensures Redirected(Mkdir(cwd), Negative(), t, Render(p), l.Text()) ==
            if p in t then Outcome(-1, t, EEXIST)
            else if IsDir(t, Parent(p)) then Outcome(0, t[p := Dir], 0)
            else if Blocked(t, p) then Outcome(-1, t, ENOTDIR)
            else
              match Find(CandidatePaths(l, p), Vacant(t))
              case Some(c) => Outcome(0, t[c := Dir], 0)
              case None => Outcome(-1, t, ENOENT)
  {
    hide Mkdir, Redirected, Blocked;
    MkdirAt(t, cwd, p);
    if p !in t && !IsDir(t, Parent(p)) && !Blocked(t, p) {
      MkdirRetried(l, t, p, cwd);
    }
    RedirectedFirst(Mkdir(cwd), t, Render(p), l.Text());
  }

  lemma RedirectedFirst(f: Call<int>, t: Tree, path: string, roots: Roots)
    ensures f(t, path).value >= 0 || f(t, path).errno != ENOENT ==>
              Redirected(f, Negative(), t, path, roots) == f(t, path)
    ensures f(t, path) == Outcome(-1, t, ENOENT) ==>
              Redirected(f, Negative(), t, path, roots)
              == Retried(f, Negative(), t, Candidates(path, roots), -1, ENOENT)
  {
  }

  lemma {:induction false} MkdirRetried(l: Layout, t: Tree, p: Path, cwd: Path)
    requires l.Valid() && WellFormed(t) && Classic(p)
    ensures Retried(Mkdir(cwd), Negative(), t, Candidates(Render(p), l.Text()), -1, ENOENT) ==
            match Find(CandidatePaths(l, p), Vacant(t))
            case Some(c) => Outcome(0, t[c := Dir], 0)
            case None => Outcome(-1, t, ENOENT)
  {
    hide Mkdir;
    CandidatesAgree(l, p);
    CandidatesDiffer(l, p);
    var texts, paths := Candidates(Render(p), l.Text()), CandidatePaths(l, p);
    var made := (c: Path) => Outcome(0, t[c := Dir], 0);
    forall i | 0 <= i < 4 ensures
        && (Vacant(t)(paths[i]) ==> Mkdir(cwd)(t, texts[i]) == made(paths[i]))
        && (!Vacant(t)(paths[i]) ==> Mkdir(cwd)(t, texts[i]).value < 0 && Mkdir(cwd)(t, texts[i]).tree == t) {
      MkdirAt(t, cwd, paths[i]);
    }
    RetriedAmong(Mkdir(cwd), t, texts, paths, Vacant(t), made);
  }

  lemma {:induction false} MkdirAt(t: Tree, cwd: Path, c: Path)
    requires WellFormed(t) && Normalised(c) && c != []
    ensures Mkdir(cwd)(t, Render(c)) ==
            if Vacant(t)(c) then Outcome(0, t[c := Dir], 0)
            else Outcome(-1, t, if c in t then EEXIST else if Blocked(t, c) then ENOTDIR else ENOENT)
  {
    hide Entry, Blocked;
    EntryIsExact(t, cwd, c);
  }

  lemma {:induction false} RetriedAmong(f: Call<int>, t: Tree, texts: seq<string>, paths: seq<Path>,
                                        good: Path -> bool, result: Path -> Outcome<int>)
    requires |texts| == |paths|
    requires forall i :: 0 <= i < |paths| ==>
               && (good(paths[i]) ==> f(t, texts[i]) == result(paths[i]) && result(paths[i]).value >= 0)
               && (!good(paths[i]) ==> f(t, texts[i]).value < 0 && f(t, texts[i]).tree == t)
    ensures Retried(f, Negative(), t, texts, -1, ENOENT) ==
            match Find(paths, good) case Some(c) => result(c) case None => Outcome(-1, t, ENOENT)
  {
    if paths != [] && !good(paths[0]) {
      RetriedAmong(f, t, texts[1..], paths[1..], good, result);
      assert First(paths, good) == 1 + First(paths[1..], good);
    }
  }

  function Vacant(t: Tree): Path -> bool {
    (c: Path) => IsDir(t, Parent(c)) && c !in t
  }

  /** The tree with the subtree at `src` moved to `dst`. */
  function Relocated(t: Tree, src: Path, dst: Path): Tree {
    var kept := set q | q in t && !(src <= q) && !(dst <= q);
    var moved := set q | q in t && src <= q :: dst + q[|src|..];
    map q | q in kept + moved ::
      if dst <= q && src + q[|dst|..] in t then t[src + q[|dst|..]]
      else if q in t then t[q]
      else Dir
  }

  function RenameEntry(t: Tree, src: Path, dst: Path): Outcome<int> {
    if src == [] then Outcome(-1, t, EBUSY)
    else if src == dst then Outcome(0, t, 0)
    else if src <= dst then Outcome(-1, t, EINVAL)
    else if HasChildren(t, dst) then Outcome(-1, t, ENOTEMPTY)
    else if dst in t && IsDir(t, src) != IsDir(t, dst) then
      Outcome(-1, t, if IsDir(t, dst) then EISDIR else ENOTDIR)
    else Outcome(0, Relocated(t, src, dst), 0)
  }

  /** The two nodes a `rename` is about: both names are entries, the old one exists, and a slash at
      the end of either asks for a directory. */
  function RenameNodes(t: Tree, cwd: Path, from: string, to: string): Option<(Path, Path)> {
    match (Entry(t, cwd, from), Entry(t, cwd, to))
    case (At(src), At(dst)) =>
      if src in t && (IsDir(t, src) || !(TrailingSlash(from) || TrailingSlash(to))) then Some((src, dst)) else None
    case _ => None
  }

  /** Why there are none: both walks come first, then names that are no entries. */
  function RenameErrno(t: Tree, cwd: Path, from: string, to: string): int {
    match (Entry(t, cwd, from), Entry(t, cwd, to))
    case (At(src), At(_)) => if src in t then ENOTDIR else ENOENT
    case (At(_), Missing(e)) => if e == EEXIST then EBUSY else e
    case (Missing(e), At(_)) => if e == EEXIST then EBUSY else e
    case (Missing(e), Missing(e')) => if e != EEXIST then e else if e' != EEXIST then e' else EBUSY
  }

  function Rename(cwd: Path): PairCall {
    (t: Tree, from: string, to: string) =>
      match RenameNodes(t, cwd, from, to)
      case Some((src, dst)) => RenameEntry(t, src, dst)
      case None => Outcome(-1, t, RenameErrno(t, cwd, from, to))
  }

  /** `link` and `symlink` put a copy of a node, or a link, where nothing is. */
  function Placing(t: Tree, cwd: Path, to: string, n: Path -> Node): Outcome<int> {
    match Entry(t, cwd, to)
    case Missing(e) => Outcome(-1, t, e)
    case At(q) =>
      if q in t then Outcome(-1, t, EEXIST)
      else if TrailingSlash(to) then Outcome(-1, t, ENOENT)
      else Outcome(0, t[q := n(q)], 0)
  }

  function CopyOf(t: Tree, src: Path): Path -> Node {
    (q: Path) => if src in t then t[src] else Dir
  }

  function PointsTo(t: Tree, target: string): Path -> Node {
    (q: Path) => Node.Link(ExistsFrom(t, Parent(q), target))
  }

  function HardLink(cwd: Path): PairCall {
    (t: Tree, from: string, to: string) =>
      match LookupText(t, cwd, from)
      case Missing(e) => Outcome(-1, t, e)
      case At(src) =>
        var r := Placing(t, cwd, to, CopyOf(t, src));
        if r.value == 0 && IsDir(t, src) then Outcome(-1, t, EPERM) else r
  }

  function SymLink(cwd: Path): PairCall {
    (t: Tree, target: string, to: string) =>
      if target == "" then Outcome(-1, t, ENOENT)
      else Placing(t, cwd, to, PointsTo(t, target))
  }

  lemma PlacingIsQuiet(t: Tree, cwd: Path, to: string, n: Path -> Node)
    ensures Placing(t, cwd, to, n).value != 0 ==> Placing(t, cwd, to, n).tree == t
  {
  }

  lemma {:induction false} PlacingPlaces(t: Tree, cwd: Path, p: Path, n: Path -> Node)
    requires WellFormed(t) && Normalised(p) && Placing(t, cwd, Render(p), n).value == 0
    ensures Placed(t, Placing(t, cwd, Render(p), n).tree, p)
  {
    RootIsNoEntry(t, cwd, p);
    EntryOfRender(t, cwd, p);
  }

  lemma {:induction false} HardLinkPlaces(cwd: Path)
    ensures Places(HardLink(cwd))
  {
    hide Placing, CopyOf, Placed, WellFormed, LookupText;
    forall t: Tree, o: string, n: string | WellFormed(t) ensures PlacesAt(HardLink(cwd)(t, o, n), t, n) {
      if LookupText(t, cwd, o).At? {
        PlacingIsQuiet(t, cwd, n, CopyOf(t, LookupText(t, cwd, o).path));
      }
      if HardLink(cwd)(t, o, n).value == 0 {
        var src := LookupText(t, cwd, o).path;
        forall p | Normalised(p) && Render(p) == n ensures Placed(t, HardLink(cwd)(t, o, n).tree, p) {
          PlacingPlaces(t, cwd, p, CopyOf(t, src));
        }
      }
    }
  }

  lemma {:induction false} SymLinkPlaces(cwd: Path)
    ensures Places(SymLink(cwd))
  {
    hide Placing, PointsTo, Placed, WellFormed;
    forall t: Tree, o: string, n: string | WellFormed(t) ensures PlacesAt(SymLink(cwd)(t, o, n), t, n) {
      PlacingIsQuiet(t, cwd, n, PointsTo(t, o));
      if SymLink(cwd)(t, o, n).value == 0 {
        forall p | Normalised(p) && Render(p) == n ensures Placed(t, SymLink(cwd)(t, o, n).tree, p) {
          PlacingPlaces(t, cwd, p, PointsTo(t, o));
        }
      }
    }
  }

  lemma MovedKey(src: Path, dst: Path, s: Path)
    requires src <= s
    ensures var q := dst + s[|src|..]; dst <= q && src + q[|dst|..] == s
  {
  }

  lemma {:induction false} RelocatedKeys(t: Tree, src: Path, dst: Path, q: Path)
    requires !(src <= dst) && q in Relocated(t, src, dst)
    ensures dst <= q ==> src + q[|dst|..] in t && Relocated(t, src, dst)[q] == t[src + q[|dst|..]]
    ensures !(dst <= q) ==> q in t && !(src <= q) && Relocated(t, src, dst)[q] == t[q]
  {
    if q !in t || src <= q || dst <= q {
      var s :| s in t && src <= s && dst + s[|src|..] == q;
      MovedKey(src, dst, s);
    }
  }

  lemma {:induction false} RelocatedHas(t: Tree, src: Path, dst: Path, s: Path)
    requires !(src <= dst) && s in t
    ensures src <= s ==> dst + s[|src|..] in Relocated(t, src, dst)
    ensures !(src <= s) && !(dst <= s) ==> s in Relocated(t, src, dst)
  {
  }

  lemma {:induction false} RelocatedParent(t: Tree, src: Path, dst: Path, q: Path)
    requires WellFormed(t) && !(src <= dst) && dst != [] && src != []
    requires src in t && IsDir(t, Parent(dst)) && q in Relocated(t, src, dst) && q != []
    ensures IsDir(Relocated(t, src, dst), Parent(q))
  {
    RelocatedKeys(t, src, dst, q);
    if dst < q {
      MovedParent(t, src, dst, q);
    } else {
      KeptParent(t, src, dst, q);
    }
  }

  lemma ParentBelow(src: Path, dst: Path, q: Path)
    requires dst < q
    ensures dst <= Parent(q)
    ensures Parent(src + q[|dst|..]) == src + Parent(q)[|dst|..]
    ensures dst + (src + Parent(q)[|dst|..])[|src|..] == Parent(q)
  {
  }

  lemma {:induction false} MovedParent(t: Tree, src: Path, dst: Path, q: Path)
    requires WellFormed(t) && !(src <= dst) && src != []
    requires dst < q && src + q[|dst|..] in t
    ensures IsDir(Relocated(t, src, dst), Parent(q))
  {
    ParentBelow(src, dst, q);
    var s := src + Parent(q)[|dst|..];
    assert IsDir(t, s);
    RelocatedHas(t, src, dst, s);
    RelocatedKeys(t, src, dst, Parent(q));
  }

  lemma KeptParent(t: Tree, src: Path, dst: Path, q: Path)
    requires WellFormed(t) && !(src <= dst) && q != [] && dst != []
    requires (q == dst && IsDir(t, Parent(dst))) || (!(dst <= q) && !(src <= q) && q in t)
    ensures IsDir(Relocated(t, src, dst), Parent(q))
  {
  }

  lemma {:induction false} RelocatedIsPlaced(t: Tree, src: Path, dst: Path)
    requires WellFormed(t) && !(src <= dst) && src != [] && dst != [] && Normalised(dst)
    requires src in t && IsDir(t, Parent(dst))
    ensures Placed(t, Relocated(t, src, dst), dst)
  {
    var t' := Relocated(t, src, dst);
    RelocatedHas(t, src, dst, src);
    assert dst + src[|src|..] == dst;
    RelocatedHas(t, src, dst, []);
    RelocatedKeys(t, src, dst, []);
    forall q | q in t' ensures Normalised(q) && (q in t || dst <= q) {
      RelocatedKeys(t, src, dst, q);
      if dst <= q {
        NormalisedConcat(dst, (src + q[|dst|..])[|src|..]);
        assert dst + (src + q[|dst|..])[|src|..] == q;
      }
    }
    forall q | q in t' && q != [] ensures IsDir(t', Parent(q)) {
      RelocatedParent(t, src, dst, q);
    }
  }

  lemma {:induction false} RenameEntryPlaces(t: Tree, src: Path, dst: Path)
    requires WellFormed(t) && src in t && dst != [] && Normalised(dst) && IsDir(t, Parent(dst))
    requires RenameEntry(t, src, dst).value == 0
    ensures Placed(t, RenameEntry(t, src, dst).tree, dst)
  {
    if src != dst {
      RelocatedIsPlaced(t, src, dst);
    }
  }

  lemma {:induction false} RenamePlaces(cwd: Path)
    ensures Places(Rename(cwd))
  {
    hide Rename;
    forall t: Tree, o: string, n: string | WellFormed(t) ensures PlacesAt(Rename(cwd)(t, o, n), t, n) {
      RenameQuiet(t, cwd, o, n);
      if Rename(cwd)(t, o, n).value == 0 {
        forall p | Normalised(p) && Render(p) == n ensures Placed(t, Rename(cwd)(t, o, n).tree, p) {
          RenameAt(t, cwd, o, p);
        }
      }
    }
  }

  lemma RenameQuiet(t: Tree, cwd: Path, o: string, n: string)
    ensures Rename(cwd)(t, o, n).value != 0 ==> Rename(cwd)(t, o, n).tree == t
  {
  }

  lemma {:induction false} RenameByPaths(t: Tree, cwd: Path, src: Path, dst: Path)
    requires WellFormed(t) && Normalised(src) && Normalised(dst) && dst != []
    ensures var r := Rename(cwd)(t, Render(src), Render(dst));
            if src in t && IsDir(t, Parent(dst)) then r == RenameEntry(t, src, dst)
            else r.value != 0 && r.tree == t
  {
    hide Entry, RenameEntry, TrailingSlash;
    EntryOfRender(t, cwd, dst);
    if src == [] {
      RootIsTheRoot(t, cwd, dst);
    } else {
      EntryOfRender(t, cwd, src);
    }
  }

  /** The root can not be moved. */
  lemma {:induction false} RootIsTheRoot(t: Tree, cwd: Path, dst: Path)
    requires WellFormed(t)
    ensures Entry(t, cwd, Render([])) == Missing(EEXIST)
    ensures RenameEntry(t, [], dst) == Outcome(-1, t, EBUSY)
  {
    StepsOfRender([]);
  }

  /** What a redirected call takes for its old name: the candidate that exists, also when the name
      itself exists. */
  ghost function Source(l: Layout, t: Tree, from: Path): (src: Path)
    ensures from in t ==> src in t
  {
    if Classic(from) then OrPath(Find(CandidatePaths(l, from), In(t)), from) else from
  }

  /** What it takes for its new name: the first candidate with a home. */
  function Destination(l: Layout, t: Tree, to: Path): Path {
    OrPath(Find(CandidatePaths(l, to), HasHome(t)), to)
  }

  function OrPath(o: Option<Path>, default: Path): Path {
    match o case Some(p) => p case None => default
  }

  lemma {:induction false} SourceText(l: Layout, t: Tree, from: Path)
    requires l.Valid() && WellFormed(t) && Normalised(from)
    ensures OrElse(ExistingTarget(t, Render(from), l.Text()), Render(from)) == Render(Source(l, t, from))
    ensures Normalised(Source(l, t, from))
  {
    if Classic(from) {
      TargetsByPaths(l, t, from);
      CandidatesDiffer(l, from);
    } else {
      ScopeOfRender(from);
    }
  }

  lemma {:induction false} DestinationText(l: Layout, t: Tree, to: Path)
    requires l.Valid() && WellFormed(t) && Classic(to)
    ensures OrElse(CreateTarget(t, Render(to), l.Text()), Render(to)) == Render(Destination(l, t, to))
    ensures Normalised(Destination(l, t, to)) && Destination(l, t, to) != []
  {
    TargetsByPaths(l, t, to);
    CandidatesDiffer(l, to);
  }

  /** A `rename` that comes to nothing for want of a name moves exactly one node to exactly one place, or
      changes nothing; any other is the whole answer. */
  lemma {:induction false} RenameExact(l: Layout, t: Tree, cwd: Path, from: Path, to: Path)
    requires l.Valid() && WellFormed(t) && Normalised(from) && Classic(to)
    ensures var r := Rename(cwd)(t, Render(from), Render(to));
            var o := TwoPathsOutcome(Rename(cwd), t, Render(from), Render(to), true, l.Text());
            var src, dst := Source(l, t, from), Destination(l, t, to);
            if r.value == 0 || r.errno != ENOENT then o == r
            else if src in t && IsDir(t, Parent(dst)) then o == RenameEntry(t, src, dst)
            else o.value != 0 && o.tree == t
  {
    hide Rename, Source, Destination, RenameEntry, ExistingTarget, CreateTarget;
    RenameQuiet(t, cwd, Render(from), Render(to));
    SourceText(l, t, from);
    DestinationText(l, t, to);
    RenameByPaths(t, cwd, Source(l, t, from), Destination(l, t, to));
  }

  lemma {:induction false} PlacingAt(t: Tree, cwd: Path, c: Path, n: Path -> Node)
    requires WellFormed(t) && Normalised(c) && c != []
    ensures Placing(t, cwd, Render(c), n) ==
            if c in t then Outcome(-1, t, EEXIST)
            else if IsDir(t, Parent(c)) then Outcome(0, t[c := n(c)], 0)
            else Outcome(-1, t, if Blocked(t, c) then ENOTDIR else ENOENT)
  {
    hide Entry, Blocked, TrailingSlash;
    EntryIsExact(t, cwd, c);
    EntryOfRender(t, cwd, c);
  }

  /** What becomes of `symlink` with a classic name for the new link: in place when the parent is there,
      else at the first candidate with a home, or nowhere. The target is passed on as it is. */
  lemma {:induction false} SymLinkExact(l: Layout, t: Tree, cwd: Path, target: string, to: Path)
    requires l.Valid() && WellFormed(t) && Classic(to) && target != ""
    ensures TwoPathsOutcome(SymLink(cwd), t, target, Render(to), false, l.Text()) ==
            if to in t then Outcome(-1, t, EEXIST)
            else if IsDir(t, Parent(to)) then Outcome(0, t[to := PointsTo(t, target)(to)], 0)
            else if Blocked(t, to) then Outcome(-1, t, ENOTDIR)
            else
              match Find(CandidatePaths(l, to), HasHome(t))
              case None => Outcome(-1, t, ENOENT)
              case Some(c) =>
                if c in t then Outcome(-1, t, EEXIST) else Outcome(0, t[c := PointsTo(t, target)(c)], 0)
  {
    hide *;
    ClassicIsNormalised(to);
    PlacingAt(t, cwd, to, PointsTo(t, target));
    SymLinkSteps(t, cwd, target, Render(to), l.Text());
    TargetsByPaths(l, t, to);
    var found := Find(CandidatePaths(l, to), HasHome(t));
    RenderedIs(found);
    if found.Some? {
      FoundHome(l, t, to);
      PlacingAt(t, cwd, found.value, PointsTo(t, target));
    }
  }

  lemma SymLinkSteps(t: Tree, cwd: Path, target: string, to: string, roots: Roots)
    requires target != ""
    ensures var first := Placing(t, cwd, to, PointsTo(t, target));
            TwoPathsOutcome(SymLink(cwd), t, target, to, false, roots) ==
            if first != Outcome(-1, t, ENOENT) then first
            else
              match CreateTarget(t, to, roots)
              case None => first
              case Some(c) => Placing(t, cwd, c, PointsTo(t, target))
    ensures EEXIST != ENOENT && ENOTDIR != ENOENT
  {
    PlacingAnswers(t, cwd, to, PointsTo(t, target));
    hide Placing, CreateTarget, PointsTo;
  }

  lemma PlacingAnswers(t: Tree, cwd: Path, to: string, n: Path -> Node)
    ensures var r := Placing(t, cwd, to, n); r.value == 0 || (r.value == -1 && r.tree == t)
  {
  }

  lemma ClassicIsNormalised(p: Path)
    requires Classic(p)
    ensures Normalised(p) && p != []
  {
  }

  lemma {:induction false} FoundHome(l: Layout, t: Tree, p: Path)
    requires l.Valid() && Classic(p) && Find(CandidatePaths(l, p), HasHome(t)).Some?
    ensures var c := Find(CandidatePaths(l, p), HasHome(t)).value; IsDir(t, Parent(c)) && Normalised(c) && c != []
  {
    CandidatesDiffer(l, p);
    assert HasHome(t)(CandidatePaths(l, p)[First(CandidatePaths(l, p), HasHome(t))]);
  }

  lemma {:induction false} CandidatesAreLong(l: Layout, p: Path, k: nat)
    requires k < 4
    ensures |CandidatePaths(l, p)[k]| >= |p|
  {
  }

  lemma {:induction false} AboveHasChildren(t: Tree, dst: Path, p: Path)
    requires WellFormed(t) && p in t && dst < p
    ensures HasChildren(t, dst)
  {
    var q := p[..|dst| + 1];
    assert q[..|dst|] == dst;
    if |q| < |p| {
      AncestorsAreDirs(t, p, |q|);
    } else {
      assert q == p;
    }
    assert q in t && q != [] && Parent(q) == dst;
  }

  /** The name has a candidate that exists. */
  ghost predicate HasCandidate(l: Layout, t: Tree, from: Path) {
    Classic(from) && exists i :: 0 <= i < 4 && CandidatePaths(l, from)[i] in t
  }

  lemma {:induction false} CandidateIsElsewhere(l: Layout, p: Path, k: nat)
    requires Classic(p) && k < 4
    ensures CandidatePaths(l, p)[k] != p
  {
    CandidateStart(l, StripNames(p), k);
    assert l.sysroot != [] ==> |CandidatePaths(l, p)[k]| > |p|;
  }

  lemma {:induction false} SourceDiffersIff(l: Layout, t: Tree, from: Path)
    ensures Source(l, t, from) != from <==> HasCandidate(l, t, from)
  {
    hide CandidatePaths, Classic;
    if Classic(from) {
      var i := First(CandidatePaths(l, from), In(t));
      if i < 4 {
        assert In(t)(CandidatePaths(l, from)[i]);
        CandidateIsElsewhere(l, from, i);
      }
      assert forall j :: 0 <= j < i ==> !In(t)(CandidatePaths(l, from)[j]);
    }
  }

  /** The retry looks for the old name at its candidates even when only the new name was missing.
      A file that exists where its name says is left behind by a `rename` that reports success
      exactly when its name has a candidate that exists: that one is moved. (Where the new place is
      the old name itself, the two files must be equal.) */
  lemma {:induction false} LeftBehindIff(l: Layout, t: Tree, cwd: Path, from: Path, to: Path)
    requires l.Valid() && WellFormed(t) && Classic(to) && from in t
    requires var r := Rename(cwd)(t, Render(from), Render(to)); r.value != 0 && r.errno == ENOENT
    requires TwoPathsOutcome(Rename(cwd), t, Render(from), Render(to), true, l.Text()).value == 0
    ensures var t' := TwoPathsOutcome(Rename(cwd), t, Render(from), Render(to), true, l.Text()).tree;
            from in t' && t'[from] == t[from] <==>
            if from == Destination(l, t, to) then t[Source(l, t, from)] == t[from] else HasCandidate(l, t, from)
  {
    hide Rename, Destination, TwoPathsOutcome, Classic, HasCandidate, RenameEntry, Source;
    RenameExact(l, t, cwd, from, to);
    var src, dst := Source(l, t, from), Destination(l, t, to);
    SourceIsLong(l, t, from);
    SourceDiffersIff(l, t, from);
    if src != dst {
      RenameKeepsIff(t, src, dst, from);
    } else {
      SamePlace(t, src);
    }
  }

  lemma SamePlace(t: Tree, p: Path)
    requires RenameEntry(t, p, p).value == 0
    ensures RenameEntry(t, p, p).tree == t
  {
  }

  /** On a bare root there is no such file. */
  lemma {:induction false} BareRootLeavesNothing(l: Layout, t: Tree, from: Path)
    requires RootIsBare(t) && from in t
    ensures !HasCandidate(l, t, from)
  {
  }

  /** What a `rename` keeps: a node is as it was exactly when neither it nor a directory above it
      was moved, and nothing different was moved onto it. */
  lemma {:induction false} RenameKeepsIff(t: Tree, src: Path, dst: Path, p: Path)
    requires WellFormed(t) && src in t && src != dst && p in t && RenameEntry(t, src, dst).value == 0
    ensures var t' := RenameEntry(t, src, dst).tree;
            p in t' && t'[p] == t[p] <==> !(src <= p) && (p == dst ==> t[src] == t[dst])
  {
    hide WellFormed, HasChildren;
    assert !(src <= dst) && RenameEntry(t, src, dst).tree == Relocated(t, src, dst);
    if dst < p {
      AboveHasChildren(t, dst, p);
    }
    RelocatedHas(t, src, dst, p);
    RelocatedHas(t, src, dst, src);
    assert src[|src|..] == [] && dst[|dst|..] == [] && src + [] == src && dst + [] == dst;
    assert dst <= p && |p| == |dst| ==> p == dst;
    if p in Relocated(t, src, dst) {
      RelocatedKeys(t, src, dst, p);
    }
  }

  /** The two nodes a `rename`, redirected or not, takes and leaves behind when it succeeds. */
  function RenameEnds(l: Layout, t: Tree, cwd: Path, from: string, to: string): Option<(Path, Path)> {
    var r := Rename(cwd)(t, from, to);
    var missed := r.value != 0 && r.errno == ENOENT;
    var o := if missed then OrElse(ExistingTarget(t, from, l.Text()), from) else from;
    var n := if missed then OrElse(CreateTarget(t, to, l.Text()), to) else to;
    match RenameNodes(t, cwd, o, n)
    case Some((src, dst)) => if RenameEntry(t, src, dst).value == 0 then Some((src, dst)) else None
    case None => None
  }

  lemma {:induction false} RenameByEnds(l: Layout, t: Tree, cwd: Path, from: string, to: string)
    ensures TwoPathsOutcome(Rename(cwd), t, from, to, true, l.Text()).tree ==
            match RenameEnds(l, t, cwd, from, to)
            case Some((src, dst)) => RenameEntry(t, src, dst).tree
            case None => t
  {
    hide ExistingTarget, CreateTarget, RenameNodes, RenameErrno, Relocated, RenameEntry;
    RenameQuiet(t, cwd, from, to);
    RenameQuiet(t, cwd, OrElse(ExistingTarget(t, from, l.Text()), from), OrElse(CreateTarget(t, to, l.Text()), to));
  }

  lemma {:induction false} EndsStand(l: Layout, t: Tree, cwd: Path, from: string, to: string)
    requires WellFormed(t) && RenameEnds(l, t, cwd, from, to).Some?
    ensures var (src, dst) := RenameEnds(l, t, cwd, from, to).value;
            && src in t && dst != [] && Normalised(dst) && IsDir(t, Parent(dst))
            && RenameEntry(t, src, dst).value == 0
  {
    hide ExistingTarget, CreateTarget, RenameEntry, Rename, Entry;
    var r := Rename(cwd)(t, from, to);
    var missed := r.value != 0 && r.errno == ENOENT;
    EntryHasHome(t, cwd, if missed then OrElse(CreateTarget(t, to, l.Text()), to) else to);
  }

  lemma {:induction false} EntryHasHome(t: Tree, base: Path, text: string)
    requires WellFormed(t) && Entry(t, base, text).At?
    ensures var q := Entry(t, base, text).path; q != [] && Normalised(q) && IsDir(t, Parent(q))
  {
    StepsAreProper(text);
  }

  lemma {:induction false} SourceIsLong(l: Layout, t: Tree, from: Path)
    ensures Source(l, t, from) <= from ==> Source(l, t, from) == from
  {
    if Classic(from) {
      var r := Find(CandidatePaths(l, from), In(t));
      if r.Some? {
        CandidatesAreLong(l, from, First(CandidatePaths(l, from), In(t)));
      }
    }
  }

  lemma {:induction false} RenameAt(t: Tree, cwd: Path, o: string, p: Path)
    requires WellFormed(t) && Normalised(p) && Rename(cwd)(t, o, Render(p)).value == 0
    ensures Placed(t, Rename(cwd)(t, o, Render(p)).tree, p)
  {
    hide Entry, RenameEntry;
    RootIsNoEntry(t, cwd, p);
    EntryOfRender(t, cwd, p);
    RenameEntryPlaces(t, RenameNodes(t, cwd, o, Render(p)).value.0, p);
  }
}
