/** The guard on deletes, and what every run of them keeps (src/preload.rs). */
module Deletion {
  import opened Text
  import opened Paths
  import opened FileTree
  import opened Remap
  import opened Fallback

  datatype PathBuf = PathBuf(rooted: bool, names: Path)

  /** Where the text leads by itself: each `..` drops the name before it. */
  method Lexical(path: string) returns (out: PathBuf)
    ensures out == PathBuf(IsAbsolute(path), Folded([], Steps(path)))
  {
    hide Folded;
    out := PathBuf(false, []);
    var comps := Components(path);
    ghost var steps := Steps(path);
    ghost var skip := |comps| - |steps|;
    StepsAreProper(path);
    FoldEnd([], steps);
    for i := 0 to |comps|
      invariant i < skip ==> out == PathBuf(false, [])
      invariant i >= skip ==> out.rooted == IsAbsolute(path)
      invariant i >= skip ==> Folded(out.names, steps[i - skip..]) == Folded([], steps)
    {
      ghost var before := out.names;
      match comps[i] {
        case ParentDir => out := out.(names := Parent(out.names));
        case CurDir =>
        case RootDir => out := PathBuf(true, []);
        case Normal(n) => out := out.(names := out.names + [n]);
      }
      if i >= skip {
        assert comps[i] == steps[i - skip];
        FoldStep(before, steps, i - skip);
      }
    }
    FoldEnd(out.names, steps);
  }

  lemma FoldStep(cur: Path, steps: seq<Component>, k: nat)
    requires k < |steps|
    ensures Folded(cur, steps[k..]) == Folded(Next(cur, steps[k]), steps[k + 1..])
  {
  }

  lemma FoldEnd(cur: Path, steps: seq<Component>)
    ensures Folded(cur, steps[|steps|..]) == cur && steps[0..] == steps
  {
  }

  /** A file of the base itself: below syshub, outside `var` and `etc`, without a counterpart in
      the userland layer. */
  predicate Guarded(l: Layout, t: Tree, p: Path) {
    && l.Syshub() <= p
    && var rel := p[|l.Syshub()|..];
       rel == [] || (rel[0] != "var" && rel[0] != "etc" && l.Union() + rel !in t)
  }

  /** Where a descriptor's relative names start. `path` is the directory the kernel walks from,
      if the descriptor is open; `stale` is what `/proc` or `getcwd` says once it is gone. */
  datatype Directory = Directory(path: Option<Path>, stale: Option<string>) {
    function Printed(t: Tree): Option<string> {
      if path.Some? && path.value in t then Some(Render(path.value)) else stale
    }
  }

  function Absolute(t: Tree, dir: Directory, name: string): Option<string> {
    if IsAbsolute(name) then Some(name)
    else
      match dir.Printed(t)
      case None => None
      case Some(base) => Some(PathJoin(base, name))
  }

  predicate RefusesDelete(l: Layout, t: Tree, path: string, zex: bool) {
    IsAbsolute(path) && Guarded(l, t, Folded([], Steps(path))) && !zex
  }

  predicate Refuses(l: Layout, t: Tree, dir: Directory, path: string, zex: bool) {
    var a := Absolute(t, dir, path);
    a.Some? && RefusesDelete(l, t, a.value, zex)
  }

  ghost predicate Leaf(t: Tree, p: Path) {
    forall q :: q in t && q != [] ==> Parent(q) != p
  }

  /** `unlink`, `rmdir` or `unlinkat` of the kernel: only success changes the tree, and then the
      one node the walk ends at goes, which nothing is below. */
  ghost predicate Removes(f: Call<int>, base: Option<Path>) {
    forall t, p :: WellFormed(t) ==> RemovesAt(f(t, p), t, base, p)
  }

  ghost predicate RemovesAt(o: Outcome<int>, t: Tree, base: Option<Path>, p: string) {
    if o.value != 0 then o.tree == t
    else
      && (IsAbsolute(p) || base.Some?)
      && var found := Namei(t, if IsAbsolute(p) then [] else base.value, Steps(p));
         && found.At? && found.path != [] && Leaf(t, found.path)
         && o.tree == t - {found.path}
  }

  function RemoveOutcome(l: Layout, t: Tree, dir: Directory, path: string, zex: bool, f: Call<int>)
    : Outcome<int>
  {
    var o := f(t, path);
    if o.value == 0 || o.errno != ENOENT then o
    else
      match ExistingTarget(o.tree, path, l.Text())
      case None => o
      case Some(c) =>
        if Refuses(l, o.tree, dir, c, zex) then Outcome(-1, o.tree, EPERM) else f(o.tree, c)
  }

  /** The whole hook: guard, real call, guarded retry. */
  function HookOutcome(l: Layout, t: Tree, dir: Directory, path: string, zex: bool, f: Call<int>)
    : Outcome<int>
  {
    if Refuses(l, t, dir, path, zex) then Outcome(-1, t, EPERM)
    else RemoveOutcome(l, t, dir, path, zex, f)
  }

  /** The guard as the library evaluates it: on text, with one probe of the userland layer. */
  method RefusesDeleteProbe(os: Os, l: Layout, path: string, zex: bool) returns (refused: bool)
    requires l.Valid() && os.roots == l.Text() && WellFormed(os.tree)
    modifies os`errno
    ensures refused == RefusesDelete(l, os.tree, path, zex)
  {
    var out := Lexical(path);
    if !out.rooted || !(l.Syshub() <= out.names) {
      return false;
    }
    var rel := out.names[|l.Syshub()|..];
    if rel != [] {
      if rel[0] == "var" || rel[0] == "etc" {
        return false;
      }
      StepsAreProper(path);
      FoldedIsNormalised([], Steps(path));
      CounterpartProbe(l, os.tree, rel);
      var counterpart := LExists(os.tree, PathJoin(os.roots.union, RenderRel(rel)));
      os.errno := *;
      if counterpart {
        return false;
      }
    }
    return !zex;
  }

  lemma {:induction false} CounterpartProbe(l: Layout, t: Tree, rel: Path)
    requires l.Valid() && WellFormed(t) && Normalised(rel) && rel != []
    ensures LExists(t, PathJoin(l.Text().union, RenderRel(rel))) <==> l.Union() + rel in t
  {
    UnderAgrees(l);
    RootsAreNormalised(l);
    JoinRendered(l.Union(), rel);
    NormalisedConcat(l.Union(), rel);
    LookupOfRender(t, [], l.Union() + rel);
  }

  method RefusesProbe(os: Os, l: Layout, dir: Directory, path: string, zex: bool) returns (refused: bool)
    requires l.Valid() && os.roots == l.Text() && WellFormed(os.tree)
    modifies os`errno
    ensures refused == Refuses(l, os.tree, dir, path, zex)
  {
    var a := Absolute(os.tree, dir, path);
    if a.None? {
      return false;
    }
    refused := RefusesDeleteProbe(os, l, a.value, zex);
  }

  /** `f(path)`; on ENOENT again at the remapped path, guarded the same way. */
  method RemoveFallback(os: Os, l: Layout, dir: Directory, path: string, zex: bool, f: Call<int>)
    returns (r: int)
    requires l.Valid() && os.roots == l.Text() && WellFormed(os.tree) && Removes(f, dir.path)
    modifies os
    ensures Outcome(r, os.tree, os.errno) == RemoveOutcome(l, old(os.tree), dir, path, zex, f)
    ensures var o := f(old(os.tree), path);
            o.value == 0 || o.errno != ENOENT ==> Outcome(r, os.tree, os.errno) == o
  {
    r := os.Invoke(f, path);
    assert RemovesAt(f(old(os.tree), path), old(os.tree), dir.path, path);
    if r == 0 || os.errno != ENOENT {
      return;
    }
    var first := os.errno;
    var c := os.FindExisting(path);
    if c.None? {
      os.errno := first;
      return;
    }
    var refused := RefusesProbe(os, l, dir, c.value, zex);
    if refused {
      os.errno := EPERM;
      return -1;
    }
    r := os.Invoke(f, c.value);
  }

  /** The `unlink`, `rmdir` and `unlinkat` hooks. */
  method Remove(os: Os, l: Layout, dir: Directory, path: string, zex: bool, f: Call<int>) returns (r: int)
    requires l.Valid() && os.roots == l.Text() && WellFormed(os.tree) && Removes(f, dir.path)
    modifies os
    ensures Outcome(r, os.tree, os.errno) == HookOutcome(l, old(os.tree), dir, path, zex, f)
    ensures var o := f(old(os.tree), path);
            !Refuses(l, old(os.tree), dir, path, zex) && (o.value == 0 || o.errno != ENOENT) ==>
              Outcome(r, os.tree, os.errno) == o
  {
    var refused := RefusesProbe(os, l, dir, path, zex);
    if refused {
      os.errno := EPERM;
      return -1;
    }
    r := RemoveFallback(os, l, dir, path, zex, f);
  }

  /** The text the guard judges ends, once folded, at the node the kernel's walk ends at. */
  lemma {:induction false} GuardJudgesTheNode(t: Tree, dir: Directory, path: string)
    requires WellFormed(t) && (IsAbsolute(path) || dir.path.Some?)
    requires Namei(t, if IsAbsolute(path) then [] else dir.path.value, Steps(path)).At?
    ensures Absolute(t, dir, path).Some? && IsAbsolute(Absolute(t, dir, path).value)
    ensures Folded([], Steps(Absolute(t, dir, path).value))
         == Namei(t, if IsAbsolute(path) then [] else dir.path.value, Steps(path)).path
  {
    if IsAbsolute(path) {
      WalkIsFolded(t, [], Steps(path));
    } else {
      var base := dir.path.value;
      WalkIsFolded(t, base, Steps(path));
      assert base in t;
      StepsOfJoin(Render(base), path);
      StepsOfRender(base);
      FoldedConcat([], Names(base), Steps(path));
      FoldedNames([], base);
      assert [] + base == base;
    }
  }

  /** Of a directory that is gone the guard judges the text it is known by, if there is one. */
  lemma {:induction false} GoneDirectoryIsJudged(l: Layout, t: Tree, dir: Directory, base: Path, name: string, zex: bool)
    requires !IsAbsolute(name) && Normalised(base) && (dir.path.Some? ==> dir.path.value !in t)
    ensures dir.stale == Some(Render(base)) ==>
              (Refuses(l, t, dir, name, zex) <==> Guarded(l, t, Folded(base, Steps(name))) && !zex)
    ensures dir.stale == None ==> !Refuses(l, t, dir, name, zex)
  {
    StepsOfJoin(Render(base), name);
    StepsOfRender(base);
    FoldedConcat([], Names(base), Steps(name));
    FoldedNames([], base);
    assert [] + base == base;
  }

  lemma {:induction false} RemovalKeepsTree(t: Tree, p: Path)
    requires WellFormed(t) && p in t && p != [] && Leaf(t, p)
    ensures WellFormed(t - {p})
  {
  }

  /** One hook call either leaves the tree alone or removes one leaf the guard does not cover. */
  lemma {:induction false} HookRemovesUnguarded(
      l: Layout, t: Tree, dir: Directory, path: string, zex: bool, f: Call<int>)
    requires l.Valid() && WellFormed(t) && Removes(f, dir.path)
    ensures var o := HookOutcome(l, t, dir, path, zex, f);
            && WellFormed(o.tree)
            && (o.value != 0 ==> o.tree == t)
            && (o.value == 0 ==> exists p :: p in t && o.tree == t - {p} && (Guarded(l, t, p) ==> zex))
  {
    var o := f(t, path);
    assert RemovesAt(o, t, dir.path, path);
    if !Refuses(l, t, dir, path, zex) {
      if o.value == 0 {
        GuardJudgesTheNode(t, dir, path);
        NameiExists(t, if IsAbsolute(path) then [] else dir.path.value, Steps(path));
        RemovalKeepsTree(t, Folded([], Steps(Absolute(t, dir, path).value)));
      } else if o.errno == ENOENT && ExistingTarget(t, path, l.Text()).Some? {
        var c := ExistingTarget(t, path, l.Text()).value;
        CandidatesAreAbsolute(l, path);
        assert RemovesAt(f(t, c), t, dir.path, c);
        if !Refuses(l, t, dir, c, zex) && f(t, c).value == 0 {
          GuardJudgesTheNode(t, dir, c);
          NameiExists(t, [], Steps(c));
          RemovalKeepsTree(t, Folded([], Steps(c)));
        }
      }
    }
  }

  lemma {:induction false} NameiExists(t: Tree, cur: Path, steps: seq<Component>)
    requires Namei(t, cur, steps).At?
    ensures Namei(t, cur, steps).path in t
    decreases |steps|
  {
    if steps != [] {
      NameiExists(t, Next(cur, steps[0]), steps[1..]);
    }
  }

  /** One delete a program asks for. */
  datatype Request = Request(dir: Directory, path: string, f: Call<int>)

  function RunRemovals(l: Layout, t: Tree, zex: bool, requests: seq<Request>): Tree
    decreases |requests|
  {
    if requests == [] then t
    else
      var r := requests[0];
      RunRemovals(l, HookOutcome(l, t, r.dir, r.path, zex, r.f).tree, zex, requests[1..])
  }

  ghost predicate AllRemove(requests: seq<Request>) {
    forall i :: 0 <= i < |requests| ==> Removes(requests[i].f, requests[i].dir.path)
  }

  /** Over every run of deletes by a program other than zex, the files of the base survive
      untouched, and the set of them only grows. */
  lemma {:induction false} BaseSurvives(l: Layout, t: Tree, requests: seq<Request>)
    requires l.Valid() && WellFormed(t) && AllRemove(requests)
    ensures var t' := RunRemovals(l, t, false, requests);
            && WellFormed(t') && t'.Keys <= t.Keys
            && (forall p :: p in t' ==> t'[p] == t[p])
            && (forall p :: Guarded(l, t, p) ==> Guarded(l, t', p))
            && (forall p :: p in t && Guarded(l, t, p) ==> p in t')
    decreases |requests|
  {
    if requests != [] {
      var r := requests[0];
      HookRemovesUnguarded(l, t, r.dir, r.path, false, r.f);
      var next := HookOutcome(l, t, r.dir, r.path, false, r.f).tree;
      assert AllRemove(requests[1..]);
      BaseSurvives(l, next, requests[1..]);
      assert next.Keys <= t.Keys;
      forall p | Guarded(l, t, p) ensures Guarded(l, next, p) && (p in t ==> p in next) {
      }
    }
  }
}
