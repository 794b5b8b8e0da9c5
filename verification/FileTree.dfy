/** The file tree the calls act on, and the kernel's path walk over it. */
module FileTree {
  import opened Text
  import opened Paths

  const EPERM := 1
  const ENOENT := 2
  const EACCES := 13
  const EEXIST := 17
  const ENOTDIR := 20
  const EINVAL := 22
  const ERANGE := 34
  const ENOEXEC := 8
  const EBUSY := 16
  const ENOTEMPTY := 39
  const EISDIR := 21

  /** A symbolic link is a leaf: only whether its target exists is kept. */
  datatype Node = Dir | File(data: string) | Link(live: bool) | Socket

  type Tree = map<Path, Node>

  ghost predicate WellFormed(t: Tree) {
    && [] in t && t[[]] == Dir
    && (forall p :: p in t ==> Normalised(p))
    && forall p {:trigger Parent(p)} :: p in t && p != [] ==> Parent(p) in t && t[Parent(p)] == Dir
  }

  predicate IsDir(t: Tree, p: Path) {
    p in t && t[p] == Dir
  }

  lemma {:induction false} AncestorsAreDirs(t: Tree, p: Path, k: nat)
    requires WellFormed(t) && p in t && k < |p|
    ensures IsDir(t, p[..k])
    decreases |p|
  {
    if k + 1 < |p| {
      AncestorsAreDirs(t, Parent(p), k);
      assert Parent(p)[..k] == p[..k];
    }
  }

  /** One step of a walk, by text alone. */
  function Next(cur: Path, c: Component): Path {
    match c
    case ParentDir => Parent(cur)
    case Normal(n) => cur + [n]
    case _ => cur
  }

  /** Where the steps lead when nobody looks at the disk. */
  function Folded(cur: Path, steps: seq<Component>): Path
    decreases |steps|
  {
    if steps == [] then cur else Folded(Next(cur, steps[0]), steps[1..])
  }

  lemma {:induction false} FoldedIsNormalised(cur: Path, steps: seq<Component>)
    requires Normalised(cur) && ProperNames(steps)
    ensures Normalised(Folded(cur, steps))
    decreases |steps|
  {
    if steps != [] {
      FoldedIsNormalised(Next(cur, steps[0]), steps[1..]);
    }
  }

  datatype Lookup = At(path: Path) | Missing(errno: int)

  /** The kernel's walk: every step starts from an existing directory. */
  function Namei(t: Tree, cur: Path, steps: seq<Component>): Lookup
    decreases |steps|
  {
    if cur !in t then Missing(ENOENT)
    else if steps == [] then At(cur)
    else if t[cur] != Dir then Missing(ENOTDIR)
    else Namei(t, Next(cur, steps[0]), steps[1..])
  }

  /** The walk succeeds exactly when everything it passes is a directory and its textual end
      exists, and then it ends there. */
  lemma {:induction false} WalkIsFolded(t: Tree, cur: Path, steps: seq<Component>)
    ensures Namei(t, cur, steps).At? <==>
            && Folded(cur, steps) in t
            && forall k :: 0 <= k < |steps| ==> IsDir(t, Folded(cur, steps[..k]))
    ensures Namei(t, cur, steps).At? ==> Namei(t, cur, steps).path == Folded(cur, steps)
    decreases |steps|
  {
    if steps == [] {
    } else {
      var next, rest := Next(cur, steps[0]), steps[1..];
      WalkIsFolded(t, next, rest);
      assert steps[..0] == [];
      forall k | 0 < k <= |steps|
        ensures Folded(cur, steps[..k]) == Folded(next, rest[..k - 1])
      {
        assert steps[..k][0] == steps[0] && steps[..k][1..] == rest[..k - 1];
      }
      if Namei(t, cur, steps).At? {
        forall k | 0 <= k < |steps| ensures IsDir(t, Folded(cur, steps[..k])) {
          if k > 0 {
            assert IsDir(t, Folded(next, rest[..k - 1]));
          }
        }
      }
      if Folded(cur, steps) in t && forall k :: 0 <= k < |steps| ==> IsDir(t, Folded(cur, steps[..k])) {
        assert IsDir(t, Folded(cur, steps[..0]));
        forall k | 0 <= k < |rest| ensures IsDir(t, Folded(next, rest[..k])) {
          assert IsDir(t, Folded(cur, steps[..k + 1]));
        }
      }
    }
  }

  lemma {:induction false} FoldedConcat(cur: Path, a: seq<Component>, b: seq<Component>)
    ensures Folded(cur, a + b) == Folded(Folded(cur, a), b)
    decreases |a|
  {
    if a == [] {
      assert a + b == b;
    } else {
      assert (a + b)[1..] == a[1..] + b;
      FoldedConcat(Next(cur, a[0]), a[1..], b);
    }
  }

  lemma {:induction false} FoldedNames(cur: Path, p: Path)
    ensures Folded(cur, Names(p)) == cur + p
    decreases |p|
  {
    if p == [] {
      assert cur + p == cur;
    } else {
      assert Names(p)[1..] == Names(p[1..]);
      FoldedNames(cur + [p[0]], p[1..]);
      assert cur + [p[0]] + p[1..] == cur + p;
    }
  }

  /** A last piece that is empty or `.` asks for a directory. */
  predicate WantsDir(text: string) {
    var segments := Split(text, '/');
    segments[|segments| - 1] == "" || segments[|segments| - 1] == "."
  }

  /** `text` looked up by a process working in `base`; the last link is not followed. */
  function LookupText(t: Tree, base: Path, text: string): Lookup {
    if text == "" then Missing(ENOENT)
    else
      var found := Namei(t, if IsAbsolute(text) then [] else base, Steps(text));
      if found.At? && WantsDir(text) && !IsDir(t, found.path) then Missing(ENOTDIR) else found
  }

  /** `symlink_metadata(text).is_ok()` for an absolute text. */
  predicate LExists(t: Tree, text: string) {
    LookupText(t, [], text).At?
  }

  predicate Alive(n: Node) {
    n.Link? ==> n.live
  }

  /** A node that is there, and no dangling link. */
  predicate Lives(t: Tree, p: Path) {
    p in t && Alive(t[p])
  }

  /** `access(text, F_OK) == 0` from `base`: follows a link at the end. */
  predicate ExistsFrom(t: Tree, base: Path, text: string) {
    var found := LookupText(t, base, text);
    found.At? && found.path in t && Alive(t[found.path])
  }

  /** `Path::exists` of an absolute text. */
  predicate Exists(t: Tree, text: string) {
    ExistsFrom(t, [], text)
  }

  lemma {:induction false} FoldedFront(p: Path, k: nat)
    requires k <= |p|
    ensures Folded([], Names(p)[..k]) == p[..k]
  {
    assert Names(p)[..k] == Names(p[..k]);
    FoldedNames([], p[..k]);
    assert [] + p[..k] == p[..k];
  }

  lemma {:induction false} NameiOfPath(t: Tree, p: Path)
    requires WellFormed(t)
    ensures Namei(t, [], Names(p)).At? <==> p in t
    ensures p in t ==> Namei(t, [], Names(p)) == At(p)
  {
    hide *;
    WalkIsFolded(t, [], Names(p));
    FoldedNames([], p);
    assert [] + p == p;
    if p in t {
      forall k | 0 <= k < |p| ensures IsDir(t, Folded([], Names(p)[..k])) {
        FoldedFront(p, k);
        AncestorsAreDirs(t, p, k);
      }
    }
  }

  lemma {:induction false} SplitRender(p: Path)
    requires Normalised(p) && p != []
    ensures Split(Render(p), '/') == [""] + p
  {
    var rel := RenderRel(p);
    assert Render(p) == "" + ['/'] + rel;
    SplitFirst("", '/', rel);
    SplitJoin(p, '/');
  }

  lemma {:induction false} RenderEnd(p: Path)
    requires Normalised(p) && p != []
    ensures !WantsDir(Render(p))
  {
    SplitRender(p);
    assert ([""] + p)[|p|] == p[|p| - 1];
    assert IsName(p[|p| - 1]);
  }

  /** A normalised path is found exactly where its names say. */
  lemma {:induction false} LookupOfRender(t: Tree, base: Path, p: Path)
    requires WellFormed(t) && Normalised(p)
    ensures LookupText(t, base, Render(p)).At? <==> p in t
    ensures p in t ==> LookupText(t, base, Render(p)) == At(p)
    ensures LExists(t, Render(p)) <==> p in t
    ensures Exists(t, Render(p)) <==> p in t && Alive(t[p])
  {
    StepsOfRender(p);
    NameiOfPath(t, p);
    if p != [] {
      RenderEnd(p);
    }
  }

  /** A walk by names ends in ENOTDIR exactly when something above its end is no directory. */
  lemma {:induction false} BlockedIff(t: Tree, cur: Path, q: Path)
    requires WellFormed(t)
    ensures Namei(t, cur, Names(q)) == Missing(ENOTDIR) <==>
            exists k :: 0 <= k < |q| && cur + q[..k] in t && t[cur + q[..k]] != Dir
    decreases |q|
  {
    if q != [] {
      assert cur + q[..0] == cur;
      forall k | 0 < k < |q| && cur + q[..k] in t ensures IsDir(t, cur) {
        AncestorsAreDirs(t, cur + q[..k], |cur|);
        assert (cur + q[..k])[..|cur|] == cur;
      }
      if IsDir(t, cur) {
        assert Names(q)[1..] == Names(q[1..]);
        BlockedIff(t, cur + [q[0]], q[1..]);
        forall k | 0 < k < |q| ensures cur + q[..k] == cur + [q[0]] + q[1..][..k - 1] {
        }
        if k :| 0 <= k < |q| - 1 && cur + [q[0]] + q[1..][..k] in t && t[cur + [q[0]] + q[1..][..k]] != Dir {
          assert cur + q[..k + 1] == cur + [q[0]] + q[1..][..k];
        }
      }
    }
  }

  /** Something above the name is no directory. */
  ghost predicate Blocked(t: Tree, p: Path) {
    exists k :: 0 <= k < |p| && p[..k] in t && t[p[..k]] != Dir
  }

  lemma {:induction false} BlockedIsMissing(t: Tree, p: Path)
    requires WellFormed(t) && Blocked(t, p)
    ensures p !in t
  {
    if p in t {
      var k :| 0 <= k < |p| && p[..k] in t && t[p[..k]] != Dir;
      AncestorsAreDirs(t, p, k);
    }
  }

  lemma {:induction false} NameiErrors(t: Tree, cur: Path, steps: seq<Component>)
    ensures Namei(t, cur, steps).Missing? ==> Namei(t, cur, steps).errno in {ENOENT, ENOTDIR}
    decreases |steps|
  {
    if steps != [] {
      NameiErrors(t, Next(cur, steps[0]), steps[1..]);
    }
  }

  /** The whole lookup of a normalised path, by names. */
  lemma {:induction false} LookupIsExact(t: Tree, base: Path, p: Path)
    requires WellFormed(t) && Normalised(p)
    ensures LookupText(t, base, Render(p)) ==
            if p in t then At(p) else Missing(if Blocked(t, p) then ENOTDIR else ENOENT)
  {
    hide WellFormed, Namei, WantsDir;
    LookupOfRender(t, base, p);
    StepsOfRender(p);
    NameiErrors(t, [], Names(p));
    NameiOfPath(t, p);
    BlockedIff(t, [], p);
    forall k | 0 <= k < |p| ensures [] + p[..k] == p[..k] {
    }
  }
}
