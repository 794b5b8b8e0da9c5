/** Calls retried at the candidates of a missing path (src/preload.rs). */
module Fallback {
  import opened Text
  import opened Paths
  import opened FileTree
  import opened Remap

  /** What one call of a real function leaves behind. */
  datatype Outcome<+T> = Outcome(value: T, tree: Tree, errno: int)

  /** A real function of one path, its other arguments fixed. */
  type Call<!T> = (Tree, string) -> Outcome<T>

  /** A failing call changes nothing. */
  ghost predicate Quiet<T>(f: Call<T>, failed: T -> bool) {
    forall t, p :: failed(f(t, p).value) ==> f(t, p).tree == t
  }

  /** The calls at `cands` in order until one does not fail. */
  function Retried<T>(f: Call<T>, failed: T -> bool, t: Tree, cands: seq<string>, original: T, first: int)
    : Outcome<T>
    decreases |cands|
  {
    if cands == [] then Outcome(original, t, first)
    else
      var o := f(t, cands[0]);
      if !failed(o.value) then o else Retried(f, failed, o.tree, cands[1..], original, first)
  }

  function Redirected<T>(f: Call<T>, failed: T -> bool, t: Tree, path: string, roots: Roots): Outcome<T> {
    var o := f(t, path);
    if !failed(o.value) || o.errno != ENOENT then o
    else Retried(f, failed, o.tree, Candidates(path, roots), o.value, o.errno)
  }

  function Stands(t: Tree): string -> bool {
    (c: string) => LExists(t, c)
  }

  /** The candidate of `path` that exists, links not followed. */
  function ExistingTarget(t: Tree, path: string, roots: Roots): Option<string> {
    Find(Candidates(path, roots), Stands(t))
  }

  /** The file system and `errno`, as one process sees them. */
  class Os {
    var tree: Tree
    var errno: int
    const roots: Roots

    constructor (tree: Tree, roots: Roots)
      ensures this.tree == tree && this.roots == roots
    {
      this.tree, this.roots, this.errno := tree, roots, 0;
    }

    method Invoke<T>(f: Call<T>, path: string) returns (r: T)
      modifies this
      ensures Outcome(r, tree, errno) == f(old(tree), path)
    {
      var o := f(tree, path);
      tree, errno := o.tree, o.errno;
      r := o.value;
    }

    /** `f(path)`; on ENOENT again at each candidate, keeping the first errno when none works. */
    method WithFallback<T>(path: string, failed: T -> bool, f: Call<T>) returns (r: T)
      modifies this
      ensures Outcome(r, tree, errno) == Redirected(f, failed, old(tree), path, roots)
      ensures var o := f(old(tree), path);
              !failed(o.value) || o.errno != ENOENT ==> Outcome(r, tree, errno) == o
    {
      r := Invoke(f, path);
      if !failed(r) || errno != ENOENT {
        return;
      }
      var first := errno;
      ghost var after := tree;
      var cands := Candidates(path, roots);
      for i := 0 to |cands|
        invariant Retried(f, failed, tree, cands[i..], r, first) == Retried(f, failed, after, cands, r, first)
      {
        var r2 := Invoke(f, cands[i]);
        if !failed(r2) {
          return r2;
        }
        assert cands[i..][1..] == cands[i + 1..];
      }
      errno := first;
    }

    /** The candidate that exists with none before it. The library's own probes may leave any errno
        behind. */
    method FindExisting(path: string) returns (c: Option<string>)
      modifies this`errno
      ensures c == ExistingTarget(tree, path, roots)
      ensures c.None? ==> forall j :: 0 <= j < |Candidates(path, roots)| ==> !LExists(tree, Candidates(path, roots)[j])
      ensures c.Some? ==> exists k :: 0 <= k < |Candidates(path, roots)| && c.value == Candidates(path, roots)[k]
                                      && LExists(tree, c.value)
                                      && forall j :: 0 <= j < k ==> !LExists(tree, Candidates(path, roots)[j])
    {
      hide Candidates, LExists;
      var cands := Candidates(path, roots);
      for i := 0 to |cands|
        invariant forall j :: 0 <= j < i ==> !LExists(tree, cands[j])
      {
        var here := LExists(tree, cands[i]);
        errno := *;
        if here {
          FirstIs(cands, Stands(tree), i);
          return Some(cands[i]);
        }
      }
      FirstIs(cands, Stands(tree), |cands|);
      return None;
    }

    /** The stat family answers a bare top-level name from the root itself only. */
    method WithFallbackStat<T>(path: string, failed: T -> bool, f: Call<T>) returns (r: T)
      modifies this
      ensures Outcome(r, tree, errno) ==
              if IsTopLevel(path) then f(old(tree), path) else Redirected(f, failed, old(tree), path, roots)
      ensures var o := f(old(tree), path);
              !failed(o.value) || o.errno != ENOENT ==> Outcome(r, tree, errno) == o
    {
      if IsTopLevel(path) {
        r := Invoke(f, path);
      } else {
        r := WithFallback(path, failed, f);
      }
    }
  }

  /** For a call that is quiet when it fails, the retries amount to one call: the first good one. */
  lemma {:induction false} RetriedIsFirstGood<T>(f: Call<T>, failed: T -> bool, t: Tree, cands: seq<string>,
                                                 original: T, first: int)
    requires Quiet(f, failed)
    ensures Retried(f, failed, t, cands, original, first) ==
            match Find(cands, c => !failed(f(t, c).value))
            case Some(c) => f(t, c)
            case None => Outcome(original, t, first)
  {
    if cands != [] && failed(f(t, cands[0]).value) {
      RetriedIsFirstGood(f, failed, t, cands[1..], original, first);
      FindSkips(cands, c => !failed(f(t, c).value));
      FindAgrees(cands[1..], c => !failed(f(t, c).value), c => !failed(f(t, c).value));
    }
  }

  lemma FindSkips<T>(s: seq<T>, p: T -> bool)
    requires s != [] && !p(s[0])
    ensures Find(s, p) == Find(s[1..], p)
  {
  }

  lemma FindAgrees<T>(s: seq<T>, p: T -> bool, q: T -> bool)
    requires forall i :: 0 <= i < |s| ==> p(s[i]) == q(s[i])
    ensures Find(s, p) == Find(s, q)
  {
  }

  /** `f` succeeds exactly on the paths that exist, and fails with ENOENT on the others. */
  ghost predicate Answers<T>(f: Call<T>, failed: T -> bool, cwd: Path) {
    forall t, p ::
      && (failed(f(t, p).value) <==> !ExistsFrom(t, cwd, p))
      && (failed(f(t, p).value) ==> f(t, p).tree == t && f(t, p).errno == ENOENT)
  }

  /** `with_fallback` refines `resolve`: the path itself if it exists, else where it resolves to,
      else the first failure. */
  lemma {:induction false} FallbackRefinesResolve<T>(
      l: Layout, f: Call<T>, failed: T -> bool, cwd: Path, t: Tree, path: string)
    requires l.Valid() && Answers(f, failed, cwd)
    ensures Redirected(f, failed, t, path, l.Text()) ==
            if ExistsFrom(t, cwd, path) then f(t, path)
            else match Resolve(t, path, l.Text())
                 case Some(c) => f(t, c)
                 case None => Outcome(f(t, path).value, t, ENOENT)
  {
    var o := f(t, path);
    if !ExistsFrom(t, cwd, path) {
      var cands := Candidates(path, l.Text());
      RetriedIsFirstGood(f, failed, t, cands, o.value, o.errno);
      CandidatesAreAbsolute(l, path);
      forall i | 0 <= i < |cands| ensures !failed(f(t, cands[i]).value) == Exists(t, cands[i]) {
        assert IsAbsolute(cands[i]);
      }
      FindAgrees(cands, c => !failed(f(t, c).value), Live(t));
    }
  }

  /** A redirected call that is quiet when it fails, in full: the first call is the whole answer unless
      it fails with ENOENT. Then it is the call at the first candidate that works, and when none does
      the failure comes back as the first call left it. */
  lemma {:induction false} FallbackIsExact<T>(
      f: Call<T>, failed: T -> bool, t: Tree, path: string, roots: Roots, k: nat)
    requires Quiet(f, failed)
    ensures var o, r := f(t, path), Redirected(f, failed, t, path, roots);
            var cands := Candidates(path, roots);
            && (!failed(o.value) || o.errno != ENOENT ==> r == o)
            && (failed(o.value) && o.errno == ENOENT && (forall j :: 0 <= j < |cands| ==> failed(f(t, cands[j]).value)) ==>
                  r == Outcome(o.value, t, ENOENT))
            && (failed(o.value) && o.errno == ENOENT && k < |cands| && !failed(f(t, cands[k]).value)
                && (forall j :: 0 <= j < k ==> failed(f(t, cands[j]).value)) ==>
                  r == f(t, cands[k]))
  {
    var o := f(t, path);
    if failed(o.value) && o.errno == ENOENT {
      var cands := Candidates(path, roots);
      var works := (c: string) => !failed(f(t, c).value);
      RetriedIsFirstGood(f, failed, t, cands, o.value, o.errno);
      FindAgrees(cands, works, c => !failed(f(t, c).value));
      if k < |cands| && works(cands[k]) && forall j :: 0 <= j < k ==> !works(cands[j]) {
        FirstIs(cands, works, k);
      }
    }
  }

  /** One redirected call acts on the tree at most once, and not at all when it reports failure. */
  lemma {:induction false} FallbackActsOnce<T>(
      f: Call<T>, failed: T -> bool, t: Tree, path: string, roots: Roots)
    requires Quiet(f, failed)
    ensures var o := Redirected(f, failed, t, path, roots);
            && (failed(o.value) ==> o.tree == t && o.errno == f(t, path).errno)
            && (!failed(o.value) ==> exists p :: p in [path] + Candidates(path, roots) && o == f(t, p))
  {
    var o := f(t, path);
    var cands := Candidates(path, roots);
    assert path in [path] + cands;
    if failed(o.value) && o.errno == ENOENT {
      RetriedIsFirstGood(f, failed, t, cands, o.value, o.errno);
      var good := Find(cands, c => !failed(f(t, c).value));
      if good.Some? {
        assert good.value in [path] + cands;
      }
    }
  }
}
