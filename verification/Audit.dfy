/** The reachability audit (src/audit.rs). */
module Audit {
  import opened Text
  import opened Paths
  import opened FileTree

  ghost predicate NoDup<T>(s: seq<T>) {
    forall i, j :: 0 <= i < j < |s| ==> s[i] != s[j]
  }

  /** `read_dir`: the entries in no particular order, or an error. */
  method ReadDir(t: Tree, dir: Path) returns (entries: Option<seq<Path>>)
    ensures entries.None? <==> !IsDir(t, dir)
    ensures entries.Some? ==> NoDup(entries.value)
    ensures entries.Some? ==> forall p :: p in entries.value <==> p in t && p != [] && Parent(p) == dir
  {
    if !IsDir(t, dir) {
      return None;
    }
    var left := set p | p in t && p != [] && Parent(p) == dir;
    ghost var all := left;
    var es: seq<Path> := [];
    while left != {}
      invariant NoDup(es) && left <= all
      invariant forall p :: p in es <==> p in all && p !in left
    {
      var p :| p in left;
      es := es + [p];
      left := left - {p};
    }
    return Some(es);
  }

  /** Inside the subtree a walk from `root` leaves out. */
  ghost predicate Skipped(root: Path, exclude: Option<Path>, p: Path) {
    exclude.Some? && |root| < |exclude.value| && exclude.value <= p
  }

  ghost predicate Wanted(t: Tree, root: Path, exclude: Option<Path>, p: Path) {
    p in t && root < p && t[p] != Dir && !Skipped(root, exclude, p)
  }

  ghost predicate Covered(frontier: set<Path>, p: Path) {
    exists s :: s in frontier && s <= p
  }

  /** What the walk keeps: the directories still to visit are apart from each other, and what is
      wanted is either listed or below one of them, never both. */
  ghost predicate Walking(t: Tree, root: Path, exclude: Option<Path>, frontier: set<Path>, out: seq<Path>) {
    && (forall s :: s in frontier ==> root <= s && (Skipped(root, exclude, s) ==> exclude == Some(s)))
    && (forall a, b :: a in frontier && b in frontier && a != b ==> !(a <= b))
    && NoDup(out)
    && (forall r :: r in out ==> Wanted(t, root, exclude, root + r) && !Covered(frontier, root + r))
    && (forall p :: Wanted(t, root, exclude, p) && !Covered(frontier, p) ==> p[|root|..] in out)
  }

  ghost function DirsBelow(t: Tree, frontier: set<Path>): set<Path> {
    set p | p in t && t[p] == Dir && Covered(frontier, p)
  }

  lemma BelowIsDir(t: Tree, s: Path, p: Path)
    requires WellFormed(t) && p in t && s < p
    ensures IsDir(t, s) && p[..|s| + 1] in t && Parent(p[..|s| + 1]) == s && p[..|s| + 1] <= p
  {
    assert p[..|s|] == s && p[..|s| + 1][..|s|] == s;
    AncestorsAreDirs(t, p, |s|);
    if |s| + 1 < |p| {
      AncestorsAreDirs(t, p, |s| + 1);
    } else {
      assert p[..|s| + 1] == p;
    }
  }

  function Children(t: Tree, dir: Path): set<Path> {
    set p | p in t && p != [] && Parent(p) == dir
  }

  /** What is wanted below a directory is below one of its entries. */
  lemma {:induction false} OpenCovers(t: Tree, frontier: set<Path>, dir: Path, p: Path)
    requires WellFormed(t) && dir in frontier && IsDir(t, dir) && p in t && t[p] != Dir
    ensures Covered(frontier, p) <==> Covered(frontier - {dir} + Children(t, dir), p)
  {
    var next := frontier - {dir} + Children(t, dir);
    if Covered(frontier, p) {
      var s :| s in frontier && s <= p;
      if s == dir {
        assert p != dir;
        BelowIsDir(t, dir, p);
        assert p[..|dir| + 1] in next;
      } else {
        assert s in next;
      }
    }
    if Covered(next, p) {
      var s :| s in next && s <= p;
      assert s in frontier || (dir <= s && dir in frontier);
    }
  }

  /** Opening a directory: its entries take its place. */
  lemma {:induction false} OpenDir(t: Tree, root: Path, exclude: Option<Path>, frontier: set<Path>, out: seq<Path>, dir: Path)
    requires WellFormed(t) && Walking(t, root, exclude, frontier, out)
    requires dir in frontier && IsDir(t, dir) && !Skipped(root, exclude, dir)
    ensures Walking(t, root, exclude, frontier - {dir} + Children(t, dir), out)
  {
    var next := frontier - {dir} + Children(t, dir);
    forall s | s in next ensures root <= s && (Skipped(root, exclude, s) ==> exclude == Some(s)) {
      if s in Children(t, dir) {
        ExcludedEntry(root, exclude, dir, s);
      }
    }
    forall a, b | a in next && b in next && a != b ensures !(a <= b) {
      if a in Children(t, dir) || b in Children(t, dir) {
        EntriesApart(frontier, t, dir, a, b);
      }
    }
    forall p | p in t && t[p] != Dir ensures Covered(frontier, p) <==> Covered(next, p) {
      OpenCovers(t, frontier, dir, p);
    }
  }

  lemma ExcludedEntry(root: Path, exclude: Option<Path>, dir: Path, s: Path)
    requires root <= dir && !Skipped(root, exclude, dir) && s != [] && Parent(s) == dir
    ensures root <= s && (Skipped(root, exclude, s) ==> exclude == Some(s))
  {
    assert dir <= s;
    if Skipped(root, exclude, s) {
      assert exclude.value <= Parent(s) || exclude.value == s;
    }
  }

  lemma EntriesApart(frontier: set<Path>, t: Tree, dir: Path, a: Path, b: Path)
    requires dir in frontier && a != b
    requires forall x, y :: x in frontier && y in frontier && x != y ==> !(x <= y)
    requires a in frontier - {dir} + Children(t, dir) && b in frontier - {dir} + Children(t, dir)
    ensures !(a <= b)
  {
  }

  /** A file found: it is listed, and nothing else was below it. */
  lemma {:induction false} ListFile(t: Tree, root: Path, exclude: Option<Path>, frontier: set<Path>, out: seq<Path>, e: Path)
    requires WellFormed(t) && Walking(t, root, exclude, frontier, out)
    requires e in frontier && e in t && t[e] != Dir && root < e && exclude != Some(e)
    ensures Walking(t, root, exclude, frontier - {e}, out + [e[|root|..]])
  {
    var next, listed := frontier - {e}, out + [e[|root|..]];
    var rel := e[|root|..];
    assert root + rel == e;
    assert Covered(frontier, e);
    assert Wanted(t, root, exclude, e);
    assert rel !in out;
    forall p | p in t && p != e ensures Covered(next, p) <==> Covered(frontier, p) {
      if Covered(frontier, p) {
        var s :| s in frontier && s <= p;
        if s == e {
          BelowIsDir(t, e, p);
        } else {
          assert s in next;
        }
      }
    }
    assert !Covered(next, e);
    forall r | r in listed ensures Wanted(t, root, exclude, root + r) && !Covered(next, root + r) {
      if r != rel {
        assert root + r != e by { assert (root + r)[|root|..] == r; }
      }
    }
    forall p | Wanted(t, root, exclude, p) && !Covered(next, p) ensures p[|root|..] in listed {
      if p != e {
        assert p[|root|..] in out;
      }
    }
  }

  /** An entry left out: nothing below it is wanted. */
  lemma {:induction false} LeaveOut(t: Tree, root: Path, exclude: Option<Path>, frontier: set<Path>, out: seq<Path>, e: Path)
    requires WellFormed(t) && Walking(t, root, exclude, frontier, out) && e in frontier
    requires forall p :: Wanted(t, root, exclude, p) ==> !(e <= p)
    ensures Walking(t, root, exclude, frontier - {e}, out)
  {
    var next := frontier - {e};
    forall p | Wanted(t, root, exclude, p) ensures Covered(next, p) <==> Covered(frontier, p) {
      if Covered(frontier, p) {
        var s :| s in frontier && s <= p;
        assert s in next;
      }
    }
    forall r | r in out ensures !Covered(next, root + r) {
      assert Wanted(t, root, exclude, root + r);
    }
  }

  lemma {:induction false} NothingWantedBelow(t: Tree, root: Path, exclude: Option<Path>, e: Path)
    requires WellFormed(t)
    requires (exclude == Some(e) && root < e) || (e == root && !IsDir(t, root))
    ensures forall p :: Wanted(t, root, exclude, p) ==> !(e <= p)
  {
    forall p | Wanted(t, root, exclude, p) ensures !(e <= p) {
      if e == root {
        if !IsDir(t, root) {
          BelowIsDir(t, root, p);
        }
      }
    }
  }

  /** The directories still to visit get fewer when one is opened. */
  lemma {:induction false} FewerDirs(t: Tree, frontier: set<Path>, dir: Path)
    requires WellFormed(t) && dir in frontier && IsDir(t, dir)
    requires forall a, b :: a in frontier && b in frontier && a != b ==> !(a <= b)
    ensures DirsBelow(t, frontier - {dir} + Children(t, dir)) < DirsBelow(t, frontier)
  {
    var next := frontier - {dir} + Children(t, dir);
    assert dir in DirsBelow(t, frontier);
    forall s | s in next ensures !(s <= dir) {
      assert s in Children(t, dir) ==> |s| == |dir| + 1;
    }
    forall p | p in DirsBelow(t, next) ensures p in DirsBelow(t, frontier) {
      var s :| s in next && s <= p;
      assert s in frontier || (dir <= s && dir in frontier);
    }
  }

  /** The stack holds directories to visit (the root may be anything), `pending` entries just read;
      together they are the frontier. */
  ghost predicate Stacked(t: Tree, root: Path, exclude: Option<Path>, stack: seq<Path>, pending: seq<Path>,
                          frontier: set<Path>) {
    && NoDup(stack + pending)
    && (forall s :: s in frontier <==> s in stack || s in pending)
    && (forall s :: s in stack ==> s == root || IsDir(t, s))
    && (forall s :: s in stack ==> !Skipped(root, exclude, s))
    && (forall s :: s in pending ==> s in t && root < s)
  }

  lemma PushEntry(t: Tree, root: Path, exclude: Option<Path>, stack: seq<Path>, pending: seq<Path>, frontier: set<Path>)
    requires Stacked(t, root, exclude, stack, pending, frontier) && pending != []
    requires IsDir(t, pending[0]) && !Skipped(root, exclude, pending[0])
    ensures Stacked(t, root, exclude, stack + [pending[0]], pending[1..], frontier)
  {
    assert stack + [pending[0]] + pending[1..] == stack + pending;
    assert pending == [pending[0]] + pending[1..];
  }

  lemma DropEntry(t: Tree, root: Path, exclude: Option<Path>, stack: seq<Path>, pending: seq<Path>, frontier: set<Path>)
    requires Stacked(t, root, exclude, stack, pending, frontier) && pending != []
    ensures Stacked(t, root, exclude, stack, pending[1..], frontier - {pending[0]})
  {
    var all := stack + pending;
    var k := |stack|;
    assert all[k] == pending[0];
    assert stack + pending[1..] == all[..k] + all[k + 1..];
    forall i | 0 <= i < |stack| ensures stack[i] != pending[0] {
      assert all[i] == stack[i];
    }
    forall i | 0 <= i < |pending[1..]| ensures pending[1..][i] != pending[0] {
      assert all[k + 1 + i] == pending[1..][i];
    }
    forall s ensures s in frontier - {pending[0]} <==> s in stack || s in pending[1..] {
      assert pending == [pending[0]] + pending[1..];
    }
  }

  lemma PopDir(t: Tree, root: Path, exclude: Option<Path>, stack: seq<Path>, frontier: set<Path>)
    requires Stacked(t, root, exclude, stack, [], frontier) && stack != []
    ensures var top := |stack| - 1;
            && stack[top] in frontier && (stack[top] == root || IsDir(t, stack[top]))
            && !Skipped(root, exclude, stack[top])
            && Stacked(t, root, exclude, stack[..top], [], frontier - {stack[top]})
  {
    var top := |stack| - 1;
    assert stack + [] == stack && stack[..top] + [] == stack[..top];
    assert stack == stack[..top] + [stack[top]];
    assert stack[top] !in stack[..top];
  }

  lemma {:induction false} AddEntries(t: Tree, root: Path, exclude: Option<Path>, stack: seq<Path>, es: seq<Path>,
                                      frontier: set<Path>, dir: Path)
    requires Stacked(t, root, exclude, stack, [], frontier - {dir}) && dir in frontier && root <= dir
    requires NoDup(es) && forall p :: p in es <==> p in t && p != [] && Parent(p) == dir
    requires forall a, b :: a in frontier && b in frontier && a != b ==> !(a <= b)
    ensures Stacked(t, root, exclude, stack, es, frontier - {dir} + Children(t, dir))
  {
    var all := stack + es;
    assert stack + [] == stack;
    forall i, j | 0 <= i < j < |all| ensures all[i] != all[j] {
      if i < |stack| <= j {
        assert all[j] in es && dir <= all[j];
        assert all[i] in stack && all[i] in frontier && all[i] != dir;
      }
    }
  }

  lemma NotSkippedUnlessExcluded(t: Tree, root: Path, exclude: Option<Path>, frontier: set<Path>, out: seq<Path>, e: Path)
    requires Walking(t, root, exclude, frontier, out) && e in frontier && exclude != Some(e)
    ensures !Skipped(root, exclude, e)
  {
  }

  lemma FewerCovered(t: Tree, frontier: set<Path>, e: Path)
    ensures DirsBelow(t, frontier - {e}) <= DirsBelow(t, frontier)
  {
  }

  /** The entries of one directory: directories go on the stack, the rest on the list. */
  method VisitEntries(t: Tree, root: Path, exclude: Option<Path>, es: seq<Path>, stack0: seq<Path>, out0: seq<Path>,
                      ghost frontier0: set<Path>)
    returns (stack: seq<Path>, out: seq<Path>, ghost frontier: set<Path>)
    requires WellFormed(t)
    requires Stacked(t, root, exclude, stack0, es, frontier0) && Walking(t, root, exclude, frontier0, out0)
    ensures Stacked(t, root, exclude, stack, [], frontier) && Walking(t, root, exclude, frontier, out)
    ensures DirsBelow(t, frontier) <= DirsBelow(t, frontier0)
  {
    hide Stacked, Walking, DirsBelow, WellFormed, Skipped;
    stack, out, frontier := stack0, out0, frontier0;
    assert es[0..] == es;
    for i := 0 to |es|
      invariant Stacked(t, root, exclude, stack, es[i..], frontier) && Walking(t, root, exclude, frontier, out)
      invariant DirsBelow(t, frontier) <= DirsBelow(t, frontier0)
    {
      var e := es[i];
      assert es[i..][0] == e && es[i..][1..] == es[i + 1..];
      EntryFacts(t, root, exclude, stack, es[i..], frontier);
      if Some(e) == exclude {
        NothingWantedBelow(t, root, exclude, e);
        LeaveOut(t, root, exclude, frontier, out, e);
        DropEntry(t, root, exclude, stack, es[i..], frontier);
        FewerCovered(t, frontier, e);
        frontier := frontier - {e};
        continue;
      }
      if IsDir(t, e) {
        NotSkippedUnlessExcluded(t, root, exclude, frontier, out, e);
        PushEntry(t, root, exclude, stack, es[i..], frontier);
        stack := stack + [e];
      } else {
        ListFile(t, root, exclude, frontier, out, e);
        DropEntry(t, root, exclude, stack, es[i..], frontier);
        FewerCovered(t, frontier, e);
        frontier := frontier - {e};
        out := out + [e[|root|..]];
      }
    }
    assert es[|es|..] == [];
  }

  lemma EntryFacts(t: Tree, root: Path, exclude: Option<Path>, stack: seq<Path>, pending: seq<Path>, frontier: set<Path>)
    requires Stacked(t, root, exclude, stack, pending, frontier) && pending != []
    ensures pending[0] in frontier && pending[0] in t && root < pending[0]
  {
  }

  lemma WalkStarts(t: Tree, root: Path, exclude: Option<Path>)
    ensures Stacked(t, root, exclude, [root], [], {root}) && Walking(t, root, exclude, {root}, [])
  {
  }

  lemma WalkEnds(t: Tree, root: Path, exclude: Option<Path>, frontier: set<Path>, out: seq<Path>)
    requires Stacked(t, root, exclude, [], [], frontier) && Walking(t, root, exclude, frontier, out)
    ensures NoDup(out)
    ensures forall p :: Wanted(t, root, exclude, p) ==> p[|root|..] in out
    ensures forall r :: r in out ==> Wanted(t, root, exclude, root + r)
  {
  }

  lemma WalkingApart(t: Tree, root: Path, exclude: Option<Path>, frontier: set<Path>, out: seq<Path>)
    requires Walking(t, root, exclude, frontier, out)
    ensures forall a, b :: a in frontier && b in frontier && a != b ==> !(a <= b)
    ensures forall s :: s in frontier ==> root <= s
  {
  }

  /** Every file and link under `root`, relative to it, except below `exclude`: each exactly once. */
  method WalkRelative(t: Tree, root: Path, exclude: Option<Path>) returns (out: seq<Path>)
    requires WellFormed(t)
    ensures NoDup(out)
    ensures forall p :: Wanted(t, root, exclude, p) ==> p[|root|..] in out
    ensures forall r :: r in out ==> Wanted(t, root, exclude, root + r)
  {
    hide Stacked, Walking, DirsBelow, WellFormed, Skipped, Wanted, NoDup;
    out := [];
    var stack := [root];
    ghost var frontier := {root};
    WalkStarts(t, root, exclude);
    while stack != []
      invariant Stacked(t, root, exclude, stack, [], frontier) && Walking(t, root, exclude, frontier, out)
      decreases DirsBelow(t, frontier), |stack|
    {
      var dir := stack[|stack| - 1];
      PopDir(t, root, exclude, stack, frontier);
      WalkingApart(t, root, exclude, frontier, out);
      stack := stack[..|stack| - 1];
      var entries := ReadDir(t, dir);
      if entries.None? {
        NothingWantedBelow(t, root, exclude, dir);
        LeaveOut(t, root, exclude, frontier, out, dir);
        FewerCovered(t, frontier, dir);
        frontier := frontier - {dir};
        continue;
      }
      OpenDir(t, root, exclude, frontier, out, dir);
      FewerDirs(t, frontier, dir);
      AddEntries(t, root, exclude, stack, entries.value, frontier, dir);
      frontier := frontier - {dir} + Children(t, dir);
      stack, out, frontier := VisitEntries(t, root, exclude, entries.value, stack, out, frontier);
    }
    WalkEnds(t, root, exclude, frontier, out);
  }
}
