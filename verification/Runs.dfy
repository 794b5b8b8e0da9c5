/** Runs that mix deletes with calls that create and move (src/preload.rs). */
module Runs {
  import opened Paths
  import opened FileTree
  import opened Remap
  import opened Fallback
  import opened Deletion
  import opened Creation
  import opened Kernel

  /** `t'` has every node of `t` as it was. */
  ghost predicate Extends(t: Tree, t': Tree) {
    WellFormed(t') && t.Keys <= t'.Keys && forall q :: q in t ==> t'[q] == t[q]
  }

  /** `mkdir`, `mkfifo`, `mknod`: whatever the path's spelling, nodes are only added. */
  ghost predicate Adds(f: Call<int>) {
    && Quiet(f, Negative())
    && forall t, n {:trigger f(t, n)} :: WellFormed(t) ==> Extends(t, f(t, n).tree)
  }

  /** `link` and `symlink`. */
  ghost predicate Links(f: PairCall) {
    forall t, o, n {:trigger f(t, o, n)} ::
      && (f(t, o, n).value != 0 ==> f(t, o, n).tree == t)
      && (WellFormed(t) ==> Extends(t, f(t, o, n).tree))
  }

  lemma {:induction false} MkdirAdds(cwd: Path)
    ensures Adds(Mkdir(cwd))
  {
    forall t: Tree, n: string | WellFormed(t) ensures Extends(t, Mkdir(cwd)(t, n).tree) {
      StepsAreProper(n);
      if Entry(t, cwd, n).At? {
        EntryHasHome(t, cwd, n);
      }
    }
    forall t: Tree, n: string | Negative()(Mkdir(cwd)(t, n).value) ensures Mkdir(cwd)(t, n).tree == t {
    }
  }

  lemma {:induction false} PlacingExtends(t: Tree, cwd: Path, to: string, n: Path -> Node)
    requires WellFormed(t)
    ensures Extends(t, Placing(t, cwd, to, n).tree)
  {
    if Entry(t, cwd, to).At? {
      EntryHasHome(t, cwd, to);
    }
  }

  lemma {:induction false} HardLinkLinks(cwd: Path)
    ensures Links(HardLink(cwd))
  {
    hide Placing;
    forall t: Tree, o: string, n: string
      ensures HardLink(cwd)(t, o, n).value != 0 ==> HardLink(cwd)(t, o, n).tree == t
      ensures WellFormed(t) ==> Extends(t, HardLink(cwd)(t, o, n).tree)
    {
      if LookupText(t, cwd, o).At? {
        var src := LookupText(t, cwd, o).path;
        PlacingIsQuiet(t, cwd, n, CopyOf(t, src));
        if WellFormed(t) {
          PlacingExtends(t, cwd, n, CopyOf(t, src));
        }
      }
    }
  }

  lemma {:induction false} SymLinkLinks(cwd: Path)
    ensures Links(SymLink(cwd))
  {
    hide Placing;
    forall t: Tree, o: string, n: string
      ensures SymLink(cwd)(t, o, n).value != 0 ==> SymLink(cwd)(t, o, n).tree == t
      ensures WellFormed(t) ==> Extends(t, SymLink(cwd)(t, o, n).tree)
    {
      PlacingIsQuiet(t, cwd, n, PointsTo(t, o));
      if WellFormed(t) {
        PlacingExtends(t, cwd, n, PointsTo(t, o));
      }
    }
  }

  /** One call of a program other than zex. */
  datatype Event =
    | Delete(dir: Directory, path: string, remove: Call<int>)
    | Make(path: string, make: Call<int>)
    | Link(old_: string, new_: string, oldExists: bool, link: PairCall)
    | Move(cwd: Path, from: string, to: string)

  ghost predicate Proper(e: Event) {
    match e
    case Delete(dir, _, f) => Removes(f, dir.path)
    case Make(_, f) => Adds(f)
    case Link(_, _, _, f) => Links(f)
    case Move(_, _, _) => true
  }

  function After(l: Layout, t: Tree, e: Event): Tree {
    match e
    case Delete(dir, path, f) => HookOutcome(l, t, dir, path, false, f).tree
    case Make(path, f) => Redirected(f, Negative(), t, path, l.Text()).tree
    case Link(o, n, oldExists, f) => TwoPathsOutcome(f, t, o, n, oldExists, l.Text()).tree
    case Move(cwd, from, to) => TwoPathsOutcome(Rename(cwd), t, from, to, true, l.Text()).tree
  }

  function Run(l: Layout, t: Tree, events: seq<Event>): Tree
    decreases |events|
  {
    if events == [] then t else Run(l, After(l, t, events[0]), events[1..])
  }

  /** The call is a `rename` that takes the node at `p` or a directory above it, or puts something
      different in its place. */
  predicate Moves(l: Layout, t: Tree, e: Event, p: Path) {
    e.Move? &&
    match RenameEnds(l, t, e.cwd, e.from, e.to)
    case Some((src, dst)) =>
      src != dst && (src <= p || (dst == p && (src in t && p in t ==> t[src] != t[p])))
    case None => false
  }

  /** At some point of the run the userland layer has a node of the same name. */
  predicate Countered(l: Layout, t: Tree, events: seq<Event>, p: Path)
    requires l.Syshub() <= p
    decreases |events|
  {
    || l.Union() + p[|l.Syshub()|..] in t
    || (events != [] && Countered(l, After(l, t, events[0]), events[1..], p))
  }

  /** Some call of the run moves it. */
  predicate Moved(l: Layout, t: Tree, events: seq<Event>, p: Path)
    decreases |events|
  {
    events != [] && (Moves(l, t, events[0], p) || Moved(l, After(l, t, events[0]), events[1..], p))
  }

  lemma {:induction false} StepIsWellFormed(l: Layout, t: Tree, e: Event)
    requires l.Valid() && WellFormed(t) && Proper(e)
    ensures WellFormed(After(l, t, e))
  {
    match e {
      case Delete(dir, path, f) => HookRemovesUnguarded(l, t, dir, path, false, f);
      case Make(path, f) => FallbackActsOnce(f, Negative(), t, path, l.Text());
      case Link(o, n, oldExists, f) => PairActsOnce(f, t, o, n, oldExists, l.Text());
      case Move(cwd, from, to) =>
        RenameByEnds(l, t, cwd, from, to);
        if RenameEnds(l, t, cwd, from, to).Some? {
          EndsStand(l, t, cwd, from, to);
          var (src, dst) := RenameEnds(l, t, cwd, from, to).value;
          RenameEntryPlaces(t, src, dst);
        }
    }
  }

  /** One call leaves a guarded node as it was exactly when it is no `rename` that moves it. */
  lemma {:induction false} StepKeepsGuardedIff(l: Layout, t: Tree, e: Event, p: Path)
    requires l.Valid() && WellFormed(t) && Proper(e) && p in t && Guarded(l, t, p)
    ensures p in After(l, t, e) && After(l, t, e)[p] == t[p] <==> !Moves(l, t, e, p)
  {
    hide RenameEnds, RenameEntry;
    match e {
      case Delete(dir, path, f) => HookRemovesUnguarded(l, t, dir, path, false, f);
      case Make(path, f) => FallbackActsOnce(f, Negative(), t, path, l.Text());
      case Link(o, n, oldExists, f) => PairActsOnce(f, t, o, n, oldExists, l.Text());
      case Move(cwd, from, to) => MoveKeepsIff(l, t, cwd, from, to, p);
    }
  }

  lemma {:induction false} MoveKeepsIff(l: Layout, t: Tree, cwd: Path, from: string, to: string, p: Path)
    requires WellFormed(t) && p in t
    ensures var t' := TwoPathsOutcome(Rename(cwd), t, from, to, true, l.Text()).tree;
            p in t' && t'[p] == t[p] <==> !Moves(l, t, Move(cwd, from, to), p)
  {
    hide RenameEnds, RenameEntry, TwoPathsOutcome, Rename;
    RenameByEnds(l, t, cwd, from, to);
    if RenameEnds(l, t, cwd, from, to).Some? {
      EndsStand(l, t, cwd, from, to);
      var (src, dst) := RenameEnds(l, t, cwd, from, to).value;
      if src == dst {
        SamePlace(t, src);
      } else {
        RenameKeepsIff(t, src, dst, p);
      }
    }
  }

  /** Over every run of deletes, creations and renames by programs other than zex, a file of the
      base is still there untouched at the end, unless a `rename` of the run moved it, or the
      userland layer had a node of its name at some point and so made it deletable. */
  lemma {:induction false} BaseSurvivesUnlessMoved(l: Layout, t: Tree, events: seq<Event>, p: Path)
    requires l.Valid() && WellFormed(t) && (forall i :: 0 <= i < |events| ==> Proper(events[i]))
    requires p in t && Guarded(l, t, p)
    ensures (p in Run(l, t, events) && Run(l, t, events)[p] == t[p])
            || Countered(l, t, events, p) || Moved(l, t, events, p)
    decreases |events|
  {
    hide Proper, After, Moves, WellFormed;
    if events != [] {
      var next := After(l, t, events[0]);
      StepIsWellFormed(l, t, events[0]);
      StepKeepsGuardedIff(l, t, events[0], p);
      if !Moves(l, t, events[0], p) && Guarded(l, next, p) {
        BaseSurvivesUnlessMoved(l, next, events[1..], p);
      }
    }
  }
}
