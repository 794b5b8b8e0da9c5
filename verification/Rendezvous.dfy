/** A redirected `bind` and `connect` on the tree itself (src/preload.rs). */
module Rendezvous {
  import opened Text
  import opened Paths
  import opened FileTree
  import opened Remap
  import opened Fallback
  import opened Creation
  import opened Sockets
  import opened Kernel

  const EADDRINUSE := 98
  const ECONNREFUSED := 111

  /** A path that starts with a NUL, or is empty, is no name in the tree but an abstract one. */
  function Bind(cwd: Path): SockCall {
    (t: Tree, a: SockAddr) =>
      if a.family != AF_UNIX || !a.Accepted() then Outcome(-1, t, EINVAL)
      else if a.KernelPath() == "" then Outcome(0, t, 0)
      else
        match Entry(t, cwd, a.KernelPath())
        case Missing(e) => Outcome(-1, t, if e == EEXIST then EADDRINUSE else e)
        case At(q) =>
          if q in t then Outcome(-1, t, EADDRINUSE)
          else if TrailingSlash(a.KernelPath()) then Outcome(-1, t, ENOENT)
          else Outcome(0, t[q := Socket], 0)
  }

  function Connect(cwd: Path): SockCall {
    (t: Tree, a: SockAddr) =>
      if a.family != AF_UNIX || !a.Accepted() then Outcome(-1, t, EINVAL)
      else if a.KernelPath() == "" then Outcome(-1, t, ECONNREFUSED)
      else
        match LookupText(t, cwd, a.KernelPath())
        case Missing(e) => Outcome(-1, t, e)
        case At(q) => if q in t && t[q] == Socket then Outcome(0, t, 0) else Outcome(-1, t, ECONNREFUSED)
  }

  lemma {:induction false} BindByPath(t: Tree, cwd: Path, c: Path, a: SockAddr)
    requires WellFormed(t) && Normalised(c) && c != []
    requires a.family == AF_UNIX && a.Accepted() && a.KernelPath() == Render(c)
    ensures Bind(cwd)(t, a) ==
            if !IsDir(t, Parent(c)) then Outcome(-1, t, Bind(cwd)(t, a).errno)
            else if c in t then Outcome(-1, t, EADDRINUSE)
            else Outcome(0, t[c := Socket], 0)
    ensures IsDir(t, Parent(c)) && c !in t ==> Placed(t, t[c := Socket], c) && WellFormed(t[c := Socket])
  {
    hide Entry, TrailingSlash;
    EntryOfRender(t, cwd, c);
    assert Render(c) != "";
  }

  lemma {:induction false} BindPlaces(t: Tree, cwd: Path, a: SockAddr, p: Path)
    requires WellFormed(t) && Normalised(p) && Render(p) == a.KernelPath() && Bind(cwd)(t, a).value == 0
    ensures Placed(t, Bind(cwd)(t, a).tree, p)
  {
    hide Entry, TrailingSlash;
    assert Render(p) != "";
    RootIsNoEntry(t, cwd, p);
    BindByPath(t, cwd, p, a);
  }

  lemma {:induction false} BindBinds(cwd: Path)
    ensures Binds(Bind(cwd))
  {
    forall t: Tree, a: SockAddr | WellFormed(t) ensures BindsAt(Bind(cwd)(t, a), t, a) {
      BindIsQuiet(t, cwd, a);
      hide Bind, Placed;
      if Bind(cwd)(t, a).value == 0 {
        forall p | Normalised(p) && Render(p) == a.KernelPath() ensures Placed(t, Bind(cwd)(t, a).tree, p) {
          BindPlaces(t, cwd, a, p);
        }
      }
    }
  }

  lemma BindIsQuiet(t: Tree, cwd: Path, a: SockAddr)
    ensures Bind(cwd)(t, a).value != 0 ==> Bind(cwd)(t, a).tree == t
  {
  }

  /** A socket address that the library reads as a classic path. */
  ghost predicate LibraryReads(a: SockAddr, p: Path) {
    a.Valid() && a.family == AF_UNIX && Classic(p) && NulFree(p) && a.CPath() == Render(p)
  }

  /** One that the kernel reads the same. */
  ghost predicate Spells(a: SockAddr, p: Path) {
    LibraryReads(a, p) && a.Accepted() && a.KernelPath() == Render(p)
  }

  /** A `bind` that finds no such path makes the socket at the first candidate of the path the library
      reads that has a home, and nowhere else: when that name does not fit or is taken, it fails. Any
      other `bind` is the whole answer. */
  lemma {:induction false} BindExact(l: Layout, t: Tree, cwd: Path, a: SockAddr, p: Path)
    requires l.Valid() && NulFree(l.sysroot) && WellFormed(t) && LibraryReads(a, p)
    ensures SockOutcome(Bind(cwd), t, a, true, l.Text()) ==
            if Bind(cwd)(t, a) != Outcome(-1, t, ENOENT) then Bind(cwd)(t, a)
            else
              match Find(CandidatePaths(l, p), HasHome(t))
              case None => Outcome(-1, t, ENOENT)
              case Some(c) =>
                if |Render(c)| >= SUN_PATH then Outcome(-1, t, ENOENT)
                else if c in t then Outcome(-1, t, EADDRINUSE)
                else Outcome(0, t[c := Socket], 0)
  {
    hide *;
    PathStarts(a, p);
    if Bind(cwd)(t, a) != Outcome(-1, t, ENOENT) {
      FirstBind(t, cwd, a, l.Text());
      return;
    }
    Retry(Bind(cwd), t, a, true, l.Text());
    var k := HomeText(l, t, p);
    var found := Find(CandidatePaths(l, p), HasHome(t));
    if found.Some? && |Render(found.value)| < SUN_PATH {
      AddressCarries(Render(found.value));
      BindByPath(t, cwd, found.value, AddressOf(Render(found.value)));
    }
  }

  lemma FirstBind(t: Tree, cwd: Path, a: SockAddr, roots: Roots)
    requires |a.sunPath| == SUN_PATH && Bind(cwd)(t, a) != Outcome(-1, t, ENOENT)
    ensures SockOutcome(Bind(cwd), t, a, true, roots) == Bind(cwd)(t, a)
  {
    BindAnswers(t, cwd, a);
    hide Bind;
  }

  lemma BindAnswers(t: Tree, cwd: Path, a: SockAddr)
    ensures var r := Bind(cwd)(t, a); r.value == 0 || (r.value == -1 && r.tree == t)
  {
    hide Entry, TrailingSlash;
  }

  lemma PathStarts(a: SockAddr, p: Path)
    requires LibraryReads(a, p)
    ensures |a.sunPath| == SUN_PATH && a.family == AF_UNIX && a.sunPath[0] == '/' && Classic(p) && NulFree(p)
    ensures a.CPath() == Render(p)
  {
    StartsWithPath(a, p);
  }

  lemma KernelReads(a: SockAddr, p: Path)
    requires Spells(a, p)
    ensures LibraryReads(a, p) && a.Accepted() && a.KernelPath() == Render(p) != "" && a.family == AF_UNIX
  {
  }

  /** A unix socket call that finds nothing, tried again. */
  lemma Retry(f: SockCall, t: Tree, a: SockAddr, create: bool, roots: Roots)
    requires f(t, a) == Outcome(-1, t, ENOENT)
    requires |a.sunPath| == SUN_PATH && a.family == AF_UNIX && a.sunPath[0] == '/'
    ensures SockOutcome(f, t, a, create, roots) ==
            match (if create then CreateTarget(t, a.CPath(), roots) else ExistingTarget(t, a.CPath(), roots))
            case None => Outcome(-1, t, ENOENT)
            case Some(c) => if |c| >= SUN_PATH then Outcome(-1, t, ENOENT) else f(t, AddressOf(c))
  {
  }

  lemma {:induction false} HomeText(l: Layout, t: Tree, p: Path) returns (k: nat)
    requires l.Valid() && NulFree(l.sysroot) && WellFormed(t) && Classic(p) && NulFree(p)
    ensures var found := Find(CandidatePaths(l, p), HasHome(t));
            && (found.None? ==> CreateTarget(t, Render(p), l.Text()) == None)
            && (found.Some? ==>
                  && CreateTarget(t, Render(p), l.Text()) == Some(Render(found.value))
                  && IsDir(t, Parent(found.value)) && Normalised(found.value) && found.value != []
                  && Free(Render(found.value), NUL)
                  && k < 4 && found.value == CandidatePaths(l, p)[k])
  {
    TargetsByPaths(l, t, p);
    CandidatesDiffer(l, p);
    k := First(CandidatePaths(l, p), HasHome(t));
    if k < 4 {
      CandidateIsNulFree(l, p, k);
    }
  }

  /** The trees agree on all paths shorter than `n`. */
  ghost predicate AgreeBelow(t: Tree, t': Tree, n: nat) {
    forall q: Path :: |q| < n ==> (q in t <==> q in t') && (q in t ==> t[q] == t'[q])
  }

  /** A walk that finds no entry before its last name finds none in a tree that agrees so far. */
  lemma {:induction false} MissingStays(t: Tree, t': Tree, cur: Path, q: Path, name: string)
    requires AgreeBelow(t, t', |cur| + |q| + 1)
    requires Namei(t, cur, Names(q)) == Missing(ENOENT)
    ensures Namei(t', cur, Names(q + [name])) == Missing(ENOENT)
    decreases |q|
  {
    if q != [] && cur in t && t[cur] == Dir {
      assert Names(q)[1..] == Names(q[1..]);
      assert Names(q + [name])[1..] == Names(q[1..] + [name]);
      MissingStays(t, t', cur + [q[0]], q[1..], name);
    }
  }

  lemma {:induction false} StillMissing(t: Tree, t': Tree, cwd: Path, p: Path)
    requires WellFormed(t) && Normalised(p) && p != [] && AgreeBelow(t, t', |p|)
    requires Entry(t, cwd, Render(p)) == Missing(ENOENT)
    ensures LookupText(t', cwd, Render(p)) == Missing(ENOENT)
  {
    StepsOfRender(p);
    EntryWalks(t, cwd, p);
    assert Parent(p) + [p[|p| - 1]] == p;
    MissingStays(t, t', [], Parent(p), p[|p| - 1]);
  }

  /** Rendezvous on the tree: after a redirected `bind` of a path succeeded, a `connect` to the same
      path reaches the socket it made. */
  lemma {:induction false} BoundIsReached(l: Layout, t: Tree, cwd: Path, a: SockAddr, p: Path)
    requires l.Valid() && NulFree(l.sysroot) && WellFormed(t) && Spells(a, p)
    requires Entry(t, cwd, Render(p)) == Missing(ENOENT)
    requires SockOutcome(Bind(cwd), t, a, true, l.Text()).value == 0
    ensures var t' := SockOutcome(Bind(cwd), t, a, true, l.Text()).tree;
            SockOutcome(Connect(cwd), t', a, false, l.Text()) == Outcome(0, t', 0)
  {
    hide *;
    KernelReads(a, p);
    PathStarts(a, p);
    MissedBind(t, cwd, a, p);
    var t' := SockOutcome(Bind(cwd), t, a, true, l.Text()).tree;
    BindExact(l, t, cwd, a, p);
    var k := HomeText(l, t, p);
    var c := CandidatePaths(l, p)[k];
    BindBinds(cwd);
    NothingShort(l, t, p, k);
    ClassicIsNormalised(p);
    StillMissing(t, t', cwd, p);
    MissedConnect(t', cwd, a);
    AddressCarries(Render(c));
    BindByPath(t, cwd, c, AddressOf(Render(c)));
    BoundSurvives(l, t, cwd, a, p, t');
    SocketAnswers(l, t, t', cwd, p, c);
  }

  lemma {:induction false} BoundSurvives(l: Layout, t: Tree, cwd: Path, a: SockAddr, p: Path, t': Tree)
    requires l.Valid() && NulFree(l.sysroot) && WellFormed(t) && WellFormed(t') && LibraryReads(a, p)
    requires Binds(Bind(cwd)) && Bind(cwd)(t, a) == Outcome(-1, t, ENOENT)
    requires |a.sunPath| == SUN_PATH
    requires SockOutcome(Bind(cwd), t, a, true, l.Text()).value == 0
    requires t' == SockOutcome(Bind(cwd), t, a, true, l.Text()).tree
    requires Connect(cwd)(t', a) == Outcome(-1, t', ENOENT)
    ensures CreateTarget(t, Render(p), l.Text()).Some?
    ensures var c := CreateTarget(t, Render(p), l.Text()).value;
            |c| < SUN_PATH && SockOutcome(Connect(cwd), t', a, false, l.Text()) == Connect(cwd)(t', AddressOf(c))
  {
    hide Bind, Connect, SockOutcome, Binds, WellFormed, NulFree;
    BindThenConnect(l, Bind(cwd), Connect(cwd), t, a, p, t');
  }

  lemma MissedBind(t: Tree, cwd: Path, a: SockAddr, p: Path)
    requires a.family == AF_UNIX && a.Accepted() && a.KernelPath() == Render(p) != ""
    requires Entry(t, cwd, Render(p)) == Missing(ENOENT)
    ensures Bind(cwd)(t, a) == Outcome(-1, t, ENOENT)
  {
  }

  lemma MissedConnect(t: Tree, cwd: Path, a: SockAddr)
    requires a.family == AF_UNIX && a.Accepted() && a.KernelPath() != ""
    requires LookupText(t, cwd, a.KernelPath()) == Missing(ENOENT)
    ensures Connect(cwd)(t, a) == Outcome(-1, t, ENOENT)
  {
  }

  lemma {:induction false} NothingShort(l: Layout, t: Tree, p: Path, k: nat)
    requires k < 4
    ensures AgreeBelow(t, t[CandidatePaths(l, p)[k] := Socket], |p|)
  {
    CandidatesAreLong(l, p, k);
  }

  lemma {:induction false} SocketAnswers(l: Layout, t: Tree, t': Tree, cwd: Path, p: Path, c: Path)
    requires WellFormed(t') && Normalised(c) && t' == t[c := Socket] && |Render(c)| < SUN_PATH
    requires AddressOf(Render(c)).KernelPath() == Render(c)
    requires AddressOf(Render(c)).Accepted() && AddressOf(Render(c)).family == AF_UNIX
    ensures Connect(cwd)(t', AddressOf(Render(c))) == Outcome(0, t', 0)
  {
    LookupOfRender(t', cwd, c);
  }
}
