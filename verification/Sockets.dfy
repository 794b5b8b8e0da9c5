/** Unix socket addresses retried at the remapped path (src/preload.rs). */
module Sockets {
  import opened Text
  import opened Paths
  import opened FileTree
  import opened Remap
  import opened Fallback
  import opened Creation

  const AF_UNIX := 1
  const SUN_PATH: nat := 108
  const FAMILY_SIZE: nat := 2

  /** `sockaddr_un` with the length passed beside it, and the memory behind it: a path may fill
      `sun_path` without a NUL. */
  datatype SockAddr = SockAddr(family: int, sunPath: string, len: nat, behind: string) {
    /** The path as a C string: the library reads on to the first NUL. */
    function CPath(): string {
      UpToNul(sunPath + behind)
    }

    /** The bytes of `sun_path` the caller passes: the length beside the address ends them. */
    function Passed(): string {
      sunPath[..Min(if len < FAMILY_SIZE then 0 else len - FAMILY_SIZE, |sunPath|)]
    }

    /** The path as the kernel takes it (unix(7)): up to a NUL, or all that is passed. */
    function KernelPath(): string {
      UpToNul(Passed())
    }

    /** A length the kernel does not refuse. */
    predicate Accepted() {
      FAMILY_SIZE < len <= FAMILY_SIZE + SUN_PATH
    }

    /** What the C declaration guarantees; a path is read up to some NUL. */
    ghost predicate Valid() {
      |sunPath| == SUN_PATH && (sunPath[0] == '/' ==> !Free(sunPath + behind, NUL))
    }
  }

  type SockCall = (Tree, SockAddr) -> Outcome<int>

  function AddressOf(path: string): SockAddr
    requires |path| < SUN_PATH
  {
    SockAddr(AF_UNIX, path + Zeros(SUN_PATH - |path|), FAMILY_SIZE + |path| + 1, "")
  }

  function Target(t: Tree, path: string, create: bool, roots: Roots): Option<string> {
    if create then CreateTarget(t, path, roots) else ExistingTarget(t, path, roots)
  }

  function SockOutcome(f: SockCall, t: Tree, addr: SockAddr, create: bool, roots: Roots): Outcome<int>
    requires |addr.sunPath| == SUN_PATH
  {
    var r := f(t, addr);
    if r.value == 0 || r.errno != ENOENT || addr.family != AF_UNIX || addr.sunPath[0] != '/' then r
    else
      match Target(r.tree, addr.CPath(), create, roots)
      case None => r
      case Some(c) => if |c| + 1 > SUN_PATH then r else f(r.tree, AddressOf(c))
  }

  /** One socket call; if a unix path was missing, one more with the address of its candidate. */
  method UnixSock(os: Os, addr: SockAddr, create: bool, f: SockCall) returns (r: int)
    requires addr.Valid()
    modifies os
    ensures Outcome(r, os.tree, os.errno) == SockOutcome(f, old(os.tree), addr, create, os.roots)
    ensures var o := f(old(os.tree), addr);
            o.value == 0 || o.errno != ENOENT || addr.family != AF_UNIX || addr.sunPath[0] != '/' ==>
              Outcome(r, os.tree, os.errno) == o
  {
    var reply := f(os.tree, addr);
    os.tree, os.errno, r := reply.tree, reply.errno, reply.value;
    if r == 0 || os.errno != ENOENT || addr.family != AF_UNIX || addr.sunPath[0] != '/' {
      return;
    }
    var first := os.errno;
    var found: Option<string>;
    if create {
      found := FindCreatable(os, addr.CPath());
    } else {
      found := os.FindExisting(addr.CPath());
    }
    if found.None? {
      os.errno := first;
      return;
    }
    if |found.value| + 1 > SUN_PATH {
      os.errno := first;
      return;
    }
    var moved := FillAddress(found.value);
    reply := f(os.tree, moved);
    os.tree, os.errno, r := reply.tree, reply.errno, reply.value;
  }

  /** A zeroed address with `path` and its NUL copied in. */
  method FillAddress(path: string) returns (a: SockAddr)
    requires |path| < SUN_PATH
    ensures a == AddressOf(path)
  {
    var bytes := path + [NUL];
    var sunPath := new char[SUN_PATH](_ => NUL);
    for i := 0 to |bytes|
      invariant forall j :: 0 <= j < i ==> sunPath[j] == bytes[j]
      invariant forall j :: i <= j < SUN_PATH ==> sunPath[j] == NUL
    {
      sunPath[i] := bytes[i];
    }
    assert sunPath[..] == path + Zeros(SUN_PATH - |path|);
    a := SockAddr(AF_UNIX, sunPath[..], FAMILY_SIZE + |bytes|, "");
  }

  /** `bind`: only success changes the tree, and then the socket is the one new node. */
  ghost predicate Binds(f: SockCall) {
    forall t, a {:trigger f(t, a)} :: WellFormed(t) ==> BindsAt(f(t, a), t, a)
  }

  ghost predicate BindsAt(r: Outcome<int>, t: Tree, a: SockAddr) {
    && (r.value != 0 ==> r.tree == t)
    && (r.value == 0 ==> forall p :: Normalised(p) && Render(p) == a.KernelPath() ==> Placed(t, r.tree, p))
  }

  ghost predicate NulFree(p: Path) {
    forall i :: 0 <= i < |p| ==> Free(p[i], NUL)
  }

  lemma NulFreeConcat(a: Path, b: Path)
    requires NulFree(a) && NulFree(b)
    ensures NulFree(a + b)
  {
  }

  lemma MovedIsNulFree(p: Path, from: Path, to: Path)
    requires NulFree(p) && NulFree(to)
    ensures MovedNames(p, from, to).Some? ==> NulFree(MovedNames(p, from, to).value)
  {
  }

  lemma {:induction false} StrippedIsNulFree(p: Path)
    requires NulFree(p)
    ensures NulFree(StripNames(p))
  {
    var q := DropUsrNames(p);
    MovedIsNulFree(q, ["lib64"], ["lib"]);
    var r := FoldLib64Names(q);
    assert NulFree(r);
    MovedIsNulFree(r, ["lib", "modules"], ["drivers", "modules"]);
    MovedIsNulFree(r, ["lib", "firmware"], ["drivers", "hardware", "firmwares"]);
    MovedIsNulFree(r, ["boot"], ["kernel"]);
  }

  /** An address built from a remapped path carries exactly that path, with its NUL. */
  lemma {:induction false} AddressCarries(path: string)
    requires |path| < SUN_PATH && Free(path, NUL)
    ensures AddressOf(path).CPath() == path && AddressOf(path).KernelPath() == path
    ensures |AddressOf(path).sunPath| == SUN_PATH == 108 && AddressOf(path).sunPath[|path|] == NUL
    ensures AddressOf(path).Accepted() && AddressOf(path).family == AF_UNIX
    ensures AddressOf(path).len == 2 + |path| + 1 <= 110
  {
    var s := AddressOf(path).sunPath;
    assert s[|path|] == NUL;
    assert forall j :: 0 <= j < |path| ==> s[j] == path[j];
    assert IndexOf(s, NUL) == |path|;
    assert s + "" == s;
    assert AddressOf(path).Passed() == path + [NUL];
    UpToNulOf(path, "");
    assert path + [NUL] + "" == path + [NUL];
  }

  /** The library does not look at the length: it and the kernel take the same path exactly when the
      first NUL it finds is not behind what the length covers. */
  lemma {:induction false} SamePathIff(a: SockAddr)
    requires |a.sunPath| == SUN_PATH && a.Accepted() && !Free(a.sunPath + a.behind, NUL)
    ensures a.KernelPath() == a.CPath() <==> IndexOf(a.sunPath + a.behind, NUL) <= a.len - FAMILY_SIZE
  {
    var all, n := a.sunPath + a.behind, a.len - FAMILY_SIZE;
    var i := IndexOf(all, NUL);
    assert a.Passed() == all[..n];
    if i < n {
      assert all[..n] == all[..i] + [NUL] + all[i + 1..n];
      UpToNulOf(all[..i], all[i + 1..n]);
    } else {
      UpToNulOf(all[..n], "");
    }
  }

  lemma {:induction false} RootIsNulFree(l: Layout, k: nat)
    requires k < 4 && NulFree(l.sysroot)
    ensures NulFree(l.ProbeOrder()[k])
  {
    NulFreeConcat(l.sysroot, ["overlayer"]);
    NulFreeConcat(l.Overlayer(), ["syshub"]);
    NulFreeConcat(l.Overlayer(), ["syshub", "x86_64-zainium-linux-musl"]);
    NulFreeConcat(l.Overlayer(), ["zexlib", "union"]);
    NulFreeConcat(l.Overlayer(), ["zaisys"]);
  }

  lemma {:induction false} CandidateIsNulFree(l: Layout, p: Path, k: nat)
    requires k < 4 && NulFree(l.sysroot) && NulFree(p)
    ensures Free(Render(CandidatePaths(l, p)[k]), NUL)
  {
    StrippedIsNulFree(p);
    RootIsNulFree(l, k);
    NulFreeConcat(l.ProbeOrder()[k], StripNames(p));
    JoinFree(CandidatePaths(l, p)[k], '/', NUL);
  }

  lemma StartsWithPath(a: SockAddr, p: Path)
    requires |a.sunPath| == SUN_PATH && a.CPath() == Render(p)
    ensures a.sunPath[0] == '/'
  {
    assert a.CPath()[0] == (a.sunPath + a.behind)[0];
  }

  /** What a redirected `bind` did: one call, at the first candidate with a home. */
  lemma {:induction false} BoundAt(l: Layout, bind: SockCall, t: Tree, a: SockAddr, p: Path) returns (k: nat)
    requires l.Valid() && NulFree(l.sysroot) && WellFormed(t) && Binds(bind)
    requires a.Valid() && a.family == AF_UNIX && Classic(p) && NulFree(p) && a.CPath() == Render(p)
    requires bind(t, a).value != 0 && bind(t, a).errno == ENOENT
    requires SockOutcome(bind, t, a, true, l.Text()).value == 0
    ensures k < 4 && CreateTarget(t, Render(p), l.Text()) == Some(Render(CandidatePaths(l, p)[k]))
    ensures |Render(CandidatePaths(l, p)[k])| < SUN_PATH
    ensures var c := Render(CandidatePaths(l, p)[k]);
            && AddressOf(c).CPath() == c
            && SockOutcome(bind, t, a, true, l.Text()) == bind(t, AddressOf(c))
    ensures var t' := SockOutcome(bind, t, a, true, l.Text()).tree;
            && CandidatePaths(l, p)[k] in t'
            && forall j :: 0 <= j < k ==> CandidatePaths(l, p)[j] !in t'
  {
    assert BindsAt(bind(t, a), t, a);
    StartsWithPath(a, p);
    k := ChosenHome(l, t, p);
    var c := Render(CandidatePaths(l, p)[k]);
    CandidateIsNulFree(l, p, k);
    assert SockOutcome(bind, t, a, true, l.Text()) == bind(t, AddressOf(c));
    AddressCarries(c);
    assert BindsAt(bind(t, AddressOf(c)), t, AddressOf(c));
    EarlierAreOld(l, t, bind(t, AddressOf(c)).tree, p, k);
  }

  /** Rendezvous: where a redirected `bind` put the socket is where a redirected `connect` to the
      same path goes, as long as the candidates stand as `bind` left them. */
  lemma {:induction false} BindThenConnect(
      l: Layout, bind: SockCall, connect: SockCall, t: Tree, a: SockAddr, p: Path, later: Tree)
    requires l.Valid() && NulFree(l.sysroot) && WellFormed(t) && Binds(bind)
    requires a.Valid() && a.family == AF_UNIX && Classic(p) && NulFree(p) && a.CPath() == Render(p)
    requires bind(t, a).value != 0 && bind(t, a).errno == ENOENT
    requires SockOutcome(bind, t, a, true, l.Text()).value == 0
    requires WellFormed(later)
    requires forall i :: 0 <= i < 4 ==>
               (CandidatePaths(l, p)[i] in later <==>
                CandidatePaths(l, p)[i] in SockOutcome(bind, t, a, true, l.Text()).tree)
    requires connect(later, a).value != 0 && connect(later, a).errno == ENOENT && connect(later, a).tree == later
    ensures CreateTarget(t, Render(p), l.Text()).Some?
    ensures var c := CreateTarget(t, Render(p), l.Text()).value;
            && |c| < SUN_PATH && AddressOf(c).CPath() == c
            && SockOutcome(bind, t, a, true, l.Text()) == bind(t, AddressOf(c))
            && SockOutcome(connect, later, a, false, l.Text()) == connect(later, AddressOf(c))
  {
    var k := BoundAt(l, bind, t, a, p);
    FoundIff(l, later, p, k);
    StartsWithPath(a, p);
  }
}
