/** Entries carved out of a caller's buffer (src/nss.rs). Addresses are numbers; byte `k` of the
    buffer is at `base + k`. */
module NssFill {
  import opened Text
  import opened CStrings
  import opened Nss

  const POINTER_SIZE: nat := 8
  const ADDRESSES: nat := 0x1_0000_0000_0000_0000

  /** `struct passwd`. */
  class CPasswd {
    var name: nat
    var passwd: nat
    var uid: nat
    var gid: nat
    var gecos: nat
    var dir: nat
    var shell: nat

    constructor ()
    {
      name, passwd, uid, gid, gecos, dir, shell := 0, 0, 0, 0, 0, 0, 0;
    }

    /** The struct describes `entry` to a reader of the memory at `base`. */
    ghost predicate Describes(entry: PwEntry, mem: string, base: nat)
      reads this
    {
      PasswdReads(entry, mem, base, name, passwd, gecos, dir, shell) && uid == entry.uid && gid == entry.gid
    }

    /** Its pointers are the starts of the strings' regions, which lie apart inside the memory. */
    ghost predicate LaidOut(entry: PwEntry, mem: string, base: nat)
      reads this
    {
      PasswdLies(entry, mem, base, name, passwd, gecos, dir, shell)
    }
  }

  /** `struct group`. */
  class CGroup {
    var name: nat
    var passwd: nat
    var gid: nat
    var mem: nat

    constructor ()
    {
      name, passwd, gid, mem := 0, 0, 0, 0;
    }

    ghost predicate Describes(entry: GrEntry, memory: string, base: nat)
      reads this
    {
      GroupReads(entry, memory, base, name, passwd, gid, mem)
    }

    /** Its pointers, and those of its array, are the starts of regions that lie apart inside the
        memory: one for each string, the last for the array. */
    ghost predicate LaidOut(entry: GrEntry, memory: string, base: nat)
      reads this
    {
      GroupLies(entry, memory, base, name, passwd, mem)
    }
  }

  /** What a pointer into a memory at `base` denotes. */
  function StringAt(mem: string, base: nat, p: nat): Option<string> {
    if base <= p <= base + |mem| then Some(ReadAt(mem, p - base)) else None
  }

  /** Regions follow each other without overlap between `from` and `to`. */
  ghost predicate Apart(regions: seq<(nat, nat)>, from: nat, to: nat) {
    && (forall i :: 0 <= i < |regions| ==> from <= regions[i].0 <= regions[i].1 <= to)
    && forall i, j :: 0 <= i < j < |regions| ==> regions[i].1 <= regions[j].0
  }

  /** Where each string lies, its NUL included. */
  function StringRegions(strs: seq<string>, base: nat): (regions: seq<(nat, nat)>)
    ensures |regions| == |strs|
  {
    seq(|strs|, i requires 0 <= i < |strs| => (base + Offset(strs, i), base + Offset(strs, i) + |strs[i]| + 1))
  }

  // Pointers in memory.

  function PointerBytes(p: nat, n: nat): (b: string)
    ensures |b| == n
    decreases n
  {
    if n == 0 then "" else [(p % 256) as char] + PointerBytes(p / 256, n - 1)
  }

  lemma {:induction false} PointerReadsBack(p: nat, n: nat)
    requires p < Power256(n)
    ensures LittleEndian(PointerBytes(p, n)) == p
    decreases n
  {
    if n > 0 {
      PointerReadsBack(p / 256, n - 1);
      var b := PointerBytes(p, n);
      assert b[1..] == PointerBytes(p / 256, n - 1);
    }
  }

  lemma AddressFits(p: nat)
    requires p < ADDRESSES
    ensures LittleEndian(PointerBytes(p, POINTER_SIZE)) == p
  {
    assert Power256(2) == 0x1_0000;
    assert Power256(4) == 0x1_0000_0000;
    assert Power256(6) == 0x1_0000_0000_0000;
    assert Power256(8) == ADDRESSES;
    PointerReadsBack(p, POINTER_SIZE);
  }

  function PointerArray(ps: seq<nat>): (b: string)
    ensures |b| == POINTER_SIZE * |ps|
  {
    if ps == [] then "" else PointerArray(ps[..|ps| - 1]) + PointerBytes(ps[|ps| - 1], POINTER_SIZE)
  }

  /** The pointer stored at `off`. */
  function PointerAt(mem: string, off: nat): nat
    requires off + POINTER_SIZE <= |mem|
  {
    LittleEndian(mem[off..off + POINTER_SIZE])
  }

  lemma ArrayGrows(ps: seq<nat>, i: nat)
    requires i < |ps|
    ensures PointerArray(ps[..i + 1]) == PointerArray(ps[..i]) + PointerBytes(ps[i], POINTER_SIZE)
  {
    assert ps[..i + 1][..i] == ps[..i];
  }

  lemma PointerInFront(a: string, b: string, off: nat)
    requires off + POINTER_SIZE <= |a|
    ensures PointerAt(a + b, off) == PointerAt(a, off)
  {
    assert (a + b)[off..off + POINTER_SIZE] == a[off..off + POINTER_SIZE];
  }

  lemma PointerBehind(a: string, b: string, off: nat)
    requires off + POINTER_SIZE <= |b|
    ensures PointerAt(a + b, |a| + off) == PointerAt(b, off)
  {
    assert (a + b)[|a| + off..|a| + off + POINTER_SIZE] == b[off..off + POINTER_SIZE];
  }

  lemma {:induction false} ArrayReadsBack(ps: seq<nat>, i: nat)
    requires i < |ps| && ps[i] < ADDRESSES
    ensures PointerAt(PointerArray(ps), POINTER_SIZE * i) == ps[i]
    decreases |ps|
  {
    hide LittleEndian, PointerBytes;
    var last := |ps| - 1;
    var a, b := PointerArray(ps[..last]), PointerBytes(ps[last], POINTER_SIZE);
    if i == last {
      AddressFits(ps[i]);
      PointerBehind(a, b, 0);
      assert b[0..POINTER_SIZE] == b;
    } else {
      ArrayReadsBack(ps[..last], i);
      PointerInFront(a, b, POINTER_SIZE * i);
    }
  }

  // The two layouts.

  function AllToC(strs: seq<string>): (cs: seq<string>)
    ensures |cs| == |strs|
    ensures AllFree(cs)
    ensures forall i :: 0 <= i < |strs| ==> cs[i] == ToC(strs[i])
  {
    seq(|strs|, i requires 0 <= i < |strs| => ToC(strs[i]))
  }

  function PwStrings(e: PwEntry): seq<string> {
    AllToC([e.name, e.passwd, e.gecos, e.dir, e.shell])
  }

  function GrStrings(e: GrEntry): seq<string> {
    AllToC([e.name, e.passwd] + e.members)
  }

  function Padding(address: nat): nat {
    (POINTER_SIZE - address % POINTER_SIZE) % POINTER_SIZE
  }

  /** Where the pointer array starts: the first aligned address behind the strings. */
  function ArrayOffset(e: GrEntry, base: nat): nat {
    |Blob(GrStrings(e))| + Padding(base + |Blob(GrStrings(e))|)
  }

  function GrNeeded(e: GrEntry, base: nat): nat {
    ArrayOffset(e, base) + POINTER_SIZE * (|e.members| + 1)
  }

  /** What a passwd entry asks for: its five strings, each with a NUL. */
  lemma {:induction false} PasswdNeeds(e: PwEntry)
    ensures |Blob(PwStrings(e))| ==
            |ToC(e.name)| + |ToC(e.passwd)| + |ToC(e.gecos)| + |ToC(e.dir)| + |ToC(e.shell)| + 5
  {
    EmptyBlob();
    hide Blob, ToC;
    BlobOfAppended([ToC(e.name), ToC(e.passwd), ToC(e.gecos), ToC(e.dir)], ToC(e.shell));
    BlobOfAppended([ToC(e.name), ToC(e.passwd), ToC(e.gecos)], ToC(e.dir));
    BlobOfAppended([ToC(e.name), ToC(e.passwd)], ToC(e.gecos));
    BlobOfAppended([ToC(e.name)], ToC(e.passwd));
    BlobOfAppended([], ToC(e.name));
    assert PwStrings(e) == [ToC(e.name), ToC(e.passwd), ToC(e.gecos), ToC(e.dir)] + [ToC(e.shell)];
    assert [ToC(e.name), ToC(e.passwd), ToC(e.gecos)] + [ToC(e.dir)]
        == [ToC(e.name), ToC(e.passwd), ToC(e.gecos), ToC(e.dir)];
    assert [ToC(e.name), ToC(e.passwd)] + [ToC(e.gecos)] == [ToC(e.name), ToC(e.passwd), ToC(e.gecos)];
    assert [ToC(e.name)] + [ToC(e.passwd)] == [ToC(e.name), ToC(e.passwd)] && [] + [ToC(e.name)] == [ToC(e.name)];
  }

  lemma {:induction false} BlobOfAppended(strs: seq<string>, s: string)
    ensures |Blob(strs + [s])| == |Blob(strs)| + |s| + 1
  {
    hide Blob;
    BlobGrows(strs + [s], |strs|);
    assert (strs + [s])[..|strs| + 1] == strs + [s] && (strs + [s])[..|strs|] == strs;
  }

  lemma EmptyBlob()
    ensures Blob([]) == ""
  {
  }

  /** What a group asks for: the strings, an array of eight-byte pointers with a null one, and no more
      between them than alignment needs: every aligned array behind the strings ends as far or farther. */
  lemma {:induction false} GroupNeedsLeast(e: GrEntry, base: nat, array_: nat)
    requires array_ % 8 == 0 && base + |Blob(GrStrings(e))| <= array_
    ensures base + GrNeeded(e, base) <= array_ + 8 * (|e.members| + 1)
    ensures (base + GrNeeded(e, base)) % 8 == 0
    ensures GrNeeded(e, base) >= |Blob(GrStrings(e))| + 8 * (|e.members| + 1)
  {
    hide Blob, GrStrings;
    NextAligned(base + |Blob(GrStrings(e))|, array_);
  }

  lemma NextAligned(behind: nat, array_: nat)
    requires array_ % 8 == 0 && behind <= array_
    ensures behind + Padding(behind) <= array_ && (behind + Padding(behind)) % 8 == 0
  {
    var q, r := behind / 8, behind % 8;
    assert behind == 8 * q + r && array_ == 8 * (array_ / 8);
    assert behind + Padding(behind) == if r == 0 then 8 * q else 8 * (q + 1);
  }

  /** Copies the strings one behind the other and says where each went. */
  method CopyStrings(strs: seq<string>, buf: array<char>, base: nat) returns (ptrs: seq<nat>)
    requires |Blob(strs)| <= buf.Length
    modifies buf
    ensures buf[..|Blob(strs)|] == Blob(strs)
    ensures buf[|Blob(strs)|..] == old(buf[|Blob(strs)|..])
    ensures |ptrs| == |strs| && forall i :: 0 <= i < |strs| ==> ptrs[i] == base + Offset(strs, i)
  {
    EmptyBlob();
    hide Blob, Offset;
    ptrs := [];
    var off := 0;
    assert strs[..|strs|] == strs && strs[..0] == [];
    for i := 0 to |strs|
      invariant off == |Blob(strs[..i])| <= |Blob(strs)| && |ptrs| == i
      invariant buf[..off] == Blob(strs[..i]) && buf[off..] == old(buf[off..])
      invariant forall j :: 0 <= j < i ==> ptrs[j] == base + Offset(strs, j)
    {
      BlobGrows(strs, i);
      OffsetIsLength(strs, i);
      BlobPrefix(strs, i + 1);
      var bytes := strs[i] + [NUL];
      label before:
      CopyAt(bytes, buf, off);
      ptrs := ptrs + [base + off];
      assert buf[..off + |bytes|] == buf[..off] + buf[off..off + |bytes|];
      assert old(buf[off + |bytes|..]) == old(buf[off..])[|bytes|..];
      off := off + |bytes|;
    }
  }

  lemma {:induction false} BlobPrefix(strs: seq<string>, i: nat)
    requires i <= |strs|
    ensures |Blob(strs[..i])| <= |Blob(strs)|
    decreases i
  {
    if i > 0 {
      BlobPrefix(strs[1..], i - 1);
      assert strs[..i][1..] == strs[1..][..i - 1];
    }
  }

  /** Stores the pointers and the NULL behind them. */
  method StorePointers(ptrs: seq<nat>, buf: array<char>, at: nat)
    requires at + POINTER_SIZE * (|ptrs| + 1) <= buf.Length
    modifies buf
    ensures buf[..at] == old(buf[..at])
    ensures buf[at..at + POINTER_SIZE * (|ptrs| + 1)] == PointerArray(ptrs + [0])
    ensures buf[at + POINTER_SIZE * (|ptrs| + 1)..] == old(buf[at + POINTER_SIZE * (|ptrs| + 1)..])
  {
    hide PointerArray, PointerBytes;
    ghost var all := ptrs + [0];
    NoPointers(all);
    for i := 0 to |ptrs|
      invariant buf[..at] == old(buf[..at])
      invariant buf[at..at + POINTER_SIZE * i] == PointerArray(all[..i])
      invariant buf[at + POINTER_SIZE * i..] == old(buf[at + POINTER_SIZE * i..])
    {
      ArrayGrows(all, i);
      StoreOne(ptrs[i], buf, at, POINTER_SIZE * i);
      assert old(buf[at + POINTER_SIZE * i..])[POINTER_SIZE..] == old(buf[at + POINTER_SIZE * (i + 1)..]);
    }
    ArrayGrows(all, |ptrs|);
    StoreOne(0, buf, at, POINTER_SIZE * |ptrs|);
    assert old(buf[at + POINTER_SIZE * |ptrs|..])[POINTER_SIZE..] == old(buf[at + POINTER_SIZE * (|ptrs| + 1)..]);
    assert all[..|ptrs| + 1] == all;
  }

  lemma NoPointers(ps: seq<nat>)
    ensures PointerArray(ps[..0]) == ""
  {
  }

  /** One pointer behind the `done` bytes already stored at `at`. */
  method StoreOne(p: nat, buf: array<char>, at: nat, done: nat)
    requires at + done + POINTER_SIZE <= buf.Length
    modifies buf
    ensures buf[..at] == old(buf[..at])
    ensures buf[at..at + done + POINTER_SIZE] == old(buf[at..at + done]) + PointerBytes(p, POINTER_SIZE)
    ensures buf[at + done + POINTER_SIZE..] == old(buf[at + done..])[POINTER_SIZE..]
  {
    hide PointerBytes;
    var off := at + done;
    CopyAt(PointerBytes(p, POINTER_SIZE), buf, off);
    assert buf[..at] == buf[..off][..at] && old(buf[..at]) == old(buf[..off])[..at];
    assert buf[at..off] == buf[..off][at..] && old(buf[at..off]) == old(buf[..off])[at..];
    assert buf[at..off + POINTER_SIZE] == buf[at..off] + buf[off..off + POINTER_SIZE];
    assert old(buf[off..])[POINTER_SIZE..] == old(buf[off + POINTER_SIZE..]);
  }

  /** A string copied at the front of a memory is what its pointer denotes. */
  lemma {:induction false} StringInPlace(strs: seq<string>, mem: string, base: nat, i: nat)
    requires AllFree(strs) && |Blob(strs)| <= |mem| && mem[..|Blob(strs)|] == Blob(strs) && i < |strs|
    ensures StringAt(mem, base, base + Offset(strs, i)) == Some(strs[i])
    ensures Offset(strs, i) + |strs[i]| + 1 <= |Blob(strs)|
  {
    var rest := mem[|Blob(strs)|..];
    assert mem == Blob(strs) + rest;
    hide Blob, ReadAt, Offset;
    ReadBlob(strs, i, rest);
  }

  lemma {:induction false} StringsInPlace(strs: seq<string>, mem: string, base: nat)
    requires AllFree(strs) && |Blob(strs)| <= |mem| && mem[..|Blob(strs)|] == Blob(strs)
    ensures forall i :: 0 <= i < |strs| ==> StringAt(mem, base, base + Offset(strs, i)) == Some(strs[i])
    ensures forall i :: 0 <= i < |strs| ==> Offset(strs, i) + |strs[i]| + 1 <= |Blob(strs)|
  {
    hide *;
    forall i | 0 <= i < |strs|
      ensures StringAt(mem, base, base + Offset(strs, i)) == Some(strs[i])
      ensures Offset(strs, i) + |strs[i]| + 1 <= |Blob(strs)|
    {
      StringInPlace(strs, mem, base, i);
    }
  }

  lemma {:induction false} OffsetsGrow(strs: seq<string>, i: nat, j: nat)
    requires i < j <= |strs|
    ensures Offset(strs, i) + |strs[i]| + 1 <= Offset(strs, j)
    decreases j
  {
    hide Offset;
    OffsetsFollow(strs, j - 1);
    if i < j - 1 {
      OffsetsGrow(strs, i, j - 1);
    }
  }

  /** The strings of a blob lie apart inside it. */
  lemma {:induction false} StringsApart(strs: seq<string>, base: nat)
    ensures Apart(StringRegions(strs, base), base, base + |Blob(strs)|)
  {
    hide Offset, Blob;
    OffsetIsLength(strs, |strs|);
    assert strs[..|strs|] == strs;
    forall i | 0 <= i < |strs| ensures Offset(strs, i) + |strs[i]| + 1 <= |Blob(strs)| {
      OffsetsGrow(strs, i, |strs|);
    }
    forall i, j | 0 <= i < j < |strs| ensures Offset(strs, i) + |strs[i]| + 1 <= Offset(strs, j) {
      OffsetsGrow(strs, i, j);
    }
  }

  ghost predicate PasswdReads(entry: PwEntry, mem: string, base: nat,
                              name: nat, passwd: nat, gecos: nat, dir: nat, shell: nat) {
    && StringAt(mem, base, name) == Some(ToC(entry.name))
    && StringAt(mem, base, passwd) == Some(ToC(entry.passwd))
    && StringAt(mem, base, gecos) == Some(ToC(entry.gecos))
    && StringAt(mem, base, dir) == Some(ToC(entry.dir))
    && StringAt(mem, base, shell) == Some(ToC(entry.shell))
  }

  ghost predicate PasswdLies(entry: PwEntry, mem: string, base: nat,
                             name: nat, passwd: nat, gecos: nat, dir: nat, shell: nat) {
    var regions := StringRegions(PwStrings(entry), base);
    && name == regions[0].0 && passwd == regions[1].0 && gecos == regions[2].0
    && dir == regions[3].0 && shell == regions[4].0
    && Apart(regions, base, base + |mem|)
  }

  lemma {:induction false} PasswdInPlace(entry: PwEntry, mem: string, base: nat, ptrs: seq<nat>)
    requires var strs := PwStrings(entry);
             && |Blob(strs)| <= |mem| && mem[..|Blob(strs)|] == Blob(strs)
             && |ptrs| == 5 && forall i :: 0 <= i < 5 ==> ptrs[i] == base + Offset(strs, i)
    ensures PasswdReads(entry, mem, base, ptrs[0], ptrs[1], ptrs[2], ptrs[3], ptrs[4])
    ensures PasswdLies(entry, mem, base, ptrs[0], ptrs[1], ptrs[2], ptrs[3], ptrs[4])
  {
    hide Blob, Offset, StringAt, Apart;
    var strs := PwStrings(entry);
    StringsInPlace(strs, mem, base);
    StringsApart(strs, base);
    ApartWithin(StringRegions(strs, base), base, base + |Blob(strs)|, base + |mem|);
  }

  /** Write `entry` into `*pwd`, its strings carved out of `buf`; false is ERANGE. */
  method FillPasswd(entry: PwEntry, pwd: CPasswd, buf: array<char>, base: nat, buflen: nat) returns (ok: bool)
    requires buflen <= buf.Length
    modifies pwd, buf
    ensures ok <==> |Blob(PwStrings(entry))| <= buflen
    ensures !ok ==> unchanged(pwd) && buf[..] == old(buf[..])
    ensures ok ==> pwd.Describes(entry, buf[..buflen], base)
    ensures ok ==> pwd.LaidOut(entry, buf[..buflen], base)
    ensures ok ==> buf[buflen..] == old(buf[buflen..])
  {
    hide Blob, Offset, PasswdReads, PasswdLies;
    var strs := PwStrings(entry);
    var needed := |Blob(strs)|;
    if needed > buflen {
      return false;
    }
    var ptrs := CopyStrings(strs, buf, base);
    pwd.name, pwd.passwd, pwd.uid, pwd.gid := ptrs[0], ptrs[1], entry.uid, entry.gid;
    pwd.gecos, pwd.dir, pwd.shell := ptrs[2], ptrs[3], ptrs[4];
    assert buf[buflen..] == buf[needed..][buflen - needed..];
    assert old(buf[buflen..]) == old(buf[needed..])[buflen - needed..];
    assert buf[..buflen][..needed] == buf[..needed];
    PasswdInPlace(entry, buf[..buflen], base, ptrs);
    return true;
  }

  /** What a filled group means to its reader: name, password, number, and as many members as the
      entry has, behind pointers that are not null, before a null one. */
  ghost predicate GroupReads(entry: GrEntry, mem: string, base: nat, name: nat, passwd: nat, gid: nat, array_: nat) {
    && StringAt(mem, base, name) == Some(ToC(entry.name))
    && StringAt(mem, base, passwd) == Some(ToC(entry.passwd))
    && gid == entry.gid
    && base <= array_ && array_ % 8 == 0
    && array_ - base + 8 * (|entry.members| + 1) <= |mem|
    && (forall i :: 0 <= i < |entry.members| ==> MemberReads(entry.members[i], mem, base, array_ - base + 8 * i))
    && PointerAt(mem, array_ - base + 8 * |entry.members|) == 0
  }

  ghost predicate MemberReads(member: string, mem: string, base: nat, off: nat) {
    off + 8 <= |mem| && PointerAt(mem, off) != 0 && StringAt(mem, base, PointerAt(mem, off)) == Some(ToC(member))
  }

  /** The regions of a filled group: its strings, then the pointer array. */
  function GroupRegions(entry: GrEntry, base: nat): (regions: seq<(nat, nat)>)
    ensures |regions| == |entry.members| + 3
  {
    StringRegions(GrStrings(entry), base) + [(base + ArrayOffset(entry, base), base + GrNeeded(entry, base))]
  }

  ghost predicate GroupLies(entry: GrEntry, mem: string, base: nat, name: nat, passwd: nat, array_: nat) {
    var regions := GroupRegions(entry, base);
    && name == regions[0].0 && passwd == regions[1].0 && array_ == regions[|entry.members| + 2].0
    && Apart(regions, base, base + |mem|)
    && forall i :: 0 <= i < |entry.members| ==>
                     PointerAt(mem, array_ - base + POINTER_SIZE * i) == regions[i + 2].0
  }

  lemma ApartWithin(regions: seq<(nat, nat)>, from: nat, to: nat, end: nat)
    requires Apart(regions, from, to) && to <= end
    ensures Apart(regions, from, end)
  {
  }

  /** Strings and array lie apart: the array starts behind the last string. */
  lemma {:induction false} GroupRegionsApart(entry: GrEntry, base: nat)
    ensures Apart(GroupRegions(entry, base), base, base + GrNeeded(entry, base))
  {
    hide Blob, Offset, StringRegions;
    StringsApart(GrStrings(entry), base);
    var regions := GroupRegions(entry, base);
    assert forall i :: 0 <= i < |entry.members| + 2 ==> regions[i] == StringRegions(GrStrings(entry), base)[i];
  }

  /** Write `entry` into `*grp`, its strings and its member array carved out of `buf`; false is
      ERANGE. */
  method FillGroup(entry: GrEntry, grp: CGroup, buf: array<char>, base: nat, buflen: nat) returns (ok: bool)
    requires buflen <= buf.Length && 0 < base && base + buf.Length <= ADDRESSES
    modifies grp, buf
    ensures ok <==> GrNeeded(entry, base) <= buflen
    ensures !ok ==> unchanged(grp) && buf[..] == old(buf[..])
    ensures ok ==> grp.Describes(entry, buf[..buflen], base)
    ensures ok ==> grp.LaidOut(entry, buf[..buflen], base)
    ensures ok ==> buf[buflen..] == old(buf[buflen..])
  {
    hide Blob, Offset, StringAt, PointerArray, GroupReads, GroupLies;
    var strs := GrStrings(entry);
    var stringsLen := |Blob(strs)|;
    var pad := Padding(base + stringsLen);
    var arrayOff := stringsLen + pad;
    var needed := arrayOff + POINTER_SIZE * (|entry.members| + 1);
    if needed > buflen {
      return false;
    }
    ghost var before := buf[..];
    var ptrs := CopyStrings(strs, buf, base);
    ghost var copied := buf[..];
    StorePointers(ptrs[2..], buf, arrayOff);
    grp.name, grp.passwd, grp.gid, grp.mem := ptrs[0], ptrs[1], entry.gid, base + arrayOff;
    PartsInPlace(before, copied, buf[..], Blob(strs), PointerArray(ptrs[2..] + [0]), arrayOff, needed, buflen);
    GroupInPlace(entry, buf[..buflen], base, ptrs);
    GroupLiesInPlace(entry, buf[..buflen], base, ptrs);
    return true;
  }

  /** Strings copied to the front, then an array behind them: both are there, the rest is as before. */
  lemma PartsInPlace(before: string, copied: string, after: string, front: string, part: string,
                     at: nat, end: nat, len: nat)
    requires |front| <= at <= end <= len <= |before| == |copied| == |after|
    requires copied[..|front|] == front && copied[|front|..] == before[|front|..]
    requires after[..at] == copied[..at] && after[at..end] == part && after[end..] == copied[end..]
    ensures after[..len][..|front|] == front && after[..len][at..end] == part && after[len..] == before[len..]
  {
  }

  lemma AlignedBehind(address: nat)
    ensures (address + Padding(address)) % POINTER_SIZE == 0 && Padding(address) < POINTER_SIZE
  {
  }

  /** Strings at the front, their pointers in the array behind: what a fill leaves. */
  ghost predicate GroupStored(entry: GrEntry, mem: string, base: nat, ptrs: seq<nat>) {
    && 0 < base && base + |mem| <= ADDRESSES && GrNeeded(entry, base) <= |mem|
    && |ptrs| == |entry.members| + 2
    && (forall i :: 0 <= i < |ptrs| ==> ptrs[i] == base + Offset(GrStrings(entry), i))
    && mem[..|Blob(GrStrings(entry))|] == Blob(GrStrings(entry))
    && mem[ArrayOffset(entry, base)..GrNeeded(entry, base)] == PointerArray(ptrs[2..] + [0])
  }

  lemma {:induction false} StoredPointer(entry: GrEntry, mem: string, base: nat, ptrs: seq<nat>, i: nat)
    requires GroupStored(entry, mem, base, ptrs) && i <= |entry.members|
    ensures PointerAt(mem, ArrayOffset(entry, base) + POINTER_SIZE * i) == (ptrs[2..] + [0])[i]
  {
    hide Blob, Offset, PointerArray, PointerAt;
    var all := ptrs[2..] + [0];
    if i < |entry.members| {
      assert all[i] == ptrs[i + 2];
      StringInPlace(GrStrings(entry), mem, base, i + 2);
    }
    ArrayReadsBack(all, i);
    PointerInMemory(mem, ArrayOffset(entry, base), PointerArray(all), POINTER_SIZE * i);
  }

  lemma {:induction false} GroupInPlace(entry: GrEntry, mem: string, base: nat, ptrs: seq<nat>)
    requires GroupStored(entry, mem, base, ptrs)
    ensures GroupReads(entry, mem, base, ptrs[0], ptrs[1], entry.gid, base + ArrayOffset(entry, base))
  {
    hide Blob, Offset, StringAt, PointerArray, PointerAt;
    var strs := GrStrings(entry);
    var at := ArrayOffset(entry, base);
    StringsInPlace(strs, mem, base);
    AlignedBehind(base + |Blob(strs)|);
    forall i | 0 <= i < |entry.members| ensures MemberReads(entry.members[i], mem, base, at + POINTER_SIZE * i) {
      StoredPointer(entry, mem, base, ptrs, i);
      assert (ptrs[2..] + [0])[i] == ptrs[i + 2] && strs[i + 2] == ToC(entry.members[i]);
    }
    assert strs[0] == ToC(entry.name) && strs[1] == ToC(entry.passwd);
    StoredPointer(entry, mem, base, ptrs, |entry.members|);
  }

  lemma {:induction false} GroupLiesInPlace(entry: GrEntry, mem: string, base: nat, ptrs: seq<nat>)
    requires GroupStored(entry, mem, base, ptrs)
    ensures GroupLies(entry, mem, base, ptrs[0], ptrs[1], base + ArrayOffset(entry, base))
  {
    hide Blob, Offset, PointerArray, PointerAt, Apart;
    var at := ArrayOffset(entry, base);
    forall i | 0 <= i < |entry.members| ensures PointerAt(mem, at + POINTER_SIZE * i) == base + Offset(GrStrings(entry), i + 2) {
      StoredPointer(entry, mem, base, ptrs, i);
      assert (ptrs[2..] + [0])[i] == ptrs[i + 2];
    }
    GroupRegionsApart(entry, base);
    ApartWithin(GroupRegions(entry, base), base, base + GrNeeded(entry, base), base + |mem|);
  }

  lemma PointerInMemory(mem: string, at: nat, part: string, off: nat)
    requires at + |part| <= |mem| && mem[at..at + |part|] == part && off + POINTER_SIZE <= |part|
    ensures PointerAt(mem, at + off) == PointerAt(part, off)
  {
    var a, b := mem[at + off..at + off + POINTER_SIZE], part[off..off + POINTER_SIZE];
    forall k | 0 <= k < POINTER_SIZE ensures a[k] == b[k] {
      assert b[k] == mem[at..at + |part|][off + k];
    }
    assert a == b;
  }
}
