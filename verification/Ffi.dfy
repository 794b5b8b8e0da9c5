/** The C entry point that lists candidates (src/ffi.rs). */
module Ffi {
  import opened Text
  import opened Utf8
  import opened Paths
  import opened Remap
  import opened CStrings

  lemma {:induction false} JoinKeepsUtf8(base: string, p: string)
    requires IsUtf8(p) && !IsAbsolute(p)
    ensures IsUtf8(PathJoin(base, p)) <==> IsUtf8(base)
  {
    AsciiPrefix("/", p);
    AsciiIsValid("/");
    if base == "" {
      assert base + p == p;
    } else if base[|base| - 1] == '/' {
      var b := base[..|base| - 1];
      assert base == b + "/" && base + p == b + ("/" + p);
      ValidIffFront(b, "/");
      ValidIffFront(b, "/" + p);
    } else {
      ValidIffFront(base, "/" + p);
      assert base + "/" + p == base + ("/" + p);
    }
  }

  lemma {:induction false} MovedKeepsUtf8(s: string, from: string, to: string)
    requires IsUtf8(s) && Ascii(from) && Ascii(to)
    ensures Moved(s, from, to).Some? ==> IsUtf8(Moved(s, from, to).value)
  {
    if from + "/" <= s {
      var rest := s[|from| + 1..];
      assert s == (from + "/") + rest;
      AsciiPrefix(from + "/", rest);
      AsciiPrefix(to + "/", rest);
    }
    AsciiIsValid(to);
  }

  lemma {:induction false} StripKeepsUtf8(path: string)
    requires StripLegacy(path).Some?
    ensures IsUtf8(StripLegacy(path).value)
  {
    hide IsUtf8, Moved;
    var s := path[1..];
    assert path == "/" + s;
    AsciiPrefix("/", s);
    DropKeepsUtf8(s);
    var d := DropUsr(s);
    MovedKeepsUtf8(d, "lib64", "lib");
    RelocateKeepsUtf8(FoldLib64(d));
  }

  lemma {:induction false} RelocateKeepsUtf8(s: string)
    requires IsUtf8(s)
    ensures IsUtf8(Relocate(s))
  {
    hide IsUtf8, Moved;
    MovedKeepsUtf8(s, "lib/modules", "drivers/modules");
    MovedKeepsUtf8(s, "lib/firmware", "drivers/hardware/firmwares");
    MovedKeepsUtf8(s, "boot", "kernel");
  }

  lemma {:induction false} DropKeepsUtf8(s: string)
    requires IsUtf8(s)
    ensures IsUtf8(DropUsr(s))
  {
    if "usr/local/" <= s {
      assert s == "usr/local/" + s[10..];
      AsciiPrefix("usr/local/", s[10..]);
    } else if "usr/" <= s {
      assert s == "usr/" + s[4..];
      AsciiPrefix("usr/", s[4..]);
    }
  }

  lemma {:induction false} RootsKeepUtf8(sysroot: string)
    ensures forall i :: 0 <= i < 4 ==> (IsUtf8(Under(sysroot).ProbeOrder()[i]) <==> IsUtf8(sysroot))
  {
    hide IsUtf8, PathJoin;
    AsciiIsValid("overlayer");
    AsciiIsValid("syshub");
    AsciiIsValid("syshub/x86_64-zainium-linux-musl");
    AsciiIsValid("zexlib/union");
    AsciiIsValid("zaisys");
    JoinKeepsUtf8(sysroot, "overlayer");
    var overlayer := PathJoin(sysroot, "overlayer");
    JoinKeepsUtf8(overlayer, "syshub");
    JoinKeepsUtf8(overlayer, "syshub/x86_64-zainium-linux-musl");
    JoinKeepsUtf8(overlayer, "zexlib/union");
    JoinKeepsUtf8(overlayer, "zaisys");
  }

  /** Whether the candidates of `path` can be written as text. */
  predicate Printable(path: string, sysroot: string) {
    IsUtf8(sysroot) || DoubledSlash(path)
  }

  /** The candidates are UTF-8 all together or not at all. */
  lemma {:induction false} AllOrNone(path: string, sysroot: string)
    ensures forall i :: 0 <= i < |Candidates(path, Under(sysroot))| ==>
              (IsUtf8(Candidates(path, Under(sysroot))[i]) <==> Printable(path, sysroot))
  {
    if StripLegacy(path).Some? {
      var rel := StripLegacy(path).value;
      StripKeepsUtf8(path);
      AbsoluteRemainder(path);
      RootsKeepUtf8(sysroot);
      var roots := Under(sysroot).ProbeOrder();
      forall i | 0 <= i < 4
        ensures IsUtf8(JoinAll(roots, rel)[i]) <==> Printable(path, sysroot)
      {
        if !IsAbsolute(rel) {
          JoinKeepsUtf8(roots[i], rel);
        }
      }
    }
  }

  lemma JoinFreeOfNul(base: string, p: string)
    requires Free(base, NUL) && Free(p, NUL)
    ensures Free(PathJoin(base, p), NUL)
  {
  }

  lemma MovedFreeOfNul(s: string, from: string, to: string)
    requires Free(s, NUL) && Free(to, NUL)
    ensures Moved(s, from, to).Some? ==> Free(Moved(s, from, to).value, NUL)
  {
  }

  lemma {:induction false} StripFreeOfNul(path: string)
    requires Free(path, NUL) && StripLegacy(path).Some?
    ensures Free(StripLegacy(path).value, NUL)
  {
    hide Moved, DropUsr, FoldLib64, Relocate;
    DropFreeOfNul(path[1..]);
    FoldFreeOfNul(DropUsr(path[1..]));
    RelocateFreeOfNul(FoldLib64(DropUsr(path[1..])));
  }

  lemma DropFreeOfNul(s: string)
    requires Free(s, NUL)
    ensures Free(DropUsr(s), NUL)
  {
  }

  lemma FoldFreeOfNul(s: string)
    requires Free(s, NUL)
    ensures Free(FoldLib64(s), NUL)
  {
  }

  lemma RelocateFreeOfNul(s: string)
    requires Free(s, NUL)
    ensures Free(Relocate(s), NUL)
  {
    hide Moved;
    MovedFreeOfNul(s, "lib/modules", "drivers/modules");
    MovedFreeOfNul(s, "lib/firmware", "drivers/hardware/firmwares");
    MovedFreeOfNul(s, "boot", "kernel");
  }

  lemma {:induction false} RootsFreeOfNul(sysroot: string)
    requires Free(sysroot, NUL)
    ensures forall i :: 0 <= i < 4 ==> Free(Under(sysroot).ProbeOrder()[i], NUL)
  {
    hide PathJoin;
    JoinFreeOfNul(sysroot, "overlayer");
    var overlayer := PathJoin(sysroot, "overlayer");
    JoinFreeOfNul(overlayer, "syshub");
    JoinFreeOfNul(overlayer, "syshub/x86_64-zainium-linux-musl");
    JoinFreeOfNul(overlayer, "zexlib/union");
    JoinFreeOfNul(overlayer, "zaisys");
  }

  lemma {:induction false} CandidatesFreeOfNul(path: string, sysroot: string)
    requires Free(path, NUL) && Free(sysroot, NUL)
    ensures AllFree(Candidates(path, Under(sysroot)))
  {
    if StripLegacy(path).Some? {
      StripFreeOfNul(path);
      RootsFreeOfNul(sysroot);
      var rel := StripLegacy(path).value;
      var roots := Under(sysroot).ProbeOrder();
      forall i | 0 <= i < 4 ensures Free(JoinAll(roots, rel)[i], NUL) {
        JoinFreeOfNul(roots[i], rel);
      }
    }
  }

  /** The candidates a caller gets to see. */
  function Listed(path: Option<string>, sysroot: string): seq<string> {
    if path.Some? && IsUtf8(path.value) then Candidates(path.value, Under(sysroot)) else []
  }

  /** Those of `cands` that are text, each with its NUL. */
  method BuildBlob(cands: seq<string>, ghost printable: bool) returns (blob: string)
    requires forall i :: 0 <= i < |cands| ==> (IsUtf8(cands[i]) <==> printable)
    ensures blob == if printable then Blob(cands) else ""
  {
    blob := "";
    for i := 0 to |cands|
      invariant blob == if printable then Blob(cands[..i]) else ""
    {
      BlobGrows(cands, i);
      if !IsUtf8(cands[i]) {
        continue;
      }
      blob := blob + cands[i];
      blob := blob + [NUL];
    }
    assert cands[..|cands|] == cands;
  }

  method WriteBlob(ghost cands: seq<string>, blob: string, buf: array<char>)
    requires blob == Blob(cands) && AllFree(cands) && |blob| <= buf.Length
    modifies buf
    ensures Decode(buf[..], |cands|) == cands && buf[|blob|..] == old(buf[|blob|..])
  {
    CopyAt(blob, buf, 0);
    DecodeBlob(cands, buf[|blob|..]);
    assert buf[..] == blob + buf[|blob|..];
  }

  lemma BlobIsEmptyIff(strs: seq<string>)
    ensures Blob(strs) == "" <==> strs == []
  {
  }

  /** Candidate count, 0 out of scope or unprintable, -1 when the buffer is too small or missing.
      A positive answer comes with a buffer that decodes to exactly the candidates, in order; any
      other leaves it alone. */
  method SysResolverCandidates(path: Option<string>, sysroot: string, buf: array?<char>, len: nat)
    returns (n: int)
    requires path.Some? ==> Free(path.value, NUL)
    requires Free(sysroot, NUL) && (buf != null ==> len <= buf.Length)
    modifies buf
    ensures n > 0 ==> buf != null && n == |Listed(path, sysroot)| && Decode(buf[..], n) == Listed(path, sysroot)
    ensures n > 0 ==> |Blob(Listed(path, sysroot))| <= len &&
                      buf[|Blob(Listed(path, sysroot))|..] == old(buf[|Blob(Listed(path, sysroot))|..])
    ensures n <= 0 && buf != null ==> buf[..] == old(buf[..])
    ensures n == 0 <==> Listed(path, sysroot) == [] || !Printable(path.value, sysroot)
    ensures n < 0 ==> n == -1 && (buf == null || |Blob(Listed(path, sysroot))| > len)
  {
    hide Candidates, Printable, Blob, Decode, IsUtf8;
    var cands := Listed(path, sysroot);
    if cands == [] {
      return 0;
    }
    AllOrNone(path.value, sysroot);
    var blob := BuildBlob(cands, Printable(path.value, sysroot));
    BlobIsEmptyIff(cands);
    if blob == "" {
      return 0;
    }
    if |blob| > len || buf == null {
      return -1;
    }
    CandidatesFreeOfNul(path.value, sysroot);
    WriteBlob(cands, blob, buf);
    return |cands|;
  }
}
