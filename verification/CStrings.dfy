/** NUL-terminated strings laid one after another in memory. */
module CStrings {
  import opened Text

  /** `CString::new(s).unwrap_or_default()`: a text with a NUL inside becomes the empty string. */
  function ToC(s: string): (c: string)
    ensures Free(c, NUL)
    ensures Free(s, NUL) ==> c == s
  {
    if Free(s, NUL) then s else ""
  }

  function Blob(strs: seq<string>): string {
    if strs == [] then "" else strs[0] + [NUL] + Blob(strs[1..])
  }

  /** Where the `i`-th string of a blob starts. */
  function Offset(strs: seq<string>, i: nat): nat
    requires i <= |strs|
  {
    if i == 0 then 0 else |strs[0]| + 1 + Offset(strs[1..], i - 1)
  }

  /** The string a pointer to `off` denotes. */
  function ReadAt(mem: string, off: nat): string
    requires off <= |mem|
  {
    mem[off..][..IndexOf(mem[off..], NUL)]
  }

  ghost predicate AllFree(strs: seq<string>) {
    forall i :: 0 <= i < |strs| ==> Free(strs[i], NUL)
  }

  lemma {:induction false} BlobGrows(strs: seq<string>, i: nat)
    requires i < |strs|
    ensures Blob(strs[..i + 1]) == Blob(strs[..i]) + strs[i] + [NUL]
    decreases i
  {
    if i == 0 {
      assert strs[..1] == [strs[0]] && strs[..0] == [];
      assert strs[..1][1..] == [];
    } else {
      BlobGrows(strs[1..], i - 1);
      assert strs[..i + 1][1..] == strs[1..][..i] && strs[..i][1..] == strs[1..][..i - 1];
    }
  }

  lemma {:induction false} OffsetIsLength(strs: seq<string>, i: nat)
    requires i <= |strs|
    ensures Offset(strs, i) == |Blob(strs[..i])|
    decreases i
  {
    if i > 0 {
      OffsetIsLength(strs[1..], i - 1);
      assert strs[..i][1..] == strs[1..][..i - 1];
    }
  }

  lemma ReadFront(s: string, rest: string)
    requires Free(s, NUL)
    ensures ReadAt(s + [NUL] + rest, 0) == s
  {
    var mem := s + [NUL] + rest;
    IndexOfAt(s, NUL, rest);
    assert mem[0..] == mem;
  }

  lemma ReadBehind(front: string, mem: string, off: nat)
    requires off <= |mem|
    ensures ReadAt(front + mem, |front| + off) == ReadAt(mem, off)
  {
    assert (front + mem)[|front| + off..] == mem[off..];
  }

  /** Every string of a blob is read back at its offset, whatever follows the blob. */
  lemma {:induction false} ReadBlob(strs: seq<string>, i: nat, rest: string)
    requires AllFree(strs) && i < |strs|
    ensures Offset(strs, i) + |strs[i]| + 1 <= |Blob(strs)|
    ensures ReadAt(Blob(strs) + rest, Offset(strs, i)) == strs[i]
    decreases i
  {
    var tail := Blob(strs[1..]);
    assert Blob(strs) + rest == strs[0] + [NUL] + (tail + rest);
    if i == 0 {
      ReadFront(strs[0], tail + rest);
    } else {
      ReadBlob(strs[1..], i - 1, rest);
      ReadBehind(strs[0] + [NUL], tail + rest, Offset(strs[1..], i - 1));
    }
  }

  /** The offsets keep the strings apart: each ends, NUL included, where the next starts. */
  lemma {:induction false} OffsetsFollow(strs: seq<string>, i: nat)
    requires i < |strs|
    ensures Offset(strs, i + 1) == Offset(strs, i) + |strs[i]| + 1
    decreases i
  {
    if i > 0 {
      OffsetsFollow(strs[1..], i - 1);
    }
  }

  /** The first `n` strings of a memory, one after another. */
  function Decode(mem: string, n: nat): seq<string>
    decreases n
  {
    if n == 0 then []
    else
      var i := IndexOf(mem, NUL);
      [mem[..i]] + Decode(if i < |mem| then mem[i + 1..] else "", n - 1)
  }

  lemma DecodeStep(s: string, rest: string, n: nat)
    requires Free(s, NUL)
    ensures Decode(s + [NUL] + rest, n + 1) == [s] + Decode(rest, n)
  {
    var mem := s + [NUL] + rest;
    IndexOfAt(s, NUL, rest);
    assert mem[..|s|] == s && mem[|s| + 1..] == rest;
  }

  lemma {:induction false} DecodeBlob(strs: seq<string>, rest: string)
    requires AllFree(strs)
    ensures Decode(Blob(strs) + rest, |strs|) == strs
    decreases |strs|
  {
    if strs != [] {
      var tail := Blob(strs[1..]);
      assert Blob(strs) + rest == strs[0] + [NUL] + (tail + rest);
      DecodeStep(strs[0], tail + rest, |strs| - 1);
      DecodeBlob(strs[1..], rest);
      assert strs == [strs[0]] + strs[1..];
    }
  }

  /** `copy_nonoverlapping` into a buffer. */
  method CopyAt(src: string, buf: array<char>, off: nat)
    requires off + |src| <= buf.Length
    modifies buf
    ensures buf[..off] == old(buf[..off])
    ensures buf[off..off + |src|] == src
    ensures buf[off + |src|..] == old(buf[off + |src|..])
  {
    for i := 0 to |src|
      invariant buf[..off] == old(buf[..off])
      invariant forall j :: 0 <= j < i ==> buf[off + j] == src[j]
      invariant buf[off + |src|..] == old(buf[off + |src|..])
    {
      buf[off + i] := src[i];
    }
  }
}
