/** Byte strings and the searches Rust's slices offer. One `char` stands for one byte. */
module Text {

  datatype Option<+T> = None | Some(value: T)

  const NUL: char := '\0'

  /** The first index whose element satisfies `p`; the length when there is none. */
  function First<T>(s: seq<T>, p: T -> bool): (i: nat)
    ensures i <= |s|
    ensures forall j :: 0 <= j < i ==> !p(s[j])
    ensures i < |s| ==> p(s[i])
  {
    if s == [] || p(s[0]) then 0 else 1 + First(s[1..], p)
  }

  lemma FirstIs<T>(s: seq<T>, p: T -> bool, i: nat)
    requires i <= |s| && (forall j :: 0 <= j < i ==> !p(s[j])) && (i < |s| ==> p(s[i]))
    ensures First(s, p) == i
  {
  }

  /** The first element satisfying `p`. */
  function Find<T>(s: seq<T>, p: T -> bool): (r: Option<T>)
    ensures r.None? <==> forall j :: 0 <= j < |s| ==> !p(s[j])
    ensures r.Some? ==> First(s, p) < |s| && r.value == s[First(s, p)]
  {
    var i := First(s, p);
    if i < |s| then Some(s[i]) else None
  }

  /** `c` does not occur in `s`. */
  predicate Free(s: string, c: char) {
    forall j :: 0 <= j < |s| ==> s[j] != c
  }

  /** The first index of `c`; the length when it does not occur. */
  function IndexOf(s: string, c: char): (i: nat)
    ensures i <= |s|
    ensures forall j :: 0 <= j < i ==> s[j] != c
    ensures i < |s| ==> s[i] == c
  {
    if s == [] || s[0] == c then 0 else 1 + IndexOf(s[1..], c)
  }

  /** The C string at the front of `b`. */
  function UpToNul(b: string): string {
    b[..IndexOf(b, NUL)]
  }

  lemma UpToNulOf(front: string, rest: string)
    requires Free(front, NUL)
    ensures UpToNul(front + [NUL] + rest) == front
    ensures UpToNul(front) == front
  {
    IndexOfAt(front, NUL, rest);
  }

  lemma IndexOfAt(a: string, c: char, b: string)
    requires Free(a, c)
    ensures IndexOf(a + [c] + b, c) == |a|
  {
    var s := a + [c] + b;
    assert s[|a|] == c;
    assert forall j :: 0 <= j < |a| ==> s[j] == a[j];
  }

  lemma PrefixConcat(a: string, b: string, s: string)
    ensures a + b <= s <==> a <= s && b <= s[|a|..]
    ensures a <= a + b && (a + b)[|a|..] == b
  {
  }

  /** The pieces of `s` between the separators: always at least one. */
  function Split(s: string, c: char): (parts: seq<string>)
    ensures |parts| >= 1
  {
    var i := IndexOf(s, c);
    if i == |s| then [s] else [s[..i]] + Split(s[i + 1..], c)
  }

  lemma {:induction false} SplitPieces(s: string, c: char)
    ensures forall i :: 0 <= i < |Split(s, c)| ==> Free(Split(s, c)[i], c)
    decreases |s|
  {
    var i := IndexOf(s, c);
    if i < |s| {
      SplitPieces(s[i + 1..], c);
    }
  }

  lemma {:induction false} PiecesAreFree(s: string, sep: char, c: char)
    requires Free(s, c)
    ensures forall i :: 0 <= i < |Split(s, sep)| ==> Free(Split(s, sep)[i], c)
    decreases |s|
  {
    var i := IndexOf(s, sep);
    if i < |s| {
      PiecesAreFree(s[i + 1..], sep, c);
    }
  }

  function Join(parts: seq<string>, c: char): string {
    if parts == [] then ""
    else if |parts| == 1 then parts[0]
    else parts[0] + [c] + Join(parts[1..], c)
  }

  lemma JoinOne(part: string, c: char)
    ensures Join([part], c) == part
  {
  }

  lemma {:induction false} SplitFirst(a: string, c: char, b: string)
    requires Free(a, c)
    ensures Split(a + [c] + b, c) == [a] + Split(b, c)
  {
    IndexOfAt(a, c, b);
    var s := a + [c] + b;
    assert s[..|a|] == a && s[|a| + 1..] == b;
  }

  lemma CutAt(a: string, i: nat, c: char)
    requires i < |a| && a[i] == c
    ensures a == a[..i] + [c] + a[i + 1..]
  {
  }

  lemma {:induction false} SplitConcatFirst(first: string, rest: string, c: char, b: string)
    requires Free(first, c)
    requires Split(rest + [c] + b, c) == Split(rest, c) + Split(b, c)
    ensures Split(first + [c] + rest + [c] + b, c) == Split(first + [c] + rest, c) + Split(b, c)
  {
    hide *;
    SplitFirst(first, c, rest);
    SplitFirst(first, c, rest + [c] + b);
    assert first + [c] + rest + [c] + b == first + [c] + (rest + [c] + b);
    assert [first] + Split(rest, c) + Split(b, c) == [first] + (Split(rest, c) + Split(b, c));
  }

  lemma {:induction false} SplitConcat(a: string, c: char, b: string)
    ensures Split(a + [c] + b, c) == Split(a, c) + Split(b, c)
    decreases |a|
  {
    var i := IndexOf(a, c);
    if i == |a| {
      SplitFirst(a, c, b);
    } else {
      SplitConcat(a[i + 1..], c, b);
      SplitConcatFirst(a[..i], a[i + 1..], c, b);
      CutAt(a, i, c);
    }
  }

  lemma JoinCons(part: string, parts: seq<string>, c: char)
    requires parts != []
    ensures Join([part] + parts, c) == part + [c] + Join(parts, c)
  {
  }

  /** Splitting loses nothing. */
  lemma {:induction false} JoinSplit(s: string, c: char)
    ensures Join(Split(s, c), c) == s
    decreases |s|
  {
    var i := IndexOf(s, c);
    if i < |s| {
      var rest := s[i + 1..];
      JoinSplit(rest, c);
      JoinCons(s[..i], Split(rest, c), c);
      CutAt(s, i, c);
    } else {
      assert Split(s, c) == [s];
    }
  }

  lemma {:induction false} SplitJoin(parts: seq<string>, c: char)
    requires parts != []
    requires forall i :: 0 <= i < |parts| ==> Free(parts[i], c)
    ensures Split(Join(parts, c), c) == parts
  {
    if |parts| > 1 {
      SplitJoin(parts[1..], c);
      SplitFirst(parts[0], c, Join(parts[1..], c));
    } else {
      assert IndexOf(parts[0], c) == |parts[0]|;
    }
  }

  lemma {:induction false} JoinConcat(a: seq<string>, b: seq<string>, c: char)
    requires a != [] && b != []
    ensures Join(a + b, c) == Join(a, c) + [c] + Join(b, c)
  {
    if |a| == 1 {
      assert (a + b)[1..] == b;
    } else {
      JoinConcat(a[1..], b, c);
      assert (a + b)[1..] == a[1..] + b;
    }
  }

  lemma {:induction false} JoinFree(parts: seq<string>, sep: char, c: char)
    requires sep != c && forall i :: 0 <= i < |parts| ==> Free(parts[i], c)
    ensures Free(Join(parts, sep), c)
  {
    if |parts| > 1 {
      JoinFree(parts[1..], sep, c);
    }
  }

  function Min(a: nat, b: nat): nat {
    if a <= b then a else b
  }

  function Zeros(n: nat): (z: string)
    ensures |z| == n
  {
    seq(n, _ => NUL)
  }

  /** The number whose bytes, lowest first, are `b`. */
  function LittleEndian(b: string): nat {
    if b == "" then 0 else b[0] as int + 256 * LittleEndian(b[1..])
  }

  function Power256(n: nat): nat {
    if n == 0 then 1 else 256 * Power256(n - 1)
  }

  /** Each byte behind the others weighs 256 times more. */
  lemma {:induction false} LastByteWeighsMost(b: string, c: char)
    ensures LittleEndian(b + [c]) == LittleEndian(b) + c as int * Power256(|b|)
  {
    if b == "" {
      assert b + [c] == [c] && [c][1..] == "";
    } else {
      var rest := b[1..];
      assert (b + [c])[1..] == rest + [c];
      LastByteWeighsMost(rest, c);
      Distributes(LittleEndian(rest), c as int, Power256(|rest|));
    }
  }

  lemma Distributes(a: nat, c: nat, p: nat)
    ensures 256 * (a + c * p) == 256 * a + c * (256 * p)
  {
  }
}
