/** Well-formed UTF-8 as `str::from_utf8` checks it (table 3-7 of the Unicode Standard). */
module Utf8 {
  import opened Text

  predicate Between(c: char, lo: int, hi: int) {
    lo <= c as int <= hi
  }

  predicate Continues(c: char) {
    Between(c, 0x80, 0xBF)
  }

  predicate Ascii(s: string) {
    forall i :: 0 <= i < |s| ==> s[i] as int < 0x80
  }

  /** The length of the sequence at the front, or 0 when it is malformed or cut short. */
  function SequenceLength(s: string): (n: nat)
    ensures n <= |s|
    ensures n > 1 ==> forall i :: 1 <= i < n ==> Continues(s[i])
  {
    if s == [] then 0
    else if s[0] as int < 0x80 then 1
    else if |s| < 2 || !Continues(s[1]) then 0
    else if Between(s[0], 0xC2, 0xDF) then 2
    else if |s| < 3 || !Continues(s[2]) then 0
    else if Between(s[0], 0xE0, 0xEF) then
      if s[0] as int == 0xE0 && (s[1] as int) < 0xA0 then 0
      else if s[0] as int == 0xED && s[1] as int > 0x9F then 0
      else 3
    else if |s| < 4 || !Continues(s[3]) then 0
    else if Between(s[0], 0xF0, 0xF4) then
      if s[0] as int == 0xF0 && (s[1] as int) < 0x90 then 0
      else if s[0] as int == 0xF4 && s[1] as int > 0x8F then 0
      else 4
    else 0
  }

  predicate IsUtf8(s: string)
    decreases |s|
  {
    s == [] || (SequenceLength(s) > 0 && IsUtf8(s[SequenceLength(s)..]))
  }

  lemma {:induction false} AfterValid(a: string, b: string)
    requires IsUtf8(a)
    ensures IsUtf8(a + b) <==> IsUtf8(b)
    decreases |a|
  {
    if a == [] {
      assert a + b == b;
    } else {
      var n := SequenceLength(a);
      assert SequenceLength(a + b) == n;
      assert (a + b)[n..] == a[n..] + b;
      AfterValid(a[n..], b);
    }
  }

  lemma {:induction false} AsciiIsValid(s: string)
    requires Ascii(s)
    ensures IsUtf8(s)
    decreases |s|
  {
    if s != [] {
      AsciiIsValid(s[1..]);
    }
  }

  /** An ASCII byte never completes a sequence that was cut short before it. */
  lemma {:induction false} BeforeAscii(a: string, b: string)
    requires b != [] && b[0] as int < 0x80
    requires IsUtf8(a + b)
    ensures IsUtf8(a)
    decreases |a|
  {
    if a != [] {
      SequenceInFront(a, b);
      hide SequenceLength;
      var n := SequenceLength(a);
      assert (a + b)[n..] == a[n..] + b;
      BeforeAscii(a[n..], b);
    }
  }

  lemma {:induction false} SequenceInFront(a: string, b: string)
    requires a != [] && b != [] && b[0] as int < 0x80
    ensures SequenceLength(a + b) == SequenceLength(a)
  {
    var s := a + b;
    assert s[|a|] == b[0] && !Continues(s[|a|]);
    assert forall i :: 0 <= i < |a| ==> s[i] == a[i];
  }

  /** Appending a well-formed text that starts with an ASCII byte changes nothing. */
  lemma {:induction false} ValidIffFront(a: string, b: string)
    requires b != [] && b[0] as int < 0x80 && IsUtf8(b)
    ensures IsUtf8(a + b) <==> IsUtf8(a)
  {
    if IsUtf8(a) {
      AfterValid(a, b);
    }
    if IsUtf8(a + b) {
      BeforeAscii(a, b);
    }
  }

  /** Dropping or adding an ASCII prefix changes nothing. */
  lemma {:induction false} AsciiPrefix(a: string, b: string)
    requires Ascii(a)
    ensures IsUtf8(a + b) <==> IsUtf8(b)
  {
    AsciiIsValid(a);
    AfterValid(a, b);
  }

  lemma {:induction false} JoinIsValid(parts: seq<string>, c: char)
    requires c as int < 0x80
    requires forall i :: 0 <= i < |parts| ==> IsUtf8(parts[i])
    ensures IsUtf8(Join(parts, c))
  {
    hide SequenceLength;
    if |parts| > 1 {
      hide IsUtf8;
      var rest := Join(parts[1..], c);
      JoinIsValid(parts[1..], c);
      AsciiPrefix([c], rest);
      AfterValid(parts[0], [c] + rest);
      assert parts[0] + [c] + rest == parts[0] + ([c] + rest);
    }
  }

  // The same by what it encodes (definition D92 of the Unicode Standard).

  predicate IsScalar(cp: nat) {
    cp <= 0x10FFFF && !(0xD800 <= cp <= 0xDFFF)
  }

  function Encoded(cp: nat): (bytes: string)
    requires IsScalar(cp)
    ensures 0 < |bytes| <= 4
  {
    if cp < 0x80 then [cp as char]
    else if cp < 0x800 then [(0xC0 + cp / 0x40) as char, Continued(cp)]
    else if cp < 0x1_0000 then [(0xE0 + cp / 0x1000) as char, Continued(cp / 0x40), Continued(cp)]
    else [(0xF0 + cp / 0x4_0000) as char, Continued(cp / 0x1000), Continued(cp / 0x40), Continued(cp)]
  }

  function Continued(cp: nat): char {
    (0x80 + cp % 0x40) as char
  }

  function AllEncoded(cps: seq<nat>): string
    requires forall i :: 0 <= i < |cps| ==> IsScalar(cps[i])
  {
    if cps == [] then "" else Encoded(cps[0]) + AllEncoded(cps[1..])
  }

  /** The encoding of one scalar value is one sequence. */
  lemma {:induction false} EncodedIsSequence(cp: nat, rest: string)
    requires IsScalar(cp)
    ensures SequenceLength(Encoded(cp) + rest) == |Encoded(cp)|
  {
    var s := Encoded(cp) + rest;
    if cp >= 0x1_0000 {
      assert 0x10 <= cp / 0x1000 && cp / 0x4_0000 == cp / 0x1000 / 0x40;
    } else if cp >= 0x800 {
      assert 0x20 <= cp / 0x40 && cp / 0x1000 == cp / 0x40 / 0x40;
    }
  }

  lemma TwoBytes(b0: nat, b1: nat)
    requires 0xC2 <= b0 <= 0xDF && 0x80 <= b1 <= 0xBF
    ensures var cp := (b0 - 0xC0) * 0x40 + (b1 - 0x80);
            IsScalar(cp) && Encoded(cp) == [b0 as char, b1 as char]
  {
  }

  lemma ThreeBytes(b0: nat, b1: nat, b2: nat)
    requires 0xE0 <= b0 <= 0xEF && 0x80 <= b1 <= 0xBF && 0x80 <= b2 <= 0xBF
    requires (b0 == 0xE0 ==> b1 >= 0xA0) && (b0 == 0xED ==> b1 <= 0x9F)
    ensures var cp := (b0 - 0xE0) * 0x1000 + (b1 - 0x80) * 0x40 + (b2 - 0x80);
            IsScalar(cp) && Encoded(cp) == [b0 as char, b1 as char, b2 as char]
  {
    var cp := (b0 - 0xE0) * 0x1000 + (b1 - 0x80) * 0x40 + (b2 - 0x80);
    assert cp / 0x40 == (b0 - 0xE0) * 0x40 + (b1 - 0x80);
  }

  lemma FourBytes(b0: nat, b1: nat, b2: nat, b3: nat)
    requires 0xF0 <= b0 <= 0xF4 && 0x80 <= b1 <= 0xBF && 0x80 <= b2 <= 0xBF && 0x80 <= b3 <= 0xBF
    requires (b0 == 0xF0 ==> b1 >= 0x90) && (b0 == 0xF4 ==> b1 <= 0x8F)
    ensures var cp := (b0 - 0xF0) * 0x4_0000 + (b1 - 0x80) * 0x1000 + (b2 - 0x80) * 0x40 + (b3 - 0x80);
            IsScalar(cp) && Encoded(cp) == [b0 as char, b1 as char, b2 as char, b3 as char]
  {
    var cp := (b0 - 0xF0) * 0x4_0000 + (b1 - 0x80) * 0x1000 + (b2 - 0x80) * 0x40 + (b3 - 0x80);
    assert cp / 0x40 == (b0 - 0xF0) * 0x1000 + (b1 - 0x80) * 0x40 + (b2 - 0x80);
    assert cp / 0x1000 == (b0 - 0xF0) * 0x40 + (b1 - 0x80);
  }

  /** Every sequence is the encoding of one. */
  lemma {:induction false} SequenceIsEncoded(s: string) returns (cp: nat)
    requires s != [] && SequenceLength(s) > 0
    ensures IsScalar(cp) && s[..SequenceLength(s)] == Encoded(cp)
  {
    hide Encoded, IsScalar;
    var n := SequenceLength(s);
    var b0 := s[0] as int;
    if n == 1 {
      cp := b0;
      OneByte(b0);
    } else if n == 2 {
      cp := (b0 - 0xC0) * 0x40 + (s[1] as int - 0x80);
      TwoBytes(b0, s[1] as int);
    } else if n == 3 {
      cp := (b0 - 0xE0) * 0x1000 + (s[1] as int - 0x80) * 0x40 + (s[2] as int - 0x80);
      ThreeBytes(b0, s[1] as int, s[2] as int);
    } else {
      cp := (b0 - 0xF0) * 0x4_0000 + (s[1] as int - 0x80) * 0x1000 + (s[2] as int - 0x80) * 0x40 + (s[3] as int - 0x80);
      FourBytes(b0, s[1] as int, s[2] as int, s[3] as int);
    }
  }

  lemma OneByte(b0: nat)
    requires b0 < 0x80
    ensures IsScalar(b0) && Encoded(b0) == [b0 as char]
  {
  }

  lemma {:induction false} ValidIsEncoded(s: string) returns (cps: seq<nat>)
    requires IsUtf8(s)
    ensures (forall i :: 0 <= i < |cps| ==> IsScalar(cps[i])) && s == AllEncoded(cps)
    decreases |s|
  {
    hide Encoded, SequenceLength, IsScalar;
    if s == [] {
      cps := [];
    } else {
      var n := SequenceLength(s);
      var cp := SequenceIsEncoded(s);
      var rest := ValidIsEncoded(s[n..]);
      cps := [cp] + rest;
      assert cps[1..] == rest && s == s[..n] + s[n..];
    }
  }

  lemma {:induction false} EncodedIsValid(cps: seq<nat>)
    requires forall i :: 0 <= i < |cps| ==> IsScalar(cps[i])
    ensures IsUtf8(AllEncoded(cps))
    decreases |cps|
  {
    hide Encoded, SequenceLength, IsScalar;
    if cps != [] {
      var first, rest := Encoded(cps[0]), AllEncoded(cps[1..]);
      EncodedIsSequence(cps[0], rest);
      assert (first + rest)[|first|..] == rest;
      EncodedIsValid(cps[1..]);
    }
  }

  /** A text passes the check exactly when it encodes some Unicode scalar values. */
  lemma {:induction false} ValidIff(s: string)
    ensures IsUtf8(s) <==>
            exists cps: seq<nat> :: (forall i :: 0 <= i < |cps| ==> IsScalar(cps[i])) && s == AllEncoded(cps)
  {
    if IsUtf8(s) {
      var cps := ValidIsEncoded(s);
    }
    if cps: seq<nat> :| (forall i :: 0 <= i < |cps| ==> IsScalar(cps[i])) && s == AllEncoded(cps) {
      EncodedIsValid(cps);
    }
  }
}
