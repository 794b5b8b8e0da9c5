/** The passwd and group databases (src/nss.rs). */
module Nss {
  import opened Text

  datatype PwEntry = PwEntry(name: string, passwd: string, uid: nat, gid: nat, gecos: string, dir: string, shell: string)

  datatype GrEntry = GrEntry(name: string, passwd: string, gid: nat, members: seq<string>)

  const U32: nat := 0x1_0000_0000

  function StripReturn(line: string): string {
    if line != "" && line[|line| - 1] == '\r' then line[..|line| - 1] else line
  }

  /** `str::lines`: a carriage return is dropped before a newline only, and a last empty line too. */
  function Lines(text: string): seq<string>
    decreases |text|
  {
    var i := IndexOf(text, '\n');
    if i < |text| then [StripReturn(text[..i])] + Lines(text[i + 1..])
    else if text == "" then []
    else [text]
  }

  /** `splitn(n, c)`: the last piece keeps its separators. */
  function SplitN(line: string, n: nat, c: char): seq<string>
    requires n > 0
    decreases n
  {
    var i := IndexOf(line, c);
    if n == 1 || i == |line| then [line] else [line[..i]] + SplitN(line[i + 1..], n - 1, c)
  }

  predicate IsDigit(c: char) {
    '0' <= c <= '9'
  }

  predicate AllDigits(s: string) {
    forall j :: 0 <= j < |s| ==> IsDigit(s[j])
  }

  function Digits(s: string): nat
    requires AllDigits(s)
  {
    if s == "" then 0
    else
      assert IsDigit(s[|s| - 1]);
      10 * Digits(s[..|s| - 1]) + (s[|s| - 1] as int - '0' as int)
  }

  /** `str::parse::<u32>`: digits, with an optional `+`, below 2^32. */
  function ParseU32(s: string): Option<nat> {
    var digits := if |s| > 1 && s[0] == '+' then s[1..] else s;
    if digits == "" || !AllDigits(digits) then None
    else if Digits(digits) < U32 then Some(Digits(digits))
    else None
  }

  function ParsePasswdLine(line: string): Option<PwEntry> {
    var f := SplitN(line, 7, ':');
    if |f| < 7 then None
    else
      match (ParseU32(f[2]), ParseU32(f[3]))
      case (Some(uid), Some(gid)) => Some(PwEntry(f[0], f[1], uid, gid, f[4], f[5], f[6]))
      case _ => None
  }

  function NonEmpty(parts: seq<string>): seq<string> {
    if parts == [] then []
    else (if parts[0] == "" then [] else [parts[0]]) + NonEmpty(parts[1..])
  }

  function ParseGroupLine(line: string): Option<GrEntry> {
    var f := SplitN(line, 4, ':');
    if |f| < 4 then None
    else
      match ParseU32(f[2])
      case Some(gid) => Some(GrEntry(f[0], f[1], gid, NonEmpty(Split(f[3], ','))))
      case None => None
  }

  /** `filter_map`. */
  function Parsed<E>(lines: seq<string>, parse: string -> Option<E>): seq<E> {
    if lines == [] then []
    else
      match parse(lines[0])
      case Some(e) => [e] + Parsed(lines[1..], parse)
      case None => Parsed(lines[1..], parse)
  }

  function PwParser(): string -> Option<PwEntry> {
    (line: string) => ParsePasswdLine(line)
  }

  function GrParser(): string -> Option<GrEntry> {
    (line: string) => ParseGroupLine(line)
  }

  function ParsePasswd(text: string): seq<PwEntry> {
    Parsed(Lines(text), PwParser())
  }

  function ParseGroup(text: string): seq<GrEntry> {
    Parsed(Lines(text), GrParser())
  }

  /** A lookup in a database that may be unreadable. */
  function LookupPasswd(text: Option<string>, wanted: PwEntry -> bool): Option<PwEntry> {
    match text case Some(t) => Find(ParsePasswd(t), wanted) case None => None
  }

  function LookupGroup(text: Option<string>, wanted: GrEntry -> bool): Option<GrEntry> {
    match text case Some(t) => Find(ParseGroup(t), wanted) case None => None
  }

  /** `line` is well-formed and describes the entry asked for. */
  ghost predicate Matches<E>(line: string, parse: string -> Option<E>, wanted: E -> bool) {
    parse(line).Some? && wanted(parse(line).value)
  }

  /** Line `i` is the first well-formed matching one, and describes `e`. */
  ghost predicate IsFirstMatch<E>(lines: seq<string>, i: nat, parse: string -> Option<E>, wanted: E -> bool, e: E) {
    && i < |lines| && Matches(lines[i], parse, wanted) && parse(lines[i]) == Some(e)
    && forall j :: 0 <= j < i ==> !Matches(lines[j], parse, wanted)
  }

  /** Filtering and then finding is a plain scan of the lines. */
  lemma {:induction false} FindIsScan<E>(lines: seq<string>, parse: string -> Option<E>, wanted: E -> bool)
    ensures var r := Find(Parsed(lines, parse), wanted);
            && (r.Some? ==> exists i :: IsFirstMatch(lines, i, parse, wanted, r.value))
            && (r.None? ==> forall i :: 0 <= i < |lines| ==> !Matches(lines[i], parse, wanted))
  {
    if lines != [] {
      var rest := lines[1..];
      FindIsScan(rest, parse, wanted);
      var found := Parsed(rest, parse);
      if Matches(lines[0], parse, wanted) {
        assert First(Parsed(lines, parse), wanted) == 0;
        assert IsFirstMatch(lines, 0, parse, wanted, parse(lines[0]).value);
      } else {
        SkipFirst(lines, parse, wanted);
        var r := Find(found, wanted);
        if r.Some? {
          var i: nat :| IsFirstMatch(rest, i, parse, wanted, r.value);
          assert IsFirstMatch(lines, i + 1, parse, wanted, r.value);
        }
      }
    }
  }

  lemma {:induction false} SkipFirst<E>(lines: seq<string>, parse: string -> Option<E>, wanted: E -> bool)
    requires lines != [] && !Matches(lines[0], parse, wanted)
    ensures Find(Parsed(lines, parse), wanted) == Find(Parsed(lines[1..], parse), wanted)
  {
    var rest := Parsed(lines[1..], parse);
    if parse(lines[0]).Some? {
      var all := [parse(lines[0]).value] + rest;
      assert all[1..] == rest;
      assert First(all, wanted) == 1 + First(rest, wanted);
    }
  }

  lemma IsFirstMatchUnique<E>(lines: seq<string>, i: nat, k: nat, parse: string -> Option<E>, wanted: E -> bool, e: E, d: E)
    requires IsFirstMatch(lines, i, parse, wanted, e) && IsFirstMatch(lines, k, parse, wanted, d)
    ensures i == k && e == d
  {
  }

  /** So a lookup answers the first well-formed matching line, and nothing just when there is none. */
  lemma {:induction false} ScanIff<E>(lines: seq<string>, parse: string -> Option<E>, wanted: E -> bool, e: E)
    ensures Find(Parsed(lines, parse), wanted) == Some(e) <==>
            exists i :: IsFirstMatch(lines, i, parse, wanted, e)
    ensures Find(Parsed(lines, parse), wanted) == None <==>
            forall i :: 0 <= i < |lines| ==> !Matches(lines[i], parse, wanted)
  {
    FindIsScan(lines, parse, wanted);
    if i: nat :| IsFirstMatch(lines, i, parse, wanted, e) {
      var r := Find(Parsed(lines, parse), wanted);
      assert Matches(lines[i], parse, wanted);
      var k: nat :| IsFirstMatch(lines, k, parse, wanted, r.value);
      IsFirstMatchUnique(lines, i, k, parse, wanted, e, r.value);
    }
    if r: nat :| r < |lines| && Matches(lines[r], parse, wanted) {
      FirstMatchExists(lines, r, parse, wanted);
    }
  }

  lemma {:induction false} FirstMatchExists<E>(lines: seq<string>, r: nat, parse: string -> Option<E>, wanted: E -> bool)
    requires r < |lines| && Matches(lines[r], parse, wanted)
    ensures Find(Parsed(lines, parse), wanted).Some?
    decreases |lines|
  {
    if Matches(lines[0], parse, wanted) {
      assert First(Parsed(lines, parse), wanted) == 0;
    } else {
      SkipFirst(lines, parse, wanted);
      FirstMatchExists(lines[1..], r - 1, parse, wanted);
    }
  }

  // Printing, the inverse of parsing.

  function Decimal(n: nat): string {
    if n < 10 then [('0' as int + n) as char] else Decimal(n / 10) + [('0' as int + n % 10) as char]
  }

  lemma {:induction false} DecimalDigits(n: nat)
    ensures Decimal(n) != "" && AllDigits(Decimal(n))
    ensures Digits(Decimal(n)) == n
  {
    if n < 10 {
      assert Decimal(n)[..0] == "";
    } else {
      DecimalDigits(n / 10);
      assert Decimal(n)[..|Decimal(n)| - 1] == Decimal(n / 10);
    }
  }

  lemma {:induction false} DecimalParses(n: nat)
    requires n < U32
    ensures ParseU32(Decimal(n)) == Some(n)
    ensures Free(Decimal(n), ':') && Free(Decimal(n), '\n')
  {
    DecimalDigits(n);
    assert IsDigit(Decimal(n)[0]);
  }

  function PrintPasswd(e: PwEntry): string {
    Join([e.name, e.passwd, Decimal(e.uid), Decimal(e.gid), e.gecos, e.dir, e.shell], ':')
  }

  function PrintGroup(e: GrEntry): string {
    Join([e.name, e.passwd, Decimal(e.gid), Join(e.members, ',')], ':')
  }

  /** A line of its own: no newline inside, no carriage return at its end. */
  predicate IsLine(s: string) {
    Free(s, '\n') && (s != "" ==> s[|s| - 1] != '\r')
  }

  predicate PrintablePw(e: PwEntry) {
    && Free(e.name, ':') && Free(e.passwd, ':') && Free(e.gecos, ':') && Free(e.dir, ':')
    && e.uid < U32 && e.gid < U32 && IsLine(PrintPasswd(e))
  }

  predicate PrintableGr(e: GrEntry) {
    && Free(e.name, ':') && Free(e.passwd, ':') && e.gid < U32 && IsLine(PrintGroup(e))
    && forall i :: 0 <= i < |e.members| ==> e.members[i] != "" && Free(e.members[i], ',')
  }

  /** All pieces but the last without the separator: they come back one by one. */
  lemma {:induction false} SplitNJoin(parts: seq<string>, c: char)
    requires parts != [] && forall i :: 0 <= i < |parts| - 1 ==> Free(parts[i], c)
    ensures SplitN(Join(parts, c), |parts|, c) == parts
  {
    hide Join, IndexOf;
    if |parts| == 1 {
      JoinOne(parts[0], c);
      assert [parts[0]] == parts;
    } else {
      var rest := Join(parts[1..], c);
      SplitNJoin(parts[1..], c);
      JoinCons(parts[0], parts[1..], c);
      assert [parts[0]] + parts[1..] == parts;
      IndexOfAt(parts[0], c, rest);
      var s := parts[0] + [c] + rest;
      assert s[..|parts[0]|] == parts[0] && s[|parts[0]| + 1..] == rest;
    }
  }

  /** Every printable entry is parsed back from its line. */
  lemma {:induction false} PasswdRoundTrip(e: PwEntry)
    requires PrintablePw(e)
    ensures ParsePasswdLine(PrintPasswd(e)) == Some(e)
  {
    DecimalParses(e.uid);
    DecimalParses(e.gid);
    SplitNJoin([e.name, e.passwd, Decimal(e.uid), Decimal(e.gid), e.gecos, e.dir, e.shell], ':');
  }

  lemma {:induction false} GroupRoundTrip(e: GrEntry)
    requires PrintableGr(e)
    ensures ParseGroupLine(PrintGroup(e)) == Some(e)
  {
    DecimalParses(e.gid);
    SplitNJoin([e.name, e.passwd, Decimal(e.gid), Join(e.members, ',')], ':');
    MembersRoundTrip(e.members);
  }

  lemma {:induction false} MembersRoundTrip(members: seq<string>)
    requires forall i :: 0 <= i < |members| ==> members[i] != "" && Free(members[i], ',')
    ensures NonEmpty(Split(Join(members, ','), ',')) == members
  {
    if members == [] {
      assert Split("", ',') == [""];
      assert [""][1..] == [];
    } else {
      SplitJoin(members, ',');
      AllNonEmpty(members);
    }
  }

  lemma {:induction false} AllNonEmpty(parts: seq<string>)
    requires forall i :: 0 <= i < |parts| ==> parts[i] != ""
    ensures NonEmpty(parts) == parts
  {
    if parts != [] {
      AllNonEmpty(parts[1..]);
    }
  }

  // Which lines are well-formed, and what they say.

  lemma {:induction false} SplitNParts(line: string, n: nat, c: char)
    requires n > 0
    ensures var f := SplitN(line, n, c);
            && 0 < |f| <= n && Join(f, c) == line && forall i :: 0 <= i < |f| - 1 ==> Free(f[i], c)
    decreases n
  {
    var i := IndexOf(line, c);
    if n > 1 && i < |line| {
      SplitNParts(line[i + 1..], n - 1, c);
      JoinCons(line[..i], SplitN(line[i + 1..], n - 1, c), c);
      CutAt(line, i, c);
    }
  }

  /** `s` writes `n` in decimal: perhaps a plus, any number of zeros, then the number. */
  ghost predicate Writes(s: string, n: nat) {
    exists k: nat :: s == Noughts(k) + Decimal(n) || s == "+" + Noughts(k) + Decimal(n)
  }

  function Noughts(k: nat): string {
    seq(k, _ => '0')
  }

  lemma {:induction false} LeadingZero(d: string)
    requires d != "" && d[0] == '0' && AllDigits(d)
    ensures Digits(d) == Digits(d[1..])
    decreases |d|
  {
    if |d| > 1 {
      LeadingZero(d[..|d| - 1]);
      assert d[..|d| - 1][1..] == d[1..][..|d| - 2];
    } else {
      assert d[..0] == "";
    }
  }

  lemma {:induction false} DigitsAreDecimal(d: string)
    requires d != "" && (|d| > 1 ==> d[0] != '0') && AllDigits(d)
    ensures Decimal(Digits(d)) == d
    ensures |d| > 1 ==> Digits(d) >= 10
    decreases |d|
  {
    var front := d[..|d| - 1];
    assert d == front + [d[|d| - 1]];
    if |d| == 1 {
      assert front == "";
    } else {
      if |front| > 1 {
        DigitsAreDecimal(front);
      } else {
        assert front[..0] == "";
      }
      DigitsAreDecimal(front);
      assert Digits(d) / 10 == Digits(front) && Digits(d) % 10 == d[|d| - 1] as int - '0' as int;
    }
  }

  lemma {:induction false} DigitsWrite(d: string) returns (k: nat)
    requires d != "" && AllDigits(d)
    ensures d == Noughts(k) + Decimal(Digits(d))
    decreases |d|
  {
    if |d| > 1 && d[0] == '0' {
      LeadingZero(d);
      k := DigitsWrite(d[1..]);
      k := k + 1;
      assert d == "0" + d[1..] && Noughts(k) == "0" + Noughts(k - 1);
    } else {
      DigitsAreDecimal(d);
      k := 0;
      assert Noughts(0) + d == d;
    }
  }

  lemma {:induction false} NoughtsRead(k: nat, n: nat)
    ensures var d := Noughts(k) + Decimal(n);
            d != "" && AllDigits(d) && Digits(d) == n
    decreases k
  {
    DecimalDigits(n);
    if k == 0 {
      assert Noughts(0) + Decimal(n) == Decimal(n);
    } else {
      NoughtsRead(k - 1, n);
      assert (Noughts(k) + Decimal(n))[1..] == Noughts(k - 1) + Decimal(n);
      LeadingZero(Noughts(k) + Decimal(n));
    }
  }

  lemma {:induction false} NumberWritten(s: string, n: nat)
    requires ParseU32(s) == Some(n)
    ensures n < U32 && Writes(s, n)
  {
    hide Decimal;
    var digits := if |s| > 1 && s[0] == '+' then s[1..] else s;
    assert digits != "" && AllDigits(digits) && Digits(digits) == n;
    hide Digits, ParseU32;
    var k := DigitsWrite(digits);
    var written := Noughts(k) + Decimal(n);
    assert |s| > 1 && s[0] == '+' ==> s == "+" + digits && "+" + Noughts(k) + Decimal(n) == "+" + written;
  }

  lemma {:induction false} WrittenParses(s: string, n: nat, k: nat)
    requires n < U32 && (s == Noughts(k) + Decimal(n) || s == "+" + Noughts(k) + Decimal(n))
    ensures ParseU32(s) == Some(n)
  {
    hide Decimal, Digits, Noughts;
    NoughtsRead(k, n);
    var d := Noughts(k) + Decimal(n);
    if s == d {
      assert IsDigit(s[0]);
    } else {
      assert s == "+" + d && s[1..] == d;
    }
  }

  /** A number is read exactly when it is written so, and fits 32 bits. */
  lemma {:induction false} ParseU32Iff(s: string, n: nat)
    ensures ParseU32(s) == Some(n) <==> n < U32 && Writes(s, n)
  {
    hide ParseU32, Noughts, Decimal;
    if ParseU32(s) == Some(n) {
      NumberWritten(s, n);
    }
    if n < U32 && Writes(s, n) {
      var k: nat :| s == Noughts(k) + Decimal(n) || s == "+" + Noughts(k) + Decimal(n);
      WrittenParses(s, n, k);
    }
  }

  lemma WritesFree(s: string, n: nat)
    requires Writes(s, n)
    ensures Free(s, ':')
  {
    var k: nat :| s == Noughts(k) + Decimal(n) || s == "+" + Noughts(k) + Decimal(n);
    DecimalDigits(n);
  }

  /** The line's seven fields: the entry's, with its numbers written as `u` and `g`. */
  ghost predicate PwLine(line: string, e: PwEntry, u: string, g: string) {
    && Free(e.name, ':') && Free(e.passwd, ':') && Free(e.gecos, ':') && Free(e.dir, ':')
    && e.uid < U32 && e.gid < U32 && Writes(u, e.uid) && Writes(g, e.gid)
    && line == Join([e.name, e.passwd, u, g, e.gecos, e.dir, e.shell], ':')
  }

  ghost predicate GrLine(line: string, e: GrEntry, g: string, members: string) {
    && Free(e.name, ':') && Free(e.passwd, ':') && e.gid < U32 && Writes(g, e.gid)
    && e.members == NonEmpty(Split(members, ','))
    && line == Join([e.name, e.passwd, g, members], ':')
  }

  /** Which lines are entries of the passwd file, and what each says. */
  lemma {:induction false} PasswdLineIff(line: string, e: PwEntry)
    ensures ParsePasswdLine(line) == Some(e) <==> exists u, g :: PwLine(line, e, u, g)
  {
    hide ParseU32, Writes, SplitN, Join;
    if ParsePasswdLine(line) == Some(e) {
      var f := SplitN(line, 7, ':');
      SplitNParts(line, 7, ':');
      ParseU32Iff(f[2], e.uid);
      ParseU32Iff(f[3], e.gid);
      assert f == [e.name, e.passwd, f[2], f[3], e.gecos, e.dir, e.shell];
      assert PwLine(line, e, f[2], f[3]);
    }
    if u, g :| PwLine(line, e, u, g) {
      ParseU32Iff(u, e.uid);
      ParseU32Iff(g, e.gid);
      WritesFree(u, e.uid);
      WritesFree(g, e.gid);
      SplitNJoin([e.name, e.passwd, u, g, e.gecos, e.dir, e.shell], ':');
    }
  }

  lemma {:induction false} GroupLineIff(line: string, e: GrEntry)
    ensures ParseGroupLine(line) == Some(e) <==> exists g, members :: GrLine(line, e, g, members)
  {
    hide ParseU32, Writes, SplitN, Join, NonEmpty, Split;
    if ParseGroupLine(line) == Some(e) {
      var f := SplitN(line, 4, ':');
      SplitNParts(line, 4, ':');
      ParseU32Iff(f[2], e.gid);
      assert f == [e.name, e.passwd, f[2], f[3]];
      assert GrLine(line, e, f[2], f[3]);
    }
    if g, members :| GrLine(line, e, g, members) {
      ParseU32Iff(g, e.gid);
      WritesFree(g, e.gid);
      SplitNJoin([e.name, e.passwd, g, members], ':');
    }
  }

  function Concat(lines: seq<string>): string {
    if lines == [] then "" else lines[0] + "\n" + Concat(lines[1..])
  }

  lemma {:induction false} LinesOfConcat(lines: seq<string>)
    requires forall i :: 0 <= i < |lines| ==> IsLine(lines[i])
    ensures Lines(Concat(lines)) == lines
    decreases |lines|
  {
    if lines != [] {
      var rest := Concat(lines[1..]);
      var text := lines[0] + ['\n'] + rest;
      LinesOfConcat(lines[1..]);
      IndexOfAt(lines[0], '\n', rest);
      assert text[..|lines[0]|] == lines[0] && text[|lines[0]| + 1..] == rest;
    }
  }

  function Printed<E>(entries: seq<E>, print_: E -> string): seq<string> {
    seq(|entries|, i requires 0 <= i < |entries| => print_(entries[i]))
  }

  lemma {:induction false} ParsedOfPrinted<E>(entries: seq<E>, print_: E -> string, parse: string -> Option<E>)
    requires forall i :: 0 <= i < |entries| ==> parse(print_(entries[i])) == Some(entries[i])
    ensures Parsed(Printed(entries, print_), parse) == entries
    decreases |entries|
  {
    if entries != [] {
      ParsedOfPrinted(entries[1..], print_, parse);
      assert Printed(entries, print_)[1..] == Printed(entries[1..], print_);
    }
  }

  /** A printed database is parsed back entry by entry. */
  lemma {:induction false} PasswdFileRoundTrip(entries: seq<PwEntry>)
    requires forall i :: 0 <= i < |entries| ==> PrintablePw(entries[i])
    ensures ParsePasswd(Concat(Printed(entries, (e: PwEntry) => PrintPasswd(e)))) == entries
  {
    var print_ := (e: PwEntry) => PrintPasswd(e);
    LinesOfConcat(Printed(entries, print_));
    forall i | 0 <= i < |entries| ensures ParsePasswdLine(PrintPasswd(entries[i])) == Some(entries[i]) {
      PasswdRoundTrip(entries[i]);
    }
    ParsedOfPrinted(entries, print_, PwParser());
  }

  lemma {:induction false} GroupFileRoundTrip(entries: seq<GrEntry>)
    requires forall i :: 0 <= i < |entries| ==> PrintableGr(entries[i])
    ensures ParseGroup(Concat(Printed(entries, (e: GrEntry) => PrintGroup(e)))) == entries
  {
    var print_ := (e: GrEntry) => PrintGroup(e);
    LinesOfConcat(Printed(entries, print_));
    forall i | 0 <= i < |entries| ensures ParseGroupLine(PrintGroup(entries[i])) == Some(entries[i]) {
      GroupRoundTrip(entries[i]);
    }
    ParsedOfPrinted(entries, print_, GrParser());
  }
}
