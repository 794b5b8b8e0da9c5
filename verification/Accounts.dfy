/** `getpwnam_r`, `getpwuid_r`, `getgrnam_r` and `getgrgid_r` when libc finds nothing (src/preload.rs). */
module Accounts {
  import opened Text
  import opened Utf8
  import opened FileTree
  import opened CStrings
  import opened Nss
  import opened NssFill

  /** What the real function answered: its return code, and whether `*result` is set. */
  datatype Answer = Answer(rc: int, found: bool)

  function PwNamed(name: string): PwEntry -> bool {
    (e: PwEntry) => e.name == name
  }

  function PwNumbered(uid: nat): PwEntry -> bool {
    (e: PwEntry) => e.uid == uid
  }

  function GrNamed(name: string): GrEntry -> bool {
    (e: GrEntry) => e.name == name
  }

  function GrNumbered(gid: nat): GrEntry -> bool {
    (e: GrEntry) => e.gid == gid
  }

  // Whether a line is one for the caller's key.

  ghost predicate PwLineNamed(line: string, name: string) {
    match ParsePasswdLine(line) case Some(e) => e.name == name case None => false
  }

  ghost predicate PwLineNumbered(line: string, uid: nat) {
    match ParsePasswdLine(line) case Some(e) => e.uid == uid case None => false
  }

  ghost predicate GrLineNamed(line: string, name: string) {
    match ParseGroupLine(line) case Some(e) => e.name == name case None => false
  }

  ghost predicate GrLineNumbered(line: string, gid: nat) {
    match ParseGroupLine(line) case Some(e) => e.gid == gid case None => false
  }

  function LinesOf(text: Option<string>): seq<string> {
    match text case Some(t) => Lines(t) case None => []
  }

  /** Each lookup answers the first well-formed line with its key, and nothing when none has it. */
  lemma {:induction false} PasswdNamed(text: Option<string>, name: string)
    ensures match LookupPasswd(text, PwNamed(name))
            case None => forall i :: 0 <= i < |LinesOf(text)| ==> !PwLineNamed(LinesOf(text)[i], name)
            case Some(e) =>
              && e.name == name
              && exists i :: 0 <= i < |LinesOf(text)| && ParsePasswdLine(LinesOf(text)[i]) == Some(e)
                             && forall j :: 0 <= j < i ==> !PwLineNamed(LinesOf(text)[j], name)
  {
    hide ParsePasswdLine;
    PasswdScan(text, PwNamed(name));
  }

  lemma {:induction false} PasswdNumbered(text: Option<string>, uid: nat)
    ensures match LookupPasswd(text, PwNumbered(uid))
            case None => forall i :: 0 <= i < |LinesOf(text)| ==> !PwLineNumbered(LinesOf(text)[i], uid)
            case Some(e) =>
              && e.uid == uid
              && exists i :: 0 <= i < |LinesOf(text)| && ParsePasswdLine(LinesOf(text)[i]) == Some(e)
                             && forall j :: 0 <= j < i ==> !PwLineNumbered(LinesOf(text)[j], uid)
  {
    hide ParsePasswdLine;
    PasswdScan(text, PwNumbered(uid));
  }

  lemma {:induction false} GroupNamed(text: Option<string>, name: string)
    ensures match LookupGroup(text, GrNamed(name))
            case None => forall i :: 0 <= i < |LinesOf(text)| ==> !GrLineNamed(LinesOf(text)[i], name)
            case Some(e) =>
              && e.name == name
              && exists i :: 0 <= i < |LinesOf(text)| && ParseGroupLine(LinesOf(text)[i]) == Some(e)
                             && forall j :: 0 <= j < i ==> !GrLineNamed(LinesOf(text)[j], name)
  {
    hide ParseGroupLine;
    GroupScan(text, GrNamed(name));
  }

  lemma {:induction false} GroupNumbered(text: Option<string>, gid: nat)
    ensures match LookupGroup(text, GrNumbered(gid))
            case None => forall i :: 0 <= i < |LinesOf(text)| ==> !GrLineNumbered(LinesOf(text)[i], gid)
            case Some(e) =>
              && e.gid == gid
              && exists i :: 0 <= i < |LinesOf(text)| && ParseGroupLine(LinesOf(text)[i]) == Some(e)
                             && forall j :: 0 <= j < i ==> !GrLineNumbered(LinesOf(text)[j], gid)
  {
    hide ParseGroupLine;
    GroupScan(text, GrNumbered(gid));
  }

  lemma {:induction false} PasswdScan(text: Option<string>, wanted: PwEntry -> bool)
    ensures match LookupPasswd(text, wanted)
            case None => forall i :: 0 <= i < |LinesOf(text)| ==> !Matches(LinesOf(text)[i], PwParser(), wanted)
            case Some(e) => exists i :: IsFirstMatch(LinesOf(text), i, PwParser(), wanted, e)
  {
    hide Parsed, First;
    FindIsScan(LinesOf(text), PwParser(), wanted);
  }

  lemma {:induction false} GroupScan(text: Option<string>, wanted: GrEntry -> bool)
    ensures match LookupGroup(text, wanted)
            case None => forall i :: 0 <= i < |LinesOf(text)| ==> !Matches(LinesOf(text)[i], GrParser(), wanted)
            case Some(e) => exists i :: IsFirstMatch(LinesOf(text), i, GrParser(), wanted, e)
  {
    hide Parsed, First;
    FindIsScan(LinesOf(text), GrParser(), wanted);
  }

  function Needed(entry: PwEntry): nat {
    |Blob(PwStrings(entry))|
  }

  /** `text` is the passwd file, when it can be read. */
  method GetpwnamR(name: string, pwd: CPasswd, buf: array<char>, base: nat, buflen: nat,
                   text: Option<string>, real_: Answer) returns (a: Answer)
    requires buflen <= buf.Length
    modifies pwd, buf
    ensures buf[buflen..] == old(buf[buflen..])
    ensures var found := LookupPasswd(text, PwNamed(name));
            if (real_.rc == 0 && real_.found) || !IsUtf8(name) then
              a == real_ && unchanged(pwd) && buf[..] == old(buf[..])
            else if found.None? then a == Answer(0, false) && unchanged(pwd) && buf[..] == old(buf[..])
            else if Needed(found.value) > buflen then
              a == Answer(ERANGE, real_.found) && unchanged(pwd) && buf[..] == old(buf[..])
            else a == Answer(0, true) && pwd.Describes(found.value, buf[..buflen], base)
                 && pwd.LaidOut(found.value, buf[..buflen], base)
    // in terms of the caller's key
    ensures !(real_.rc == 0 && real_.found) && IsUtf8(name) ==>
              && (a == Answer(0, true) ==> StringAt(buf[..buflen], base, pwd.name) == Some(ToC(name)))
              && (a == Answer(0, false) <==> forall i :: 0 <= i < |LinesOf(text)| ==> !PwLineNamed(LinesOf(text)[i], name))
  {
    PasswdNamed(text, name);
    a := real_;
    if real_.rc == 0 && real_.found {
      return;
    }
    if !IsUtf8(name) {
      return;
    }
    match LookupPasswd(text, PwNamed(name)) {
      case Some(entry) =>
        var ok := FillPasswd(entry, pwd, buf, base, buflen);
        if ok {
          a := Answer(0, true);
        } else {
          a := a.(rc := ERANGE);
        }
      case None => a := Answer(0, false);
    }
  }

  method GetpwuidR(uid: nat, pwd: CPasswd, buf: array<char>, base: nat, buflen: nat,
                   text: Option<string>, real_: Answer) returns (a: Answer)
    requires buflen <= buf.Length
    modifies pwd, buf
    ensures buf[buflen..] == old(buf[buflen..])
    ensures var found := LookupPasswd(text, PwNumbered(uid));
            if real_.rc == 0 && real_.found then a == real_ && unchanged(pwd) && buf[..] == old(buf[..])
            else if found.None? then a == Answer(0, false) && unchanged(pwd) && buf[..] == old(buf[..])
            else if Needed(found.value) > buflen then
              a == Answer(ERANGE, real_.found) && unchanged(pwd) && buf[..] == old(buf[..])
            else a == Answer(0, true) && pwd.Describes(found.value, buf[..buflen], base)
                 && pwd.LaidOut(found.value, buf[..buflen], base)
    // in terms of the caller's key
    ensures !(real_.rc == 0 && real_.found) ==>
              && (a == Answer(0, true) ==> pwd.uid == uid)
              && (a == Answer(0, false) <==> forall i :: 0 <= i < |LinesOf(text)| ==> !PwLineNumbered(LinesOf(text)[i], uid))
  {
    PasswdNumbered(text, uid);
    a := real_;
    if real_.rc == 0 && real_.found {
      return;
    }
    match LookupPasswd(text, PwNumbered(uid)) {
      case Some(entry) =>
        var ok := FillPasswd(entry, pwd, buf, base, buflen);
        if ok {
          a := Answer(0, true);
        } else {
          a := a.(rc := ERANGE);
        }
      case None => a := Answer(0, false);
    }
  }

  /** `text` is the group file, when it can be read. */
  method GetgrnamR(name: string, grp: CGroup, buf: array<char>, base: nat, buflen: nat,
                   text: Option<string>, real_: Answer) returns (a: Answer)
    requires buflen <= buf.Length && 0 < base && base + buf.Length <= ADDRESSES
    modifies grp, buf
    ensures buf[buflen..] == old(buf[buflen..])
    ensures var found := LookupGroup(text, GrNamed(name));
            if (real_.rc == 0 && real_.found) || !IsUtf8(name) then
              a == real_ && unchanged(grp) && buf[..] == old(buf[..])
            else if found.None? then a == Answer(0, false) && unchanged(grp) && buf[..] == old(buf[..])
            else if GrNeeded(found.value, base) > buflen then
              a == Answer(ERANGE, real_.found) && unchanged(grp) && buf[..] == old(buf[..])
            else a == Answer(0, true) && grp.Describes(found.value, buf[..buflen], base)
                 && grp.LaidOut(found.value, buf[..buflen], base)
    // in terms of the caller's key
    ensures !(real_.rc == 0 && real_.found) && IsUtf8(name) ==>
              && (a == Answer(0, true) ==> StringAt(buf[..buflen], base, grp.name) == Some(ToC(name)))
              && (a == Answer(0, false) <==> forall i :: 0 <= i < |LinesOf(text)| ==> !GrLineNamed(LinesOf(text)[i], name))
  {
    GroupNamed(text, name);
    a := real_;
    if real_.rc == 0 && real_.found {
      return;
    }
    if !IsUtf8(name) {
      return;
    }
    match LookupGroup(text, GrNamed(name)) {
      case Some(entry) =>
        var ok := FillGroup(entry, grp, buf, base, buflen);
        if ok {
          a := Answer(0, true);
        } else {
          a := a.(rc := ERANGE);
        }
      case None => a := Answer(0, false);
    }
  }

  method GetgrgidR(gid: nat, grp: CGroup, buf: array<char>, base: nat, buflen: nat,
                   text: Option<string>, real_: Answer) returns (a: Answer)
    requires buflen <= buf.Length && 0 < base && base + buf.Length <= ADDRESSES
    modifies grp, buf
    ensures buf[buflen..] == old(buf[buflen..])
    ensures var found := LookupGroup(text, GrNumbered(gid));
            if real_.rc == 0 && real_.found then a == real_ && unchanged(grp) && buf[..] == old(buf[..])
            else if found.None? then a == Answer(0, false) && unchanged(grp) && buf[..] == old(buf[..])
            else if GrNeeded(found.value, base) > buflen then
              a == Answer(ERANGE, real_.found) && unchanged(grp) && buf[..] == old(buf[..])
            else a == Answer(0, true) && grp.Describes(found.value, buf[..buflen], base)
                 && grp.LaidOut(found.value, buf[..buflen], base)
    // in terms of the caller's key
    ensures !(real_.rc == 0 && real_.found) ==>
              && (a == Answer(0, true) ==> grp.gid == gid)
              && (a == Answer(0, false) <==> forall i :: 0 <= i < |LinesOf(text)| ==> !GrLineNumbered(LinesOf(text)[i], gid))
  {
    GroupNumbered(text, gid);
    a := real_;
    if real_.rc == 0 && real_.found {
      return;
    }
    match LookupGroup(text, GrNumbered(gid)) {
      case Some(entry) =>
        var ok := FillGroup(entry, grp, buf, base, buflen);
        if ok {
          a := Answer(0, true);
        } else {
          a := a.(rc := ERANGE);
        }
      case None => a := Answer(0, false);
    }
  }

  /** A lookup answers the first well-formed matching line of the file, and nothing just when there
      is no such line. */
  lemma {:induction false} PasswdLookupIsScan(text: string, wanted: PwEntry -> bool, e: PwEntry)
    ensures LookupPasswd(Some(text), wanted) == Some(e) <==>
            exists i :: IsFirstMatch(Lines(text), i, PwParser(), wanted, e)
    ensures LookupPasswd(Some(text), wanted) == None <==>
            forall i :: 0 <= i < |Lines(text)| ==> !Matches(Lines(text)[i], PwParser(), wanted)
  {
    assert LookupPasswd(Some(text), wanted) == Find(Parsed(Lines(text), PwParser()), wanted);
    hide *;
    ScanIff(Lines(text), PwParser(), wanted, e);
  }

  lemma {:induction false} GroupLookupIsScan(text: string, wanted: GrEntry -> bool, e: GrEntry)
    ensures LookupGroup(Some(text), wanted) == Some(e) <==>
            exists i :: IsFirstMatch(Lines(text), i, GrParser(), wanted, e)
    ensures LookupGroup(Some(text), wanted) == None <==>
            forall i :: 0 <= i < |Lines(text)| ==> !Matches(Lines(text)[i], GrParser(), wanted)
  {
    assert LookupGroup(Some(text), wanted) == Find(Parsed(Lines(text), GrParser()), wanted);
    hide *;
    ScanIff(Lines(text), GrParser(), wanted, e);
  }

  // A database without NULs has entries without NULs, which reach the caller as they are.

  lemma {:induction false} LinesAreFree(text: string, c: char)
    requires Free(text, c)
    ensures forall i :: 0 <= i < |Lines(text)| ==> Free(Lines(text)[i], c)
    decreases |text|
  {
    var i := IndexOf(text, '\n');
    if i < |text| {
      LinesAreFree(text[i + 1..], c);
    }
  }

  lemma {:induction false} SplitNIsFree(line: string, n: nat, sep: char, c: char)
    requires n > 0 && Free(line, c)
    ensures forall i :: 0 <= i < |SplitN(line, n, sep)| ==> Free(SplitN(line, n, sep)[i], c)
    decreases n
  {
    var i := IndexOf(line, sep);
    if n > 1 && i < |line| {
      SplitNIsFree(line[i + 1..], n - 1, sep, c);
    }
  }

  /** The struct of a NUL-free file's entry holds exactly the fields of its line. */
  lemma {:induction false} PasswdFieldsSurvive(text: string, wanted: PwEntry -> bool)
    requires Free(text, NUL) && LookupPasswd(Some(text), wanted).Some?
    ensures var e := LookupPasswd(Some(text), wanted).value;
            && ToC(e.name) == e.name && ToC(e.passwd) == e.passwd && ToC(e.gecos) == e.gecos
            && ToC(e.dir) == e.dir && ToC(e.shell) == e.shell
  {
    var e := LookupPasswd(Some(text), wanted).value;
    PasswdLookupIsScan(text, wanted, e);
    var i: nat :| IsFirstMatch(Lines(text), i, PwParser(), wanted, e);
    LinesAreFree(text, NUL);
    SplitNIsFree(Lines(text)[i], 7, ':', NUL);
  }

  lemma {:induction false} NonEmptyIsFree(parts: seq<string>, c: char)
    requires forall i :: 0 <= i < |parts| ==> Free(parts[i], c)
    ensures forall i :: 0 <= i < |NonEmpty(parts)| ==> Free(NonEmpty(parts)[i], c)
  {
    if parts != [] {
      NonEmptyIsFree(parts[1..], c);
    }
  }

  lemma {:induction false} GroupFieldsSurvive(text: string, wanted: GrEntry -> bool)
    requires Free(text, NUL) && LookupGroup(Some(text), wanted).Some?
    ensures var e := LookupGroup(Some(text), wanted).value;
            && ToC(e.name) == e.name && ToC(e.passwd) == e.passwd
            && forall i :: 0 <= i < |e.members| ==> ToC(e.members[i]) == e.members[i]
  {
    var e := LookupGroup(Some(text), wanted).value;
    GroupLookupIsScan(text, wanted, e);
    var i: nat :| IsFirstMatch(Lines(text), i, GrParser(), wanted, e);
    LinesAreFree(text, NUL);
    SplitNIsFree(Lines(text)[i], 4, ':', NUL);
    var f := SplitN(Lines(text)[i], 4, ':');
    PiecesAreFree(f[3], ',', NUL);
    NonEmptyIsFree(Split(f[3], ','), NUL);
  }
}
