/** The `#!` line (src/preload.rs), and how the kernel splits it (execve(2)). */
module Shebang {
  import opened Text

  predicate IsBlank(c: char) {
    c == ' ' || c == '\t' || c == '\r'
  }

  /** The kernel separates at spaces and tabs only. */
  predicate IsKernelBlank(c: char) {
    c == ' ' || c == '\t'
  }

  function Blanks(): char -> bool {
    (c: char) => IsBlank(c)
  }

  function KernelBlanks(): char -> bool {
    (c: char) => IsKernelBlank(c)
  }

  function Not(p: char -> bool): char -> bool {
    (c: char) => !p(c)
  }

  /** One past the last element satisfying `p`; 0 when there is none. */
  function End(s: string, p: char -> bool): (i: nat)
    ensures i <= |s|
    ensures forall j :: i <= j < |s| ==> !p(s[j])
    ensures i > 0 ==> p(s[i - 1])
  {
    if s == [] || p(s[|s| - 1]) then |s| else End(s[..|s| - 1], p)
  }

  function AfterBlanks(s: string, blank: char -> bool): string {
    s[First(s, Not(blank))..]
  }

  function Optional(arg: string): Option<string> {
    if arg == "" then None else Some(arg)
  }

  function ArgText(arg: Option<string>): string {
    match arg case Some(a) => a case None => ""
  }

  /** Interpreter and optional argument of a line, `#!` and newline already gone. */
  function SplitLine(line: string, blank: char -> bool): Option<(string, Option<string>)> {
    var l := AfterBlanks(line, blank);
    if l == "" then None
    else
      var end := First(l, blank);
      var rest := AfterBlanks(l[end..], blank);
      Some((l[..end], Optional(rest[..End(rest, Not(blank))])))
  }

  function LineOf(head: string): string
    requires "#!" <= head
  {
    head[2..][..IndexOf(head[2..], '\n')]
  }

  function ParseShebang(head: string): Option<(string, Option<string>)> {
    if "#!" <= head then SplitLine(LineOf(head), Blanks()) else None
  }

  ghost predicate All(s: string, p: char -> bool) {
    forall j :: 0 <= j < |s| ==> p(s[j])
  }

  /** `line` is blanks, an interpreter, maybe blanks and an argument, blanks. */
  ghost predicate Reads(line: string, pre: string, interp: string, mid: string, arg: string, post: string,
                        blank: char -> bool) {
    && line == pre + (interp + (mid + (arg + post)))
    && All(pre, blank) && All(mid, blank) && All(post, blank)
    && interp != "" && All(interp, Not(blank))
    && (arg == "" <==> mid == "")
    && (arg != "" ==> !blank(arg[0]) && !blank(arg[|arg| - 1]))
  }

  lemma EndIs(s: string, p: char -> bool, i: nat)
    requires i <= |s| && (forall j :: i <= j < |s| ==> !p(s[j])) && (i > 0 ==> p(s[i - 1]))
    ensures End(s, p) == i
  {
  }

  lemma AfterBlanksOf(pre: string, l: string, blank: char -> bool)
    requires All(pre, blank) && (l != "" ==> !blank(l[0]))
    ensures AfterBlanks(pre + l, blank) == l
  {
    var s := pre + l;
    forall j | 0 <= j < |pre| ensures !Not(blank)(s[j]) {
      assert s[j] == pre[j];
    }
    FirstIs(s, Not(blank), |pre|);
    assert s[|pre|..] == l;
  }

  lemma WordOf(word: string, rest: string, blank: char -> bool)
    requires All(word, Not(blank)) && (rest != "" ==> blank(rest[0]))
    ensures First(word + rest, blank) == |word|
    ensures (word + rest)[..|word|] == word && (word + rest)[|word|..] == rest
  {
  }

  lemma TrimmedOf(arg: string, post: string, blank: char -> bool)
    requires All(post, blank) && (arg != "" ==> !blank(arg[|arg| - 1]))
    ensures (arg + post)[..End(arg + post, Not(blank))] == arg
  {
    var s := arg + post;
    forall j | |arg| <= j < |s| ensures !Not(blank)(s[j]) {
      assert s[j] == post[j - |arg|];
    }
    EndIs(s, Not(blank), |arg|);
    assert s[..|arg|] == arg;
  }

  /** Every line of that form is split into exactly those parts. */
  lemma {:induction false} SplitOfReads(
      line: string, pre: string, interp: string, mid: string, arg: string, post: string, blank: char -> bool)
    requires Reads(line, pre, interp, mid, arg, post, blank)
    ensures SplitLine(line, blank) == Some((interp, Optional(arg)))
  {
    hide First, End, AfterBlanks;
    var rest := mid + (arg + post);
    assert Not(blank)(interp[0]);
    AfterBlanksOf(pre, interp + rest, blank);
    WordOf(interp, rest, blank);
    if arg == "" {
      assert rest == post + "";
      AfterBlanksOf(post, "", blank);
      TrimmedOf("", "", blank);
    } else {
      AfterBlanksOf(mid, arg + post, blank);
      TrimmedOf(arg, post, blank);
    }
  }

  /** Every line that is split has that form. */
  lemma {:induction false} ReadsOfSplit(line: string, blank: char -> bool)
    returns (pre: string, mid: string, arg: string, post: string)
    requires SplitLine(line, blank).Some?
    ensures Reads(line, pre, SplitLine(line, blank).value.0, mid, arg, post, blank)
    ensures SplitLine(line, blank).value.1 == Optional(arg)
  {
    hide First, End, AfterBlanks, Reads, Optional;
    var l, interp, tail, rest;
    pre, l := CutBlanks(line, blank);
    interp, tail := CutWord(l, blank);
    mid, rest := CutBlanks(tail, blank);
    arg, post := CutTail(rest, blank);
    if arg == "" {
      NoArgument(line, pre, l, interp, tail, blank);
      mid, post := "", tail;
    } else {
      WithArgument(line, pre, l, interp, tail, mid, rest, arg, post, blank);
    }
  }

  lemma CutTail(rest: string, blank: char -> bool) returns (arg: string, post: string)
    ensures arg == rest[..End(rest, Not(blank))]
    ensures rest == arg + post && All(post, blank)
    ensures arg != "" ==> !blank(arg[|arg| - 1])
    ensures rest != "" && !blank(rest[0]) ==> arg != ""
  {
    var e := End(rest, Not(blank));
    arg, post := rest[..e], rest[e..];
    forall j | 0 <= j < |post| ensures blank(post[j]) {
      assert !Not(blank)(rest[e + j]);
    }
  }

  lemma WithArgument(line: string, pre: string, l: string, interp: string, tail: string, mid: string,
                     rest: string, arg: string, post: string, blank: char -> bool)
    requires line == pre + l && l == interp + tail && tail == mid + rest && rest == arg + post
    requires All(pre, blank) && All(mid, blank) && All(post, blank)
    requires interp != "" && All(interp, Not(blank)) && arg != "" && (tail != "" ==> blank(tail[0]))
    requires !blank(rest[0]) && !blank(arg[|arg| - 1])
    ensures Reads(line, pre, interp, mid, arg, post, blank)
  {
  }

  lemma NoArgument(line: string, pre: string, l: string, interp: string, tail: string, blank: char -> bool)
    requires line == pre + l && l == interp + tail
    requires All(pre, blank) && All(tail, blank) && interp != "" && All(interp, Not(blank))
    ensures Reads(line, pre, interp, "", "", tail, blank)
  {
  }

  lemma CutBlanks(s: string, blank: char -> bool) returns (pre: string, l: string)
    ensures l == "" ==> All(s, blank)
    ensures s == pre + l && All(pre, blank) && l == AfterBlanks(s, blank) && (l != "" ==> !blank(l[0]))
  {
    var i := First(s, Not(blank));
    pre, l := s[..i], s[i..];
    forall j | 0 <= j < |pre| ensures blank(pre[j]) {
      assert !Not(blank)(s[j]);
    }
  }

  lemma CutWord(s: string, blank: char -> bool) returns (word: string, rest: string)
    ensures s == word + rest && All(word, Not(blank)) && (rest != "" ==> blank(rest[0]))
    ensures word == s[..First(s, blank)] && rest == s[First(s, blank)..]
    ensures s != "" && !blank(s[0]) ==> word != ""
  {
    var i := First(s, blank);
    word, rest := s[..i], s[i..];
    forall j | 0 <= j < |word| ensures Not(blank)(word[j]) {
      assert !blank(s[j]);
    }
  }

  /** What a head has to look like to name `interp` and `arg`. */
  ghost predicate NamesProgram(head: string, interp: string, arg: Option<string>) {
    && "#!" <= head
    && arg != Some("")
    && exists pre, mid, post :: Reads(LineOf(head), pre, interp, mid, ArgText(arg), post, Blanks())
  }

  lemma {:induction false} LineIs(head: string, line: string, tail: string)
    requires head == "#!" + line + tail && Free(line, '\n') && (tail == "" || tail[0] == '\n')
    ensures "#!" <= head && LineOf(head) == line
  {
    assert head[2..] == line + tail;
    var i := IndexOf(head[2..], '\n');
    assert tail != "" ==> (line + tail)[|line|] == '\n';
    assert forall j :: 0 <= j < |line| ==> (line + tail)[j] == line[j];
    assert i == |line|;
  }

  /** The parser is exact: it returns a pair just for the heads of that form, so the split is unique. */
  lemma {:induction false} ParseIsExact(head: string, interp: string, arg: Option<string>)
    ensures ParseShebang(head) == Some((interp, arg)) <==> NamesProgram(head, interp, arg)
  {
    hide First, End, AfterBlanks, SplitLine, LineOf, Reads;
    if ParseShebang(head) == Some((interp, arg)) {
      var pre, mid, a, post := ReadsOfSplit(LineOf(head), Blanks());
      assert ArgText(arg) == a;
    }
    if NamesProgram(head, interp, arg) {
      var pre, mid, post :| Reads(LineOf(head), pre, interp, mid, ArgText(arg), post, Blanks());
      SplitOfReads(LineOf(head), pre, interp, mid, ArgText(arg), post, Blanks());
    }
  }

  /** No carriage return where the library sees a blank and the kernel a character. */
  predicate NoStrayReturn(split: Option<(string, Option<string>)>) {
    match split
    case None => true
    case Some((interp, arg)) =>
      Free(interp, '\r') && (arg.Some? && arg.value != "" ==> arg.value[0] != '\r' && arg.value[|arg.value| - 1] != '\r')
  }

  /** Cutting at the library's blanks is cutting at the kernel's exactly when there is none. */
  lemma {:induction false} SameBlanksIff(line: string)
    ensures SplitLine(line, Blanks()) == SplitLine(line, KernelBlanks()) <==>
            NoStrayReturn(SplitLine(line, KernelBlanks()))
  {
    hide First, End, AfterBlanks, SplitLine;
    var ours, kernels := SplitLine(line, Blanks()), SplitLine(line, KernelBlanks());
    if ours.Some? {
      var pre, mid, arg, post := ReadsOfSplit(line, Blanks());
      forall j | 0 <= j < |ours.value.0| ensures ours.value.0[j] != '\r' {
        assert Not(Blanks())(ours.value.0[j]);
      }
      assert NoStrayReturn(ours);
    }
    if NoStrayReturn(kernels) && kernels.Some? {
      StillReads(line);
    }
    if kernels.None? {
      NothingToRead(line);
    }
  }

  lemma {:induction false} StillReads(line: string)
    requires SplitLine(line, KernelBlanks()).Some? && NoStrayReturn(SplitLine(line, KernelBlanks()))
    ensures SplitLine(line, Blanks()) == SplitLine(line, KernelBlanks())
  {
    hide First, End, AfterBlanks, SplitLine;
    var interp := SplitLine(line, KernelBlanks()).value.0;
    var pre, mid, arg, post := ReadsOfSplit(line, KernelBlanks());
    ReadsBoth(line, pre, interp, mid, arg, post);
    SplitOfReads(line, pre, interp, mid, arg, post, Blanks());
  }

  lemma ReadsBoth(line: string, pre: string, interp: string, mid: string, arg: string, post: string)
    requires Reads(line, pre, interp, mid, arg, post, KernelBlanks())
    requires NoStrayReturn(Some((interp, Optional(arg))))
    ensures Reads(line, pre, interp, mid, arg, post, Blanks())
  {
  }

  lemma NothingToRead(line: string)
    requires SplitLine(line, KernelBlanks()).None?
    ensures SplitLine(line, Blanks()).None?
  {
  }

  /** The kernel's split of a line that a newline ends (`load_script` of Linux): a NUL ends the
      interpreter as well, and then there is no argument; what is passed on are C strings. */
  function KernelSplit(line: string): Option<(string, Option<string>)> {
    match SplitLine(line, KernelBlanks())
    case None => None
    case Some((word, arg)) =>
      Some((UpToNul(word), if Free(word, NUL) && arg.Some? then Some(UpToNul(arg.value)) else None))
  }

  /** What the library makes of the same line: the name it looks for ends at a NUL, an argument
      with a NUL inside is dropped. */
  function LibrarySplit(line: string): Option<(string, Option<string>)> {
    match SplitLine(line, Blanks())
    case None => None
    case Some((word, arg)) =>
      Some((UpToNul(word), if arg.Some? && Free(arg.value, NUL) then arg else None))
  }

  /** The text behind the first word. */
  function BehindWord(line: string, blank: char -> bool): string {
    var l := AfterBlanks(line, blank);
    l[First(l, blank)..]
  }

  predicate AllBlank(s: string) {
    forall j :: 0 <= j < |s| ==> IsBlank(s[j])
  }

  /** Without a NUL, no carriage return may stand where the two differ. A NUL in the kernel's first
      word needs a name without one before it, and behind the library's first word nothing but
      blanks, or a second NUL; a NUL in the argument is always read differently. */
  predicate SplitsAlike(line: string) {
    match SplitLine(line, KernelBlanks())
    case None => true
    case Some((word, arg)) =>
      if Free(word, NUL) then (arg.Some? ==> Free(arg.value, NUL)) && NoStrayReturn(Some((word, arg)))
      else
        var behind := BehindWord(line, Blanks());
        Free(UpToNul(word), '\r') && (AllBlank(behind) || !Free(behind, NUL))
  }

  /** The library splits a line the way the kernel does exactly under that condition. */
  lemma {:induction false} SplitsAsKernelIff(line: string)
    ensures LibrarySplit(line) == KernelSplit(line) <==> SplitsAlike(line)
  {
    hide First, End, AfterBlanks, SplitLine, NoStrayReturn, BehindWord, AllBlank;
    var kernels := SplitLine(line, KernelBlanks());
    if kernels.None? {
      NothingToRead(line);
    } else {
      var word, arg := kernels.value.0, kernels.value.1;
      NameHasNoReturn(line);
      if !Free(word, NUL) {
        NulInWord(line);
        if SplitLine(line, Blanks()).Some? {
          ArgumentIff(line);
        }
      } else if arg.Some? && !Free(arg.value, NUL) {
        NulInArgument(line);
      } else {
        NulNowhere(line);
      }
    }
  }

  /** The library passes an argument on exactly when something other than blanks, without a NUL,
      stands behind its first word. */
  lemma {:induction false} ArgumentIff(line: string)
    requires SplitLine(line, Blanks()).Some?
    ensures LibrarySplit(line).value.1.Some? <==>
            !AllBlank(BehindWord(line, Blanks())) && Free(BehindWord(line, Blanks()), NUL)
  {
    hide First, End, AfterBlanks;
    var behind := BehindWord(line, Blanks());
    var pre, rest := CutBlanks(behind, Blanks());
    var arg, post := CutTail(rest, Blanks());
    assert SplitLine(line, Blanks()).value.1 == Optional(arg);
    if rest == "" {
      forall j | 0 <= j < |behind| ensures IsBlank(behind[j]) {
        assert Blanks()(behind[j]);
      }
    } else {
      assert behind[|pre|] == rest[0];
      if !Free(behind, NUL) {
        NulKept(behind, Blanks());
        NulKept(rest, Blanks());
      } else {
        FreeSlice(behind, |pre|, |behind|, NUL);
        FreeSlice(rest, 0, |arg|, NUL);
      }
    }
  }

  lemma {:induction false} NameHasNoReturn(line: string)
    ensures LibrarySplit(line).Some? ==> Free(LibrarySplit(line).value.0, '\r')
  {
    hide First, End, AfterBlanks, SplitLine;
    if SplitLine(line, Blanks()).Some? {
      var word := SplitLine(line, Blanks()).value.0;
      var pre, mid, arg, post := ReadsOfSplit(line, Blanks());
      forall j | 0 <= j < |word| ensures word[j] != '\r' {
        assert Not(Blanks())(word[j]);
      }
    }
  }

  /** The library's first word reads up to at least the NUL. */
  lemma {:induction false} NulInWord(line: string)
    requires SplitLine(line, KernelBlanks()).Some? && !Free(SplitLine(line, KernelBlanks()).value.0, NUL)
    ensures var name := UpToNul(SplitLine(line, KernelBlanks()).value.0);
            Free(name, '\r') ==> SplitLine(line, Blanks()).Some? && UpToNul(SplitLine(line, Blanks()).value.0) == name
  {
    hide First, End, AfterBlanks, SplitLine;
    var word := SplitLine(line, KernelBlanks()).value.0;
    var name := UpToNul(word);
    if Free(name, '\r') {
      var pre, mid, arg, post := ReadsOfSplit(line, KernelBlanks());
      var rest := word[|name| + 1..] + (mid + (arg + post));
      assert word == name + [NUL] + word[|name| + 1..];
      assert line == pre + (name + [NUL] + rest);
      forall j | 0 <= j < |name| ensures !Blanks()(name[j]) {
        assert Not(KernelBlanks())(word[j]);
      }
      WordFrom(line, pre, name, rest);
    }
  }

  /** Blanks, then a name and a NUL: the library's word starts with them. */
  lemma {:induction false} WordFrom(line: string, pre: string, name: string, rest: string)
    requires line == pre + (name + [NUL] + rest) && All(pre, KernelBlanks())
    requires Free(name, NUL) && forall j :: 0 <= j < |name| ==> !Blanks()(name[j])
    ensures SplitLine(line, Blanks()).Some? && UpToNul(SplitLine(line, Blanks()).value.0) == name
  {
    hide First, End, AfterBlanks;
    var l := name + [NUL] + rest;
    AfterBlanksOf(pre, l, Blanks());
    var word, tail := CutWord(l, Blanks());
    forall j | 0 <= j <= |name| ensures !Blanks()(l[j]) {
      assert j < |name| ==> l[j] == name[j];
    }
    assert First(l, Blanks()) > |name|;
    assert word == name + [NUL] + word[|name| + 1..];
    UpToNulOf(name, word[|name| + 1..]);
  }

  lemma NulKept(s: string, blank: char -> bool)
    requires !blank(NUL) && !Free(s, NUL)
    ensures !Free(AfterBlanks(s, blank), NUL) && !Free(s[..End(s, Not(blank))], NUL)
  {
    var i := IndexOf(s, NUL);
    assert s[i] == NUL;
    assert AfterBlanks(s, blank)[i - First(s, Not(blank))] == NUL;
    assert s[..End(s, Not(blank))][i] == NUL;
  }

  /** When the names agree, the library sees the NUL of the argument too and drops it. */
  lemma {:induction false} NulInArgument(line: string)
    requires SplitLine(line, KernelBlanks()).Some? && Free(SplitLine(line, KernelBlanks()).value.0, NUL)
    requires var arg := SplitLine(line, KernelBlanks()).value.1; arg.Some? && !Free(arg.value, NUL)
    ensures LibrarySplit(line) != KernelSplit(line)
  {
    hide First, End, AfterBlanks, SplitLine;
    var word := SplitLine(line, KernelBlanks()).value.0;
    NameHasNoReturn(line);
    UpToNulOf(word, "");
    if Free(word, '\r') {
      var pre, mid, arg, post := ReadsOfSplit(line, KernelBlanks());
      var tail := mid + (arg + post);
      assert tail[|mid| + IndexOf(arg, NUL)] == NUL;
      assert tail[0] == mid[0];
      ArgumentFrom(line, pre, word, tail);
    }
  }

  lemma {:induction false} ArgumentFrom(line: string, pre: string, word: string, tail: string)
    requires line == pre + (word + tail) && All(pre, KernelBlanks()) && All(word, Not(KernelBlanks()))
    requires word != "" && Free(word, '\r') && tail != "" && KernelBlanks()(tail[0]) && !Free(tail, NUL)
    ensures LibrarySplit(line).Some? && LibrarySplit(line).value.1 == None
  {
    hide First, End, AfterBlanks;
    forall j | 0 <= j < |word| ensures Not(Blanks())(word[j]) {
      assert Not(KernelBlanks())(word[j]);
    }
    AfterBlanksOf(pre, word + tail, Blanks());
    WordOf(word, tail, Blanks());
    NulKept(tail, Blanks());
    NulKept(AfterBlanks(tail, Blanks()), Blanks());
  }

  lemma {:induction false} NulNowhere(line: string)
    requires SplitLine(line, KernelBlanks()).Some? && Free(SplitLine(line, KernelBlanks()).value.0, NUL)
    requires var arg := SplitLine(line, KernelBlanks()).value.1; arg.Some? ==> Free(arg.value, NUL)
    ensures LibrarySplit(line) == KernelSplit(line) <==> NoStrayReturn(SplitLine(line, KernelBlanks()))
  {
    hide First, End, AfterBlanks, SplitLine;
    var word, arg := SplitLine(line, KernelBlanks()).value.0, SplitLine(line, KernelBlanks()).value.1;
    SameBlanksIff(line);
    UpToNulOf(word, "");
    if arg.Some? {
      UpToNulOf(arg.value, "");
    }
    if SplitLine(line, Blanks()).Some? {
      LineIsFree(line);
      PartsAreFree(line, NUL, Blanks());
      UpToNulOf(SplitLine(line, Blanks()).value.0, "");
    }
  }

  /** A line whose parts have no NUL has none. */
  lemma {:induction false} LineIsFree(line: string)
    requires SplitLine(line, KernelBlanks()).Some? && Free(SplitLine(line, KernelBlanks()).value.0, NUL)
    requires var arg := SplitLine(line, KernelBlanks()).value.1; arg.Some? ==> Free(arg.value, NUL)
    ensures Free(line, NUL)
  {
    hide First, End, AfterBlanks, SplitLine;
    var pre, mid, arg, post := ReadsOfSplit(line, KernelBlanks());
    BlanksAreFree(pre);
    BlanksAreFree(mid);
    BlanksAreFree(post);
  }

  lemma BlanksAreFree(s: string)
    requires All(s, KernelBlanks())
    ensures Free(s, NUL)
  {
    forall j | 0 <= j < |s| ensures s[j] != NUL {
      assert KernelBlanks()(s[j]);
    }
  }

  lemma {:induction false} PartsAreFree(line: string, c: char, blank: char -> bool)
    requires Free(line, c) && SplitLine(line, blank).Some?
    ensures Free(SplitLine(line, blank).value.0, c)
    ensures SplitLine(line, blank).value.1.Some? ==> Free(SplitLine(line, blank).value.1.value, c)
  {
    hide First, End;
    var l := AfterBlanks(line, blank);
    FreeSlice(line, First(line, Not(blank)), |line|, c);
    var end := First(l, blank);
    FreeSlice(l, 0, end, c);
    FreeSlice(l, end, |l|, c);
    var rest := AfterBlanks(l[end..], blank);
    FreeSlice(l[end..], First(l[end..], Not(blank)), |l| - end, c);
    FreeSlice(rest, 0, End(rest, Not(blank)), c);
  }

  lemma FreeSlice(s: string, lo: nat, hi: nat, c: char)
    requires Free(s, c) && lo <= hi <= |s|
    ensures Free(s[lo..hi], c) && Free(s[lo..], c) && Free(s[..hi], c)
  {
  }

  /** `#!/bin/sh` with a Windows line end: the kernel looks for `/bin/sh\r`. */
  lemma {:induction false} WindowsLineDiffers()
    ensures KernelSplit("/bin/sh\r") == Some(("/bin/sh\r", None))
    ensures LibrarySplit("/bin/sh\r") == Some(("/bin/sh", None))
  {
    hide First, End, AfterBlanks, SplitLine, UpToNul;
    var line := "/bin/sh\r";
    SplitOfReads(line, "", line, "", "", "", KernelBlanks());
    SplitOfReads(line, "", "/bin/sh", "", "", "\r", Blanks());
    UpToNulOf(line, "");
    UpToNulOf("/bin/sh", "");
  }

  /** A NUL inside the first word: the kernel passes no argument, the library does. */
  lemma {:induction false} NulInLineDiffers()
    ensures KernelSplit("/bin/sh\0x -e") == Some(("/bin/sh", None))
    ensures LibrarySplit("/bin/sh\0x -e") == Some(("/bin/sh", Some("-e")))
  {
    hide First, End, AfterBlanks, SplitLine, UpToNul, Reads;
    var line, word := "/bin/sh\0x -e", "/bin/sh\0x";
    NulLineReads(KernelBlanks());
    NulLineReads(Blanks());
    SplitOfReads(line, "", word, " ", "-e", "", KernelBlanks());
    SplitOfReads(line, "", word, " ", "-e", "", Blanks());
    assert word == "/bin/sh" + [NUL] + "x" && word[7] == NUL;
    UpToNulOf("/bin/sh", "x");
  }

  lemma NulLineReads(blank: char -> bool)
    requires blank == KernelBlanks() || blank == Blanks()
    ensures Reads("/bin/sh\0x -e", "", "/bin/sh\0x", " ", "-e", "", blank)
  {
  }
}
