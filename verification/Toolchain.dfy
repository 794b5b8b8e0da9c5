/** Which libc builds are for, and the shell lines that say so (src/toolchain.rs). */
module Toolchain {
  import opened Text
  import opened Paths
  import opened Remap
  import opened Shell

  const GNU := "x86_64-zainium-linux-gnu"
  const MUSL := "x86_64-zainium-linux-musl"
  const ENV := "ZAINIUM_LIBC"
  const LINKER := "CARGO_TARGET_X86_64_UNKNOWN_LINUX_GNU_LINKER"

  datatype Libc = Musl | Glibc {
    function Name(): string {
      match this case Musl => "musl" case Glibc => "glibc"
    }
  }

  predicate IsSpace(c: char) {
    c == ' ' || '\t' as int <= c as int <= '\r' as int
  }

  function TrimStart(s: string): string {
    if s != "" && IsSpace(s[0]) then TrimStart(s[1..]) else s
  }

  function TrimEnd(s: string): string {
    if s != "" && IsSpace(s[|s| - 1]) then TrimEnd(s[..|s| - 1]) else s
  }

  function Parse(s: string): Option<Libc> {
    var name := TrimEnd(TrimStart(s));
    if name == "musl" then Some(Musl)
    else if name == "glibc" || name == "gnu" then Some(Glibc)
    else None
  }

  function SettingPath(r: Roots): string {
    PathJoin(r.syshub, "etc/sys-resolver/toolchain")
  }

  function GlibcDir(r: Roots): string {
    PathJoin(r.union, GNU)
  }

  /** What glibc calls a compiler driver of the base. */
  function GnuDriver(name: string): Option<string> {
    if name == "gcc" || name == "cc" then Some("gcc")
    else if name == "g++" || name == "c++" then Some("g++")
    else if name == "cpp" then Some("cpp")
    else None
  }

  function PkgConfigLibdir(r: Roots): string {
    GlibcDir(r) + "/lib/pkgconfig:" + GlibcDir(r) + "/share/pkgconfig"
  }

  /** `s.replace('\'', r"'\''")`. */
  function Escape(s: string): string {
    if s == "" then "" else (if s[0] == '\'' then "'\\''" else [s[0]]) + Escape(s[1..])
  }

  function Quote(s: string): string {
    "'" + Escape(s) + "'"
  }

  datatype Line = Export(name: string, value: string) | Unset(names: seq<string>) {
    function Print(): string {
      match this
      case Export(k, v) => "export " + (k + "=" + Quote(v))
      case Unset(ks) => "unset " + Join(ks, ' ')
    }

    predicate Valid() {
      match this
      case Export(k, v) => IsVarName(k)
      case Unset(ks) => ks != [] && forall i :: 0 <= i < |ks| ==> IsVarName(ks[i])
    }

    /** What the line is for. */
    function Apply(vars: Vars): Vars {
      match this
      case Export(k, v) => vars[k := v]
      case Unset(ks) => vars - (set k | k in ks)
    }

    function Words(): seq<string> {
      match this
      case Export(k, v) => ["export", k + "=" + v]
      case Unset(ks) => ["unset"] + ks
    }
  }

  function ApplyAll(lines: seq<Line>, vars: Vars): Vars {
    if lines == [] then vars else ApplyAll(lines[1..], lines[0].Apply(vars))
  }

  function Printed(lines: seq<Line>): seq<string> {
    seq(|lines|, i requires 0 <= i < |lines| => lines[i].Print())
  }

  function Script(lines: seq<Line>): string {
    Join(Printed(lines), '\n') + "\n"
  }

  lemma {:induction false} LexOrdinary(l: Lexer, s: string)
    requires l.mode == Plain && s != "" && forall j :: 0 <= j < |s| ==> IsOrdinary(s[j])
    ensures Lex(l, s) == l.Append(s)
    decreases |s|
  {
    if |s| > 1 {
      LexOrdinary(l.Append([s[0]]), s[1..]);
      assert l.SoFar() + [s[0]] + s[1..] == l.SoFar() + s;
    } else {
      assert s == [s[0]];
      LexChar(l, s[0]);
    }
  }

  lemma {:induction false} LexOne(l: Lexer, c: char)
    requires l.mode == Quoted && l.word.Some?
    ensures Lex(l, if c == '\'' then "'\\''" else [c]) == l.Append([c])
  {
    if c == '\'' {
      LexConcat(l, "'", "\\''");
      LexChar(l, '\'');
      var l1 := l.(mode := Plain);
      LexConcat(l1, "\\", "''");
      LexChar(l1, '\\');
      var l2 := l.(mode := Escaped);
      LexConcat(l2, "'", "'");
      LexChar(l2, '\'');
      LexChar(l.Append("'").(mode := Plain), '\'');
      assert l.SoFar() + "'" + "" == l.SoFar() + "'";
      assert "'" + ("\\" + ("'" + "'")) == "'\\''";
    } else {
      LexChar(l, c);
    }
  }

  lemma {:induction false} LexEscaped(l: Lexer, s: string)
    requires l.mode == Quoted && l.word.Some?
    ensures Lex(l, Escape(s)) == l.Append(s)
    decreases |s|
  {
    if s == "" {
      assert l.SoFar() + s == l.SoFar();
    } else {
      var first := if s[0] == '\'' then "'\\''" else [s[0]];
      LexConcat(l, first, Escape(s[1..]));
      LexOne(l, s[0]);
      LexEscaped(l.Append([s[0]]), s[1..]);
      assert l.SoFar() + [s[0]] + s[1..] == l.SoFar() + s;
    }
  }

  /** A quoted text is read back exactly, whatever it contains. */
  lemma {:induction false} LexQuoted(l: Lexer, s: string)
    requires l.mode == Plain && l.word.Some?
    ensures Lex(l, Quote(s)) == l.Append(s)
  {
    hide Lex, Escape;
    var open := l.(mode := Quoted);
    LexConcat(l, "'" + Escape(s), "'");
    LexConcat(l, "'", Escape(s));
    LexChar(l, '\'');
    assert l.SoFar() + "" == l.SoFar();
    LexEscaped(open, s);
    LexChar(open.Append(s), '\'');
  }

  /** A word and the blank after it. */
  lemma {:induction false} LexWord(l: Lexer, word: string)
    requires l.mode == Plain && l.word == None
    requires word != "" && forall j :: 0 <= j < |word| ==> IsOrdinary(word[j])
    ensures Lex(l, word + " ") == l.(words := l.words + [word])
  {
    hide Lex;
    LexConcat(l, word, " ");
    LexOrdinary(l, word);
    LexChar(l.Append(word), ' ');
    assert "" + word == word;
  }

  lemma {:induction false} LexNames(l: Lexer, names: seq<string>)
    requires l.mode == Plain && l.word == None && names != []
    requires forall i :: 0 <= i < |names| ==> IsVarName(names[i])
    ensures Lex(l, Join(names, ' ')).mode == Plain
    ensures Lex(l, Join(names, ' ')).EndWord() == l.(words := l.words + names)
    decreases |names|
  {
    hide Lex, Join;
    if |names| == 1 {
      assert Join(names, ' ') == names[0] by {
        JoinOne(names[0], ' ');
        assert names == [names[0]];
      }
      LexOrdinary(l, names[0]);
      assert l.words + names == l.words + [names[0]] && "" + names[0] == names[0];
    } else {
      var first, rest := names[0], names[1..];
      LexWord(l, first);
      LexNames(l.(words := l.words + [first]), rest);
      LexMore(l, l.(words := l.words + [first]), first, rest);
      assert names == [first] + rest && l.words + [first] + rest == l.words + names;
    }
  }

  lemma LexMore(l: Lexer, next: Lexer, first: string, rest: seq<string>)
    requires rest != [] && Lex(l, first + " ") == next
    ensures Lex(l, Join([first] + rest, ' ')) == Lex(next, Join(rest, ' '))
  {
    hide Lex, Join;
    JoinCons(first, rest, ' ');
    LexConcat(l, first + " ", Join(rest, ' '));
  }

  lemma {:induction false} LexExport(l: Lexer, k: string, v: string)
    requires l.mode == Plain && l.word == None && l.words == [] && IsVarName(k)
    ensures Lex(l, Export(k, v).Print()) == l.(words := ["export"]).Append(k + "=" + v)
  {
    hide Lex, Quote;
    LexWord(l, "export");
    assert "export" + " " == "export " && l.words + ["export"] == ["export"];
    var l1 := l.(words := ["export"]);
    LexConcat(l, "export ", k + "=" + Quote(v));
    LexAssignment(l1, k, v);
  }

  lemma {:induction false} LexAssignment(l: Lexer, k: string, v: string)
    requires l.mode == Plain && l.word == None && IsVarName(k)
    ensures Lex(l, k + "=" + Quote(v)) == l.Append(k + "=" + v)
  {
    hide Lex, Quote, IsVarName;
    LexConcat(l, k + "=", Quote(v));
    NameIsOrdinary(k);
    LexOrdinary(l, k + "=");
    LexQuoted(l.Append(k + "="), v);
    AppendTwice(l, k + "=", v);
  }

  lemma NameIsOrdinary(k: string)
    requires IsVarName(k)
    ensures forall j :: 0 <= j < |k + "="| ==> IsOrdinary((k + "=")[j])
  {
  }

  lemma AppendTwice(l: Lexer, a: string, b: string)
    ensures l.Append(a).Append(b) == l.Append(a + b)
  {
    assert l.SoFar() + a + b == l.SoFar() + (a + b);
  }

  /** One printed line reads as its words. */
  lemma {:induction false} LexLine(line: Line, commands: seq<seq<string>>)
    requires line.Valid()
    ensures var l := Lex(Lexer(Plain, None, [], commands), line.Print());
            l.mode == Plain && l.EndCommand() == Lexer(Plain, None, [], commands + [line.Words()])
  {
    hide Lex, Quote;
    var l := Lexer(Plain, None, [], commands);
    match line
    case Export(k, v) =>
      LexExport(l, k, v);
      assert "" + (k + "=" + v) == k + "=" + v;
      assert ["export"] + [k + "=" + v] == line.Words();
    case Unset(ks) =>
      LexWord(l, "unset");
      assert "unset" + " " == "unset " && l.words + ["unset"] == ["unset"];
      LexConcat(l, "unset ", Join(ks, ' '));
      LexNames(l.(words := ["unset"]), ks);
  }

  function AllWords(lines: seq<Line>): seq<seq<string>> {
    seq(|lines|, i requires 0 <= i < |lines| => lines[i].Words())
  }

  lemma {:induction false} LexLines(lines: seq<Line>, commands: seq<seq<string>>)
    requires lines != [] && forall i :: 0 <= i < |lines| ==> lines[i].Valid()
    ensures var l := Lex(Lexer(Plain, None, [], commands), Join(Printed(lines), '\n'));
            l.mode == Plain && l.EndCommand() == Lexer(Plain, None, [], commands + AllWords(lines))
    decreases |lines|
  {
    hide *;
    var line := lines[0].Print();
    LexLine(lines[0], commands);
    FirstLine(lines);
    if |lines| > 1 {
      var read := Lex(Lexer(Plain, None, [], commands), line);
      LexNewline(Lexer(Plain, None, [], commands), line, Join(Printed(lines[1..]), '\n'));
      LexLines(lines[1..], commands + [lines[0].Words()]);
      assert commands + [lines[0].Words()] + AllWords(lines[1..]) == commands + AllWords(lines);
    }
  }

  lemma FirstLine(lines: seq<Line>)
    requires lines != []
    ensures AllWords(lines) == [lines[0].Words()] + AllWords(lines[1..])
    ensures |lines| == 1 ==> AllWords(lines) == [lines[0].Words()]
    ensures Join(Printed(lines), '\n') ==
            if |lines| == 1 then lines[0].Print()
            else lines[0].Print() + "\n" + Join(Printed(lines[1..]), '\n')
  {
    hide Join;
    assert Printed(lines) == [lines[0].Print()] + Printed(lines[1..]);
    if |lines| == 1 {
      assert Printed(lines) == [lines[0].Print()];
      JoinOne(lines[0].Print(), '\n');
    } else {
      assert ['\n'] == "\n";
      JoinCons(lines[0].Print(), Printed(lines[1..]), '\n');
    }
  }

  /** A newline after a line that ends outside quotes ends its command. */
  lemma LexNewline(l: Lexer, line: string, rest: string)
    requires Lex(l, line).mode == Plain
    ensures Lex(l, line + "\n" + rest) == Lex(Lex(l, line).EndCommand(), rest)
  {
    hide Lex;
    LexConcat(l, line + "\n", rest);
    LexConcat(l, line, "\n");
    LexChar(Lex(l, line), '\n');
  }

  lemma {:induction false} RunLine(line: Line, vars: Vars)
    requires line.Valid()
    ensures Run(line.Words(), vars) == Some(line.Apply(vars))
  {
    match line
    case Export(k, v) =>
      IndexOfAt(k, '=', v);
      var w := k + "=" + v;
      assert w == k + ['='] + v;
      assert w[..|k|] == k && w[|k| + 1..] == v;
    case Unset(ks) =>
      assert line.Words()[1..] == ks;
  }

  lemma {:induction false} RunLines(lines: seq<Line>, vars: Vars)
    requires forall i :: 0 <= i < |lines| ==> lines[i].Valid()
    ensures RunAll(AllWords(lines), vars) == Some(ApplyAll(lines, vars))
    decreases |lines|
  {
    if lines != [] {
      RunLine(lines[0], vars);
      assert AllWords(lines)[1..] == AllWords(lines[1..]);
      RunLines(lines[1..], lines[0].Apply(vars));
    }
  }

  /** Evaluating a printed script does what its lines are for, with or without the final newline
      that `$(...)` drops. */
  lemma {:induction false} ScriptMeans(lines: seq<Line>, vars: Vars)
    requires lines != [] && forall i :: 0 <= i < |lines| ==> lines[i].Valid()
    ensures Evaluate(Script(lines), vars) == Some(ApplyAll(lines, vars))
    ensures Evaluate(Join(Printed(lines), '\n'), vars) == Some(ApplyAll(lines, vars))
  {
    LexLines(lines, []);
    RunLines(lines, vars);
    assert [] + AllWords(lines) == AllWords(lines);
    FinalNewline(Join(Printed(lines), '\n'), vars);
  }

  function EnvLines(r: Roots, libc: Libc): seq<Line> {
    match libc
    case Glibc => [
      Export(ENV, "glibc"), Export("CHOST", GNU), Export("CC", GNU + "-gcc"), Export("CXX", GNU + "-g++"),
      Export("CPP", GNU + "-gcc -E"), Export("PKG_CONFIG_LIBDIR", PkgConfigLibdir(r)),
      Export(LINKER, GNU + "-gcc"), Unset(["PKG_CONFIG_PATH"]), Unset(["LDFLAGS"])]
    case Musl => [
      Export(ENV, "musl"), Export("CHOST", MUSL), Export("CC", MUSL + "-gcc"), Export("CXX", MUSL + "-g++"),
      Export("CPP", MUSL + "-gcc -E"), Unset(["PKG_CONFIG_LIBDIR", LINKER])]
  }

  /** The variables a build for `libc` is meant to see. */
  function Intended(r: Roots, libc: Libc, vars: Vars): Vars {
    match libc
    case Glibc =>
      (vars + map[ENV := "glibc", "CHOST" := GNU, "CC" := GNU + "-gcc", "CXX" := GNU + "-g++",
                  "CPP" := GNU + "-gcc -E", "PKG_CONFIG_LIBDIR" := PkgConfigLibdir(r), LINKER := GNU + "-gcc"])
      - {"PKG_CONFIG_PATH", "LDFLAGS"}
    case Musl =>
      (vars + map[ENV := "musl", "CHOST" := MUSL, "CC" := MUSL + "-gcc", "CXX" := MUSL + "-g++",
                  "CPP" := MUSL + "-gcc -E"])
      - {"PKG_CONFIG_LIBDIR", LINKER}
  }

  /** `eval "$(sys-resolver env ...)"` reads the text without its final newline. */
  function WithoutFinalNewline(text: string): string {
    if text != "" && text[|text| - 1] == '\n' then WithoutFinalNewline(text[..|text| - 1]) else text
  }

  /** The script of one libc, pushed line by line. */
  method Env(r: Roots, libc: Libc) returns (text: string)
    ensures forall vars :: Evaluate(text, vars) == Some(Intended(r, libc, vars))
    ensures forall vars :: Evaluate(WithoutFinalNewline(text), vars) == Some(Intended(r, libc, vars))
  {
    var out: seq<string>;
    if libc == Glibc {
      out := GlibcLines(r);
    } else {
      out := MuslLines(r);
    }
    text := Join(out, '\n') + "\n";
    forall vars ensures
        && Evaluate(text, vars) == Some(Intended(r, libc, vars))
        && Evaluate(WithoutFinalNewline(text), vars) == Some(Intended(r, libc, vars)) {
      EnvMeans(r, libc, vars);
    }
  }

  method GlibcLines(r: Roots) returns (out: seq<string>)
    ensures out == Printed(EnvLines(r, Glibc))
  {
    hide Quote, PkgConfigLibdir, Join;
    ghost var lines: seq<Line>;
    out, lines := PushExport([], [], ENV, "glibc");
    out, lines := PushExport(out, lines, "CHOST", GNU);
    out, lines := PushExport(out, lines, "CC", GNU + "-gcc");
    out, lines := PushExport(out, lines, "CXX", GNU + "-g++");
    out, lines := PushExport(out, lines, "CPP", GNU + "-gcc -E");
    out, lines := PushExport(out, lines, "PKG_CONFIG_LIBDIR", PkgConfigLibdir(r));
    out, lines := PushExport(out, lines, LINKER, GNU + "-gcc");
    out, lines := PushUnset(out, lines, ["PKG_CONFIG_PATH"]);
    out, lines := PushUnset(out, lines, ["LDFLAGS"]);
    assert lines == EnvLines(r, Glibc);
  }

  method MuslLines(r: Roots) returns (out: seq<string>)
    ensures out == Printed(EnvLines(r, Musl))
  {
    hide Quote, Join;
    ghost var lines: seq<Line>;
    out, lines := PushExport([], [], ENV, "musl");
    out, lines := PushExport(out, lines, "CHOST", MUSL);
    out, lines := PushExport(out, lines, "CC", MUSL + "-gcc");
    out, lines := PushExport(out, lines, "CXX", MUSL + "-g++");
    out, lines := PushExport(out, lines, "CPP", MUSL + "-gcc -E");
    out, lines := PushUnset(out, lines, ["PKG_CONFIG_LIBDIR", LINKER]);
    assert lines == EnvLines(r, Musl);
  }

  method PushExport(out: seq<string>, ghost lines: seq<Line>, key: string, value: string)
    returns (longer: seq<string>, ghost more: seq<Line>)
    requires out == Printed(lines)
    ensures more == lines + [Export(key, value)] && longer == Printed(more)
  {
    longer, more := out + ["export " + (key + "=" + Quote(value))], lines + [Export(key, value)];
  }

  method PushUnset(out: seq<string>, ghost lines: seq<Line>, names: seq<string>)
    returns (longer: seq<string>, ghost more: seq<Line>)
    requires out == Printed(lines)
    ensures more == lines + [Unset(names)] && longer == Printed(more)
  {
    longer, more := out + ["unset " + Join(names, ' ')], lines + [Unset(names)];
  }

  lemma NamesValid()
    ensures IsVarName(ENV) && IsVarName("CHOST") && IsVarName("CC") && IsVarName("CXX") && IsVarName("CPP")
    ensures IsVarName("PKG_CONFIG_LIBDIR") && IsVarName("PKG_CONFIG_PATH") && IsVarName("LDFLAGS")
  {
  }

  lemma LinkerValid()
    ensures IsVarName(LINKER)
  {
  }

  lemma EnvLinesValid(r: Roots, libc: Libc)
    ensures forall i :: 0 <= i < |EnvLines(r, libc)| ==> EnvLines(r, libc)[i].Valid()
  {
    NamesValid();
    LinkerValid();
    hide IsVarName;
  }

  lemma EndsOnAName(lines: seq<Line>)
    requires lines != [] && lines[|lines| - 1].Unset? && lines[|lines| - 1].Valid()
    ensures WithoutFinalNewline(Script(lines)) == Join(Printed(lines), '\n')
  {
    var text := Join(Printed(lines), '\n');
    var names := lines[|lines| - 1].names;
    assert Printed(lines)[|lines| - 1] == lines[|lines| - 1].Print();
    assert IsVarName(names[|names| - 1]);
    LastOfJoin(names, ' ');
    LastOfJoin(Printed(lines), '\n');
    assert Script(lines)[..|text|] == text;
    assert WithoutFinalNewline(text) == text;
  }

  lemma {:induction false} LastOfJoin(parts: seq<string>, c: char)
    requires parts != [] && parts[|parts| - 1] != ""
    ensures var text := Join(parts, c);
            var last := parts[|parts| - 1];
            text != "" && text[|text| - 1] == last[|last| - 1]
  {
    if |parts| > 1 {
      LastOfJoin(parts[1..], c);
    }
  }

  /** Evaluating the script of `libc` sets exactly the intended variables to the intended values. */
  lemma {:induction false} EnvMeans(r: Roots, libc: Libc, vars: Vars)
    ensures Evaluate(Script(EnvLines(r, libc)), vars) == Some(Intended(r, libc, vars))
    ensures Evaluate(WithoutFinalNewline(Script(EnvLines(r, libc))), vars) == Some(Intended(r, libc, vars))
  {
    hide Evaluate, Script, Printed, PkgConfigLibdir, IsVarName;
    EnvLinesValid(r, libc);
    ScriptMeans(EnvLines(r, libc), vars);
    if libc == Glibc {
      GlibcApplied(r, vars);
    } else {
      MuslApplied(r, vars);
    }
    EndsOnAName(EnvLines(r, libc));
  }

  lemma ApplyFrom(lines: seq<Line>, i: nat, vars: Vars)
    requires i < |lines|
    ensures ApplyAll(lines[i..], vars) == ApplyAll(lines[i + 1..], lines[i].Apply(vars))
  {
  }

  lemma ExportAdds(lines: seq<Line>, i: nat, vars: Vars, m: Vars)
    requires i < |lines| && lines[i].Export?
    ensures ApplyAll(lines[i..], vars + m) == ApplyAll(lines[i + 1..], vars + m[lines[i].name := lines[i].value])
  {
    ApplyFrom(lines, i, vars + m);
    assert (vars + m)[lines[i].name := lines[i].value] == vars + m[lines[i].name := lines[i].value];
  }

  lemma NothingLeft(lines: seq<Line>, vars: Vars)
    ensures ApplyAll(lines[|lines|..], vars) == vars
    ensures lines[0..] == lines && vars + map[] == vars
  {
  }

  lemma {:induction false} GlibcApplied(r: Roots, vars: Vars)
    ensures ApplyAll(EnvLines(r, Glibc), vars) == Intended(r, Glibc, vars)
  {
    hide PkgConfigLibdir, ApplyAll;
    var ls := EnvLines(r, Glibc);
    var m := map[ENV := "glibc", "CHOST" := GNU, "CC" := GNU + "-gcc", "CXX" := GNU + "-g++"];
    NothingLeft(ls, vars);
    ExportAdds(ls, 0, vars, map[]);
    ExportAdds(ls, 1, vars, map[ENV := "glibc"]);
    ExportAdds(ls, 2, vars, map[ENV := "glibc", "CHOST" := GNU]);
    ExportAdds(ls, 3, vars, map[ENV := "glibc", "CHOST" := GNU, "CC" := GNU + "-gcc"]);
    ExportAdds(ls, 4, vars, m);
    ExportAdds(ls, 5, vars, m["CPP" := GNU + "-gcc -E"]);
    ExportAdds(ls, 6, vars, m["CPP" := GNU + "-gcc -E"]["PKG_CONFIG_LIBDIR" := PkgConfigLibdir(r)]);
    var v := vars + m["CPP" := GNU + "-gcc -E"]["PKG_CONFIG_LIBDIR" := PkgConfigLibdir(r)][LINKER := GNU + "-gcc"];
    ApplyFrom(ls, 7, v);
    ApplyFrom(ls, 8, ls[7].Apply(v));
    NothingLeft(ls, ls[8].Apply(ls[7].Apply(v)));
    OneName("PKG_CONFIG_PATH");
    OneName("LDFLAGS");
    assert v - {"PKG_CONFIG_PATH"} - {"LDFLAGS"} == v - {"PKG_CONFIG_PATH", "LDFLAGS"};
  }

  lemma {:induction false} MuslApplied(r: Roots, vars: Vars)
    ensures ApplyAll(EnvLines(r, Musl), vars) == Intended(r, Musl, vars)
  {
    hide ApplyAll;
    var ls := EnvLines(r, Musl);
    var m := map[ENV := "musl", "CHOST" := MUSL, "CC" := MUSL + "-gcc", "CXX" := MUSL + "-g++"];
    NothingLeft(ls, vars);
    ExportAdds(ls, 0, vars, map[]);
    ExportAdds(ls, 1, vars, map[ENV := "musl"]);
    ExportAdds(ls, 2, vars, map[ENV := "musl", "CHOST" := MUSL]);
    ExportAdds(ls, 3, vars, map[ENV := "musl", "CHOST" := MUSL, "CC" := MUSL + "-gcc"]);
    ExportAdds(ls, 4, vars, m);
    var v := vars + m["CPP" := MUSL + "-gcc -E"];
    ApplyFrom(ls, 5, v);
    NothingLeft(ls, ls[5].Apply(v));
    assert (set k | k in ["PKG_CONFIG_LIBDIR", LINKER]) == {"PKG_CONFIG_LIBDIR", LINKER};
  }

  lemma OneName(k: string)
    ensures (set x | x in [k]) == {k}
  {
  }

  /** A variable has the same value in both, or is unset in both. */
  predicate SetAlike(a: Vars, b: Vars, k: string) {
    (k in a && k in b && a[k] == b[k]) || (k !in a && k !in b)
  }

  /** glibc's script, value by value. */
  lemma {:induction false} GlibcBuildSees(r: Roots, vars: Vars)
    ensures Evaluate(Script(EnvLines(r, Glibc)), vars).Some?
    ensures var after := Evaluate(Script(EnvLines(r, Glibc)), vars).value;
            && after.Keys >= {"ZAINIUM_LIBC", "CHOST", "CC", "CXX", "CPP", "PKG_CONFIG_LIBDIR", LINKER}
            && after["ZAINIUM_LIBC"] == "glibc" && after["CHOST"] == "x86_64-zainium-linux-gnu"
            && after["CC"] == after[LINKER] == "x86_64-zainium-linux-gnu-gcc"
            && after["CXX"] == "x86_64-zainium-linux-gnu-g++" && after["CPP"] == "x86_64-zainium-linux-gnu-gcc -E"
            && after["PKG_CONFIG_LIBDIR"] == PkgConfigLibdir(r)
            && "PKG_CONFIG_PATH" !in after && "LDFLAGS" !in after
            && forall k :: SetAlike(after, vars, k)
                           || k in {"ZAINIUM_LIBC", "CHOST", "CC", "CXX", "CPP", "PKG_CONFIG_LIBDIR", LINKER,
                                    "PKG_CONFIG_PATH", "LDFLAGS"}
    ensures LINKER == "CARGO_TARGET_X86_64_UNKNOWN_LINUX_GNU_LINKER"
  {
    hide Evaluate, Script;
    EnvMeans(r, Glibc, vars);
    assert GNU + "-gcc" == "x86_64-zainium-linux-gnu-gcc" && GNU + "-g++" == "x86_64-zainium-linux-gnu-g++";
    assert GNU + "-gcc -E" == "x86_64-zainium-linux-gnu-gcc -E";
  }

  /** musl's. */
  lemma {:induction false} MuslBuildSees(r: Roots, vars: Vars)
    ensures Evaluate(Script(EnvLines(r, Musl)), vars).Some?
    ensures var after := Evaluate(Script(EnvLines(r, Musl)), vars).value;
            && after.Keys >= {"ZAINIUM_LIBC", "CHOST", "CC", "CXX", "CPP"}
            && after["ZAINIUM_LIBC"] == "musl" && after["CHOST"] == "x86_64-zainium-linux-musl"
            && after["CC"] == "x86_64-zainium-linux-musl-gcc" && after["CXX"] == "x86_64-zainium-linux-musl-g++"
            && after["CPP"] == "x86_64-zainium-linux-musl-gcc -E"
            && "PKG_CONFIG_LIBDIR" !in after && LINKER !in after
            && forall k :: SetAlike(after, vars, k)
                           || k in {"ZAINIUM_LIBC", "CHOST", "CC", "CXX", "CPP", "PKG_CONFIG_LIBDIR", LINKER}
  {
    hide Evaluate, Script;
    EnvMeans(r, Musl, vars);
    assert MUSL + "-gcc" == "x86_64-zainium-linux-musl-gcc" && MUSL + "-g++" == "x86_64-zainium-linux-musl-g++";
    assert MUSL + "-gcc -E" == "x86_64-zainium-linux-musl-gcc -E";
  }

  lemma IntendedUndone(r: Roots, vars: Vars, k: string)
    ensures var after := Intended(r, Musl, Intended(r, Glibc, vars));
            var alone := Intended(r, Musl, vars);
            SetAlike(after, alone, k) <==> (k != "PKG_CONFIG_PATH" && k != "LDFLAGS") || k !in vars
  {
    hide PkgConfigLibdir;
    if k in vars && k in {"PKG_CONFIG_PATH", "LDFLAGS"} {
      assert k in Intended(r, Musl, vars) && k !in Intended(r, Musl, Intended(r, Glibc, vars));
    }
  }

  /** Evaluating glibc's script and then musl's ends as musl's alone does, on exactly the variables
      other than the two glibc's unsets, or unset before. */
  lemma {:induction false} MuslAfterGlibc(r: Roots, vars: Vars, k: string)
    ensures var glibc, musl := Script(EnvLines(r, Glibc)), Script(EnvLines(r, Musl));
            && Evaluate(glibc, vars).Some? && Evaluate(musl, vars).Some?
            && Evaluate(musl, Evaluate(glibc, vars).value).Some?
            && var after := Evaluate(musl, Evaluate(glibc, vars).value).value;
               var alone := Evaluate(musl, vars).value;
               (SetAlike(after, alone, k) <==> (k != "PKG_CONFIG_PATH" && k != "LDFLAGS") || k !in vars)
  {
    hide Evaluate, Script;
    EnvMeans(r, Glibc, vars);
    EnvMeans(r, Musl, vars);
    EnvMeans(r, Musl, Intended(r, Glibc, vars));
    IntendedUndone(r, vars, k);
  }

  // What is taken for a libc's name.

  predicate IsBlank(s: string) {
    forall i :: 0 <= i < |s| ==> s[i] in " \t\n\U{0b}\U{0c}\r"
  }

  ghost predicate Padded(s: string, front: string, name: string, back: string) {
    s == front + name + back && IsBlank(front) && IsBlank(back)
  }

  /** Nothing but `name` and blanks around it. */
  ghost predicate Says(s: string, name: string) {
    exists front, back :: Padded(s, front, name, back)
  }

  lemma {:induction false} StartTrimmed(s: string) returns (front: string)
    ensures s == front + TrimStart(s) && IsBlank(front)
    ensures TrimStart(s) != "" ==> !IsSpace(TrimStart(s)[0])
  {
    if s != "" && IsSpace(s[0]) {
      front := StartTrimmed(s[1..]);
      front := [s[0]] + front;
    } else {
      front := "";
    }
  }

  lemma {:induction false} EndTrimmed(s: string) returns (back: string)
    ensures s == TrimEnd(s) + back && IsBlank(back)
  {
    if s != "" && IsSpace(s[|s| - 1]) {
      back := EndTrimmed(s[..|s| - 1]);
      back := back + [s[|s| - 1]];
    } else {
      back := "";
    }
  }

  lemma {:induction false} TrimsFront(front: string, rest: string)
    requires IsBlank(front) && rest != "" && !IsSpace(rest[0])
    ensures TrimStart(front + rest) == rest
    decreases |front|
  {
    if front == "" {
      assert front + rest == rest;
    } else {
      assert (front + rest)[1..] == front[1..] + rest;
      TrimsFront(front[1..], rest);
    }
  }

  lemma {:induction false} TrimsBack(name: string, back: string)
    requires IsBlank(back) && name != "" && !IsSpace(name[|name| - 1])
    ensures TrimEnd(name + back) == name
    decreases |back|
  {
    if back == "" {
      assert name + back == name;
    } else {
      assert (name + back)[..|name + back| - 1] == name + back[..|back| - 1];
      TrimsBack(name, back[..|back| - 1]);
    }
  }

  lemma {:induction false} TrimmedIff(s: string, name: string)
    requires name != "" && !IsSpace(name[0]) && !IsSpace(name[|name| - 1])
    ensures TrimEnd(TrimStart(s)) == name <==> Says(s, name)
  {
    var front := StartTrimmed(s);
    var back := EndTrimmed(TrimStart(s));
    if TrimEnd(TrimStart(s)) == name {
      assert s == front + name + back;
      assert Padded(s, front, name, back);
    }
    if f, b :| Padded(s, f, name, b) {
      assert s == f + (name + b);
      TrimsFront(f, name + b);
      TrimsBack(name, b);
    }
  }

  /** A text names a libc exactly when it holds one of its names and blanks around it. */
  lemma {:induction false} ParseIff(s: string)
    ensures Parse(s) == Some(Musl) <==> Says(s, "musl")
    ensures Parse(s) == Some(Glibc) <==> Says(s, "glibc") || Says(s, "gnu")
  {
    hide TrimStart, TrimEnd, Says;
    TrimmedIff(s, "musl");
    TrimmedIff(s, "glibc");
    TrimmedIff(s, "gnu");
    assert |"musl"| == 4 && |"glibc"| == 5 && |"gnu"| == 3;
  }

  /** The name written to the setting file, newline included, is read back. */
  lemma {:induction false} SettingReadsBack(libc: Libc)
    ensures Parse(libc.Name() + "\n") == Some(libc)
  {
    var name := libc.Name();
    var s := name + "\n";
    assert TrimStart(s) == s;
    assert s[..|s| - 1] == name;
    assert TrimEnd(name) == name;
  }
}
