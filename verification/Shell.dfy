/** Word evaluation of the POSIX shell: enough of sections 2.2.1 (escape character) and 2.2.2
    (single-quotes) of POSIX.1-2017 XCU, with `export` and `unset`. Any other special character
    outside quotes makes the script unreadable here. */
module Shell {
  import opened Text

  type Vars = map<string, string>

  datatype Mode = Plain | Quoted | Escaped | Broken

  datatype Lexer = Lexer(mode: Mode, word: Option<string>, words: seq<string>, commands: seq<seq<string>>) {
    function SoFar(): string {
      match word case Some(w) => w case None => ""
    }

    function Append(s: string): Lexer {
      this.(word := Some(SoFar() + s))
    }

    function EndWord(): Lexer {
      match word case Some(w) => this.(word := None, words := words + [w]) case None => this
    }

    function EndCommand(): Lexer {
      var l := EndWord();
      if l.words == [] then l else l.(words := [], commands := l.commands + [l.words])
    }
  }

  predicate IsSpecial(c: char) {
    c in "\"$`;&|<>()*?[]#~!{}" || c == NUL
  }

  predicate IsOrdinary(c: char) {
    !IsSpecial(c) && c !in " \t\n'\\"
  }

  function Step(l: Lexer, c: char): Lexer {
    match l.mode
    case Broken => l
    case Quoted => if c == '\'' then l.(mode := Plain) else l.Append([c])
    case Escaped => if c == '\n' then l.(mode := Plain) else l.Append([c]).(mode := Plain)
    case Plain =>
      if c == '\'' then l.Append("").(mode := Quoted)
      else if c == '\\' then l.(mode := Escaped)
      else if c == '\n' then l.EndCommand()
      else if c == ' ' || c == '\t' then l.EndWord()
      else if IsSpecial(c) then l.(mode := Broken)
      else l.Append([c])
  }

  function Lex(l: Lexer, text: string): Lexer
    decreases |text|
  {
    if text == "" then l else Lex(Step(l, text[0]), text[1..])
  }

  const START := Lexer(Plain, None, [], [])

  /** The words of each command, or nothing when the text ends inside a quote. */
  function Commands(text: string): Option<seq<seq<string>>> {
    var l := Lex(START, text);
    if l.mode == Plain then Some(l.EndCommand().commands) else None
  }

  predicate IsVarName(s: string) {
    s != "" && forall j :: 0 <= j < |s| ==> ('A' <= s[j] <= 'Z' || '0' <= s[j] <= '9' || s[j] == '_')
  }

  function Run(command: seq<string>, vars: Vars): Option<Vars> {
    if command == [] then None
    else if command[0] == "export" && |command| == 2 then
      var i := IndexOf(command[1], '=');
      if i < |command[1]| && IsVarName(command[1][..i]) then
        Some(vars[command[1][..i] := command[1][i + 1..]])
      else None
    else if command[0] == "unset" && forall k :: k in command[1..] ==> IsVarName(k) then
      Some(vars - (set k | k in command[1..]))
    else None
  }

  function RunAll(commands: seq<seq<string>>, vars: Vars): Option<Vars> {
    if commands == [] then Some(vars)
    else
      match Run(commands[0], vars)
      case None => None
      case Some(v) => RunAll(commands[1..], v)
  }

  function Evaluate(text: string, vars: Vars): Option<Vars> {
    match Commands(text)
    case None => None
    case Some(cs) => RunAll(cs, vars)
  }

  lemma {:induction false} LexConcat(l: Lexer, a: string, b: string)
    ensures Lex(l, a + b) == Lex(Lex(l, a), b)
    decreases |a|
  {
    if a == "" {
      assert a + b == b;
    } else {
      assert (a + b)[1..] == a[1..] + b;
      LexConcat(Step(l, a[0]), a[1..], b);
    }
  }

  lemma {:induction false} RunAllConcat(a: seq<seq<string>>, b: seq<seq<string>>, vars: Vars)
    ensures RunAll(a + b, vars) ==
            match RunAll(a, vars) case Some(v) => RunAll(b, v) case None => None
  {
    if a == [] {
      assert a + b == b;
    } else {
      assert (a + b)[1..] == a[1..] + b;
      match Run(a[0], vars)
      case None =>
      case Some(v) => RunAllConcat(a[1..], b, v);
    }
  }

  /** A final newline changes nothing for a text that ends outside quotes. */
  lemma {:induction false} FinalNewline(text: string, vars: Vars)
    requires Lex(START, text).mode == Plain
    ensures Evaluate(text + "\n", vars) == Evaluate(text, vars)
  {
    LexConcat(START, text, "\n");
    LexChar(Lex(START, text), '\n');
  }

  lemma LexChar(l: Lexer, c: char)
    ensures Lex(l, [c]) == Step(l, c)
  {
  }
}
