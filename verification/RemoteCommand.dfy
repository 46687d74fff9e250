/**
 The command line sent to the guest's shell (internal/commands/vm_run.go:15-60), against token
 recognition and quote removal of the Shell Command Language volume of POSIX.1-2017: the escape
 character (2.2.1), single quotes (2.2.2) and blanks and operators (2.3).
 */
module RemoteCommand {
  import opened Wrappers

  // ---------------------------------------------------------------- the builder

  /** strings.ReplaceAll(s, "'", `'\''`) */
  function Escape(s: string): string {
    if s == "" then "" else (if s[0] == '\'' then "'\\''" else [s[0]]) + Escape(s[1..])
  }

  function ShellQuote(s: string): string {
    "'" + Escape(s) + "'"
  }

  /** strings.Join(words, " ") */
  function JoinBlank(words: seq<string>): string {
    if words == [] then "" else if |words| == 1 then words[0] else words[0] + " " + JoinBlank(words[1..])
  }

  // ---------------------------------------------------------------- the shell's lexer

  /** Words are given after quote removal. */
  datatype Token = Word(text: string) | AndIf

  predicate Blank(c: char) {
    c == ' ' || c == '\t'
  }

  /** Characters that, unquoted, mean something this lexer does not follow. */
  predicate Meta(c: char) {
    c in "|;<>()$`\"\n*?[#~=%{}!&"
  }

  function Flush(word: Option<string>): seq<Token> {
    if word == None then [] else [Word(word.value)]
  }

  function Text(word: Option<string>): string {
    if word == None then "" else word.value
  }

  function Prepend(tokens: seq<Token>, rest: Option<seq<Token>>): Option<seq<Token>> {
    if rest == None then None else Some(tokens + rest.value)
  }

  /** Outside quotes; `word` is the word being built, None between words. */
  function Lex(s: string, word: Option<string>): Option<seq<Token>>
    decreases |s|
  {
    if s == "" then Some(Flush(word))
    else if s[0] == '\'' then LexQuoted(s[1..], Text(word))
    else if s[0] == '\\' then
      if |s| < 2 then None
      else if s[1] == '\n' then Lex(s[2..], word)
      else Lex(s[2..], Some(Text(word) + [s[1]]))
    else if Blank(s[0]) then Prepend(Flush(word), Lex(s[1..], None))
    else if s[0] == '&' && |s| >= 2 && s[1] == '&' then Prepend(Flush(word) + [AndIf], Lex(s[2..], None))
    else if Meta(s[0]) then None
    else Lex(s[1..], Some(Text(word) + [s[0]]))
  }

  /** Inside single quotes, up to the closing one. */
  function LexQuoted(s: string, text: string): Option<seq<Token>>
    decreases |s|
  {
    if s == "" then None
    else if s[0] == '\'' then Lex(s[1..], Some(text))
    else LexQuoted(s[1..], text + [s[0]])
  }

  // ---------------------------------------------------------------- the round trip

  /** Every quote is replaced by four characters, and nothing else is. */
  lemma {:induction false} EscapeLaws(a: string, b: string)
    ensures Escape(a + b) == Escape(a) + Escape(b)
    ensures Escape("'") == ['\'', '\\', '\'', '\'']
    ensures '\'' !in a ==> Escape(a) == a
    decreases |a|
  {
    assert "'"[1..] == "";
    if a == "" {
      assert a + b == b;
    } else {
      assert (a + b)[1..] == a[1..] + b && a[0] in a && a == [a[0]] + a[1..];
      EscapeLaws(a[1..], b);
    }
  }

  /** POSIX 2.2.1 and 2.2.2: a quoted text without quotes stands for itself, an escaped quote for a quote. */
  lemma {:induction false} LexQuotes(w: string, rest: string, word: Option<string>)
    ensures '\'' !in w ==> Lex("'" + w + "'" + rest, word) == Lex(rest, Some(Text(word) + w))
    ensures Lex(['\\', '\''] + rest, word) == Lex(rest, Some(Text(word) + "'"))
  {
    if '\'' !in w {
      EscapeLaws(w, "");
      LexShellQuote(w, rest, word);
    }
    assert (['\\', '\''] + rest)[2..] == rest;
  }

  lemma {:induction false} LexEscaped(w: string, rest: string, text: string)
    ensures LexQuoted(Escape(w) + ("'" + rest), text) == Lex(rest, Some(text + w))
    decreases |w|
  {
    var s := Escape(w) + ("'" + rest);
    if w == "" {
      assert s == "'" + rest;
      assert s[1..] == rest && text + w == text;
    } else {
      var tail := Escape(w[1..]) + ("'" + rest);
      assert text + w == text + [w[0]] + w[1..];
      LexEscaped(w[1..], rest, text + [w[0]]);
      if w[0] == '\'' {
        assert s == "'\\''" + tail;
        LexEscapedQuote(tail, text);
      } else {
        assert s == [w[0]] + tail && s[1..] == tail;
      }
    }
  }

  /** Closing the quotes, an escaped quote, opening them again: one quote, and inside quotes as before. */
  lemma LexEscapedQuote(tail: string, text: string)
    ensures LexQuoted("'\\''" + tail, text) == LexQuoted(tail, text + ['\''])
  {
    var s, s1 := "'\\''" + tail, "\\''" + tail;
    assert s[1..] == s1 && s[0] == '\'';
    assert s1[2..] == "'" + tail && s1[0] == '\\' && s1[1] == '\'';
    assert ("'" + tail)[1..] == tail;
    assert Lex(s1, Some(text)) == Lex("'" + tail, Some(text + ['\'']));
  }

  /** A quoted word is read as just that text, appended to the word it adjoins. */
  lemma {:induction false} LexShellQuote(w: string, rest: string, word: Option<string>)
    ensures Lex(ShellQuote(w) + rest, word) == Lex(rest, Some(Text(word) + w))
  {
    var s := ShellQuote(w) + rest;
    assert s[0] == '\'' && s[1..] == Escape(w) + ("'" + rest);
    LexEscaped(w, rest, Text(word));
  }

  lemma LexBlank(rest: string, word: Option<string>)
    ensures Lex(" " + rest, word) == Prepend(Flush(word), Lex(rest, None))
  {
    assert (" " + rest)[1..] == rest;
  }

  lemma LexAndIf(rest: string, word: Option<string>)
    ensures Lex("&&" + rest, word) == Prepend(Flush(word) + [AndIf], Lex(rest, None))
  {
    assert ("&&" + rest)[2..] == rest;
  }

  lemma LexPlain(c: char, rest: string, word: Option<string>)
    requires c != '\'' && c != '\\' && !Blank(c) && !Meta(c)
    ensures Lex([c] + rest, word) == Lex(rest, Some(Text(word) + [c]))
  {
    assert ([c] + rest)[1..] == rest;
  }

  function Words(texts: seq<string>): seq<Token> {
    if texts == [] then [] else [Word(texts[0])] + Words(texts[1..])
  }

  function Quoted(words: seq<string>): (quoted: seq<string>)
    ensures |quoted| == |words|
  {
    if words == [] then [] else [ShellQuote(words[0])] + Quoted(words[1..])
  }

  /** Any list of strings, quoted and joined by blanks, is read back as exactly that list of words. */
  lemma {:induction false} LexWords(words: seq<string>)
    ensures Lex(JoinBlank(Quoted(words)), None) == Some(Words(words))
    decreases |words|
  {
    if words != [] {
      var w := words[0];
      assert Text(None) + w == w;
      if |words| == 1 {
        assert ShellQuote(w) + "" == ShellQuote(w) == JoinBlank(Quoted(words));
        LexShellQuote(w, "", None);
        assert Words(words) == [Word(w)] + Words(words[1..]) == [Word(w)];
        assert Lex("", Some(w)) == Some(Flush(Some(w)));
      } else {
        var more := JoinBlank(Quoted(words[1..]));
        assert Quoted(words)[1..] == Quoted(words[1..]);
        assert JoinBlank(Quoted(words)) == ShellQuote(w) + (" " + more);
        LexShellQuote(w, " " + more, None);
        LexBlank(more, Some(w));
        LexWords(words[1..]);
      }
    }
  }

  function RemoteCmd(workDir: string, command: seq<string>): string {
    "cd " + ShellQuote("/mnt/host" + workDir) + if command == [] then "" else " && " + JoinBlank(Quoted(command))
  }

  /** The shell sees a cd into the mounted directory and, if that works, the command with its arguments. */
  lemma {:induction false} LexRemoteCmd(workDir: string, command: seq<string>)
    ensures Lex(RemoteCmd(workDir, command), None) ==
            Some([Word("cd"), Word("/mnt/host" + workDir)] + if command == [] then [] else [AndIf] + Words(command))
  {
    var dir := "/mnt/host" + workDir;
    var tail := if command == [] then "" else " && " + JoinBlank(Quoted(command));
    assert RemoteCmd(workDir, command) == "cd " + (ShellQuote(dir) + tail);
    LexCd(ShellQuote(dir) + tail);
    LexShellQuote(dir, tail, None);
    assert Text(None) + dir == dir;
    LexTail(dir, command);
    var after := if command == [] then [] else [AndIf] + Words(command);
    assert [Word("cd")] + ([Word(dir)] + after) == [Word("cd"), Word(dir)] + after;
  }

  lemma LexCd(rest: string)
    ensures Lex("cd " + rest, None) == Prepend([Word("cd")], Lex(rest, None))
  {
    assert "cd " + rest == ['c'] + (['d'] + (" " + rest));
    LexPlain('c', ['d'] + (" " + rest), None);
    assert Text(None) + ['c'] == "c" && "c" + ['d'] == "cd";
    LexPlain('d', " " + rest, Some("c"));
    LexBlank(rest, Some("cd"));
  }

  lemma {:induction false} LexTail(dir: string, command: seq<string>)
    ensures Lex(if command == [] then "" else " && " + JoinBlank(Quoted(command)), Some(dir)) ==
            Some([Word(dir)] + if command == [] then [] else [AndIf] + Words(command))
  {
    if command != [] {
      var more := JoinBlank(Quoted(command));
      LexWords(command);
      assert " && " + more == " " + ("&&" + (" " + more));
      LexBlank("&&" + (" " + more), Some(dir));
      LexAndIf(" " + more, None);
      LexBlank(more, None);
      assert Flush(None) + Words(command) == Words(command);
      assert Flush(None) + [AndIf] + Words(command) == [AndIf] + Words(command);
    } else {
      assert Lex("", Some(dir)) == Some([Word(dir)]);
      assert [Word(dir)] + [] == [Word(dir)];
    }
  }

  method BuildRemoteCmd(workDir: string, command: seq<string>) returns (cmd: string)
    ensures cmd == "cd " + ShellQuote("/mnt/host" + workDir) +
                   if command == [] then "" else " && " + JoinBlank(Quoted(command))
    ensures Lex(cmd, None) ==
            Some([Word("cd"), Word("/mnt/host" + workDir)] + if command == [] then [] else [AndIf] + Words(command))
  {
    cmd := "cd " + ShellQuote("/mnt/host" + workDir);
    if |command| == 0 {
      CmdEnds(workDir, cmd, "");
      assert command == [];
      return;
    }
    var quoted := new string[|command|](_ => "");
    for i := 0 to |command|
      invariant forall j :: 0 <= j < i ==> quoted[j] == ShellQuote(command[j])
    {
      quoted[i] := ShellQuote(command[i]);
    }
    QuotedAt(command, quoted[..]);
    CmdEnds(workDir, cmd, " && " + JoinBlank(quoted[..]));
    LexRemoteCmd(workDir, command);
    cmd := cmd + (" && " + JoinBlank(quoted[..]));
  }

  lemma CmdEnds(workDir: string, cmd: string, tail: string)
    requires cmd == "cd " + ShellQuote("/mnt/host" + workDir)
    ensures cmd + tail == "cd " + ShellQuote("/mnt/host" + workDir) + tail
    ensures Lex(cmd, None) == Some([Word("cd"), Word("/mnt/host" + workDir)] + [])
  {
    LexRemoteCmd(workDir, []);
    assert RemoteCmd(workDir, []) == cmd;
  }

  lemma {:induction false} QuotedAt(words: seq<string>, quoted: seq<string>)
    requires |quoted| == |words| && forall i :: 0 <= i < |words| ==> quoted[i] == ShellQuote(words[i])
    ensures quoted == Quoted(words)
    decreases |words|
  {
    if words != [] {
      QuotedAt(words[1..], quoted[1..]);
      assert quoted == [quoted[0]] + quoted[1..];
    }
  }
}
