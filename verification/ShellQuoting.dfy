/**
 Quoting of argument vectors for `sh -c` (shellQuote and quoteArgs in
 internal/controller/workspace_seed_helpers.go, joined with blanks in
 internal/controller/workspace_seed.go), against the quoting and token rules of the shell:
 sections 2.2.2, 2.2.3 and 2.3 of the Shell Command Language volume of POSIX.1-2017.
 */
module ShellQuoting {
  import opened Wrappers

  // ------------------------------------------------------ the quoting side

  /** strings.ReplaceAll(s, "'", `'"'"'`). */
  function Escape(s: string): string {
    if s == "" then "" else (if s[0] == '\'' then "'\"'\"'" else [s[0]]) + Escape(s[1..])
  }

  function Quote(s: string): string {
    "'" + Escape(s) + "'"
  }

  method QuoteArgs(args: seq<string>) returns (out: seq<string>)
    ensures |out| == |args| && forall i :: 0 <= i < |args| ==> out[i] == Quote(args[i])
  {
    out := [];
    for i := 0 to |args|
      invariant |out| == i && forall j :: 0 <= j < i ==> out[j] == Quote(args[j])
    {
      out := out + [Quote(args[i])];
    }
  }

  /** strings.Join(quoteArgs(args), " "). */
  function CommandLine(args: seq<string>): string {
    if args == [] then ""
    else if |args| == 1 then Quote(args[0])
    else CommandLine(args[..|args| - 1]) + " " + Quote(args[|args| - 1])
  }

  // ------------------------------------------------------ the shell side

  datatype Mode = Plain | Single | Double

  /** The words recognised so far, the word in progress, and the quoting in force. */
  datatype Lexer = Lexer(words: seq<string>, word: Option<string>, mode: Mode)

  /** Characters that an unquoted word may not contain literally. */
  predicate Special(c: char) {
    c in "|&;<>()$`\\*?[#~\n" || c == '\0'
  }

  function Push(l: Lexer, c: char): Lexer {
    l.(word := Some(l.word.GetOr("") + [c]))
  }

  /** One character of input; None where expansion, an operator or a comment would begin. */
  function Step(l: Lexer, c: char): Option<Lexer> {
    match l.mode
    case Plain =>
      if c == '\'' then Some(l.(mode := Single, word := Some(l.word.GetOr(""))))
      else if c == '"' then Some(l.(mode := Double, word := Some(l.word.GetOr(""))))
      else if c == ' ' || c == '\t' then
        Some(if l.word.Some? then l.(words := l.words + [l.word.value], word := None) else l)
      else if Special(c) then None
      else Some(Push(l, c))
    case Single => if c == '\'' then Some(l.(mode := Plain)) else if c == '\0' then None else Some(Push(l, c))
    case Double =>
      if c == '"' then Some(l.(mode := Plain))
      else if c in "$`\\" || c == '\0' then None
      else Some(Push(l, c))
  }

  function Scan(l: Lexer, s: string): Option<Lexer>
    decreases |s|
  {
    if s == "" then Some(l)
    else match Step(l, s[0])
         case None => None
         case Some(m) => Scan(m, s[1..])
  }

  /** The words of a complete line, if every quote is closed. */
  function Lex(s: string): Option<seq<string>> {
    match Scan(Lexer([], None, Plain), s)
    case Some(Lexer(words, word, Plain)) => Some(if word.Some? then words + [word.value] else words)
    case _ => None
  }

  // ------------------------------------------------------ round trip

  predicate NulFree(s: string) {
    '\0' !in s
  }

  lemma {:induction false} ScanAppend(l: Lexer, s: string, t: string)
    ensures Scan(l, s + t) == match Scan(l, s) case None => None case Some(m) => Scan(m, t)
    decreases |s|
  {
    if s == "" {
      assert s + t == t;
    } else {
      assert (s + t)[0] == s[0] && (s + t)[1..] == s[1..] + t;
      if Step(l, s[0]).Some? {
        ScanAppend(Step(l, s[0]).value, s[1..], t);
      }
    }
  }

  lemma ScanOne(l: Lexer, c: char)
    ensures Scan(l, [c]) == Step(l, c)
  {
    assert [c][1..] == "";
  }

  /** An escaped quote leaves the single-quoted word, adds one quote character and re-enters it. */
  lemma EscapedQuote(l: Lexer)
    requires l.mode == Single && l.word.Some?
    ensures Scan(l, "'\"'\"'") == Some(Push(l, '\''))
  {
    var s := "'\"'\"'";
    var a := l.(mode := Plain);
    var b := l.(mode := Double);
    assert Step(l, '\'') == Some(a) && Step(a, '"') == Some(b) && Step(b, '\'') == Some(Push(b, '\''));
    var c := Push(b, '\'');
    assert Step(c, '"') == Some(c.(mode := Plain)) && Step(c.(mode := Plain), '\'') == Some(c.(mode := Single));
    assert s[1..] == "\"'\"'" && s[1..][1..] == "'\"'" && s[1..][1..][1..] == "\"'";
    assert s[1..][1..][1..][1..] == "'" && s[1..][1..][1..][1..][1..] == "";
    assert Scan(c, "\"'") == Scan(c.(mode := Plain), "'") == Some(c.(mode := Single));
    assert Scan(a, s[1..]) == Scan(b, "'\"'") == Scan(c, "\"'");
  }

  lemma {:induction false} ScanEscaped(l: Lexer, s: string)
    requires l.mode == Single && l.word.Some? && NulFree(s)
    ensures Scan(l, Escape(s)) == Some(l.(word := Some(l.word.value + s)))
    decreases |s|
  {
    if s == "" {
      assert l.word.value + s == l.word.value;
    } else {
      var head := if s[0] == '\'' then "'\"'\"'" else [s[0]];
      assert Scan(l, head) == Some(Push(l, s[0])) by {
        if s[0] == '\'' {
          EscapedQuote(l);
        } else {
          ScanOne(l, s[0]);
        }
      }
      ScanAppend(l, head, Escape(s[1..]));
      ScanEscaped(Push(l, s[0]), s[1..]);
      assert l.word.value + [s[0]] + s[1..] == l.word.value + s;
    }
  }

  /** A quoted string extends the word in progress by exactly its argument. */
  lemma ScanQuoted(l: Lexer, s: string)
    requires l.mode == Plain && NulFree(s)
    ensures Scan(l, Quote(s)) == Some(l.(word := Some(l.word.GetOr("") + s)))
  {
    var inside := l.(mode := Single, word := Some(l.word.GetOr("")));
    var filled := inside.(word := Some(l.word.GetOr("") + s));
    ScanOne(l, '\'');
    ScanEscaped(inside, s);
    ScanOne(filled, '\'');
    ScanAppend(l, "'", Escape(s));
    ScanAppend(l, "'" + Escape(s), "'");
  }

  lemma {:induction false} ScanCommandLine(l: Lexer, args: seq<string>)
    requires l.mode == Plain && l.word == None && args != []
    requires forall a :: a in args ==> NulFree(a)
    ensures Scan(l, CommandLine(args)) == Some(Lexer(l.words + args[..|args| - 1], Some(args[|args| - 1]), Plain))
    decreases |args|
  {
    var init, last := args[..|args| - 1], args[|args| - 1];
    assert "" + last == last;
    if init == [] {
      ScanQuoted(l, last);
      assert l.words + init == l.words;
    } else {
      ScanCommandLine(l, init);
      var m := Lexer(l.words + init[..|init| - 1], Some(init[|init| - 1]), Plain);
      var n := Lexer(l.words + init, None, Plain);
      assert init[..|init| - 1] + [init[|init| - 1]] == init;
      assert m.words + [init[|init| - 1]] == n.words;
      ScanOne(m, ' ');
      ScanQuoted(n, last);
      ScanAppend(l, CommandLine(init), " ");
      ScanAppend(l, CommandLine(init) + " ", Quote(last));
    }
  }

  /** Lexing the quoted arguments joined by blanks gives back exactly the argument list. */
  lemma QuotedArgsLexBack(args: seq<string>)
    requires forall a :: a in args ==> NulFree(a)
    ensures Lex(CommandLine(args)) == Some(args)
  {
    if args != [] {
      ScanCommandLine(Lexer([], None, Plain), args);
      assert [] + args[..|args| - 1] + [args[|args| - 1]] == args;
    }
  }

  lemma ScanGit(l: Lexer)
    requires l == Lexer([], None, Plain)
    ensures Scan(l, "git ") == Some(Lexer(["git"], None, Plain))
  {
    var g, gi, git := l.(word := Some("g")), l.(word := Some("gi")), l.(word := Some("git"));
    assert "" + ['g'] == "g" && "g" + ['i'] == "gi" && "gi" + ['t'] == "git";
    assert Step(l, 'g') == Some(g) && Step(g, 'i') == Some(gi) && Step(gi, 't') == Some(git);
    assert git.words + ["git"] == ["git"];
    assert "git "[1..] == "it " && "it "[1..] == "t " && "t "[1..] == " ";
    ScanOne(git, ' ');
    assert Scan(gi, "t ") == Scan(git, " ");
    assert Scan(g, "it ") == Scan(gi, "t ");
  }

  /** The seed container's line: the command word `git` followed by the quoted arguments. */
  lemma GitCommandLine(args: seq<string>)
    requires args != [] && forall a :: a in args ==> NulFree(a)
    ensures Lex("git " + CommandLine(args)) == Some(["git"] + args)
  {
    var l := Lexer([], None, Plain);
    ScanGit(l);
    ScanAppend(l, "git ", CommandLine(args));
    ScanCommandLine(Lexer(["git"], None, Plain), args);
    assert ["git"] + args[..|args| - 1] + [args[|args| - 1]] == ["git"] + args;
  }
}
