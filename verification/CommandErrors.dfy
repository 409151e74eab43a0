// When a resident command is parsed, and why it is not: said of the grammar, the size and the characters.
module CommandErrors {
  import opened Sequences
  import opened Wrappers
  import opened JsText
  import opened CommandLine

  // The characters with a meaning of their own.
  predicate IsOperator(c: char) {
    || c == ';' || c == '&' || c == '|' || c == '<' || c == '>' || c == '$' || c == '`'
    || c == '(' || c == ')' || c == '{' || c == '}' || c == '\n' || c == '\r'
  }

  predicate IsEscapable(c: char) {
    c == '\"' || c == '\\' || c == '$' || c == '`'
  }

  lemma {:induction false} OperatorsMean(c: char)
    ensures c in OPERATORS <==> IsOperator(c)
    ensures c in ESCAPABLE <==> IsEscapable(c)
  {
  }

  // A command of the grammar whose words are these.
  ghost predicate IsSentence(s: string, words: seq<string>) {
    exists tokens :: WellFormedAll(tokens) && RenderAll(tokens) == s && WordsOf(Runs(tokens)) == words
  }

  // A command is parsed exactly when it fits, and is a sentence that begins with the word `town`; the
  // arguments are the other words.
  lemma {:induction false} ParseIff(command: string, args: seq<string>)
    ensures Parse(command) == Ok(args) <==>
      |command| <= 65536 && '\0' !in command && IsSentence(command, ["town"] + args)
  {
    LexerDecidesGrammar(command, ["town"] + args);
    if Words(command).Ok? && Words(command).value != [] && Words(command).value[0] == "town" {
      var words := Words(command).value;
      assert words == ["town"] + words[1..];
    }
    assert (["town"] + args)[1..] == args;
  }

  // ---------- why a command is refused ----------

  predicate AreQuoted(items: seq<QuotedChar>) {
    forall i :: 0 <= i < |items| ==> WellFormedQuoted(items[i])
  }

  // What stands behind well-formed tokens, and cannot be read on.
  ghost predicate IsStuck(rest: string, e: LexError) {
    match e
    case ShellOperator => rest != "" && IsOperator(rest[0])
    case InvalidEscape => rest != "" && rest[0] == '\\' && (|rest| == 1 || rest[1] == '\n' || rest[1] == '\r')
    case ShellExpansion =>
      exists items, tail :: AreQuoted(items) && rest == "\"" + (RenderQuoted(items) + tail)
        && tail != "" && (tail[0] == '$' || tail[0] == '`')
    case UnfinishedEscape => exists items :: AreQuoted(items) && rest == "\"" + (RenderQuoted(items) + "\\")
    case UnclosedQuote =>
      || (rest != "" && rest[0] == '\'' && '\'' !in rest[1..])
      || exists items :: AreQuoted(items) && rest == "\"" + (RenderQuoted(items) + "")
    case _ => false
  }

  ghost predicate IsReason(command: string, e: LexError) {
    match e
    case InvalidCommandSize => |command| > 65536 || '\0' in command
    case OnlyTownCli => exists words :: IsSentence(command, words) && (words == [] || words[0] != "town")
    case _ => exists tokens, rest :: WellFormedAll(tokens) && command == RenderAll(tokens) + rest && IsStuck(rest, e)
  }

  // The error of the lexer, or that of a text that ends inside quotes.
  function ErrorOf(r: Result<Lexer, LexError>): Option<LexError> {
    match r
    case Error(e) => Some(e)
    case Ok(st) => if st.quote.Unquoted? then None else Some(UnclosedQuote)
  }

  // Up to the closing single quote, or to the end.
  lemma {:induction false} SingleOrOpen(st: Lexer, s: string) returns (text: string, rest: string)
    requires st.quote.InSingle?
    ensures '\'' in s ==> s == text + "\'" + rest && '\'' !in text
    ensures '\'' !in s ==> ErrorOf(Lex(st, s)) == Some(UnclosedQuote)
    decreases |s|
  {
    text, rest := "", "";
    if s != "" {
      if s[0] == '\'' {
        rest := s[1..];
        assert s == "" + "\'" + rest;
      } else {
        text, rest := SingleOrOpen(st.(word := st.word + [s[0]]), s[1..]);
        text := [s[0]] + text;
        assert s == [s[0]] + s[1..];
      }
    }
  }

  // Up to what ends the items inside double quotes.
  predicate EndsQuoted(rest: string) {
    rest == "" || rest == "\\" || rest[0] == '\"' || rest[0] == '$' || rest[0] == '`'
  }

  lemma {:induction false} DoubleOrOpen(st: Lexer, s: string)
    returns (items: seq<QuotedChar>, rest: string, next: Lexer)
    requires st.quote.InDouble?
    ensures AreQuoted(items) && s == RenderQuoted(items) + rest && EndsQuoted(rest)
    ensures next.quote.InDouble? && Lex(st, s) == Lex(next, rest) && |rest| <= |s|
    decreases |s|
  {
    items, rest, next := [], s, st;
    assert RenderQuoted([]) + s == s;
    if !EndsQuoted(s) {
      var item := NextItem(s);
      var shown := RenderChar(item);
      var later := s[|shown|..];
      assert s == shown + later;
      LexDoubleChar(st, item, later);
      var tail;
      tail, rest, next := DoubleOrOpen(st.(word := st.word + CharMeaning(item)), later);
      items := [item] + tail;
      assert items[1..] == tail;
      Regroup(shown, RenderQuoted(tail), rest);
    }
  }

  lemma {:induction false} OpenDouble(next: Lexer, items: seq<QuotedChar>, rest: string, s: string)
    requires next.quote.InDouble? && AreQuoted(items) && EndsQuoted(rest)
    requires s == "\"" + (RenderQuoted(items) + rest) && (rest == "" || rest[0] != '\"')
    ensures var e := ErrorOf(Lex(next, rest)); e.Some? && IsStuck(s, e.value)
  {
    if rest == "" {
      assert ErrorOf(Lex(next, rest)) == Some(UnclosedQuote);
    } else if rest == "\\" {
      assert Lex(next, rest) == Error(UnfinishedEscape);
    } else {
      assert Lex(next, rest) == Error(ShellExpansion);
    }
  }

  // The next token, or what is in its way.
  lemma {:induction false} TokenOrStuck(st: Lexer, s: string) returns (token: Option<Token>, rest: string)
    requires st.quote.Unquoted? && s != ""
    ensures token.Some? ==> WellFormed(token.value) && s == Render(token.value) + rest && |rest| < |s|
    ensures token.None? ==> ErrorOf(Lex(st, s)).Some? && IsStuck(s, ErrorOf(Lex(st, s)).value)
  {
    var c := s[0];
    assert s == [c] + s[1..];
    OperatorsMean(c);
    token, rest := None, "";
    if c == '\'' {
      var text;
      text, rest := SingleOrOpen(st.(quote := InSingle, started := true), s[1..]);
      if '\'' in s[1..] {
        token := Some(Part(SingleQuoted(text)));
      }
    } else if c == '\"' {
      var inner := st.(quote := InDouble, started := true);
      var items, tail, next := DoubleOrOpen(inner, s[1..]);
      if tail != "" && tail[0] == '\"' {
        token, rest := Some(Part(DoubleQuoted(items))), tail[1..];
        assert tail == "\"" + rest;
        Regroup(RenderQuoted(items), "\"", rest);
        Regroup("\"", RenderQuoted(items) + "\"", rest);
        Regroup("\"", RenderQuoted(items), "\"");
      } else {
        OpenDouble(next, items, tail, s);
      }
    } else if c == '\\' {
      if |s| > 1 && s[1] != '\n' && s[1] != '\r' {
        token, rest := Some(Part(Escaped(s[1]))), s[2..];
        assert s == ['\\', s[1]] + s[2..];
      }
    } else if !IsOperator(c) {
      token, rest := Some(if IsSpace(c) then Blank(c) else Part(Bare(c))), s[1..];
    }
  }

  lemma {:induction false} TokensThenStuck(st: Lexer, s: string) returns (tokens: seq<Token>, rest: string)
    requires st.quote.Unquoted? && ErrorOf(Lex(st, s)).Some?
    ensures WellFormedAll(tokens) && s == RenderAll(tokens) + rest && IsStuck(rest, ErrorOf(Lex(st, s)).value)
    decreases |s|
  {
    var token, later := TokenOrStuck(st, s);
    tokens, rest := [], s;
    assert RenderAll([]) + s == s;
    if token.Some? {
      LexToken(st, token.value, later);
      var tail;
      tail, rest := TokensThenStuck(Feed(st, token.value), later);
      tokens := [token.value] + tail;
      assert tokens[1..] == tail;
      Regroup(Render(token.value), RenderAll(tail), rest);
    }
  }

  // Every refusal has its reason in the command.
  lemma {:induction false} RefusedFor(command: string)
    requires Parse(command).Error?
    ensures IsReason(command, Parse(command).error)
  {
    if |command| <= 65536 && '\0' !in command {
      if Words(command).Ok? {
        LexerDecidesGrammar(command, Words(command).value);
        assert IsSentence(command, Words(command).value);
      } else {
        var tokens, rest := TokensThenStuck(START, command);
      }
    }
  }
}
