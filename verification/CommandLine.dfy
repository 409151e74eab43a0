// The resident command language: argv quoting, never shell evaluation. The lexer is an automaton over
// characters; it is proved to accept exactly the sentences of a small grammar, with their meaning.
module CommandLine {
  import opened Sequences
  import opened Wrappers
  import opened JsText

  const MAX_COMMAND_LENGTH := 65536
  const OPERATORS := ";&|<>$`(){}\n\r"
  const ESCAPABLE := "\"\\$`"

  datatype LexError =
    | InvalidCommandSize
    | ShellExpansion
    | UnfinishedEscape
    | InvalidEscape
    | ShellOperator
    | UnclosedQuote
    | OnlyTownCli

  datatype Quote = Unquoted | InSingle | InDouble

  datatype Lexer = Lexer(argv: seq<string>, word: string, started: bool, quote: Quote)

  const START := Lexer([], "", false, Unquoted)

  // ---------- the automaton ----------

  function Lex(st: Lexer, s: string): Result<Lexer, LexError>
    decreases |s|
  {
    if s == "" then Ok(st)
    else
      var c := s[0];
      match st.quote
      case InSingle =>
        if c == '\'' then Lex(st.(quote := Unquoted), s[1..])
        else Lex(st.(word := st.word + [c]), s[1..])
      case InDouble =>
        if c == '\"' then Lex(st.(quote := Unquoted), s[1..])
        else if c == '$' || c == '`' then Error(ShellExpansion)
        else if c == '\\' then
          if |s| == 1 then Error(UnfinishedEscape)
          else Lex(st.(word := st.word + Unescaped(s[1])), s[2..])
        else Lex(st.(word := st.word + [c]), s[1..])
      case Unquoted =>
        if c == '\'' then Lex(st.(quote := InSingle, started := true), s[1..])
        else if c == '\"' then Lex(st.(quote := InDouble, started := true), s[1..])
        else if c == '\\' then
          if |s| == 1 || s[1] == '\n' || s[1] == '\r' then Error(InvalidEscape)
          else Lex(st.(word := st.word + [s[1]], started := true), s[2..])
        else if c in OPERATORS then Error(ShellOperator)
        else if IsSpace(c) then Lex(EndWord(st), s[1..])
        else Lex(st.(word := st.word + [c], started := true), s[1..])
  }

  // Inside double quotes a backslash only escapes the four special characters.
  function Unescaped(next: char): string {
    if next in ESCAPABLE then [next] else ['\\', next]
  }

  function EndWord(st: Lexer): Lexer {
    if st.started then st.(argv := st.argv + [st.word], word := "", started := false) else st
  }

  function Words(s: string): Result<seq<string>, LexError> {
    var st :- Lex(START, s);
    if st.quote.Unquoted? then Ok(EndWord(st).argv) else Error(UnclosedQuote)
  }

  function Parse(command: string): Result<seq<string>, LexError> {
    if |command| > MAX_COMMAND_LENGTH || '\0' in command then Error(InvalidCommandSize)
    else
      var argv :- Words(command);
      if argv == [] || argv[0] != "town" then Error(OnlyTownCli) else Ok(argv[1..])
  }

  // `parseResidentCommand`: one index loop over mutable locals.
  method ParseResidentCommand(command: string) returns (r: Result<seq<string>, LexError>)
    ensures r == Parse(command)
  {
    if |command| > MAX_COMMAND_LENGTH || '\0' in command {
      return Error(InvalidCommandSize);
    }
    var argv: seq<string>, word: string, started, quote := [], "", false, Unquoted;
    var index := 0;
    while index < |command|
      invariant 0 <= index <= |command|
      invariant Lex(START, command) == Lex(Lexer(argv, word, started, quote), command[index..])
    {
      var c := command[index];
      assert command[index..][1..] == command[index + 1..];
      if quote == InSingle {
        if c == '\'' {
          quote := Unquoted;
        } else {
          word := word + [c];
        }
      } else if quote == InDouble {
        if c == '\"' {
          quote := Unquoted;
        } else if c == '$' || c == '`' {
          return Error(ShellExpansion);
        } else if c == '\\' {
          index := index + 1;
          if index == |command| {
            return Error(UnfinishedEscape);
          }
          assert command[index - 1..][2..] == command[index + 1..];
          word := word + Unescaped(command[index]);
        } else {
          word := word + [c];
        }
      } else if c == '\'' || c == '\"' {
        quote := if c == '\'' then InSingle else InDouble;
        started := true;
      } else if c == '\\' {
        index := index + 1;
        if index == |command| || command[index] == '\n' || command[index] == '\r' {
          return Error(InvalidEscape);
        }
        assert command[index - 1..][2..] == command[index + 1..];
        word := word + [command[index]];
        started := true;
      } else if c in OPERATORS {
        return Error(ShellOperator);
      } else if IsSpace(c) {
        if started {
          argv := argv + [word];
          word := "";
          started := false;
        }
      } else {
        word := word + [c];
        started := true;
      }
      index := index + 1;
    }
    if quote != Unquoted {
      return Error(UnclosedQuote);
    }
    if started {
      argv := argv + [word];
    }
    if |argv| == 0 || argv[0] != "town" {
      return Error(OnlyTownCli);
    }
    return Ok(argv[1..]);
  }

  // ---------- the grammar ----------

  // Inside double quotes: a plain character, an escaped special one, or a backslash that escapes nothing.
  datatype QuotedChar = Literal(c: char) | EscapedSpecial(c: char) | KeptBackslash(c: char)

  datatype Piece =
    | Bare(c: char)
    | Escaped(c: char)
    | SingleQuoted(text: string)
    | DoubleQuoted(items: seq<QuotedChar>)

  datatype Token = Blank(c: char) | Part(piece: Piece)

  predicate WellFormedQuoted(item: QuotedChar) {
    item.EscapedSpecial? <==> item.c in ESCAPABLE
  }

  predicate WellFormed(token: Token) {
    match token
    case Blank(c) => IsSpace(c) && c !in OPERATORS
    case Part(Bare(c)) => c !in "\'\"\\" && c !in OPERATORS && !IsSpace(c)
    case Part(Escaped(c)) => c != '\n' && c != '\r'
    case Part(SingleQuoted(text)) => '\'' !in text
    case Part(DoubleQuoted(items)) => forall i :: 0 <= i < |items| ==> WellFormedQuoted(items[i])
  }

  predicate WellFormedAll(tokens: seq<Token>) {
    forall i :: 0 <= i < |tokens| ==> WellFormed(tokens[i])
  }

  function RenderQuoted(items: seq<QuotedChar>): string {
    if items == [] then "" else RenderChar(items[0]) + RenderQuoted(items[1..])
  }

  function RenderChar(item: QuotedChar): string {
    if item.Literal? then [item.c] else ['\\', item.c]
  }

  function Render(token: Token): string {
    match token
    case Blank(c) => [c]
    case Part(Bare(c)) => [c]
    case Part(Escaped(c)) => ['\\', c]
    case Part(SingleQuoted(text)) => "\'" + text + "\'"
    case Part(DoubleQuoted(items)) => "\"" + RenderQuoted(items) + "\""
  }

  function RenderAll(tokens: seq<Token>): string {
    if tokens == [] then "" else Render(tokens[0]) + RenderAll(tokens[1..])
  }

  function QuotedMeaning(items: seq<QuotedChar>): string {
    if items == [] then "" else CharMeaning(items[0]) + QuotedMeaning(items[1..])
  }

  function CharMeaning(item: QuotedChar): string {
    if item.KeptBackslash? then ['\\', item.c] else [item.c]
  }

  function Meaning(piece: Piece): string {
    match piece
    case Bare(c) => [c]
    case Escaped(c) => [c]
    case SingleQuoted(text) => text
    case DoubleQuoted(items) => QuotedMeaning(items)
  }

  function Spelled(run: seq<Piece>): string {
    if run == [] then "" else Meaning(run[0]) + Spelled(run[1..])
  }

  // The pieces between blanks.
  function Runs(tokens: seq<Token>): (runs: seq<seq<Piece>>)
    ensures runs != []
  {
    if tokens == [] then [[]]
    else
      var rest := Runs(tokens[1..]);
      match tokens[0]
      case Blank(_) => [[]] + rest
      case Part(piece) => [[piece] + rest[0]] + rest[1..]
  }

  // A word is a non-empty run of adjacent pieces.
  function WordsOf(runs: seq<seq<Piece>>): seq<string> {
    if runs == [] then []
    else (if runs[0] == [] then [] else [Spelled(runs[0])]) + WordsOf(runs[1..])
  }

  // ---------- every sentence is accepted with its meaning ----------

  lemma {:induction false} LexSingleText(st: Lexer, text: string, rest: string)
    requires st.quote.InSingle? && '\'' !in text
    ensures Lex(st, text + "\'" + rest) == Lex(st.(word := st.word + text, quote := Unquoted), rest)
    decreases |text|
  {
    var s := text + "\'" + rest;
    if text == "" {
      assert s[1..] == rest && st.word + text == st.word;
    } else {
      assert s[1..] == text[1..] + "\'" + rest;
      assert st.word + [text[0]] + text[1..] == st.word + text;
      LexSingleText(st.(word := st.word + [text[0]]), text[1..], rest);
    }
  }

  // One character inside double quotes.
  lemma LexDoubleChar(st: Lexer, item: QuotedChar, tail: string)
    requires st.quote.InDouble? && WellFormedQuoted(item)
    ensures Lex(st, RenderChar(item) + tail) == Lex(st.(word := st.word + CharMeaning(item)), tail)
  {
    var s := RenderChar(item) + tail;
    assert s[|RenderChar(item)|..] == tail;
  }

  lemma CloseDouble(st: Lexer, rest: string)
    requires st.quote.InDouble?
    ensures Lex(st, "\"" + rest) == Lex(st.(quote := Unquoted), rest)
  {
    assert ("\"" + rest)[1..] == rest;
  }

  lemma {:induction false} LexDoubleText(st: Lexer, items: seq<QuotedChar>, rest: string)
    requires st.quote.InDouble? && forall i :: 0 <= i < |items| ==> WellFormedQuoted(items[i])
    ensures Lex(st, RenderQuoted(items) + ("\"" + rest)) ==
      Lex(st.(word := st.word + QuotedMeaning(items), quote := Unquoted), rest)
    decreases |items|
  {
    if items == [] {
      assert "" + ("\"" + rest) == "\"" + rest && st.word + "" == st.word;
      CloseDouble(st, rest);
    } else {
      assert WellFormedQuoted(items[0]);
      var meant := CharMeaning(items[0]);
      Regroup(RenderChar(items[0]), RenderQuoted(items[1..]), "\"" + rest);
      LexDoubleChar(st, items[0], RenderQuoted(items[1..]) + ("\"" + rest));
      LexDoubleText(st.(word := st.word + meant), items[1..], rest);
      Regroup(st.word, meant, QuotedMeaning(items[1..]));
    }
  }

  function Feed(st: Lexer, token: Token): Lexer {
    match token
    case Blank(_) => EndWord(st)
    case Part(piece) => st.(word := st.word + Meaning(piece), started := true)
  }

  function FeedAll(st: Lexer, tokens: seq<Token>): Lexer
    decreases |tokens|
  {
    if tokens == [] then st else FeedAll(Feed(st, tokens[0]), tokens[1..])
  }

  lemma LexSingleToken(st: Lexer, text: string, rest: string)
    requires st.quote.Unquoted? && '\'' !in text
    ensures Lex(st, "\'" + text + "\'" + rest) == Lex(st.(word := st.word + text, started := true), rest)
  {
    assert ("\'" + text + "\'" + rest)[1..] == text + "\'" + rest;
    LexSingleText(st.(quote := InSingle, started := true), text, rest);
  }

  lemma LexDoubleToken(st: Lexer, items: seq<QuotedChar>, rest: string)
    requires st.quote.Unquoted? && forall i :: 0 <= i < |items| ==> WellFormedQuoted(items[i])
    ensures Lex(st, "\"" + RenderQuoted(items) + "\"" + rest) ==
      Lex(st.(word := st.word + QuotedMeaning(items), started := true), rest)
  {
    assert ("\"" + RenderQuoted(items) + "\"" + rest)[1..] == RenderQuoted(items) + ("\"" + rest);
    LexDoubleText(st.(quote := InDouble, started := true), items, rest);
  }

  lemma LexToken(st: Lexer, token: Token, rest: string)
    requires st.quote.Unquoted? && WellFormed(token)
    ensures Lex(st, Render(token) + rest) == Lex(Feed(st, token), rest)
  {
    match token {
      case Blank(c) => assert ([c] + rest)[1..] == rest;
      case Part(Bare(c)) => assert ([c] + rest)[1..] == rest;
      case Part(Escaped(c)) => assert (['\\', c] + rest)[2..] == rest;
      case Part(SingleQuoted(text)) => LexSingleToken(st, text, rest);
      case Part(DoubleQuoted(items)) => LexDoubleToken(st, items, rest);
    }
  }

  lemma {:induction false} LexTokens(st: Lexer, tokens: seq<Token>)
    requires st.quote.Unquoted? && WellFormedAll(tokens)
    ensures Lex(st, RenderAll(tokens)) == Ok(FeedAll(st, tokens))
    ensures FeedAll(st, tokens).quote.Unquoted?
    decreases |tokens|
  {
    if tokens != [] {
      assert WellFormed(tokens[0]);
      LexToken(st, tokens[0], RenderAll(tokens[1..]));
      LexTokens(Feed(st, tokens[0]), tokens[1..]);
    }
  }

  // The words collected so far, with the first run glued to the word in progress.
  function Collected(st: Lexer, runs: seq<seq<Piece>>): seq<string>
    requires runs != []
  {
    st.argv
    + (if st.started || runs[0] != [] then [st.word + Spelled(runs[0])] else [])
    + WordsOf(runs[1..])
  }

  lemma FeedBlankCollects(st: Lexer, rest: seq<seq<Piece>>)
    requires rest != [] && (!st.started ==> st.word == "")
    ensures Collected(st, [[]] + rest) == Collected(EndWord(st), rest)
  {
    assert ([[]] + rest)[1..] == rest;
    assert st.word + Spelled([]) == st.word;
    assert "" + Spelled(rest[0]) == Spelled(rest[0]);
  }

  lemma FeedPieceCollects(st: Lexer, piece: Piece, rest: seq<seq<Piece>>)
    requires rest != []
    ensures Collected(st, [[piece] + rest[0]] + rest[1..]) ==
      Collected(st.(word := st.word + Meaning(piece), started := true), rest)
  {
    var runs := [[piece] + rest[0]] + rest[1..];
    assert runs[0][1..] == rest[0] && runs[1..] == rest[1..];
    assert st.word + Meaning(piece) + Spelled(rest[0]) == st.word + (Meaning(piece) + Spelled(rest[0]));
  }

  lemma {:induction false} FeedCollects(st: Lexer, tokens: seq<Token>)
    requires !st.started ==> st.word == ""
    ensures EndWord(FeedAll(st, tokens)).argv == Collected(st, Runs(tokens))
    decreases |tokens|
  {
    if tokens == [] {
      assert st.word + Spelled([]) == st.word;
    } else {
      FeedCollects(Feed(st, tokens[0]), tokens[1..]);
      match tokens[0] {
        case Blank(_) => FeedBlankCollects(st, Runs(tokens[1..]));
        case Part(piece) => FeedPieceCollects(st, piece, Runs(tokens[1..]));
      }
    }
  }

  lemma SentencesAreAccepted(tokens: seq<Token>)
    requires WellFormedAll(tokens)
    ensures Words(RenderAll(tokens)) == Ok(WordsOf(Runs(tokens)))
  {
    LexTokens(START, tokens);
    FeedCollects(START, tokens);
    CollectedFromStart(Runs(tokens));
  }

  lemma CollectedFromStart(runs: seq<seq<Piece>>)
    requires runs != []
    ensures Collected(START, runs) == WordsOf(runs)
  {
    assert "" + Spelled(runs[0]) == Spelled(runs[0]);
  }

  // ---------- nothing else is accepted ----------

  lemma {:induction false} ScanSingle(st: Lexer, s: string) returns (text: string, rest: string)
    requires st.quote.InSingle? && Lex(st, s).Ok? && Lex(st, s).value.quote.Unquoted?
    ensures s == text + "\'" + rest && '\'' !in text
    decreases |s|
  {
    if s[0] == '\'' {
      text, rest := "", s[1..];
    } else {
      text, rest := ScanSingle(st.(word := st.word + [s[0]]), s[1..]);
      text := [s[0]] + text;
    }
  }

  // The next item inside double quotes.
  function NextItem(s: string): QuotedChar
    requires s != "" && (s[0] == '\\' ==> |s| > 1)
  {
    if s[0] != '\\' then Literal(s[0])
    else if s[1] in ESCAPABLE then EscapedSpecial(s[1])
    else KeptBackslash(s[1])
  }

  lemma NextItemFits(st: Lexer, s: string)
    requires st.quote.InDouble? && s != "" && s[0] != '\"' && Lex(st, s).Ok? && Lex(st, s).value.quote.Unquoted?
    ensures s[0] == '\\' ==> |s| > 1
    ensures WellFormedQuoted(NextItem(s)) && RenderChar(NextItem(s)) <= s
  {
  }

  lemma {:induction false} ScanDouble(st: Lexer, s: string) returns (items: seq<QuotedChar>, rest: string)
    requires st.quote.InDouble? && Lex(st, s).Ok? && Lex(st, s).value.quote.Unquoted?
    ensures s == RenderQuoted(items) + ("\"" + rest)
    ensures forall i :: 0 <= i < |items| ==> WellFormedQuoted(items[i])
    decreases |s|
  {
    if s[0] == '\"' {
      items, rest := [], s[1..];
    } else {
      NextItemFits(st, s);
      var item := NextItem(s);
      var shown := RenderChar(item);
      var later := s[|shown|..];
      assert s == shown + later;
      LexDoubleChar(st, item, later);
      var tail;
      tail, rest := ScanDouble(st.(word := st.word + CharMeaning(item)), later);
      items := [item] + tail;
      assert items[1..] == tail;
      Regroup(shown, RenderQuoted(tail), "\"" + rest);
    }
  }

  lemma {:induction false} ScanToken(st: Lexer, s: string) returns (token: Token, rest: string)
    requires st.quote.Unquoted? && s != "" && Lex(st, s).Ok? && Lex(st, s).value.quote.Unquoted?
    ensures WellFormed(token) && s == Render(token) + rest && |rest| < |s|
  {
    var c := s[0];
    if c == '\'' {
      var text;
      text, rest := ScanSingle(st.(quote := InSingle, started := true), s[1..]);
      token := Part(SingleQuoted(text));
      assert s == [c] + s[1..];
    } else if c == '\"' {
      var items;
      items, rest := ScanDouble(st.(quote := InDouble, started := true), s[1..]);
      token := Part(DoubleQuoted(items));
      assert s == [c] + s[1..];
    } else if c == '\\' {
      token, rest := Part(Escaped(s[1])), s[2..];
      assert s == ['\\', s[1]] + s[2..];
    } else {
      token, rest := if IsSpace(c) then Blank(c) else Part(Bare(c)), s[1..];
      assert s == [c] + s[1..];
    }
  }

  lemma {:induction false} ScanTokens(st: Lexer, s: string) returns (tokens: seq<Token>)
    requires st.quote.Unquoted? && Lex(st, s).Ok? && Lex(st, s).value.quote.Unquoted?
    ensures WellFormedAll(tokens) && RenderAll(tokens) == s
    decreases |s|
  {
    if s == "" {
      tokens := [];
    } else {
      var token, rest := ScanToken(st, s);
      LexToken(st, token, rest);
      var tail := ScanTokens(Feed(st, token), rest);
      tokens := [token] + tail;
      assert tokens[1..] == tail;
    }
  }

  // The lexer accepts exactly the sentences of the grammar, each with its meaning.
  lemma LexerDecidesGrammar(s: string, words: seq<string>)
    ensures Words(s) == Ok(words) <==>
      exists tokens :: WellFormedAll(tokens) && RenderAll(tokens) == s && WordsOf(Runs(tokens)) == words
  {
    if Words(s) == Ok(words) {
      var tokens := ScanTokens(START, s);
      SentencesAreAccepted(tokens);
    }
    forall tokens | WellFormedAll(tokens) && RenderAll(tokens) == s && WordsOf(Runs(tokens)) == words
      ensures Words(s) == Ok(words)
    {
      SentencesAreAccepted(tokens);
    }
  }

  // ---------- pieces of a command line ----------

  lemma {:induction false} LexConcat(st: Lexer, a: string, b: string)
    requires Lex(st, a).Ok?
    ensures Lex(st, a + b) == Lex(Lex(st, a).value, b)
    decreases |a|
  {
    if a == "" {
      assert a + b == b;
    } else {
      var c := a[0];
      assert (a + b)[1..] == a[1..] + b;
      if |a| > 1 {
        assert (a + b)[2..] == a[2..] + b;
      }
      match st.quote {
        case InSingle =>
          LexConcat(if c == '\'' then st.(quote := Unquoted) else st.(word := st.word + [c]), a[1..], b);
        case InDouble =>
          if c == '\\' {
            LexConcat(st.(word := st.word + Unescaped(a[1])), a[2..], b);
          } else {
            LexConcat(if c == '\"' then st.(quote := Unquoted) else st.(word := st.word + [c]), a[1..], b);
          }
        case Unquoted =>
          if c == '\\' {
            LexConcat(st.(word := st.word + [a[1]], started := true), a[2..], b);
          } else if c == '\'' {
            LexConcat(st.(quote := InSingle, started := true), a[1..], b);
          } else if c == '\"' {
            LexConcat(st.(quote := InDouble, started := true), a[1..], b);
          } else if IsSpace(c) {
            LexConcat(EndWord(st), a[1..], b);
          } else {
            LexConcat(st.(word := st.word + [c], started := true), a[1..], b);
          }
      }
    }
  }

  function Under(prefix: seq<string>, r: Result<Lexer, LexError>): Result<Lexer, LexError> {
    match r
    case Ok(st) => Ok(st.(argv := prefix + st.argv))
    case Error(e) => Error(e)
  }

  // Finished words do not influence what is lexed next.
  lemma {:induction false} LexUnder(prefix: seq<string>, st: Lexer, s: string)
    ensures Lex(st.(argv := prefix + st.argv), s) == Under(prefix, Lex(st, s))
    decreases |s|
  {
    if s != "" {
      var c := s[0];
      match st.quote {
        case InSingle =>
          LexUnder(prefix, if c == '\'' then st.(quote := Unquoted) else st.(word := st.word + [c]), s[1..]);
        case InDouble =>
          if c == '\\' && |s| > 1 {
            LexUnder(prefix, st.(word := st.word + Unescaped(s[1])), s[2..]);
          } else {
            LexUnder(prefix, if c == '\"' then st.(quote := Unquoted) else st.(word := st.word + [c]), s[1..]);
          }
        case Unquoted =>
          if c == '\\' && |s| > 1 {
            LexUnder(prefix, st.(word := st.word + [s[1]], started := true), s[2..]);
          } else if c == '\'' {
            LexUnder(prefix, st.(quote := InSingle, started := true), s[1..]);
          } else if c == '\"' {
            LexUnder(prefix, st.(quote := InDouble, started := true), s[1..]);
          } else if IsSpace(c) {
            assert EndWord(st.(argv := prefix + st.argv)) ==
              EndWord(st).(argv := prefix + EndWord(st).argv);
            LexUnder(prefix, EndWord(st), s[1..]);
          } else {
            LexUnder(prefix, st.(word := st.word + [c], started := true), s[1..]);
          }
      }
    }
  }

  lemma {:induction false} LexKeepsIdleWord(st: Lexer, s: string)
    requires Lex(st, s).Ok? && (!st.started ==> st.word == "" && st.quote.Unquoted?)
    ensures var t := Lex(st, s).value; !t.started ==> t.word == "" && t.quote.Unquoted?
    decreases |s|
  {
    if s != "" {
      var c := s[0];
      match st.quote {
        case InSingle =>
          LexKeepsIdleWord(if c == '\'' then st.(quote := Unquoted) else st.(word := st.word + [c]), s[1..]);
        case InDouble =>
          if c == '\\' {
            LexKeepsIdleWord(st.(word := st.word + Unescaped(s[1])), s[2..]);
          } else {
            LexKeepsIdleWord(if c == '\"' then st.(quote := Unquoted) else st.(word := st.word + [c]), s[1..]);
          }
        case Unquoted =>
          if c == '\\' {
            LexKeepsIdleWord(st.(word := st.word + [s[1]], started := true), s[2..]);
          } else if c == '\'' {
            LexKeepsIdleWord(st.(quote := InSingle, started := true), s[1..]);
          } else if c == '\"' {
            LexKeepsIdleWord(st.(quote := InDouble, started := true), s[1..]);
          } else if IsSpace(c) {
            LexKeepsIdleWord(EndWord(st), s[1..]);
          } else {
            LexKeepsIdleWord(st.(word := st.word + [c], started := true), s[1..]);
          }
      }
    }
  }

  // Two pieces separated by a blank are lexed independently.
  lemma BlankSeparates(a: string, blank: char, b: string)
    requires Words(a).Ok? && IsSpace(blank) && blank !in OPERATORS
    ensures Words(a + [blank] + b) ==
      (match Words(b) case Ok(words) => Ok(Words(a).value + words) case Error(e) => Error(e))
  {
    LexConcat(START, a, [blank]);
    LexConcat(START, a + [blank], b);
    var middle := Lex(START, a).value;
    LexKeepsIdleWord(START, a);
    assert Lex(middle, [blank]) == Lex(EndWord(middle), [blank][1..]) == Ok(EndWord(middle));
    var prefix := EndWord(middle).argv;
    assert EndWord(middle) == START.(argv := prefix + START.argv);
    LexUnder(prefix, START, b);
    if Lex(START, b).Ok? && Lex(START, b).value.quote.Unquoted? {
      var st := Lex(START, b).value;
      assert EndWord(st.(argv := prefix + st.argv)).argv == prefix + EndWord(st).argv;
    }
  }

  // ---------- printing ----------

  datatype Style = SingleStyle | DoubleStyle

  datatype Printed = Printed(word: string, style: Style)

  // A single quote is written by closing the quotes, escaping it, and opening them again.
  function EscapeSingle(w: string): string {
    if w == "" then "" else (if w[0] == '\'' then "\'\\\'\'" else [w[0]]) + EscapeSingle(w[1..])
  }

  function EscapeDouble(w: string): string {
    if w == "" then "" else (if w[0] in ESCAPABLE then ['\\', w[0]] else [w[0]]) + EscapeDouble(w[1..])
  }

  function Show(p: Printed): string {
    match p.style
    case SingleStyle => "\'" + EscapeSingle(p.word) + "\'"
    case DoubleStyle => "\"" + EscapeDouble(p.word) + "\""
  }

  function ShowAll(ps: seq<Printed>): string {
    if ps == [] then "" else " " + Show(ps[0]) + ShowAll(ps[1..])
  }

  function Texts(ps: seq<Printed>): seq<string> {
    if ps == [] then [] else [ps[0].word] + Texts(ps[1..])
  }

  // One escaped character between single quotes.
  lemma LexEscapeSingleChar(st: Lexer, c: char, tail: string)
    requires st.quote.InSingle? && st.started
    ensures Lex(st, EscapeSingle([c]) + tail) == Lex(st.(word := st.word + [c]), tail)
  {
    var next := st.(word := st.word + [c]);
    assert [c][1..] == "" && EscapeSingle("") == "";
    if c == '\'' {
      assert EscapeSingle([c]) + tail == "\'" + ("\\\'" + ("\'" + tail));
      var s := "\'" + ("\\\'" + ("\'" + tail));
      assert s[1..] == "\\\'" + ("\'" + tail);
      assert ("\\\'" + ("\'" + tail))[2..] == "\'" + tail;
      assert ("\'" + tail)[1..] == tail;
      assert Lex(st, s) == Lex(st.(quote := Unquoted), s[1..]) == Lex(next.(quote := Unquoted), "\'" + tail)
        == Lex(next, tail);
    } else {
      assert EscapeSingle([c]) + tail == [c] + tail && ([c] + tail)[1..] == tail;
    }
  }

  lemma EscapeSingleFirst(w: string)
    requires w != ""
    ensures EscapeSingle(w) == EscapeSingle([w[0]]) + EscapeSingle(w[1..])
  {
    assert [w[0]][1..] == "" && EscapeSingle("") == "";
    assert EscapeSingle([w[0]]) + "" == EscapeSingle([w[0]]);
  }

  lemma {:induction false} LexEscapeSingle(st: Lexer, w: string, rest: string)
    requires st.quote.InSingle? && st.started
    ensures Lex(st, EscapeSingle(w) + "\'" + rest) == Lex(st.(word := st.word + w, quote := Unquoted), rest)
    decreases |w|
  {
    if w == "" {
      assert ("" + "\'" + rest)[1..] == rest && st.word + "" == st.word;
    } else {
      EscapeSingleFirst(w);
      var tail := EscapeSingle(w[1..]) + "\'" + rest;
      assert EscapeSingle(w) + "\'" + rest == EscapeSingle([w[0]]) + tail;
      LexEscapeSingleChar(st, w[0], tail);
      LexEscapeSingle(st.(word := st.word + [w[0]]), w[1..], rest);
      assert st.word + [w[0]] + w[1..] == st.word + w;
    }
  }

  lemma {:induction false} LexEscapeDouble(st: Lexer, w: string, rest: string)
    requires st.quote.InDouble?
    ensures Lex(st, EscapeDouble(w) + "\"" + rest) == Lex(st.(word := st.word + w, quote := Unquoted), rest)
    decreases |w|
  {
    var s := EscapeDouble(w) + "\"" + rest;
    if w == "" {
      assert s[1..] == rest && st.word + w == st.word;
    } else {
      var tail := EscapeDouble(w[1..]) + "\"" + rest;
      assert st.word + [w[0]] + w[1..] == st.word + w;
      if w[0] in ESCAPABLE {
        assert s == ['\\', w[0]] + tail && s[2..] == tail;
      } else {
        assert s == [w[0]] + tail && s[1..] == tail;
      }
      LexEscapeDouble(st.(word := st.word + [w[0]]), w[1..], rest);
    }
  }

  lemma OpenQuote(argv: seq<string>, rest: string)
    ensures Lex(START.(argv := argv), "\'" + rest) == Lex(Lexer(argv, "", true, InSingle), rest)
    ensures Lex(START.(argv := argv), "\"" + rest) == Lex(Lexer(argv, "", true, InDouble), rest)
  {
    assert ("\'" + rest)[1..] == rest && ("\"" + rest)[1..] == rest;
  }

  lemma LexShown(argv: seq<string>, p: Printed, rest: string)
    ensures Lex(START.(argv := argv), Show(p) + rest) == Lex(Lexer(argv, p.word, true, Unquoted), rest)
  {
    assert "" + p.word == p.word;
    match p.style {
      case SingleStyle =>
        var tail := EscapeSingle(p.word) + "\'" + rest;
        assert Show(p) + rest == "\'" + tail;
        OpenQuote(argv, tail);
        LexEscapeSingle(Lexer(argv, "", true, InSingle), p.word, rest);
      case DoubleStyle =>
        var tail := EscapeDouble(p.word) + "\"" + rest;
        assert Show(p) + rest == "\"" + tail;
        OpenQuote(argv, tail);
        LexEscapeDouble(Lexer(argv, "", true, InDouble), p.word, rest);
    }
  }

  lemma LexBlankThenShown(st: Lexer, p: Printed, rest: string)
    requires st.quote.Unquoted? && st.started
    ensures Lex(st, " " + Show(p) + rest) == Lex(Lexer(st.argv + [st.word], p.word, true, Unquoted), rest)
  {
    assert " " + Show(p) + rest == Render(Blank(' ')) + (Show(p) + rest);
    LexToken(st, Blank(' '), Show(p) + rest);
    LexShown(st.argv + [st.word], p, rest);
  }

  // The words in progress and all printed ones, once the last word is ended.
  predicate LexesTo(st: Lexer, s: string, words: seq<string>) {
    var r := Lex(st, s);
    r.Ok? && r.value.quote.Unquoted? && EndWord(r.value).argv == words
  }

  lemma {:induction false} LexShowAll(st: Lexer, ps: seq<Printed>)
    requires st.quote.Unquoted? && st.started
    ensures LexesTo(st, ShowAll(ps), st.argv + [st.word] + Texts(ps))
    decreases |ps|
  {
    TextsAfter(st.argv + [st.word], ps);
    if ps != [] {
      var next := Lexer(st.argv + [st.word], ps[0].word, true, Unquoted);
      LexBlankThenShown(st, ps[0], ShowAll(ps[1..]));
      LexShowAll(next, ps[1..]);
    }
  }

  lemma TextsAfter(argv: seq<string>, ps: seq<Printed>)
    ensures argv + Texts(ps) == if ps == [] then argv else argv + [ps[0].word] + Texts(ps[1..])
  {
  }

  lemma {:induction false} ShowAddsNoNul(ps: seq<Printed>)
    ensures '\0' in ShowAll(ps) <==> exists i :: 0 <= i < |ps| && '\0' in ps[i].word
  {
    if ps != [] {
      EscapesAddNoNul(ps[0].word);
      ShowAddsNoNul(ps[1..]);
      assert forall i :: 0 <= i < |ps| ==> ps[i] == if i == 0 then ps[0] else ps[1..][i - 1];
      if i :| 0 <= i < |ps[1..]| && '\0' in ps[1..][i].word {
        assert '\0' in ps[i + 1].word;
      }
    }
  }

  lemma {:induction false} EscapesAddNoNul(w: string)
    ensures '\0' in EscapeSingle(w) <==> '\0' in w
    ensures '\0' in EscapeDouble(w) <==> '\0' in w
  {
    if w != "" {
      EscapesAddNoNul(w[1..]);
      assert w == [w[0]] + w[1..];
    }
  }

  function ShowCommand(ps: seq<Printed>): string {
    "town" + ShowAll(ps)
  }

  lemma {:induction false} WordsAfter(s: string, st: Lexer, rest: string, words: seq<string>)
    requires Lex(START, s) == Lex(st, rest) && LexesTo(st, rest, words)
    ensures Words(s) == Ok(words)
  {
  }

  lemma {:induction false} WordsOfCommand(ps: seq<Printed>)
    ensures Words(ShowCommand(ps)) == Ok(["town"] + Texts(ps))
  {
    var town := Lexer([], "town", true, Unquoted);
    LexTown(ShowAll(ps));
    LexShowAll(town, ps);
    assert [] + ["town"] + Texts(ps) == ["town"] + Texts(ps);
    WordsAfter(ShowCommand(ps), town, ShowAll(ps), ["town"] + Texts(ps));
  }

  // The lexer undoes quoting: printing any words, each in either style, and parsing the command gives
  // the words back exactly when the command is within the size limit and free of NUL.
  lemma QuotingRoundTrip(ps: seq<Printed>)
    ensures Parse(ShowCommand(ps)) == Ok(Texts(ps)) <==>
      |ShowCommand(ps)| <= MAX_COMMAND_LENGTH && (forall i :: 0 <= i < |ps| ==> '\0' !in ps[i].word)
    ensures Parse(ShowCommand(ps)) in {Ok(Texts(ps)), Error(InvalidCommandSize)}
  {
    CommandNul(ps);
    WordsOfCommand(ps);
    assert (["town"] + Texts(ps))[1..] == Texts(ps);
  }

  lemma CommandNul(ps: seq<Printed>)
    ensures '\0' in ShowCommand(ps) <==> exists i :: 0 <= i < |ps| && '\0' in ps[i].word
  {
    ShowAddsNoNul(ps);
  }

  lemma {:induction false} LexBare(st: Lexer, text: string, rest: string)
    requires st.quote.Unquoted? && forall i :: 0 <= i < |text| ==> WellFormed(Part(Bare(text[i])))
    ensures Lex(st, text + rest) ==
      Lex(st.(word := st.word + text, started := st.started || text != ""), rest)
    decreases |text|
  {
    if text == "" {
      assert text + rest == rest && st.word + text == st.word;
    } else {
      assert WellFormed(Part(Bare(text[0])));
      LexToken(st, Part(Bare(text[0])), text[1..] + rest);
      assert text + rest == [text[0]] + (text[1..] + rest);
      assert st.word + [text[0]] + text[1..] == st.word + text;
      LexBare(Feed(st, Part(Bare(text[0]))), text[1..], rest);
    }
  }

  lemma LexTown(rest: string)
    ensures Lex(START, "town" + rest) == Lex(Lexer([], "town", true, Unquoted), rest)
  {
    LexBare(START, "town", rest);
    assert "" + "town" == "town";
  }
}
