// A reader of JSON texts, after RFC 8259: what a printed text means. Every printed value is read back,
// with or without indentation, and the canonical print as the value with its keys in order.
module JsonReader {
  import opened Wrappers
  import opened Sequences
  import opened Ordering
  import opened Substring
  import opened CanonicalJson
  import opened JsonDocuments

  // ---------- the reader ----------

  predicate IsBlankChar(c: char) {
    c == ' ' || c == '\n' || c == '\r' || c == '\t'
  }

  function Skip(s: string): (r: string)
    ensures |r| <= |s|
  {
    if s != "" && IsBlankChar(s[0]) then Skip(s[1..]) else s
  }

  function HexDigit(c: char): Option<nat> {
    if '0' <= c <= '9' then Some(c as int - '0' as int)
    else if 'a' <= c <= 'f' then Some(c as int - 'a' as int + 10)
    else if 'A' <= c <= 'F' then Some(c as int - 'A' as int + 10)
    else None
  }

  // The character of a `\u` escape; halves of surrogate pairs are not read.
  function ReadCode(s: string): Option<char>
    requires |s| == 4
  {
    var a, b, c, d := HexDigit(s[0]), HexDigit(s[1]), HexDigit(s[2]), HexDigit(s[3]);
    if a.None? || b.None? || c.None? || d.None? then None
    else
      var code := ((a.value * 16 + b.value) * 16 + c.value) * 16 + d.value;
      if 0 <= code < 0xD800 || 0xE000 <= code < 0x10000 then Some(code as char) else None
  }

  // Behind a backslash: the character that is meant, and the rest.
  function ReadEscape(s: string): (r: Option<(char, string)>)
    ensures r.Some? ==> |r.value.1| < |s|
  {
    if s == "" then None
    else
      match s[0]
      case '\"' => Some(('\"', s[1..]))
      case '\\' => Some(('\\', s[1..]))
      case '/' => Some(('/', s[1..]))
      case 'b' => Some((8 as char, s[1..]))
      case 'f' => Some((12 as char, s[1..]))
      case 'n' => Some((10 as char, s[1..]))
      case 'r' => Some((13 as char, s[1..]))
      case 't' => Some((9 as char, s[1..]))
      case 'u' =>
        if |s| < 5 || ReadCode(s[1..5]).None? then None else Some((ReadCode(s[1..5]).value, s[5..]))
      case _ => None
  }

  // Up to the closing quote.
  function ReadChars(s: string): (r: Option<(string, string)>)
    ensures r.Some? ==> |r.value.1| < |s|
    decreases |s|
  {
    if s == "" || s[0] < ' ' then None
    else if s[0] == '\"' then Some(("", s[1..]))
    else
      var first := if s[0] == '\\' then ReadEscape(s[1..]) else Some((s[0], s[1..]));
      if first.None? then None
      else
        var more := ReadChars(first.value.1);
        if more.None? then None else Some(([first.value.0] + more.value.0, more.value.1))
  }

  function DigitsOf(s: string): (r: string)
    ensures r <= s
  {
    if s != "" && '0' <= s[0] <= '9' then [s[0]] + DigitsOf(s[1..]) else ""
  }

  // Decimal digits without a leading zero.
  function ReadNatural(s: string): (r: Option<(nat, string)>)
    ensures r.Some? ==> |r.value.1| < |s|
  {
    var digits := DigitsOf(s);
    if digits == "" || (|digits| > 1 && digits[0] == '0') then None else Some((ValueOf(digits), s[|digits|..]))
  }

  function ReadValue(s: string): (r: Option<(Json, string)>)
    ensures r.Some? ==> |r.value.1| < |s|
    decreases |s|, 0
  {
    if s == "" then None
    else if s[0] == '\"' then
      var text := ReadChars(s[1..]);
      if text.None? then None else Some((Text(text.value.0), text.value.1))
    else if s[0] == '[' then
      var inner := Skip(s[1..]);
      if inner != "" && inner[0] == ']' then Some((Array([]), inner[1..]))
      else
        var items := ReadItems(inner);
        if items.None? then None else Some((Array(items.value.0), items.value.1))
    else if s[0] == '{' then
      var inner := Skip(s[1..]);
      if inner != "" && inner[0] == '}' then Some((Object([]), inner[1..]))
      else
        var members := ReadMembers(inner);
        if members.None? then None else Some((Object(members.value.0), members.value.1))
    else if s[0] == '-' then
      var n := ReadNatural(s[1..]);
      if n.None? then None else Some((Number(-(n.value.0 as int)), n.value.1))
    else if '0' <= s[0] <= '9' then
      var n := ReadNatural(s);
      if n.None? then None else Some((Number(n.value.0), n.value.1))
    else if "null" <= s then Some((Null, s[4..]))
    else if "true" <= s then Some((Bool(true), s[4..]))
    else if "false" <= s then Some((Bool(false), s[5..]))
    else None
  }

  // Items separated by commas, up to the closing bracket.
  function ReadItems(s: string): (r: Option<(seq<Json>, string)>)
    ensures r.Some? ==> |r.value.1| < |s|
    decreases |s|, 1
  {
    var first := ReadValue(s);
    if first.None? then None
    else
      var after := Skip(first.value.1);
      if after == "" then None
      else if after[0] == ']' then Some(([first.value.0], after[1..]))
      else if after[0] == ',' then
        var more := ReadItems(Skip(after[1..]));
        if more.None? then None else Some(([first.value.0] + more.value.0, more.value.1))
      else None
  }

  function ReadMember(s: string): (r: Option<(Member, string)>)
    ensures r.Some? ==> |r.value.1| < |s|
    decreases |s|, 1
  {
    if s == "" || s[0] != '\"' || ReadChars(s[1..]).None? then None
    else
      var key := ReadChars(s[1..]).value;
      var colon := Skip(key.1);
      if colon == "" || colon[0] != ':' then None
      else
        var value := ReadValue(Skip(colon[1..]));
        if value.None? then None else Some((Member(key.0, value.value.0), value.value.1))
  }

  function ReadMembers(s: string): (r: Option<(seq<Member>, string)>)
    ensures r.Some? ==> |r.value.1| < |s|
    decreases |s|, 2
  {
    var first := ReadMember(s);
    if first.None? then None
    else
      var after := Skip(first.value.1);
      if after == "" then None
      else if after[0] == '}' then Some(([first.value.0], after[1..]))
      else if after[0] == ',' then
        var more := ReadMembers(Skip(after[1..]));
        if more.None? then None else Some(([first.value.0] + more.value.0, more.value.1))
      else None
  }

  // A whole text: one value between blanks.
  function ReadJson(s: string): Option<Json> {
    var r := ReadValue(Skip(s));
    if r.None? || Skip(r.value.1) != "" then None else Some(r.value.0)
  }

  // ---------- strings and numbers are read back ----------

  lemma {:induction false} EscapeIsRead(c: char, x: string)
    ensures var s := EscapeChar(c) + x;
      && s != "" && s[0] != '\"' && s[0] >= ' '
      && (if s[0] == '\\' then ReadEscape(s[1..]) == Some((c, x)) else s[0] == c && s[1..] == x)
  {
    var e := EscapeChar(c);
    var s := e + x;
    assert s[0] == e[0];
    if |e| == 2 {
      assert s[1..] == [e[1]] + x;
    } else if |e| > 2 {
      CodeIsRead(c, x);
    }
  }

  lemma {:induction false} CodeIsRead(c: char, x: string)
    requires c < ' ' && |EscapeChar(c)| > 2
    ensures (EscapeChar(c) + x)[0] == '\\' && ReadEscape((EscapeChar(c) + x)[1..]) == Some((c, x))
  {
    var high, low := c as int / 16, c as int % 16;
    var code := ['0', '0', HEX[high], HEX[low]];
    var s := (EscapeChar(c) + x)[1..];
    HexIsRead(high);
    HexIsRead(low);
    assert ReadCode(code) == Some(c);
    assert EscapeChar(c) == ['\\', 'u'] + code;
    assert s == ['u'] + code + x;
    assert s[1..5] == code && s[5..] == x;
  }

  lemma {:induction false} HexIsRead(d: nat)
    requires d < 16
    ensures HexDigit(HEX[d]) == Some(d)
  {
  }

  lemma {:induction false} CharsAreRead(s: string, x: string)
    ensures ReadChars(Escape(s) + ("\"" + x)) == Some((s, x))
  {
    var whole := Escape(s) + ("\"" + x);
    if s == "" {
      assert whole == "\"" + x;
    } else {
      var rest := Escape(s[1..]) + ("\"" + x);
      Regroup(EscapeChar(s[0]), Escape(s[1..]), "\"" + x);
      assert whole == EscapeChar(s[0]) + rest;
      EscapeIsRead(s[0], rest);
      CharsAreRead(s[1..], x);
      assert s == [s[0]] + s[1..];
    }
  }

  lemma {:induction false} QuoteIsRead(s: string, x: string)
    ensures var t := Quote(s) + x; t != "" && t[0] == '\"' && ReadChars(t[1..]) == Some((s, x))
  {
    var t := Quote(s) + x;
    assert t[1..] == Escape(s) + ("\"" + x);
    CharsAreRead(s, x);
  }

  lemma {:induction false} DigitsOfMeans(digits: string, x: string)
    requires NoDigitFirst(x) && forall i :: 0 <= i < |digits| ==> IsDigit(digits[i])
    ensures DigitsOf(digits + x) == digits
  {
    if digits == "" {
      assert digits + x == x;
    } else {
      DigitsOfMeans(digits[1..], x);
      assert (digits + x)[1..] == digits[1..] + x;
      assert digits == [digits[0]] + digits[1..];
    }
  }

  lemma {:induction false} NoLeadingZero(n: nat)
    ensures Digits(n) != "" && (n > 0 ==> Digits(n)[0] != '0') && (|Digits(n)| > 1 ==> n > 0)
  {
    if n >= 10 {
      NoLeadingZero(n / 10);
    }
  }

  lemma {:induction false} NaturalIsRead(n: nat, x: string)
    requires NoDigitFirst(x)
    ensures ReadNatural(Digits(n) + x) == Some((n, x)) && IsDigit((Digits(n) + x)[0])
  {
    DigitsAreDigits(n);
    NoLeadingZero(n);
    DigitsOfMeans(Digits(n), x);
    assert (Digits(n) + x)[|Digits(n)|..] == x;
  }

  lemma {:induction false} NumberIsRead(n: int, x: string)
    requires NoDigitFirst(x)
    ensures ReadValue(Decimal(n) + x) == Some((Number(n), x))
  {
    if n < 0 {
      NegativeIsRead(-n, Digits(-n), x);
    } else {
      NaturalIsRead(n, x);
      UnsignedIsRead(Digits(n) + x, n, x);
    }
  }

  lemma {:induction false} NegativeIsRead(n: nat, digits: string, x: string)
    requires NoDigitFirst(x) && digits == Digits(n)
    ensures ReadValue("-" + digits + x) == Some((Number(-(n as int)), x))
  {
    NaturalIsRead(n, x);
    Regroup("-", digits, x);
    SignIsRead(digits + x, n, x, "-" + (digits + x));
  }

  lemma {:induction false} SignIsRead(digits: string, n: nat, x: string, s: string)
    requires ReadNatural(digits) == Some((n, x)) && s == "-" + digits
    ensures ReadValue(s) == Some((Number(-(n as int)), x))
  {
    assert s[0] == '-' && s[1..] == digits;
  }

  lemma {:induction false} UnsignedIsRead(digits: string, n: nat, x: string)
    requires ReadNatural(digits) == Some((n, x)) && digits != "" && IsDigit(digits[0])
    ensures ReadValue(digits) == Some((Number(n), x))
  {
  }

  // ---------- blanks ----------

  predicate AllBlank(s: string) {
    forall i :: 0 <= i < |s| ==> IsBlankChar(s[i])
  }

  lemma {:induction false} SkipBlanks(blanks: string, x: string)
    requires AllBlank(blanks)
    ensures Skip(blanks + x) == Skip(x)
  {
    if blanks == "" {
      assert blanks + x == x;
    } else {
      SkipBlanks(blanks[1..], x);
      assert (blanks + x)[1..] == blanks[1..] + x;
    }
  }

  // What stands in front of the parts, and behind the last.
  function Lead(gap: string, indent: string): string {
    if gap == "" then "" else "\n" + indent + gap
  }

  function Trail(gap: string, indent: string): string {
    if gap == "" then "" else "\n" + indent
  }

  lemma {:induction false} EnclosedIs(parts: seq<string>, gap: string, indent: string)
    requires parts != []
    ensures Enclosed(parts, gap, indent) ==
      Lead(gap, indent) + (Join(parts, "," + Lead(gap, indent)) + Trail(gap, indent))
  {
    var joined := Join(parts, "," + Lead(gap, indent));
    if gap == "" {
      assert "," + "" == ",";
      assert "" + (joined + "") == joined;
    } else {
      assert "," + Lead(gap, indent) == ",\n" + indent + gap;
      Regroup(Lead(gap, indent), joined, "\n" + indent);
      assert Enclosed(parts, gap, indent) == Lead(gap, indent) + joined + "\n" + indent;
      assert Lead(gap, indent) + joined + "\n" + indent == Lead(gap, indent) + joined + ("\n" + indent);
    }
  }

  lemma {:induction false} LeadIsBlank(gap: string, indent: string)
    requires AllBlank(gap) && AllBlank(indent)
    ensures AllBlank(Lead(gap, indent)) && AllBlank(Trail(gap, indent)) && AllBlank(indent + gap)
  {
  }

  // A printed value begins with neither a blank nor a closing bracket.
  predicate Begins(s: string) {
    s != "" && !IsBlankChar(s[0]) && s[0] != ']' && s[0] != '}'
  }

  lemma {:induction false} RenderBegins(v: Json, gap: string, indent: string, x: string)
    ensures Begins(Render(v, gap, indent) + x)
  {
    var s := Render(v, gap, indent);
    if v.Number? {
      DigitsAreDigits(if v.n < 0 then -v.n else v.n);
    }
    assert s != "";
    assert (s + x)[0] == s[0];
  }

  lemma {:induction false} BeginsAtOnce(s: string)
    requires Begins(s)
    ensures Skip(s) == s
  {
  }

  // ---------- printed values are read back ----------

  lemma {:induction false} ValueIsRead(v: Json, gap: string, indent: string, x: string)
    requires AllBlank(gap) && AllBlank(indent) && NoDigitFirst(x)
    ensures ReadValue(Render(v, gap, indent) + x) == Some((v, x))
    decreases v, 3
  {
    match v
    case Null => WordIsRead("null", x);
    case Bool(b) => WordIsRead(if b then "true" else "false", x);
    case Number(n) => NumberIsRead(n, x);
    case Text(s) => QuoteIsRead(s, x);
    case Array(items) => ArrayIsRead(v, items, gap, indent, x);
    case Object(members) => ObjectIsRead(v, members, gap, indent, x);
  }

  lemma {:induction false} WordIsRead(word: string, x: string)
    requires word in ["null", "true", "false"]
    ensures ReadValue(word + x) ==
      Some((if word == "null" then Null else Bool(word == "true"), x))
  {
    var s := word + x;
    assert s[0] == word[0] && word <= s && s[|word|..] == x;
    assert s[1] == word[1];
  }

  lemma {:induction false} ArrayIsRead(v: Json, items: seq<Json>, gap: string, indent: string, x: string)
    requires v == Array(items) && AllBlank(gap) && AllBlank(indent)
    ensures ReadValue(Render(v, gap, indent) + x) == Some((v, x))
    decreases v, 2
  {
    if items == [] {
      assert ("[]" + x)[1..] == "]" + x && ("]" + x)[1..] == x;
    } else {
      var lead, trail := Lead(gap, indent), Trail(gap, indent);
      var parts := RenderItems(v, items, gap, indent + gap);
      var inner := Join(parts, "," + lead) + (trail + ("]" + x));
      LeadIsBlank(gap, indent);
      EnclosedIs(parts, gap, indent);
      ItemsAreRead(v, items, parts, gap, indent + gap, lead, trail, trail + ("]" + x), x);
      Opened("[", lead, Join(parts, "," + lead), trail, "]", x);
      SkipBlanks(lead, inner);
      assert (Render(v, gap, indent) + x)[1..] == lead + inner;
    }
  }

  lemma {:induction false} Opened(open: string, lead: string, joined: string, trail: string, close: string, x: string)
    ensures open + (lead + (joined + trail)) + close + x == open + (lead + (joined + (trail + (close + x))))
  {
  }

  // The items from one on, joined and followed by the end of the array.
  lemma {:induction false} ItemsAreRead(
    whole: Json, items: seq<Json>, parts: seq<string>, gap: string, indent: string, lead: string, trail: string,
    end: string, x: string)
    requires Inside(whole, items) && items != [] && parts == RenderItems(whole, items, gap, indent)
    requires AllBlank(gap) && AllBlank(indent) && AllBlank(lead) && AllBlank(trail) && end == trail + ("]" + x)
    ensures var s := Join(parts, "," + lead) + end; ReadItems(s) == Some((items, x)) && Begins(s)
    decreases whole, 1, |items|
  {
    assert items == [items[0]] + items[1..] && parts[0] == Render(items[0], gap, indent);
    if |items| == 1 {
      EndIsSkipped(trail, "]", x, end);
      ValueIsRead(items[0], gap, indent, end);
      RenderBegins(items[0], gap, indent, end);
      LastItem(parts[0] + end, items[0], end, x);
      assert items == [items[0]];
    } else {
      var others := parts[1..];
      assert others == RenderItems(whole, items[1..], gap, indent);
      var more := Join(others, "," + lead) + end;
      var rest := "," + (lead + more);
      ItemsAreRead(whole, items[1..], others, gap, indent, lead, trail, end, x);
      SeparatedBy(parts[0], lead, Join(others, "," + lead), end);
      CommaIsSkipped(lead, more, rest);
      ValueIsRead(items[0], gap, indent, rest);
      RenderBegins(items[0], gap, indent, rest);
      NextItem(parts[0] + rest, items[0], rest, more, items[1..], x);
    }
  }

  lemma {:induction false} LastItem(s: string, v: Json, end: string, x: string)
    requires ReadValue(s) == Some((v, end)) && Skip(end) != "" && Skip(end)[0] == ']' && Skip(end)[1..] == x
    ensures ReadItems(s) == Some(([v], x))
  {
  }

  lemma {:induction false} NextItem(s: string, v: Json, rest: string, more: string, others: seq<Json>, x: string)
    requires ReadValue(s) == Some((v, rest)) && rest != "" && Skip(rest) == rest && rest[0] == ','
    requires Skip(rest[1..]) == more && ReadItems(more) == Some((others, x))
    ensures ReadItems(s) == Some(([v] + others, x))
  {
  }

  lemma {:induction false} EndIsSkipped(trail: string, close: string, x: string, end: string)
    requires AllBlank(trail) && end == trail + (close + x) && (close == "]" || close == "}")
    ensures Skip(end) == close + x && (close + x)[0] == close[0] && (close + x)[1..] == x && NoDigitFirst(end)
  {
    SkipBlanks(trail, close + x);
    assert end[0] == if trail == "" then close[0] else trail[0];
  }

  lemma {:induction false} CommaIsSkipped(lead: string, more: string, rest: string)
    requires AllBlank(lead) && Begins(more) && rest == "," + (lead + more)
    ensures Skip(rest) == rest && rest[0] == ',' && Skip(rest[1..]) == more && NoDigitFirst(rest)
  {
    assert rest[1..] == lead + more;
    SkipBlanks(lead, more);
  }

  lemma {:induction false} SeparatedBy(first: string, lead: string, joined: string, end: string)
    ensures first + ("," + lead) + joined + end == first + ("," + (lead + (joined + end)))
  {
  }

  lemma {:induction false} ObjectIsRead(v: Json, members: seq<Member>, gap: string, indent: string, x: string)
    requires v == Object(members) && AllBlank(gap) && AllBlank(indent)
    ensures ReadValue(Render(v, gap, indent) + x) == Some((v, x))
    decreases v, 2
  {
    if members == [] {
      assert ("{}" + x)[1..] == "}" + x && ("}" + x)[1..] == x;
    } else {
      var lead, trail := Lead(gap, indent), Trail(gap, indent);
      var parts := RenderMembers(v, members, gap, indent + gap);
      var inner := Join(parts, "," + lead) + (trail + ("}" + x));
      LeadIsBlank(gap, indent);
      EnclosedIs(parts, gap, indent);
      MembersAreRead(v, members, parts, gap, indent + gap, lead, trail, trail + ("}" + x), x);
      Opened("{", lead, Join(parts, "," + lead), trail, "}", x);
      SkipBlanks(lead, inner);
      assert (Render(v, gap, indent) + x)[1..] == lead + inner;
    }
  }

  lemma {:induction false} MemberIsRead(whole: Json, m: Member, gap: string, indent: string, x: string)
    requires m.value < whole && AllBlank(gap) && AllBlank(indent) && NoDigitFirst(x)
    ensures var s := Named(m.key, Render(m.value, gap, indent), gap) + x;
      ReadMember(s) == Some((m, x)) && Begins(s)
    decreases whole, 1, 0
  {
    var value := Render(m.value, gap, indent);
    var colon := if gap == "" then ":" else ": ";
    var behind := colon + (value + x);
    assert Named(m.key, value, gap) + x == Quote(m.key) + behind;
    QuoteIsRead(m.key, behind);
    RenderBegins(m.value, gap, indent, x);
    ColonIsSkipped(colon, value + x, behind);
    ValueIsRead(m.value, gap, indent, x);
  }

  lemma {:induction false} ColonIsSkipped(colon: string, value: string, behind: string)
    requires (colon == ":" || colon == ": ") && Begins(value) && behind == colon + value
    ensures Skip(behind) == behind && behind[0] == ':' && Skip(behind[1..]) == value
  {
    var blank := colon[1..];
    assert behind[1..] == blank + value;
    SkipBlanks(blank, value);
  }

  lemma {:induction false} MembersAreRead(
    whole: Json, members: seq<Member>, parts: seq<string>, gap: string, indent: string, lead: string, trail: string,
    end: string, x: string)
    requires MembersInside(whole, members) && members != [] && parts == RenderMembers(whole, members, gap, indent)
    requires AllBlank(gap) && AllBlank(indent) && AllBlank(lead) && AllBlank(trail) && end == trail + ("}" + x)
    ensures var s := Join(parts, "," + lead) + end; ReadMembers(s) == Some((members, x)) && Begins(s)
    decreases whole, 1, |members|
  {
    var first := members[0];
    assert members == [first] + members[1..];
    assert parts[0] == Named(first.key, Render(first.value, gap, indent), gap);
    if |members| == 1 {
      EndIsSkipped(trail, "}", x, end);
      MemberIsRead(whole, first, gap, indent, end);
      LastMember(parts[0] + end, first, end, x);
      assert members == [first];
    } else {
      var others := parts[1..];
      assert others == RenderMembers(whole, members[1..], gap, indent);
      var more := Join(others, "," + lead) + end;
      var rest := "," + (lead + more);
      MembersAreRead(whole, members[1..], others, gap, indent, lead, trail, end, x);
      SeparatedBy(parts[0], lead, Join(others, "," + lead), end);
      CommaIsSkipped(lead, more, rest);
      MemberIsRead(whole, first, gap, indent, rest);
      NextMember(parts[0] + rest, first, rest, more, members[1..], x);
    }
  }

  lemma {:induction false} LastMember(s: string, m: Member, end: string, x: string)
    requires ReadMember(s) == Some((m, end)) && Skip(end) != "" && Skip(end)[0] == '}' && Skip(end)[1..] == x
    ensures ReadMembers(s) == Some(([m], x))
  {
  }

  lemma {:induction false} NextMember(
    s: string, m: Member, rest: string, more: string, others: seq<Member>, x: string)
    requires ReadMember(s) == Some((m, rest)) && rest != "" && Skip(rest) == rest && rest[0] == ','
    requires Skip(rest[1..]) == more && ReadMembers(more) == Some((others, x))
    ensures ReadMembers(s) == Some(([m] + others, x))
  {
  }

  // The reader undoes the printer, on one line and indented; so a lawful `JSON.parse` exists.
  lemma {:induction false} ReaderUndoesPrinter()
    ensures Undoes(ReadJson)
  {
    forall v: Json ensures ReadJson(Compact(v)) == Some(v) && ReadJson(JsonFile(v)) == Some(v) {
      RenderedIsRead(v, "", "");
      RenderedIsRead(v, "  ", "\n");
    }
  }

  lemma {:induction false} RenderedIsRead(v: Json, gap: string, end: string)
    requires AllBlank(gap) && AllBlank(end)
    ensures ReadJson(Render(v, gap, "") + end) == Some(v)
    ensures end == "" ==> ReadJson(Render(v, gap, "")) == Some(v)
  {
    RenderBegins(v, gap, "", end);
    BeginsAtOnce(Render(v, gap, "") + end);
    ValueIsRead(v, gap, "", end);
    SkipBlanks(end, "");
    assert end + "" == end;
    if end == "" {
      assert Render(v, gap, "") + end == Render(v, gap, "");
    }
  }

  // ---------- what the canonical print means ----------

  // The value with the keys of every object in order.
  function Canonical(v: Json): Json
    decreases v, 1
  {
    match v
    case Array(items) => Array(CanonicalItems(v, items))
    case Object(members) =>
      SortedInside(v);
      Object(CanonicalMembers(v, SortMembersByKey(members)))
    case _ => v
  }

  function CanonicalItems(whole: Json, items: seq<Json>): (r: seq<Json>)
    requires Inside(whole, items)
    ensures |r| == |items|
    decreases whole, 0, |items|
  {
    if items == [] then [] else [Canonical(items[0])] + CanonicalItems(whole, items[1..])
  }

  function CanonicalMembers(whole: Json, members: seq<Member>): (r: seq<Member>)
    requires MembersInside(whole, members)
    ensures |r| == |members| && forall i :: 0 <= i < |r| ==> r[i].key == members[i].key
    decreases whole, 0, |members|
  {
    if members == [] then []
    else [Member(members[0].key, Canonical(members[0].value))] + CanonicalMembers(whole, members[1..])
  }

  lemma {:induction false} PrintIsCompact(v: Json)
    ensures Print(v) == Compact(Canonical(v))
    decreases v, 2
  {
    match v
    case Array(items) => ArrayIsCompact(v, items);
    case Object(members) => ObjectIsCompact(v, members);
    case _ =>
  }

  lemma {:induction false} ArrayIsCompact(v: Json, items: seq<Json>)
    requires v == Array(items)
    ensures Print(v) == Compact(Canonical(v))
    decreases v, 1
  {
    if items != [] {
      var sorted := CanonicalItems(v, items);
      var parts := RenderItems(Array(sorted), sorted, "", "");
      ItemsAreJoined(v, items, Array(sorted), sorted, parts);
      CompactArray(Array(sorted), sorted);
    }
  }

  lemma {:induction false} ItemsAreJoined(
    v: Json, items: seq<Json>, w: Json, sorted: seq<Json>, parts: seq<string>)
    requires Inside(v, items) && items != [] && sorted == CanonicalItems(v, items) && Inside(w, sorted)
    requires parts == RenderItems(w, sorted, "", "")
    ensures PrintItems(v, items) == Join(parts, ",")
    decreases v, 0, |items|
  {
    PrintIsCompact(items[0]);
    assert sorted[0] == Canonical(items[0]) && parts[0] == Compact(sorted[0]);
    if |items| > 1 {
      var others := parts[1..];
      assert sorted[1..] == CanonicalItems(v, items[1..]) && others == RenderItems(w, sorted[1..], "", "");
      ItemsAreJoined(v, items[1..], w, sorted[1..], others);
      Regroup(parts[0], ",", Join(others, ","));
    }
  }

  lemma {:induction false} ObjectIsCompact(v: Json, members: seq<Member>)
    requires v == Object(members)
    ensures Print(v) == Compact(Canonical(v))
    decreases v, 1
  {
    SortedInside(v);
    if members != [] {
      var ordered := SortMembersByKey(members);
      var sorted := CanonicalMembers(v, ordered);
      var parts := RenderMembers(Object(sorted), sorted, "", "");
      MembersAreJoined(v, ordered, Object(sorted), sorted, parts);
      CompactObject(Object(sorted), sorted);
    }
  }

  lemma {:induction false} MembersAreJoined(
    v: Json, members: seq<Member>, w: Json, sorted: seq<Member>, parts: seq<string>)
    requires MembersInside(v, members) && members != [] && sorted == CanonicalMembers(v, members)
    requires MembersInside(w, sorted) && parts == RenderMembers(w, sorted, "", "")
    ensures PrintMembers(v, members) == Join(parts, ",")
    decreases v, 0, |members|
  {
    var key, value := members[0].key, Compact(sorted[0].value);
    PrintIsCompact(members[0].value);
    assert sorted[0] == Member(key, Canonical(members[0].value)) && parts[0] == Named(key, value, "");
    Regroup(Quote(key), ":", value);
    if |members| > 1 {
      var others := parts[1..];
      assert sorted[1..] == CanonicalMembers(v, members[1..]) && others == RenderMembers(w, sorted[1..], "", "");
      MembersAreJoined(v, members[1..], w, sorted[1..], others);
      Regroup(parts[0], ",", Join(others, ","));
    }
  }

  // ---------- the same value ----------

  lemma {:induction false} CanonicalIsSame(v: Json)
    ensures Same(v, Canonical(v))
    decreases v, 2
  {
    match v
    case Array(items) =>
      forall i | 0 <= i < |items| ensures Same(items[i], Canonical(v).items[i]) {
        CanonicalItem(v, items, i);
        CanonicalIsSame(items[i]);
      }
    case Object(members) => ObjectIsSame(v, members);
    case _ =>
  }

  lemma {:induction false} CanonicalItem(whole: Json, items: seq<Json>, i: nat)
    requires Inside(whole, items) && i < |items|
    ensures CanonicalItems(whole, items)[i] == Canonical(items[i])
    decreases i
  {
    if i > 0 {
      var rest := items[1..];
      CanonicalItem(whole, rest, i - 1);
      assert rest[i - 1] == items[i];
    }
  }

  lemma {:induction false} CanonicalMember(whole: Json, members: seq<Member>, i: nat)
    requires MembersInside(whole, members) && i < |members|
    ensures CanonicalMembers(whole, members)[i] == Member(members[i].key, Canonical(members[i].value))
    decreases i
  {
    if i > 0 {
      var rest := members[1..];
      CanonicalMember(whole, rest, i - 1);
      assert rest[i - 1] == members[i];
    }
  }

  lemma {:induction false} ObjectIsSame(v: Json, members: seq<Member>)
    requires v == Object(members)
    ensures Same(v, Canonical(v))
    decreases v, 1
  {
    SortedInside(v);
    var ordered := SortMembersByKey(members);
    var sorted := CanonicalMembers(v, ordered);
    forall i | 0 <= i < |members| ensures HasTwin(v, i, sorted) {
      assert members[i] in ordered;
      var j :| 0 <= j < |ordered| && ordered[j] == members[i];
      CanonicalMember(v, ordered, j);
      CanonicalIsSame(members[i].value);
    }
    forall j | 0 <= j < |sorted| ensures IsTwin(v, sorted[j]) {
      assert ordered[j] in members;
      var i :| 0 <= i < |members| && members[i] == ordered[j];
      CanonicalMember(v, ordered, j);
      CanonicalIsSame(members[i].value);
    }
  }

  // ---------- keys in order ----------

  // The texts first differ in a smaller character, or the one continues the other.
  predicate IsBefore(a: string, b: string) {
    exists k :: 0 <= k <= |a| && k < |b| && a[..k] == b[..k] && (k == |a| || a[k] < b[k])
  }

  predicate KeysAscend(v: Json) {
    match v
    case Array(items) => forall item :: item in items ==> KeysAscend(item)
    case Object(members) =>
      && (forall i, j :: 0 <= i < j < |members| ==>
           IsBefore(members[i].key, members[j].key) || members[i].key == members[j].key)
      && (forall m :: m in members ==> KeysAscend(m.value))
    case _ => true
  }

  lemma {:induction false} LessIsBefore(a: string, b: string)
    requires Less(Codes(a), Codes(b))
    ensures IsBefore(a, b)
  {
    if a == "" {
      assert a[..0] == b[..0];
    } else if a[0] == b[0] {
      assert Codes(a)[1..] == Codes(a[1..]) && Codes(b)[1..] == Codes(b[1..]);
      LessIsBefore(a[1..], b[1..]);
      var k :| 0 <= k <= |a[1..]| && k < |b[1..]| && a[1..][..k] == b[1..][..k]
        && (k == |a[1..]| || a[1..][k] < b[1..][k]);
      assert a[..k + 1] == [a[0]] + a[1..][..k] && b[..k + 1] == [b[0]] + b[1..][..k];
    } else {
      assert a[..0] == b[..0] && Codes(a)[0] == a[0] as int && Codes(b)[0] == b[0] as int;
    }
  }

  lemma {:induction false} SortedKeysAscend(members: seq<Member>)
    ensures var ordered := SortMembersByKey(members);
      forall i, j :: 0 <= i < j < |ordered| ==>
        IsBefore(ordered[i].key, ordered[j].key) || ordered[i].key == ordered[j].key
  {
    var ordered := SortMembersByKey(members);
    SortCommutes(CanonicalJson.KeyOf, members);
    SortKeysAscends(Keys(CanonicalJson.KeyOf, members));
    var keys := Keys(CanonicalJson.KeyOf, ordered);
    forall i, j | 0 <= i < j < |ordered|
      ensures IsBefore(ordered[i].key, ordered[j].key) || ordered[i].key == ordered[j].key
    {
      assert keys[i] == Codes(ordered[i].key) && keys[j] == Codes(ordered[j].key) && !Less(keys[j], keys[i]);
      LessIsTotal(keys[i], keys[j]);
      if Less(keys[i], keys[j]) {
        LessIsBefore(ordered[i].key, ordered[j].key);
      } else {
        CodesAreInjective(ordered[i].key, ordered[j].key);
      }
    }
  }

  lemma {:induction false} CanonicalAscends(v: Json)
    ensures KeysAscend(Canonical(v))
    decreases v
  {
    match v
    case Array(items) =>
      var sorted := Canonical(v).items;
      forall item | item in sorted ensures KeysAscend(item) {
        var i :| 0 <= i < |sorted| && sorted[i] == item;
        CanonicalItem(v, items, i);
        CanonicalAscends(items[i]);
      }
    case Object(members) =>
      SortedInside(v);
      var ordered := SortMembersByKey(members);
      var sorted := CanonicalMembers(v, ordered);
      SortedKeysAscend(members);
      forall m | m in sorted ensures KeysAscend(m.value) {
        var i :| 0 <= i < |sorted| && sorted[i] == m;
        CanonicalMember(v, ordered, i);
        assert ordered[i] in members;
        CanonicalAscends(ordered[i].value);
      }
    case _ =>
  }

  // The canonical print of a value is read as the same value, with the keys of every object in order.
  lemma {:induction false} CanonicalIsRead(v: Json)
    ensures ReadJson(Print(v)) == Some(Canonical(v))
    ensures Same(v, Canonical(v)) && KeysAscend(Canonical(v))
  {
    PrintIsCompact(v);
    RenderedIsRead(Canonical(v), "", "");
    CanonicalIsSame(v);
    CanonicalAscends(v);
  }
}
