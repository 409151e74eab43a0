// JSON values and `stableStringify`, the key-sorted printer behind content addresses. Equal strings
// mean equal values, and the order in which object keys were written does not matter.
module CanonicalJson {
  import opened Sequences
  import opened Ordering

  // Numbers are integers; an object is its list of entries in insertion order.
  datatype Json =
    | Null
    | Bool(b: bool)
    | Number(n: int)
    | Text(s: string)
    | Array(items: seq<Json>)
    | Object(members: seq<Member>)

  datatype Member = Member(key: string, value: Json)

  // Keys of an object are distinct, at every depth.
  predicate WellFormed(v: Json) {
    match v
    case Array(items) => forall item :: item in items ==> WellFormed(item)
    case Object(members) =>
      && (forall i, j :: 0 <= i < j < |members| ==> members[i].key != members[j].key)
      && (forall m :: m in members ==> WellFormed(m.value))
    case _ => true
  }

  // Equality of JSON values, with objects as unordered maps.
  predicate Same(a: Json, b: Json)
    decreases a, 1
  {
    match (a, b)
    case (Array(x), Array(y)) => |x| == |y| && forall i :: 0 <= i < |x| ==> Same(x[i], y[i])
    case (Object(x), Object(y)) =>
      && (forall i :: 0 <= i < |x| ==> HasTwin(a, i, y))
      && (forall j :: 0 <= j < |y| ==> IsTwin(a, y[j]))
    case (Array(_), _) => false
    case (Object(_), _) => false
    case _ => a == b
  }

  // The i-th member of the object has a counterpart among the others.
  predicate HasTwin(a: Json, i: nat, others: seq<Member>)
    requires a.Object? && i < |a.members|
    decreases a, 0
  {
    var m := a.members[i];
    exists j :: 0 <= j < |others| && m.key == others[j].key && Same(m.value, others[j].value)
  }

  // The member has a counterpart in the object.
  predicate IsTwin(a: Json, m: Member)
    requires a.Object?
    decreases a, 0
  {
    exists i :: 0 <= i < |a.members| && a.members[i].key == m.key && Same(a.members[i].value, m.value)
  }

  // ---------- printing ----------

  const HEX := "0123456789abcdef"

  // `JSON.stringify` of one character of a string.
  function EscapeChar(c: char): string {
    if c == '\"' then "\\\""
    else if c == '\\' then "\\\\"
    else if c == '\U{000008}' then "\\b"
    else if c == '\U{00000C}' then "\\f"
    else if c == '\n' then "\\n"
    else if c == '\r' then "\\r"
    else if c == '\t' then "\\t"
    else if c < ' ' then "\\u00" + [HEX[c as int / 16], HEX[c as int % 16]]
    else [c]
  }

  function Escape(s: string): string {
    if s == "" then "" else EscapeChar(s[0]) + Escape(s[1..])
  }

  function Quote(s: string): string {
    "\"" + (Escape(s) + "\"")
  }

  function Digit(d: nat): char
    requires d < 10
  {
    '0' + d as char
  }

  function Digits(n: nat): string {
    if n < 10 then [Digit(n)] else Digits(n / 10) + [Digit(n % 10)]
  }

  function Decimal(n: int): string {
    if n < 0 then "-" + Digits(-n) else Digits(n)
  }

  function KeyOf(m: Member): seq<int> {
    Codes(m.key)
  }

  function SortMembersByKey(members: seq<Member>): (sorted: seq<Member>)
    ensures forall m :: m in sorted <==> m in members
    ensures |sorted| == |members|
  {
    SortMembers(KeyOf, members);
    Sort(KeyOf, members)
  }

  // `stableStringify`
  function Print(v: Json): string
    decreases v, 2
  {
    match v
    case Null => "null"
    case Bool(b) => if b then "true" else "false"
    case Number(n) => Decimal(n)
    case Text(s) => Quote(s)
    case Array(items) => "[" + PrintItems(v, items) + "]"
    case Object(members) =>
      SortedInside(v);
      "{" + PrintMembers(v, SortMembersByKey(members)) + "}"
  }

  lemma SortedInside(v: Json)
    requires v.Object?
    ensures MembersInside(v, SortMembersByKey(v.members))
  {
    var sorted := SortMembersByKey(v.members);
    forall i | 0 <= i < |sorted| ensures sorted[i].value < v {
      assert sorted[i] in v.members;
    }
  }

  // Parts of a value, the termination measure of printing.
  ghost predicate Inside(context: Json, items: seq<Json>) {
    forall i :: 0 <= i < |items| ==> items[i] < context
  }

  ghost predicate MembersInside(context: Json, members: seq<Member>) {
    forall i :: 0 <= i < |members| ==> members[i].value < context
  }

  // `map(stableStringify).join(',')`
  function PrintItems(context: Json, items: seq<Json>): string
    requires Inside(context, items)
    decreases context, 1, |items|
  {
    if items == [] then ""
    else if |items| == 1 then Print(items[0])
    else Print(items[0]) + ("," + PrintItems(context, items[1..]))
  }

  function PrintMembers(context: Json, members: seq<Member>): string
    requires MembersInside(context, members)
    decreases context, 1, |members|
  {
    if members == [] then ""
    else
      var first := Quote(members[0].key) + (":" + Print(members[0].value));
      if |members| == 1 then first else first + ("," + PrintMembers(context, members[1..]))
  }

  // ---------- scalar tokens are uniquely readable ----------

  lemma EscapeCharUnique(c: char, d: char, x: string, y: string)
    requires EscapeChar(c) + x == EscapeChar(d) + y
    ensures c == d && x == y
  {
    var u, v := EscapeChar(c), EscapeChar(d);
    assert (u + x)[0] == u[0] && (v + y)[0] == v[0];
    if |u| > 1 {
      assert (u + x)[1] == u[1] && (v + y)[1] == v[1];
      if |u| > 2 {
        assert (u + x)[4] == u[4] && (v + y)[4] == v[4];
        assert (u + x)[5] == u[5] && (v + y)[5] == v[5];
        HexUnique(c as int / 16, d as int / 16);
        HexUnique(c as int % 16, d as int % 16);
        assert c as int == d as int;
      }
    }
    assert |u| == |v|;
    assert x == (u + x)[|u|..] == (v + y)[|v|..] == y;
  }

  lemma HexUnique(i: nat, j: nat)
    requires i < 16 && j < 16 && HEX[i] == HEX[j]
    ensures i == j
  {
  }

  lemma EscapeFirst(s: string, x: string)
    requires s != ""
    ensures Escape(s) + "\"" + x == EscapeChar(s[0]) + (Escape(s[1..]) + "\"" + x)
  {
    Regroup(EscapeChar(s[0]), Escape(s[1..]), "\"");
    Regroup(EscapeChar(s[0]), Escape(s[1..]) + "\"", x);
  }

  lemma EscapeCharHead(c: char, x: string)
    ensures EscapeChar(c) + x != "" && (EscapeChar(c) + x)[0] != '\"'
  {
    assert (EscapeChar(c) + x)[0] == EscapeChar(c)[0];
  }

  lemma EscapeHead(s: string, x: string)
    ensures var l := Escape(s) + "\"" + x;
      && l != "" && (l[0] == '\"' <==> s == "")
      && l == (if s == "" then "\"" + x else EscapeChar(s[0]) + (Escape(s[1..]) + "\"" + x))
  {
    if s == "" {
      assert "" + "\"" + x == "\"" + x;
    } else {
      EscapeFirst(s, x);
      EscapeCharHead(s[0], Escape(s[1..]) + "\"" + x);
    }
  }

  lemma {:induction false} EscapeUnique(s: string, t: string, x: string, y: string)
    requires Escape(s) + "\"" + x == Escape(t) + "\"" + y
    ensures s == t && x == y
    decreases |s|
  {
    EscapeHead(s, x);
    EscapeHead(t, y);
    if s == "" {
      SameRest("\"", x, y);
    } else {
      var l, r := Escape(s[1..]) + "\"" + x, Escape(t[1..]) + "\"" + y;
      EscapeCharUnique(s[0], t[0], l, r);
      EscapeUnique(s[1..], t[1..], x, y);
      assert s == [s[0]] + s[1..] && t == [t[0]] + t[1..];
    }
  }

  lemma QuoteUnique(s: string, t: string, x: string, y: string)
    requires Quote(s) + x == Quote(t) + y
    ensures s == t && x == y
  {
    Regroup("\"", Escape(s) + "\"", x);
    Regroup("\"", Escape(t) + "\"", y);
    SameRest("\"", Escape(s) + "\"" + x, Escape(t) + "\"" + y);
    EscapeUnique(s, t, x, y);
  }

  predicate IsDigit(c: char) {
    '0' <= c <= '9'
  }

  function ValueOf(s: string): nat {
    if s == "" then 0
    else ValueOf(s[..|s| - 1]) * 10 + (if IsDigit(s[|s| - 1]) then s[|s| - 1] as int - '0' as int else 0)
  }

  lemma {:induction false} DigitsAreDigits(n: nat)
    ensures Digits(n) != "" && (forall i :: 0 <= i < |Digits(n)| ==> IsDigit(Digits(n)[i]))
    ensures ValueOf(Digits(n)) == n
  {
    var s := Digits(n);
    if n < 10 {
      assert s[..0] == "";
    } else {
      DigitsAreDigits(n / 10);
      assert s[..|s| - 1] == Digits(n / 10);
    }
  }

  predicate NoDigitFirst(x: string) {
    x != "" ==> !IsDigit(x[0])
  }

  lemma DigitsUnique(a: string, b: string, x: string, y: string)
    requires a + x == b + y && NoDigitFirst(x) && NoDigitFirst(y)
    requires forall i :: 0 <= i < |a| ==> IsDigit(a[i])
    requires forall i :: 0 <= i < |b| ==> IsDigit(b[i])
    ensures a == b && x == y
  {
    var l, r := a + x, b + y;
    assert forall i :: 0 <= i < |a| ==> l[i] == a[i];
    assert forall i :: 0 <= i < |b| ==> r[i] == b[i];
    assert |a| < |l| ==> l[|a|] == x[0];
    assert |b| < |r| ==> r[|b|] == y[0];
    assert |a| == |b|;
    assert a == l[..|a|] == r[..|b|] == b;
    SameRest(a, x, y);
  }

  lemma DecimalHead(n: int)
    ensures Decimal(n) != "" && (Decimal(n)[0] == '-' <==> n < 0)
    ensures var s := Digits(if n < 0 then -n else n);
      && Decimal(n) == (if n < 0 then "-" + s else s)
      && (forall i :: 0 <= i < |s| ==> IsDigit(s[i])) && ValueOf(s) == (if n < 0 then -n else n)
  {
    DigitsAreDigits(if n < 0 then -n else n);
  }

  lemma DecimalUnique(n: int, m: int, x: string, y: string)
    requires Decimal(n) + x == Decimal(m) + y && NoDigitFirst(x) && NoDigitFirst(y)
    ensures n == m && x == y
  {
    DecimalHead(n);
    DecimalHead(m);
    var s, t := Digits(if n < 0 then -n else n), Digits(if m < 0 then -m else m);
    var l, r := Decimal(n) + x, Decimal(m) + y;
    assert l[0] == Decimal(n)[0] && r[0] == Decimal(m)[0];
    if n < 0 {
      Regroup("-", s, x);
      Regroup("-", t, y);
      SameRest("-", s + x, t + y);
    }
    DigitsUnique(s, t, x, y);
  }

  // ---------- nested values are uniquely readable ----------

  // What can follow a value: nothing, a separator or a closing bracket.
  predicate Follows(x: string) {
    x == "" || x[0] in ",]}"
  }

  datatype Head = NullHead | TrueHead | FalseHead | NumberHead | TextHead | ArrayHead | ObjectHead | NoHead

  function HeadOf(c: char): Head {
    if c == 'n' then NullHead
    else if c == 't' then TrueHead
    else if c == 'f' then FalseHead
    else if c == '-' || IsDigit(c) then NumberHead
    else if c == '\"' then TextHead
    else if c == '[' then ArrayHead
    else if c == '{' then ObjectHead
    else NoHead
  }

  function HeadFor(v: Json): Head {
    match v
    case Null => NullHead
    case Bool(b) => if b then TrueHead else FalseHead
    case Number(_) => NumberHead
    case Text(_) => TextHead
    case Array(_) => ArrayHead
    case Object(_) => ObjectHead
  }

  // The first character tells the kind of the value.
  lemma FirstChar(v: Json)
    ensures Print(v) != "" && HeadOf(Print(v)[0]) == HeadFor(v) && Print(v)[0] != ']'
  {
    assert HeadOf(']') == NoHead;
    if v.Number? {
      DigitsAreDigits(if v.n < 0 then -v.n else v.n);
    }
  }

  lemma SameHead(a: Json, b: Json, x: string, y: string)
    requires Print(a) + x == Print(b) + y
    ensures HeadFor(a) == HeadFor(b)
  {
    FirstChar(a);
    FirstChar(b);
    assert (Print(a) + x)[0] == Print(a)[0] && (Print(b) + y)[0] == Print(b)[0];
  }

  lemma {:induction false} PrintUnique(a: Json, b: Json, x: string, y: string)
    requires Print(a) + x == Print(b) + y && Follows(x) && Follows(y)
    ensures Same(a, b) && x == y
    decreases a, 2
  {
    SameHead(a, b, x, y);
    match a {
      case Null => SameRest("null", x, y);
      case Bool(t) => SameRest(Print(a), x, y);
      case Number(n) => DecimalUnique(n, b.n, x, y);
      case Text(s) => QuoteUnique(s, b.s, x, y);
      case Array(items) => ArrayUnique(a, b, x, y);
      case Object(members) => ObjectUnique(a, b, x, y);
    }
  }

  lemma {:induction false} ArrayUnique(a: Json, b: Json, x: string, y: string)
    requires a.Array? && b.Array? && Print(a) + x == Print(b) + y && Follows(x) && Follows(y)
    ensures Same(a, b) && x == y
    decreases a, 1, |a.items| + 1
  {
    var p, q := PrintItems(a, a.items), PrintItems(b, b.items);
    Bracketed("[", p, "]", x);
    Bracketed("[", q, "]", y);
    SameRest("[", p + ("]" + x), q + ("]" + y));
    ItemsUnique(a, a.items, b, b.items, x, y);
  }

  lemma {:induction false} ObjectUnique(a: Json, b: Json, x: string, y: string)
    requires a.Object? && b.Object? && Print(a) + x == Print(b) + y && Follows(x) && Follows(y)
    ensures Same(a, b) && x == y
    decreases a, 1, |a.members| + 1
  {
    var p, q := SortMembersByKey(a.members), SortMembersByKey(b.members);
    SortedInside(a);
    SortedInside(b);
    var s, t := PrintMembers(a, p), PrintMembers(b, q);
    Bracketed("{", s, "}", x);
    Bracketed("{", t, "}", y);
    SameRest("{", s + ("}" + x), t + ("}" + y));
    MembersUnique(a, p, b, q, x, y);
    PairedMembersAreSame(a, b, p, q);
  }

  lemma Bracketed(open: string, text: string, close: string, x: string)
    ensures open + text + close + x == open + (text + (close + x))
  {
    Regroup(open, text, close);
    Regroup(open, text + close, x);
    Regroup(text, close, x);
  }

  // Place by place the same keys and values, as sorted lists.
  ghost predicate Paired(p: seq<Member>, q: seq<Member>) {
    |p| == |q| && forall i :: 0 <= i < |p| ==> p[i].key == q[i].key && Same(p[i].value, q[i].value)
  }

  lemma PairedMembersAreSame(a: Json, b: Json, p: seq<Member>, q: seq<Member>)
    requires a.Object? && b.Object? && Paired(p, q)
    requires (forall m :: m in p <==> m in a.members) && (forall m :: m in q <==> m in b.members)
    ensures Same(a, b)
  {
    var x, y := a.members, b.members;
    forall i | 0 <= i < |x| ensures HasTwin(a, i, y) {
      assert x[i] in p;
      var k :| 0 <= k < |p| && p[k] == x[i];
      assert q[k] in y;
      var j :| 0 <= j < |y| && y[j] == q[k];
    }
    forall j | 0 <= j < |y| ensures IsTwin(a, y[j]) {
      assert y[j] in q;
      var k :| 0 <= k < |q| && q[k] == y[j];
      assert p[k] in x;
      var i :| 0 <= i < |x| && x[i] == p[k];
    }
  }

  // The rest of a list after its first element: a comma and more, or the closing bracket.
  function ItemsTail(context: Json, items: seq<Json>, x: string): string
    requires Inside(context, items)
  {
    if items == [] then "]" + x else "," + (PrintItems(context, items) + ("]" + x))
  }

  lemma ItemsJoin(context: Json, items: seq<Json>, x: string)
    requires Inside(context, items) && items != []
    ensures PrintItems(context, items) + ("]" + x) == Print(items[0]) + ItemsTail(context, items[1..], x)
  {
    if |items| > 1 {
      var more := PrintItems(context, items[1..]);
      Regroup(Print(items[0]), "," + more, "]" + x);
      Regroup(",", more, "]" + x);
    }
  }

  lemma ItemsSplit(context: Json, items: seq<Json>, x: string)
    requires Inside(context, items)
    ensures var l := PrintItems(context, items) + ("]" + x);
      if items == [] then l == "]" + x && l[0] == ']'
      else
        var tail := ItemsTail(context, items[1..], x);
        l == Print(items[0]) + tail && Follows(tail) && l[0] == Print(items[0])[0] && l[0] != ']'
  {
    if items != [] {
      FirstChar(items[0]);
      ItemsJoin(context, items, x);
    }
  }

  lemma ItemsTailsUnique(a: Json, p: seq<Json>, b: Json, q: seq<Json>, x: string, y: string)
    requires Inside(a, p) && Inside(b, q) && ItemsTail(a, p, x) == ItemsTail(b, q, y)
    ensures p == [] <==> q == []
    ensures p == [] ==> x == y
    ensures p != [] ==> PrintItems(a, p) + ("]" + x) == PrintItems(b, q) + ("]" + y)
  {
    assert ItemsTail(a, p, x)[0] == ItemsTail(b, q, y)[0];
    if p == [] {
      SameRest("]", x, y);
    } else {
      SameRest(",", PrintItems(a, p) + ("]" + x), PrintItems(b, q) + ("]" + y));
    }
  }

  lemma {:induction false} ItemsUnique(a: Json, p: seq<Json>, b: Json, q: seq<Json>, x: string, y: string)
    requires Inside(a, p) && Inside(b, q)
    requires PrintItems(a, p) + ("]" + x) == PrintItems(b, q) + ("]" + y)
    requires Follows(x) && Follows(y)
    ensures |p| == |q| && (forall i :: 0 <= i < |p| ==> Same(p[i], q[i])) && x == y
    decreases a, 1, |p|
  {
    ItemsSplit(a, p, x);
    ItemsSplit(b, q, y);
    if p == [] {
      SameRest("]", x, y);
    } else {
      var restP, restQ := ItemsTail(a, p[1..], x), ItemsTail(b, q[1..], y);
      PrintUnique(p[0], q[0], restP, restQ);
      ItemsTailsUnique(a, p[1..], b, q[1..], x, y);
      if p[1..] != [] {
        ItemsUnique(a, p[1..], b, q[1..], x, y);
      }
      assert forall i :: 0 < i < |p| ==> p[i] == p[1..][i - 1] && q[i] == q[1..][i - 1];
    }
  }

  function MembersTail(context: Json, members: seq<Member>, x: string): string
    requires MembersInside(context, members)
  {
    if members == [] then "}" + x else "," + (PrintMembers(context, members) + ("}" + x))
  }

  lemma MembersSplit(context: Json, members: seq<Member>, x: string)
    requires MembersInside(context, members)
    ensures var l := PrintMembers(context, members) + ("}" + x);
      if members == [] then l == "}" + x && l[0] == '}'
      else
        var tail := MembersTail(context, members[1..], x);
        && l == Quote(members[0].key) + (":" + (Print(members[0].value) + tail))
        && Follows(tail) && l[0] == '\"'
  {
    if members != [] {
      var key, value := Quote(members[0].key), Print(members[0].value);
      var tail := MembersTail(context, members[1..], x);
      Regroup(key, ":" + value, tail);
      Regroup(":", value, tail);
      if |members| > 1 {
        var more := PrintMembers(context, members[1..]);
        Regroup(key + (":" + value), "," + more, "}" + x);
        Regroup(",", more, "}" + x);
      }
    }
  }

  // Members that print alike in front of their tails are alike, and so are the tails.
  lemma FirstMemberUnique(m: Member, n: Member, restM: string, restN: string)
    requires Quote(m.key) + (":" + (Print(m.value) + restM)) == Quote(n.key) + (":" + (Print(n.value) + restN))
    requires Follows(restM) && Follows(restN)
    ensures m.key == n.key && Same(m.value, n.value) && restM == restN
    decreases m.value, 3
  {
    var valueM, valueN := Print(m.value) + restM, Print(n.value) + restN;
    QuoteUnique(m.key, n.key, ":" + valueM, ":" + valueN);
    SameRest(":", valueM, valueN);
    PrintUnique(m.value, n.value, restM, restN);
  }

  lemma ConsPaired(p: seq<Member>, q: seq<Member>)
    requires p != [] && q != [] && p[0].key == q[0].key && Same(p[0].value, q[0].value) && Paired(p[1..], q[1..])
    ensures Paired(p, q)
  {
    assert forall i :: 0 < i < |p| ==> p[i] == p[1..][i - 1] && q[i] == q[1..][i - 1];
  }

  // Equal tails: either both end the object, or both go on with the next member.
  lemma MembersTailsUnique(a: Json, p: seq<Member>, b: Json, q: seq<Member>, x: string, y: string)
    requires MembersInside(a, p) && MembersInside(b, q) && MembersTail(a, p, x) == MembersTail(b, q, y)
    ensures p == [] <==> q == []
    ensures p == [] ==> x == y
    ensures p != [] ==> PrintMembers(a, p) + ("}" + x) == PrintMembers(b, q) + ("}" + y)
  {
    assert MembersTail(a, p, x)[0] == MembersTail(b, q, y)[0];
    if p == [] {
      SameRest("}", x, y);
    } else {
      SameRest(",", PrintMembers(a, p) + ("}" + x), PrintMembers(b, q) + ("}" + y));
    }
  }

  lemma {:induction false} MembersUnique(a: Json, p: seq<Member>, b: Json, q: seq<Member>, x: string, y: string)
    requires MembersInside(a, p) && MembersInside(b, q)
    requires PrintMembers(a, p) + ("}" + x) == PrintMembers(b, q) + ("}" + y)
    requires Follows(x) && Follows(y)
    ensures Paired(p, q) && x == y
    decreases a, 1, |p|
  {
    MembersSplit(a, p, x);
    MembersSplit(b, q, y);
    if p == [] {
      SameRest("}", x, y);
    } else {
      var restP, restQ := MembersTail(a, p[1..], x), MembersTail(b, q[1..], y);
      FirstMemberUnique(p[0], q[0], restP, restQ);
      MembersTailsUnique(a, p[1..], b, q[1..], x, y);
      if p[1..] != [] {
        MembersUnique(a, p[1..], b, q[1..], x, y);
      }
      ConsPaired(p, q);
    }
  }

  // ---------- equal values print equally ----------

  lemma {:induction false} SamePrints(a: Json, b: Json)
    requires WellFormed(a) && WellFormed(b) && Same(a, b)
    ensures Print(a) == Print(b)
    decreases a, 2
  {
    match a {
      case Array(items) =>
        SameItemsPrint(a, items, b, b.items);
      case Object(members) =>
        SortedMembersPair(a, b);
        SameMembersPrint(a, SortMembersByKey(members), b, SortMembersByKey(b.members));
      case _ =>
    }
  }

  predicate AllWellFormed(items: seq<Json>) {
    forall i :: 0 <= i < |items| ==> WellFormed(items[i])
  }

  predicate MembersWellFormed(members: seq<Member>) {
    forall i :: 0 <= i < |members| ==> WellFormed(members[i].value)
  }

  lemma {:induction false} SameItemsPrint(a: Json, p: seq<Json>, b: Json, q: seq<Json>)
    requires Inside(a, p) && Inside(b, q) && AllWellFormed(p) && AllWellFormed(q)
    requires |p| == |q| && forall i :: 0 <= i < |p| ==> Same(p[i], q[i])
    ensures PrintItems(a, p) == PrintItems(b, q)
    decreases a, 1, |p|
  {
    if p != [] {
      SamePrints(p[0], q[0]);
      SameItemsPrint(a, p[1..], b, q[1..]);
    }
  }

  lemma {:induction false} SameMembersPrint(a: Json, p: seq<Member>, b: Json, q: seq<Member>)
    requires MembersInside(a, p) && MembersInside(b, q) && MembersWellFormed(p) && MembersWellFormed(q)
    requires Paired(p, q)
    ensures PrintMembers(a, p) == PrintMembers(b, q)
    decreases a, 1, |p|
  {
    if p != [] {
      SamePrints(p[0].value, q[0].value);
      assert forall i :: 0 <= i < |p[1..]| ==> p[1..][i] == p[i + 1] && q[1..][i] == q[i + 1];
      SameMembersPrint(a, p[1..], b, q[1..]);
    }
  }

  lemma KeysAreDistinct(members: seq<Member>)
    requires forall i, j :: 0 <= i < j < |members| ==> members[i].key != members[j].key
    ensures Distinct(Keys(KeyOf, members))
  {
    forall i, j | 0 <= i < j < |members| ensures KeyOf(members[i]) != KeyOf(members[j]) {
      if KeyOf(members[i]) == KeyOf(members[j]) {
        CodesAreInjective(members[i].key, members[j].key);
      }
    }
  }

  lemma KeysIncluded(x: seq<Member>, y: seq<Member>)
    requires forall i :: 0 <= i < |x| ==> exists j :: 0 <= j < |y| && x[i].key == y[j].key
    ensures forall k :: k in Keys(KeyOf, x) ==> k in Keys(KeyOf, y)
  {
    forall k | k in Keys(KeyOf, x) ensures k in Keys(KeyOf, y) {
      var i :| 0 <= i < |x| && Keys(KeyOf, x)[i] == k;
      var j :| 0 <= j < |y| && x[i].key == y[j].key;
      assert Keys(KeyOf, y)[j] == k;
    }
  }

  lemma SortedKeySequences(x: seq<Member>, y: seq<Member>)
    requires Distinct(Keys(KeyOf, x)) && Distinct(Keys(KeyOf, y))
    requires forall k :: k in Keys(KeyOf, x) <==> k in Keys(KeyOf, y)
    ensures Keys(KeyOf, SortMembersByKey(x)) == Keys(KeyOf, SortMembersByKey(y))
  {
    SortForgetsOrderOfSets(Keys(KeyOf, x), Keys(KeyOf, y));
    SortCommutes(KeyOf, x);
    SortCommutes(KeyOf, y);
  }

  lemma EqualKeySequences(p: seq<Member>, q: seq<Member>)
    requires Keys(KeyOf, p) == Keys(KeyOf, q)
    ensures |p| == |q| && forall i :: 0 <= i < |p| ==> p[i].key == q[i].key
  {
    assert |p| == |Keys(KeyOf, p)| == |q|;
    forall i | 0 <= i < |p| ensures p[i].key == q[i].key {
      assert KeyOf(p[i]) == Keys(KeyOf, p)[i] == KeyOf(q[i]);
      CodesAreInjective(p[i].key, q[i].key);
    }
  }

  lemma SortedKeysAgree(a: Json, b: Json)
    requires a.Object? && WellFormed(a) && WellFormed(b) && Same(a, b)
    ensures |a.members| == |b.members|
    ensures var p, q := SortMembersByKey(a.members), SortMembersByKey(b.members);
      forall i :: 0 <= i < |p| ==> p[i].key == q[i].key
  {
    var x, y := a.members, b.members;
    KeysAreDistinct(x);
    KeysAreDistinct(y);
    forall i | 0 <= i < |x| ensures exists j :: 0 <= j < |y| && x[i].key == y[j].key {
      assert HasTwin(a, i, y);
    }
    forall j | 0 <= j < |y| ensures exists i :: 0 <= i < |x| && y[j].key == x[i].key {
      assert IsTwin(a, y[j]);
    }
    KeysIncluded(x, y);
    KeysIncluded(y, x);
    SortedKeySequences(x, y);
    EqualKeySequences(SortMembersByKey(x), SortMembersByKey(y));
  }

  lemma SortedMembersPair(a: Json, b: Json)
    requires a.Object? && WellFormed(a) && WellFormed(b) && Same(a, b)
    ensures Paired(SortMembersByKey(a.members), SortMembersByKey(b.members))
  {
    var x, y := a.members, b.members;
    var p, q := SortMembersByKey(x), SortMembersByKey(y);
    SortedKeysAgree(a, b);
    forall k | 0 <= k < |p| ensures Same(p[k].value, q[k].value) {
      assert p[k] in x && q[k] in y;
      var i :| 0 <= i < |x| && x[i] == p[k];
      assert HasTwin(a, i, y);
      var j :| 0 <= j < |y| && x[i].key == y[j].key && Same(x[i].value, y[j].value);
      var n :| 0 <= n < |y| && y[n] == q[k];
      assert n == j;
    }
  }

  // The canonical printer is injective and independent of key order: two JSON values print alike
  // exactly when they are the same value with objects taken as unordered maps.
  lemma PrintsAlikeIffSame(a: Json, b: Json)
    requires WellFormed(a) && WellFormed(b)
    ensures Print(a) == Print(b) <==> Same(a, b)
  {
    if Print(a) == Print(b) {
      assert Print(a) + "" == Print(b) + "";
      PrintUnique(a, b, "", "");
    }
    if Same(a, b) {
      SamePrints(a, b);
    }
  }

  // A content address `prefix + hash(stableStringify(payload))` identifies the payload up to key order
  // when the hash has no collisions.
  lemma AddressIdentifiesPayload(prefix: string, hash: string -> string, a: Json, b: Json)
    requires forall s, t :: hash(s) == hash(t) ==> s == t
    requires WellFormed(a) && WellFormed(b)
    ensures prefix + hash(Print(a)) == prefix + hash(Print(b)) <==> Same(a, b)
  {
    PrintsAlikeIffSame(a, b);
    var l, r := prefix + hash(Print(a)), prefix + hash(Print(b));
    if l == r {
      assert hash(Print(a)) == l[|prefix|..] == r[|prefix|..] == hash(Print(b));
    }
  }
}
