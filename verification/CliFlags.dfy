// The typed flag parser of the resident CLI, the flags it accepts, and the way back from printed flags
// and from a whole quoted command line to the arguments.
module CliFlags {
  import opened Wrappers
  import CommandLine

  const CONTENT_STDIN := "--content-stdin"
  const REQUEST_ID := "--request-id"

  datatype PropertyType = StringType | BooleanType | NumberType | IntegerType | ArrayType | OtherType

  datatype Property = Property(name: string, kind: PropertyType)

  // `inputSchema`: the entries of `properties` in order, and the required names.
  datatype Schema = Schema(properties: seq<Property>, required: seq<string>)

  // A numeric argument is kept as its accepted text.
  datatype Value = Text(s: string) | Flag(b: bool) | Numeral(text: string) | Items(items: seq<string>)

  datatype FlagError =
    | InvalidContentStdin
    | ExpectedFlag(flag: string)
    | MissingValue(flag: string)
    | InvalidRequestId
    | UnknownFlag(flag: string)
    | DuplicateContent
    | DuplicateFlag(flag: string)
    | InvalidBoolean(flag: string)
    | InvalidNumber(flag: string)
    | UnsupportedType
    | StdinNotAvailable
    | Rejected(reason: string)

  // ---------- names ----------

  predicate IsUpper(c: char) {
    'A' <= c <= 'Z'
  }

  function Lower(c: char): char
    requires IsUpper(c)
  {
    c + ' '
  }

  // `flagName`: every capital letter becomes a hyphen and the small letter.
  function FlagName(name: string): string {
    if name == "" then ""
    else (if IsUpper(name[0]) then ['-', Lower(name[0])] else [name[0]]) + FlagName(name[1..])
  }

  function FlagOf(name: string): string {
    "--" + FlagName(name)
  }

  // On names without hyphens the kebab spelling can be undone.
  lemma {:induction false} FlagNameIsInjective(a: string, b: string)
    requires '-' !in a && '-' !in b && FlagName(a) == FlagName(b)
    ensures a == b
  {
    if a == "" || b == "" {
      assert |FlagName(a)| >= |a| && |FlagName(b)| >= |b| by {
        FlagNameIsNotShorter(a);
        FlagNameIsNotShorter(b);
      }
    } else {
      var x, y := FlagName(a), FlagName(b);
      if IsUpper(a[0]) {
        assert x == ['-', Lower(a[0])] + FlagName(a[1..]) && x[2..] == FlagName(a[1..]);
        assert y[0] == '-' && IsUpper(b[0]);
        assert y == ['-', Lower(b[0])] + FlagName(b[1..]) && y[2..] == FlagName(b[1..]);
        assert x[1] == y[1];
      } else {
        assert x == [a[0]] + FlagName(a[1..]) && x[1..] == FlagName(a[1..]);
        assert y[0] != '-' && !IsUpper(b[0]);
        assert y == [b[0]] + FlagName(b[1..]) && y[1..] == FlagName(b[1..]);
      }
      FlagNameIsInjective(a[1..], b[1..]);
      assert a == [a[0]] + a[1..] && b == [b[0]] + b[1..];
    }
  }

  lemma {:induction false} FlagNameIsNotShorter(a: string)
    ensures |FlagName(a)| >= |a|
  {
    if a != "" {
      FlagNameIsNotShorter(a[1..]);
    }
  }

  function FindFlag(properties: seq<Property>, flag: string): Option<Property> {
    if properties == [] then None
    else if FlagOf(properties[0].name) == flag then Some(properties[0])
    else FindFlag(properties[1..], flag)
  }

  function KindOf(properties: seq<Property>, name: string): Option<PropertyType> {
    if properties == [] then None
    else if properties[0].name == name then Some(properties[0].kind)
    else KindOf(properties[1..], name)
  }

  // ---------- value syntax ----------

  predicate IsDigit(c: char) {
    '0' <= c <= '9'
  }

  // What follows the leading digits.
  function AfterDigits(s: string): string {
    if s != "" && IsDigit(s[0]) then AfterDigits(s[1..]) else s
  }

  predicate IsExponent(s: string) {
    s == "" ||
    (s[0] in "eE" &&
     var digits := if |s| > 1 && s[1] in "+-" then s[2..] else s[1..];
     digits != "" && AfterDigits(digits) == "")
  }

  // -?(digits[.digits] | .digits)[exponent]
  predicate IsNumeral(s: string) {
    var t := if s != "" && s[0] == '-' then s[1..] else s;
    if t == "" then false
    else if IsDigit(t[0]) then
      var u := AfterDigits(t);
      IsExponent(if u != "" && u[0] == '.' then AfterDigits(u[1..]) else u)
    else t[0] == '.' && |t| > 1 && IsDigit(t[1]) && IsExponent(AfterDigits(t[1..]))
  }

  predicate IsRequestId(s: string) {
    && 1 <= |s| <= 160
    && forall i :: 0 <= i < |s| ==>
      IsDigit(s[i]) || 'a' <= s[i] <= 'z' || 'A' <= s[i] <= 'Z' || s[i] == '_' || s[i] == '-'
  }

  // ---------- the parser ----------

  datatype Flags = Flags(args: map<string, Value>, requestId: Option<string>, contentStdin: bool)

  const NO_FLAGS := Flags(map[], None, false)

  // The text of one flag turned into its typed value.
  function Convert(kind: PropertyType, flag: string, before: seq<string>, value: string): Result<Value, FlagError> {
    match kind
    case ArrayType => Ok(Items(before + [value]))
    case BooleanType =>
      if value == "true" || value == "false" then Ok(Flag(value == "true")) else Error(InvalidBoolean(flag))
    case NumberType => if IsNumeral(value) then Ok(Numeral(value)) else Error(InvalidNumber(flag))
    case IntegerType => if IsNumeral(value) then Ok(Numeral(value)) else Error(InvalidNumber(flag))
    case StringType => Ok(Text(value))
    case OtherType => Error(UnsupportedType)
  }

  function ItemsBefore(args: map<string, Value>, name: string): seq<string> {
    if name in args && args[name].Items? then args[name].items else []
  }

  // One flag with its value.
  function TakeValue(schema: Schema, st: Flags, flag: string, value: string): Result<Flags, FlagError> {
    if flag == REQUEST_ID then
      if st.requestId.Some? || !IsRequestId(value) then Error(InvalidRequestId)
      else Ok(st.(requestId := Some(value)))
    else match FindFlag(schema.properties, flag)
      case None => Error(UnknownFlag(flag))
      case Some(Property(name, kind)) =>
        if name == "content" && st.contentStdin then Error(DuplicateContent)
        else if name in st.args && kind != ArrayType then Error(DuplicateFlag(flag))
        else
          var v :- Convert(kind, flag, ItemsBefore(st.args, name), value);
          Ok(st.(args := st.args[name := v]))
  }

  function TakeStdin(schema: Schema, st: Flags): Result<Flags, FlagError> {
    if st.contentStdin || "content" in st.args || KindOf(schema.properties, "content").None?
    then Error(InvalidContentStdin)
    else Ok(st.(contentStdin := true))
  }

  function Scan(schema: Schema, st: Flags, flags: seq<string>): Result<Flags, FlagError>
    decreases |flags|
  {
    if flags == [] then Ok(st)
    else if flags[0] == CONTENT_STDIN then
      var afterStdin := TakeStdin(schema, st);
      if afterStdin.Error? then Error(afterStdin.error) else Scan(schema, afterStdin.value, flags[1..])
    else if !("--" <= flags[0]) then Error(ExpectedFlag(flags[0]))
    else if |flags| == 1 then Error(MissingValue(flags[0]))
    else
      var afterValue := TakeValue(schema, st, flags[0], flags[1]);
      if afterValue.Error? then Error(afterValue.error) else Scan(schema, afterValue.value, flags[2..])
  }

  // Required arrays that were not given become empty arrays.
  function RestoreArrays(schema: Schema, required: seq<string>, args: map<string, Value>): map<string, Value> {
    if required == [] then args
    else
      var name := required[0];
      RestoreArrays(schema, required[1..],
        if KindOf(schema.properties, name) == Some(ArrayType) && name !in args then args[name := Items([])] else args)
  }

  // What `parseCliFlags` returns; without a request id a fresh UUID is drawn.
  datatype Parsed = Parsed(args: map<string, Value>, requestId: Option<string>)

  type Validator = map<string, Value> -> Option<string>

  function Finish(schema: Schema, validate: Validator, st: Flags, stdin: Option<string>): Result<Parsed, FlagError> {
    if st.contentStdin && stdin.None? then Error(StdinNotAvailable)
    else
      var given := if st.contentStdin then st.args["content" := Text(stdin.value)] else st.args;
      var args := RestoreArrays(schema, schema.required, given);
      match validate(args)
      case Some(reason) => Error(Rejected(reason))
      case None => Ok(Parsed(args, st.requestId))
  }

  function Parse(
    schema: Schema, validate: Validator, flags: seq<string>, stdin: Option<string>): Result<Parsed, FlagError> {
    var st :- Scan(schema, NO_FLAGS, flags);
    Finish(schema, validate, st, stdin)
  }

  // `parseCliFlags`: one loop over the flags with an advancing index, then one over the required names.
  method ParseCliFlags(schema: Schema, validate: Validator, flags: seq<string>, stdin: Option<string>)
    returns (r: Result<Parsed, FlagError>)
    ensures r == Parse(schema, validate, flags, stdin)
  {
    var args: map<string, Value>, requestId: Option<string>, contentStdin := map[], None, false;
    var index := 0;
    while index < |flags|
      invariant 0 <= index <= |flags|
      invariant Scan(schema, NO_FLAGS, flags) == Scan(schema, Flags(args, requestId, contentStdin), flags[index..])
    {
      var flag := flags[index];
      assert flags[index..][1..] == flags[index + 1..];
      if flag == CONTENT_STDIN {
        if contentStdin || "content" in args || KindOf(schema.properties, "content").None? {
          return Error(InvalidContentStdin);
        }
        contentStdin := true;
        index := index + 1;
        continue;
      }
      if !("--" <= flag) {
        return Error(ExpectedFlag(flag));
      }
      index := index + 1;
      if index == |flags| {
        return Error(MissingValue(flag));
      }
      var value := flags[index];
      assert flags[index - 1..][2..] == flags[index + 1..];
      index := index + 1;
      if flag == REQUEST_ID {
        if requestId.Some? || !IsRequestId(value) {
          return Error(InvalidRequestId);
        }
        requestId := Some(value);
        continue;
      }
      var entry := FindFlag(schema.properties, flag);
      if entry.None? {
        return Error(UnknownFlag(flag));
      }
      var Property(name, kind) := entry.value;
      if name == "content" && contentStdin {
        return Error(DuplicateContent);
      }
      if name in args && kind != ArrayType {
        return Error(DuplicateFlag(flag));
      }
      var v := Convert(kind, flag, ItemsBefore(args, name), value);
      if v.Error? {
        return Error(v.error);
      }
      args := args[name := v.value];
    }
    if contentStdin {
      if stdin.None? {
        return Error(StdinNotAvailable);
      }
      args := args["content" := Text(stdin.value)];
    }
    ghost var given := args;
    for i := 0 to |schema.required|
      invariant RestoreArrays(schema, schema.required, given) == RestoreArrays(schema, schema.required[i..], args)
    {
      var name := schema.required[i];
      assert schema.required[i..][1..] == schema.required[i + 1..];
      if KindOf(schema.properties, name) == Some(ArrayType) && name !in args {
        args := args[name := Items([])];
      }
    }
    var rejected := validate(args);
    if rejected.Some? {
      return Error(Rejected(rejected.value));
    }
    return Ok(Parsed(args, requestId));
  }

  lemma {:induction false} RestoredArrays(schema: Schema, required: seq<string>, args: map<string, Value>)
    ensures var restored := RestoreArrays(schema, required, args);
      forall name ::
        if name in args then name in restored && restored[name] == args[name]
        else if name in required && KindOf(schema.properties, name) == Some(ArrayType)
        then name in restored && restored[name] == Items([])
        else name !in restored
  {
    if required != [] {
      var first := required[0];
      var isNewArray := KindOf(schema.properties, first) == Some(ArrayType) && first !in args;
      var next := if isNewArray then args[first := Items([])] else args;
      RestoredArrays(schema, required[1..], next);
      assert forall name :: name in required <==> name == first || name in required[1..];
    }
  }

  // ---------- printed flags ----------

  datatype Printed = Argument(name: string, text: string) | RequestId(id: string) | ContentStdin

  function Show(p: Printed): seq<string> {
    match p
    case Argument(name, text) => [FlagOf(name), text]
    case RequestId(id) => [REQUEST_ID, id]
    case ContentStdin => [CONTENT_STDIN]
  }

  function ShowAll(ps: seq<Printed>): seq<string> {
    if ps == [] then [] else Show(ps[0]) + ShowAll(ps[1..])
  }

  // Property names are distinct, have no hyphen, and do not spell a reserved flag.
  predicate GoodNames(schema: Schema) {
    && (forall i, j :: 0 <= i < j < |schema.properties| ==> schema.properties[i].name != schema.properties[j].name)
    && (forall i :: 0 <= i < |schema.properties| ==> GoodName(schema.properties[i].name))
  }

  predicate GoodName(name: string) {
    '-' !in name && FlagOf(name) != REQUEST_ID && FlagOf(name) != CONTENT_STDIN
  }

  // The texts given for one name, in order.
  function TextsFor(ps: seq<Printed>, name: string): seq<string> {
    if ps == [] then []
    else
      var last := ps[|ps| - 1];
      TextsFor(ps[..|ps| - 1], name) + (if last.Argument? && last.name == name then [last.text] else [])
  }

  predicate ValidText(kind: PropertyType, text: string) {
    match kind
    case BooleanType => text == "true" || text == "false"
    case NumberType => IsNumeral(text)
    case IntegerType => IsNumeral(text)
    case OtherType => false
    case _ => true
  }

  predicate ValidItem(schema: Schema, p: Printed) {
    match p
    case Argument(name, text) =>
      KindOf(schema.properties, name).Some? && ValidText(KindOf(schema.properties, name).value, text)
    case RequestId(id) => IsRequestId(id)
    case ContentStdin => KindOf(schema.properties, "content").Some?
  }

  // Two items that may stand in the same command: only array arguments repeat, and the content comes
  // either from a flag or from standard input.
  predicate Compatible(schema: Schema, p: Printed, q: Printed) {
    && (p.Argument? && q.Argument? && p.name == q.name ==> KindOf(schema.properties, p.name) == Some(ArrayType))
    && (p.RequestId? ==> !q.RequestId?)
    && (p.ContentStdin? ==> !q.ContentStdin? && q != Argument("content", if q.Argument? then q.text else ""))
    && (q.ContentStdin? ==> p != Argument("content", if p.Argument? then p.text else ""))
  }

  predicate Acceptable(schema: Schema, ps: seq<Printed>) {
    && (forall i :: 0 <= i < |ps| ==> ValidItem(schema, ps[i]))
    && (forall i, j :: 0 <= i < j < |ps| ==> Compatible(schema, ps[i], ps[j]))
  }

  // The meaning of a printed list: every name with all its texts, whatever the order of the flags.
  function ValueOf(kind: PropertyType, texts: seq<string>): Value
    requires texts != []
  {
    match kind
    case ArrayType => Items(texts)
    case BooleanType => Flag(texts[0] == "true")
    case NumberType => Numeral(texts[0])
    case IntegerType => Numeral(texts[0])
    case _ => Text(texts[0])
  }

  ghost predicate Means(schema: Schema, ps: seq<Printed>, st: Flags) {
    && (forall name :: name in st.args <==> TextsFor(ps, name) != [])
    && (forall name :: name in st.args ==>
         KindOf(schema.properties, name).Some? &&
         st.args[name] == ValueOf(KindOf(schema.properties, name).value, TextsFor(ps, name)))
    && (forall id :: st.requestId == Some(id) <==> RequestId(id) in ps)
    && (st.contentStdin <==> ContentStdin in ps)
  }

  lemma {:induction false} KindOfMember(properties: seq<Property>, name: string)
    ensures KindOf(properties, name).Some? ==> Property(name, KindOf(properties, name).value) in properties
    ensures KindOf(properties, name).None? ==> forall p :: p in properties ==> p.name != name
  {
    if properties != [] && properties[0].name != name {
      KindOfMember(properties[1..], name);
      assert properties == [properties[0]] + properties[1..];
    }
  }

  lemma {:induction false} FindFlagOf(properties: seq<Property>, name: string)
    requires '-' !in name && forall i :: 0 <= i < |properties| ==> '-' !in properties[i].name
    ensures FindFlag(properties, FlagOf(name)) ==
      (match KindOf(properties, name) case None => None case Some(kind) => Some(Property(name, kind)))
  {
    if properties != [] {
      var first := properties[0].name;
      if FlagOf(first) == FlagOf(name) {
        assert FlagOf(first)[2..] == FlagName(first) && FlagOf(name)[2..] == FlagName(name);
        FlagNameIsInjective(first, name);
      }
      FindFlagOf(properties[1..], name);
    }
  }

  lemma {:induction false} TextsForMember(ps: seq<Printed>, name: string)
    ensures TextsFor(ps, name) != [] <==> exists i :: 0 <= i < |ps| && ps[i].Argument? && ps[i].name == name
  {
    if ps != [] {
      var init, last := ps[..|ps| - 1], ps[|ps| - 1];
      TextsForMember(init, name);
      assert forall i :: 0 <= i < |init| ==> init[i] == ps[i];
      if TextsFor(ps, name) != [] && !(last.Argument? && last.name == name) {
        var i :| 0 <= i < |init| && init[i].Argument? && init[i].name == name;
        assert ps[i].Argument? && ps[i].name == name;
      }
    }
  }

  // What the parser does with one printed item.
  function TakeItem(schema: Schema, st: Flags, p: Printed): Result<Flags, FlagError> {
    match p
    case Argument(name, text) => TakeValue(schema, st, FlagOf(name), text)
    case RequestId(id) => TakeValue(schema, st, REQUEST_ID, id)
    case ContentStdin => TakeStdin(schema, st)
  }

  predicate ReadableItem(p: Printed) {
    p.Argument? ==> GoodName(p.name)
  }

  lemma ScanItem(schema: Schema, st: Flags, p: Printed, rest: seq<string>)
    requires ReadableItem(p)
    ensures Scan(schema, st, Show(p) + rest) ==
      var taken := TakeItem(schema, st, p);
      if taken.Error? then Error(taken.error) else Scan(schema, taken.value, rest)
  {
    var flags := Show(p) + rest;
    if p.ContentStdin? {
      assert flags[1..] == rest;
    } else {
      assert flags[2..] == rest;
    }
  }

  predicate AcceptableNext(schema: Schema, done: seq<Printed>, p: Printed) {
    ValidItem(schema, p) && forall i :: 0 <= i < |done| ==> Compatible(schema, done[i], p)
  }

  lemma OtherItemsSpellNothing(done: seq<Printed>, p: Printed)
    requires !p.Argument?
    ensures forall name :: TextsFor(done + [p], name) == TextsFor(done, name)
    ensures forall q :: q in done + [p] <==> q in done || q == p
  {
    assert (done + [p])[..|done|] == done;
    assert forall name :: TextsFor(done + [p], name) == TextsFor(done, name) + [];
  }

  lemma TakeRequestIdMeans(schema: Schema, st: Flags, done: seq<Printed>, p: Printed)
    requires p.RequestId? && Means(schema, done, st)
    ensures TakeItem(schema, st, p).Ok? <==> AcceptableNext(schema, done, p)
    ensures TakeItem(schema, st, p).Ok? ==> Means(schema, done + [p], TakeItem(schema, st, p).value)
  {
    OtherItemsSpellNothing(done, p);
    if st.requestId.Some? {
      var i :| 0 <= i < |done| && done[i] == RequestId(st.requestId.value);
      assert !Compatible(schema, done[i], p);
    } else {
      assert forall i :: 0 <= i < |done| ==> done[i] in done && Compatible(schema, done[i], p);
    }
  }

  lemma TakeStdinMeans(schema: Schema, st: Flags, done: seq<Printed>, p: Printed)
    requires p.ContentStdin? && Means(schema, done, st)
    ensures TakeItem(schema, st, p).Ok? <==> AcceptableNext(schema, done, p)
    ensures TakeItem(schema, st, p).Ok? ==> Means(schema, done + [p], TakeItem(schema, st, p).value)
  {
    OtherItemsSpellNothing(done, p);
    TextsForMember(done, "content");
    if ContentStdin in done {
      var i :| 0 <= i < |done| && done[i] == ContentStdin;
      assert !Compatible(schema, done[i], p);
    } else if "content" in st.args {
      var i :| 0 <= i < |done| && done[i].Argument? && done[i].name == "content";
      assert !Compatible(schema, done[i], p);
    } else {
      assert forall i :: 0 <= i < |done| ==> done[i] in done && Compatible(schema, done[i], p);
    }
  }

  // The parser takes an item exactly when it fits what was already given, and then knows its meaning.
  lemma TakeItemMeans(schema: Schema, st: Flags, done: seq<Printed>, p: Printed)
    requires GoodNames(schema) && ReadableItem(p) && Means(schema, done, st)
    ensures TakeItem(schema, st, p).Ok? <==> AcceptableNext(schema, done, p)
    ensures TakeItem(schema, st, p).Ok? ==> Means(schema, done + [p], TakeItem(schema, st, p).value)
  {
    match p {
      case Argument(_, _) => TakeArgumentMeans(schema, st, done, p);
      case RequestId(_) => TakeRequestIdMeans(schema, st, done, p);
      case ContentStdin => TakeStdinMeans(schema, st, done, p);
    }
  }

  lemma TakeArgumentMeans(schema: Schema, st: Flags, done: seq<Printed>, p: Printed)
    requires GoodNames(schema) && p.Argument? && GoodName(p.name)
    requires Means(schema, done, st)
    ensures TakeItem(schema, st, p).Ok? <==> AcceptableNext(schema, done, p)
    ensures TakeItem(schema, st, p).Ok? ==> Means(schema, done + [p], TakeItem(schema, st, p).value)
  {
    var name, kind := p.name, KindOf(schema.properties, p.name);
    FindFlagOf(schema.properties, name);
    TextsForMember(done, name);
    if kind.Some? {
      if name == "content" && st.contentStdin {
        var i :| 0 <= i < |done| && done[i] == ContentStdin;
        assert !Compatible(schema, done[i], p);
      } else if name in st.args && kind.value != ArrayType {
        var i :| 0 <= i < |done| && done[i].Argument? && done[i].name == name;
        assert !Compatible(schema, done[i], p);
      } else if ValidText(kind.value, p.text) {
        assert AcceptableNext(schema, done, p);
        GivenTextMeans(schema, st, done, p);
      }
    }
  }

  // The value that `Convert` yields is the one spelled by all texts of the name so far.
  lemma TextsWith(done: seq<Printed>, p: Printed)
    requires p.Argument?
    ensures TextsFor(done + [p], p.name) == TextsFor(done, p.name) + [p.text]
    ensures forall n :: n != p.name ==> TextsFor(done + [p], n) == TextsFor(done, n)
    ensures forall q :: q in done + [p] <==> q in done || q == p
  {
    assert (done + [p])[..|done|] == done;
    assert forall n :: n != p.name ==> TextsFor(done + [p], n) == TextsFor(done, n) + [] == TextsFor(done, n);
  }

  lemma ConvertMeans(kind: PropertyType, flag: string, texts: seq<string>, before: seq<string>, text: string)
    requires ValidText(kind, text) && (texts != [] ==> kind == ArrayType) && (kind == ArrayType ==> before == texts)
    ensures Convert(kind, flag, before, text) == Ok(ValueOf(kind, texts + [text]))
  {
    assert texts == [] ==> texts + [text] == [text];
  }

  lemma MeansWith(schema: Schema, done: seq<Printed>, st: Flags, p: Printed)
    requires p.Argument? && KindOf(schema.properties, p.name).Some? && Means(schema, done, st)
    ensures TextsFor(done + [p], p.name) != []
    ensures var v := ValueOf(KindOf(schema.properties, p.name).value, TextsFor(done + [p], p.name));
      Means(schema, done + [p], st.(args := st.args[p.name := v]))
  {
    TextsWith(done, p);
  }

  lemma GivenTextMeans(schema: Schema, st: Flags, done: seq<Printed>, p: Printed)
    requires p.Argument? && KindOf(schema.properties, p.name).Some? && Means(schema, done, st)
    requires var kind := KindOf(schema.properties, p.name).value;
      ValidText(kind, p.text) && (p.name in st.args ==> kind == ArrayType)
    ensures var kind := KindOf(schema.properties, p.name).value;
      var v := Convert(kind, FlagOf(p.name), ItemsBefore(st.args, p.name), p.text);
      v.Ok? && Means(schema, done + [p], st.(args := st.args[p.name := v.value]))
  {
    var kind := KindOf(schema.properties, p.name).value;
    TextsWith(done, p);
    MeansWith(schema, done, st, p);
    ConvertMeans(kind, FlagOf(p.name), TextsFor(done, p.name), ItemsBefore(st.args, p.name), p.text);
  }

  lemma {:induction false} ScanPrinted(schema: Schema, st: Flags, done: seq<Printed>, todo: seq<Printed>)
    requires GoodNames(schema) && forall i :: 0 <= i < |todo| ==> ReadableItem(todo[i])
    requires Acceptable(schema, done) && Means(schema, done, st)
    ensures var r := Scan(schema, st, ShowAll(todo));
      && (r.Ok? <==> Acceptable(schema, done + todo))
      && (r.Ok? ==> Means(schema, done + todo, r.value))
    decreases |todo|
  {
    if todo == [] {
      assert done + todo == done;
    } else {
      var p, more := todo[0], done + [todo[0]];
      assert done + todo == more + todo[1..];
      ScanItem(schema, st, p, ShowAll(todo[1..]));
      TakeItemMeans(schema, st, done, p);
      ExtendAcceptable(schema, done, p, todo[1..]);
      if TakeItem(schema, st, p).Ok? {
        ScanPrinted(schema, TakeItem(schema, st, p).value, more, todo[1..]);
      }
    }
  }

  lemma ExtendAcceptable(schema: Schema, done: seq<Printed>, p: Printed, rest: seq<Printed>)
    requires Acceptable(schema, done)
    ensures Acceptable(schema, done + [p]) <==> AcceptableNext(schema, done, p)
    ensures Acceptable(schema, done + [p] + rest) ==> Acceptable(schema, done + [p])
  {
    var more := done + [p];
    assert forall i :: 0 <= i < |done| ==> more[i] == done[i];
    assert more[|done|] == p;
    if Acceptable(schema, more) {
      assert ValidItem(schema, more[|done|]);
      forall i | 0 <= i < |done| ensures Compatible(schema, done[i], p) {
        assert Compatible(schema, more[i], more[|done|]);
      }
    }
    if Acceptable(schema, more + rest) {
      assert forall i :: 0 <= i < |more| ==> (more + rest)[i] == more[i];
      forall i | 0 <= i < |more| ensures ValidItem(schema, more[i]) {
        assert ValidItem(schema, (more + rest)[i]);
      }
      forall i, j | 0 <= i < j < |more| ensures Compatible(schema, more[i], more[j]) {
        assert Compatible(schema, (more + rest)[i], (more + rest)[j]);
      }
    }
  }

  // For any list of printed flags, in any order and with any array elements interleaved: it is
  // accepted exactly when each item is well typed and the items go together, and then every name has
  // the value its texts spell, array elements in their order.
  lemma PrintedFlagsAreRead(schema: Schema, ps: seq<Printed>)
    requires GoodNames(schema) && forall i :: 0 <= i < |ps| ==> ReadableItem(ps[i])
    ensures var r := Scan(schema, NO_FLAGS, ShowAll(ps));
      && (r.Ok? <==> Acceptable(schema, ps))
      && (r.Ok? ==> Means(schema, ps, r.value))
  {
    assert [] + ps == ps;
    ScanPrinted(schema, NO_FLAGS, [], ps);
  }

  // ---------- nothing else is accepted ----------

  lemma {:induction false} FindFlagMember(properties: seq<Property>, flag: string)
    ensures match FindFlag(properties, flag)
      case None => true
      case Some(p) => p in properties && FlagOf(p.name) == flag
  {
    if properties != [] && FlagOf(properties[0].name) != flag {
      FindFlagMember(properties[1..], flag);
      assert properties == [properties[0]] + properties[1..];
    }
  }

  // Every accepted flag list is a printed one.
  lemma {:induction false} AcceptedFlagsArePrinted(
    schema: Schema, st: Flags, flags: seq<string>) returns (ps: seq<Printed>)
    requires GoodNames(schema) && Scan(schema, st, flags).Ok?
    ensures ShowAll(ps) == flags && forall i :: 0 <= i < |ps| ==> ReadableItem(ps[i])
    decreases |flags|
  {
    if flags == [] {
      ps := [];
    } else if flags[0] == CONTENT_STDIN {
      var rest := AcceptedFlagsArePrinted(schema, TakeStdin(schema, st).value, flags[1..]);
      ps := [ContentStdin] + rest;
      assert ps[1..] == rest && flags == [flags[0]] + flags[1..];
    } else {
      var rest := AcceptedFlagsArePrinted(schema, TakeValue(schema, st, flags[0], flags[1]).value, flags[2..]);
      var item := ItemOf(schema, st, flags[0], flags[1]);
      ps := [item] + rest;
      assert ps[1..] == rest && flags == [flags[0], flags[1]] + flags[2..];
    }
  }

  lemma ItemOf(schema: Schema, st: Flags, flag: string, value: string) returns (item: Printed)
    requires GoodNames(schema) && TakeValue(schema, st, flag, value).Ok?
    ensures Show(item) == [flag, value] && ReadableItem(item)
  {
    if flag == REQUEST_ID {
      item := RequestId(value);
    } else {
      FindFlagMember(schema.properties, flag);
      item := Argument(FindFlag(schema.properties, flag).value.name, value);
    }
  }

  // ---------- why a list is refused ----------

  // The property that a flag names.
  predicate Names(schema: Schema, flag: string, p: Property) {
    p in schema.properties && FlagOf(p.name) == flag
  }

  // A value for a property that may still be given.
  predicate MayGive(done: seq<Printed>, p: Property) {
    && (p.kind == ArrayType || TextsFor(done, p.name) == [])
    && (p.name == "content" ==> ContentStdin !in done)
  }

  // After these items the next flag, or the value behind it, is refused for this reason.
  ghost predicate IsRefusal(schema: Schema, done: seq<Printed>, rest: seq<string>, e: FlagError) {
    && rest != []
    && var flag := rest[0];
       match e
       case InvalidContentStdin =>
         flag == CONTENT_STDIN && (ContentStdin in done || TextsFor(done, "content") != []
           || forall p :: p in schema.properties ==> p.name != "content")
       case ExpectedFlag(f) => f == flag && !("--" <= f)
       case MissingValue(f) => f == flag && "--" <= f && f != CONTENT_STDIN && |rest| == 1
       case InvalidRequestId =>
         |rest| > 1 && flag == REQUEST_ID && ((exists id :: RequestId(id) in done) || !IsRequestId(rest[1]))
       case UnknownFlag(f) =>
         |rest| > 1 && f == flag && "--" <= f && f != REQUEST_ID && f != CONTENT_STDIN
         && forall p :: p in schema.properties ==> FlagOf(p.name) != f
       case DuplicateContent =>
         |rest| > 1 && ContentStdin in done && exists p :: Names(schema, flag, p) && p.name == "content"
       case DuplicateFlag(f) =>
         |rest| > 1 && f == flag
         && exists p :: Names(schema, f, p) && p.kind != ArrayType && TextsFor(done, p.name) != []
       case InvalidBoolean(f) =>
         |rest| > 1 && f == flag && rest[1] != "true" && rest[1] != "false"
         && exists p :: Names(schema, f, p) && p.kind == BooleanType && MayGive(done, p)
       case InvalidNumber(f) =>
         |rest| > 1 && f == flag && !IsNumeral(rest[1])
         && exists p :: Names(schema, f, p) && p.kind in {NumberType, IntegerType} && MayGive(done, p)
       case UnsupportedType =>
         |rest| > 1 && exists p :: Names(schema, flag, p) && p.kind == OtherType && MayGive(done, p)
       case _ => false
  }

  lemma {:induction false} NoSuchFlag(properties: seq<Property>, flag: string)
    requires FindFlag(properties, flag).None?
    ensures forall p :: p in properties ==> FlagOf(p.name) != flag
  {
    if properties != [] {
      NoSuchFlag(properties[1..], flag);
      assert properties == [properties[0]] + properties[1..];
    }
  }

  lemma {:induction false} StdinRefused(schema: Schema, st: Flags, done: seq<Printed>, rest: seq<string>)
    requires Means(schema, done, st) && rest != [] && rest[0] == CONTENT_STDIN && TakeStdin(schema, st).Error?
    ensures IsRefusal(schema, done, rest, TakeStdin(schema, st).error)
  {
    KindOfMember(schema.properties, "content");
  }

  lemma {:induction false} ValueRefused(schema: Schema, st: Flags, done: seq<Printed>, rest: seq<string>)
    requires Means(schema, done, st) && |rest| > 1 && "--" <= rest[0] && rest[0] != CONTENT_STDIN
    requires TakeValue(schema, st, rest[0], rest[1]).Error?
    ensures IsRefusal(schema, done, rest, TakeValue(schema, st, rest[0], rest[1]).error)
  {
    var flag := rest[0];
    if flag == REQUEST_ID {
      assert st.requestId.Some? ==> RequestId(st.requestId.value) in done;
    } else if FindFlag(schema.properties, flag).None? {
      NoSuchFlag(schema.properties, flag);
    } else {
      FindFlagMember(schema.properties, flag);
      assert Names(schema, flag, FindFlag(schema.properties, flag).value);
    }
  }

  lemma {:induction false} ItemIsTaken(
    schema: Schema, st: Flags, done: seq<Printed>, flag: string, value: string) returns (item: Printed)
    requires GoodNames(schema) && Acceptable(schema, done) && Means(schema, done, st)
    requires "--" <= flag && flag != CONTENT_STDIN && TakeValue(schema, st, flag, value).Ok?
    ensures Show(item) == [flag, value] && ReadableItem(item)
    ensures Acceptable(schema, done + [item]) && Means(schema, done + [item], TakeValue(schema, st, flag, value).value)
  {
    item := ItemOf(schema, st, flag, value);
    assert Show(item)[0] == flag && Show(item)[1] == value;
    TakeItemMeans(schema, st, done, item);
    ExtendAcceptable(schema, done, item, []);
  }

  // A list is refused at its first item that does not fit those before it, and for its own reason.
  lemma {:induction false} RefusedFor(schema: Schema, st: Flags, done: seq<Printed>, flags: seq<string>)
    returns (items: seq<Printed>, rest: seq<string>)
    requires GoodNames(schema) && Acceptable(schema, done) && Means(schema, done, st)
    requires Scan(schema, st, flags).Error?
    ensures flags == ShowAll(items) + rest && Acceptable(schema, done + items)
    ensures IsRefusal(schema, done + items, rest, Scan(schema, st, flags).error)
    decreases |flags|
  {
    items, rest := [], flags;
    assert done + [] == done && ShowAll([]) + flags == flags;
    if flags[0] == CONTENT_STDIN {
      if TakeStdin(schema, st).Error? {
        StdinRefused(schema, st, done, flags);
      } else {
        TakeItemMeans(schema, st, done, ContentStdin);
        ExtendAcceptable(schema, done, ContentStdin, []);
        var more;
        more, rest := RefusedFor(schema, TakeStdin(schema, st).value, done + [ContentStdin], flags[1..]);
        items := [ContentStdin] + more;
        RefusedLater(done, ContentStdin, more, flags, flags[1..], rest);
      }
    } else if "--" <= flags[0] && |flags| > 1 {
      if TakeValue(schema, st, flags[0], flags[1]).Error? {
        ValueRefused(schema, st, done, flags);
      } else {
        var item := ItemIsTaken(schema, st, done, flags[0], flags[1]);
        var more;
        more, rest := RefusedFor(
          schema, TakeValue(schema, st, flags[0], flags[1]).value, done + [item], flags[2..]);
        items := [item] + more;
        RefusedLater(done, item, more, flags, flags[2..], rest);
      }
    }
  }

  lemma {:induction false} RefusedFlags(schema: Schema, flags: seq<string>)
    returns (items: seq<Printed>, rest: seq<string>)
    requires GoodNames(schema) && Scan(schema, NO_FLAGS, flags).Error?
    ensures flags == ShowAll(items) + rest && Acceptable(schema, items)
    ensures IsRefusal(schema, items, rest, Scan(schema, NO_FLAGS, flags).error)
  {
    items, rest := RefusedFor(schema, NO_FLAGS, [], flags);
    assert [] + items == items;
  }

  lemma {:induction false} RefusedLater(
    done: seq<Printed>, item: Printed, more: seq<Printed>, flags: seq<string>, tail: seq<string>, rest: seq<string>)
    requires flags == Show(item) + tail && tail == ShowAll(more) + rest
    ensures flags == ShowAll([item] + more) + rest && done + [item] + more == done + ([item] + more)
  {
    assert ([item] + more)[1..] == more;
  }

  // ---------- from a command line to arguments ----------

  // The printed items present the arguments: each name appears with exactly the texts of its value.
  ghost predicate Presents(schema: Schema, ps: seq<Printed>, args: map<string, Value>) {
    PresentsGiven(schema, ps, args) && ContentStdin !in ps
  }

  // The same of the arguments that are given by flags, when the content may come from standard input.
  ghost predicate PresentsGiven(schema: Schema, ps: seq<Printed>, args: map<string, Value>) {
    && Acceptable(schema, ps)
    && forall name ::
      if name !in args then TextsFor(ps, name) == []
      else match args[name]
        case Text(s) => KindOf(schema.properties, name) == Some(StringType) && TextsFor(ps, name) == [s]
        case Flag(b) =>
          KindOf(schema.properties, name) == Some(BooleanType) && TextsFor(ps, name) == [if b then "true" else "false"]
        case Numeral(t) =>
          && KindOf(schema.properties, name) in {Some(NumberType), Some(IntegerType)}
          && TextsFor(ps, name) == [t]
        case Items(items) =>
          KindOf(schema.properties, name) == Some(ArrayType) && items != [] && TextsFor(ps, name) == items
  }

  lemma {:induction false} PresentedArgs(schema: Schema, ps: seq<Printed>, args: map<string, Value>, st: Flags)
    requires PresentsGiven(schema, ps, args) && Means(schema, ps, st)
    ensures st.args == args
  {
    forall name ensures name in args <==> name in st.args {
    }
    forall name | name in args ensures st.args[name] == args[name] {
      assert TextsFor(ps, name) != [];
    }
  }

  // Printing arguments as flags in any order and parsing them gives the arguments back, with omitted
  // required arrays restored as empty.
  lemma FlagsRoundTrip(
    schema: Schema, validate: Validator, ps: seq<Printed>, args: map<string, Value>, stdin: Option<string>)
    requires GoodNames(schema) && forall i :: 0 <= i < |ps| ==> ReadableItem(ps[i])
    requires Presents(schema, ps, args)
    requires validate(RestoreArrays(schema, schema.required, args)).None?
    ensures var r := Parse(schema, validate, ShowAll(ps), stdin);
      && r.Ok? && r.value.args == RestoreArrays(schema, schema.required, args)
      && (forall id :: r.value.requestId == Some(id) <==> RequestId(id) in ps)
  {
    PrintedFlagsAreRead(schema, ps);
    PresentedArgs(schema, ps, args, Scan(schema, NO_FLAGS, ShowAll(ps)).value);
  }

  // Parsed arguments, or what the validator has against them.
  ghost predicate IsParsed(
    schema: Schema, validate: Validator, ps: seq<Printed>, given: map<string, Value>, r: Result<Parsed, FlagError>)
  {
    var restored := RestoreArrays(schema, schema.required, given);
    match r
    case Ok(parsed) =>
      && validate(restored).None? && parsed.args == restored
      && forall id :: parsed.requestId == Some(id) <==> RequestId(id) in ps
    case Error(error) => validate(restored).Some? && error == Rejected(validate(restored).value)
  }

  // Without `--content-stdin` the arguments are those of the flags, whatever standard input holds. With it
  // the content is exactly the text that was read, and when nothing can be read the command fails.
  lemma {:induction false} StdinRoundTrip(
    schema: Schema, validate: Validator, ps: seq<Printed>, args: map<string, Value>, stdin: Option<string>)
    requires GoodNames(schema) && forall i :: 0 <= i < |ps| ==> ReadableItem(ps[i])
    requires PresentsGiven(schema, ps, args)
    ensures var r := Parse(schema, validate, ShowAll(ps), stdin);
      if ContentStdin !in ps then IsParsed(schema, validate, ps, args, r)
      else match stdin
        case None => r == Error(StdinNotAvailable)
        case Some(text) => "content" !in args && IsParsed(schema, validate, ps, args["content" := Text(text)], r)
  {
    PrintedFlagsAreRead(schema, ps);
    PresentedArgs(schema, ps, args, Scan(schema, NO_FLAGS, ShowAll(ps)).value);
    if ContentStdin in ps {
      NoContentBeside(schema, ps);
    }
  }

  // The content is not given twice.
  lemma {:induction false} NoContentBeside(schema: Schema, ps: seq<Printed>)
    requires Acceptable(schema, ps) && ContentStdin in ps
    ensures TextsFor(ps, "content") == []
  {
    TextsForMember(ps, "content");
    var k :| 0 <= k < |ps| && ps[k] == ContentStdin;
    forall i | 0 <= i < |ps| ensures !(ps[i].Argument? && ps[i].name == "content") {
      if i < k {
        assert Compatible(schema, ps[i], ps[k]);
      } else if k < i {
        assert Compatible(schema, ps[k], ps[i]);
      }
    }
  }

  // ---------- the printer from arguments to flags ----------

  function TextsOf(v: Value): seq<string> {
    match v
    case Text(s) => [s]
    case Flag(b) => [if b then "true" else "false"]
    case Numeral(t) => [t]
    case Items(items) => items
  }

  function Named(name: string, texts: seq<string>): seq<Printed> {
    if texts == [] then [] else Named(name, texts[..|texts| - 1]) + [Argument(name, texts[|texts| - 1])]
  }

  // The arguments as flags, in the given order of names.
  function PrintArgs(args: map<string, Value>, order: seq<string>): seq<Printed> {
    if order == [] then []
    else
      var last := order[|order| - 1];
      PrintArgs(args, order[..|order| - 1]) + (if last in args then Named(last, TextsOf(args[last])) else [])
  }

  // A value of the declared type; an empty array has no flag.
  predicate Fits(kind: PropertyType, v: Value) {
    match v
    case Text(_) => kind == StringType
    case Flag(_) => kind == BooleanType
    case Numeral(t) => kind in {NumberType, IntegerType} && IsNumeral(t)
    case Items(items) => kind == ArrayType && items != []
  }

  predicate FitsSchema(schema: Schema, args: map<string, Value>) {
    forall name :: name in args ==>
      KindOf(schema.properties, name).Some? && Fits(KindOf(schema.properties, name).value, args[name])
  }

  // Every argument once.
  ghost predicate IsOrder(args: map<string, Value>, order: seq<string>) {
    && (forall name :: name in order <==> name in args)
    && (forall i, j :: 0 <= i < j < |order| ==> order[i] != order[j])
  }

  lemma {:induction false} TextsForConcat(a: seq<Printed>, b: seq<Printed>, name: string)
    ensures TextsFor(a + b, name) == TextsFor(a, name) + TextsFor(b, name)
    decreases |b|
  {
    if b == [] {
      assert a + b == a && TextsFor(a, name) + [] == TextsFor(a, name);
    } else {
      var init := b[..|b| - 1];
      assert (a + b)[..|a + b| - 1] == a + init;
      TextsForConcat(a, init, name);
    }
  }

  lemma {:induction false} NamedMeans(name: string, texts: seq<string>)
    ensures |Named(name, texts)| == |texts|
    ensures forall i :: 0 <= i < |texts| ==> Named(name, texts)[i] == Argument(name, texts[i])
  {
    if texts != [] {
      NamedMeans(name, texts[..|texts| - 1]);
    }
  }

  lemma {:induction false} TextsForNamed(name: string, texts: seq<string>, other: string)
    ensures TextsFor(Named(name, texts), other) == if other == name then texts else []
  {
    if texts != [] {
      var init, last := texts[..|texts| - 1], texts[|texts| - 1];
      TextsForNamed(name, init, other);
      var ps := Named(name, texts);
      assert ps[..|ps| - 1] == Named(name, init) && texts == init + [last];
    }
  }

  lemma {:induction false} TextsOfPrinted(args: map<string, Value>, order: seq<string>, name: string)
    requires forall i, j :: 0 <= i < j < |order| ==> order[i] != order[j]
    ensures TextsFor(PrintArgs(args, order), name) == if name in order && name in args then TextsOf(args[name]) else []
    decreases |order|
  {
    if order != [] {
      var init, last := order[..|order| - 1], order[|order| - 1];
      TextsOfPrinted(args, init, name);
      assert order == init + [last];
      assert last !in init;
      if last in args {
        TextsForConcat(PrintArgs(args, init), Named(last, TextsOf(args[last])), name);
        TextsForNamed(last, TextsOf(args[last]), name);
      } else {
        assert PrintArgs(args, init) + [] == PrintArgs(args, init);
      }
    }
  }

  // Every printed item is a flag of its argument with one of its texts.
  lemma {:induction false} PrintedItems(args: map<string, Value>, order: seq<string>, k: nat)
    requires k < |PrintArgs(args, order)|
    ensures var p := PrintArgs(args, order)[k];
      p.Argument? && p.name in order && p.name in args && p.text in TextsOf(args[p.name])
    decreases |order|
  {
    var init, last := order[..|order| - 1], order[|order| - 1];
    if k < |PrintArgs(args, init)| {
      PrintedItems(args, init, k);
    } else {
      NamedMeans(last, TextsOf(args[last]));
    }
  }

  // Two items of one name belong to an array.
  lemma {:induction false} RepeatedItems(schema: Schema, args: map<string, Value>, order: seq<string>, k: nat, l: nat)
    requires FitsSchema(schema, args) && forall i, j :: 0 <= i < j < |order| ==> order[i] != order[j]
    requires k < l < |PrintArgs(args, order)|
    ensures Compatible(schema, PrintArgs(args, order)[k], PrintArgs(args, order)[l])
    decreases |order|
  {
    var init, last := order[..|order| - 1], order[|order| - 1];
    var n := |PrintArgs(args, init)|;
    PrintedItems(args, order, k);
    PrintedItems(args, order, l);
    if l < n {
      RepeatedItems(schema, args, init, k, l);
    } else {
      NamedMeans(last, TextsOf(args[last]));
      if k < n {
        PrintedItems(args, init, k);
        assert order == init + [last];
        NotRepeated(order, PrintArgs(args, init)[k].name);
      } else {
        assert |TextsOf(args[last])| > 1;
      }
    }
  }

  lemma {:induction false} NotRepeated(order: seq<string>, name: string)
    requires order != [] && (forall i, j :: 0 <= i < j < |order| ==> order[i] != order[j])
    requires name in order[..|order| - 1]
    ensures name != order[|order| - 1]
  {
    var i :| 0 <= i < |order| - 1 && order[i] == name;
  }

  lemma {:induction false} ValidPrinted(schema: Schema, args: map<string, Value>, p: Printed)
    requires FitsSchema(schema, args) && p.Argument? && p.name in args && p.text in TextsOf(args[p.name])
    ensures ValidItem(schema, p)
  {
  }

  // The printed flags present their arguments.
  lemma {:induction false} PrintedArgsPresent(schema: Schema, args: map<string, Value>, order: seq<string>)
    requires FitsSchema(schema, args) && IsOrder(args, order)
    ensures Presents(schema, PrintArgs(args, order), args)
  {
    var ps := PrintArgs(args, order);
    forall k | 0 <= k < |ps| ensures ValidItem(schema, ps[k]) && ps[k].Argument? {
      PrintedItems(args, order, k);
      ValidPrinted(schema, args, ps[k]);
    }
    forall k, l | 0 <= k < l < |ps| ensures Compatible(schema, ps[k], ps[l]) {
      RepeatedItems(schema, args, order, k, l);
    }
    forall name ensures TextsFor(ps, name) == if name in args then TextsOf(args[name]) else [] {
      TextsOfPrinted(args, order, name);
    }
  }

  lemma {:induction false} PrintedAreReadable(schema: Schema, args: map<string, Value>, order: seq<string>)
    requires GoodNames(schema) && FitsSchema(schema, args)
    ensures forall k :: 0 <= k < |PrintArgs(args, order)| ==> ReadableItem(PrintArgs(args, order)[k])
  {
    forall k | 0 <= k < |PrintArgs(args, order)| ensures ReadableItem(PrintArgs(args, order)[k]) {
      PrintedItems(args, order, k);
      var name := PrintArgs(args, order)[k].name;
      KindOfMember(schema.properties, name);
      var i :| 0 <= i < |schema.properties|
        && schema.properties[i] == Property(name, KindOf(schema.properties, name).value);
      assert GoodName(schema.properties[i].name);
    }
  }

  // Arguments printed as flags, in any order of their names, are parsed back.
  lemma {:induction false} ArgumentsRoundTrip(
    schema: Schema, validate: Validator, args: map<string, Value>, order: seq<string>, stdin: Option<string>)
    requires GoodNames(schema) && FitsSchema(schema, args) && IsOrder(args, order)
    requires validate(RestoreArrays(schema, schema.required, args)).None?
    ensures var r := Parse(schema, validate, ShowAll(PrintArgs(args, order)), stdin);
      r.Ok? && r.value.args == RestoreArrays(schema, schema.required, args)
  {
    PrintedArgsPresent(schema, args, order);
    PrintedAreReadable(schema, args, order);
    FlagsRoundTrip(schema, validate, PrintArgs(args, order), args, stdin);
  }

  // The whole way: a resident command written with any quoting of its words is lexed into its route
  // and flags, and the flags are parsed into the arguments they present.
  lemma CommandRoundTrip(schema: Schema, validate: Validator, words: seq<CommandLine.Printed>,
      group: string, operation: string, ps: seq<Printed>, args: map<string, Value>)
    requires GoodNames(schema) && forall i :: 0 <= i < |ps| ==> ReadableItem(ps[i])
    requires Presents(schema, ps, args)
    requires validate(RestoreArrays(schema, schema.required, args)).None?
    requires CommandLine.Texts(words) == [group, operation] + ShowAll(ps)
    requires |CommandLine.ShowCommand(words)| <= CommandLine.MAX_COMMAND_LENGTH
    requires forall i :: 0 <= i < |words| ==> '\0' !in words[i].word
    ensures var argv := CommandLine.Parse(CommandLine.ShowCommand(words));
      && argv.Ok? && |argv.value| >= 2 && argv.value[..2] == [group, operation]
      && var r := Parse(schema, validate, argv.value[2..], None);
        r.Ok? && r.value.args == RestoreArrays(schema, schema.required, args)
  {
    CommandLine.QuotingRoundTrip(words);
    var argv := CommandLine.Parse(CommandLine.ShowCommand(words)).value;
    assert argv[2..] == ShowAll(ps);
    FlagsRoundTrip(schema, validate, ps, args, None);
  }

  // From arguments to one command string, quoted in either style, and back.
  lemma {:induction false} ArgumentsCommandRoundTrip(
    schema: Schema, validate: Validator, words: seq<CommandLine.Printed>,
    group: string, operation: string, args: map<string, Value>, order: seq<string>)
    requires GoodNames(schema) && FitsSchema(schema, args) && IsOrder(args, order)
    requires validate(RestoreArrays(schema, schema.required, args)).None?
    requires CommandLine.Texts(words) == [group, operation] + ShowAll(PrintArgs(args, order))
    requires |CommandLine.ShowCommand(words)| <= CommandLine.MAX_COMMAND_LENGTH
    requires forall i :: 0 <= i < |words| ==> '\0' !in words[i].word
    ensures var argv := CommandLine.Parse(CommandLine.ShowCommand(words));
      && argv.Ok? && |argv.value| >= 2 && argv.value[..2] == [group, operation]
      && var r := Parse(schema, validate, argv.value[2..], None);
        r.Ok? && r.value.args == RestoreArrays(schema, schema.required, args)
  {
    PrintedArgsPresent(schema, args, order);
    PrintedAreReadable(schema, args, order);
    CommandRoundTrip(schema, validate, words, group, operation, PrintArgs(args, order), args);
  }

  // ---------- the flag for standard input, anywhere among the others ----------

  function WithStdin(ps: seq<Printed>, k: nat): seq<Printed>
    requires k <= |ps|
  {
    ps[..k] + [ContentStdin] + ps[k..]
  }

  lemma {:induction false} StdinSpellsNothing(ps: seq<Printed>, k: nat, name: string)
    requires k <= |ps|
    ensures TextsFor(WithStdin(ps, k), name) == TextsFor(ps, name)
  {
    TextsForConcat(ps[..k] + [ContentStdin], ps[k..], name);
    TextsForConcat(ps[..k], [ContentStdin], name);
    TextsForConcat(ps[..k], ps[k..], name);
    assert ps[..k] + ps[k..] == ps;
    assert TextsFor([ContentStdin], name) == [];
    assert TextsFor(ps[..k], name) + [] == TextsFor(ps[..k], name);
  }

  lemma {:induction false} StdinFits(schema: Schema, ps: seq<Printed>, k: nat)
    requires k <= |ps| && Acceptable(schema, ps) && KindOf(schema.properties, "content").Some?
    requires forall i :: 0 <= i < |ps| ==> ps[i].Argument? && ps[i].name != "content"
    ensures Acceptable(schema, WithStdin(ps, k))
  {
    var qs := WithStdin(ps, k);
    forall i | 0 <= i < |qs| ensures ValidItem(schema, qs[i]) {
      if i < k {
        assert qs[i] == ps[i];
      } else if i > k {
        assert qs[i] == ps[i - 1];
      }
    }
    forall i, j | 0 <= i < j < |qs| ensures Compatible(schema, qs[i], qs[j]) {
      var p, q := if i < k then i else i - 1, if j < k then j else j - 1;
      assert i != k ==> qs[i] == ps[p];
      assert j != k ==> qs[j] == ps[q];
    }
  }

  lemma {:induction false} StdinIsGiven(schema: Schema, ps: seq<Printed>, args: map<string, Value>, k: nat)
    requires Presents(schema, ps, args) && k <= |ps| && KindOf(schema.properties, "content").Some?
    requires forall i :: 0 <= i < |ps| ==> ps[i].Argument? && ps[i].name != "content" && ReadableItem(ps[i])
    ensures PresentsGiven(schema, WithStdin(ps, k), args) && ContentStdin in WithStdin(ps, k)
    ensures forall i :: 0 <= i < |ps| + 1 ==> ReadableItem(WithStdin(ps, k)[i]) && !WithStdin(ps, k)[i].RequestId?
  {
    var qs := WithStdin(ps, k);
    StdinFits(schema, ps, k);
    SameTexts(schema, ps, args, k);
    assert qs[k] == ContentStdin;
    forall i | 0 <= i < |qs| ensures ReadableItem(qs[i]) && !qs[i].RequestId? {
      if i < k {
        assert qs[i] == ps[i];
      } else if i > k {
        assert qs[i] == ps[i - 1];
      }
    }
  }

  lemma {:induction false} SameTexts(schema: Schema, ps: seq<Printed>, args: map<string, Value>, k: nat)
    requires PresentsGiven(schema, ps, args) && k <= |ps| && Acceptable(schema, WithStdin(ps, k))
    ensures PresentsGiven(schema, WithStdin(ps, k), args)
  {
    forall name ensures TextsFor(WithStdin(ps, k), name) == TextsFor(ps, name) {
      StdinSpellsNothing(ps, k, name);
    }
  }

  lemma {:induction false} PrintedAreArguments(
    schema: Schema, args: map<string, Value>, order: seq<string>, ps: seq<Printed>)
    requires GoodNames(schema) && FitsSchema(schema, args) && ps == PrintArgs(args, order)
    ensures forall i :: 0 <= i < |ps| ==> ps[i].Argument? && ps[i].name in args && ReadableItem(ps[i])
  {
    PrintedAreReadable(schema, args, order);
    forall i | 0 <= i < |ps| ensures ps[i].Argument? && ps[i].name in args {
      PrintedItems(args, order, i);
    }
  }

  // Arguments printed as flags, with the content read from standard input in place of a flag of its own.
  lemma {:induction false} ContentRoundTrip(
    schema: Schema, validate: Validator, args: map<string, Value>, order: seq<string>, k: nat, stdin: Option<string>)
    requires GoodNames(schema) && FitsSchema(schema, args) && IsOrder(args, order)
    requires "content" !in args && KindOf(schema.properties, "content").Some? && k <= |PrintArgs(args, order)|
    ensures var r := Parse(schema, validate, ShowAll(WithStdin(PrintArgs(args, order), k)), stdin);
      match stdin
      case None => r == Error(StdinNotAvailable)
      case Some(text) =>
        var restored := RestoreArrays(schema, schema.required, args["content" := Text(text)]);
        r == match validate(restored)
          case Some(reason) => Error(Rejected(reason))
          case None => Ok(Parsed(restored, None))
  {
    var ps := PrintArgs(args, order);
    PrintedArgsPresent(schema, args, order);
    PrintedAreArguments(schema, args, order, ps);
    StdinIsGiven(schema, ps, args, k);
    var qs := WithStdin(ps, k);
    StdinRoundTrip(schema, validate, qs, args, stdin);
    NoRequestId(qs, Parse(schema, validate, ShowAll(qs), stdin));
  }

  lemma {:induction false} NoRequestId(ps: seq<Printed>, r: Result<Parsed, FlagError>)
    requires forall i :: 0 <= i < |ps| ==> !ps[i].RequestId?
    requires r.Ok? ==> forall id :: r.value.requestId == Some(id) <==> RequestId(id) in ps
    ensures r.Ok? ==> r.value.requestId.None?
  {
    assert forall id :: RequestId(id) !in ps;
  }

  // ---------- spelling ----------

  // Back from kebab spelling: a hyphen and a letter are the capital letter.
  function Unkebab(flag: string): string {
    if flag == "" then ""
    else if flag[0] == '-' && |flag| > 1 && 'a' <= flag[1] <= 'z' then [flag[1] - ' '] + Unkebab(flag[2..])
    else [flag[0]] + Unkebab(flag[1..])
  }

  // A flag has no capital letter, and spells its name.
  lemma {:induction false} FlagSpellsName(name: string)
    requires '-' !in name
    ensures Unkebab(FlagName(name)) == name
    ensures forall i :: 0 <= i < |FlagName(name)| ==> !('A' <= FlagName(name)[i] <= 'Z')
  {
    if name != "" {
      FlagSpellsName(name[1..]);
      var rest := FlagName(name[1..]);
      if IsUpper(name[0]) {
        assert FlagName(name)[2..] == rest;
      } else {
        assert FlagName(name)[1..] == rest;
      }
      assert name == [name[0]] + name[1..];
    }
  }

  lemma {:induction false} RequestIdIff(s: string)
    ensures IsRequestId(s) <==>
      && s != "" && s[..|s| - 1] != s && |s| < 161
      && forall c :: c in s ==> c == '_' || c == '-' || IsDigit(c) || 65 <= c as int <= 90 || 97 <= c as int <= 122
  {
  }

  predicate AllDigits(s: string) {
    forall i :: 0 <= i < |s| ==> IsDigit(s[i])
  }

  // A number as it is written: a sign, digits with a point, and an exponent.
  datatype Exponent = NoExponent | Exponent(letter: char, sign: string, digits: string)
  datatype Number = Number(negative: bool, whole: string, point: bool, fraction: string, exponent: Exponent)

  predicate IsNumber(n: Number) {
    && AllDigits(n.whole) && AllDigits(n.fraction) && (n.whole != "" || n.fraction != "")
    && (n.fraction != "" ==> n.point) && IsPower(n.exponent)
  }

  predicate IsPower(e: Exponent) {
    e.Exponent? ==> e.letter in "eE" && e.sign in ["", "+", "-"] && e.digits != "" && AllDigits(e.digits)
  }

  function PowerText(e: Exponent): string {
    if e.NoExponent? then "" else [e.letter] + (e.sign + e.digits)
  }

  function FractionText(n: Number): string {
    (if n.point then "." else "") + (n.fraction + PowerText(n.exponent))
  }

  function NumberText(n: Number): string {
    (if n.negative then "-" else "") + (n.whole + FractionText(n))
  }

  predicate EndsDigits(rest: string) {
    rest == "" || !IsDigit(rest[0])
  }

  lemma {:induction false} DigitsThenRest(digits: string, rest: string)
    requires AllDigits(digits) && EndsDigits(rest)
    ensures AfterDigits(digits + rest) == rest
  {
    if digits == "" {
      assert digits + rest == rest;
    } else {
      DigitsThenRest(digits[1..], rest);
      assert (digits + rest)[1..] == digits[1..] + rest;
    }
  }

  lemma {:induction false} LeadingDigits(s: string) returns (digits: string)
    ensures AllDigits(digits) && EndsDigits(AfterDigits(s)) && s == digits + AfterDigits(s)
    ensures s != "" && IsDigit(s[0]) ==> digits != ""
  {
    if s != "" && IsDigit(s[0]) {
      var more := LeadingDigits(s[1..]);
      digits := [s[0]] + more;
      assert s == [s[0]] + s[1..];
    } else {
      digits := "";
    }
  }

  lemma {:induction false} PowerIsRead(e: Exponent)
    requires IsPower(e)
    ensures IsExponent(PowerText(e)) && EndsDigits(PowerText(e))
    ensures PowerText(e) == "" || PowerText(e)[0] != '.'
  {
    if e.Exponent? {
      var text := PowerText(e);
      assert text[1..] == e.sign + e.digits;
      DigitsThenRest(e.digits, "");
      assert e.digits + "" == e.digits;
      if e.sign == "" {
        assert e.sign + e.digits == e.digits;
        assert text[1] == e.digits[0];
      } else {
        assert text[1] == e.sign[0] && text[2..] == e.digits;
      }
    }
  }

  lemma {:induction false} ReadPower(s: string) returns (e: Exponent)
    requires IsExponent(s)
    ensures IsPower(e) && PowerText(e) == s
  {
    if s == "" {
      e := NoExponent;
    } else {
      var sign := if |s| > 1 && s[1] in "+-" then [s[1]] else "";
      var rest := if |s| > 1 && s[1] in "+-" then s[2..] else s[1..];
      var digits := LeadingDigits(rest);
      assert digits + "" == digits;
      e := Exponent(s[0], sign, rest);
      assert sign + rest == s[1..];
      assert s == [s[0]] + s[1..];
    }
  }

  // What follows the whole part of a number.
  predicate IsTail(s: string) {
    IsExponent(if s != "" && s[0] == '.' then AfterDigits(s[1..]) else s)
  }

  lemma {:induction false} TailIsRead(n: Number)
    requires IsNumber(n)
    ensures IsTail(FractionText(n)) && EndsDigits(FractionText(n))
  {
    var power, s := PowerText(n.exponent), FractionText(n);
    PowerIsRead(n.exponent);
    if n.point {
      assert s[1..] == n.fraction + power;
      DigitsThenRest(n.fraction, power);
    } else {
      assert s == power;
    }
  }

  lemma {:induction false} ReadTail(s: string) returns (point: bool, fraction: string, exponent: Exponent)
    requires IsTail(s)
    ensures AllDigits(fraction) && (fraction != "" ==> point) && IsPower(exponent)
    ensures s == (if point then "." else "") + (fraction + PowerText(exponent))
    ensures |s| > 1 && s[0] == '.' && IsDigit(s[1]) ==> fraction != ""
  {
    point := s != "" && s[0] == '.';
    if point {
      fraction := LeadingDigits(s[1..]);
      exponent := ReadPower(AfterDigits(s[1..]));
      assert s == ['.'] + s[1..];
    } else {
      fraction := "";
      exponent := ReadPower(s);
      assert "" + ("" + s) == s;
    }
  }

  lemma {:induction false} NumberIsRead(n: Number)
    requires IsNumber(n)
    ensures IsNumeral(NumberText(n))
  {
    var s, t := NumberText(n), n.whole + FractionText(n);
    TailIsRead(n);
    DigitsThenRest(n.whole, FractionText(n));
    assert n.negative ==> s[0] == '-' && s[1..] == t;
    assert !n.negative ==> s == t;
    if n.whole == "" {
      assert t == FractionText(n) && t[0] == '.' && t[1] == n.fraction[0];
    } else {
      assert t[0] == n.whole[0];
    }
  }

  lemma {:induction false} ReadNumber(s: string) returns (n: Number)
    requires IsNumeral(s)
    ensures IsNumber(n) && NumberText(n) == s
  {
    var negative := s[0] == '-';
    var t := if negative then s[1..] else s;
    var whole := LeadingDigits(t);
    var tail := AfterDigits(t);
    if whole == "" {
      assert tail == t;
    }
    var point, fraction, exponent := ReadTail(tail);
    n := Number(negative, whole, point, fraction, exponent);
    assert s == (if negative then "-" else "") + t;
  }

  // The numerals are the spellings of numbers, and no other texts.
  lemma {:induction false} NumeralIff(s: string)
    ensures IsNumeral(s) <==> exists n :: IsNumber(n) && NumberText(n) == s
  {
    if IsNumeral(s) {
      var n := ReadNumber(s);
    }
    forall n | IsNumber(n) && NumberText(n) == s ensures IsNumeral(s) {
      NumberIsRead(n);
    }
  }
}
