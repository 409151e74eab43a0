// The LLM provider summary: a depth-first visit of an object graph with sharing and cycles that
// mutates a summary object. It is proved to be one sum over the objects reachable from the roots.
module TraceSummary {
  import opened Wrappers

  // Object identity.
  type Id = nat

  datatype Value = Null | Boolean(b: bool) | Finite(n: int) | NonFinite | Text(s: string) | Ref(id: Id)

  datatype Entry = Entry(key: string, value: Value)

  datatype Node = Array(items: seq<Value>) | Object(entries: seq<Entry>)

  type Graph = map<Id, Node>

  datatype Totals = Totals(
    requests: nat, failures: nat,
    inputTokens: int, outputTokens: int, totalTokens: int, costMicros: int,
    providers: set<string>, models: set<string>)

  const NOTHING := Totals(0, 0, 0, 0, 0, 0, {}, {})

  function Add(a: Totals, b: Totals): Totals {
    Totals(
      a.requests + b.requests, a.failures + b.failures,
      a.inputTokens + b.inputTokens, a.outputTokens + b.outputTokens,
      a.totalTokens + b.totalTokens, a.costMicros + b.costMicros,
      a.providers + b.providers, a.models + b.models)
  }

  // ---------- the graph ----------

  // Property lookup; None is `undefined`.
  function Get(entries: seq<Entry>, key: string): Option<Value> {
    if entries == [] then None
    else if entries[0].key == key then Some(entries[0].value)
    else Get(entries[1..], key)
  }

  predicate IsFollowed(entry: Entry) {
    entry.value.Ref? && entry.key != "usage" && entry.key != "attempts"
  }

  // The values the visit descends into: array elements, and fields other than `usage` and `attempts`.
  predicate IsChild(node: Node, v: Value) {
    match node
    case Array(items) => v in items
    case Object(entries) =>
      exists i :: 0 <= i < |entries| && entries[i].value == v && entries[i].key != "usage"
        && entries[i].key != "attempts"
  }

  // The followed values among the first n elements or entries are in the set.
  predicate ChildrenSeen(node: Node, n: nat, ids: set<Id>) {
    match node
    case Array(items) => n <= |items| && forall i :: 0 <= i < n && items[i].Ref? ==> items[i].id in ids
    case Object(entries) =>
      n <= |entries| && forall i :: 0 <= i < n && IsFollowed(entries[i]) ==> entries[i].value.id in ids
  }

  lemma ChildrenStaySeen(node: Node, n: nat, ids: set<Id>, more: set<Id>)
    requires ChildrenSeen(node, n, ids) && ids <= more
    ensures ChildrenSeen(node, n, more)
  {
  }

  lemma NextChildSeen(node: Node, n: nat, ids: set<Id>)
    requires ChildrenSeen(node, n, ids) && n < (if node.Array? then |node.items| else |node.entries|)
    requires var followed := if node.Array? then node.items[n].Ref? else IsFollowed(node.entries[n]);
      followed ==> (if node.Array? then node.items[n] else node.entries[n].value).id in ids
    ensures ChildrenSeen(node, n + 1, ids)
  {
  }

  lemma AllChildrenSeen(node: Node, ids: set<Id>)
    requires ChildrenSeen(node, if node.Array? then |node.items| else |node.entries|, ids)
    ensures forall child :: IsChild(node, Ref(child)) ==> child in ids
  {
  }

  // Every reference held by a node points into the graph.
  predicate Complete(g: Graph) {
    forall id :: id in g ==>
      match g[id]
      case Array(items) => forall i :: 0 <= i < |items| && items[i].Ref? ==> items[i].id in g
      case Object(entries) => forall i :: 0 <= i < |entries| && entries[i].value.Ref? ==> entries[i].value.id in g
  }

  predicate InGraph(g: Graph, v: Value) {
    v.Ref? ==> v.id in g
  }

  ghost predicate IsPath(g: Graph, path: seq<Id>) {
    && path != [] && (forall i :: 0 <= i < |path| ==> path[i] in g)
    && (forall i :: 0 < i < |path| ==> IsChild(g[path[i - 1]], Ref(path[i])))
  }

  ghost predicate Reaches(g: Graph, v: Value, id: Id) {
    exists path :: IsPath(g, path) && v == Ref(path[0]) && path[|path| - 1] == id
  }

  ghost function Reachable(g: Graph, roots: seq<Value>): set<Id> {
    set id | id in g && exists v :: v in roots && Reaches(g, v, id)
  }

  lemma ReachesSelf(g: Graph, id: Id)
    requires id in g
    ensures Reaches(g, Ref(id), id)
  {
    assert IsPath(g, [id]);
  }

  lemma ReachesThroughChild(g: Graph, parent: Id, v: Value, id: Id)
    requires parent in g && IsChild(g[parent], v) && Reaches(g, v, id)
    ensures Reaches(g, Ref(parent), id)
  {
    var path :| IsPath(g, path) && v == Ref(path[0]) && path[|path| - 1] == id;
    var longer := [parent] + path;
    assert forall i :: 0 < i < |longer| ==> longer[i] == path[i - 1];
    assert IsPath(g, longer);
  }

  ghost predicate ClosedUnderChildren(g: Graph, ids: set<Id>) {
    forall id, child :: id in ids && id in g && IsChild(g[id], Ref(child)) ==> child in ids
  }

  lemma {:induction false} PathStaysInside(g: Graph, ids: set<Id>, path: seq<Id>)
    requires ClosedUnderChildren(g, ids) && IsPath(g, path) && path[0] in ids
    ensures path[|path| - 1] in ids
  {
    if |path| > 1 {
      PathStaysInside(g, ids, path[..|path| - 1]);
    }
  }

  // ---------- what one object contributes ----------

  predicate IsRequest(entries: seq<Entry>) {
    Get(entries, "source") in {Some(Text("llm")), Some(Text("deterministic-fallback"))}
  }

  predicate IsFailed(entries: seq<Entry>) {
    || Get(entries, "source") == Some(Text("deterministic-fallback"))
    || Get(entries, "status") == Some(Text("fallback"))
    || (Get(entries, "failureReason").Some? && Get(entries, "failureReason").value.Text?)
  }

  function TextSet(v: Option<Value>): set<string> {
    match v case Some(Text(s)) => {s} case _ => {}
  }

  function FiniteField(entries: seq<Entry>, key: string): Option<int> {
    match Get(entries, key) case Some(Finite(n)) => Some(n) case _ => None
  }

  // Usage counts only when it is an object with all four fields finite.
  function Usage(g: Graph, v: Option<Value>): Totals {
    match v
    case Some(Ref(id)) =>
      if id in g && g[id].Object? then
        var e := g[id].entries;
        match (FiniteField(e, "inputTokens"), FiniteField(e, "outputTokens"), FiniteField(e, "totalTokens"),
          FiniteField(e, "estimatedCostMicros"))
        case (Some(i), Some(o), Some(t), Some(c)) =>
          NOTHING.(inputTokens := i, outputTokens := o, totalTokens := t, costMicros := c)
        case _ => NOTHING
      else NOTHING
    case _ => NOTHING
  }

  function Contribution(g: Graph, id: Id): Totals {
    if id in g && g[id].Object? && IsRequest(g[id].entries) then
      var e := g[id].entries;
      Usage(g, Get(e, "usage")).(
        requests := 1, failures := if IsFailed(e) then 1 else 0,
        providers := TextSet(Get(e, "providerId")), models := TextSet(Get(e, "model")))
    else NOTHING
  }

  ghost function Sum(g: Graph, ids: set<Id>): Totals {
    if ids == {} then NOTHING
    else
      var id :| id in ids;
      Add(Contribution(g, id), Sum(g, ids - {id}))
  }

  lemma AddLaws(a: Totals, b: Totals, c: Totals)
    ensures Add(a, b) == Add(b, a)
    ensures Add(Add(a, b), c) == Add(a, Add(b, c))
    ensures Add(a, NOTHING) == a
  {
    assert a.providers + b.providers == b.providers + a.providers;
    assert a.models + b.models == b.models + a.models;
    assert a.providers + b.providers + c.providers == a.providers + (b.providers + c.providers);
    assert a.models + b.models + c.models == a.models + (b.models + c.models);
  }

  // The sum does not depend on the order in which objects are taken out.
  lemma {:induction false} SumRemove(g: Graph, ids: set<Id>, id: Id)
    requires id in ids
    ensures Sum(g, ids) == Add(Contribution(g, id), Sum(g, ids - {id}))
    decreases ids
  {
    var pick :| pick in ids && Sum(g, ids) == Add(Contribution(g, pick), Sum(g, ids - {pick}));
    if pick != id {
      var rest := Sum(g, ids - {pick} - {id});
      SumRemove(g, ids - {pick}, id);
      SumRemove(g, ids - {id}, pick);
      assert ids - {pick} - {id} == ids - {id} - {pick};
      AddLaws(Contribution(g, pick), Contribution(g, id), rest);
      AddLaws(Contribution(g, id), Contribution(g, pick), rest);
    }
  }

  lemma SumSingle(g: Graph, id: Id)
    ensures Sum(g, {id}) == Contribution(g, id)
  {
    SumRemove(g, {id}, id);
    assert {id} - {id} == {};
    AddLaws(Contribution(g, id), NOTHING, NOTHING);
  }

  lemma AddBack(g: Graph, a: set<Id>, b: set<Id>, id: Id)
    requires a !! b && id in a && Sum(g, (a - {id}) + b) == Add(Sum(g, a - {id}), Sum(g, b))
    ensures Sum(g, a + b) == Add(Sum(g, a), Sum(g, b))
  {
    SumRemove(g, a, id);
    SumRemove(g, a + b, id);
    assert a + b - {id} == (a - {id}) + b;
    AddLaws(Contribution(g, id), Sum(g, a - {id}), Sum(g, b));
  }

  lemma {:induction false} SumUnion(g: Graph, a: set<Id>, b: set<Id>)
    requires a !! b
    ensures Sum(g, a + b) == Add(Sum(g, a), Sum(g, b))
    decreases a
  {
    if a == {} {
      assert a + b == b;
      AddLaws(Sum(g, b), NOTHING, NOTHING);
    } else {
      var id :| id in a;
      SumUnion(g, a - {id}, b);
      AddBack(g, a, b, id);
    }
  }

  // ---------- the sum as counts ----------

  // The first field with the key holds this value.
  predicate Has(entries: seq<Entry>, key: string, v: Value) {
    exists i :: 0 <= i < |entries| && entries[i] == Entry(key, v) && forall j :: 0 <= j < i ==> entries[j].key != key
  }

  lemma {:induction false} GetIff(entries: seq<Entry>, key: string, v: Value)
    ensures Get(entries, key) == Some(v) <==> Has(entries, key, v)
  {
    if entries != [] {
      var tail := entries[1..];
      GetIff(tail, key, v);
      if entries[0].key != key {
        if Has(entries, key, v) {
          var i :| 0 <= i < |entries| && entries[i] == Entry(key, v)
            && forall j :: 0 <= j < i ==> entries[j].key != key;
          assert tail[i - 1] == entries[i];
        }
        if Has(tail, key, v) {
          var i :| 0 <= i < |tail| && tail[i] == Entry(key, v) && forall j :: 0 <= j < i ==> tail[j].key != key;
          forall j | 0 <= j < i + 1 ensures entries[j].key != key {
            assert j > 0 ==> tail[j - 1] == entries[j];
          }
          assert entries[i + 1] == tail[i];
        }
      }
    }
  }

  predicate IsObjectAt(g: Graph, id: Id) {
    id in g && g[id].Object?
  }

  // An object that records a request to a provider.
  predicate Requested(g: Graph, id: Id) {
    IsObjectAt(g, id)
    && (Has(g[id].entries, "source", Text("llm")) || Has(g[id].entries, "source", Text("deterministic-fallback")))
  }

  // A request that was answered by a fallback or gives a reason for its failure.
  ghost predicate FailedOrFallback(g: Graph, id: Id) {
    && Requested(g, id)
    && (|| Has(g[id].entries, "source", Text("deterministic-fallback"))
        || Has(g[id].entries, "status", Text("fallback"))
        || exists reason :: Has(g[id].entries, "failureReason", Text(reason)))
  }

  ghost predicate HasName(g: Graph, ids: set<Id>, key: string, name: string) {
    exists id :: id in ids && Requested(g, id) && Has(g[id].entries, key, Text(name))
  }

  // The usage object of a request, with its four figures.
  ghost predicate HasUsage(g: Graph, id: Id, input: int, output: int, total: int, cost: int) {
    && Requested(g, id)
    && exists u :: Has(g[id].entries, "usage", Ref(u)) && IsObjectAt(g, u)
         && Has(g[u].entries, "inputTokens", Finite(input)) && Has(g[u].entries, "outputTokens", Finite(output))
         && Has(g[u].entries, "totalTokens", Finite(total)) && Has(g[u].entries, "estimatedCostMicros", Finite(cost))
  }

  lemma {:induction false} TextsAreHad(entries: seq<Entry>, key: string)
    ensures forall s :: s in TextSet(Get(entries, key)) <==> Has(entries, key, Text(s))
  {
    forall s ensures s in TextSet(Get(entries, key)) <==> Has(entries, key, Text(s)) {
      GetIff(entries, key, Text(s));
    }
  }

  lemma {:induction false} RequestsMean(g: Graph, id: Id)
    requires IsObjectAt(g, id)
    ensures IsRequest(g[id].entries) <==> Requested(g, id)
    ensures IsRequest(g[id].entries) && IsFailed(g[id].entries) <==> FailedOrFallback(g, id)
  {
    var e := g[id].entries;
    GetIff(e, "source", Text("llm"));
    GetIff(e, "source", Text("deterministic-fallback"));
    GetIff(e, "status", Text("fallback"));
    TextsAreHad(e, "failureReason");
    var reason := Get(e, "failureReason");
    assert (exists s :: Has(e, "failureReason", Text(s))) <==> reason.Some? && reason.value.Text? by {
      if reason.Some? && reason.value.Text? {
        assert reason.value.s in TextSet(reason);
      }
    }
  }

  // What one object adds: itself if it is a request, its failure, its names, and its usage if that is whole.
  lemma {:induction false} ContributionMeans(g: Graph, id: Id)
    ensures AddsItself(g, id, Contribution(g, id))
  {
    if IsObjectAt(g, id) {
      RequestsMean(g, id);
      TextsAreHad(g[id].entries, "providerId");
      TextsAreHad(g[id].entries, "model");
      UsageAddsFigures(g, Get(g[id].entries, "usage"));
    }
  }

  lemma {:induction false} UsageAddsFigures(g: Graph, v: Option<Value>)
    ensures var u := Usage(g, v); u.requests == 0 && u.failures == 0 && u.providers == {} && u.models == {}
  {
  }

  lemma {:induction false} FieldIff(entries: seq<Entry>, key: string, n: int)
    ensures FiniteField(entries, key) == Some(n) <==> Has(entries, key, Finite(n))
  {
    GetIff(entries, key, Finite(n));
  }

  lemma {:induction false} UsageMeans(g: Graph, id: Id, input: int, output: int, total: int, cost: int)
    requires HasUsage(g, id, input, output, total, cost)
    ensures var c := Contribution(g, id);
      c.inputTokens == input && c.outputTokens == output && c.totalTokens == total && c.costMicros == cost
  {
    var e := g[id].entries;
    var u :| Has(e, "usage", Ref(u)) && IsObjectAt(g, u)
      && Has(g[u].entries, "inputTokens", Finite(input)) && Has(g[u].entries, "outputTokens", Finite(output))
      && Has(g[u].entries, "totalTokens", Finite(total)) && Has(g[u].entries, "estimatedCostMicros", Finite(cost));
    RequestsMean(g, id);
    GetIff(e, "usage", Ref(u));
    FieldIff(g[u].entries, "inputTokens", input);
    FieldIff(g[u].entries, "outputTokens", output);
    FieldIff(g[u].entries, "totalTokens", total);
    FieldIff(g[u].entries, "estimatedCostMicros", cost);
  }

  // An object without a whole usage adds no tokens and no cost.
  lemma {:induction false} NoUsageMeans(g: Graph, id: Id)
    requires forall input, output, total, cost :: !HasUsage(g, id, input, output, total, cost)
    ensures var c := Contribution(g, id);
      c.inputTokens == 0 && c.outputTokens == 0 && c.totalTokens == 0 && c.costMicros == 0
  {
    if IsObjectAt(g, id) && IsRequest(g[id].entries) {
      var usage := Get(g[id].entries, "usage");
      if usage.Some? && usage.value.Ref? && IsObjectAt(g, usage.value.id) {
        SomeFieldMissing(g, id, usage.value.id);
      }
    }
  }

  lemma {:induction false} SomeFieldMissing(g: Graph, id: Id, u: Id)
    requires IsObjectAt(g, id) && IsRequest(g[id].entries) && Get(g[id].entries, "usage") == Some(Ref(u))
    requires IsObjectAt(g, u) && forall input, output, total, cost :: !HasUsage(g, id, input, output, total, cost)
    ensures Usage(g, Some(Ref(u))) == NOTHING
  {
    var e := g[u].entries;
    var i, o := FiniteField(e, "inputTokens"), FiniteField(e, "outputTokens");
    var t, c := FiniteField(e, "totalTokens"), FiniteField(e, "estimatedCostMicros");
    if i.Some? && o.Some? && t.Some? && c.Some? {
      AllFieldsGiven(g, id, u, i.value, o.value, t.value, c.value);
    }
  }

  lemma {:induction false} AllFieldsGiven(
    g: Graph, id: Id, u: Id, input: int, output: int, total: int, cost: int)
    requires IsObjectAt(g, id) && IsRequest(g[id].entries) && Get(g[id].entries, "usage") == Some(Ref(u))
    requires IsObjectAt(g, u)
    requires FiniteField(g[u].entries, "inputTokens") == Some(input)
    requires FiniteField(g[u].entries, "outputTokens") == Some(output)
    requires FiniteField(g[u].entries, "totalTokens") == Some(total)
    requires FiniteField(g[u].entries, "estimatedCostMicros") == Some(cost)
    ensures HasUsage(g, id, input, output, total, cost)
  {
    RequestsMean(g, id);
    GetIff(g[id].entries, "usage", Ref(u));
    FieldIff(g[u].entries, "inputTokens", input);
    FieldIff(g[u].entries, "outputTokens", output);
    FieldIff(g[u].entries, "totalTokens", total);
    FieldIff(g[u].entries, "estimatedCostMicros", cost);
  }

  ghost function RequestsIn(g: Graph, ids: set<Id>): set<Id> {
    set id | id in ids && Requested(g, id)
  }

  ghost function FailuresIn(g: Graph, ids: set<Id>): set<Id> {
    set id | id in ids && FailedOrFallback(g, id)
  }

  // The totals of a set of objects are counts, and the names that occur.
  ghost predicate AreCounts(g: Graph, ids: set<Id>, totals: Totals) {
    && totals.requests == |RequestsIn(g, ids)| && totals.failures == |FailuresIn(g, ids)|
    && (forall s :: s in totals.providers <==> HasName(g, ids, "providerId", s))
    && (forall s :: s in totals.models <==> HasName(g, ids, "model", s))
  }

  lemma {:induction false} SumCounts(g: Graph, ids: set<Id>)
    ensures AreCounts(g, ids, Sum(g, ids))
    decreases ids
  {
    if ids == {} {
      assert RequestsIn(g, ids) == {} && FailuresIn(g, ids) == {};
    } else {
      var id :| id in ids;
      SumRemove(g, ids, id);
      SumCounts(g, ids - {id});
      ContributionMeans(g, id);
      CountsWith(g, ids, id, Contribution(g, id), Sum(g, ids - {id}));
    }
  }

  // What one object adds.
  ghost predicate AddsItself(g: Graph, id: Id, c: Totals) {
    && c.requests == (if Requested(g, id) then 1 else 0)
    && c.failures == (if FailedOrFallback(g, id) then 1 else 0)
    && (forall s :: s in c.providers <==> Requested(g, id) && Has(g[id].entries, "providerId", Text(s)))
    && (forall s :: s in c.models <==> Requested(g, id) && Has(g[id].entries, "model", Text(s)))
  }

  lemma {:induction false} CountsWith(g: Graph, ids: set<Id>, id: Id, c: Totals, before: Totals)
    requires id in ids && AreCounts(g, ids - {id}, before) && AddsItself(g, id, c)
    ensures AreCounts(g, ids, Add(c, before))
  {
    OneMore(g, ids, id);
    AddedNames(g, ids, id, "providerId", c.providers, before.providers);
    AddedNames(g, ids, id, "model", c.models, before.models);
  }

  lemma {:induction false} OneMore(g: Graph, ids: set<Id>, id: Id)
    requires id in ids
    ensures |RequestsIn(g, ids)| == |RequestsIn(g, ids - {id})| + (if Requested(g, id) then 1 else 0)
    ensures |FailuresIn(g, ids)| == |FailuresIn(g, ids - {id})| + (if FailedOrFallback(g, id) then 1 else 0)
  {
    SizeWith(RequestsIn(g, ids), RequestsIn(g, ids - {id}), id, Requested(g, id));
    SizeWith(FailuresIn(g, ids), FailuresIn(g, ids - {id}), id, FailedOrFallback(g, id));
  }

  lemma {:induction false} SizeWith(all: set<Id>, rest: set<Id>, id: Id, more: bool)
    requires id !in rest && forall x :: x in all <==> x in rest || (more && x == id)
    ensures |all| == |rest| + (if more then 1 else 0)
  {
    assert all == rest + (if more then {id} else {});
  }

  lemma {:induction false} AddedNames(
    g: Graph, ids: set<Id>, id: Id, key: string, names: set<string>, before: set<string>)
    requires id in ids
    requires forall s :: s in names <==> Requested(g, id) && Has(g[id].entries, key, Text(s))
    requires forall s :: s in before <==> HasName(g, ids - {id}, key, s)
    ensures forall s :: s in names + before <==> HasName(g, ids, key, s)
  {
    forall s ensures s in names + before <==> HasName(g, ids, key, s) {
      NameWith(g, ids, id, key, s);
    }
  }

  lemma {:induction false} NameWith(g: Graph, ids: set<Id>, id: Id, key: string, s: string)
    requires id in ids
    ensures HasName(g, ids, key, s) <==>
      HasName(g, ids - {id}, key, s) || (Requested(g, id) && Has(g[id].entries, key, Text(s)))
  {
    if HasName(g, ids, key, s) {
      var other :| other in ids && Requested(g, other) && Has(g[other].entries, key, Text(s));
      assert other == id || other in ids - {id};
    }
  }

  // ---------- the visit ----------

  class Summary {
    var requestCount: nat
    var failedOrFallbackCount: nat
    var inputTokens: int
    var outputTokens: int
    var totalTokens: int
    var estimatedCostMicros: int
    var providerIds: set<string>
    var models: set<string>
    var visited: set<Id>

    constructor ()
      ensures Current() == NOTHING && visited == {}
    {
      requestCount, failedOrFallbackCount := 0, 0;
      inputTokens, outputTokens, totalTokens, estimatedCostMicros := 0, 0, 0, 0;
      providerIds, models, visited := {}, {}, {};
    }

    function Current(): Totals
      reads this
    {
      Totals(requestCount, failedOrFallbackCount, inputTokens, outputTokens, totalTokens,
             estimatedCostMicros, providerIds, models)
    }

    // `addUsage`
    method AddUsage(g: Graph, value: Option<Value>)
      modifies this`inputTokens, this`outputTokens, this`totalTokens, this`estimatedCostMicros
      ensures inputTokens == old(inputTokens) + Usage(g, value).inputTokens
      ensures outputTokens == old(outputTokens) + Usage(g, value).outputTokens
      ensures totalTokens == old(totalTokens) + Usage(g, value).totalTokens
      ensures estimatedCostMicros == old(estimatedCostMicros) + Usage(g, value).costMicros
    {
      if value.None? || !value.value.Ref? || value.value.id !in g || g[value.value.id].Array? {
        return;
      }
      var usage := g[value.value.id].entries;
      var fields := ["inputTokens", "outputTokens", "totalTokens", "estimatedCostMicros"];
      for index := 0 to |fields|
        invariant forall i :: 0 <= i < index ==> FiniteField(usage, fields[i]).Some?
      {
        var field := Get(usage, fields[index]);
        if field.None? || !field.value.Finite? {
          return;
        }
      }
      assert FiniteField(usage, fields[0]).Some? && FiniteField(usage, fields[1]).Some?;
      assert FiniteField(usage, fields[2]).Some? && FiniteField(usage, fields[3]).Some?;
      inputTokens := inputTokens + Get(usage, "inputTokens").value.n;
      outputTokens := outputTokens + Get(usage, "outputTokens").value.n;
      totalTokens := totalTokens + Get(usage, "totalTokens").value.n;
      estimatedCostMicros := estimatedCostMicros + Get(usage, "estimatedCostMicros").value.n;
    }

    // The provider and the model of a counted object.
    method CountNames(record: seq<Entry>)
      modifies this`providerIds, this`models
      ensures providerIds == old(providerIds) + TextSet(Get(record, "providerId"))
      ensures models == old(models) + TextSet(Get(record, "model"))
    {
      var providerId := Get(record, "providerId");
      if providerId.Some? && providerId.value.Text? {
        providerIds := providerIds + {providerId.value.s};
      }
      var model := Get(record, "model");
      if model.Some? && model.value.Text? {
        models := models + {model.value.s};
      }
    }

    // The part of `visitProviderTrace` that counts one object.
    method CountObject(g: Graph, id: Id)
      requires id in g && g[id].Object?
      modifies this`requestCount, this`failedOrFallbackCount, this`providerIds, this`models,
        this`inputTokens, this`outputTokens, this`totalTokens, this`estimatedCostMicros
      ensures Current() == Add(old(Current()), Contribution(g, id))
    {
      var record := g[id].entries;
      var source := Get(record, "source");
      if source == Some(Text("llm")) || source == Some(Text("deterministic-fallback")) {
        requestCount := requestCount + 1;
        var reason := Get(record, "failureReason");
        if source == Some(Text("deterministic-fallback"))
          || Get(record, "status") == Some(Text("fallback"))
          || (reason.Some? && reason.value.Text?)
        {
          failedOrFallbackCount := failedOrFallbackCount + 1;
        }
        assert failedOrFallbackCount == old(failedOrFallbackCount) + (if IsFailed(record) then 1 else 0);
        CountNames(record);
        var usage := Get(record, "usage");
        AddUsage(g, usage);
      } else {
        AddLaws(Current(), NOTHING, NOTHING);
      }
    }

    // What has happened since a value was entered: the new objects are all reachable from it, the
    // totals grew by exactly their contributions, and all children of new objects are seen, except
    // for an object whose children are still being visited.
    ghost predicate Since(g: Graph, from: Value, before: set<Id>, start: Totals, open: set<Id>)
      reads this
    {
      && before <= visited <= before + g.Keys
      && Current() == Add(start, Sum(g, visited - before))
      && (forall id :: id in visited - before ==> Reaches(g, from, id))
      && (forall id, child :: id in visited - before - open && id in g && IsChild(g[id], Ref(child)) ==>
        child in visited)
    }

    // `visitProviderTrace`
    method VisitProviderTrace(g: Graph, value: Value)
      requires Complete(g) && InGraph(g, value)
      modifies this
      ensures Since(g, value, old(visited), old(Current()), {})
      ensures value.Ref? ==> value.id in visited
      decreases g.Keys - visited, 1
    {
      if !value.Ref? || value.id in visited {
        assert visited - old(visited) == {};
        AddLaws(Current(), NOTHING, NOTHING);
        return;
      }
      Mark(g, value.id);
      VisitChildren(g, value.id, old(visited), old(Current()));
    }

    // A new object is marked as visited, and counted unless it is an array.
    method Mark(g: Graph, id: Id)
      requires id in g && id !in visited
      modifies this
      ensures visited == old(visited) + {id}
      ensures Since(g, Ref(id), old(visited), old(Current()), {id})
    {
      visited := visited + {id};
      if g[id].Object? {
        CountObject(g, id);
      } else {
        AddLaws(Current(), NOTHING, NOTHING);
      }
      OneMarked(g, id, old(visited), old(Current()));
    }

    lemma OneMarked(g: Graph, id: Id, before: set<Id>, start: Totals)
      requires id in g && id !in before && visited == before + {id}
      requires Current() == Add(start, Contribution(g, id))
      ensures Since(g, Ref(id), before, start, {id})
    {
      assert visited - before == {id};
      SumSingle(g, id);
      ReachesSelf(g, id);
    }

    // The loop over array elements or entries of an object that has just been marked and counted.
    method VisitChildren(g: Graph, parent: Id, ghost before: set<Id>, ghost start: Totals)
      requires Complete(g) && parent in g && parent in visited
      requires Since(g, Ref(parent), before, start, {parent})
      modifies this
      ensures Since(g, Ref(parent), before, start, {}) && old(visited) <= visited
      decreases g.Keys - visited, 2
    {
      var node := g[parent];
      var count := if node.Array? then |node.items| else |node.entries|;
      for index := 0 to count
        invariant Since(g, Ref(parent), before, start, {parent}) && old(visited) <= visited
        invariant ChildrenSeen(node, index, visited)
      {
        var skipped := node.Object? && (node.entries[index].key == "usage" || node.entries[index].key == "attempts");
        if !skipped {
          var child := if node.Array? then node.items[index] else node.entries[index].value;
          assert IsChild(node, child);
          ghost var earlier := visited;
          ghost var middle := Current();
          VisitProviderTrace(g, child);
          ChildrenStaySeen(node, index, earlier, visited);
          SinceTwice(g, parent, child, before, start, earlier, middle);
        }
        NextChildSeen(node, index, visited);
      }
      AllChildrenSeen(node, visited);
    }

    // The recursive visit of a child, seen from the parent.
    lemma SinceTwice(
      g: Graph, parent: Id, child: Value, before: set<Id>, start: Totals, earlier: set<Id>, middle: Totals)
      requires parent in g && IsChild(g[parent], child)
      requires before <= earlier <= before + g.Keys && middle == Add(start, Sum(g, earlier - before))
      requires forall id :: id in earlier - before ==> Reaches(g, Ref(parent), id)
      requires forall id, c :: id in earlier - before - {parent} && id in g && IsChild(g[id], Ref(c)) ==> c in earlier
      requires Since(g, child, earlier, middle, {})
      ensures Since(g, Ref(parent), before, start, {parent})
    {
      var added := visited - earlier;
      assert visited - before == (earlier - before) + added;
      SumUnion(g, earlier - before, added);
      AddLaws(start, Sum(g, earlier - before), Sum(g, added));
      forall id | id in added ensures Reaches(g, Ref(parent), id) {
        ReachesThroughChild(g, parent, child, id);
      }
    }
  }

  // `summarizeLocalRuntimeTownLlmProviderTraces`: the visit of all roots sums the contributions of
  // exactly the reachable objects, each counted once.
  method Summarize(g: Graph, roots: seq<Value>) returns (r: Totals)
    requires Complete(g) && forall i :: 0 <= i < |roots| ==> InGraph(g, roots[i])
    ensures r == Sum(g, Reachable(g, roots)) && AreCounts(g, Reachable(g, roots), r)
  {
    SumCounts(g, Reachable(g, roots));
    var summary := new Summary();
    for index := 0 to |roots|
      invariant fresh(summary)
      invariant RootsDone(g, roots, index, summary.visited, summary.Current())
    {
      ghost var before, start := summary.visited, summary.Current();
      summary.VisitProviderTrace(g, roots[index]);
      RootVisited(g, roots, index, before, start, summary);
    }
    VisitedIsReachable(g, roots, summary.visited);
    return summary.Current();
  }

  // The first n roots are visited, with everything below them, and summed.
  ghost predicate RootsDone(g: Graph, roots: seq<Value>, n: nat, visited: set<Id>, totals: Totals) {
    && totals == Sum(g, visited)
    && ClosedUnderChildren(g, visited) && visited <= Reachable(g, roots)
    && ChildrenSeen(Array(roots), n, visited)
  }

  lemma RootVisited(g: Graph, roots: seq<Value>, n: nat, before: set<Id>, start: Totals, summary: Summary)
    requires n < |roots| && RootsDone(g, roots, n, before, start)
    requires summary.Since(g, roots[n], before, start, {})
    requires roots[n].Ref? ==> roots[n].id in summary.visited
    ensures RootsDone(g, roots, n + 1, summary.visited, summary.Current())
  {
    var added := summary.visited - before;
    assert summary.visited == before + added;
    SumUnion(g, before, added);
    ChildrenStaySeen(Array(roots), n, before, summary.visited);
    NextChildSeen(Array(roots), n, summary.visited);
  }

  lemma VisitedIsReachable(g: Graph, roots: seq<Value>, visited: set<Id>)
    requires ClosedUnderChildren(g, visited) && visited <= Reachable(g, roots)
    requires ChildrenSeen(Array(roots), |roots|, visited)
    ensures visited == Reachable(g, roots)
  {
    forall id | id in Reachable(g, roots) ensures id in visited {
      var v :| v in roots && Reaches(g, v, id);
      var path :| IsPath(g, path) && v == Ref(path[0]) && path[|path| - 1] == id;
      PathStaysInside(g, visited, path);
    }
  }

  // ---------- consequences ----------

  // The order of the roots and repeated roots do not matter.
  lemma RootOrderIsIrrelevant(g: Graph, roots: seq<Value>, others: seq<Value>)
    requires forall v: Value :: v.Ref? ==> (v in roots <==> v in others)
    ensures Sum(g, Reachable(g, roots)) == Sum(g, Reachable(g, others))
  {
    forall id | id in g
      ensures (exists v :: v in roots && Reaches(g, v, id)) <==> (exists v :: v in others && Reaches(g, v, id))
    {
      if v :| v in roots && Reaches(g, v, id) {
        assert v in others;
      }
      if v :| v in others && Reaches(g, v, id) {
        assert v in roots;
      }
    }
    assert Reachable(g, roots) == Reachable(g, others);
  }

  predicate DistinctKeys(entries: seq<Entry>) {
    forall i, j :: 0 <= i < j < |entries| ==> entries[i].key != entries[j].key
  }

  // The same objects with their keys written in another order.
  ghost predicate Reordered(a: Node, b: Node) {
    match (a, b)
    case (Array(x), Array(y)) => x == y
    case (Object(x), Object(y)) => DistinctKeys(x) && DistinctKeys(y) && forall e :: e in x <==> e in y
    case _ => false
  }

  lemma {:induction false} GetFinds(entries: seq<Entry>, key: string)
    requires DistinctKeys(entries)
    ensures forall e :: e in entries && e.key == key ==> Get(entries, key) == Some(e.value)
    ensures Get(entries, key).Some? ==> Entry(key, Get(entries, key).value) in entries
  {
    if entries != [] {
      var tail := entries[1..];
      assert forall i, j :: 0 <= i < j < |tail| ==> tail[i] == entries[i + 1] && tail[j] == entries[j + 1];
      GetFinds(tail, key);
      forall e | e in entries && e.key == key ensures Get(entries, key) == Some(e.value) {
        var i :| 0 <= i < |entries| && entries[i] == e;
        if i > 0 {
          assert entries[0].key != entries[i].key && e == tail[i - 1];
        }
      }
    }
  }

  lemma GetReordered(x: seq<Entry>, y: seq<Entry>, key: string)
    requires DistinctKeys(x) && DistinctKeys(y) && forall e :: e in x <==> e in y
    ensures Get(x, key) == Get(y, key)
  {
    GetFinds(x, key);
    GetFinds(y, key);
    if Get(x, key).Some? {
      assert Entry(key, Get(x, key).value) in y;
    }
  }

  lemma ChildReordered(a: Node, b: Node, v: Value)
    requires Reordered(a, b) && IsChild(a, v)
    ensures IsChild(b, v)
  {
    if a.Object? {
      var i :| 0 <= i < |a.entries| && a.entries[i].value == v
        && a.entries[i].key != "usage" && a.entries[i].key != "attempts";
      assert a.entries[i] in b.entries;
      var j :| 0 <= j < |b.entries| && b.entries[j] == a.entries[i];
    }
  }

  ghost predicate SameUpToKeyOrder(g: Graph, h: Graph) {
    g.Keys == h.Keys && forall id :: id in g ==> Reordered(g[id], h[id]) && Reordered(h[id], g[id])
  }

  lemma ReachesReordered(g: Graph, h: Graph, v: Value, id: Id)
    requires SameUpToKeyOrder(g, h) && Reaches(g, v, id)
    ensures Reaches(h, v, id)
  {
    var path :| IsPath(g, path) && v == Ref(path[0]) && path[|path| - 1] == id;
    forall i | 0 < i < |path| ensures IsChild(h[path[i - 1]], Ref(path[i])) {
      ChildReordered(g[path[i - 1]], h[path[i - 1]], Ref(path[i]));
    }
    assert IsPath(h, path);
  }

  lemma UsageReordered(g: Graph, h: Graph, v: Option<Value>)
    requires SameUpToKeyOrder(g, h)
    ensures Usage(g, v) == Usage(h, v)
  {
    if v.Some? && v.value.Ref? && v.value.id in g && g[v.value.id].Object? {
      var x, y := g[v.value.id].entries, h[v.value.id].entries;
      assert Reordered(g[v.value.id], h[v.value.id]);
      GetReordered(x, y, "inputTokens");
      GetReordered(x, y, "outputTokens");
      GetReordered(x, y, "totalTokens");
      GetReordered(x, y, "estimatedCostMicros");
    }
  }

  lemma ContributionReordered(g: Graph, h: Graph, id: Id)
    requires SameUpToKeyOrder(g, h) && id in g
    ensures Contribution(g, id) == Contribution(h, id)
  {
    assert Reordered(g[id], h[id]);
    if g[id].Object? {
      var x, y := g[id].entries, h[id].entries;
      forall key ensures Get(x, key) == Get(y, key) {
        GetReordered(x, y, key);
      }
      UsageReordered(g, h, Get(x, "usage"));
    }
  }

  lemma {:induction false} SumReordered(g: Graph, h: Graph, ids: set<Id>)
    requires SameUpToKeyOrder(g, h) && ids <= g.Keys
    ensures Sum(g, ids) == Sum(h, ids)
    decreases ids
  {
    if ids != {} {
      var id :| id in ids;
      SumRemove(g, ids, id);
      SumRemove(h, ids, id);
      ContributionReordered(g, h, id);
      SumReordered(g, h, ids - {id});
    }
  }

  lemma ReachableIncluded(g: Graph, h: Graph, roots: seq<Value>)
    requires SameUpToKeyOrder(g, h)
    ensures Reachable(g, roots) <= Reachable(h, roots)
  {
    forall id | id in Reachable(g, roots) ensures id in Reachable(h, roots) {
      var v :| v in roots && Reaches(g, v, id);
      ReachesReordered(g, h, v, id);
    }
  }

  // The order of the keys inside objects does not matter either.
  lemma KeyOrderIsIrrelevant(g: Graph, h: Graph, roots: seq<Value>)
    requires SameUpToKeyOrder(g, h)
    ensures Sum(g, Reachable(g, roots)) == Sum(h, Reachable(h, roots))
  {
    ReachableIncluded(g, h, roots);
    ReachableIncluded(h, g, roots);
    assert Reachable(g, roots) == Reachable(h, roots);
    SumReordered(g, h, Reachable(g, roots));
  }

  // Failures never exceed requests, and no object is counted as more than one request.
  lemma {:induction false} FailuresNeverExceedRequests(g: Graph, ids: set<Id>)
    ensures Sum(g, ids).failures <= Sum(g, ids).requests <= |ids|
    decreases ids
  {
    if ids != {} {
      var id :| id in ids;
      SumRemove(g, ids, id);
      FailuresNeverExceedRequests(g, ids - {id});
    }
  }
}
