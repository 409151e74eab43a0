// The refresh protocol of the town client: refresh bodies suspended at their awaits, resource loads,
// invalidation by revision and abort signal, and coalescing of refresh requests. Replies are events
// that may come in any order; data is represented by where and when it was requested.
module ClientStore {
  import opened Wrappers

  datatype Partition = Partition(simulationId: string, partitionKey: string)

  datatype View = MapView | TownView | MarketView | CognitionView | OverviewView | SteeringView

  datatype Selection = Nothing | Agent(id: string) | Place(id: string)

  // A reply, by the revision and the partition or simulation it was requested for.
  datatype Projection = Projection(revision: nat, partition: Partition)
  datatype CityReply = CityReply(revision: nat, simulationId: string)

  // The town is read from a projection together with the society and directory in force.
  datatype Town = Town(projection: Projection, society: Option<CityReply>, directory: Option<CityReply>)

  // A resource load, as it was started.
  datatype Load = Load(revision: nat, signal: nat, view: View, agentId: string, partition: Option<Partition>)

  datatype Snapshot = Snapshot(
    town: Option<Town>, projection: Option<Projection>,
    society: Option<CityReply>, directory: Option<CityReply>,
    resources: Option<Load>,
    partitions: seq<Partition>, partition: Option<Partition>,
    selection: Selection, view: View, loading: bool)

  // A refresh body at its await.
  datatype Body =
    | AwaitStatus(revision: nat, signal: nat)
    | AwaitCity(revision: nat, signal: nat, partition: Partition)
    | AwaitResources(load: Load)

  // The closure variables, the suspended bodies and loads, and the number of bodies ever started.
  datatype Client = Client(
    state: Snapshot, revision: nat, running: bool, queued: bool, stopped: bool,
    abort: nat, aborted: set<nat>, bodies: seq<Body>, loads: seq<Load>, starts: nat)

  datatype Event =
    | RefreshRequested
    | StatusReplied(body: nat, partitions: seq<Partition>)
    | CityReplied(body: nat, societyOk: bool, directoryOk: bool)
    | ResourcesReplied(body: nat)
    | BodyFailed(body: nat)
    | LoadReplied(load: nat)
    | ViewSet(view: View)
    | Selected(selection: Selection, owner: Option<string>)
    | PartitionSet(key: string)
    | AuthenticationStarted
    | Destroyed

  function Initial(view: View): Client {
    Client(
      Snapshot(None, None, None, None, None, [], None, Nothing, view, true),
      0, false, false, false, 0, {}, [], [], 0)
  }

  // ---------- refresh ----------

  function StartBody(c: Client): Client {
    c.(running := true, state := c.state.(loading := true),
       bodies := c.bodies + [AwaitStatus(c.revision, c.abort)], starts := c.starts + 1)
  }

  function RequestRefresh(c: Client): Client {
    if c.stopped then c
    else if c.running then c.(queued := true)
    else StartBody(c)
  }

  function Without<T>(items: seq<T>, i: nat): seq<T>
    requires i < |items|
  {
    items[..i] + items[i + 1..]
  }

  // The `finally` block: a queued request starts the next body at once.
  function FinishBody(c: Client, i: nat): Client
    requires i < |c.bodies|
  {
    var ended := c.(
      running := false, bodies := Without(c.bodies, i),
      state := if c.stopped then c.state else c.state.(loading := false));
    if ended.queued && !ended.stopped then RequestRefresh(ended.(queued := false)) else ended
  }

  // The current partition if it is still listed, else the first one listed.
  function ChoosePartition(partitions: seq<Partition>, current: Option<Partition>): Option<Partition> {
    if current.Some? && current.value in partitions then current
    else if partitions != [] then Some(partitions[0])
    else None
  }

  function AdoptPartition(s: Snapshot, partitions: seq<Partition>, p: Partition): Snapshot {
    var same := s.partition.Some? && s.partition.value.simulationId == p.simulationId;
    (if same then s else s.(society := None, directory := None, selection := Nothing, resources := None))
    .(partitions := partitions, partition := Some(p))
  }

  // The reply in force: the chosen partition is adopted and the body goes on with it.
  function Adopted(c: Client, i: nat, partitions: seq<Partition>, p: Partition): Client
    requires i < |c.bodies| && c.bodies[i].AwaitStatus?
  {
    c.(state := AdoptPartition(c.state, partitions, p),
       bodies := c.bodies[i := AwaitCity(c.bodies[i].revision, c.bodies[i].signal, p)])
  }

  function OnStatus(c: Client, i: nat, partitions: seq<Partition>): Client
    requires i < |c.bodies| && c.bodies[i].AwaitStatus?
  {
    var body := c.bodies[i];
    var chosen := ChoosePartition(partitions, c.state.partition);
    if body.revision != c.revision || c.stopped then FinishBody(c, i)
    else if chosen.None? || chosen.value.partitionKey == "" then FinishBody(c, i)
    else Adopted(c, i, partitions, chosen.value)
  }

  function NewLoad(c: Client, revision: nat, signal: nat): Load {
    Load(
      revision, signal, c.state.view, if c.state.selection.Agent? then c.state.selection.id else "", c.state.partition)
  }

  function ShowCity(s: Snapshot, revision: nat, p: Partition, societyOk: bool, directoryOk: bool): Snapshot {
    var society := if societyOk then Some(CityReply(revision, p.simulationId)) else s.society;
    var directory := if directoryOk then Some(CityReply(revision, p.simulationId)) else s.directory;
    s.(town := Some(Town(Projection(revision, p), society, directory)),
       projection := Some(Projection(revision, p)), society := society, directory := directory)
  }

  function OnCity(c: Client, i: nat, societyOk: bool, directoryOk: bool): Client
    requires i < |c.bodies| && c.bodies[i].AwaitCity?
  {
    var body := c.bodies[i];
    if body.revision != c.revision || c.stopped then FinishBody(c, i)
    else
      var shown := c.(state := ShowCity(c.state, body.revision, body.partition, societyOk, directoryOk));
      shown.(bodies := shown.bodies[i := AwaitResources(NewLoad(shown, body.revision, body.signal))])
  }

  // ---------- resources ----------

  predicate MayPublish(c: Client, load: Load) {
    && load.revision == c.revision && c.state.view == load.view
    && load.signal !in c.aborted && !c.stopped
    && (load.view == CognitionView ==> c.state.selection == Agent(load.agentId))
  }

  function PublishResources(c: Client, load: Load): Client {
    if MayPublish(c, load) then c.(state := c.state.(resources := Some(load))) else c
  }

  function StartLoad(c: Client): Client {
    c.(loads := c.loads + [NewLoad(c, c.revision, c.abort)])
  }

  // ---------- user actions ----------

  function Invalidate(c: Client): Client {
    c.(revision := c.revision + 1, aborted := c.aborted + {c.abort}, abort := c.abort + 1,
       state := c.state.(resources := None))
  }

  function SetView(c: Client, view: View): Client {
    var shown := c.(state := c.state.(view := view, resources := None));
    if shown.state.partition.Some? && shown.state.partition.value.partitionKey != "" then StartLoad(shown) else shown
  }

  // Moves to a partition of the same simulation; before any partition is known both names are absent.
  function MovedTo(current: Option<Partition>, key: string): Partition {
    Partition(if current.Some? then current.value.simulationId else "", key)
  }

  function MoveTo(c: Client, key: string): Client {
    var moved := Invalidate(c);
    RequestRefresh(moved.(state := moved.state.(partition := Some(MovedTo(c.state.partition, key)))))
  }

  predicate IsElsewhere(c: Client, owner: Option<string>) {
    owner.Some? && owner.value != "" && (c.state.partition.None? || owner.value != c.state.partition.value.partitionKey)
  }

  function Select(c: Client, selection: Selection, owner: Option<string>): Client {
    var shown := c.(state := c.state.(selection := selection, resources := None));
    if !selection.Agent? then shown
    else if IsElsewhere(c, owner) then MoveTo(shown, owner.value)
    else if shown.state.view == CognitionView then StartLoad(shown)
    else shown
  }

  // The first listed partition with this joined name.
  function Named(partitions: seq<Partition>, key: string): Option<Partition> {
    if partitions == [] then None
    else if JoinedName(partitions[0]) == key then Some(partitions[0])
    else Named(partitions[1..], key)
  }

  function JoinedName(p: Partition): string {
    p.simulationId + "/" + p.partitionKey
  }

  function SwitchTo(c: Client, p: Partition): Client {
    var invalid := Invalidate(c);
    RequestRefresh(invalid.(state := invalid.state.(
      partition := Some(p), town := None, projection := None, society := None, directory := None,
      selection := Nothing)))
  }

  function SetPartition(c: Client, key: string): Client {
    var found := Named(c.state.partitions, key);
    if found.None? then c else SwitchTo(c, found.value)
  }

  function Destroy(c: Client): Client {
    c.(stopped := true, aborted := c.aborted + {c.abort})
  }

  // ---------- the machine ----------

  predicate Possible(c: Client, e: Event) {
    match e
    case StatusReplied(i, _) => i < |c.bodies| && c.bodies[i].AwaitStatus?
    case CityReplied(i, _, _) => i < |c.bodies| && c.bodies[i].AwaitCity?
    case ResourcesReplied(i) => i < |c.bodies| && c.bodies[i].AwaitResources?
    case BodyFailed(i) => i < |c.bodies| && !c.bodies[i].AwaitResources?
    case LoadReplied(i) => i < |c.loads|
    case Selected(_, owner) => owner.Some? ==> c.state.town.Some?  // owners are read from the town
    case _ => true
  }

  function Step(c: Client, e: Event): Client
    requires Possible(c, e)
  {
    match e
    case RefreshRequested => RequestRefresh(c)
    case StatusReplied(i, partitions) => OnStatus(c, i, partitions)
    case CityReplied(i, societyOk, directoryOk) => OnCity(c, i, societyOk, directoryOk)
    case ResourcesReplied(i) => FinishBody(PublishResources(c, c.bodies[i].load), i)
    case BodyFailed(i) => FinishBody(c, i)
    case LoadReplied(i) => PublishResources(c, c.loads[i]).(loads := Without(c.loads, i))
    case ViewSet(view) => SetView(c, view)
    case Selected(selection, owner) => Select(c, selection, owner)
    case PartitionSet(key) => SetPartition(c, key)
    case AuthenticationStarted => Invalidate(c)
    case Destroyed => Destroy(c)
  }

  // ---------- invariants ----------

  function BodyRevision(b: Body): nat {
    if b.AwaitResources? then b.load.revision else b.revision
  }

  function BodySignal(b: Body): nat {
    if b.AwaitResources? then b.load.signal else b.signal
  }

  predicate SoundLoad(c: Client, load: Load) {
    load.revision == load.signal <= c.revision
  }

  predicate SoundBody(c: Client, b: Body) {
    && BodyRevision(b) == BodySignal(b) <= c.revision
    && (b.AwaitCity? && b.revision == c.revision ==> c.state.partition == Some(b.partition))
  }

  predicate FromCurrentSimulation(c: Client, reply: Option<CityReply>) {
    reply.Some? ==>
      && c.state.partition.Some? && reply.value.simulationId == c.state.partition.value.simulationId
      && reply.value.revision <= c.revision
  }

  // Shown resources were requested in the current revision for the current view and agent.
  predicate Fitting(c: Client, load: Load) {
    && load.revision == c.revision && load.view == c.state.view
    && (load.view == CognitionView ==> c.state.selection == Agent(load.agentId))
  }

  // One body at most, and a request is only queued behind a running one.
  predicate SingleBody(c: Client) {
    |c.bodies| == (if c.running then 1 else 0) && (c.queued ==> c.running || c.stopped)
  }

  // The revision numbers the abort controllers, and all older ones are aborted.
  ghost predicate SignalsNumbered(c: Client) {
    && c.abort == c.revision
    && (forall k: nat :: k < c.abort ==> k in c.aborted)
    && (forall k: nat :: k in c.aborted ==> k < c.abort || (c.stopped && k == c.abort))
  }

  predicate PendingSound(c: Client) {
    && (forall i :: 0 <= i < |c.bodies| ==> SoundBody(c, c.bodies[i]))
    && (forall i :: 0 <= i < |c.loads| ==> SoundLoad(c, c.loads[i]))
  }

  predicate ShownSound(c: Client) {
    && (c.state.town.Some? ==> c.state.partition.Some?)
    && (c.state.town.Some? <==> c.state.projection.Some?)
    && (c.state.projection.Some? ==> c.state.projection.value.revision <= c.revision)
    && FromCurrentSimulation(c, c.state.society) && FromCurrentSimulation(c, c.state.directory)
    && (c.state.resources.Some? ==> Fitting(c, c.state.resources.value))
  }

  ghost predicate Sound(c: Client) {
    SingleBody(c) && SignalsNumbered(c) && PendingSound(c) && ShownSound(c)
  }

  lemma RequestKeepsSound(c: Client)
    requires Sound(c)
    ensures Sound(RequestRefresh(c))
  {
  }

  lemma FinishKeepsSound(c: Client, i: nat)
    requires Sound(c) && i < |c.bodies|
    ensures Sound(FinishBody(c, i))
  {
    assert Without(c.bodies, i) == [];
    var ended := c.(
      running := false, bodies := [], queued := false,
      state := if c.stopped then c.state else c.state.(loading := false));
    assert Sound(ended);
    RequestKeepsSound(ended);
  }

  lemma AdoptedIsSound(c: Client, i: nat, partitions: seq<Partition>, p: Partition)
    requires Sound(c) && i < |c.bodies| && c.bodies[i].AwaitStatus?
    ensures Sound(Adopted(c, i, partitions, p))
  {
    assert SoundBody(c, c.bodies[i]);
  }

  lemma StatusKeepsSound(c: Client, i: nat, partitions: seq<Partition>)
    requires Sound(c) && i < |c.bodies| && c.bodies[i].AwaitStatus?
    ensures Sound(OnStatus(c, i, partitions))
  {
    FinishKeepsSound(c, i);
    var chosen := ChoosePartition(partitions, c.state.partition);
    if chosen.Some? {
      AdoptedIsSound(c, i, partitions, chosen.value);
    }
  }

  lemma CityKeepsSound(c: Client, i: nat, societyOk: bool, directoryOk: bool)
    requires Sound(c) && i < |c.bodies| && c.bodies[i].AwaitCity?
    ensures Sound(OnCity(c, i, societyOk, directoryOk))
  {
    FinishKeepsSound(c, i);
    assert SoundBody(c, c.bodies[i]);
  }

  lemma PublishKeepsSound(c: Client, load: Load)
    requires Sound(c)
    ensures Sound(PublishResources(c, load))
  {
  }

  lemma SetViewKeepsSound(c: Client, view: View)
    requires Sound(c)
    ensures Sound(SetView(c, view))
  {
  }

  lemma InvalidateKeepsSound(c: Client)
    requires Sound(c)
    ensures Sound(Invalidate(c))
  {
  }

  // Everything is out of date.
  predicate IsOutdated(c: Client) {
    c.state.resources.None? && forall i :: 0 <= i < |c.bodies| ==> BodyRevision(c.bodies[i]) < c.revision
  }

  lemma {:induction false} InvalidateOutdates(c: Client)
    requires Sound(c)
    ensures Sound(Invalidate(c)) && IsOutdated(Invalidate(c))
  {
    assert forall i :: 0 <= i < |c.bodies| ==> SoundBody(c, c.bodies[i]);
  }

  lemma {:induction false} MovedKeepsSound(moved: Client, key: string)
    requires Sound(moved) && IsOutdated(moved)
    ensures Sound(moved.(state := moved.state.(partition := Some(MovedTo(moved.state.partition, key)))))
  {
  }

  // Another partition with nothing shown yet.
  lemma {:induction false} ClearedIsSound(c: Client, p: Partition)
    requires Sound(c) && IsOutdated(c)
    ensures Sound(c.(state := c.state.(
      partition := Some(p), town := None, projection := None, society := None, directory := None,
      selection := Nothing)))
  {
  }

  lemma MoveKeepsSound(c: Client, key: string)
    requires Sound(c)
    ensures Sound(MoveTo(c, key))
  {
    InvalidateKeepsSound(c);
    var moved := Invalidate(c);
    var there := moved.(state := moved.state.(partition := Some(MovedTo(c.state.partition, key))));
    assert Sound(there);
    RequestKeepsSound(there);
  }

  lemma SelectionKeepsSound(c: Client, selection: Selection)
    requires Sound(c)
    ensures Sound(c.(state := c.state.(selection := selection, resources := None)))
  {
  }

  lemma LoadKeepsSound(c: Client)
    requires Sound(c)
    ensures Sound(StartLoad(c))
  {
  }

  lemma {:induction false} SelectMeans(c: Client, selection: Selection, owner: Option<string>)
    requires Sound(c)
    ensures var d := Select(c, selection, owner);
      && d.state.resources.None? && d.state.selection == selection
      && (d.revision > c.revision <==> selection.Agent? && IsElsewhere(c, owner))
      && (d.revision > c.revision ==> Owed(d, c.starts))
  {
  }

  lemma SelectKeepsSound(c: Client, selection: Selection, owner: Option<string>)
    requires Sound(c)
    ensures Sound(Select(c, selection, owner))
  {
    var shown := c.(state := c.state.(selection := selection, resources := None));
    SelectionKeepsSound(c, selection);
    LoadKeepsSound(shown);
    if owner.Some? {
      MoveKeepsSound(shown, owner.value);
    }
  }

  lemma SwitchKeepsSound(c: Client, p: Partition)
    requires Sound(c)
    ensures Sound(SwitchTo(c, p))
  {
    InvalidateKeepsSound(c);
    var invalid := Invalidate(c);
    var there := invalid.(state := invalid.state.(
      partition := Some(p), town := None, projection := None, society := None, directory := None,
      selection := Nothing));
    assert Sound(there);
    RequestKeepsSound(there);
  }

  lemma SetPartitionKeepsSound(c: Client, key: string)
    requires Sound(c)
    ensures Sound(SetPartition(c, key))
  {
    var found := Named(c.state.partitions, key);
    if found.Some? {
      SwitchKeepsSound(c, found.value);
    }
  }

  lemma StepKeepsSound(c: Client, e: Event)
    requires Sound(c) && Possible(c, e)
    ensures Sound(Step(c, e))
  {
    match e
    case RefreshRequested => RequestKeepsSound(c);
    case StatusReplied(i, partitions) => StatusKeepsSound(c, i, partitions);
    case CityReplied(i, societyOk, directoryOk) => CityKeepsSound(c, i, societyOk, directoryOk);
    case ResourcesReplied(i) =>
      PublishKeepsSound(c, c.bodies[i].load);
      FinishKeepsSound(PublishResources(c, c.bodies[i].load), i);
    case BodyFailed(i) => FinishKeepsSound(c, i);
    case LoadReplied(i) => PublishKeepsSound(c, c.loads[i]);
    case ViewSet(view) => SetViewKeepsSound(c, view);
    case Selected(selection, owner) => SelectKeepsSound(c, selection, owner);
    case PartitionSet(key) => SetPartitionKeepsSound(c, key);
    case AuthenticationStarted => InvalidateKeepsSound(c);
    case Destroyed =>
  }

  // ---------- runs ----------

  predicate Legal(c: Client, run: seq<Event>)
    decreases |run|
  {
    run == [] || (Possible(c, run[0]) && Legal(Step(c, run[0]), run[1..]))
  }

  function After(c: Client, run: seq<Event>): Client
    requires Legal(c, run)
    decreases |run|
  {
    if run == [] then c else After(Step(c, run[0]), run[1..])
  }

  lemma {:induction false} RunKeepsSound(c: Client, run: seq<Event>)
    requires Sound(c) && Legal(c, run)
    ensures Sound(After(c, run))
    decreases |run|
  {
    if run != [] {
      StepKeepsSound(c, run[0]);
      RunKeepsSound(Step(c, run[0]), run[1..]);
    }
  }

  // At every point of every run at most one refresh body is under way, and what is shown fits.
  lemma ReachableIsSound(view: View, run: seq<Event>)
    requires Legal(Initial(view), run)
    ensures var c := After(Initial(view), run);
      Sound(c) && |c.bodies| <= 1 && (c.bodies != [] <==> c.running)
  {
    RunKeepsSound(Initial(view), run);
  }

  // ---------- nothing requested before an invalidation is written after it ----------

  // Every part of the snapshot that changed is empty or was requested in the revision in force. The
  // society and directory inside the town may be the ones already shown.
  predicate WritesAreCurrent(c: Client, d: Client) {
    && (d.state.projection == c.state.projection || d.state.projection.None?
      || CurrentProjection(d, d.state.projection.value))
    && CurrentReply(d, c.state.society, d.state.society) && CurrentReply(d, c.state.directory, d.state.directory)
    && (d.state.resources == c.state.resources || d.state.resources.None?
      || d.state.resources.value.revision == d.revision)
    && (d.state.town == c.state.town || d.state.town.None? || CurrentTown(d, d.state.town.value))
  }

  predicate CurrentProjection(d: Client, projection: Projection) {
    projection.revision == d.revision && Some(projection.partition) == d.state.partition
  }

  predicate CurrentReply(d: Client, before: Option<CityReply>, now: Option<CityReply>) {
    now == before || now.None? || now.value.revision == d.revision
  }

  predicate CurrentTown(d: Client, town: Town) {
    && CurrentProjection(d, town.projection) && d.state.projection == Some(town.projection)
    && town.society == d.state.society && town.directory == d.state.directory
  }

  lemma FinishShowsNothing(c: Client, i: nat)
    requires i < |c.bodies|
    ensures FinishBody(c, i).state == c.state.(loading := FinishBody(c, i).state.loading)
    ensures FinishBody(c, i).revision == c.revision
  {
  }

  lemma CityWritesCurrent(c: Client, i: nat, societyOk: bool, directoryOk: bool)
    requires Sound(c) && i < |c.bodies| && c.bodies[i].AwaitCity?
    ensures WritesAreCurrent(c, OnCity(c, i, societyOk, directoryOk))
  {
    FinishShowsNothing(c, i);
    assert SoundBody(c, c.bodies[i]);
  }

  lemma StatusWritesCurrent(c: Client, i: nat, partitions: seq<Partition>)
    requires i < |c.bodies| && c.bodies[i].AwaitStatus?
    ensures WritesAreCurrent(c, OnStatus(c, i, partitions))
  {
    FinishShowsNothing(c, i);
  }

  lemma SelectWritesCurrent(c: Client, selection: Selection, owner: Option<string>)
    ensures WritesAreCurrent(c, Select(c, selection, owner))
  {
  }

  lemma UserWritesCurrent(c: Client, e: Event)
    requires Possible(c, e)
    requires e.ViewSet? || e.PartitionSet? || e.AuthenticationStarted? || e.Destroyed? || e.RefreshRequested?
    ensures WritesAreCurrent(c, Step(c, e))
  {
  }

  lemma StepWritesCurrent(c: Client, e: Event)
    requires Sound(c) && Possible(c, e)
    ensures WritesAreCurrent(c, Step(c, e))
  {
    match e
    case StatusReplied(i, partitions) => StatusWritesCurrent(c, i, partitions);
    case CityReplied(i, societyOk, directoryOk) => CityWritesCurrent(c, i, societyOk, directoryOk);
    case ResourcesReplied(i) => FinishShowsNothing(PublishResources(c, c.bodies[i].load), i);
    case BodyFailed(i) => FinishShowsNothing(c, i);
    case LoadReplied(i) =>
    case Selected(selection, owner) => SelectWritesCurrent(c, selection, owner);
    case _ => UserWritesCurrent(c, e);
  }

  predicate IsOldReply(c: Client, e: Event)
    requires Possible(c, e)
  {
    match e
    case StatusReplied(i, _) => BodyRevision(c.bodies[i]) < c.revision
    case CityReplied(i, _, _) => BodyRevision(c.bodies[i]) < c.revision
    case ResourcesReplied(i) => BodyRevision(c.bodies[i]) < c.revision
    case LoadReplied(i) => c.loads[i].revision < c.revision
    case _ => false
  }

  // A reply that belongs to an older revision changes nothing that is shown.
  lemma OldRepliesShowNothing(c: Client, e: Event)
    requires Sound(c) && Possible(c, e)
    requires IsOldReply(c, e)
    ensures Step(c, e).state == c.state.(loading := Step(c, e).state.loading)
  {
  }

  // Everything shown was requested at `from` or later.
  predicate ShownSince(s: Snapshot, from: nat) {
    && (s.projection.Some? ==> from <= s.projection.value.revision)
    && (s.society.Some? ==> from <= s.society.value.revision)
    && (s.directory.Some? ==> from <= s.directory.value.revision)
    && (s.resources.Some? ==> from <= s.resources.value.revision)
    && (s.town.Some? ==> TownSince(s.town.value, from))
  }

  predicate TownSince(town: Town, from: nat) {
    && from <= town.projection.revision
    && (town.society.Some? ==> from <= town.society.value.revision)
    && (town.directory.Some? ==> from <= town.directory.value.revision)
  }

  lemma ReplyKeepsRevision(c: Client, e: Event)
    requires Possible(c, e) && IsReply(e)
    ensures Step(c, e).revision == c.revision
  {
  }

  lemma RevisionGrows(c: Client, e: Event)
    requires Possible(c, e)
    ensures c.revision <= Step(c, e).revision
  {
    if IsReply(e) {
      ReplyKeepsRevision(c, e);
    }
  }

  lemma {:induction false} RunShowsSince(c: Client, run: seq<Event>, from: nat)
    requires Sound(c) && Legal(c, run) && ShownSince(c.state, from) && from <= c.revision
    ensures ShownSince(After(c, run).state, from)
    decreases |run|
  {
    if run != [] {
      var d := Step(c, run[0]);
      StepKeepsSound(c, run[0]);
      StepWritesCurrent(c, run[0]);
      RevisionGrows(c, run[0]);
      RunShowsSince(d, run[1..], from);
    }
  }

  // After a partition switch nothing requested before it is ever shown again.
  lemma SwitchShowsOnlyNew(c: Client, key: string, run: seq<Event>)
    requires Sound(c) && Named(c.state.partitions, key).Some? && Legal(SetPartition(c, key), run)
    ensures ShownSince(After(SetPartition(c, key), run).state, c.revision + 1)
  {
    SetPartitionKeepsSound(c, key);
    RunShowsSince(SetPartition(c, key), run, c.revision + 1);
  }

  // A published town rests on replies of its own revision exactly when each optional reply came, or
  // the one retained in its place is itself of that revision.
  lemma TownIsCurrentIff(c: Client, i: nat, societyOk: bool, directoryOk: bool)
    requires Sound(c) && i < |c.bodies| && c.bodies[i].AwaitCity?
    requires c.bodies[i].revision == c.revision && !c.stopped
    ensures var town := OnCity(c, i, societyOk, directoryOk).state.town;
      town.Some? && town.value.projection == Projection(c.revision, c.bodies[i].partition)
      && (TownSince(town.value, c.revision) <==>
          (societyOk || c.state.society.None? || c.state.society.value.revision >= c.revision)
          && (directoryOk || c.state.directory.None? || c.state.directory.value.revision >= c.revision))
  {
  }

  lemma RunOf(c: Client, e: Event, rest: seq<Event>)
    requires Possible(c, e) && Legal(Step(c, e), rest)
    ensures Legal(c, [e] + rest) && After(c, [e] + rest) == After(Step(c, e), rest)
  {
    assert ([e] + rest)[1..] == rest;
  }

  // Authentication invalidates but keeps the society, so a society read before it is shown in a town
  // read after it when the new society request fails.
  lemma RetainedSocietyOutlivesAuthentication(c: Client, p: Partition)
    requires Sound(c) && !c.running && !c.stopped && c.state.society.Some?
    requires c.state.partition == Some(p) && p.partitionKey != ""
    ensures
      var run := [AuthenticationStarted] +
        ([RefreshRequested] + ([StatusReplied(0, [p])] + ([CityReplied(0, false, true)] + [])));
      Legal(c, run) && var d := After(c, run);
      d.state.town == Some(Town(Projection(d.revision, p), c.state.society,
        Some(CityReply(d.revision, p.simulationId))))
      && c.state.society.value.revision < d.revision
  {
    var c1 := Step(c, AuthenticationStarted);
    var c2 := Step(c1, RefreshRequested);
    var c3 := Step(c2, StatusReplied(0, [p]));
    assert c2.bodies == [AwaitStatus(c.revision + 1, c.revision + 1)];
    assert c3.bodies == [AwaitCity(c.revision + 1, c.revision + 1, p)];
    RunOf(c3, CityReplied(0, false, true), []);
    RunOf(c2, StatusReplied(0, [p]), [CityReplied(0, false, true)] + []);
    RunOf(c1, RefreshRequested, [StatusReplied(0, [p])] + ([CityReplied(0, false, true)] + []));
    RunOf(c, AuthenticationStarted, [RefreshRequested] +
      ([StatusReplied(0, [p])] + ([CityReplied(0, false, true)] + [])));
  }

  // ---------- shown and pending data belong to the current partition ----------

  predicate PlacedLoad(c: Client, load: Load) {
    load.revision == c.revision ==> load.partition == c.state.partition
  }

  // Everything pending or shown that was requested in this revision was requested for this partition.
  predicate InPlace(c: Client) {
    && (forall i :: 0 <= i < |c.loads| ==> PlacedLoad(c, c.loads[i]))
    && (forall i :: 0 <= i < |c.bodies| ==> (c.bodies[i].AwaitResources? ==> PlacedLoad(c, c.bodies[i].load)))
    && (c.state.resources.Some? ==> PlacedLoad(c, c.state.resources.value))
    && (c.state.projection.Some? && c.state.projection.value.revision == c.revision ==>
         Some(c.state.projection.value.partition) == c.state.partition)
  }

  // A status reply leaves the client in its partition: it is out of date, it lists the current partition,
  // or its first partition cannot be used.
  predicate StatusStays(c: Client, i: nat, partitions: seq<Partition>)
    requires i < |c.bodies| && c.bodies[i].AwaitStatus?
  {
    || c.bodies[i].revision != c.revision || c.stopped
    || (c.state.partition.Some? && c.state.partition.value in partitions)
    || partitions == [] || partitions[0].partitionKey == ""
  }

  lemma {:induction false} StatusStaysIff(c: Client, i: nat, partitions: seq<Partition>)
    requires i < |c.bodies| && c.bodies[i].AwaitStatus?
    ensures OnStatus(c, i, partitions).state.partition == c.state.partition <==> StatusStays(c, i, partitions)
  {
    FinishShowsNothing(c, i);
    if partitions != [] {
      assert partitions[0] in partitions;
    }
  }

  // No status reply moves the client to another partition behind the user's back.
  predicate Stays(c: Client, e: Event)
    requires Possible(c, e)
  {
    e.StatusReplied? ==> StatusStays(c, e.body, e.partitions)
  }

  predicate StaysThroughout(c: Client, run: seq<Event>)
    requires Legal(c, run)
    decreases |run|
  {
    run == [] || (Stays(c, run[0]) && StaysThroughout(Step(c, run[0]), run[1..]))
  }

  lemma FinishKeepsPlace(c: Client, i: nat)
    requires Sound(c) && InPlace(c) && i < |c.bodies|
    ensures InPlace(FinishBody(c, i))
  {
    assert Without(c.bodies, i) == [];
  }

  // A new revision finds everything pending or shown out of date.
  lemma NewRevisionIsInPlace(c: Client, d: Client)
    requires Sound(c) && d.revision > c.revision && d.loads == c.loads && d.state.resources.None?
    requires d.bodies == c.bodies || (exists b: Body :: b.AwaitStatus? && d.bodies == c.bodies + [b])
    requires d.state.projection.None? || d.state.projection == c.state.projection
    ensures InPlace(d)
  {
    assert forall i :: 0 <= i < |c.loads| ==> SoundLoad(c, c.loads[i]);
    assert forall i :: 0 <= i < |c.bodies| ==> SoundBody(c, c.bodies[i]);
  }

  lemma MoveKeepsPlace(c: Client, key: string)
    requires Sound(c)
    ensures InPlace(MoveTo(c, key))
  {
    var d := MoveTo(c, key);
    assert d.bodies == c.bodies || d.bodies == c.bodies + [AwaitStatus(d.revision, d.abort)];
    NewRevisionIsInPlace(c, d);
  }

  lemma SelectionKeepsPlace(c: Client, selection: Selection)
    requires InPlace(c)
    ensures InPlace(c.(state := c.state.(selection := selection, resources := None)))
  {
  }

  lemma LoadKeepsPlace(c: Client)
    requires InPlace(c)
    ensures InPlace(StartLoad(c))
  {
  }

  lemma SelectKeepsPlace(c: Client, selection: Selection, owner: Option<string>)
    requires Sound(c) && InPlace(c)
    ensures InPlace(Select(c, selection, owner))
  {
    var shown := c.(state := c.state.(selection := selection, resources := None));
    SelectionKeepsSound(c, selection);
    SelectionKeepsPlace(c, selection);
    LoadKeepsPlace(shown);
    if owner.Some? {
      MoveKeepsPlace(shown, owner.value);
    }
  }

  lemma SetPartitionKeepsPlace(c: Client, key: string)
    requires Sound(c) && InPlace(c)
    ensures InPlace(SetPartition(c, key))
  {
    var d := SetPartition(c, key);
    if d.revision > c.revision {
      assert d.bodies == c.bodies || d.bodies == c.bodies + [AwaitStatus(d.revision, d.abort)];
      NewRevisionIsInPlace(c, d);
    }
  }

  lemma CityKeepsPlace(c: Client, i: nat, societyOk: bool, directoryOk: bool)
    requires Sound(c) && InPlace(c) && i < |c.bodies| && c.bodies[i].AwaitCity?
    ensures InPlace(OnCity(c, i, societyOk, directoryOk))
  {
    FinishKeepsPlace(c, i);
    assert SoundBody(c, c.bodies[i]);
  }

  lemma StatusKeepsPlace(c: Client, i: nat, partitions: seq<Partition>)
    requires Sound(c) && InPlace(c) && i < |c.bodies| && c.bodies[i].AwaitStatus?
    requires StatusStays(c, i, partitions)
    ensures InPlace(OnStatus(c, i, partitions))
  {
    StatusStaysIff(c, i, partitions);
    FinishKeepsPlace(c, i);
  }

  lemma PublishKeepsPlace(c: Client, load: Load)
    requires Sound(c) && InPlace(c) && PlacedLoad(c, load)
    ensures Sound(PublishResources(c, load)) && InPlace(PublishResources(c, load))
  {
  }

  lemma QuietKeepsPlace(c: Client, e: Event)
    requires Sound(c) && InPlace(c) && (e.RefreshRequested? || e.ViewSet? || e.Destroyed?)
    ensures InPlace(Step(c, e))
  {
  }

  lemma ReplyKeepsPlace(c: Client, e: Event)
    requires Sound(c) && InPlace(c) && Possible(c, e) && Stays(c, e) && IsReply(e)
    ensures InPlace(Step(c, e))
  {
    match e
    case StatusReplied(i, partitions) => StatusKeepsPlace(c, i, partitions);
    case CityReplied(i, societyOk, directoryOk) => CityKeepsPlace(c, i, societyOk, directoryOk);
    case ResourcesReplied(i) =>
      PublishKeepsPlace(c, c.bodies[i].load);
      FinishKeepsPlace(PublishResources(c, c.bodies[i].load), i);
    case BodyFailed(i) => FinishKeepsPlace(c, i);
  }

  lemma UserKeepsPlace(c: Client, e: Event)
    requires Sound(c) && InPlace(c) && Possible(c, e)
    requires e.Selected? || e.PartitionSet? || e.AuthenticationStarted?
    ensures InPlace(Step(c, e))
  {
    match e
    case Selected(selection, owner) => SelectKeepsPlace(c, selection, owner);
    case PartitionSet(key) => SetPartitionKeepsPlace(c, key);
    case AuthenticationStarted => NewRevisionIsInPlace(c, Invalidate(c));
  }

  lemma LoadReplyKeepsPlace(c: Client, i: nat)
    requires Sound(c) && InPlace(c) && i < |c.loads|
    ensures InPlace(Step(c, LoadReplied(i)))
  {
    PublishKeepsPlace(c, c.loads[i]);
  }

  lemma StepKeepsPlace(c: Client, e: Event)
    requires Sound(c) && InPlace(c) && Possible(c, e) && Stays(c, e)
    ensures InPlace(Step(c, e))
  {
    if e.LoadReplied? {
      LoadReplyKeepsPlace(c, e.load);
    } else if IsReply(e) {
      ReplyKeepsPlace(c, e);
    } else if e.RefreshRequested? || e.ViewSet? || e.Destroyed? {
      QuietKeepsPlace(c, e);
    } else {
      UserKeepsPlace(c, e);
    }
  }

  lemma {:induction false} RunKeepsPlace(c: Client, run: seq<Event>)
    requires Sound(c) && InPlace(c) && Legal(c, run) && StaysThroughout(c, run)
    ensures Sound(After(c, run)) && InPlace(After(c, run))
    decreases |run|
  {
    if run != [] {
      StepKeepsSound(c, run[0]);
      StepKeepsPlace(c, run[0]);
      RunKeepsPlace(Step(c, run[0]), run[1..]);
    }
  }

  // The reply leaves the client in its simulation.
  predicate KeepsSimulation(c: Client, i: nat, partitions: seq<Partition>)
    requires i < |c.bodies| && c.bodies[i].AwaitStatus?
  {
    || StatusStays(c, i, partitions)
    || (c.state.partition.Some? && partitions[0].simulationId == c.state.partition.value.simulationId)
  }

  // A status reply neither cancels a load nor changes what the view asks for, except that a change of
  // simulation drops the selected agent.
  lemma {:induction false} StatusKeepsLoads(c: Client, i: nat, partitions: seq<Partition>, load: Load)
    requires i < |c.bodies| && c.bodies[i].AwaitStatus? && MayPublish(c, load)
    ensures OnStatus(c, i, partitions).loads == c.loads
    ensures MayPublish(OnStatus(c, i, partitions), load) <==>
      load.view != CognitionView || KeepsSimulation(c, i, partitions)
    ensures !KeepsSimulation(c, i, partitions) ==> OnStatus(c, i, partitions).state.resources.None?
  {
    FinishShowsNothing(c, i);
    if partitions != [] {
      assert partitions[0] in partitions;
    }
  }

  // While a load is pending, a status reply can take the client to another partition within the same
  // revision. The load is still published, unless it is of an agent and the simulation has changed; and it
  // fits the partition exactly when the reply left the client in it.
  lemma {:induction false} LoadOutlivesPartition(c: Client, i: nat, partitions: seq<Partition>, k: nat)
    requires Sound(c) && InPlace(c) && i < |c.bodies| && c.bodies[i].AwaitStatus? && k < |c.loads|
    requires MayPublish(c, c.loads[k])
    ensures var d, load := OnStatus(c, i, partitions), c.loads[k];
      Possible(d, LoadReplied(k))
      && var shown := Step(d, LoadReplied(k)).state;
      && (shown.resources == Some(load) <==> load.view != CognitionView || KeepsSimulation(c, i, partitions))
      && (load.partition == shown.partition <==> StatusStays(c, i, partitions))
  {
    assert PlacedLoad(c, c.loads[k]);
    StatusKeepsLoads(c, i, partitions, c.loads[k]);
    StatusStaysIff(c, i, partitions);
    PublishOrNot(OnStatus(c, i, partitions), k);
  }

  lemma {:induction false} PublishOrNot(d: Client, k: nat)
    requires k < |d.loads| && (MayPublish(d, d.loads[k]) || d.state.resources.None?)
    ensures Step(d, LoadReplied(k)).state.resources == (if MayPublish(d, d.loads[k]) then Some(d.loads[k]) else None)
    ensures Step(d, LoadReplied(k)).state.partition == d.state.partition
  {
  }

  // ---------- coalescing ----------

  // A refresh owed since `n` bodies had been started: started, about to be, or given up by destroy.
  predicate Owed(c: Client, n: nat) {
    c.stopped || c.starts > n || (c.starts == n && c.running && c.queued)
  }

  // Replies each body still waits for.
  function Stage(c: Client): nat {
    if c.bodies == [] then 0
    else match c.bodies[0] case AwaitStatus(_, _) => 3 case AwaitCity(_, _, _) => 2 case AwaitResources(_) => 1
  }

  predicate IsReply(e: Event) {
    e.StatusReplied? || e.CityReplied? || e.ResourcesReplied? || e.BodyFailed?
  }

  function Replies(run: seq<Event>): nat {
    if run == [] then 0 else (if IsReply(run[0]) then 1 else 0) + Replies(run[1..])
  }

  lemma FinishStartsAtMostOne(c: Client, i: nat)
    requires i < |c.bodies|
    ensures c.starts <= FinishBody(c, i).starts <= (if c.queued && !c.stopped then c.starts + 1 else c.starts)
    ensures FinishBody(c, i).stopped == c.stopped
  {
  }

  lemma ReplyStartsAtMostOne(c: Client, e: Event)
    requires Possible(c, e) && IsReply(e)
    ensures c.starts <= Step(c, e).starts <= (if c.queued && !c.stopped then c.starts + 1 else c.starts)
    ensures Step(c, e).stopped == c.stopped
  {
    FinishStartsAtMostOne(c, e.body);
    if e.ResourcesReplied? {
      FinishStartsAtMostOne(PublishResources(c, c.bodies[e.body].load), e.body);
    }
  }

  lemma OthersStartAtMostOne(c: Client, e: Event)
    requires Possible(c, e) && !IsReply(e)
    ensures c.starts <= Step(c, e).starts <= (if c.running || c.stopped then c.starts else c.starts + 1)
    ensures c.stopped ==> Step(c, e).stopped
  {
  }

  // No event starts two bodies, and while a body runs only a reply can start the next.
  lemma StepStartsAtMostOne(c: Client, e: Event)
    requires Sound(c) && Possible(c, e)
    ensures c.starts <= Step(c, e).starts <= c.starts + 1
    ensures c.running && !IsReply(e) ==> Step(c, e).starts == c.starts
    ensures c.stopped ==> Step(c, e).starts == c.starts && Step(c, e).stopped
  {
    if IsReply(e) {
      ReplyStartsAtMostOne(c, e);
    } else {
      OthersStartAtMostOne(c, e);
    }
  }

  // The event asks for a refresh.
  predicate Requests(c: Client, e: Event) {
    || e.RefreshRequested?
    || (e.Selected? && e.selection.Agent? && IsElsewhere(c, e.owner))
    || (e.PartitionSet? && Named(c.state.partitions, e.key).Some?)
  }

  // Some event of the run asks for a refresh before the client is destroyed.
  predicate RequestedIn(c: Client, run: seq<Event>)
    requires Legal(c, run)
    decreases |run|
  {
    run != [] && ((!c.stopped && Requests(c, run[0])) || RequestedIn(Step(c, run[0]), run[1..]))
  }

  predicate WithoutReplies(run: seq<Event>) {
    forall i :: 0 <= i < |run| ==> !IsReply(run[i])
  }

  lemma {:induction false} RequestIsQueued(c: Client, e: Event)
    requires Sound(c) && c.running && Possible(c, e) && !IsReply(e)
    ensures var d := Step(c, e);
      d.running && d.starts == c.starts && (d.queued <==> c.queued || (!c.stopped && Requests(c, e)))
  {
  }

  lemma {:induction false} RequestsAreQueued(c: Client, run: seq<Event>)
    requires Sound(c) && c.running && Legal(c, run) && WithoutReplies(run)
    ensures var d := After(c, run);
      Sound(d) && d.running && d.starts == c.starts && (d.queued <==> c.queued || RequestedIn(c, run))
    decreases |run|
  {
    if run != [] {
      StepKeepsSound(c, run[0]);
      RequestIsQueued(c, run[0]);
      RequestsAreQueued(Step(c, run[0]), run[1..]);
    }
  }

  // The reply is the last one its body waits for, or ends it early.
  predicate EndsBody(c: Client, e: Event)
    requires Possible(c, e) && IsReply(e)
  {
    match e
    case StatusReplied(i, partitions) =>
      var chosen := ChoosePartition(partitions, c.state.partition);
      c.bodies[i].revision != c.revision || c.stopped || chosen.None? || chosen.value.partitionKey == ""
    case CityReplied(i, _, _) => c.bodies[i].revision != c.revision || c.stopped
    case _ => true
  }

  lemma {:induction false} EndOfBody(c: Client, e: Event)
    requires Sound(c) && Possible(c, e) && IsReply(e)
    ensures var d := Step(c, e);
      if !EndsBody(c, e) then d.starts == c.starts && d.queued == c.queued && d.running
      else if c.queued && !c.stopped then d.starts == c.starts + 1 && !d.queued && d.running
      else d.starts == c.starts && !d.running
  {
    assert |c.bodies| == 1;
  }

  // From a running client no event but a reply starts a body; any number of requests among them leaves one
  // queued; and the reply that ends the body starts exactly one for all of them, or none without a request.
  lemma {:induction false} RequestsCoalesce(c: Client, run: seq<Event>, e: Event)
    requires Sound(c) && c.running && Legal(c, run) && WithoutReplies(run)
    requires IsReply(e) && Possible(After(c, run), e)
    ensures var d := After(c, run);
      && d.starts == c.starts && (d.queued <==> c.queued || RequestedIn(c, run))
      && Step(d, e).starts ==
           (if EndsBody(d, e) && !d.stopped && (c.queued || RequestedIn(c, run)) then c.starts + 1 else c.starts)
      && (EndsBody(d, e) && !d.stopped ==> !Step(d, e).queued)
  {
    RequestsAreQueued(c, run);
    EndOfBody(After(c, run), e);
  }

  // Until the owed body starts, each reply brings the running body one stage on and nothing else does.
  lemma ReplyAdvances(c: Client, e: Event)
    requires Sound(c) && Possible(c, e) && IsReply(e)
    ensures var d := Step(c, e);
      d.stopped == c.stopped && (!c.queued || c.stopped || d.starts > c.starts
        || (d.queued && d.running && Stage(d) < Stage(c)))
  {
    assert |c.bodies| == 1;
  }

  lemma OthersKeepStage(c: Client, e: Event)
    requires Sound(c) && Possible(c, e) && !IsReply(e) && c.running && c.queued
    ensures var d := Step(c, e);
      d.stopped || (d.running && d.queued && d.starts == c.starts && Stage(d) == Stage(c))
  {
  }

  lemma {:induction false} SettledStays(c: Client, run: seq<Event>, n: nat)
    requires Sound(c) && Legal(c, run) && (c.stopped || c.starts > n)
    ensures After(c, run).stopped || After(c, run).starts > n
    decreases |run|
  {
    if run != [] {
      StepKeepsSound(c, run[0]);
      StepStartsAtMostOne(c, run[0]);
      SettledStays(Step(c, run[0]), run[1..], n);
    }
  }

  // A refresh requested while a body runs is never lost: at every later point a later body has started,
  // the request is still queued behind the running one, or the client was destroyed; and a body waits
  // for at most three replies, so after the replies due to it the later body has started.
  lemma {:induction false} OwedRefreshStarts(c: Client, run: seq<Event>, n: nat)
    requires Sound(c) && Legal(c, run) && Owed(c, n)
    ensures Owed(After(c, run), n)
    ensures Replies(run) >= Stage(c) ==> After(c, run).stopped || After(c, run).starts > n
    decreases |run|
  {
    if c.stopped || c.starts > n {
      SettledStays(c, run, n);
    } else if run != [] {
      StepKeepsSound(c, run[0]);
      if IsReply(run[0]) {
        ReplyAdvances(c, run[0]);
      } else {
        OthersKeepStage(c, run[0]);
      }
      OwedRefreshStarts(Step(c, run[0]), run[1..], n);
      var d := Step(c, run[0]);
      if d.stopped || d.starts > n {
        SettledStays(d, run[1..], n);
      }
    }
  }

  lemma RefreshIsNotLost(c: Client, run: seq<Event>)
    requires Sound(c) && Legal(RequestRefresh(c), run)
    ensures var d := After(RequestRefresh(c), run);
      d.stopped || d.starts > c.starts || (c.running && d.running && d.queued && Replies(run) < Stage(c))
  {
    RequestKeepsSound(c);
    var r := RequestRefresh(c);
    assert !c.stopped && !c.running ==> r.starts > c.starts;
    if r.stopped || r.starts > c.starts {
      SettledStays(r, run, c.starts);
    }
    OwedRefreshStarts(RequestRefresh(c), run, c.starts);
  }
}
