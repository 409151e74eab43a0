// What each event does to the town client, field by field, without the functions of the machine.
module ClientEffects {
  import opened Wrappers
  import opened ClientStore

  // The rest of the client stays.
  predicate SameSignals(c: Client, d: Client) {
    d.revision == c.revision && d.abort == c.abort && d.aborted == c.aborted && d.stopped == c.stopped
  }

  predicate SameBodies(c: Client, d: Client) {
    d.running == c.running && d.queued == c.queued && d.bodies == c.bodies && d.starts == c.starts
  }

  function AgentShown(s: Snapshot): string {
    if s.selection.Agent? then s.selection.id else ""
  }

  // The body is over: of what is shown only the loading flag changes, and a queued request has become the
  // next body.
  predicate Ended(c: Client, d: Client) {
    var again := c.queued && !c.stopped;
    && SameSignals(c, d) && d.loads == c.loads
    && d.state == (if c.stopped then c.state else c.state.(loading := again))
    && d.running == again && d.queued == (c.queued && c.stopped)
    && d.bodies == (if again then [AwaitStatus(c.revision, c.abort)] else [])
    && d.starts == c.starts + (if again then 1 else 0)
  }

  // A reply in force, for the partition that is listed, or else for the first one.
  predicate StatusEffect(c: Client, d: Client, i: nat, partitions: seq<Partition>)
    requires i < |c.bodies| && c.bodies[i].AwaitStatus?
  {
    var body, before := c.bodies[i], c.state.partition;
    var listed := before.Some? && before.value in partitions;
    if body.revision != c.revision || c.stopped || (!listed && partitions == []) then Ended(c, d)
    else
      var p := if listed then before.value else partitions[0];
      if p.partitionKey == "" then Ended(c, d)
      else
        && SameSignals(c, d) && d.loads == c.loads
        && d.running == c.running && d.queued == c.queued && d.starts == c.starts
        && d.bodies == [AwaitCity(body.revision, body.signal, p)]
        && d.state.partitions == partitions && d.state.partition == Some(p)
        && d.state.town == c.state.town && d.state.projection == c.state.projection
        && d.state.view == c.state.view && d.state.loading == c.state.loading
        && (if before.Some? && before.value.simulationId == p.simulationId then
              && d.state.society == c.state.society && d.state.directory == c.state.directory
              && d.state.selection == c.state.selection && d.state.resources == c.state.resources
            else
              && d.state.society.None? && d.state.directory.None?
              && d.state.selection == Nothing && d.state.resources.None?)
  }

  // A reply in force is shown, with what was shown before in place of what did not come; then the resources
  // of the view are awaited.
  predicate CityEffect(c: Client, d: Client, i: nat, societyOk: bool, directoryOk: bool)
    requires i < |c.bodies| && c.bodies[i].AwaitCity?
  {
    var body := c.bodies[i];
    if body.revision != c.revision || c.stopped then Ended(c, d)
    else
      var reply := Some(CityReply(body.revision, body.partition.simulationId));
      var projection := Projection(body.revision, body.partition);
      && SameSignals(c, d) && d.loads == c.loads
      && d.running == c.running && d.queued == c.queued && d.starts == c.starts
      && d.state.society == (if societyOk then reply else c.state.society)
      && d.state.directory == (if directoryOk then reply else c.state.directory)
      && d.state.projection == Some(projection)
      && d.state.town == Some(Town(projection, d.state.society, d.state.directory))
      && d.state.resources == c.state.resources && d.state.partitions == c.state.partitions
      && d.state.partition == c.state.partition && d.state.selection == c.state.selection
      && d.state.view == c.state.view && d.state.loading == c.state.loading
      && d.bodies == [AwaitResources(
           Load(body.revision, body.signal, c.state.view, AgentShown(c.state), c.state.partition))]
  }

  // Resources are shown exactly when they were requested in this revision, not cancelled since, for the view
  // that is shown and, for an agent, the agent.
  predicate LoadEffect(c: Client, d: Client, load: Load) {
    var shown :=
      && load.revision == c.revision && load.signal !in c.aborted && !c.stopped && load.view == c.state.view
      && (load.view == CognitionView ==> c.state.selection == Agent(load.agentId));
    && SameSignals(c, d) && SameBodies(c, d) && d.loads == c.loads
    && d.state == (if shown then c.state.(resources := Some(load)) else c.state)
  }

  // A view is shown without resources, and these are requested once a partition is known.
  predicate ViewEffect(c: Client, d: Client, view: View) {
    && SameSignals(c, d) && SameBodies(c, d)
    && d.state == c.state.(view := view, resources := None)
    && d.loads == (
         if c.state.partition.Some? && c.state.partition.value.partitionKey != "" then
           c.loads + [Load(c.revision, c.abort, view, AgentShown(c.state), c.state.partition)]
         else c.loads)
  }

  // The next revision, with its own signal, and a refresh requested in it.
  predicate Refreshed(c: Client, d: Client) {
    && d.revision == c.revision + 1 && d.abort == c.abort + 1 && d.aborted == c.aborted + {c.abort}
    && d.stopped == c.stopped && d.loads == c.loads
    && (if c.stopped then SameBodies(c, d)
        else if c.running then d.running && d.queued && d.bodies == c.bodies && d.starts == c.starts
        else
          && d.running && d.queued == c.queued && d.starts == c.starts + 1
          && d.bodies == c.bodies + [AwaitStatus(d.revision, d.abort)])
    && d.state.loading == (c.state.loading || (!c.stopped && !c.running))
  }

  // An agent of another partition takes the client to that partition of the simulation, in a new revision.
  predicate SelectEffect(c: Client, d: Client, selection: Selection, owner: Option<string>) {
    var elsewhere := selection.Agent? && owner.Some? && owner.value != ""
      && !(c.state.partition.Some? && c.state.partition.value.partitionKey == owner.value);
    && d.state.selection == selection && d.state.resources.None? && d.state.view == c.state.view
    && d.state.town == c.state.town && d.state.projection == c.state.projection
    && d.state.society == c.state.society && d.state.directory == c.state.directory
    && d.state.partitions == c.state.partitions
    && if elsewhere then
         && Refreshed(c, d)
         && d.state.partition ==
              Some(Partition(if c.state.partition.Some? then c.state.partition.value.simulationId else "", owner.value))
       else
         && SameSignals(c, d) && SameBodies(c, d) && d.state.loading == c.state.loading
         && d.state.partition == c.state.partition
         && d.loads == (
              if selection.Agent? && c.state.view == CognitionView then
                c.loads + [Load(c.revision, c.abort, CognitionView, selection.id, c.state.partition)]
              else c.loads)
  }

  // The first listed partition with this name.
  predicate IsFirstNamed(partitions: seq<Partition>, key: string, i: nat) {
    && i < |partitions| && partitions[i].simulationId + "/" + partitions[i].partitionKey == key
    && forall j :: 0 <= j < i ==> partitions[j].simulationId + "/" + partitions[j].partitionKey != key
  }

  // A listed name takes the client to the first partition of that name, with nothing shown and in a new
  // revision; any other name does nothing.
  ghost predicate SwitchEffect(c: Client, d: Client, key: string) {
    && (forall i: nat :: IsFirstNamed(c.state.partitions, key, i) ==>
         && Refreshed(c, d) && d.state.partition == Some(c.state.partitions[i])
         && d.state.town.None? && d.state.projection.None? && d.state.society.None? && d.state.directory.None?
         && d.state.resources.None? && d.state.selection == Nothing
         && d.state.partitions == c.state.partitions && d.state.view == c.state.view)
    && ((forall i: nat :: !IsFirstNamed(c.state.partitions, key, i)) ==> d == c)
  }

  lemma {:induction false} EndMeans(c: Client, i: nat)
    requires Sound(c) && i < |c.bodies|
    ensures Ended(c, FinishBody(c, i))
  {
    assert Without(c.bodies, i) == [];
  }

  lemma {:induction false} StatusMeans(c: Client, i: nat, partitions: seq<Partition>)
    requires Sound(c) && i < |c.bodies| && c.bodies[i].AwaitStatus?
    ensures StatusEffect(c, OnStatus(c, i, partitions), i, partitions)
  {
    EndMeans(c, i);
    assert |c.bodies| == 1;
  }

  lemma {:induction false} CityMeans(c: Client, i: nat, societyOk: bool, directoryOk: bool)
    requires Sound(c) && i < |c.bodies| && c.bodies[i].AwaitCity?
    ensures CityEffect(c, OnCity(c, i, societyOk, directoryOk), i, societyOk, directoryOk)
  {
    EndMeans(c, i);
    assert |c.bodies| == 1;
  }

  lemma {:induction false} LoadMeans(c: Client, load: Load)
    ensures LoadEffect(c, PublishResources(c, load), load)
  {
  }

  lemma {:induction false} ViewMeans(c: Client, view: View)
    ensures ViewEffect(c, SetView(c, view), view)
  {
  }

  lemma {:induction false} SelectionMeans(c: Client, selection: Selection, owner: Option<string>)
    ensures SelectEffect(c, Select(c, selection, owner), selection, owner)
  {
  }

  lemma {:induction false} NamedIff(partitions: seq<Partition>, key: string)
    ensures forall i: nat :: IsFirstNamed(partitions, key, i) ==> Named(partitions, key) == Some(partitions[i])
    ensures Named(partitions, key).Some? ==> exists i: nat :: IsFirstNamed(partitions, key, i)
  {
    if partitions != [] {
      var tail := partitions[1..];
      NamedIff(tail, key);
      if partitions[0].simulationId + "/" + partitions[0].partitionKey == key {
        assert IsFirstNamed(partitions, key, 0);
      } else {
        NamedInTail(partitions, key);
      }
    }
  }

  lemma {:induction false} NamedInTail(partitions: seq<Partition>, key: string)
    requires partitions != [] && partitions[0].simulationId + "/" + partitions[0].partitionKey != key
    ensures forall i: nat :: IsFirstNamed(partitions, key, i) ==> i > 0 && IsFirstNamed(partitions[1..], key, i - 1)
    ensures forall i: nat :: IsFirstNamed(partitions[1..], key, i) ==> IsFirstNamed(partitions, key, i + 1)
  {
    var tail := partitions[1..];
    forall i: nat | IsFirstNamed(tail, key, i) ensures IsFirstNamed(partitions, key, i + 1) {
      forall j | 0 <= j < i + 1 ensures partitions[j].simulationId + "/" + partitions[j].partitionKey != key {
        assert j > 0 ==> tail[j - 1] == partitions[j];
      }
    }
  }

  lemma {:induction false} SwitchMeans(c: Client, key: string)
    ensures SwitchEffect(c, SetPartition(c, key), key)
  {
    NamedIff(c.state.partitions, key);
  }
}
