// The client object of the town: each method is a step of the machine, and keeps its invariant.
module TownClients {
  import opened Wrappers
  import opened ClientStore
  import opened ClientEffects

  class TownClient {
    var state: Snapshot
    var revision: nat
    var running: bool
    var queued: bool
    var stopped: bool
    var abort: nat
    var aborted: set<nat>
    var bodies: seq<Body>
    var loads: seq<Load>
    var starts: nat

    function Current(): Client
      reads this
    {
      Client(state, revision, running, queued, stopped, abort, aborted, bodies, loads, starts)
    }

    // Between events: one body at most, numbered signals, and nothing shown that does not fit.
    ghost predicate Valid()
      reads this
    {
      Sound(Current())
    }

    constructor (view: View)
      ensures Valid() && Current() == Initial(view)
    {
      state := Snapshot(None, None, None, None, None, [], None, Nothing, view, true);
      revision, running, queued, stopped := 0, false, false, false;
      abort, aborted, bodies, loads, starts := 0, {}, [], [], 0;
    }

    // The request is owed from now on: a body starts, or will when the running one ends.
    method Refresh()
      requires Valid()
      modifies this
      ensures Valid() && Owed(Current(), old(starts)) && starts <= old(starts) + 1
      ensures Current() == RequestRefresh(old(Current()))
    {
      RequestKeepsSound(Current());
      if stopped {
        return;
      }
      if running {
        queued := true;
        return;
      }
      running := true;
      state := state.(loading := true);
      bodies := bodies + [AwaitStatus(revision, abort)];
      starts := starts + 1;
    }

    // The body is gone; a queued request has become the next one, and only then does one start.
    method Finish(i: nat)
      requires Valid() && i < |bodies|
      modifies this
      ensures Valid() && Current() == FinishBody(old(Current()), i)
      ensures starts == old(starts) + (if old(queued) && !stopped then 1 else 0)
      ensures running <==> starts > old(starts)
      ensures state.(loading := true) == old(state).(loading := true)
      ensures Ended(old(Current()), Current())
    {
      EndMeans(Current(), i);
      FinishKeepsSound(Current(), i);
      bodies := bodies[..i] + bodies[i + 1..];
      running := false;
      if !stopped {
        state := state.(loading := false);
      }
      if queued && !stopped {
        queued := false;
        Start();
      }
    }

    // The first part of a body, up to its first await.
    method Start()
      modifies this
      ensures Current() == StartBody(old(Current()))
    {
      running := true;
      state := state.(loading := true);
      bodies := bodies + [AwaitStatus(revision, abort)];
      starts := starts + 1;
    }

    // Only a reply in force moves the client, and it clears what belongs to another simulation.
    method OnStatusReply(i: nat, partitions: seq<Partition>)
      requires Valid() && Possible(Current(), StatusReplied(i, partitions))
      modifies this
      ensures Valid() && WritesAreCurrent(old(Current()), Current())
      ensures state.partition == old(state.partition) <==> StatusStays(old(Current()), i, partitions)
      ensures Current() == Step(old(Current()), StatusReplied(i, partitions))
      ensures StatusEffect(old(Current()), Current(), i, partitions)
    {
      StatusMeans(Current(), i, partitions);
      StepKeepsSound(Current(), StatusReplied(i, partitions));
      StepWritesCurrent(Current(), StatusReplied(i, partitions));
      StatusStaysIff(Current(), i, partitions);
      var body := bodies[i];
      if body.revision != revision || stopped {
        Finish(i);
        return;
      }
      var chosen := ChoosePartition(partitions, state.partition);
      if chosen.None? || chosen.value.partitionKey == "" {
        Finish(i);
        return;
      }
      if state.partition.None? || state.partition.value.simulationId != chosen.value.simulationId {
        state := state.(society := None, directory := None, selection := Nothing, resources := None);
      }
      state := state.(partitions := partitions, partition := chosen);
      bodies := bodies[i := AwaitCity(body.revision, body.signal, chosen.value)];
    }

    // A town is published only from replies in force, and for the partition that is shown.
    method OnCityReply(i: nat, societyOk: bool, directoryOk: bool)
      requires Valid() && Possible(Current(), CityReplied(i, societyOk, directoryOk))
      modifies this
      ensures Valid() && WritesAreCurrent(old(Current()), Current())
      ensures if old(bodies[i].revision == revision && !stopped)
        then state.town.Some? && CurrentTown(Current(), state.town.value)
        else state.town == old(state.town)
      ensures Current() == Step(old(Current()), CityReplied(i, societyOk, directoryOk))
      ensures CityEffect(old(Current()), Current(), i, societyOk, directoryOk)
    {
      CityMeans(Current(), i, societyOk, directoryOk);
      StepKeepsSound(Current(), CityReplied(i, societyOk, directoryOk));
      StepWritesCurrent(Current(), CityReplied(i, societyOk, directoryOk));
      assert SoundBody(Current(), bodies[i]);
      var body := bodies[i];
      if body.revision != revision || stopped {
        Finish(i);
        return;
      }
      var reply := CityReply(body.revision, body.partition.simulationId);
      var society, directory := state.society, state.directory;
      if societyOk {
        society := Some(reply);
      }
      if directoryOk {
        directory := Some(reply);
      }
      var envelope := Projection(body.revision, body.partition);
      state := state.(town := Some(Town(envelope, society, directory)), projection := Some(envelope),
                      society := society, directory := directory);
      var agentId := if state.selection.Agent? then state.selection.id else "";
      bodies := bodies[i := AwaitResources(Load(body.revision, body.signal, state.view, agentId, state.partition))];
    }

    // Resources are shown only when they were requested in this revision for the view and the agent shown.
    method PublishLoad(load: Load)
      requires Valid()
      modifies this`state
      ensures Valid() && WritesAreCurrent(old(Current()), Current())
      ensures state.resources == old(state.resources) || (state.resources == Some(load) && Fitting(Current(), load))
      ensures Current() == PublishResources(old(Current()), load)
      ensures LoadEffect(old(Current()), Current(), load)
    {
      PublishKeepsSound(Current(), load);
      var shown := load.view != CognitionView || (state.selection.Agent? && state.selection.id == load.agentId);
      if load.revision == revision && state.view == load.view && load.signal !in aborted && !stopped && shown {
        state := state.(resources := Some(load));
      }
    }

    method OnResourcesReply(i: nat)
      requires Valid() && Possible(Current(), ResourcesReplied(i))
      modifies this
      ensures Valid() && WritesAreCurrent(old(Current()), Current())
      ensures Current() == Step(old(Current()), ResourcesReplied(i))
    {
      StepWritesCurrent(Current(), ResourcesReplied(i));
      PublishLoad(bodies[i].load);
      Finish(i);
    }

    method OnFailure(i: nat)
      requires Valid() && Possible(Current(), BodyFailed(i))
      modifies this
      ensures Valid() && WritesAreCurrent(old(Current()), Current())
      ensures Current() == Step(old(Current()), BodyFailed(i))
    {
      StepWritesCurrent(Current(), BodyFailed(i));
      Finish(i);
    }

    method LoadResources()
      requires Valid()
      modifies this`loads
      ensures Valid() && Current() == StartLoad(old(Current()))
    {
      LoadKeepsSound(Current());
      var agentId := if state.selection.Agent? then state.selection.id else "";
      loads := loads + [Load(revision, abort, state.view, agentId, state.partition)];
    }

    method OnLoadReply(i: nat)
      requires Valid() && Possible(Current(), LoadReplied(i))
      modifies this
      ensures Valid() && WritesAreCurrent(old(Current()), Current())
      ensures Current() == Step(old(Current()), LoadReplied(i))
    {
      StepKeepsSound(Current(), LoadReplied(i));
      PublishLoad(loads[i]);
      loads := loads[..i] + loads[i + 1..];
    }

    // Everything requested so far is out of date.
    method BumpRevision()
      requires Valid()
      modifies this
      ensures Valid() && Current() == Invalidate(old(Current()))
      ensures forall k :: 0 <= k < |loads| ==> !MayPublish(Current(), loads[k])
    {
      InvalidateKeepsSound(Current());
      assert forall k :: 0 <= k < |loads| ==> SoundLoad(Current(), loads[k]);
      revision := revision + 1;
      aborted := aborted + {abort};
      abort := abort + 1;
      state := state.(resources := None);
    }

    // Nothing of another view stays shown.
    method ShowView(view: View)
      requires Valid()
      modifies this
      ensures Valid() && WritesAreCurrent(old(Current()), Current())
      ensures state.resources.None? && state.view == view && starts == old(starts)
      ensures Current() == SetView(old(Current()), view)
      ensures ViewEffect(old(Current()), Current(), view)
    {
      SetViewKeepsSound(Current(), view);
      UserWritesCurrent(Current(), ViewSet(view));
      ViewMeans(Current(), view);
      state := state.(view := view, resources := None);
      if state.partition.Some? && state.partition.value.partitionKey != "" {
        var agentId := if state.selection.Agent? then state.selection.id else "";
        loads := loads + [Load(revision, abort, state.view, agentId, state.partition)];
      }
    }

    // To another partition of the simulation, in a new revision with a refresh owed.
    method MoveToOwner(key: string)
      requires Valid()
      modifies this
      ensures Valid() && revision == old(revision) + 1 && Owed(Current(), old(starts))
      ensures Current() == MoveTo(old(Current()), key)
    {
      InvalidateOutdates(Current());
      MovedKeepsSound(Invalidate(Current()), key);
      BumpRevision();
      state := state.(partition := Some(MovedTo(state.partition, key)));
      Refresh();
    }

    // An agent owned by another partition takes the client there, in a new revision with a refresh owed.
    method Choose(selection: Selection, owner: Option<string>)
      requires Valid()
      modifies this
      ensures Valid() && WritesAreCurrent(old(Current()), Current())
      ensures state.resources.None? && state.selection == selection
      ensures revision > old(revision) <==> selection.Agent? && IsElsewhere(old(Current()), owner)
      ensures revision > old(revision) ==> Owed(Current(), old(starts))
      ensures Current() == Select(old(Current()), selection, owner)
      ensures SelectEffect(old(Current()), Current(), selection, owner)
    {
      SelectionMeans(Current(), selection, owner);
      SelectMeans(Current(), selection, owner);
      SelectWritesCurrent(Current(), selection, owner);
      SelectionKeepsSound(Current(), selection);
      state := state.(selection := selection, resources := None);
      if selection.Agent? {
        if IsElsewhere(Current(), owner) {
          MoveToOwner(owner.value);
        } else if state.view == CognitionView {
          LoadResources();
        }
      }
    }

    // From now on nothing that was requested before is shown, and a refresh is owed.
    method SwitchPartition(key: string)
      requires Valid()
      modifies this
      ensures Valid() && WritesAreCurrent(old(Current()), Current())
      ensures Current() == old(Current()) || (ShownSince(state, old(revision) + 1) && Owed(Current(), old(starts)))
      ensures Current() == SetPartition(old(Current()), key)
      ensures SwitchEffect(old(Current()), Current(), key)
    {
      SwitchMeans(Current(), key);
      SetPartitionKeepsSound(Current(), key);
      UserWritesCurrent(Current(), PartitionSet(key));
      var found := Named(state.partitions, key);
      if found.None? {
        return;
      }
      InvalidateOutdates(Current());
      ClearedIsSound(Invalidate(Current()), found.value);
      BumpRevision();
      state := state.(partition := found, town := None, projection := None, society := None, directory := None,
                      selection := Nothing);
      Refresh();
    }

    // Nothing is published any more.
    method Close()
      requires Valid()
      modifies this
      ensures Valid() && Current() == Destroy(old(Current()))
      ensures forall load :: !MayPublish(Current(), load)
    {
      stopped := true;
      aborted := aborted + {abort};
    }
  }
}
