/**
 The frontier queue and the focused runs of focused_explorer.py: sequential episodes over a live
 store, and the parallel run that replays its workers' logs.
 */
module FocusedExploration {
  import opened Common
  import opened PoiRecords
  import opened HypothesisStores
  import I = PoiIndex

  /** Whatever the environment and the detectors answer at one step. */
  datatype Step = Step(
    available: bool, positionKnown: bool, near: bool, result: Consequence,
    changed: seq<(string, string)>, moved: bool, done: bool)

  class FrontierQueue {
    const store: HypothesisStore
    const stuckLimit: int
    var queue: seq<PoiRecord>
    var stuckSteps: int
    var refreshCount: nat
    ghost var skipped: set<PoiRecord>   // given up on since the last rebuild

    /** Only eligible records of the store, once each, the most confident first. */
    ghost predicate Valid()
      reads this, store, store.records
    {
      && store.Valid() && (forall p :: p in queue ==> p in store.records && store.Holds(p) && Eligible(p.v))
      && Sorted(queue) && Distinct(queue)
      && (forall p :: p in store.records && store.Holds(p) && Eligible(p.v) ==> p in queue || p in skipped)
    }

    /** The queue is complete: every eligible record is in it. */
    ghost predicate Rebuilt()
      reads this, store, store.records
    {
      skipped == {} && forall p :: p in store.records && store.Holds(p) && Eligible(p.v) ==> p in queue
    }

    ghost predicate NothingEligible()
      reads store, store.records
    {
      forall p :: p in store.records && store.Holds(p) ==> !Eligible(p.v)
    }

    constructor (store: HypothesisStore, stuckLimit: int)
      requires store.Valid()
      ensures this.store == store && this.stuckLimit == stuckLimit && Valid() && refreshCount == 1
    {
      this.store, this.stuckLimit := store, stuckLimit;
      queue, stuckSteps, refreshCount, skipped := [], 0, 0, {};
      new;
      Refresh();
    }

    /** Rebuilds the queue from the live store. */
    method Refresh()
      requires store.Valid()
      modifies this`queue, this`refreshCount, this`skipped
      ensures Valid() && Rebuilt() && (queue == [] <==> NothingEligible()) && refreshCount == old(refreshCount) + 1
    {
      hide HypothesisStore.Valid, Eligible;
      queue := store.GetTargets();
      skipped := {};
      refreshCount := refreshCount + 1;
      assert queue != [] ==> queue[0] in queue;
    }

    /** The head of the queue, a most confident target not given up on; none only when no record is eligible. */
    method CurrentTarget() returns (target: PoiRecord?)
      requires Valid()
      modifies this`queue, this`refreshCount, this`skipped
      ensures Valid() && (target == null <==> queue == []) && (target == null ==> NothingEligible())
      ensures target != null ==>
        target == queue[0] && target in store.records && store.Holds(target) && Eligible(target.v)
      ensures target != null ==> forall p ::
        p in store.records && store.Holds(p) && Eligible(p.v) && p !in skipped ==> p.v.confidence <= target.v.confidence
      ensures old(queue) != [] ==>
        queue == old(queue) && refreshCount == old(refreshCount) && skipped == old(skipped)
      ensures old(queue) == [] ==> Rebuilt()
    {
      if queue == [] { Refresh(); }
      target := null;
      if queue != [] {
        assert queue[0] in queue;
        target := queue[0];
      }
    }

    method MarkVisited(id: string, result: Consequence)
      requires Valid()
      modifies this`queue, this`stuckSteps, this`refreshCount, this`skipped, store`state, store.records
      ensures Valid() && Rebuilt() && stuckSteps == 0
      ensures store.state == I.State(Apply(old(store.state.pois), Visit(id, result)), old(store.state.index))
    {
      store.RecordConsequence(id, result);
      stuckSteps := 0;
      Refresh();
    }

    /** A new pixel hash for a record of the store does not disturb the queue. */
    method KeepThroughRehash(id: string, hash: string)
      requires Valid()
      modifies store`state, store.records
      ensures Valid()
      ensures store.state == I.State(Apply(old(store.state.pois), Rehash(id, hash)), old(store.state.index))
    {
      hide HypothesisStore.Valid, Apply;
      store.SetPixelHash(id, hash);
      forall i | 0 <= i < |queue| ensures queue[i].v.confidence == old(queue[i].v.confidence) && Eligible(queue[i].v) {
        assert queue[i] in queue;
      }
    }

    /** Gives up on the head of the queue. */
    method SkipCurrent()
      requires Valid()
      modifies this`queue, this`stuckSteps, this`refreshCount, this`skipped
      ensures Valid() && stuckSteps == 0
      ensures |old(queue)| > 1 ==> queue == old(queue)[1..] && skipped == old(skipped) + {old(queue)[0]}
      ensures |old(queue)| <= 1 ==> Rebuilt()
    {
      hide HypothesisStore.Valid, Eligible;
      if queue != [] {
        assert forall p :: p in queue <==> p == queue[0] || p in queue[1..];
        queue, skipped := queue[1..], skipped + {queue[0]};
      }
      stuckSteps := 0;
      if queue == [] { Refresh(); }
    }

    /** Counts steps without movement, and skips the target at the limit. */
    method Tick(moved: bool)
      requires Valid()
      modifies this`queue, this`stuckSteps, this`refreshCount, this`skipped
      ensures Valid()
      ensures var stuck := if moved then 0 else old(stuckSteps) + 1;
        if stuck < stuckLimit then stuckSteps == stuck && queue == old(queue) && skipped == old(skipped)
        else stuckSteps == 0 && if |old(queue)| > 1 then queue == old(queue)[1..] else Rebuilt()
    {
      stuckSteps := if moved then 0 else stuckSteps + 1;
      if stuckSteps >= stuckLimit { SkipCurrent(); }
    }
  }

  // ---------------------------------------------------------------- what a run logs

  ghost predicate SomeEligible(v: View) {
    exists id :: id in v && Eligible(v[id])
  }

  /** An arrival needs a target, a position and the judgement that it is near. */
  ghost predicate Arrives(v: View, step: Step) {
    step.available && step.positionKnown && step.near && SomeEligible(v)
  }

  ghost predicate Ends(v: View, step: Step) {
    !step.available || step.done || (Arrives(v, step) && step.result == GameWon)
  }

  /** One new hash for each changed look of a known record. */
  ghost function Rehashes(v: View, changed: seq<(string, string)>): seq<Event> {
    if changed == [] then [] else
      var n := |changed| - 1;
      var rest := Rehashes(v, changed[..n]);
      if changed[n].0 in v then rest + [Rehash(changed[n].0, changed[n].1)] else rest
  }

  /** After a visible change the looks of the records are compared as well. */
  ghost function Arrival(v: View, id: string, step: Step): seq<Event> {
    if step.result == BigChange || step.result == SmallChange
    then [Visit(id, step.result)] + Rehashes(v, step.changed)
    else [Visit(id, step.result)]
  }

  /** A step logs the visit of an eligible record when it arrives at one, and nothing otherwise. */
  ghost predicate StepLogs(v: View, step: Step, events: seq<Event>) {
    if Arrives(v, step) then exists id :: id in v && Eligible(v[id]) && events == Arrival(v, id, step) else events == []
  }

  /** The steps of an episode up to the last one in the trace, which alone may have ended it. */
  ghost predicate StepsLog(v: View, steps: seq<Step>, trace: seq<seq<Event>>, ended: bool)
    decreases |trace|
  {
    |trace| <= |steps| &&
    if trace == [] then !ended else
      var n := |trace| - 1;
      var now := Replay(v, Flatten(trace[..n]));
      StepsLog(v, steps, trace[..n], false) && StepLogs(now, steps[n], trace[n]) && ended == Ends(now, steps[n])
  }

  /** An episode goes on until a step ends it, the step limit is reached or nothing is left. */
  ghost predicate EpisodeLogs(v: View, steps: seq<Step>, maxSteps: nat, log: seq<Event>) {
    exists trace, ended :: StepsLog(v, steps, trace, ended) && Flatten(trace) == log && |trace| <= maxSteps &&
      (ended || |trace| == |steps| || |trace| == maxSteps)
  }

  /** The episodes so far, and how many of them began with nothing eligible. */
  ghost predicate EpisodesLog(v: View, episodes: seq<seq<Step>>, maxSteps: nat, logs: seq<seq<Event>>, exhausted: nat)
    decreases |logs|
  {
    |logs| <= |episodes| &&
    if logs == [] then exhausted == 0 else
      var n := |logs| - 1;
      var now := Replay(v, Flatten(logs[..n]));
      && EpisodeLogs(now, episodes[n], maxSteps, logs[n])
      && (if SomeEligible(now) then EpisodesLog(v, episodes, maxSteps, logs[..n], exhausted)
          else exhausted > 0 && EpisodesLog(v, episodes, maxSteps, logs[..n], exhausted - 1))
  }

  /** The log of a whole run over the episodes. */
  ghost predicate RunLogs(v: View, episodes: seq<seq<Step>>, maxSteps: nat, log: seq<Event>, exhausted: nat) {
    exists logs :: |logs| == |episodes| && EpisodesLog(v, episodes, maxSteps, logs, exhausted) && Flatten(logs) == log
  }

  /** What events did to the store. */
  ghost predicate Did(before: I.State, after: I.State, events: seq<Event>) {
    after == I.State(Replay(before.pois, events), before.index)
  }

  lemma NothingDone(now: I.State)
    ensures Did(now, now, [])
  {
  }

  lemma {:induction false} RehashesByKeys(v: View, w: View, changed: seq<(string, string)>)
    requires v.Keys == w.Keys
    ensures Rehashes(v, changed) == Rehashes(w, changed)
  {
    if changed != [] { RehashesByKeys(v, w, changed[..|changed| - 1]); }
  }

  lemma NoRehashes(v: View, changed: seq<(string, string)>)
    ensures Rehashes(v, changed[..0]) == []
  {
  }

  lemma RehashesStep(v: View, changed: seq<(string, string)>, i: nat)
    requires i < |changed|
    ensures Rehashes(v, changed[..i + 1]) ==
      if changed[i].0 in v then Rehashes(v, changed[..i]) + [Rehash(changed[i].0, changed[i].1)]
      else Rehashes(v, changed[..i])
  {
    assert changed[..i + 1][..i] == changed[..i];
  }

  lemma StoreStaysValid(frontier: FrontierQueue)
    requires frontier.Valid()
    ensures frontier.store.Valid()
  {
  }

  lemma DidReplays(before: I.State, after: I.State, events: seq<Event>)
    requires Did(before, after, events)
    ensures after.pois == Replay(before.pois, events)
  {
  }

  lemma KnownIds(frontier: FrontierQueue)
    requires frontier.Valid()
    ensures frontier.store.pois.Keys == frontier.store.state.pois.Keys
  {
  }

  lemma DidKeepsKeys(before: I.State, now: I.State, events: seq<Event>, changed: seq<(string, string)>)
    requires Did(before, now, events)
    ensures Rehashes(before.pois, changed) == Rehashes(now.pois, changed) && before.pois.Keys == now.pois.Keys
  {
    ReplayKeys(before.pois, events);
    RehashesByKeys(before.pois, now.pois, changed);
  }

  lemma DidBoth(before: I.State, now: I.State, after: I.State, first: seq<Event>, second: seq<Event>)
    requires Did(before, now, first) && Did(now, after, second)
    ensures Did(before, after, first + second)
  {
    ReplayConcat(before.pois, first, second);
  }

  lemma StepsExtend(v: View, steps: seq<Step>, trace: seq<seq<Event>>, events: seq<Event>, ended: bool)
    requires StepsLog(v, steps, trace, false) && |trace| < |steps|
    requires StepLogs(Replay(v, Flatten(trace)), steps[|trace|], events)
    requires ended == Ends(Replay(v, Flatten(trace)), steps[|trace|])
    ensures StepsLog(v, steps, trace + [events], ended) && Flatten(trace + [events]) == Flatten(trace) + events
  {
    hide StepLogs, Ends;
    assert (trace + [events])[..|trace|] == trace;
  }

  lemma NoEpisodes(v: View, episodes: seq<seq<Step>>, maxSteps: nat)
    ensures EpisodesLog(v, episodes, maxSteps, [], 0)
  {
  }

  lemma EpisodesExtend(v: View, episodes: seq<seq<Step>>, maxSteps: nat, logs: seq<seq<Event>>, events: seq<Event>,
                       exhausted: nat)
    requires EpisodesLog(v, episodes, maxSteps, logs, exhausted) && |logs| < |episodes|
    requires EpisodeLogs(Replay(v, Flatten(logs)), episodes[|logs|], maxSteps, events)
    ensures Flatten(logs + [events]) == Flatten(logs) + events
    ensures var now := exhausted + (if SomeEligible(Replay(v, Flatten(logs))) then 0 else 1);
      EpisodesLog(v, episodes, maxSteps, logs + [events], now)
  {
    hide EpisodeLogs, SomeEligible;
    assert (logs + [events])[..|logs|] == logs;
  }

  // ---------------------------------------------------------------- every visit goes to an eligible record

  lemma {:induction false} EligibleConcat(v: View, a: seq<Event>, b: seq<Event>)
    requires VisitsEligible(v, a) && VisitsEligible(Replay(v, a), b)
    ensures VisitsEligible(v, a + b)
  {
    if b == [] {
      assert a + b == a;
    } else {
      var rest, e := b[..|b| - 1], b[|b| - 1];
      EligibleConcat(v, a, rest);
      ReplayConcat(v, a, rest);
      ReplayKeys(v, a);
      assert a + b == (a + rest) + [e];
      EligibleExtends(v, a + rest, e);
    }
  }

  lemma {:induction false} RehashesEligible(v: View, w: View, changed: seq<(string, string)>)
    ensures VisitsEligible(w, Rehashes(v, changed))
  {
    if changed != [] {
      var n := |changed| - 1;
      RehashesEligible(v, w, changed[..n]);
      if changed[n].0 in v { EligibleExtends(w, Rehashes(v, changed[..n]), Rehash(changed[n].0, changed[n].1)); }
    }
  }

  lemma StepEligible(v: View, step: Step, events: seq<Event>)
    requires StepLogs(v, step, events)
    ensures VisitsEligible(v, events)
  {
    if Arrives(v, step) {
      var id :| id in v && Eligible(v[id]) && events == Arrival(v, id, step);
      hide Arrives, Rehashes, Eligible;
      var first := [Visit(id, step.result)];
      EligibleExtends(v, [], Visit(id, step.result));
      assert [] + first == first;
      RehashesEligible(v, Replay(v, first), step.changed);
      EligibleConcat(v, first, Rehashes(v, step.changed));
    }
  }

  lemma {:induction false} StepsEligible(v: View, steps: seq<Step>, trace: seq<seq<Event>>, ended: bool)
    requires StepsLog(v, steps, trace, ended)
    ensures VisitsEligible(v, Flatten(trace))
    decreases |trace|
  {
    if trace != [] {
      var n := |trace| - 1;
      StepsEligible(v, steps, trace[..n], false);
      StepEligible(Replay(v, Flatten(trace[..n])), steps[n], trace[n]);
      EligibleConcat(v, Flatten(trace[..n]), trace[n]);
    }
  }

  lemma {:induction false} EpisodesEligible(v: View, episodes: seq<seq<Step>>, maxSteps: nat, logs: seq<seq<Event>>,
                                            exhausted: nat)
    requires EpisodesLog(v, episodes, maxSteps, logs, exhausted)
    ensures VisitsEligible(v, Flatten(logs))
    decreases |logs|
  {
    if logs != [] {
      var n := |logs| - 1;
      var now := Replay(v, Flatten(logs[..n]));
      EpisodesEligible(v, episodes, maxSteps, logs[..n], if SomeEligible(now) then exhausted else exhausted - 1);
      var trace, ended :| StepsLog(now, episodes[n], trace, ended) && Flatten(trace) == logs[n];
      StepsEligible(now, episodes[n], trace, ended);
      EligibleConcat(v, Flatten(logs[..n]), logs[n]);
    }
  }

  /** Whatever the environment answers, a run only visits records that are eligible when it arrives. */
  lemma RunIsEligible(v: View, episodes: seq<seq<Step>>, maxSteps: nat, log: seq<Event>, exhausted: nat)
    requires RunLogs(v, episodes, maxSteps, log, exhausted)
    ensures VisitsEligible(v, log)
  {
    var logs :| |logs| == |episodes| && EpisodesLog(v, episodes, maxSteps, logs, exhausted) && Flatten(logs) == log;
    EpisodesEligible(v, episodes, maxSteps, logs, exhausted);
  }

  /** A sequential run keeps every record within its visits and its confidence, whatever the environment answers. */
  lemma RunIsBounded(before: View, episodes: seq<seq<Step>>, maxSteps: nat, log: seq<Event>, exhausted: nat)
    requires RunLogs(before, episodes, maxSteps, log, exhausted)
    requires forall id :: id in before ==> Sane(before[id]) && before[id].visitCount <= MAX_REVISITS
    ensures var after := Replay(before, log);
      && after.Keys == before.Keys && AllVisits(log) <= MAX_REVISITS * |before.Keys|
      && forall id :: id in after ==> Sane(after[id]) && after[id].visitCount <= MAX_REVISITS
  {
    RunIsEligible(before, episodes, maxSteps, log, exhausted);
    TotalVisitsBounded(before, log);
    ReplayKeepsSane(before, log);
    var after := Replay(before, log);
    forall id | id in after ensures after[id].visitCount <= MAX_REVISITS {
      VisitsAreBounded(before, log, id);
      ReplayCounts(before, log, id);
    }
  }

  class FocusedExplorer {
    const store: HypothesisStore
    const stuckLimit: int
    const maxSteps: nat

    /** The two logs the merge replays, and the true order of their events. */
    var consequenceLog: seq<Event>
    var pixelHashUpdates: seq<Event>
    ghost var log: seq<Event>

    constructor (store: HypothesisStore, stuckLimit: int, maxSteps: nat)
      ensures this.store == store && this.stuckLimit == stuckLimit && this.maxSteps == maxSteps
    {
      this.store, this.stuckLimit, this.maxSteps := store, stuckLimit, maxSteps;
      consequenceLog, pixelHashUpdates, log := [], [], [];
    }

    ghost predicate Logged()
      reads this
    {
      consequenceLog == VisitsOnly(log) && pixelHashUpdates == HashesOnly(log)
    }

    /** The visit is logged, recorded, and the queue rebuilt. */
    method LogVisit(frontier: FrontierQueue, target: PoiRecord, result: Consequence)
      requires frontier.store == store && frontier.Valid() && Logged()
      requires target in store.records
      modifies this, frontier, store`state, store.records
      ensures frontier.Valid() && Logged() && log == old(log) + [Visit(old(target.v.poiId), result)]
      ensures frontier.stuckSteps == 0
      ensures Did(old(store.state), store.state, [Visit(old(target.v.poiId), result)])
    {
      var id := target.v.poiId;
      ghost var e := Visit(id, result);
      LogExtends(log, e);
      ReplayLast(store.state.pois, [], e);
      assert [] + [e] == [e];
      consequenceLog := consequenceLog + [Visit(id, result)];
      log := log + [e];
      frontier.MarkVisited(id, result);
    }

    /** New pixel hashes for the records whose look changed; unknown ids are passed over. */
    method UpdateHashes(frontier: FrontierQueue, changed: seq<(string, string)>)
      requires frontier.store == store && frontier.Valid() && Logged()
      modifies this`pixelHashUpdates, this`log, store`state, store.records
      ensures frontier.Valid() && Logged() && log == old(log) + Rehashes(old(store.state.pois), changed)
      ensures Did(old(store.state), store.state, Rehashes(old(store.state.pois), changed))
    {
      hide Did, Rehashes, Logged, FrontierQueue.Valid, HypothesisStore.Valid;
      ghost var v := store.state.pois;
      ghost var events: seq<Event> := [];
      NothingDone(store.state);
      NoRehashes(v, changed);
      for i := 0 to |changed|
        invariant frontier.Valid() && Logged() && log == old(log) + events && events == Rehashes(v, changed[..i])
        invariant Did(old(store.state), store.state, events)
      {
        ghost var now := store.state;
        RehashesStep(v, changed, i);
        DidKeepsKeys(old(store.state), now, events, changed);
        KnownIds(frontier);
        if changed[i].0 in store.pois {
          ghost var e := UpdateHash(frontier, changed[i].0, changed[i].1);
          DidBoth(old(store.state), now, store.state, events, [e]);
          events := events + [e];
        }
      }
      assert changed[..|changed|] == changed;
    }

    method UpdateHash(frontier: FrontierQueue, id: string, hash: string) returns (ghost e: Event)
      requires frontier.store == store && frontier.Valid() && Logged()
      modifies this`pixelHashUpdates, this`log, store`state, store.records
      ensures frontier.Valid() && Logged() && e == Rehash(id, hash) && log == old(log) + [e]
      ensures Did(old(store.state), store.state, [e])
    {
      e := Rehash(id, hash);
      LogExtends(log, e);
      ReplayLast(store.state.pois, [], e);
      assert [] + [e] == [e];
      frontier.KeepThroughRehash(id, hash);
      pixelHashUpdates := pixelHashUpdates + [Rehash(id, hash)];
      log := log + [e];
    }

    /** Arrival at a target: the visit, and after a visible change the new looks. */
    method Arrive(frontier: FrontierQueue, target: PoiRecord, step: Step) returns (ghost events: seq<Event>)
      requires frontier.store == store && frontier.Valid() && Logged()
      requires target in store.records
      modifies this, frontier, store`state, store.records
      ensures frontier.Valid() && Logged() && log == old(log) + events
      ensures Did(old(store.state), store.state, events)
      ensures events == Arrival(old(store.state.pois), old(target.v.poiId), step) && frontier.stuckSteps == 0
    {
      hide Rehashes, Did, FrontierQueue.Valid, HypothesisStore.Valid, Logged;
      ghost var id, start := target.v.poiId, store.state;
      LogVisit(frontier, target, step.result);
      events := Arrival(start.pois, id, step);
      if step.result == BigChange || step.result == SmallChange {
        ghost var now := store.state;
        DidKeepsKeys(start, now, [Visit(id, step.result)], step.changed);
        UpdateHashes(frontier, step.changed);
        DidBoth(start, now, store.state, [Visit(id, step.result)], Rehashes(start.pois, step.changed));
      }
    }

    /** One step of an episode; true when it ends with it. What it visits is a most confident target not given up on. */
    method TakeStep(frontier: FrontierQueue, step: Step)
      returns (ended: bool, ghost events: seq<Event>, ghost visited: PoiRecord?)
      requires frontier.store == store && frontier.Valid() && Logged()
      modifies this, frontier, store`state, store.records
      ensures frontier.Valid() && Logged() && log == old(log) + events
      ensures Did(old(store.state), store.state, events)
      ensures StepLogs(old(store.state.pois), step, events) && ended == Ends(old(store.state.pois), step)
      ensures visited == null ==> events == []
      ensures visited != null <==> Arrives(old(store.state.pois), step)
      ensures visited != null ==>
        visited in old(store.records) && events == Arrival(old(store.state.pois), old(visited.v.poiId), step)
      ensures visited != null ==> forall p ::
        p in old(store.records) && old(store.Holds(p) && Eligible(p.v)) && p !in old(frontier.skipped) ==>
          old(p.v.confidence) <= old(visited.v.confidence)
      ensures step.available && !(visited != null && step.result == GameWon) ==>
        var stuck := if step.moved then 0 else (if visited == null then old(frontier.stuckSteps) else 0) + 1;
        && frontier.stuckSteps == (if stuck < frontier.stuckLimit then stuck else 0)
        && (visited == null && |old(frontier.queue)| > 1 ==>
             frontier.queue == if stuck < frontier.stuckLimit then old(frontier.queue) else old(frontier.queue)[1..])
    {
      hide Rehashes, Eligible, Did, Arrival, FrontierQueue.Valid, HypothesisStore.Valid, Logged;
      ghost var v := store.state.pois;
      events, visited := [], null;
      NothingDone(store.state);
      if !step.available { return true, [], null; }
      var target := frontier.CurrentTarget();
      TargetMeansEligible(frontier, target);
      if target != null && step.positionKnown && step.near {
        visited := target;
        events := Arrive(frontier, target, step);
        if step.result == GameWon { return true, events, visited; }
      }
      frontier.Tick(step.moved);
      return step.done, events, visited;
    }

    /** Episodes one after the other; the queue is rebuilt at the start of each. */
    method RunSequential(episodes: seq<seq<Step>>) returns (refreshes: nat, exhausted: nat)
      requires store.Valid()
      modifies this, store`state, store.records
      ensures store.Valid() && Logged() && Did(old(store.state), store.state, log)
      ensures RunLogs(old(store.state.pois), episodes, maxSteps, log, exhausted)
    {
      hide EpisodesLog, EpisodeLogs, SomeEligible, HypothesisStore.Valid, FrontierQueue.Valid, Did;
      NothingDone(store.state);
      NoEpisodes(store.state.pois, episodes, maxSteps);
      consequenceLog, pixelHashUpdates, log := [], [], [];
      exhausted := 0;
      var frontier := new FrontierQueue(store, stuckLimit);
      ghost var v, logs: seq<seq<Event>> := store.state.pois, [];
      for e := 0 to |episodes|
        invariant frontier.store == store && frontier.Valid() && fresh(frontier)
        invariant Logged() && log == Flatten(logs) && Did(old(store.state), store.state, log)
        invariant |logs| == e && EpisodesLog(v, episodes, maxSteps, logs, exhausted)
      {
        ghost var now := store.state;
        DidReplays(old(store.state), now, log);
        var idle := BeginEpisode(frontier);
        if idle { exhausted := exhausted + 1; }
        ghost var events := RunEpisode(frontier, episodes[e]);
        EpisodesExtend(v, episodes, maxSteps, logs, events, if idle then exhausted - 1 else exhausted);
        DidBoth(old(store.state), now, store.state, Flatten(logs), events);
        logs := logs + [events];
      }
      refreshes := frontier.refreshCount;
      StoreStaysValid(frontier);
    }

    /** Rebuilds the queue; true when it stays empty. */
    method BeginEpisode(frontier: FrontierQueue) returns (idle: bool)
      requires frontier.store == store && frontier.Valid()
      modifies frontier`queue, frontier`refreshCount, frontier`skipped
      ensures frontier.Valid() && frontier.Rebuilt() && (idle <==> !SomeEligible(store.state.pois))
    {
      frontier.Refresh();
      var target := frontier.CurrentTarget();
      TargetMeansEligible(frontier, target);
      idle := target == null;
    }

    method RunEpisode(frontier: FrontierQueue, steps: seq<Step>) returns (ghost events: seq<Event>)
      requires frontier.store == store && frontier.Valid() && Logged()
      modifies this, frontier, store`state, store.records
      ensures frontier.Valid() && Logged() && log == old(log) + events
      ensures Did(old(store.state), store.state, events)
      ensures EpisodeLogs(old(store.state.pois), steps, maxSteps, events)
    {
      hide StepLogs, Ends, Arrival, Arrives, Eligible, FrontierQueue.Valid, HypothesisStore.Valid, Logged;
      ghost var v, trace: seq<seq<Event>> := store.state.pois, [];
      events := [];
      var i := 0;
      var ended := false;
      while i < |steps| && i < maxSteps && !ended
        invariant i == |trace| <= maxSteps && events == Flatten(trace) && StepsLog(v, steps, trace, ended)
        invariant frontier.Valid() && Logged() && log == old(log) + events && Did(old(store.state), store.state, events)
      {
        ghost var now := store.state;
        ghost var logged, visited;
        ended, logged, visited := TakeStep(frontier, steps[i]);
        StepsExtend(v, steps, trace, logged, ended);
        DidBoth(old(store.state), now, store.state, events, logged);
        trace, events := trace + [logged], events + logged;
        i := i + 1;
      }
    }
  }

  /** There is a target exactly when some record of the store is eligible. */
  lemma TargetMeansEligible(frontier: FrontierQueue, target: PoiRecord?)
    requires frontier.store.Valid()
    requires target == null ==> frontier.NothingEligible()
    requires target != null ==> target in frontier.store.records && frontier.store.Holds(target) && Eligible(target.v)
    ensures target != null <==> SomeEligible(frontier.store.state.pois)
    ensures target != null ==> target.v.poiId in frontier.store.state.pois
    ensures target != null ==> frontier.store.state.pois[target.v.poiId] == target.v
  {
    var v := frontier.store.state.pois;
    if target == null {
      forall id | id in v ensures !Eligible(v[id]) {
        assert frontier.store.pois[id].v == v[id] && v[id].poiId == id;
      }
    }
  }

  // ---------------------------------------------------------------- parallel runs

  /** A deep copy: the same values in objects of its own. */
  method DeepCopy(store: HypothesisStore) returns (copy: HypothesisStore)
    requires store.Valid()
    ensures fresh(copy) && copy.Valid() && copy.state == store.state
    ensures forall p :: p in copy.records ==> fresh(p)
  {
    copy := new HypothesisStore(store.selfKey);
    var values := map id | id in store.pois :: store.pois[id].v;
    assert values == store.state.pois;
    copy.CopyRecords(values, store.version);
    copy.CopyIndex(store);
  }

  /** Applies the collected visits, then the collected hashes, to the real store. */
  method MergeLogs(store: HypothesisStore, visits: seq<Event>, hashes: seq<Event>)
    requires store.Valid()
    requires forall i :: 0 <= i < |visits| ==> visits[i].Visit?
    requires AllHashes(hashes)
    modifies store`state, store.records
    ensures store.Valid()
    ensures store.state == I.State(Replay(Replay(old(store.state.pois), visits), hashes), old(store.state.index))
  {
    ApplyVisits(store, visits);
    ghost var v := store.state.pois;
    assert hashes[..0] == [];
    for i := 0 to |hashes|
      invariant store.Valid()
      invariant store.state == I.State(Replay(v, hashes[..i]), old(store.state.index))
    {
      assert hashes[..i + 1] == hashes[..i] + [hashes[i]];
      ReplayLast(v, hashes[..i], hashes[i]);
      store.SetPixelHash(hashes[i].id, hashes[i].hash);
    }
    assert hashes[..|hashes|] == hashes;
  }

  method ApplyVisits(store: HypothesisStore, visits: seq<Event>)
    requires store.Valid()
    requires forall i :: 0 <= i < |visits| ==> visits[i].Visit?
    modifies store`state, store.records
    ensures store.Valid()
    ensures store.state == I.State(Replay(old(store.state.pois), visits), old(store.state.index))
  {
    ghost var v := store.state.pois;
    assert visits[..0] == [];
    for i := 0 to |visits|
      invariant store.Valid()
      invariant store.state == I.State(Replay(v, visits[..i]), old(store.state.index))
    {
      assert visits[..i + 1] == visits[..i] + [visits[i]];
      ReplayLast(v, visits[..i], visits[i]);
      store.RecordConsequence(visits[i].id, visits[i].result);
    }
    assert visits[..|visits|] == visits;
  }

  /** The two logs a worker hands over, and the store its private copy has become. */
  ghost predicate WorkerLogs(before: View, episodes: seq<seq<Step>>, maxSteps: nat, visits: seq<Event>,
                             hashes: seq<Event>, log: seq<Event>, copy: View) {
    && visits == VisitsOnly(log) && hashes == HashesOnly(log) && copy == Replay(before, log)
    && exists exhausted: nat :: RunLogs(before, episodes, maxSteps, log, exhausted)
  }

  /** Replaying the two logs gives the copy, and the visits alone give all of it but the pixel hashes. */
  ghost predicate Restores(before: View, visits: seq<Event>, hashes: seq<Event>, copy: View) {
    && copy == Replay(Replay(before, visits), hashes) && copy.Keys == Replay(before, visits).Keys
    && forall id :: id in copy ==> copy[id] == Replay(before, visits)[id].(pixelHash := copy[id].pixelHash)
  }

  /** Replaying a worker's two logs on the original store reproduces the worker's copy. */
  lemma ReplayRestoresWorker(before: View, episodes: seq<seq<Step>>, maxSteps: nat, visits: seq<Event>,
                             hashes: seq<Event>, log: seq<Event>, copy: View)
    requires WorkerLogs(before, episodes, maxSteps, visits, hashes, log, copy)
    ensures Restores(before, visits, hashes, copy)
  {
    MergeMatchesWorker(before, log);
    HashesAreHashes(log);
    var w := Replay(before, visits);
    ReplayKeys(w, hashes);
    forall id | id in w ensures id in copy && copy[id] == w[id].(pixelHash := copy[id].pixelHash) {
      HashesOnlyRehash(w, hashes, id);
    }
  }

  /** A worker's run on a copy of its own leaves the store alone. */
  method RunWorker(store: HypothesisStore, stuckLimit: int, maxSteps: nat, episodes: seq<seq<Step>>)
    returns (visits: seq<Event>, hashes: seq<Event>)
    requires store.Valid()
    ensures exists log, copy ::
      && WorkerLogs(store.state.pois, episodes, maxSteps, visits, hashes, log, copy)
      && Restores(store.state.pois, visits, hashes, copy)
  {
    var own := DeepCopy(store);
    var worker := new FocusedExplorer(own, stuckLimit, maxSteps);
    var refreshes, exhausted := worker.RunSequential(episodes);
    visits, hashes := worker.consequenceLog, worker.pixelHashUpdates;
    ghost var log, copy := worker.log, own.state.pois;
    ReplayRestoresWorker(store.state.pois, episodes, maxSteps, visits, hashes, log, copy);
  }

  /** Each worker's log and copy, and the visits and hashes of all of them in chunk order. */
  ghost predicate WorkersLog(before: View, chunks: seq<seq<seq<Step>>>, maxSteps: nat, visits: seq<Event>,
                             hashes: seq<Event>, logs: seq<seq<Event>>, copies: seq<View>) {
    && |logs| == |copies| <= |chunks| && visits == VisitsOnly(Flatten(logs)) && hashes == HashesOnly(Flatten(logs))
    && forall c :: 0 <= c < |logs| ==>
      WorkerLogs(before, chunks[c], maxSteps, VisitsOnly(logs[c]), HashesOnly(logs[c]), logs[c], copies[c])
  }

  lemma NoWorkers(before: View, chunks: seq<seq<seq<Step>>>, maxSteps: nat)
    ensures WorkersLog(before, chunks, maxSteps, [], [], [], [])
  {
  }

  lemma OneMoreWorker(before: View, chunks: seq<seq<seq<Step>>>, maxSteps: nat, visits: seq<Event>, hashes: seq<Event>,
                      logs: seq<seq<Event>>, copies: seq<View>, cons: seq<Event>, updates: seq<Event>, log: seq<Event>,
                      copy: View)
    requires WorkersLog(before, chunks, maxSteps, visits, hashes, logs, copies) && |logs| < |chunks|
    requires WorkerLogs(before, chunks[|logs|], maxSteps, cons, updates, log, copy)
    ensures WorkersLog(before, chunks, maxSteps, visits + cons, hashes + updates, logs + [log], copies + [copy])
  {
    hide RunLogs, VisitsOnly, HashesOnly, Replay;
    VisitsOnlyConcat(Flatten(logs), log);
    assert (logs + [log])[..|logs|] == logs;
  }

  /** Each worker runs its episodes on a copy of its own; the real store then replays what they logged. */
  method RunParallel(store: HypothesisStore, stuckLimit: int, maxSteps: nat, chunks: seq<seq<seq<Step>>>)
    returns (visits: seq<Event>, hashes: seq<Event>, ghost logs: seq<seq<Event>>, ghost copies: seq<View>)
    requires store.Valid()
    modifies store`state, store.records
    ensures store.Valid() && |logs| == |chunks|
    ensures WorkersLog(old(store.state.pois), chunks, maxSteps, visits, hashes, logs, copies)
    ensures Did(old(store.state), store.state, Flatten(logs))
  {
    hide WorkerLogs, VisitsOnly, HashesOnly, Replay;
    logs, copies, visits, hashes := [], [], [], [];
    NoWorkers(store.state.pois, chunks, maxSteps);
    for c := 0 to |chunks|
      invariant store.Valid() && store.state == old(store.state) && unchanged(store, store.records)
      invariant |logs| == c && WorkersLog(store.state.pois, chunks, maxSteps, visits, hashes, logs, copies)
    {
      var cons, updates := RunWorker(store, stuckLimit, maxSteps, chunks[c]);
      ghost var log, copy :| WorkerLogs(store.state.pois, chunks[c], maxSteps, cons, updates, log, copy);
      OneMoreWorker(store.state.pois, chunks, maxSteps, visits, hashes, logs, copies, cons, updates, log, copy);
      visits, hashes, logs, copies := visits + cons, hashes + updates, logs + [log], copies + [copy];
    }
    VisitsAreVisits(Flatten(logs));
    HashesAreHashes(Flatten(logs));
    MergeMatchesWorker(store.state.pois, Flatten(logs));
    MergeLogs(store, visits, hashes);
  }

  /** Occurrences of a POI over all logs. */
  ghost function VisitsInAll(logs: seq<seq<Event>>, id: string): nat {
    if logs == [] then 0 else VisitsInAll(logs[..|logs| - 1], id) + Visits(logs[|logs| - 1], id)
  }

  /** The result of the last log, in chunk order, that visits the POI. */
  ghost function LastInAll(logs: seq<seq<Event>>, id: string): Option<Consequence> {
    if logs == [] then None else OrElse(LastResult(logs[|logs| - 1], id), LastInAll(logs[..|logs| - 1], id))
  }

  lemma {:induction false} VisitsConcat(a: seq<Event>, b: seq<Event>, id: string)
    ensures Visits(a + b, id) == Visits(a, id) + Visits(b, id)
    ensures LastResult(a + b, id) == OrElse(LastResult(b, id), LastResult(a, id))
  {
    if b == [] {
      assert a + b == a;
    } else {
      VisitsConcat(a, b[..|b| - 1], id);
      assert (a + b)[..|a + b| - 1] == a + b[..|b| - 1];
    }
  }

  lemma {:induction false} FlattenVisits(logs: seq<seq<Event>>, id: string)
    ensures Visits(Flatten(logs), id) == VisitsInAll(logs, id)
    ensures LastResult(Flatten(logs), id) == LastInAll(logs, id)
  {
    if logs != [] {
      FlattenVisits(logs[..|logs| - 1], id);
      VisitsConcat(Flatten(logs[..|logs| - 1]), logs[|logs| - 1], id);
    }
  }

  /** After the merge each POI counts its old visits and all occurrences, and shows the last result in chunk order. */
  lemma MergedCounts(before: View, logs: seq<seq<Event>>, id: string)
    requires id in before
    ensures id in Replay(before, Flatten(logs))
    ensures var p := Replay(before, Flatten(logs))[id];
      && p.visitCount == before[id].visitCount + VisitsInAll(logs, id)
      && p.lastConsequence == OrElse(LastInAll(logs, id), before[id].lastConsequence)
  {
    FlattenVisits(logs, id);
    ReplayCounts(before, Flatten(logs), id);
  }

  // ---------------------------------------------------------------- the visit limit after a merge

  /** A log some run of some episodes leaves. */
  ghost predicate Possible(v: View, log: seq<Event>) {
    exists episodes, maxSteps: nat, exhausted: nat :: RunLogs(v, episodes, maxSteps, log, exhausted)
  }

  /** Whatever the given number of workers do, the merge keeps the POI within the limit. */
  ghost predicate MergeKeepsLimit(v: View, id: string, workers: nat) {
    forall logs: seq<seq<Event>> :: |logs| == workers && (forall c :: 0 <= c < workers ==> Possible(v, logs[c])) ==>
      id in Replay(v, Flatten(logs)) && Replay(v, Flatten(logs))[id].visitCount <= MAX_REVISITS
  }

  /** The limit survives the merge exactly when at most one worker ran or the POI was no target to begin with. */
  lemma LimitSurvivesMerge(v: View, id: string, workers: nat)
    requires id in v && Sane(v[id]) && v[id].visitCount <= MAX_REVISITS
    ensures MergeKeepsLimit(v, id, workers) <==> workers <= 1 || !Eligible(v[id])
  {
    hide RunLogs, Possible, Flatten, Eligible, Replay;
    if workers <= 1 || !Eligible(v[id]) {
      forall logs: seq<seq<Event>> | |logs| == workers && (forall c :: 0 <= c < workers ==> Possible(v, logs[c]))
        ensures id in Replay(v, Flatten(logs)) && Replay(v, Flatten(logs))[id].visitCount <= MAX_REVISITS {
        FewVisits(v, id, logs);
      }
    } else {
      ManyVisits(v, id, workers);
    }
  }

  /** Two workers that both meet nothing but big changes go past it together. */
  lemma ManyVisits(v: View, id: string, workers: nat)
    requires id in v && Eligible(v[id]) && Sane(v[id]) && v[id].visitCount <= MAX_REVISITS && workers > 1
    ensures !MergeKeepsLimit(v, id, workers)
  {
    hide RunLogs, Possible, Flatten, VisitsInAll, Replay, BigRun, LastInAll;
    var n := MAX_REVISITS - v[id].visitCount;
    var logs := Copies(BigRun(id, n), workers);
    BigRunPossible(v, id, n);
    BigRunVisits(id, n);
    CopiesVisits(BigRun(id, n), workers, id);
    MergedCounts(v, logs, id);
    assert |logs| == workers && forall c :: 0 <= c < workers ==> Possible(v, logs[c]);
  }

  lemma FewVisits(v: View, id: string, logs: seq<seq<Event>>)
    requires id in v && Sane(v[id]) && v[id].visitCount <= MAX_REVISITS
    requires |logs| <= 1 || !Eligible(v[id])
    requires forall c :: 0 <= c < |logs| ==> Possible(v, logs[c])
    ensures id in Replay(v, Flatten(logs)) && Replay(v, Flatten(logs))[id].visitCount <= MAX_REVISITS
  {
    hide RunLogs, Eligible, Flatten, LastInAll;
    forall c | 0 <= c < |logs| ensures VisitsEligible(v, logs[c]) {
      var episodes, maxSteps: nat, exhausted: nat :| RunLogs(v, episodes, maxSteps, logs[c], exhausted);
      RunIsEligible(v, episodes, maxSteps, logs[c], exhausted);
    }
    MergedCounts(v, logs, id);
    if !Eligible(v[id]) {
      NeverVisited(v, id, logs);
    } else if |logs| == 1 {
      VisitsAreBounded(v, logs[0], id);
      assert logs[..0] == [];
    }
  }

  lemma {:induction false} NeverVisited(v: View, id: string, logs: seq<seq<Event>>)
    requires id in v && !Eligible(v[id]) && forall c :: 0 <= c < |logs| ==> VisitsEligible(v, logs[c])
    ensures VisitsInAll(logs, id) == 0
  {
    if logs != [] {
      NeverVisited(v, id, logs[..|logs| - 1]);
      IneligibleUnvisited(v, logs[|logs| - 1], id);
    }
  }

  ghost function Copies<T>(x: T, n: nat): (r: seq<T>)
    ensures |r| == n && forall i :: 0 <= i < n ==> r[i] == x
  {
    seq(n, _ => x)
  }

  lemma {:induction false} CopiesVisits(log: seq<Event>, n: nat, id: string)
    ensures n > 0 ==> VisitsInAll(Copies(log, n), id) >= Visits(log, id)
    ensures n > 1 ==> VisitsInAll(Copies(log, n), id) >= 2 * Visits(log, id)
  {
    if n > 0 {
      CopiesVisits(log, n - 1, id);
      assert Copies(log, n)[..n - 1] == Copies(log, n - 1);
    }
  }

  /** An arrival that changes the frame, and nothing else. */
  const BIG_STEP := Step(true, true, true, BigChange, [], false, false)

  lemma BigStepLogs(now: View, id: string)
    requires id in now && Eligible(now[id])
    ensures StepLogs(now, BIG_STEP, [Visit(id, BigChange)]) && !Ends(now, BIG_STEP)
  {
    assert [Visit(id, BigChange)] == Arrival(now, id, BIG_STEP);
  }

  lemma {:induction false} BigRunTraced(v: View, id: string, m: nat, n: nat)
    requires id in v && Eligible(v[id]) && n <= m && v[id].visitCount + n <= MAX_REVISITS
    ensures StepsLog(v, Copies(BIG_STEP, m), Copies([Visit(id, BigChange)], n), false)
    ensures Flatten(Copies([Visit(id, BigChange)], n)) == BigRun(id, n)
  {
    hide StepLogs, Ends, Eligible, Replay;
    if n > 0 {
      var visit := [Visit(id, BigChange)];
      BigRunTraced(v, id, m, n - 1);
      BigVisits(v, id, n - 1);
      BigStepLogs(Replay(v, BigRun(id, n - 1)), id);
      StepsExtend(v, Copies(BIG_STEP, m), Copies(visit, n - 1), visit, false);
      assert Copies(visit, n) == Copies(visit, n - 1) + [visit];
    }
  }

  lemma BigRunPossible(v: View, id: string, n: nat)
    requires id in v && Eligible(v[id]) && v[id].visitCount + n <= MAX_REVISITS
    ensures Possible(v, BigRun(id, n))
  {
    hide StepsLog, BigRun, Eligible, EpisodesLog, Flatten;
    var steps, trace := Copies(BIG_STEP, n), Copies([Visit(id, BigChange)], n);
    BigRunTraced(v, id, n, n);
    assert EpisodeLogs(v, steps, n, BigRun(id, n));
    assert SomeEligible(v);
    OneEpisode(v, steps, n, BigRun(id, n));
  }

  /** An episode that begins with a target is a run. */
  lemma OneEpisode(v: View, steps: seq<Step>, maxSteps: nat, log: seq<Event>)
    requires EpisodeLogs(v, steps, maxSteps, log) && SomeEligible(v)
    ensures RunLogs(v, [steps], maxSteps, log, 0)
  {
    hide EpisodeLogs, SomeEligible;
    assert Flatten<Event>([]) == [] && Replay(v, []) == v;
    NoEpisodes(v, [steps], maxSteps);
    EpisodesExtend(v, [steps], maxSteps, [], log, 0);
    assert [] + [log] == [log] && [] + log == log;
  }
}
