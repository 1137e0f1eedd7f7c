/**
 The orchestrator's step machine (swarm_orchestrator.py): phases, budgets, the bounded
 history, freshness of the explorer reports, and the two explorers fed from that history.
 The environment, the analysts and the memory view arrive as inputs of each step.
 */
module Orchestrator {
  import opened Common
  import opened History
  import S = SimpleFrontier
  import F = CoordFrontier

  datatype Phase = Probe | Exploit | Done

  /** `window` is history_window_N. */
  datatype Config = Config(window: int, probeSteps: int, simple: S.Config, coord: F.Config)

  /** What env.step brings back, as the analyst sees it; a lost game is followed by a reset. */
  datatype Outcome =
    | NoObservation
    | Observed(after: StateKey, changed: int, ending: Ending)

  datatype Ending = Continues | Ends | LostResetFails | LostReset(start: StateKey, changed: int)

  /** Everything one step takes from outside the machine. */
  datatype Inputs = Inputs(state: StateKey,
                           mechanic: real, hypothesis: real, goal: real,   // the analysts' best confidences
                           order: Option<S.Ordering>, coordOrder: Option<seq<F.Candidate>>,
                           raw: seq<F.Candidate>, rawAgain: seq<F.Candidate>, preferCoord: bool,
                           scripted: Option<Action>,   // a queued or selected test action
                           otherwise: Action)          // the planner's or the fallback action

  const MECHANIC_CONFIDENCE := 0.55
  const HYPOTHESIS_CONFIDENCE := 0.55
  const GOAL_CONFIDENCE := 0.70

  /** Enough is known to exploit: a mechanic with a rule, or the goal. */
  predicate Confident(i: Inputs) {
    (i.mechanic >= MECHANIC_CONFIDENCE && i.hypothesis >= HYPOTHESIS_CONFIDENCE) || i.goal >= GOAL_CONFIDENCE
  }

  /** _normalize_action: only coordinate actions keep x and y. */
  function Normalize(a: Action): Action {
    if a.kind == CoordKind then a else Action(SimpleKind, a.id, None, None)
  }

  function CoordTrialsFor(h: seq<Record>, s: StateKey): nat {
    if h == [] then 0 else
      var r := h[|h| - 1];
      CoordTrialsFor(h[..|h| - 1], s) + (if r.before == Some(s) && r.action.kind == CoordKind then 1 else 0)
  }

  ghost predicate ClickedAt(h: seq<Record>, s: StateKey) {
    exists i :: 0 <= i < |h| && h[i].before == Some(s) && h[i].action.kind == CoordKind
  }

  lemma {:induction false} CoordTrialsCount(h: seq<Record>, s: StateKey)
    ensures CoordTrialsFor(h, s) > 0 <==> ClickedAt(h, s)
  {
    if h != [] {
      var front := h[..|h| - 1];
      CoordTrialsCount(front, s);
      assert forall i :: 0 <= i < |front| ==> front[i] == h[i];
    }
  }

  function CoordAction(k: F.Candidate): Action { Action(CoordKind, Some(k.id), Some(k.x), Some(k.y)) }

  /** The action carries out exactly the pending proposal. */
  ghost predicate IsProposal(a: Action, pending: seq<F.Key>) {
    a.kind == CoordKind && a.id.Some? && a.x.Some? && a.y.Some? && pending == [(a.id.value, a.x.value, a.y.value)]
  }

  function SimpleAction(id: ActionKey): Action { Action(SimpleKind, Some(id), None, None) }

  function Max0(n: int): nat { if n < 0 then 0 else n }

  /** A window that always holds the two newest records. */
  predicate WideEnough(c: Config) {
    c.window == 0 || c.window >= 2
  }

  /** These are the windows under which the simple explorer, once it has actions, is exact in every run. */
  lemma WideEnoughExactly(c: Config)
    requires Distinct(c.simple.ids) && c.simple.ids != []
    ensures WideEnough(c) <==> forall batches ::
      IsRun(batches) ==> S.Exact(S.ViewAfter(batches, c.window, c.simple), Flatten(batches), c.simple, {})
  {
    hide S.Exact;
    S.WindowsThatSuffice(c.window, c.simple);
  }

  /** The history is the tail of the log that the window keeps. */
  ghost predicate Tail(h: seq<Record>, log: seq<Record>, n: int) {
    Suffix(h, log) && (n == 0 ==> |h| == |log|) && (n > 0 ==> |h| == if |log| < n then |log| else n)
  }

  /** The explorers' counters are exact for the part of the log their last refresh had seen. */
  ghost predicate SimpleExact(v: S.View, seen: seq<Record>, log: seq<Record>, c: Config, hidden: S.Hidden) {
    seen <= log && |log| <= |seen| + 2 && S.Exact(v, seen, c.simple, hidden)
  }

  ghost predicate CoordExact(v: F.View, seen: seq<Record>, log: seq<Record>, c: Config) {
    seen <= log && |log| <= |seen| + 2 && (c.coord.ids != [] ==> F.Exact(v, seen, c.coord))
  }

  /** What a step appends: the transition, and the reset that follows a lost game. */
  function StepRecords(step: nat, state: StateKey, act: Action, outcome: Outcome): seq<Record> {
    if outcome.NoObservation? then [] else
      var r := Record(step, act, Some(state), Some(outcome.after), outcome.changed);
      if outcome.ending.LostReset?
      then [r, Record(step + 1, RESET, Some(outcome.after), Some(outcome.ending.start), outcome.ending.changed)]
      else [r]
  }

  /** What the steps of a run append, given the actions they took. */
  ghost function RunRecords(step: nat, inputs: seq<(Inputs, Outcome)>, acts: seq<Action>): seq<Record>
    requires |acts| <= |inputs|
  {
    if acts == [] then [] else
      var n := |acts| - 1;
      var before := RunRecords(step, inputs, acts[..n]);
      before + StepRecords(step + |before|, inputs[n].0.state, acts[n], inputs[n].1)
  }

  lemma RunRecordsExtend(step: nat, inputs: seq<(Inputs, Outcome)>, acts: seq<Action>, act: Action)
    requires |acts| < |inputs|
    ensures var before, n := RunRecords(step, inputs, acts), |acts|;
      RunRecords(step, inputs, acts + [act]) ==
        before + StepRecords(step + |before|, inputs[n].0.state, act, inputs[n].1)
  {
    hide StepRecords;
    assert (acts + [act])[..|acts|] == acts;
  }

  lemma NoRecords(step: nat, inputs: seq<(Inputs, Outcome)>)
    ensures RunRecords(step, inputs, []) == []
  {
  }

  /** The run stopped with the outcome of its last step, or took all the steps it may. */
  ghost predicate RanOut(inputs: seq<(Inputs, Outcome)>, n: nat, maxSteps: nat, done: bool) {
    && n <= maxSteps <= |inputs| && (forall k :: 0 <= k < n - 1 ==> !Finishes(inputs[k].1))
    && if done then n > 0 && Finishes(inputs[n - 1].1)
       else n == maxSteps && (n > 0 ==> !Finishes(inputs[n - 1].1))
  }

  lemma NothingRecorded(log: seq<Record>, state: StateKey, outcome: Outcome)
    ensures outcome.NoObservation? ==> forall act :: log + StepRecords(|log|, state, act, outcome) == log
  {
  }

  /** A run ends when the environment answers nothing, the game is over for good, or the reset fails. */
  predicate Finishes(outcome: Outcome) {
    outcome.NoObservation? || outcome.ending == Ends || outcome.ending == LostResetFails
  }

  /** No key was proposed more often than it was tried, nor more often than the cap allows. */
  ghost predicate ProposalsLogged(proposals: seq<F.Key>, log: seq<Record>) {
    forall k :: multiset(proposals)[k] <= F.Trials(log, k)
  }

  ghost predicate ProposalsCapped(proposals: seq<F.Key>, cap: int) {
    forall k :: multiset(proposals)[k] <= Max0(cap)
  }

  lemma ProposalStaysCapped(proposals: seq<F.Key>, log: seq<Record>, k: F.Key, cap: int)
    requires ProposalsLogged(proposals, log) && ProposalsCapped(proposals, cap) && F.Trials(log, k) < cap
    ensures ProposalsCapped(proposals + [k], cap)
  {
    assert multiset(proposals + [k]) == multiset(proposals) + multiset{k};
  }

  /** The proposals made in this step are the record's own key, so logging the record settles them. */
  lemma LoggingSettles(proposals: seq<F.Key>, pending: seq<F.Key>, log: seq<Record>, r: Record)
    requires ProposalsLogged(proposals, log)
    requires pending == [] || (|pending| == 1 && F.Hits(r, pending[0]))
    ensures ProposalsLogged(proposals + pending, log + [r])
  {
    F.AppendCounts(log, r);
    assert multiset(proposals + pending) == multiset(proposals) + multiset(pending);
    if pending != [] { assert pending == [pending[0]]; }
  }

  // ---------------------------------------------------------------- what a probing step chooses

  /** The pending proposal is the first open candidate of the list, if it has one. */
  ghost predicate ProposedFrom(list: seq<F.Candidate>, pending: seq<F.Key>, log: seq<Record>, s: StateKey, c: Config) {
    exists cand :: F.IsFirstOpen(list, cand, log, s, c.coord) &&
      pending == if cand.Some? then [F.KeyOf(cand.value)] else []
  }

  /** Two lists lead the coordinate explorer to the same choice. */
  ghost predicate SameChoice(a: seq<F.Candidate>, b: seq<F.Candidate>, log: seq<Record>, s: StateKey, c: Config) {
    c.coord.ids != [] ==>
      forall cand :: F.IsFirstOpen(a, cand, log, s, c.coord) <==> F.IsFirstOpen(b, cand, log, s, c.coord)
  }

  lemma SameChoiceSameProposal(a: seq<F.Candidate>, b: seq<F.Candidate>, pending: seq<F.Key>, log: seq<Record>,
                               s: StateKey, c: Config)
    requires SameChoice(a, b, log, s, c) && c.coord.ids != []
    ensures ProposedFrom(a, pending, log, s, c) <==> ProposedFrom(b, pending, log, s, c)
  {
  }

  ghost predicate NoSimpleOpen(log: seq<Record>, hidden: S.Hidden, s: StateKey, c: Config) {
    c.simple.ids == [] || forall id :: !S.Open(log, c.simple, hidden, s, id)
  }

  ghost predicate OpenSimple(act: Action, log: seq<Record>, hidden: S.Hidden, s: StateKey, c: Config) {
    exists id :: act == SimpleAction(id) && S.Takes(log, c.simple, hidden, s, |log|, id)
  }

  /** Coordinates go first while the state has none on record, or when the analysts ask for them. */
  ghost predicate CoordsFirst(h: seq<Record>, i: Inputs, c: Config) {
    c.coord.ids != [] && (i.preferCoord || !ClickedAt(h, i.state))
  }

  /**
   The frontier's choice: the proposal or a simple action the log leaves open. The explorer that
   goes first decides if it has anything open; there is no choice only when neither has.
   */
  ghost predicate FrontierChoice(act: Option<Action>, pending: seq<F.Key>, list: seq<F.Candidate>, coordsFirst: bool,
                                 log: seq<Record>, hidden: S.Hidden, s: StateKey, c: Config)
  {
    && (if pending != [] then act.Some? && IsProposal(act.value, pending)
        else if act.Some? then OpenSimple(act.value, log, hidden, s, c) else NoSimpleOpen(log, hidden, s, c))
    && (c.coord.ids == [] ==> pending == [])
    && (c.coord.ids != [] && (coordsFirst || act.None? || pending != []) ==> ProposedFrom(list, pending, log, s, c))
    && (!coordsFirst && pending != [] ==> NoSimpleOpen(log, hidden, s, c))
  }

  lemma ChoiceAgrees(act: Option<Action>, pending: seq<F.Key>, a: seq<F.Candidate>, b: seq<F.Candidate>,
                     coordsFirst: bool, log: seq<Record>, hidden: S.Hidden, s: StateKey, c: Config)
    requires SameChoice(a, b, log, s, c)
    ensures FrontierChoice(act, pending, a, coordsFirst, log, hidden, s, c) <==>
            FrontierChoice(act, pending, b, coordsFirst, log, hidden, s, c)
  {
    hide SameChoice, ProposedFrom, NoSimpleOpen, OpenSimple;
    if c.coord.ids != [] { SameChoiceSameProposal(a, b, pending, log, s, c); }
  }

  /** The coordinate explorer after it was asked, and reported again with the candidates scored by then. */
  ghost function AfterCoordAsked(v: F.View, h: seq<Record>, i: Inputs, c: Config): F.View {
    F.Report(F.Choose(v, h, i.state, i.raw, i.coordOrder, c.coord).0, h, i.state, i.rawAgain, c.coord)
  }

  /** The step probes: the run does, nothing is known well enough, and there is budget left. */
  predicate Probes(phase: Phase, budget: int, i: Inputs) {
    phase == Probe && !Confident(i) && budget > 0
  }

  /**
   How a step decides: a probing one takes a scripted test, or what the frontier chooses, or else
   what the planner offers; any other one takes that at once.
   */
  ghost predicate Decides(act: Action, chosen: Option<Action>, pending: seq<F.Key>, probing: bool, i: Inputs,
                          list: seq<F.Candidate>, coordsFirst: bool, log: seq<Record>, hidden: S.Hidden, c: Config)
  {
    && act == Normalize(if chosen.Some? then chosen.value else i.otherwise)
    && (pending == [] || IsProposal(act, pending))
    && (!probing ==> chosen.None? && pending == [])
    && (probing && i.scripted.Some? ==> chosen == i.scripted && pending == [])
    && (probing && i.scripted.None? ==> FrontierChoice(chosen, pending, list, coordsFirst, log, hidden, i.state, c))
  }

  class Blackboard {
    var stepIdx: nat
    var history: seq<Record>
    var phase: Phase
    var probeBudget: int
    var simpleMeta: int        // step at which the simple report was built
    var coordMeta: int         // step at which the coordinate report was built
    const simple: S.SimpleFrontierState
    const coord: F.FullFrontierState
    ghost var log: seq<Record>             // every record ever appended
    ghost var simpleSeen: seq<Record>      // the log at the simple explorer's last refresh
    ghost var coordSeen: seq<Record>
    ghost var hidden: S.Hidden             // actions memory took off the untried lists
    ghost var proposals: seq<F.Key>        // every coordinate the explorer ever proposed
    ghost var probes: nat                  // steps taken in the probe phase

    /** What holds at all times of a run. */
    ghost predicate Sound(c: Config)
      reads this, simple, coord
    {
      && Numbered(log) && stepIdx == |log| && Tail(history, log, c.window)
      && S.SameKeys(simple.Now())
      && SimpleExact(simple.Now(), simpleSeen, log, c, hidden) && CoordExact(coord.Now(), coordSeen, log, c)
      && simpleMeta <= stepIdx && (simpleMeta == stepIdx ==> simpleSeen == log)
      && coordMeta <= stepIdx && (coordMeta == stepIdx ==> coordSeen == log)
      && ProposalsCapped(proposals, c.coord.attemptCap)
      && probes + Max0(probeBudget) <= Max0(c.probeSteps)
    }

    /** What holds between steps. */
    ghost predicate Valid(c: Config)
      reads this, simple, coord
    {
      Sound(c) && (phase != Done ==> ProposalsLogged(proposals, log))
    }

    /** Both reports are up to date: the counters are those of the entire log. */
    ghost predicate Fresh(c: Config)
      reads this, simple, coord
    {
      && simpleSeen == log && S.Exact(simple.Now(), log, c.simple, hidden)
      && coordSeen == log && (c.coord.ids != [] ==> F.Exact(coord.Now(), log, c.coord))
    }

    constructor (c: Config)
      requires WideEnough(c)
      ensures Valid(c) && phase == Probe && log == [] && proposals == [] && hidden == {}
      ensures fresh(simple) && fresh(coord)
    {
      stepIdx, history, phase, probeBudget := 0, [], Probe, c.probeSteps;
      simpleMeta, coordMeta := 0, 0;
      simple := new S.SimpleFrontierState();
      coord := new F.FullFrontierState();
      log, simpleSeen, coordSeen, proposals, probes, hidden := [], [], [], [], 0, {};
      new;
      S.EmptyIsExact(c.simple);
      F.EmptyIsExact(c.coord);
    }

    /** Ready to refresh: the history still holds everything either explorer has not processed. */
    lemma HistoryHoldsUnseen(c: Config)
      requires Sound(c) && WideEnough(c)
      ensures Numbered(log) && Suffix(history, log)
      ensures |log| - |history| <= |simpleSeen| && |log| - |history| <= |coordSeen|
      ensures log[..|simpleSeen|] == simpleSeen && log[..|coordSeen|] == coordSeen
    {
    }

    /** What the coordinate explorer would choose from now. */
    ghost function Candidates(i: Inputs, c: Config): seq<F.Candidate>
      requires |coordSeen| <= |log|
      reads this, coord
    {
      F.Consulted(coord.Now(), log[|coordSeen|..], log, i.state, i.raw, i.coordOrder, c.coord)
    }

    method BuildSimpleReport(i: Inputs, c: Config)
      requires Sound(c) && WideEnough(c) && Distinct(c.simple.ids)
      modifies this`simpleMeta, this`simpleSeen, this`hidden, simple
      ensures Sound(c) && simpleMeta == stepIdx && simpleSeen == log
      ensures old(hidden) <= hidden && (i.order.None? ==> hidden == old(hidden))
      ensures S.SameKeys(old(simple.Now())) &&
        simple.Now() == S.Report(old(simple.Now()), history, i.state, i.order, c.simple)
    {
      hide Numbered, Tail, Suffix, CoordExact, ProposalsCapped, S.Exact, S.Report, S.HiddenByReport;
      HistoryHoldsUnseen(c);
      S.ReportIsExact(simple.Now(), log, |simpleSeen|, history, i.state, i.order, c.simple, hidden);
      ghost var newly := S.HiddenByReport(simple.Now(), history, i.state, i.order, c.simple);
      simple.BuildFrontierReport(history, i.state, i.order, c.simple);
      simpleMeta, simpleSeen, hidden := stepIdx, log, hidden + newly;
    }

    method BuildCoordReport(i: Inputs, raw: seq<F.Candidate>, c: Config)
      requires Sound(c) && WideEnough(c)
      modifies this`coordMeta, this`coordSeen, coord
      ensures Sound(c) && coordMeta == stepIdx && coordSeen == log
      ensures raw == i.raw ==> SameChoice(old(Candidates(i, c)), Candidates(i, c), log, i.state, c)
      ensures coord.Now() == F.Report(old(coord.Now()), history, i.state, raw, c.coord)
    {
      hide F.Consulted, F.IsFirstOpen, F.Report, F.Exact;
      HistoryHoldsUnseen(c);
      F.ReportIsExact(coord.Now(), log, |coordSeen|, history, i.state, raw, c.coord);
      if c.coord.ids != [] {
        forall cand {
          F.ReportKeepsChoice(coord.Now(), log, |coordSeen|, history, i.state, raw, i.coordOrder, cand, c.coord);
        }
      }
      coord.BuildFrontierReport(history, i.state, raw, c.coord);
      coordMeta, coordSeen := stepIdx, log;
      assert log[|log|..] == [];
    }

    /** _ensure_fresh_reports with max_age 0: right afterwards every counter is exact for the entire log. */
    method EnsureFreshReports(i: Inputs, c: Config)
      requires Sound(c) && WideEnough(c) && Distinct(c.simple.ids)
      modifies this`simpleMeta, this`simpleSeen, this`coordMeta, this`coordSeen, this`hidden, simple, coord
      ensures Sound(c) && Fresh(c) && old(hidden) <= hidden && (i.order.None? ==> hidden == old(hidden))
      ensures SameChoice(old(Candidates(i, c)), Candidates(i, c), log, i.state, c)
      ensures old(simpleMeta) == stepIdx ==> simple.Now() == old(simple.Now()) && hidden == old(hidden)
      ensures old(coordMeta) == stepIdx ==> coord.Now() == old(coord.Now())
    {
      hide F.Consulted, F.IsFirstOpen, F.Exact, S.Exact;
      if simpleMeta < stepIdx {
        BuildSimpleReport(i, c);
      }
      if coordMeta < stepIdx {
        BuildCoordReport(i, i.raw, c);
      }
    }

    method UpdatePhase(i: Inputs)
      modifies this`phase
      ensures old(phase) == Done ==> phase == Done
      ensures old(phase) == Exploit ==> phase == Exploit
      ensures old(phase) == Probe ==> phase == if Confident(i) || probeBudget <= 0 then Exploit else Probe
      ensures old(phase) == Probe && probeBudget > 0 ==>
        (phase == Probe <==> (i.mechanic < 0.55 || i.hypothesis < 0.55) && i.goal < 0.70)
    {
      if phase == Done {
        return;
      }
      if Confident(i) {
        phase := Exploit;
        return;
      }
      if probeBudget <= 0 {
        phase := Exploit;
      }
    }

    /** The coordinate explorer's choose_action; what it proposes was tried fewer times than the cap allows. */
    method ProposeCoord(i: Inputs, c: Config) returns (act: Option<Action>, ghost pending: seq<F.Key>)
      requires Sound(c) && WideEnough(c) && ProposalsLogged(proposals, log)
      modifies this`coordSeen, this`proposals, coord
      ensures Sound(c) && proposals == old(proposals) + pending
      ensures old(coordSeen) == log ==> coordSeen == log
      ensures act.None? ==> pending == []
      ensures act.Some? ==> IsProposal(act.value, pending)
      ensures act.Some? ==> F.Trials(log, pending[0]) < c.coord.attemptCap && c.coord.ids != []
      ensures c.coord.ids != [] ==> ProposedFrom(old(Candidates(i, c)), pending, log, i.state, c)
      ensures coord.Now() == F.Choose(old(coord.Now()), history, i.state, i.raw, i.coordOrder, c.coord).0
    {
      pending := [];
      act := None;
      assert proposals + [] == proposals;
      if c.coord.ids != [] {
        var cand := AskSoundly(i, c);
        if cand.Some? {
          pending := [F.KeyOf(cand.value)];
          NoteProposal(F.KeyOf(cand.value), c);
          act := Some(CoordAction(cand.value));
        }
      }
    }

    ghost method NoteProposal(k: F.Key, c: Config)
      requires Sound(c) && ProposalsLogged(proposals, log) && F.Trials(log, k) < c.coord.attemptCap
      modifies this`proposals
      ensures Sound(c) && proposals == old(proposals) + [k]
    {
      ProposalStaysCapped(proposals, log, k, c.coord.attemptCap);
      proposals := proposals + [k];
    }

    method AskSoundly(i: Inputs, c: Config) returns (cand: Option<F.Candidate>)
      requires Sound(c) && WideEnough(c) && c.coord.ids != []
      modifies this`coordSeen, coord
      ensures Sound(c) && coordSeen == log
      ensures cand.Some? ==> F.Trials(log, F.KeyOf(cand.value)) < c.coord.attemptCap
      ensures F.IsFirstOpen(old(Candidates(i, c)), cand, log, i.state, c.coord)
      ensures (coord.Now(), cand) == F.Choose(old(coord.Now()), history, i.state, i.raw, i.coordOrder, c.coord)
    {
      hide F.Choose, F.IsFirstOpen, F.Consulted, F.Exact, S.Exact, Numbered, Tail, Suffix, ProposalsCapped, S.SameKeys;
      HistoryHoldsUnseen(c);
      cand := AskCoord(i, c);
    }

    method AskCoord(i: Inputs, c: Config) returns (cand: Option<F.Candidate>)
      requires CoordExact(coord.Now(), coordSeen, log, c) && |log| - |history| <= |coordSeen| && c.coord.ids != []
      requires Numbered(log) && Suffix(history, log)
      modifies this`coordSeen, coord
      ensures coordSeen == log && CoordExact(coord.Now(), coordSeen, log, c)
      ensures cand.Some? ==> F.Trials(log, F.KeyOf(cand.value)) < c.coord.attemptCap
      ensures F.IsFirstOpen(old(Candidates(i, c)), cand, log, i.state, c.coord)
      ensures (coord.Now(), cand) == F.Choose(old(coord.Now()), history, i.state, i.raw, i.coordOrder, c.coord)
    {
      hide F.Consulted, F.IsFirstOpen, F.Choose, F.Exact;
      assert log[..|coordSeen|] == coordSeen;
      F.ProposalIsFirstOpen(coord.Now(), log, |coordSeen|, history, i.state, i.raw, i.coordOrder, c.coord);
      F.ProposalIsUnderCap(coord.Now(), log, |coordSeen|, history, i.state, i.raw, i.coordOrder, c.coord);
      cand := coord.ChooseAction(history, i.state, i.raw, i.coordOrder, c.coord);
      coordSeen := log;
    }

    /** The simple explorer's choose_action, when it has actions. */
    method AskSimple(i: Inputs, c: Config) returns (act: Option<Action>)
      requires Sound(c) && WideEnough(c) && Distinct(c.simple.ids) && c.simple.ids != []
      modifies this`simpleSeen, this`hidden, simple
      ensures Sound(c) && simpleSeen == log
      ensures old(hidden) <= hidden && (i.order.None? ==> hidden == old(hidden))
      ensures if act.Some? then OpenSimple(act.value, log, hidden, i.state, c)
              else NoSimpleOpen(log, hidden, i.state, c)
      ensures S.SameKeys(old(simple.Now())) &&
        simple.Now() == S.Choose(old(simple.Now()), history, i.state, i.order, stepIdx, c.simple).0
    {
      hide Numbered, Tail, Suffix, CoordExact, ProposalsCapped, S.Exact, S.Open, S.HiddenByReport, S.Choose, S.SameKeys;
      HistoryHoldsUnseen(c);
      S.ChosenIsFresh(simple.Now(), log, |simpleSeen|, history, i.state, i.order, stepIdx, c.simple, hidden);
      ghost var newly := S.HiddenByReport(simple.Now(), history, i.state, i.order, c.simple);
      var id := simple.ChooseAction(history, i.state, i.order, stepIdx, c.simple);
      simpleSeen, hidden := log, hidden + newly;
      act := if id.Some? then Some(SimpleAction(id.value)) else None;
    }

    method ProposeSimple(i: Inputs, c: Config) returns (act: Option<Action>)
      requires Sound(c) && WideEnough(c) && Distinct(c.simple.ids)
      modifies this`simpleSeen, this`hidden, simple
      ensures Sound(c) && (old(simpleSeen) == log ==> simpleSeen == log)
      ensures old(hidden) <= hidden && (i.order.None? ==> hidden == old(hidden))
      ensures if act.Some? then OpenSimple(act.value, log, hidden, i.state, c)
              else NoSimpleOpen(log, hidden, i.state, c)
      ensures S.SameKeys(old(simple.Now())) &&
        simple.Now() == S.Choose(old(simple.Now()), history, i.state, i.order, stepIdx, c.simple).0
    {
      hide Numbered, Tail, CoordExact, ProposalsCapped, S.Exact, S.SameKeys, S.Report;
      if c.simple.ids == [] {
        act := None;
      } else {
        act := AskSimple(i, c);
      }
    }

    /** _probe_action: coordinates first while the state has none on record or the analysts ask for them. */
    method ProbeAction(i: Inputs, c: Config) returns (act: Option<Action>, ghost pending: seq<F.Key>)
      requires Sound(c) && WideEnough(c) && Distinct(c.simple.ids) && ProposalsLogged(proposals, log)
      modifies this`simpleSeen, this`coordSeen, this`coordMeta, this`proposals, this`hidden, simple, coord
      ensures Sound(c) && proposals == old(proposals) + pending
      ensures old(hidden) <= hidden && (i.order.None? ==> hidden == old(hidden))
      ensures old(simpleSeen) == log ==> simpleSeen == log
      ensures old(coordSeen) == log ==> coordSeen == log
      ensures FrontierChoice(act, pending, old(Candidates(i, c)), CoordsFirst(history, i, c), log, hidden, i.state, c)
      ensures coord.Now() ==
        if c.coord.ids != [] && (CoordsFirst(history, i, c) || pending != [] || act.None?)
        then AfterCoordAsked(old(coord.Now()), history, i, c) else old(coord.Now())
      ensures S.SameKeys(old(simple.Now())) && simple.Now() ==
        if CoordsFirst(history, i, c) && pending != [] then old(simple.Now())
        else S.Choose(old(simple.Now()), history, i.state, i.order, stepIdx, c.simple).0
    {
      hide Numbered, Tail, SimpleExact, CoordExact, ProposalsCapped, ProposalsLogged, S.SameKeys;
      hide NoSimpleOpen, OpenSimple, ProposedFrom, F.Choose, F.Report, F.Consulted, S.Choose, ClickedAt, CoordTrialsFor;
      CoordTrialsCount(history, i.state);
      if c.coord.ids != [] && (CoordTrialsFor(history, i.state) == 0 || i.preferCoord) {
        act, pending := ProposeCoord(i, c);
        BuildCoordReport(i, i.rawAgain, c);
        if act.None? {
          act := ProposeSimple(i, c);
        }
      } else {
        pending := [];
        act := ProposeSimple(i, c);
        if act.None? && c.coord.ids != [] {
          act, pending := ProposeCoord(i, c);
          BuildCoordReport(i, i.rawAgain, c);
        }
      }
    }

    /** Append one record, cut the history to the window and advance the counter. */
    method Append(r: Record, c: Config)
      requires Numbered(log) && stepIdx == |log| && Tail(history, log, c.window) && WideEnough(c) && r.step == stepIdx
      modifies this`history, this`stepIdx, this`log
      ensures log == old(log) + [r] && stepIdx == |log| && Numbered(log) && Tail(history, log, c.window)
    {
      WindowOfSuffix(log, history, r, c.window);
      history := Window(history + [r], c.window);
      log := log + [r];
      stepIdx := stepIdx + 1;
    }

    /** The action of one step: a scripted test, the frontier, or the planner and fallback. */
    method SelectAction(i: Inputs, c: Config)
      returns (act: Action, ghost chosen: Option<Action>, ghost pending: seq<F.Key>)
      requires Sound(c) && WideEnough(c) && Distinct(c.simple.ids) && ProposalsLogged(proposals, log)
      requires phase == Probe ==> probeBudget > 0
      modifies this`simpleSeen, this`coordSeen, this`coordMeta, this`proposals, this`probeBudget, this`probes
      modifies this`hidden, simple, coord
      ensures Sound(c) && proposals == old(proposals) + pending
      ensures old(hidden) <= hidden && (i.order.None? ==> hidden == old(hidden))
      ensures old(simpleSeen) == log ==> simpleSeen == log
      ensures old(coordSeen) == log ==> coordSeen == log
      ensures probes == old(probes) + if phase == Probe then 1 else 0
      ensures probeBudget == old(probeBudget) - if phase == Probe then 1 else 0
      ensures Decides(act, chosen, pending, phase == Probe, i, old(Candidates(i, c)), CoordsFirst(history, i, c), log,
                      hidden, c)
    {
      hide Numbered, Tail, SimpleExact, CoordExact, ProposalsCapped, ProposalsLogged, S.SameKeys;
      hide NoSimpleOpen, OpenSimple, ProposedFrom, CoordsFirst, F.Consulted, F.Choose, F.Report, S.Choose;
      pending := [];
      var taken: Option<Action> := None;
      if phase == Probe {
        if i.scripted.Some? {
          taken := i.scripted;
        } else {
          taken, pending := ProbeAction(i, c);
        }
        probeBudget := if probeBudget - 1 > 0 then probeBudget - 1 else 0;
        probes := probes + 1;
      }
      act := Normalize(if taken.Some? then taken.value else i.otherwise);
      chosen := taken;
    }

    /** Append a record of this step; both explorers have seen all but at most one record before it. */
    method AppendSoundly(r: Record, c: Config, ghost earlier: nat)
      requires Sound(c) && WideEnough(c) && r.step == stepIdx && earlier <= 1
      requires |log| <= |simpleSeen| + earlier && |log| <= |coordSeen| + earlier
      modifies this`history, this`stepIdx, this`log
      ensures Sound(c) && log == old(log) + [r]
    {
      Append(r, c);
    }

    /** After a lost game the environment is reset, and the reset is recorded as a step of its own. */
    method RecordReset(from: StateKey, start: StateKey, changed: int, c: Config)
      requires Valid(c) && WideEnough(c) && phase != Done && |log| <= |simpleSeen| + 1 && |log| <= |coordSeen| + 1
      modifies this`history, this`stepIdx, this`log
      ensures Valid(c) && log == old(log) + [Record(|old(log)|, RESET, Some(from), Some(start), changed)]
    {
      var reset := Record(stepIdx, RESET, Some(from), Some(start), changed);
      LoggingSettles(proposals, [], log, reset);
      assert proposals + [] == proposals;
      AppendSoundly(reset, c, 1);
    }

    /** The bookkeeping after env.step: record the transition, then handle the end of a game. */
    method RecordStep(i: Inputs, act: Action, ghost proposals0: seq<F.Key>, ghost pending: seq<F.Key>,
                      outcome: Outcome, c: Config)
      requires Sound(c) && WideEnough(c) && phase != Done && outcome.Observed?
      requires simpleSeen == log && coordSeen == log
      requires ProposalsLogged(proposals0, log) && proposals == proposals0 + pending
      requires pending == [] || IsProposal(act, pending)
      modifies this`history, this`stepIdx, this`log, this`phase
      ensures Valid(c) && log == old(log) + StepRecords(|old(log)|, i.state, act, outcome)
      ensures phase == if Finishes(outcome) then Done else old(phase)
    {
      hide Numbered, Tail, SimpleExact, CoordExact, ProposalsCapped, ProposalsLogged, S.SameKeys;
      var r := Record(stepIdx, act, Some(i.state), Some(outcome.after), outcome.changed);
      LoggingSettles(proposals0, pending, log, r);
      AppendSoundly(r, c, 0);
      if outcome.ending.LostReset? {
        RecordReset(outcome.after, outcome.ending.start, outcome.ending.changed, c);
      } else if outcome.ending != Continues {
        phase := Done;
      }
    }

    /** The phase is decided and both reports are brought up to date. */
    method Prepare(i: Inputs, c: Config)
      requires Valid(c) && WideEnough(c) && Distinct(c.simple.ids) && phase != Done
      modifies this`phase, this`simpleMeta, this`simpleSeen, this`coordMeta, this`coordSeen, this`hidden, simple, coord
      ensures Valid(c) && simpleSeen == log && coordSeen == log && phase != Done
      ensures phase == Probe ==> probeBudget > 0
      ensures phase == if Probes(old(phase), probeBudget, i) then Probe else Exploit
      ensures old(hidden) <= hidden && (i.order.None? ==> hidden == old(hidden))
      ensures SameChoice(old(Candidates(i, c)), Candidates(i, c), log, i.state, c)
    {
      hide Numbered, Tail, SimpleExact, CoordExact, ProposalsCapped, ProposalsLogged, S.SameKeys, Confident, SameChoice;
      UpdatePhase(i);
      EnsureFreshReports(i, c);
    }

    /** Everything up to the action: the phase, the reports and the choice. */
    method Decide(i: Inputs, c: Config) returns (act: Action, ghost chosen: Option<Action>, ghost pending: seq<F.Key>)
      requires Valid(c) && WideEnough(c) && Distinct(c.simple.ids) && phase != Done
      modifies this`phase, this`simpleMeta, this`simpleSeen, this`coordMeta, this`coordSeen, this`hidden, simple, coord
      modifies this`proposals, this`probeBudget, this`probes
      ensures Sound(c) && simpleSeen == log && coordSeen == log && ProposalsLogged(old(proposals), log)
      ensures phase == if Probes(old(phase), old(probeBudget), i) then Probe else Exploit
      ensures old(hidden) <= hidden && (i.order.None? ==> hidden == old(hidden))
      ensures proposals == old(proposals) + pending
      ensures probeBudget == old(probeBudget) - if Probes(old(phase), old(probeBudget), i) then 1 else 0
      ensures Decides(act, chosen, pending, Probes(old(phase), old(probeBudget), i), i, old(Candidates(i, c)),
                      CoordsFirst(history, i, c), log, hidden, c)
    {
      ghost var list := Candidates(i, c);
      hide Numbered, Tail, SimpleExact, CoordExact, ProposalsCapped, ProposalsLogged, S.SameKeys;
      hide Confident, FrontierChoice, SameChoice, CoordsFirst, IsProposal, Normalize;
      Prepare(i, c);
      ghost var ready := Candidates(i, c);
      act, chosen, pending := SelectAction(i, c);
      ChoiceAgrees(chosen, pending, list, ready, CoordsFirst(history, i, c), log, hidden, i.state, c);
    }

    /** One step of the run. */
    method StepOnce(i: Inputs, outcome: Outcome, c: Config)
      returns (act: Action, ghost chosen: Option<Action>, ghost pending: seq<F.Key>)
      requires Valid(c) && WideEnough(c) && Distinct(c.simple.ids) && phase != Done
      modifies this, simple, coord
      ensures Valid(c)
      ensures log == old(log) + StepRecords(|old(log)|, i.state, act, outcome)
      ensures phase == if Finishes(outcome) then Done
                       else if Probes(old(phase), old(probeBudget), i) then Probe else Exploit
      ensures old(hidden) <= hidden && (i.order.None? ==> hidden == old(hidden))
      ensures proposals == old(proposals) + pending
      ensures probeBudget == old(probeBudget) - if Probes(old(phase), old(probeBudget), i) then 1 else 0
      ensures Decides(act, chosen, pending, Probes(old(phase), old(probeBudget), i), i, old(Candidates(i, c)),
                      CoordsFirst(old(history), i, c), old(log), hidden, c)
    {
      hide Numbered, Tail, SimpleExact, CoordExact, ProposalsCapped, ProposalsLogged, S.SameKeys;
      hide StepRecords, Confident, FrontierChoice, CoordsFirst, IsProposal, Normalize;
      NothingRecorded(log, i.state, outcome);
      ghost var proposals0 := proposals;
      act, chosen, pending := Decide(i, c);
      if outcome.NoObservation? {
        phase := Done;
      } else {
        RecordStep(i, act, proposals0, pending, outcome, c);
      }
    }

    /**
     A whole run: the report at the start, which may already hide actions, and at most `maxSteps`
     steps, each with arbitrary inputs and an arbitrary environment. Every invariant holds
     throughout, probe steps stay within their budget, and no coordinate is proposed more often
     than its attempt cap.
     */
    method Run(start: Inputs, inputs: seq<(Inputs, Outcome)>, maxSteps: nat, c: Config)
      returns (ghost acts: seq<Action>, ghost reported: S.View)
      requires phase != Done && Valid(c) && WideEnough(c) && Distinct(c.simple.ids) && maxSteps <= |inputs|
      modifies this, simple, coord
      ensures Valid(c) && RanOut(inputs, |acts|, maxSteps, phase == Done)
      ensures log == old(log) + RunRecords(|old(log)|, inputs, acts)
      ensures reported == S.Report(old(simple.Now()), old(history), start.state, start.order, c.simple)
      ensures probes <= Max0(c.probeSteps)
      ensures forall k :: multiset(proposals)[k] <= Max0(c.coord.attemptCap)
      ensures phase != Done ==> forall k :: multiset(proposals)[k] <= F.Trials(log, k)
      ensures old(hidden) <= hidden
      ensures start.order.None? && (forall k :: 0 <= k < maxSteps ==> inputs[k].0.order.None?) ==> hidden == old(hidden)
    {
      hide Numbered, Tail, SimpleExact, CoordExact, S.SameKeys, S.Report;
      hide RunRecords, StepRecords, Decides, Probes, Finishes;
      BuildSimpleReport(start, c);
      var n := 0;
      acts, reported := [], simple.Now();
      NoRecords(|log|, inputs);
      while n < maxSteps && phase != Done
        invariant n == |acts| <= maxSteps && old(hidden) <= hidden
        invariant forall k :: 0 <= k < n ==> (Finishes(inputs[k].1) <==> k == n - 1 && phase == Done)
        invariant n == 0 ==> phase != Done
        invariant start.order.None? && (forall k :: 0 <= k < n ==> inputs[k].0.order.None?) ==> hidden == old(hidden)
        invariant Valid(c) && log == old(log) + RunRecords(|old(log)|, inputs, acts)
      {
        ghost var chosen, pending;
        var act;
        act, chosen, pending := StepOnce(inputs[n].0, inputs[n].1, c);
        RunRecordsExtend(|old(log)|, inputs, acts, act);
        acts := acts + [act];
        n := n + 1;
      }
    }
  }
}
