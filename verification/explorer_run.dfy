/**
 The simple explorer's own loop (simple_explorer.py, run): walk to a frontier state, try an
 action, record it. The environment is an arbitrary oracle; what is proved is progress.
 */
module ExplorerRun {
  import opened Common
  import opened History
  import opened Walks
  import opened TransitionGraphs
  import S = SimpleFrontier

  datatype Config = Config(frontier: S.Config, maxSteps: int, maxUniqueStates: int, route: bool, bfsMaxDepth: int,
                           deprioritize: bool)

  /** What the analyst says of a frame's grid; missing when it saw none. */
  type Shape = Option<(nat, nat, nat, nat)>

  /** What env.step and the analyst report, with the shapes of the frame before and of the new one. */
  datatype Observation = Observation(state: StateKey, cells: int, area: int, signatures: seq<string>,
                                     shapeBefore: Shape, shape: Shape)

  /** The environment: the outcome of the n-th call, or an exception. */
  type Environment = (nat, ActionKey) -> Option<Observation>

  type Graph = TransitionGraphStore<StateKey, ActionKey>

  function Untried(v: S.View, s: StateKey): seq<ActionKey> { Get(v.untried, s, []) }

  /** Untried lists and recorded edges only name actions the environment offers. */
  ghost predicate KnownActions(v: S.View, ids: seq<ActionKey>) {
    forall s, a :: s in v.untried && a in v.untried[s] ==> a in ids
  }

  ghost predicate KnownLabels(edges: map<(StateKey, ActionKey, StateKey), Edge>, ids: seq<ActionKey>) {
    forall k :: k in edges ==> k.1 in ids
  }

  lemma {:induction false} WithoutShrinks(s: seq<ActionKey>, a: ActionKey)
    ensures forall x :: x in S.Without(s, a) ==> x in s
  {
    if s != [] { WithoutShrinks(s[1..], a); }
  }

  lemma RemoveShrinks(untried: map<StateKey, seq<ActionKey>>, s: StateKey, a: ActionKey)
    ensures forall x, y :: x in S.Remove(untried, s, a) && y in S.Remove(untried, s, a)[x] ==> y in untried[x]
  {
    if s in untried { WithoutShrinks(untried[s], a); }
  }

  lemma RecordKeepsKnown(v: S.View, prev: StateKey, a: ActionKey, next: StateKey, c: S.Config)
    requires S.SameKeys(v) && prev in v.attempts && KnownActions(v, c.ids)
    ensures KnownActions(S.RecordOutcome(v, prev, a, next, c), c.ids)
  {
    var seen := S.AddOutcome(v.outcomes, prev, a, next)[prev][a][next];
    RemoveShrinks(v.untried, prev, a);
    RemoveShrinks(if seen >= 2 then S.Remove(v.untried, prev, a) else v.untried, prev, a);
  }

  /** Labels of a recorded walk are actions of the environment. */
  lemma WalkLabelsKnown(edges: map<(StateKey, ActionKey, StateKey), Edge>, ids: seq<ActionKey>, start: StateKey,
                        w: Walk<StateKey, ActionKey>, end: StateKey)
    requires KnownLabels(edges, ids) && IsWalk(edges.Keys, start, w, end)
    ensures forall i :: 0 <= i < |w| ==> w[i].0 in ids
  {
    forall i: nat | i < |w| ensures w[i].0 in ids {
      assert StepIn(edges.Keys, start, w, i);
    }
  }

  lemma EmptyWalk(edges: set<(StateKey, ActionKey, StateKey)>, start: StateKey, w: Walk<StateKey, ActionKey>,
                  end: StateKey)
    requires IsWalk(edges, start, w, end) && start != end
    ensures w != []
  {
  }

  /** The frontier order: more untried actions first, then longer unseen. */
  predicate Ahead(untried: map<StateKey, seq<ActionKey>>, seen: map<StateKey, nat>, a: StateKey, b: StateKey)
    requires a in untried && b in untried
  {
    |untried[a]| > |untried[b]| || (|untried[a]| == |untried[b]| && LastSeen(seen, a) < LastSeen(seen, b))
  }

  function LastSeen(seen: map<StateKey, nat>, s: StateKey): int {
    if s in seen then seen[s] else -1
  }

  /** A state with the most untried actions, and unseen for the longest among those with as many. */
  ghost predicate LeadsFrontier(untried: map<StateKey, seq<ActionKey>>, seen: map<StateKey, nat>, s: StateKey) {
    && s in untried && untried[s] != []
    && forall t :: t in untried ==>
         (|untried[t]| <= |untried[s]| && (|untried[t]| == |untried[s]| ==> LastSeen(seen, s) <= LastSeen(seen, t)))
  }

  /** _pick_frontier: a state with untried actions that no other is ahead of, or none when all are exhausted. */
  method PickFrontier(untried: map<StateKey, seq<ActionKey>>, seen: map<StateKey, nat>) returns (best: Option<StateKey>)
    ensures best.None? <==> forall s :: s in untried ==> untried[s] == []
    ensures best.Some? ==> LeadsFrontier(untried, seen, best.value)
  {
    best := None;
    var rest := untried.Keys;
    while rest != {}
      invariant rest <= untried.Keys
      invariant best.None? ==> forall s :: s in untried.Keys - rest ==> untried[s] == []
      invariant best.Some? ==> best.value in untried && untried[best.value] != []
      invariant best.Some? ==> forall s :: s in untried.Keys - rest && untried[s] != [] ==>
          !Ahead(untried, seen, s, best.value)
      decreases rest
    {
      var s :| s in rest;
      rest := rest - {s};
      if untried[s] != [] && (best.None? || Ahead(untried, seen, s, best.value)) {
        best := Some(s);
      }
    }
  }

  // ---------------------------------------------------------------- two counts of the same steps

  type Edges = map<(StateKey, ActionKey, StateKey), Edge>

  /** The transition a step records. */
  function Step(prev: StateKey, a: ActionKey, o: Observation, step: int): Addition<StateKey, ActionKey> {
    Addition(prev, a, o.state, o.cells, o.area, o.signatures, step)
  }

  function EdgesAfter(edges: Edges, x: Addition<StateKey, ActionKey>): Edges {
    edges[Key(x) := Bump(Get(edges, Key(x), NEW_EDGE), x)]
  }

  /** A state is described once, when a grid is first seen there. */
  function Registered(nodes: map<StateKey, Node<StateKey>>, s: StateKey, shape: Shape): map<StateKey, Node<StateKey>> {
    if shape.None? || s in nodes then nodes
    else nodes[s := Node(s, shape.value.0, shape.value.1, shape.value.2, shape.value.3)]
  }

  function NodesAfter(nodes: map<StateKey, Node<StateKey>>, prev: StateKey, o: Observation)
    : map<StateKey, Node<StateKey>>
  {
    Registered(Registered(nodes, prev, o.shapeBefore), o.state, o.shape)
  }

  /** Each outcome counter is the count of its graph edge, and each attempt counter the sum of its outcomes. */
  ghost predicate CountsAgree(v: S.View, edges: Edges) {
    && (forall s, a, t :: S.OutcomeCount(v, s, a, t) == Get(edges, (s, a, t), NEW_EDGE).count)
    && (forall s, a :: SumValues(S.OutcomeCounts(v, s, a)) == S.AttemptCount(v, s, a))
  }

  lemma EnsureAgrees(v: S.View, edges: Edges, s: StateKey, c: S.Config)
    requires S.SameKeys(v)
    ensures CountsAgree(v, edges) ==> CountsAgree(S.Ensure(v, s, c), edges)
  {
    hide S.Ensure, S.AttemptCount, S.OutcomeCounts;
    S.EnsureKeepsCounts(v, s, c);
  }

  /** Recording a step in both places keeps them in step. */
  lemma StepAgrees(v: S.View, edges: Edges, x: Addition<StateKey, ActionKey>, c: S.Config)
    requires S.SameKeys(v) && x.from in v.attempts && CountsAgree(v, edges)
    ensures CountsAgree(AfterOutcome(v, x.from, x.act, x.to, c), EdgesAfter(edges, x))
  {
    hide S.Ensure, S.AttemptCount, S.OutcomeCounts, S.RecordOutcome;
    EnsureAgrees(v, edges, x.to, c);
    S.RecordedCounters(S.Ensure(v, x.to, c), x.from, x.act, x.to, c);
  }

  /** The explorer's dictionaries after one recorded step. */
  function AfterOutcome(v: S.View, prev: StateKey, a: ActionKey, next: StateKey, c: S.Config): S.View
    requires S.SameKeys(v) && prev in v.attempts
  {
    S.RecordOutcome(S.Ensure(v, next, c), prev, a, next, c)
  }

  /** Of three iterations in a row, the environment made a step before the third. */
  ghost predicate NeverIdlesTwice(trace: seq<nat>) {
    forall i :: 0 <= i < |trace| - 2 ==> trace[i] < trace[i + 2]
  }

  /** The trace so far; `idle` tells that the last iteration only jumped. */
  ghost predicate Traced(trace: seq<nat>, steps: nat, idle: bool) {
    var extra := if idle then 1 else 0;
    && NeverIdlesTwice(trace) && |trace| <= 2 * steps + extra
    && (|trace| > 0 ==> trace[|trace| - 1] < steps + extra)
    && (|trace| > 1 ==> trace[|trace| - 2] < steps)
  }

  lemma TraceLaws(trace: seq<nat>, steps: nat, idle: bool)
    requires Traced(trace, steps, idle)
    ensures NeverIdlesTwice(trace) && |trace| <= 2 * steps + 2
    ensures NeverIdlesTwice(trace + [steps]) && |trace + [steps]| <= 2 * steps + 2
    ensures !idle ==> Traced(trace + [steps], steps, true)
    ensures forall later: nat :: steps < later ==> Traced(trace + [steps], later, false)
  {
  }

  lemma NoTrace()
    ensures Traced([], 0, false)
  {
  }

  ghost predicate SomeUntried(untried: map<StateKey, seq<ActionKey>>) {
    exists s :: s in untried && untried[s] != []
  }

  datatype Move = Jumped | Walked | Stop

  type Transition = Addition<StateKey, ActionKey>

  /** The log gained steps that try the labels of the walk in order, `k` of them. */
  ghost predicate Follows(log: seq<Transition>, before: seq<Transition>, path: Walk<StateKey, ActionKey>, k: nat) {
    && k <= |path| && |log| == |before| + k && before <= log
    && forall j :: 0 <= j < k ==> log[|before| + j].act == path[j].0
  }

  /** A shortest recorded walk to a leading frontier state. */
  ghost predicate IsRoute(edges: Edges, untried: map<StateKey, seq<ActionKey>>, seen: map<StateKey, nat>,
                          from: StateKey, path: Walk<StateKey, ActionKey>, to: StateKey)
  {
    && LeadsFrontier(untried, seen, to) && path != []
    && IsWalk(edges.Keys, from, path, to) && AtLeast(edges.Keys, from, to, |path|)
  }

  class Explorer {
    const frontier: S.SimpleFrontierState
    const graph: Graph
    var steps: nat
    var current: StateKey
    var lastSeen: map<StateKey, nat>

    ghost predicate Valid(c: Config)
      reads this, frontier, graph
    {
      Sound(c) && CountsAgree(frontier.Now(), graph.edges)
    }

    ghost predicate Sound(c: Config)
      reads this, frontier, graph
    {
      && S.SameKeys(frontier.Now()) && current in frontier.stateActionAttempts
      && KnownActions(frontier.Now(), c.frontier.ids)
      && graph.Valid() && KnownLabels(graph.edges, c.frontier.ids)
      && |graph.log| == steps
    }

    /** The environment fails on some action. */
    ghost predicate Fails(env: Environment, c: Config)
      reads this
    {
      exists a :: a in c.frontier.ids && env(steps, a).None?
    }

    /** Why a run may end: the limits, a failed call, or nothing left to try in any known state. */
    ghost predicate Over(env: Environment, c: Config)
      reads this, frontier
    {
      || steps >= c.maxSteps || |frontier.stateActionAttempts| >= c.maxUniqueStates || Fails(env, c)
      || forall s :: s in frontier.stateUntried ==> frontier.stateUntried[s] == []
    }

    constructor (start: StateKey, c: Config)
      ensures Valid(c) && steps == 0 && current == start && fresh(frontier) && fresh(graph)
    {
      frontier := new S.SimpleFrontierState();
      graph := new TransitionGraphStore<StateKey, ActionKey>();
      steps, current, lastSeen := 0, start, map[];
      new;
      EnsureAgrees(S.EMPTY, graph.edges, start, c.frontier);
      frontier.EnsureState(start, c.frontier);
    }

    method Register(s: StateKey, shape: Shape)
      requires graph.Valid()
      modifies graph
      ensures graph.Valid() && graph.edges == old(graph.edges) && graph.log == old(graph.log)
      ensures graph.nodes == Registered(old(graph.nodes), s, shape)
    {
      if shape.Some? {
        var (h, w, p, o) := shape.value;
        graph.AddNode(Node(s, h, w, p, o));
      }
    }

    /** _step_and_record, _ensure_state and _record_action_outcome: one environment step, fully recorded. */
    method TakeStep(env: Environment, a: ActionKey, c: Config) returns (ok: bool)
      requires Valid(c) && a in c.frontier.ids
      modifies this`steps, this`current, frontier, graph
      ensures Valid(c) && steps == old(steps) + (if ok then 1 else 0)
      ensures ok <==> env(old(steps), a).Some?
      ensures !ok ==> current == old(current) && unchanged(frontier, graph)
      ensures ok ==> var o := env(old(steps), a).value;
        && current == o.state
        && graph.log == old(graph.log) + [Step(old(current), a, o, steps)]
        && graph.nodes == NodesAfter(old(graph.nodes), old(current), o)
        && frontier.Now() == AfterOutcome(old(frontier.Now()), old(current), a, o.state, c.frontier)
    {
      hide CountsAgree, AfterOutcome, EdgesAfter, NodesAfter, KnownActions, KnownLabels, Graph.Valid;
      var obs := env(steps, a);
      if obs.None? {
        return false;
      }
      StepAgrees(frontier.Now(), graph.edges, Step(current, a, obs.value, steps + 1), c.frontier);
      RecordEdge(a, obs.value, c);
      RecordOutcome(a, obs.value.state, c);
      return true;
    }

    method RecordEdge(a: ActionKey, o: Observation, c: Config)
      requires Sound(c) && a in c.frontier.ids
      modifies this`steps, graph
      ensures Sound(c) && steps == old(steps) + 1
      ensures graph.log == old(graph.log) + [Step(current, a, o, steps)]
      ensures graph.edges == EdgesAfter(old(graph.edges), Step(current, a, o, steps))
      ensures graph.nodes == NodesAfter(old(graph.nodes), current, o)
    {
      steps := steps + 1;
      Register(current, o.shapeBefore);
      Register(o.state, o.shape);
      graph.AddEdge(Step(current, a, o, steps));
    }

    method RecordOutcome(a: ActionKey, next: StateKey, c: Config)
      requires Sound(c)
      modifies this`current, frontier
      ensures Sound(c) && current == next
      ensures frontier.Now() == AfterOutcome(old(frontier.Now()), old(current), a, next, c.frontier)
    {
      var prev := current;
      current := next;
      frontier.EnsureState(current, c.frontier);
      RecordKeepsKnown(frontier.Now(), prev, a, current, c.frontier);
      frontier.RecordActionOutcome(prev, a, current, c.frontier);
    }

    /** The walk along a recorded path; the environment may lead elsewhere, but every leg is a step. */
    method WalkPath(env: Environment, path: Walk<StateKey, ActionKey>, c: Config) returns (ok: bool)
      requires Valid(c) && steps < c.maxSteps && path != []
      requires forall i :: 0 <= i < |path| ==> path[i].0 in c.frontier.ids
      modifies this`steps, this`current, frontier, graph
      ensures Valid(c) && old(steps) <= steps <= c.maxSteps
      ensures Follows(graph.log, old(graph.log), path, steps - old(steps))
      ensures if ok then steps == old(steps) + |path| || steps == c.maxSteps
              else steps < old(steps) + |path| && Fails(env, c)
    {
      hide CountsAgree, AfterOutcome, EdgesAfter, NodesAfter, KnownActions, KnownLabels, Graph.Valid;
      var i := 0;
      while i < |path| && steps < c.maxSteps
        invariant 0 <= i <= |path| && Valid(c) && old(steps) <= steps <= c.maxSteps
        invariant steps == old(steps) + i && Follows(graph.log, old(graph.log), path, i)
      {
        ok := TakeStep(env, path[i].0, c);
        if !ok {
          return;
        }
        i := i + 1;
      }
      return true;
    }

    /** The walk to a frontier state; the run is over when a step raises (here out of `run` itself) or none is left. */
    method WalkRoute(env: Environment, path: Walk<StateKey, ActionKey>, to: StateKey, c: Config) returns (move: Move)
      requires Valid(c) && steps < c.maxSteps && path != [] && IsWalk(graph.edges.Keys, current, path, to)
      modifies this`steps, this`current, frontier, graph
      ensures Valid(c) && old(steps) <= steps <= c.maxSteps
      ensures move == if steps == old(steps) + |path| && steps < c.maxSteps then Walked else Stop
      ensures move == Walked ==> Follows(graph.log, old(graph.log), path, |path|)
      ensures move == Stop ==> Over(env, c)
    {
      WalkLabelsKnown(graph.edges, c.frontier.ids, current, path, to);
      hide CountsAgree, KnownActions, KnownLabels, Graph.Valid, Follows, IsWalk;
      var ok := WalkPath(env, path, c);
      move := if ok && steps < c.maxSteps then Walked else Stop;
    }

    /** At an exhausted state: jump or walk to a leading frontier state, or stop when there is none to go to. */
    method GoToFrontier(env: Environment, c: Config)
      returns (move: Move, ghost path: Walk<StateKey, ActionKey>, ghost to: StateKey)
      requires Valid(c) && steps < c.maxSteps && Untried(frontier.Now(), current) == []
      modifies this`steps, this`current, frontier, graph
      ensures Valid(c) && old(steps) <= steps <= c.maxSteps
      ensures move == Jumped ==> Untried(frontier.Now(), current) != [] && steps == old(steps)
      ensures move == Jumped ==>
        && LeadsFrontier(frontier.stateUntried, lastSeen, current) && graph.log == old(graph.log)
        && (c.route ==> AtLeast(graph.edges.Keys, old(current), current, c.bfsMaxDepth + 1))
      ensures move == Walked ==> old(steps) < steps < c.maxSteps
      ensures move == Walked ==>
        && IsRoute(old(graph.edges), old(frontier.stateUntried), lastSeen, old(current), path, to)
        && Follows(graph.log, old(graph.log), path, |path|)
      ensures move == Stop ==> Over(env, c)
    {
      hide CountsAgree, KnownActions, KnownLabels, Graph.Valid, Follows, Ahead, AtLeast, IsWalk, S.Ensure;
      var next := PickFrontier(frontier.stateUntried, lastSeen);
      path, to := [], current;
      if next.None? {
        return Stop, path, to;
      }
      var found: Option<Walk<StateKey, ActionKey>> := None;
      if c.route {
        found := graph.BfsPath(current, next.value, c.bfsMaxDepth);
      }
      if found.None? {
        JumpTo(next.value, c);
        return Jumped, path, to;
      }
      EmptyWalk(graph.edges.Keys, current, found.value, next.value);
      path, to := found.value, next.value;
      move := WalkRoute(env, found.value, next.value, c);
    }

    /** The jump only changes the explorer's idea of where it is. */
    method JumpTo(s: StateKey, c: Config)
      requires Valid(c) && s in frontier.stateUntried
      modifies this`current, frontier
      ensures Valid(c) && current == s && frontier.Now() == old(frontier.Now())
    {
      current := s;
      EnsureAgrees(frontier.Now(), graph.edges, current, c.frontier);
      frontier.EnsureState(current, c.frontier);
    }

    /** The step at the end of an iteration, and the jump away from a detected loop. */
    method TryAction(env: Environment, a: ActionKey, loopFlagged: nat -> bool, c: Config) returns (ok: bool)
      requires Valid(c) && steps < c.maxSteps && a in Untried(frontier.Now(), current)
      modifies this, frontier, graph
      ensures Valid(c) && steps == old(steps) + (if ok then 1 else 0)
      ensures ok ==> env(old(steps), a).Some? && lastSeen == old(lastSeen)[env(old(steps), a).value.state := steps]
      ensures ok ==> graph.log == old(graph.log) + [Step(old(current), a, env(old(steps), a).value, steps)]
      ensures ok ==>
        if c.deprioritize && loopFlagged(steps) && SomeUntried(frontier.stateUntried)
        then LeadsFrontier(frontier.stateUntried, lastSeen, current) else current == env(old(steps), a).value.state
      ensures !ok ==> current == old(current) && lastSeen == old(lastSeen) && env(old(steps), a).None? && Fails(env, c)
    {
      hide KnownLabels, AfterOutcome, Graph.Valid;
      ok := TakeStep(env, a, c);
      if ok {
        lastSeen := lastSeen[current := steps];
        if c.deprioritize && loopFlagged(steps) {
          var next := PickFrontier(frontier.stateUntried, lastSeen);
          if next.Some? {
            current := next.value;
          }
        }
      }
    }

    /**
     The main loop. It terminates for every environment: each iteration either takes a step,
     or moves to a state that has an untried action, and then the next iteration takes one.
     The trace holds the step counter at the start of every iteration.
     */
    method Run(env: Environment, loopFlagged: nat -> bool, c: Config) returns (ghost trace: seq<nat>)
      requires Valid(c) && steps == 0
      modifies this, frontier, graph
      ensures Valid(c) && (steps <= c.maxSteps || steps == 0)
      ensures Over(env, c)
      ensures NeverIdlesTwice(trace) && |trace| <= 2 * steps + 2
    {
      hide Traced;
      trace := [];
      ghost var idle := false;
      NoTrace();
      while steps < c.maxSteps
        invariant Valid(c) && (steps <= c.maxSteps || steps == 0)
        invariant idle ==> Untried(frontier.Now(), current) != []
        invariant Traced(trace, steps, idle)
        decreases c.maxSteps - steps, if Untried(frontier.Now(), current) == [] then 1 else 0
      {
        TraceLaws(trace, steps, idle);
        ghost var started := trace + [steps];
        if |frontier.stateActionAttempts| >= c.maxUniqueStates {
          return started;
        }
        var before := steps;
        var ended, _ := Iterate(env, loopFlagged, c);
        if ended {
          return started;
        }
        trace, idle := started, steps == before;
      }
      TraceLaws(trace, steps, idle);
    }

    /** The end of an iteration: the next action is tried and recorded, unless there is none. */
    method TryNext(env: Environment, loopFlagged: nat -> bool, c: Config) returns (ended: bool)
      requires Valid(c) && steps < c.maxSteps
      modifies this, frontier, graph
      ensures Valid(c) && old(steps) <= steps <= c.maxSteps && (ended ==> Over(env, c))
      ensures var n := old(steps);
        var act := S.NextAction(old(frontier.stateUntried), old(current), c.frontier.ids, n);
        if act.None? then !ended && steps == n && Untried(frontier.Now(), current) == []
        else if env(n, act.value).None? then ended
        else !ended && graph.log == old(graph.log) + [Step(old(current), act.value, env(n, act.value).value, steps)]
    {
      hide CountsAgree, KnownActions, KnownLabels, Graph.Valid, S.NextAction;
      var act := S.NextAction(frontier.stateUntried, current, c.frontier.ids, steps);
      if act.None? {
        return false;
      }
      var stepped := TryAction(env, act.value, loopFlagged, c);
      return !stepped;
    }

    /**
     The body of the loop; `ended` when it breaks off. With an untried action at hand it is tried
     at once; after a walk of `walked` steps the next one is tried at the state it led to.
     */
    method Iterate(env: Environment, loopFlagged: nat -> bool, c: Config) returns (ended: bool, ghost walked: nat)
      requires Valid(c) && steps < c.maxSteps && |frontier.stateActionAttempts| < c.maxUniqueStates
      modifies this, frontier, graph
      ensures Valid(c) && old(steps) <= steps <= c.maxSteps
      ensures ended ==> Over(env, c)
      ensures !ended && steps == old(steps) ==>
        old(Untried(frontier.Now(), current)) == [] && Untried(frontier.Now(), current) != []
      ensures !ended && old(Untried(frontier.Now(), current)) == [] && steps > old(steps) ==> walked > 0
      ensures !ended && walked > 0 ==>
        steps == old(steps) + walked + 1 || (steps == old(steps) + walked && Untried(frontier.Now(), current) == [])
      ensures old(Untried(frontier.Now(), current)) != [] ==>
        && walked == 0
        && var act := S.NextAction(old(frontier.stateUntried), old(current), c.frontier.ids, old(steps)).value;
          if env(old(steps), act).None? then ended
          else !ended && graph.log == old(graph.log) + [Step(old(current), act, env(old(steps), act).value, steps)]
    {
      hide CountsAgree, KnownActions, KnownLabels, Graph.Valid;
      walked := 0;
      if Get(frontier.stateUntried, current, []) == [] {
        var moved, _, _ := GoToFrontier(env, c);
        if moved == Stop {
          return true, walked;
        }
        if moved == Jumped {
          return false, walked;
        }
        walked := steps - old(steps);
      }
      ended := TryNext(env, loopFlagged, c);
    }
  }
}
