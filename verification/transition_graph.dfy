/**
 The transition graph of the explorers: an edge map, an adjacency index kept beside it, and
 a depth-limited breadth-first search. Generic in the action act, so that it covers both
 transition_graph.py (labels are action ids) and full_transition_graph.py (id, x and y).
 */
module Walks {
  /** A walk lists the act and the state reached by each step. */
  type Walk<S, A> = seq<(A, S)>

  type Edges<S(==), A(==)> = set<(S, A, S)>

  /** The state a walk has reached after `i` steps. */
  function StateAt<S, A>(start: S, w: Walk<S, A>, i: nat): S
    requires i <= |w|
  {
    if i == 0 then start else w[i - 1].1
  }

  ghost predicate StepIn<S, A>(e: Edges<S, A>, start: S, w: Walk<S, A>, i: nat)
    requires i < |w|
  {
    (StateAt(start, w, i), w[i].0, w[i].1) in e
  }

  ghost predicate IsWalk<S, A>(e: Edges<S, A>, start: S, w: Walk<S, A>, end: S) {
    StateAt(start, w, |w|) == end && forall i: nat :: i < |w| ==> StepIn(e, start, w, i)
  }

  /** No walk from `start` to `end` takes fewer than `n` steps. */
  ghost predicate AtLeast<S(!new), A(!new)>(e: Edges<S, A>, start: S, end: S, n: int) {
    forall w :: IsWalk(e, start, w, end) ==> |w| >= n
  }

  lemma WalkPrefix<S, A>(e: Edges<S, A>, start: S, w: Walk<S, A>, end: S, n: nat)
    requires IsWalk(e, start, w, end) && n <= |w|
    ensures IsWalk(e, start, w[..n], StateAt(start, w, n))
  {
    forall i: nat | i < n ensures StepIn(e, start, w[..n], i) {
      assert StepIn(e, start, w, i);
    }
  }

  lemma WalkExtends<S, A>(e: Edges<S, A>, start: S, w: Walk<S, A>, mid: S, act: A, end: S)
    requires IsWalk(e, start, w, mid) && (mid, act, end) in e
    ensures IsWalk(e, start, w + [(act, end)], end)
  {
    var x := w + [(act, end)];
    forall i: nat | i < |x| ensures StepIn(e, start, x, i) {
      if i < |w| { assert StepIn(e, start, w, i); }
    }
  }

  /**
   The crossing argument. `seen` holds the start and every successor of `expanded`, and no
   seen state outside `expanded` is closer than `low`; then no unseen state is closer than
   `low + 1`.
   */
  lemma CrossingBound<S(!new), A(!new)>(e: Edges<S, A>, start: S, seen: set<S>, expanded: set<S>, low: int, end: S)
    requires start in seen
    requires forall u, a, v :: u in expanded && (u, a, v) in e ==> v in seen
    requires forall q :: q in seen - expanded ==> AtLeast(e, start, q, low)
    requires expanded <= seen && end !in seen
    ensures AtLeast(e, start, end, low + 1)
  {
    forall w | IsWalk(e, start, w, end) ensures |w| >= low + 1 {
      var i := LeaveExpanded(e, start, seen, expanded, w, end);
      WalkPrefix(e, start, w, end, i);
      assert AtLeast(e, start, StateAt(start, w, i), low);
      assert i < |w|;
    }
  }

  /** The first state of a walk that lies outside `expanded`; it is always a seen one. */
  lemma LeaveExpanded<S, A>(e: Edges<S, A>, start: S, seen: set<S>, expanded: set<S>, w: Walk<S, A>, end: S)
    returns (i: nat)
    requires start in seen && IsWalk(e, start, w, end) && end !in expanded
    requires forall u, a, v :: u in expanded && (u, a, v) in e ==> v in seen
    ensures i <= |w| && StateAt(start, w, i) in seen - expanded
  {
    i := 0;
    while StateAt(start, w, i) in expanded
      invariant i <= |w| && StateAt(start, w, i) in seen
      decreases |w| - i
    {
      assert i < |w|;
      assert StepIn(e, start, w, i);
      i := i + 1;
    }
  }
}

module BreadthFirst {
  import opened Common
  import opened Walks

  type Entry<S, A> = (S, Walk<S, A>)

  /** A queue entry carries a shortest walk to its state. */
  ghost predicate EntryOk<S(!new), A(!new)>(e: Edges<S, A>, start: S, entry: Entry<S, A>) {
    IsWalk(e, start, entry.1, entry.0) && AtLeast(e, start, entry.0, |entry.1|)
  }

  /** The queue is ordered by length, and holds at most two lengths at a time. */
  ghost predicate QueueOk<S(!new), A(!new)>(e: Edges<S, A>, start: S, queue: seq<Entry<S, A>>, low: nat) {
    && (forall i :: 0 <= i < |queue| ==> EntryOk(e, start, queue[i]) && low <= |queue[i].1| <= low + 1)
    && (forall i, j :: 0 <= i < j < |queue| ==> |queue[i].1| <= |queue[j].1|)
  }

  ghost function Heads<S, A>(queue: seq<Entry<S, A>>): set<S> {
    set i | 0 <= i < |queue| :: queue[i].0
  }

  ghost predicate Closed<S(!new), A(!new)>(e: Edges<S, A>, expanded: set<S>, visited: set<S>) {
    expanded <= visited && forall u, a, v :: u in expanded && (u, a, v) in e ==> v in visited
  }

  ghost predicate AllAtLeast<S(!new), A(!new)>(e: Edges<S, A>, start: S, states: set<S>, n: int) {
    forall q :: q in states ==> AtLeast(e, start, q, n)
  }

  /** Visited states are expanded, queued, or as far away as the search may look. */
  ghost predicate Frontier<S(!new), A(!new)>(e: Edges<S, A>, start: S, maxDepth: int, visited: set<S>, expanded: set<S>,
                                             far: set<S>, queue: seq<Entry<S, A>>) {
    && start in visited && Closed(e, expanded, visited)
    && visited <= expanded + far + Heads(queue)
    && AllAtLeast(e, start, far, maxDepth)
  }

  lemma HeadsOfAppend<S, A>(queue: seq<Entry<S, A>>, x: Entry<S, A>)
    ensures Heads(queue + [x]) == Heads(queue) + {x.0}
  {
    var longer := queue + [x];
    forall q | q in Heads(queue) + {x.0} ensures q in Heads(longer) {
      if q in Heads(queue) {
        var i :| 0 <= i < |queue| && queue[i].0 == q;
        assert longer[i].0 == q;
      } else {
        assert longer[|queue|].0 == q;
      }
    }
  }

  lemma HeadsOfPop<S, A>(queue: seq<Entry<S, A>>)
    requires queue != []
    ensures Heads(queue) == Heads(queue[1..]) + {queue[0].0}
  {
    forall q | q in Heads(queue) ensures q in Heads(queue[1..]) + {queue[0].0} {
      var i :| 0 <= i < |queue| && queue[i].0 == q;
      if i > 0 { assert queue[1..][i - 1].0 == q; }
    }
    forall q | q in Heads(queue[1..]) ensures q in Heads(queue) {
      var i :| 0 <= i < |queue[1..]| && queue[1..][i].0 == q;
      assert queue[i + 1].0 == q;
    }
  }

  lemma QueueAppend<S(!new), A(!new)>(e: Edges<S, A>, start: S, queue: seq<Entry<S, A>>, low: nat, x: Entry<S, A>)
    requires QueueOk(e, start, queue, low) && EntryOk(e, start, x) && |x.1| == low + 1
    ensures QueueOk(e, start, queue + [x], low)
  {
  }

  lemma QueuePop<S(!new), A(!new)>(e: Edges<S, A>, start: S, queue: seq<Entry<S, A>>, low: nat)
    requires QueueOk(e, start, queue, low) && queue != []
    ensures EntryOk(e, start, queue[0]) && QueueOk(e, start, queue[1..], |queue[0].1|)
  {
    var rest := queue[1..];
    forall i | 0 <= i < |rest| ensures EntryOk(e, start, rest[i]) && |queue[0].1| <= |rest[i].1| <= |queue[0].1| + 1 {
      assert rest[i] == queue[i + 1];
    }
    forall i, j | 0 <= i < j < |rest| ensures |rest[i].1| <= |rest[j].1| {
      assert rest[i] == queue[i + 1] && rest[j] == queue[j + 1];
    }
  }

  /** Below the depth limit, no visited state that is still unexpanded is closer than the head of the queue. */
  lemma LowBound<S(!new), A(!new)>(e: Edges<S, A>, start: S, maxDepth: int, visited: set<S>, expanded: set<S>,
                                   far: set<S>, queue: seq<Entry<S, A>>, low: nat)
    requires Frontier(e, start, maxDepth, visited, expanded, far, queue) && low <= maxDepth
    requires forall i :: 0 <= i < |queue| ==> EntryOk(e, start, queue[i]) && low <= |queue[i].1|
    ensures AllAtLeast(e, start, visited - expanded, low)
  {
    forall q | q in visited - expanded ensures AtLeast(e, start, q, low) {
      if q !in far {
        var i :| 0 <= i < |queue| && queue[i].0 == q;
        assert EntryOk(e, start, queue[i]);
      }
    }
  }

  /** The neighbour loop: every unvisited successor is found at exactly one step more. */
  method Expand<S(==, !new), A(==, !new)>(ghost e: Edges<S, A>, row: seq<(A, S)>, start: S, target: S, node: S,
                                          walk: Walk<S, A>,
                                          visited0: set<S>, queue0: seq<Entry<S, A>>, ghost expanded: set<S>,
                                              ghost universe: set<S>)
    returns (found: Option<Walk<S, A>>, visited: set<S>, queue: seq<Entry<S, A>>)
    requires forall a, v :: (a, v) in row ==> (node, a, v) in e && v in universe
    requires EntryOk(e, start, (node, walk)) && QueueOk(e, start, queue0, |walk|)
    requires start in visited0 && target !in visited0 && visited0 <= universe && Closed(e, expanded, visited0)
    requires AllAtLeast(e, start, visited0 - expanded, |walk|)
    ensures found.Some? ==> |found.value| == |walk| + 1 && EntryOk(e, start, (target, found.value))
    ensures found.None? ==> target !in visited && QueueOk(e, start, queue, |walk|)
    ensures found.None? ==> forall i :: 0 <= i < |row| ==> row[i].1 in visited
    ensures visited0 <= visited <= universe
    ensures Heads(queue) == Heads(queue0) + (visited - visited0)
    ensures visited == visited0 ==> queue == queue0
  {
    found, visited, queue := None, visited0, queue0;
    var i := 0;
    hide QueueOk, AllAtLeast, Closed, IsWalk, Heads;
    while i < |row|
      invariant 0 <= i <= |row|
      invariant visited0 <= visited <= universe
      invariant target !in visited && Closed(e, expanded, visited)
      invariant forall j :: 0 <= j < i ==> row[j].1 in visited
      invariant QueueOk(e, start, queue, |walk|)
      invariant Heads(queue) == Heads(queue0) + (visited - visited0)
      invariant visited == visited0 ==> queue == queue0
      invariant AllAtLeast(e, start, visited - expanded, |walk|)
    {
      var (act, next) := row[i];
      assert (act, next) in row;
      if next !in visited {
        var longer := walk + [(act, next)];
        WalkExtends(e, start, walk, node, act, next);
        OneMoreState(e, start, visited, expanded, |walk|, next);
        assert EntryOk(e, start, (next, longer));
        if next == target {
          found := Some(longer);
          return;
        }
        visited := visited + {next};
        HeadsOfAppend(queue, (next, longer));
        QueueAppend(e, start, queue, |walk|, (next, longer));
        queue := queue + [(next, longer)];
      }
      i := i + 1;
    }
  }

  /** An unseen successor of the state being expanded is one step further away than that state. */
  lemma OneMoreState<S(!new), A(!new)>(e: Edges<S, A>, start: S, visited: set<S>, expanded: set<S>, n: nat, next: S)
    requires start in visited && next !in visited && Closed(e, expanded, visited)
    requires AllAtLeast(e, start, visited - expanded, n)
    ensures AtLeast(e, start, next, n + 1)
    ensures Closed(e, expanded, visited + {next}) && AllAtLeast(e, start, visited + {next} - expanded, n)
  {
    CrossingBound(e, start, visited, expanded, n, next);
    hide IsWalk;
  }

  lemma FrontierSkips<S(!new), A(!new)>(e: Edges<S, A>, start: S, maxDepth: int, visited: set<S>, expanded: set<S>,
                                        far: set<S>, queue: seq<Entry<S, A>>)
    requires Frontier(e, start, maxDepth, visited, expanded, far, queue)
    requires queue != [] && EntryOk(e, start, queue[0]) && |queue[0].1| >= maxDepth
    ensures Frontier(e, start, maxDepth, visited, expanded, far + {queue[0].0}, queue[1..])
  {
    HeadsOfPop(queue);
  }

  lemma FrontierExpands<S(!new), A(!new)>(e: Edges<S, A>, start: S, maxDepth: int, visited0: set<S>, visited: set<S>,
                                          expanded: set<S>,
                                          far: set<S>, queue0: seq<Entry<S, A>>, queue: seq<Entry<S, A>>)
    requires Frontier(e, start, maxDepth, visited0, expanded, far, queue0) && queue0 != [] && queue0[0].0 in visited0
    requires visited0 <= visited && Heads(queue) == Heads(queue0[1..]) + (visited - visited0)
    requires forall a, v :: (queue0[0].0, a, v) in e ==> v in visited
    ensures Frontier(e, start, maxDepth, visited, expanded + {queue0[0].0}, far, queue)
  {
    HeadsOfPop(queue0);
  }

  lemma Shrinks<T>(universe: set<T>, a: set<T>, b: set<T>)
    requires a <= b <= universe && a != b
    ensures universe - b < universe - a
  {
    var x :| x in b && x !in a;
    assert x in universe - a && x !in universe - b;
  }

  /** The search loop over an adjacency index that lists exactly the edges `e`. */
  method Search<S(==, !new), A(==, !new)>(ghost e: Edges<S, A>, adj: map<S, seq<(A, S)>>, start: S, target: S,
                                          maxDepth: int)
    returns (path: Option<Walk<S, A>>)
    requires start != target
    requires forall u, a, v :: (u, a, v) in e <==> u in adj && (a, v) in adj[u]
    ensures path.Some? ==> |path.value| <= maxDepth && EntryOk(e, start, (target, path.value))
    ensures path.None? ==> AtLeast(e, start, target, maxDepth + 1)
  {
    var visited := {start};
    var queue: seq<Entry<S, A>> := [(start, [])];
    ghost var expanded: set<S>, far: set<S>, low: nat := {}, {}, 0;
    ghost var universe := {start} + set k | k in e :: k.2;
    ghost var unseen := universe - visited;
    assert queue[0].0 == start && start in Heads(queue);
    while queue != []
      invariant QueueOk(e, start, queue, low) && Frontier(e, start, maxDepth, visited, expanded, far, queue)
      invariant target !in visited && visited <= universe && Heads(queue) <= visited
      invariant unseen == universe - visited
      decreases unseen, |queue|
    {
      var (node, walk) := queue[0];
      HeadsOfPop(queue);
      QueuePop(e, start, queue, low);
      if |walk| >= maxDepth {
        FrontierSkips(e, start, maxDepth, visited, expanded, far, queue);
        queue := queue[1..];
        far := far + {node};
      } else {
        LowBound(e, start, maxDepth, visited, expanded, far, queue, |walk|);
        ghost var visited0, queue0 := visited, queue;
        var found, row := None, if node in adj then adj[node] else [];
        found, visited, queue := Expand(e, row, start, target, node, walk, visited, queue[1..], expanded, universe);
        if found.Some? {
          return found;
        }
        forall a, v | (node, a, v) in e ensures v in visited { assert (a, v) in row; }
        FrontierExpands(e, start, maxDepth, visited0, visited, expanded, far, queue0, queue);
        expanded := expanded + {node};
        if visited != visited0 { Shrinks(universe, visited0, visited); }
        unseen := universe - visited;
      }
      low := |walk|;
    }
    assert Heads(queue) == {};
    CrossingBound(e, start, visited, expanded, maxDepth, target);
    return None;
  }
}

module TransitionGraphs {
  import opened Common
  import opened Means
  import opened Walks
  import opened BreadthFirst

  datatype Node<S> = Node(state: S, height: nat, width: nat, paletteSize: nat, objectCount: nat)

  datatype Edge = Edge(count: nat, avgCells: real, avgArea: real, histogram: map<string, nat>, examples: seq<int>)

  /** One recorded transition with its measurements. */
  datatype Addition<S, A> = Addition(from: S, act: A, to: S, cells: int, area: int, signatures: seq<string>, step: int)

  function Key<S, A>(x: Addition<S, A>): (S, A, S) { (x.from, x.act, x.to) }

  // ---------------------------------------------------------------- edge statistics

  function Tally(h: map<string, nat>, sigs: seq<string>): map<string, nat> {
    if sigs == [] then h else
      var front := Tally(h, sigs[..|sigs| - 1]);
      var s := sigs[|sigs| - 1];
      front[s := Get(front, s, 0) + 1]
  }

  const NEW_EDGE := Edge(0, 0.0, 0.0, map[], [])

  function Bump<S, A>(e: Edge, x: Addition<S, A>): Edge {
    var n := e.count + 1;
    Edge(n, RunningMean(e.avgCells, n, x.cells as real), RunningMean(e.avgArea, n, x.area as real),
         Tally(e.histogram, x.signatures),
         if |e.examples| < 3 then e.examples + [x.step] else e.examples)
  }

  function SumCells<S, A>(xs: seq<Addition<S, A>>): int {
    if xs == [] then 0 else SumCells(xs[..|xs| - 1]) + xs[|xs| - 1].cells
  }

  function SumArea<S, A>(xs: seq<Addition<S, A>>): int {
    if xs == [] then 0 else SumArea(xs[..|xs| - 1]) + xs[|xs| - 1].area
  }

  function SumOccurrences<S, A>(xs: seq<Addition<S, A>>, s: string): nat {
    if xs == [] then 0 else SumOccurrences(xs[..|xs| - 1], s) + Occurrences(xs[|xs| - 1].signatures, s)
  }

  function Steps<S, A>(xs: seq<Addition<S, A>>): seq<int> {
    seq(|xs|, i requires 0 <= i < |xs| => xs[i].step)
  }

  /** The edge's counters describe exactly the transitions `xs`, kept incrementally. */
  ghost predicate Summarizes<S(!new), A(!new)>(e: Edge, xs: seq<Addition<S, A>>) {
    && e.count == |xs|
    && IsMean(e.avgCells, |xs|, SumCells(xs)) && IsMean(e.avgArea, |xs|, SumArea(xs))
    && (forall s :: Get(e.histogram, s, 0) == SumOccurrences(xs, s))
    && e.examples == (if |xs| <= 3 then Steps(xs) else Steps(xs)[..3])
  }

  lemma {:induction false} TallyExact(h: map<string, nat>, sigs: seq<string>, s: string)
    ensures Get(Tally(h, sigs), s, 0) == Get(h, s, 0) + Occurrences(sigs, s)
  {
    if sigs != [] { TallyExact(h, sigs[..|sigs| - 1], s); }
  }

  lemma BumpSummarizes<S(!new), A(!new)>(e: Edge, xs: seq<Addition<S, A>>, x: Addition<S, A>)
    requires Summarizes(e, xs)
    ensures Summarizes(Bump(e, x), xs + [x])
  {
    var ys := xs + [x];
    assert ys[..|ys| - 1] == xs;
    RunningMeanIsExact(e.avgCells, |xs|, SumCells(xs), x.cells);
    RunningMeanIsExact(e.avgArea, |xs|, SumArea(xs), x.area);
    forall s ensures Get(Bump(e, x).histogram, s, 0) == SumOccurrences(ys, s) {
      TallyExact(e.histogram, x.signatures, s);
    }
    assert Steps(ys) == Steps(xs) + [x.step];
  }

  /** The recorded transitions with a given key, in order. */
  ghost function Select<S, A>(log: seq<Addition<S, A>>, key: (S, A, S)): seq<Addition<S, A>> {
    if log == [] then [] else
      var front := Select(log[..|log| - 1], key);
      if Key(log[|log| - 1]) == key then front + [log[|log| - 1]] else front
  }

  lemma SelectAppend<S(!new), A(!new)>(log: seq<Addition<S, A>>, x: Addition<S, A>)
    ensures forall k :: Select(log + [x], k) == if Key(x) == k then Select(log, k) + [x] else Select(log, k)
  {
    assert (log + [x])[..|log|] == log;
  }

  /** Every node is indexed, and the index lists each key of the edge map exactly once. */
  ghost predicate Indexed<S(!new), A(!new)>(nodes: map<S, Node<S>>, edges: map<(S, A, S), Edge>,
                                            adj: map<S, seq<(A, S)>>)
  {
    && (forall s :: s in nodes ==> s in adj && nodes[s].state == s)
    && (forall s :: s in adj ==> Distinct(adj[s]))
    && (forall s, a, t :: (s, a, t) in edges <==> s in adj && (a, t) in adj[s])
  }

  /** The edges are those of the log, each with exact statistics. */
  ghost predicate Exact<S(!new), A(!new)>(edges: map<(S, A, S), Edge>, log: seq<Addition<S, A>>) {
    && (forall k :: k in edges <==> Select(log, k) != [])
    && (forall k :: k in edges ==> Summarizes(edges[k], Select(log, k)))
  }

  lemma NewEdgeSummarizes<S(!new), A(!new)>()
    ensures Summarizes<S, A>(NEW_EDGE, [])
  {
  }

  lemma ExactAfter<S(!new), A(!new)>(edges: map<(S, A, S), Edge>, log: seq<Addition<S, A>>, x: Addition<S, A>)
    requires Exact(edges, log)
    ensures Exact(edges[Key(x) := Bump(Get(edges, Key(x), NEW_EDGE), x)], log + [x])
  {
    NewEdgeSummarizes<S, A>();
    hide Summarizes, Select, Bump;
    SelectAppend(log, x);
    var key := Key(x);
    var edge := Get(edges, key, NEW_EDGE);
    assert key !in edges ==> Select(log, key) == [];
    BumpSummarizes(edge, Select(log, key), x);
  }

  lemma IndexedAfter<S(!new), A(!new)>(nodes: map<S, Node<S>>, edges: map<(S, A, S), Edge>, adj: map<S, seq<(A, S)>>,
                                       from: S, act: A, to: S, edge: Edge)
    requires Indexed(nodes, edges, adj)
    ensures (from, act, to) in edges ==> Indexed(nodes, edges[(from, act, to) := edge], adj)
    ensures (from, act, to) !in edges ==>
      Indexed(nodes, edges[(from, act, to) := edge], adj[from := Get(adj, from, []) + [(act, to)]])
  {
    if (from, act, to) !in edges {
      var row := Get(adj, from, []);
      var longer := row + [(act, to)];
      assert forall i :: 0 <= i < |row| ==> row[i] in row;
      assert Distinct(longer);
      forall a, t ensures (a, t) in longer <==> (a, t) in row || (a, t) == (act, to) {
        if (a, t) in row { var i :| 0 <= i < |row| && row[i] == (a, t); assert longer[i] == (a, t); }
        if (a, t) == (act, to) { assert longer[|row|] == (a, t); }
      }
    }
  }

  class TransitionGraphStore<S(==, !new), A(==, !new)> {
    var nodes: map<S, Node<S>>
    var edges: map<(S, A, S), Edge>
    var adj: map<S, seq<(A, S)>>
    ghost var log: seq<Addition<S, A>>

    ghost predicate Valid()
      reads this
    {
      Indexed(nodes, edges, adj) && Exact(edges, log)
    }

    constructor ()
      ensures Valid() && nodes == map[] && edges == map[] && log == []
    {
      nodes, edges, adj, log := map[], map[], map[], [];
    }

    method AddNode(node: Node<S>)
      requires Valid()
      modifies this
      ensures Valid() && edges == old(edges) && log == old(log)
      ensures nodes == if node.state in old(nodes) then old(nodes) else old(nodes)[node.state := node]
    {
      if node.state !in nodes {
        nodes := nodes[node.state := node];
        if node.state !in adj {
          adj := adj[node.state := []];
        }
      }
    }

    method AddEdge(x: Addition<S, A>)
      requires Valid()
      modifies this
      ensures Valid() && nodes == old(nodes) && log == old(log) + [x]
      ensures edges == old(edges)[Key(x) := Bump(Get(old(edges), Key(x), NEW_EDGE), x)]
    {
      hide Exact, Indexed, Bump;
      var edge := Get(edges, Key(x), NEW_EDGE);
      ExactAfter(edges, log, x);
      IndexedAfter(nodes, edges, adj, x.from, x.act, x.to, Bump(edge, x));
      if Key(x) !in edges {
        adj := adj[x.from := Get(adj, x.from, []) + [(x.act, x.to)]];
      }
      edges := edges[Key(x) := Bump(edge, x)];
      log := log + [x];
    }

    /**
     Breadth-first search: for distinct ends, a shortest recorded walk when one of length at
     most `maxDepth` exists, and none exactly when there is none. For equal ends, no steps.
     */
    method BfsPath(start: S, target: S, maxDepth: int) returns (path: Option<Walk<S, A>>)
      requires Valid()
      ensures start == target ==> path == Some([])
      ensures start != target && path.Some? ==>
        |path.value| <= maxDepth && IsWalk(edges.Keys, start, path.value, target)
      ensures start != target && path.Some? ==> AtLeast(edges.Keys, start, target, |path.value|)
      ensures path.None? ==> start != target && AtLeast(edges.Keys, start, target, maxDepth + 1)
    {
      if start == target {
        return Some([]);
      }
      if start !in adj {
        NoWalkFromUnindexed(start, target, maxDepth + 1);
        return None;
      }
      path := Search(edges.Keys, adj, start, target, maxDepth);
    }

    lemma NoWalkFromUnindexed(start: S, target: S, n: int)
      requires Valid() && start !in adj && start != target
      ensures AtLeast(edges.Keys, start, target, n)
    {
      forall w: Walk<S, A> ensures !IsWalk(edges.Keys, start, w, target) {
        if |w| > 0 { assert (start, w[0].0, w[0].1) !in edges && !StepIn(edges.Keys, start, w, 0); }
      }
    }
  }

  /** The search's answer decides reachability within the limit. */
  lemma AnswerDecides<S(!new), A(!new)>(e: Edges<S, A>, start: S, target: S, maxDepth: int, path: Option<Walk<S, A>>)
    requires path.Some? ==> |path.value| <= maxDepth && IsWalk(e, start, path.value, target)
    requires path.None? ==> AtLeast(e, start, target, maxDepth + 1)
    ensures path.Some? <==> exists w :: IsWalk(e, start, w, target) && |w| <= maxDepth
  {
  }
}
