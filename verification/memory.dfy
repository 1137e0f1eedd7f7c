/**
 The memory state of memory.py: one update feeds the per-action record, the table of
 state-action pairs and, for a click with known coordinates, the action's coordinate table.
 */
module Memory {
  import opened Common
  import opened Decimals
  import opened Means
  import opened ActionMemory
  import opened MemoryTables

  datatype Action = Simple(name: string) | Coord(id: Option<string>, at: Option<(int, int)>)

  function CoordKey(at: (int, int)): string {
    Decimal(at.0) + "," + Decimal(at.1)
  }

  lemma {:induction false} CommaFree(n: nat)
    ensures ',' !in Natural(n)
    decreases n
  {
    if n >= 10 { CommaFree(n / 10); }
  }

  /** Equal texts have equal parts before and after the first separator. */
  lemma SplitAt(a: string, b: string, c: string, d: string, mark: char)
    requires mark !in a && mark !in c && a + [mark] + b == c + [mark] + d
    ensures a == c && b == d
  {
    var left, right := a + [mark] + b, c + [mark] + d;
    assert left[|a|] == mark && right[|c|] == mark;
    assert left[..|a|] == a && right[..|c|] == c && left[|a| + 1..] == b && right[|c| + 1..] == d;
  }

  /** Two coordinates share a row only when they are equal. */
  lemma CoordKeyDetermines(a: (int, int), b: (int, int))
    requires CoordKey(a) == CoordKey(b)
    ensures a == b
  {
    CommaFree(Abs(a.0));
    CommaFree(Abs(b.0));
    SplitAt(Decimal(a.0), Decimal(a.1), Decimal(b.0), Decimal(b.1), ',');
    DecimalDetermines(a.0, b.0);
    DecimalDetermines(a.1, b.1);
  }

  /** The key of an action; absent only for a simple action without an id. */
  function ActionKey(a: Action): Option<string> {
    match a
    case Simple(name) => if name == "" then None else Some(name)
    case Coord(id, at) =>
      Some((if id.None? then "None" else id.value) + "@" + (if at.None? then "None,None" else CoordKey(at.value)))
  }

  /** Only a simple action without a name has no key. */
  lemma KeyIsAbsent(a: Action)
    ensures ActionKey(a).None? <==> a == Simple("")
  {
  }

  /** Simple actions with different names have different keys, and so have clicks of proper ids. */
  lemma ActionKeyDetermines(a: Action, b: Action)
    requires ActionKey(a).Some? && ActionKey(a) == ActionKey(b) && a.Simple? == b.Simple?
    requires forall x :: x in {a, b} && x.Coord? ==> x.id.Some? && x.at.Some? && '@' !in x.id.value
    ensures a == b
  {
    if a.Coord? {
      SplitAt(a.id.value, CoordKey(a.at.value), b.id.value, CoordKey(b.at.value), '@');
      CoordKeyDetermines(a.at.value, b.at.value);
    }
  }

  datatype StateActionCounts = StateActionCounts(attempts: nat, noEffects: nat, lastEffect: Option<int>)

  datatype CoordCounts = CoordCounts(attempts: nat, noEffects: nat, avgCells: real)

  /** The row counts the touches since its key last fell out. */
  ghost predicate CountsTenure(stats: StateActionCounts, l: seq<Touch>) {
    stats.attempts == |l| && stats.noEffects == NoEffects(l) && stats.lastEffect == LastEffect(l)
  }

  ghost predicate CountsCoordTenure(stats: CoordCounts, l: seq<Touch>) {
    stats.attempts == |l| && stats.noEffects == NoEffects(l) && IsMean(stats.avgCells, |l|, Changed(l))
  }

  ghost predicate StateRowsHold(table: map<string, Row<StateActionCounts>>, log: seq<Touch>, limit: int) {
    && MostRecent(table, log, limit)
    && forall k :: k in table ==> CountsTenure(table[k].stats, Tenure(log, k, limit))
  }

  ghost predicate CoordRowsHold(table: map<string, Row<CoordCounts>>, log: seq<Touch>, limit: int) {
    && MostRecent(table, log, limit)
    && forall k :: k in table ==> CountsCoordTenure(table[k].stats, Tenure(log, k, limit))
  }

  lemma TenureTotals(l: seq<Touch>, t: Touch)
    ensures NoEffects(l + [t]) == NoEffects(l) + if t.noEffect then 1 else 0
    ensures Changed(l + [t]) == Changed(l) + t.changed
    ensures LastEffect(l + [t]) == if t.noEffect then LastEffect(l) else Some(t.step)
  {
    assert (l + [t])[..|l|] == l;
  }

  const NO_STATE_ACTION := StateActionCounts(0, 0, None)
  const NO_COORD := CoordCounts(0, 0, 0.0)

  /** A kept row is the touched one with its tenure extended, or an old one with its tenure as it was. */
  lemma RowKept<S>(table: map<string, Row<S>>, log: seq<Touch>, limit: int, t: Touch, next: S,
                   kept: map<string, Row<S>>, k: string)
    requires MostRecent(table, log, limit) && k in kept
    requires Evicted(table[t.key := Row(next, t.step)], limit, kept)
    ensures k != t.key ==>
      k in table && kept[k] == table[k] && Tenure(log + [t], k, limit) == Tenure(log, k, limit)
    ensures k == t.key ==>
      kept[k].stats == next && Tenure(log + [t], k, limit) == (if k in table then Tenure(log, k, limit) else []) + [t]
  {
    HeldExactlyWhenRecent(table, log, limit, t.key);
    TenureLast(log, t, k, limit);
  }

  lemma StateRowsKept(table: map<string, Row<StateActionCounts>>, log: seq<Touch>, limit: int, t: Touch,
                      next: StateActionCounts, kept: map<string, Row<StateActionCounts>>)
    requires StateRowsHold(table, log, limit) && NextInOrder(log, t)
    requires CountsTenure(next, (if t.key in table then Tenure(log, t.key, limit) else []) + [t])
    requires Evicted(table[t.key := Row(next, t.step)], limit, kept)
    ensures StateRowsHold(kept, log + [t], limit)
  {
    TouchKeepsRecent(table, log, limit, t, next, kept);
    forall k | k in kept ensures CountsTenure(kept[k].stats, Tenure(log + [t], k, limit)) {
      RowKept(table, log, limit, t, next, kept, k);
    }
  }

  lemma CoordRowsKept(table: map<string, Row<CoordCounts>>, log: seq<Touch>, limit: int, t: Touch,
                      next: CoordCounts, kept: map<string, Row<CoordCounts>>)
    requires CoordRowsHold(table, log, limit) && NextInOrder(log, t)
    requires CountsCoordTenure(next, (if t.key in table then Tenure(log, t.key, limit) else []) + [t])
    requires Evicted(table[t.key := Row(next, t.step)], limit, kept)
    ensures CoordRowsHold(kept, log + [t], limit)
  {
    TouchKeepsRecent(table, log, limit, t, next, kept);
    forall k | k in kept ensures CountsCoordTenure(kept[k].stats, Tenure(log + [t], k, limit)) {
      RowKept(table, log, limit, t, next, kept, k);
    }
  }

  function CountStateTouch(stats: StateActionCounts, t: Touch): StateActionCounts {
    StateActionCounts(stats.attempts + 1, stats.noEffects + (if t.noEffect then 1 else 0),
                      if t.noEffect then stats.lastEffect else Some(t.step))
  }

  lemma CountStateTouchIsExact(stats: StateActionCounts, l: seq<Touch>, t: Touch)
    requires CountsTenure(stats, l)
    ensures CountsTenure(CountStateTouch(stats, t), l + [t])
  {
    TenureTotals(l, t);
  }

  method TouchStateAction(table: map<string, Row<StateActionCounts>>, ghost log: seq<Touch>, limit: int, t: Touch)
    returns (kept: map<string, Row<StateActionCounts>>)
    requires InOrder(log) ==> StateRowsHold(table, log, limit)
    ensures InOrder(log + [t]) ==> StateRowsHold(kept, log + [t], limit)
    ensures limit > 0 ==> |kept| <= limit
  {
    hide InOrder, NextInOrder, MostRecent, Tenure, CountStateTouch;
    var stats := if t.key in table then table[t.key].stats else NO_STATE_ACTION;
    var next := CountStateTouch(stats, t);
    kept := Evict(table[t.key := Row(next, t.step)], limit);
    if InOrder(log + [t]) {
      InOrderLast(log, t);
      ghost var l := if t.key in table then Tenure(log, t.key, limit) else [];
      assert CountsTenure(stats, l);
      CountStateTouchIsExact(stats, l, t);
      StateRowsKept(table, log, limit, t, next, kept);
    }
  }

  function CountTouch(stats: CoordCounts, t: Touch): CoordCounts {
    var attempts := stats.attempts + 1;
    CoordCounts(attempts, stats.noEffects + (if t.noEffect then 1 else 0),
                RunningMean(stats.avgCells, attempts, t.changed as real))
  }

  lemma CountTouchIsExact(stats: CoordCounts, l: seq<Touch>, t: Touch)
    requires CountsCoordTenure(stats, l)
    ensures CountsCoordTenure(CountTouch(stats, t), l + [t])
  {
    TenureTotals(l, t);
    RunningMeanIsExact(stats.avgCells, |l|, Changed(l), t.changed);
  }

  ghost predicate HeatmapHolds(table: map<string, Row<CoordCounts>>, log: seq<Touch>, limit: int) {
    var recent := InOrder(log) ==> CoordRowsHold(table, log, limit);
    recent && (limit > 0 ==> |table| <= limit)
  }

  lemma EmptyTableHolds(limit: int)
    ensures HeatmapHolds(map[], [], limit)
  {
    assert Touched([]) == {};
  }

  method TouchCoord(table: map<string, Row<CoordCounts>>, ghost log: seq<Touch>, limit: int, t: Touch)
    returns (kept: map<string, Row<CoordCounts>>)
    requires HeatmapHolds(table, log, limit)
    ensures HeatmapHolds(kept, log + [t], limit)
  {
    hide InOrder, NextInOrder, MostRecent, Tenure, CountTouch;
    var stats := if t.key in table then table[t.key].stats else NO_COORD;
    var next := CountTouch(stats, t);
    kept := Evict(table[t.key := Row(next, t.step)], limit);
    if InOrder(log + [t]) {
      InOrderLast(log, t);
      CountTouchIsExact(stats, if t.key in table then Tenure(log, t.key, limit) else [], t);
      CoordRowsKept(table, log, limit, t, next, kept);
    }
  }

  /** The touches of one action's coordinate table; none before the table exists. */
  ghost function TouchesOf(logs: map<string, seq<Touch>>, id: string): seq<Touch> {
    if id in logs then logs[id] else []
  }

  /** The actions whose coordinate table is least-recently-used over the touches it received, and bounded. */
  ghost function SoundHeatmaps(tables: map<string, map<string, Row<CoordCounts>>>, logs: map<string, seq<Touch>>,
                               limit: int): set<string>
  {
    set id | id in tables && id in logs && HeatmapHolds(tables[id], logs[id], limit)
  }

  /** Every action's table is sound, and has a log. */
  ghost predicate HeatmapsHold(tables: map<string, map<string, Row<CoordCounts>>>, logs: map<string, seq<Touch>>,
                               limit: int) {
    tables.Keys == logs.Keys == SoundHeatmaps(tables, logs, limit)
  }

  lemma HeatmapsExtended(tables: map<string, map<string, Row<CoordCounts>>>, logs: map<string, seq<Touch>>, limit: int,
                         id: string, table: map<string, Row<CoordCounts>>, log: seq<Touch>)
    requires HeatmapsHold(tables, logs, limit) && HeatmapHolds(table, log, limit)
    ensures HeatmapsHold(tables[id := table], logs[id := log], limit)
  {
    hide HeatmapHolds;
    assert SoundHeatmaps(tables[id := table], logs[id := log], limit) == SoundHeatmaps(tables, logs, limit) + {id};
  }

  /** One action's table with its touch; it is created empty on first use. */
  method TouchTable(tables: map<string, map<string, Row<CoordCounts>>>, ghost logs: map<string, seq<Touch>>, limit: int,
                    id: string, t: Touch)
    returns (table: map<string, Row<CoordCounts>>)
    requires HeatmapsHold(tables, logs, limit)
    ensures HeatmapHolds(table, TouchesOf(logs, id) + [t], limit)
  {
    if id in tables {
      assert id in SoundHeatmaps(tables, logs, limit);
      table := TouchCoord(tables[id], logs[id], limit, t);
    } else {
      EmptyTableHolds(limit);
      table := TouchCoord(map[], [], limit, t);
    }
  }

  class MemoryState {
    var perAction: map<string, ActionEfficacy>
    var perStateAction: map<string, Row<StateActionCounts>>
    var coordHeatmaps: map<string, map<string, Row<CoordCounts>>>
    const stateActionMax: int
    const coordMax: int

    /** Every update so far, and the touches each table received. */
    ghost var observations: seq<Observation>
    ghost var stateTouches: seq<Touch>
    ghost var coordTouches: map<string, seq<Touch>>

    ghost predicate Valid()
      reads this
    {
      && Built(perAction, observations)
      && (InOrder(stateTouches) ==> StateRowsHold(perStateAction, stateTouches, stateActionMax))
      && (stateActionMax > 0 ==> |perStateAction| <= stateActionMax)
      && HeatmapsHold(coordHeatmaps, coordTouches, coordMax)
    }

    constructor (stateActionMax: int, coordMax: int)
      ensures Valid() && observations == [] && stateTouches == [] && coordTouches == map[]
      ensures this.stateActionMax == stateActionMax && this.coordMax == coordMax
    {
      this.stateActionMax := stateActionMax;
      this.coordMax := coordMax;
      perAction, perStateAction, coordHeatmaps := map[], map[], map[];
      observations, stateTouches, coordTouches := [], [], map[];
    }

    /** memory_update for the counting tables; nothing happens to an action without a key. */
    method Update(stateHash: string, action: Action, changed: int, area: int, kinds: seq<string>,
                  source: Option<string>, step: int) returns (updated: bool)
      requires Valid()
      modifies this
      ensures Valid() && updated == ActionKey(action).Some?
      ensures !updated ==> unchanged(this)
      ensures updated ==> observations ==
                          old(observations) + [Observation(ActionKey(action).value, changed, area, kinds, source, step)]
      ensures updated ==> stateTouches == old(stateTouches) +
                          [Touch(stateHash + "|" + ActionKey(action).value, step, changed == 0, changed)]
      ensures updated ==> coordTouches ==
                          if action.Coord? && action.id.Some? && action.at.Some? then
                            var id := action.id.value;
                            old(coordTouches)[id := TouchesOf(old(coordTouches), id) +
                                                    [Touch(CoordKey(action.at.value), step, changed == 0, changed)]]
                          else old(coordTouches)
    {
      hide Built, StateRowsHold, HeatmapsHold, CoordKey;
      var key := ActionKey(action);
      if key.None? { return false; }
      var o := Observation(key.value, changed, area, kinds, source, step);
      perAction := Record(perAction, observations, o);
      observations := observations + [o];
      var t := Touch(stateHash + "|" + key.value, step, changed == 0, changed);
      perStateAction := TouchStateAction(perStateAction, stateTouches, stateActionMax, t);
      stateTouches := stateTouches + [t];
      if action.Coord? && action.id.Some? && action.at.Some? {
        UpdateCoordHeatmap(action.id.value, Touch(CoordKey(action.at.value), step, changed == 0, changed));
      }
      updated := true;
    }

    method UpdateCoordHeatmap(id: string, t: Touch)
      requires HeatmapsHold(coordHeatmaps, coordTouches, coordMax)
      modifies `coordHeatmaps, `coordTouches
      ensures HeatmapsHold(coordHeatmaps, coordTouches, coordMax)
      ensures coordTouches == old(coordTouches)[id := TouchesOf(old(coordTouches), id) + [t]]
      ensures id in coordHeatmaps && coordHeatmaps == old(coordHeatmaps)[id := coordHeatmaps[id]]
    {
      hide HeatmapHolds;
      ghost var log := TouchesOf(coordTouches, id) + [t];
      var table := TouchTable(coordHeatmaps, coordTouches, coordMax, id, t);
      HeatmapsExtended(coordHeatmaps, coordTouches, coordMax, id, table, log);
      coordHeatmaps := coordHeatmaps[id := table];
      coordTouches := coordTouches[id := log];
    }
  }
}
