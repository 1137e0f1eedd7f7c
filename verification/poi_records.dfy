/**
 POI records as values and the consequence log (hypothesis_store.py, focused_explorer.py):
 what one visit does to a record, and what replaying a log of visits does to a whole store.
 */
module PoiRecords {
  import opened Common

  const CONFIDENCE_NEW := 0.5
  const CONFIDENCE_BIG := 1.0
  const CONFIDENCE_NONE_DELTA := -0.3
  const STALE_VERSIONS := 4
  const STALE_VERSIONS_UNVISITED := 8
  const MAX_REVISITS := 6

  datatype Tag = Self | Enemy | Target | Hud | Unknown

  datatype Consequence = BigChange | SmallChange | NoChange | GameWon | LevelChange | Unreachable

  type BBox = (int, int, int, int)

  datatype Poi = Poi(
    poiId: string, bbox: BBox, colors: seq<int>, tag: Tag, reachable: bool, visited: bool,
    consequence: Option<Consequence>, confidence: real, version: int, identityKey: string,
    motionDetected: bool, depriority: bool, pixelHash: Option<string>, visitCount: nat,
    lastConsequence: Option<Consequence>)

  /** Every POI of a store by id. */
  type View = map<string, Poi>

  // ---------------------------------------------------------------- one visit

  function UpdatedConfidence(confidence: real, result: Consequence): real {
    match result
    case BigChange => CONFIDENCE_BIG
    case SmallChange => if confidence + 0.2 <= 1.0 then confidence + 0.2 else 1.0
    case NoChange => if confidence + CONFIDENCE_NONE_DELTA >= 0.0 then confidence + CONFIDENCE_NONE_DELTA else 0.0
    case _ => confidence
  }

  function Visited(p: Poi, result: Consequence): Poi {
    var count := p.visitCount + 1;
    p.(visitCount := count, visited := true, lastConsequence := Some(result), consequence := Some(result),
       confidence := UpdatedConfidence(p.confidence, result),
       depriority := if result == BigChange then false
                     else if result == NoChange && count >= MAX_REVISITS then true else p.depriority)
  }

  /** The confidence after the same result several times in a row. */
  ghost function AfterRepeats(confidence: real, result: Consequence, n: nat): real {
    if n == 0 then confidence else UpdatedConfidence(AfterRepeats(confidence, result, n - 1), result)
  }

  /**
   A big change restores full confidence; small ones add 0.2 each up to 1 and missing ones take
   0.3 each down to 0, whatever came before; the other results leave it alone.
   */
  lemma {:induction false} RepeatedResults(confidence: real, n: nat)
    requires 0.0 <= confidence <= 1.0
    ensures n > 0 ==> AfterRepeats(confidence, BigChange, n) == 1.0
    ensures AfterRepeats(confidence, SmallChange, n) == Least(confidence + 0.2 * n as real, 1.0)
    ensures AfterRepeats(confidence, NoChange, n) == Greatest(confidence - 0.3 * n as real, 0.0)
    ensures forall r :: r in {GameWon, LevelChange, Unreachable} ==> AfterRepeats(confidence, r, n) == confidence
  {
    if n > 0 { RepeatedResults(confidence, n - 1); }
  }

  ghost function Least(a: real, b: real): real { if a <= b then a else b }

  ghost function Greatest(a: real, b: real): real { if a >= b then a else b }

  predicate Eligible(p: Poi) {
    && p.tag != Self && p.tag != Hud && p.reachable && !p.depriority
    && (!p.visited || (p.lastConsequence == Some(BigChange) && p.visitCount < MAX_REVISITS))
  }

  /** Of the results of a visit only a big change below the limit leaves a target, whatever the record was before. */
  lemma EligibleAfterVisit(p: Poi, result: Consequence)
    ensures Eligible(Visited(p, result)) <==>
      result == BigChange && p.visitCount + 1 < MAX_REVISITS && p.tag !in {Self, Hud} && p.reachable
    ensures !p.visited ==> (Eligible(p) <==> p.tag !in {Self, Hud} && p.reachable && !p.depriority)
    ensures Visited(p, result).depriority <==>
      result != BigChange && (p.depriority || (result == NoChange && p.visitCount + 1 >= MAX_REVISITS))
  {
  }

  /** What every record keeps: a confidence in [0, 1], and visits counted from the first. */
  predicate Sane(p: Poi) {
    0.0 <= p.confidence <= 1.0 && (p.visited <==> p.visitCount > 0)
  }

  lemma VisitKeepsSane(p: Poi, result: Consequence)
    requires Sane(p)
    ensures Sane(Visited(p, result))
  {
  }

  // ---------------------------------------------------------------- the log

  /** A visit of a POI, or a new pixel hash for one. */
  datatype Event = Visit(id: string, result: Consequence) | Rehash(id: string, hash: string)

  function Happened(p: Poi, e: Event): Poi {
    match e
    case Visit(_, result) => Visited(p, result)
    case Rehash(_, hash) => p.(pixelHash := Some(hash))
  }

  /** An event on an unknown POI does nothing. */
  function Apply(v: View, e: Event): View {
    if e.id in v then v[e.id := Happened(v[e.id], e)] else v
  }

  function Replay(v: View, log: seq<Event>): View {
    if log == [] then v else Apply(Replay(v, log[..|log| - 1]), log[|log| - 1])
  }

  lemma ReplayLast(v: View, log: seq<Event>, e: Event)
    ensures Replay(v, log + [e]) == Apply(Replay(v, log), e)
  {
    assert (log + [e])[..|log|] == log;
  }

  lemma {:induction false} ReplayConcat(v: View, a: seq<Event>, b: seq<Event>)
    ensures Replay(v, a + b) == Replay(Replay(v, a), b)
  {
    if b == [] {
      assert a + b == a;
    } else {
      ReplayConcat(v, a, b[..|b| - 1]);
      assert (a + b)[..|a + b| - 1] == a + b[..|b| - 1];
    }
  }

  /** How often a POI was visited, and with what result last. */
  ghost function Visits(log: seq<Event>, id: string): (n: nat)
    ensures n <= |log|
  {
    if log == [] then 0 else
      Visits(log[..|log| - 1], id) + (if log[|log| - 1].Visit? && log[|log| - 1].id == id then 1 else 0)
  }

  ghost function LastResult(log: seq<Event>, id: string): (r: Option<Consequence>)
    ensures r.Some? <==> Visits(log, id) > 0
  {
    if log == [] then None
    else if log[|log| - 1].Visit? && log[|log| - 1].id == id then Some(log[|log| - 1].result)
    else LastResult(log[..|log| - 1], id)
  }

  ghost function LastHash(log: seq<Event>, id: string): Option<string> {
    if log == [] then None
    else if log[|log| - 1].Rehash? && log[|log| - 1].id == id then Some(log[|log| - 1].hash)
    else LastHash(log[..|log| - 1], id)
  }

  ghost function OrElse<T>(a: Option<T>, b: Option<T>): Option<T> {
    if a.Some? then a else b
  }

  /** Replay adds the occurrences in the log to the visit counts and leaves the last label and hash. */
  lemma {:induction false} ReplayCounts(v: View, log: seq<Event>, id: string)
    requires id in v
    ensures Replay(v, log).Keys == v.Keys
    ensures var p := Replay(v, log)[id];
      && p.visitCount == v[id].visitCount + Visits(log, id)
      && p.lastConsequence == OrElse(LastResult(log, id), v[id].lastConsequence)
      && p.consequence == OrElse(LastResult(log, id), v[id].consequence)
      && p.pixelHash == OrElse(LastHash(log, id), v[id].pixelHash)
      && (p.visited <==> v[id].visited || Visits(log, id) > 0)
  {
    if log != [] { ReplayCounts(v, log[..|log| - 1], id); }
  }

  lemma {:induction false} ReplayKeys(v: View, log: seq<Event>)
    ensures Replay(v, log).Keys == v.Keys
  {
    if log != [] { ReplayKeys(v, log[..|log| - 1]); }
  }

  lemma {:induction false} ReplayKeepsSane(v: View, log: seq<Event>)
    requires forall id :: id in v ==> Sane(v[id])
    ensures Replay(v, log).Keys == v.Keys && forall id :: id in v ==> Sane(Replay(v, log)[id])
  {
    if log != [] {
      var rest, e := log[..|log| - 1], log[|log| - 1];
      ReplayKeepsSane(v, rest);
      if e.id in v && e.Visit? { VisitKeepsSane(Replay(v, rest)[e.id], e.result); }
    }
  }

  // ---------------------------------------------------------------- visits first, hashes after

  ghost function VisitsOnly(log: seq<Event>): seq<Event> {
    if log == [] then []
    else if log[|log| - 1].Visit? then VisitsOnly(log[..|log| - 1]) + [log[|log| - 1]]
    else VisitsOnly(log[..|log| - 1])
  }

  ghost function HashesOnly(log: seq<Event>): seq<Event> {
    if log == [] then []
    else if log[|log| - 1].Rehash? then HashesOnly(log[..|log| - 1]) + [log[|log| - 1]]
    else HashesOnly(log[..|log| - 1])
  }

  lemma LogExtends(log: seq<Event>, e: Event)
    ensures VisitsOnly(log + [e]) == if e.Visit? then VisitsOnly(log) + [e] else VisitsOnly(log)
    ensures HashesOnly(log + [e]) == if e.Rehash? then HashesOnly(log) + [e] else HashesOnly(log)
  {
    assert (log + [e])[..|log|] == log;
  }

  ghost predicate AllHashes(log: seq<Event>) {
    forall i :: 0 <= i < |log| ==> log[i].Rehash?
  }

  /** A visit can be moved before any pixel-hash updates. */
  lemma {:induction false} VisitCommutes(v: View, hashes: seq<Event>, e: Event)
    requires AllHashes(hashes) && e.Visit?
    ensures Apply(Replay(v, hashes), e) == Replay(Apply(v, e), hashes)
  {
    if hashes != [] {
      var rest, h := hashes[..|hashes| - 1], hashes[|hashes| - 1];
      VisitCommutes(v, rest, e);
      SwapEvents(Replay(v, rest), h, e);
    }
  }

  lemma SwapEvents(v: View, h: Event, e: Event)
    requires h.Rehash? && e.Visit?
    ensures Apply(Apply(v, h), e) == Apply(Apply(v, e), h)
  {
  }

  /** Hashes change nothing but the pixel hash. */
  lemma {:induction false} HashesOnlyRehash(v: View, hashes: seq<Event>, id: string)
    requires AllHashes(hashes) && id in v
    ensures id in Replay(v, hashes) && Replay(v, hashes)[id] == v[id].(pixelHash := Replay(v, hashes)[id].pixelHash)
  {
    if hashes != [] { HashesOnlyRehash(v, hashes[..|hashes| - 1], id); }
  }

  lemma {:induction false} HashesAreHashes(log: seq<Event>)
    ensures AllHashes(HashesOnly(log))
  {
    if log != [] { HashesAreHashes(log[..|log| - 1]); }
  }

  lemma {:induction false} VisitsAreVisits(log: seq<Event>)
    ensures forall i :: 0 <= i < |VisitsOnly(log)| ==> VisitsOnly(log)[i].Visit?
  {
    if log != [] { VisitsAreVisits(log[..|log| - 1]); }
  }

  /**
   The parallel merge applies all visits and then all hashes; that gives what the worker's own
   copy went through step by step.
   */
  lemma {:induction false} MergeMatchesWorker(v: View, log: seq<Event>)
    ensures Replay(Replay(v, VisitsOnly(log)), HashesOnly(log)) == Replay(v, log)
  {
    if log != [] {
      var rest, e := log[..|log| - 1], log[|log| - 1];
      var visits, hashes := VisitsOnly(rest), HashesOnly(rest);
      MergeMatchesWorker(v, rest);
      if e.Visit? {
        ReplayLast(v, visits, e);
        HashesAreHashes(rest);
        VisitCommutes(Replay(v, visits), hashes, e);
      } else {
        ReplayLast(Replay(v, visits), hashes, e);
      }
    }
  }

  lemma {:induction false} VisitsOnlyConcat(a: seq<Event>, b: seq<Event>)
    ensures VisitsOnly(a + b) == VisitsOnly(a) + VisitsOnly(b)
    ensures HashesOnly(a + b) == HashesOnly(a) + HashesOnly(b)
  {
    if b == [] {
      assert a + b == a;
    } else {
      VisitsOnlyConcat(a, b[..|b| - 1]);
      assert (a + b)[..|a + b| - 1] == a + b[..|b| - 1];
    }
  }

  // ---------------------------------------------------------------- the visits of one sequential run

  /** The log a sequential run can produce: every visit goes to a POI that is eligible when it happens. */
  ghost predicate VisitsEligible(v: View, log: seq<Event>) {
    log == [] ||
    (VisitsEligible(v, log[..|log| - 1]) &&
     (log[|log| - 1].Visit? ==>
       log[|log| - 1].id in v && log[|log| - 1].id in Replay(v, log[..|log| - 1]) &&
       Eligible(Replay(v, log[..|log| - 1])[log[|log| - 1].id])))
  }

  lemma EligibleExtends(v: View, log: seq<Event>, e: Event)
    requires VisitsEligible(v, log)
    requires e.Visit? ==> e.id in v && e.id in Replay(v, log) && Eligible(Replay(v, log)[e.id])
    ensures VisitsEligible(v, log + [e])
  {
    assert (log + [e])[..|log|] == log;
  }

  /** No POI gets past the visit limit, whatever the environment does. */
  lemma {:induction false} VisitsAreBounded(v: View, log: seq<Event>, id: string)
    requires VisitsEligible(v, log) && id in v && Sane(v[id]) && v[id].visitCount <= MAX_REVISITS
    ensures v[id].visitCount + Visits(log, id) <= MAX_REVISITS
  {
    if log != [] {
      var rest, e := log[..|log| - 1], log[|log| - 1];
      VisitsAreBounded(v, rest, id);
      ReplayCounts(v, rest, id);
    }
  }

  /** Only a big change lets a POI be visited again: every earlier visit of it had that result. */
  lemma {:induction false} OnlyBigChangesRepeat(v: View, log: seq<Event>, i: nat, j: nat)
    requires VisitsEligible(v, log) && i < j < |log|
    requires log[i].Visit? && log[j].Visit? && log[i].id == log[j].id
    ensures log[i].result == BigChange
  {
    var rest, e := log[..|log| - 1], log[|log| - 1];
    if j < |log| - 1 {
      OnlyBigChangesRepeat(v, rest, i, j);
    } else {
      ReplayCounts(v, rest, e.id);
      LatestVisit(v, rest, i);
    }
  }

  /** When the last result of a visited POI is a big change, so are all its results. */
  lemma {:induction false} LatestVisit(v: View, log: seq<Event>, i: nat)
    requires VisitsEligible(v, log) && i < |log| && log[i].Visit?
    ensures Visits(log, log[i].id) > 0
    ensures LastResult(log, log[i].id) == Some(BigChange) ==> log[i].result == BigChange
  {
    var rest, e := log[..|log| - 1], log[|log| - 1];
    if i < |log| - 1 {
      LatestVisit(v, rest, i);
      if e.Visit? && e.id == log[i].id { ReplayCounts(v, rest, e.id); }
    }
  }

  /** All visits of a log, of any POI. */
  ghost function AllVisits(log: seq<Event>): nat {
    if log == [] then 0 else AllVisits(log[..|log| - 1]) + (if log[|log| - 1].Visit? then 1 else 0)
  }

  /** Visits of the POIs in a set, one by one. */
  ghost function VisitsIn(log: seq<Event>, ids: set<string>): nat {
    if ids == {} then 0 else
      var id :| id in ids;
      Visits(log, id) + VisitsIn(log, ids - {id})
  }

  lemma {:induction false} VisitsInRemove(log: seq<Event>, ids: set<string>, id: string)
    requires id in ids
    ensures VisitsIn(log, ids) == Visits(log, id) + VisitsIn(log, ids - {id})
    decreases |ids|
  {
    var c :| c in ids && VisitsIn(log, ids) == Visits(log, c) + VisitsIn(log, ids - {c});
    if c != id {
      VisitsInRemove(log, ids - {c}, id);
      VisitsInRemove(log, ids - {id}, c);
      assert ids - {c} - {id} == ids - {id} - {c};
    }
  }

  lemma {:induction false} VisitsInEmpty(ids: set<string>)
    ensures VisitsIn([], ids) == 0
    decreases |ids|
  {
    if ids != {} {
      var c :| c in ids;
      VisitsInRemove([], ids, c);
      VisitsInEmpty(ids - {c});
    }
  }

  lemma {:induction false} VisitsInOther(log: seq<Event>, e: Event, ids: set<string>)
    requires !e.Visit? || e.id !in ids
    ensures VisitsIn(log + [e], ids) == VisitsIn(log, ids)
    decreases |ids|
  {
    assert (log + [e])[..|log|] == log;
    if ids != {} {
      var c :| c in ids;
      VisitsInRemove(log, ids, c);
      VisitsInRemove(log + [e], ids, c);
      VisitsInOther(log, e, ids - {c});
    }
  }

  /** Counting visits event by event or POI by POI gives the same. */
  lemma {:induction false} VisitsSum(log: seq<Event>, ids: set<string>)
    requires forall i :: 0 <= i < |log| && log[i].Visit? ==> log[i].id in ids
    ensures AllVisits(log) == VisitsIn(log, ids)
  {
    if log == [] {
      VisitsInEmpty(ids);
    } else {
      var rest, e := log[..|log| - 1], log[|log| - 1];
      VisitsSum(rest, ids);
      assert rest + [e] == log;
      if e.Visit? {
        VisitsInRemove(log, ids, e.id);
        VisitsInRemove(rest, ids, e.id);
        VisitsInOther(rest, e, ids - {e.id});
      } else {
        VisitsInOther(rest, e, ids);
      }
    }
  }

  lemma {:induction false} VisitsInBounded(log: seq<Event>, ids: set<string>)
    requires forall id :: id in ids ==> Visits(log, id) <= MAX_REVISITS
    ensures VisitsIn(log, ids) <= MAX_REVISITS * |ids|
    decreases |ids|
  {
    if ids != {} {
      var c :| c in ids;
      VisitsInRemove(log, ids, c);
      VisitsInBounded(log, ids - {c});
    }
  }

  lemma {:induction false} EligibleVisitsKnown(v: View, log: seq<Event>)
    requires VisitsEligible(v, log)
    ensures forall i :: 0 <= i < |log| && log[i].Visit? ==> log[i].id in v
  {
    if log != [] { EligibleVisitsKnown(v, log[..|log| - 1]); }
  }

  /** A sequential run makes at most MAX_REVISITS visits per known POI. */
  lemma TotalVisitsBounded(v: View, log: seq<Event>)
    requires VisitsEligible(v, log)
    requires forall id :: id in v ==> Sane(v[id]) && v[id].visitCount <= MAX_REVISITS
    ensures AllVisits(log) <= MAX_REVISITS * |v.Keys|
  {
    EligibleVisitsKnown(v, log);
    VisitsSum(log, v.Keys);
    forall id | id in v.Keys ensures Visits(log, id) <= MAX_REVISITS { VisitsAreBounded(v, log, id); }
    VisitsInBounded(log, v.Keys);
  }

  /** A record that is no target is never visited. */
  lemma {:induction false} IneligibleUnvisited(v: View, log: seq<Event>, id: string)
    requires VisitsEligible(v, log) && id in v && !Eligible(v[id])
    ensures Visits(log, id) == 0 && id in Replay(v, log)
    ensures Replay(v, log)[id] == v[id].(pixelHash := Replay(v, log)[id].pixelHash)
  {
    if log != [] { IneligibleUnvisited(v, log[..|log| - 1], id); }
  }

  // ---------------------------------------------------------------- a record that keeps changing the frame

  ghost function BigRun(id: string, n: nat): seq<Event> {
    if n == 0 then [] else BigRun(id, n - 1) + [Visit(id, BigChange)]
  }

  lemma NextVisit(v: View, log: seq<Event>, id: string, result: Consequence)
    requires id in Replay(v, log)
    ensures id in Replay(v, log + [Visit(id, result)])
    ensures Replay(v, log + [Visit(id, result)])[id] == Visited(Replay(v, log)[id], result)
  {
    ReplayLast(v, log, Visit(id, result));
  }

  /** It stays a target until the limit. */
  lemma {:induction false} BigVisits(v: View, id: string, n: nat)
    requires id in v && Eligible(v[id])
    ensures id in Replay(v, BigRun(id, n))
    ensures var p := Replay(v, BigRun(id, n))[id];
      p.visitCount == v[id].visitCount + n && (p.visitCount < MAX_REVISITS ==> Eligible(p))
  {
    if n > 0 {
      BigVisits(v, id, n - 1);
      NextVisit(v, BigRun(id, n - 1), id, BigChange);
    }
  }

  lemma {:induction false} BigRunVisits(id: string, n: nat)
    ensures Visits(BigRun(id, n), id) == n
  {
    if n > 0 {
      BigRunVisits(id, n - 1);
      assert BigRun(id, n)[..|BigRun(id, n)| - 1] == BigRun(id, n - 1);
    }
  }
}
