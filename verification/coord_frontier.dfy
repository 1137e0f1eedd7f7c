/**
 The stepwise coordinate explorer (full_explorer.py): tries per (action, x, y), no-ops per
 state and overall, per-state bans, and the candidate queues it proposes from.
 */
module CoordFrontier {
  import opened Common
  import opened History
  import opened Sorting

  type Key = (ActionKey, int, int)

  datatype Candidate = Candidate(id: ActionKey, x: int, y: int, score: int)

  function KeyOf(k: Candidate): Key { (k.id, k.x, k.y) }

  /** attempts_per_coord_candidate, ban_noop_after and global_ban_noop_after. */
  datatype Config = Config(ids: seq<ActionKey>, attemptCap: int, banAfter: int, globalBanAfter: int)

  datatype View = View(frontier: map<StateKey, seq<Candidate>>,
                       noops: map<StateKey, map<Key, nat>>, bans: map<StateKey, set<Key>>, globalNoops: map<Key, nat>,
                       tried: map<Key, nat>, actionTried: map<ActionKey, set<(int, int)>>,
                       actionAttempts: map<ActionKey, nat>, last: int)

  const EMPTY := View(map[], map[], map[], map[], map[], map[], map[], -1)

  // ---------------------------------------------------------------- what each operation does

  function EnsureActions(v: View, ids: seq<ActionKey>): View {
    if ids == [] then v else
      var w := EnsureActions(v, ids[..|ids| - 1]);
      var id := ids[|ids| - 1];
      w.(actionAttempts := w.actionAttempts[id := Get(w.actionAttempts, id, 0)],
         actionTried := w.actionTried[id := Get(w.actionTried, id, {})])
  }

  /** Records this explorer counts: a coordinate action with all its parts, from a known state. */
  predicate Relevant(r: Record) {
    && r.action.kind == CoordKind && r.action.id.Some?
    && r.action.x.Some? && r.action.y.Some? && r.before.Some?
  }

  function RecordKey(r: Record): Key
    requires Relevant(r)
  {
    (r.action.id.value, r.action.x.value, r.action.y.value)
  }

  function Bump(m: map<Key, nat>, k: Key): map<Key, nat> {
    m[k := Get(m, k, 0) + 1]
  }

  function BumpAt(m: map<StateKey, map<Key, nat>>, s: StateKey, k: Key): map<StateKey, map<Key, nat>> {
    m[s := Bump(Get(m, s, map[]), k)]
  }

  function CountTry(v: View, k: Key): View {
    View(v.frontier, v.noops, v.bans, v.globalNoops, Bump(v.tried, k),
         v.actionTried[k.0 := Get(v.actionTried, k.0, {}) + {(k.1, k.2)}],
         v.actionAttempts[k.0 := Get(v.actionAttempts, k.0, 0) + 1], v.last)
  }

  function CountNoop(v: View, s: StateKey, k: Key, c: Config): View {
    var noops := BumpAt(v.noops, s, k);
    var bans := if noops[s][k] >= c.banAfter then v.bans[s := Get(v.bans, s, {}) + {k}] else v.bans;
    View(v.frontier, noops, bans, Bump(v.globalNoops, k), v.tried, v.actionTried, v.actionAttempts, v.last)
  }

  /** The counters of one try; a try that changed nothing is also a no-op of its state. */
  function AddTrial(v: View, r: Record, c: Config): View
    requires Relevant(r)
  {
    var w := CountTry(v, RecordKey(r));
    if r.changed == 0 then CountNoop(w, r.before.value, RecordKey(r), c) else w
  }

  function Excluding(s: seq<Candidate>, k: Key): seq<Candidate> {
    if s == [] then [] else
      var front := Excluding(s[..|s| - 1], k);
      if KeyOf(s[|s| - 1]) == k then front else front + [s[|s| - 1]]
  }

  function DropCandidate(v: View, s: StateKey, k: Key): View {
    if Get(v.frontier, s, []) == [] then v else v.(frontier := v.frontier[s := Excluding(v.frontier[s], k)])
  }

  function Process(v: View, r: Record, c: Config): View {
    if !Relevant(r) then v else
      var w := DropCandidate(AddTrial(v, r, c), r.before.value, RecordKey(r));
      w.(last := Max(w.last, r.step))
  }

  function ProcessAll(v: View, rs: seq<Record>, c: Config): View {
    if rs == [] then v else Process(ProcessAll(v, rs[..|rs| - 1], c), rs[|rs| - 1], c)
  }

  function Refresh(v: View, h: seq<Record>, c: Config): View {
    ProcessAll(v, NewEntries(h, v.last), c)
  }

  /** _backfill_coord_trials: count the whole history, whatever its step indices. */
  function Backfill(v: View, h: seq<Record>, c: Config): View {
    if h == [] then v else
      var w := Backfill(v, h[..|h| - 1], c);
      if Relevant(h[|h| - 1]) then AddTrial(w, h[|h| - 1], c) else w
  }

  /** Candidates within the attempt cap and the global no-op ban. */
  predicate Allowed(v: View, k: Key, c: Config) {
    Get(v.tried, k, 0) < c.attemptCap && Get(v.globalNoops, k, 0) < c.globalBanAfter
  }

  function Filtered(v: View, raw: seq<Candidate>, c: Config): seq<Candidate> {
    if raw == [] then [] else
      var front := Filtered(v, raw[..|raw| - 1], c);
      if Allowed(v, KeyOf(raw[|raw| - 1]), c) then front + [raw[|raw| - 1]] else front
  }

  /** A state without queued candidates gets the scored ones (`raw`, best first) that are allowed. */
  function BuildFrontier(v: View, s: StateKey, raw: seq<Candidate>, c: Config): View {
    if Get(v.frontier, s, []) != [] then v else v.(frontier := v.frontier[s := Filtered(v, raw, c)])
  }

  predicate Proposable(v: View, s: StateKey, k: Key, c: Config) {
    k !in Get(v.bans, s, {}) && Allowed(v, k, c)
  }

  /** Pop candidates until one may be proposed. */
  function PopFrom(v: View, s: StateKey, queue: seq<Candidate>, c: Config): (r: (seq<Candidate>, Option<Candidate>))
    ensures r.1.Some? ==> r.1.value in queue && Proposable(v, s, KeyOf(r.1.value), c)
    ensures r.1.None? ==> r.0 == [] && forall k :: k in queue ==> !Proposable(v, s, KeyOf(k), c)
  {
    if queue == [] then ([], None)
    else if Proposable(v, s, KeyOf(queue[0]), c) then (queue[1..], Some(queue[0]))
    else PopFrom(v, s, queue[1..], c)
  }

  function Pop(v: View, s: StateKey, c: Config): (View, Option<Candidate>) {
    if Get(v.frontier, s, []) == [] then (v, None) else
      var (rest, cand) := PopFrom(v, s, v.frontier[s], c);
      (v.(frontier := v.frontier[s := rest]), cand)
  }

  /** Memory replaces a non-empty queue by a filtered and sorted one, given here as any list of its members. */
  function Reorder(v: View, s: StateKey, order: Option<seq<Candidate>>): View {
    if order.None? || Get(v.frontier, s, []) == [] then v else v.(frontier := v.frontier[s := order.value])
  }

  /** choose_action. */
  function Choose(v: View, h: seq<Record>, s: StateKey, raw: seq<Candidate>, order: Option<seq<Candidate>>,
                  c: Config): (View, Option<Candidate>) {
    if c.ids == [] then (v, None) else
      var u := Refresh(EnsureActions(v, c.ids), h, c);
      var w := if u.tried == map[] then Backfill(u, h, c) else u;
      Pop(Reorder(BuildFrontier(w, s, raw, c), s, order), s, c)
  }

  /** build_frontier_report. */
  function Report(v: View, h: seq<Record>, s: StateKey, raw: seq<Candidate>, c: Config): View {
    if c.ids == [] then v else BuildFrontier(Refresh(EnsureActions(v, c.ids), h, c), s, raw, c)
  }

  // ---------------------------------------------------------------- the counts a log determines

  predicate Hits(r: Record, k: Key) {
    Relevant(r) && RecordKey(r) == k
  }

  function Trials(log: seq<Record>, k: Key): nat {
    if log == [] then 0 else Trials(log[..|log| - 1], k) + (if Hits(log[|log| - 1], k) then 1 else 0)
  }

  function GlobalNoops(log: seq<Record>, k: Key): nat {
    if log == [] then 0 else
      var r := log[|log| - 1];
      GlobalNoops(log[..|log| - 1], k) + (if Hits(r, k) && r.changed == 0 then 1 else 0)
  }

  function Noops(log: seq<Record>, s: StateKey, k: Key): nat {
    if log == [] then 0 else
      var r := log[|log| - 1];
      Noops(log[..|log| - 1], s, k) + (if Hits(r, k) && r.changed == 0 && r.before.value == s then 1 else 0)
  }

  function ActionTrials(log: seq<Record>, id: ActionKey): nat {
    if log == [] then 0 else
      var r := log[|log| - 1];
      ActionTrials(log[..|log| - 1], id) + (if Relevant(r) && RecordKey(r).0 == id then 1 else 0)
  }

  function NoopCount(v: View, s: StateKey, k: Key): nat {
    Get(Get(v.noops, s, map[]), k, 0)
  }

  /** One key's no-op counters, by state. */
  function Column(noops: map<StateKey, map<Key, nat>>, k: Key): map<StateKey, nat> {
    map s | s in noops :: Get(noops[s], k, 0)
  }

  ghost predicate TriesExact(v: View, log: seq<Record>) {
    && (forall k :: Get(v.tried, k, 0) == Trials(log, k) && (k in v.tried ==> v.tried[k] > 0))
    && (forall id, x, y :: (x, y) in Get(v.actionTried, id, {}) <==> Trials(log, (id, x, y)) > 0)
    && (forall id :: Get(v.actionAttempts, id, 0) == ActionTrials(log, id))
  }

  ghost predicate NoopsExact(v: View, log: seq<Record>) {
    && (forall k :: Get(v.globalNoops, k, 0) == GlobalNoops(log, k))
    && (forall s, k :: NoopCount(v, s, k) == Noops(log, s, k))
    && (forall k :: SumValues(Column(v.noops, k)) == Get(v.globalNoops, k, 0) <= Get(v.tried, k, 0))
  }

  /** A state's ban list is exactly the keys whose no-ops there reached the threshold. */
  ghost predicate BansExact(v: View, log: seq<Record>, c: Config) {
    forall s, k :: k in Get(v.bans, s, {}) <==> Noops(log, s, k) > 0 && Noops(log, s, k) >= c.banAfter
  }

  ghost predicate MarkerOk(v: View, log: seq<Record>) {
    && (forall i :: 0 <= i < |log| && Relevant(log[i]) ==> log[i].step <= v.last)
    && (v.last == -1 || exists i :: 0 <= i < |log| && Relevant(log[i]) && log[i].step == v.last)
  }

  ghost predicate Exact(v: View, log: seq<Record>, c: Config) {
    TriesExact(v, log) && NoopsExact(v, log) && BansExact(v, log, c) && MarkerOk(v, log)
  }

  // ---------------------------------------------------------------- every operation keeps it exact

  lemma AppendCounts(log: seq<Record>, r: Record)
    ensures forall k :: Trials(log + [r], k) == Trials(log, k) + (if Hits(r, k) then 1 else 0)
    ensures forall k :: GlobalNoops(log + [r], k)
              == GlobalNoops(log, k) + (if Hits(r, k) && r.changed == 0 then 1 else 0)
    ensures forall s, k :: Noops(log + [r], s, k)
              == Noops(log, s, k) + (if Hits(r, k) && r.changed == 0 && r.before.value == s then 1 else 0)
    ensures forall id :: ActionTrials(log + [r], id)
              == ActionTrials(log, id) + (if Relevant(r) && RecordKey(r).0 == id then 1 else 0)
  {
    assert (log + [r])[..|log|] == log;
  }

  lemma {:induction false} GlobalNoopsBelowTrials(log: seq<Record>, k: Key)
    ensures GlobalNoops(log, k) <= Trials(log, k)
  {
    if log != [] { GlobalNoopsBelowTrials(log[..|log| - 1], k); }
  }

  lemma ColumnBump(noops: map<StateKey, map<Key, nat>>, s: StateKey, k: Key, j: Key)
    ensures SumValues(Column(BumpAt(noops, s, k), j)) == SumValues(Column(noops, j)) + (if j == k then 1 else 0)
  {
    var n := Get(Get(noops, s, map[]), j, 0) + (if j == k then 1 else 0);
    assert Column(BumpAt(noops, s, k), j) == Column(noops, j)[s := n];
    SumUpdate(Column(noops, j), s, n);
  }

  lemma BumpLaw(m: map<Key, nat>, k: Key)
    ensures Bump(m, k).Keys == m.Keys + {k}
    ensures forall j :: Get(Bump(m, k), j, 0) == Get(m, j, 0) + (if j == k then 1 else 0)
  {
  }

  lemma BumpAtLaw(m: map<StateKey, map<Key, nat>>, s: StateKey, k: Key)
    ensures forall t, j :: Get(Get(BumpAt(m, s, k), t, map[]), j, 0)
              == Get(Get(m, t, map[]), j, 0) + (if t == s && j == k then 1 else 0)
  {
    BumpLaw(Get(m, s, map[]), k);
  }

  /** A try adds one to its key and its action, and marks its coordinates. */
  lemma TrialTryCounters(v: View, r: Record, c: Config)
    requires Relevant(r)
    ensures var w, k := AddTrial(v, r, c), RecordKey(r);
      && w.tried == Bump(v.tried, k)
      && w.actionTried == v.actionTried[k.0 := Get(v.actionTried, k.0, {}) + {(k.1, k.2)}]
      && w.actionAttempts == v.actionAttempts[k.0 := Get(v.actionAttempts, k.0, 0) + 1]
  {
  }

  lemma TrialKeepsTries(v: View, log: seq<Record>, r: Record, c: Config)
    requires Relevant(r) && TriesExact(v, log)
    ensures TriesExact(AddTrial(v, r, c), log + [r])
  {
    hide Trials, ActionTrials, AddTrial, Bump;
    TrialTryCounters(v, r, c);
    TriedCounts(v.tried, log, r);
    MarksCoordinates(v.actionTried, log, r);
    CountsAction(v.actionAttempts, log, r);
  }

  lemma TriedCounts(tried: map<Key, nat>, log: seq<Record>, r: Record)
    requires Relevant(r) && forall k :: Get(tried, k, 0) == Trials(log, k) && (k in tried ==> tried[k] > 0)
    ensures var after := Bump(tried, RecordKey(r));
      forall k :: Get(after, k, 0) == Trials(log + [r], k) && (k in after ==> after[k] > 0)
  {
    hide Trials;
    AppendCounts(log, r);
  }

  lemma MarksCoordinates(marked: map<ActionKey, set<(int, int)>>, log: seq<Record>, r: Record)
    requires Relevant(r) && forall id, x, y :: (x, y) in Get(marked, id, {}) <==> Trials(log, (id, x, y)) > 0
    ensures var k := RecordKey(r); var after := marked[k.0 := Get(marked, k.0, {}) + {(k.1, k.2)}];
      forall id, x, y :: (x, y) in Get(after, id, {}) <==> Trials(log + [r], (id, x, y)) > 0
  {
    hide Trials;
    AppendCounts(log, r);
  }

  lemma CountsAction(attempts: map<ActionKey, nat>, log: seq<Record>, r: Record)
    requires Relevant(r) && forall id :: Get(attempts, id, 0) == ActionTrials(log, id)
    ensures var id := RecordKey(r).0; var after := attempts[id := Get(attempts, id, 0) + 1];
      forall other :: Get(after, other, 0) == ActionTrials(log + [r], other)
  {
    hide ActionTrials;
    AppendCounts(log, r);
  }

  /** A no-op adds one to its state's counter for the key, and one to the key's overall counter. */
  lemma TrialNoopCounters(v: View, r: Record, c: Config)
    requires Relevant(r)
    ensures var w, k := AddTrial(v, r, c), RecordKey(r);
      && (forall j :: Get(w.globalNoops, j, 0)
           == Get(v.globalNoops, j, 0) + (if j == k && r.changed == 0 then 1 else 0))
      && (forall j :: Get(w.tried, j, 0) == Get(v.tried, j, 0) + (if j == k then 1 else 0))
      && (forall s, j :: NoopCount(w, s, j)
           == NoopCount(v, s, j) + (if s == r.before.value && j == k && r.changed == 0 then 1 else 0))
  {
    var k := RecordKey(r);
    TrialTryCounters(v, r, c);
    BumpLaw(v.tried, k);
    BumpLaw(v.globalNoops, k);
    BumpAtLaw(v.noops, r.before.value, k);
  }

  lemma TrialColumns(v: View, r: Record, c: Config)
    requires Relevant(r)
    ensures forall j :: SumValues(Column(AddTrial(v, r, c).noops, j))
              == SumValues(Column(v.noops, j)) + (if j == RecordKey(r) && r.changed == 0 then 1 else 0)
  {
    forall j ensures SumValues(Column(AddTrial(v, r, c).noops, j))
              == SumValues(Column(v.noops, j)) + (if j == RecordKey(r) && r.changed == 0 then 1 else 0) {
      if r.changed == 0 { ColumnBump(v.noops, r.before.value, RecordKey(r), j); }
    }
  }

  lemma TrialKeepsNoops(v: View, log: seq<Record>, r: Record, c: Config)
    requires Relevant(r) && NoopsExact(v, log)
    ensures NoopsExact(AddTrial(v, r, c), log + [r])
  {
    TrialNoopCounters(v, r, c);
    TrialColumns(v, r, c);
    AppendCounts(log, r);
  }

  lemma TrialKeepsBans(v: View, log: seq<Record>, r: Record, c: Config)
    requires Relevant(r) && NoopsExact(v, log) && BansExact(v, log, c)
    ensures BansExact(AddTrial(v, r, c), log + [r], c)
  {
    hide Noops;
    var w, k, s := AddTrial(v, r, c), RecordKey(r), r.before.value;
    AppendCounts(log, r);
    TrialBans(v, r, c);
    assert NoopCount(v, s, k) == Noops(log, s, k);
    hide AddTrial, NoopCount;
  }

  /** A try changes one ban list at most: the key joins its state's list with the no-op that reaches the threshold. */
  lemma TrialBans(v: View, r: Record, c: Config)
    requires Relevant(r)
    ensures forall s, k :: k in Get(AddTrial(v, r, c).bans, s, {}) <==>
      k in Get(v.bans, s, {}) ||
      (s == r.before.value && k == RecordKey(r) && r.changed == 0 && NoopCount(v, s, k) + 1 >= c.banAfter)
  {
  }

  lemma MarkerAdvances(v: View, log: seq<Record>, r: Record)
    requires MarkerOk(v, log) && Relevant(r) && r.step >= -1
    ensures MarkerOk(v.(last := Max(v.last, r.step)), log + [r])
  {
    var longer := log + [r];
    if v.last != -1 {
      var i :| 0 <= i < |log| && Relevant(log[i]) && log[i].step == v.last;
      assert longer[i] == log[i];
    }
    assert longer[|log|] == r;
  }

  /** Candidate queues take no part in the counters. */
  lemma QueuesAreSeparate(v: View, w: View, log: seq<Record>, c: Config)
    requires w == v.(frontier := w.frontier, last := w.last)
    ensures TriesExact(v, log) ==> TriesExact(w, log)
    ensures NoopsExact(v, log) ==> NoopsExact(w, log)
    ensures BansExact(v, log, c) ==> BansExact(w, log, c)
    ensures w.last == v.last && MarkerOk(v, log) ==> MarkerOk(w, log)
  {
    forall s, k ensures NoopCount(w, s, k) == NoopCount(v, s, k) {}
  }

  lemma ProcessKeepsExact(v: View, log: seq<Record>, r: Record, c: Config)
    requires Exact(v, log, c) && r.step >= -1
    ensures Exact(Process(v, r, c), log + [r], c)
  {
    if Relevant(r) {
      TrialKeepsTries(v, log, r, c);
      TrialKeepsNoops(v, log, r, c);
      TrialKeepsBans(v, log, r, c);
      MarkerAdvances(v, log, r);
      QueuesAreSeparate(AddTrial(v, r, c), Process(v, r, c), log + [r], c);
      assert Process(v, r, c).last == Max(v.last, r.step);
    } else {
      IrrelevantKeepsExact(v, log, r, c);
    }
  }

  lemma IrrelevantKeepsExact(v: View, log: seq<Record>, r: Record, c: Config)
    requires !Relevant(r)
    ensures Exact(v, log, c) <==> Exact(v, log + [r], c)
  {
    AppendCounts(log, r);
    TriesAgree(v, log, log + [r]);
    NoopsAgree(v, log, log + [r], c);
    MarkerIgnores(v, log, r);
  }

  lemma TriesAgree(v: View, log: seq<Record>, longer: seq<Record>)
    requires forall k :: Trials(longer, k) == Trials(log, k)
    requires forall id :: ActionTrials(longer, id) == ActionTrials(log, id)
    ensures TriesExact(v, log) <==> TriesExact(v, longer)
  {
  }

  lemma NoopsAgree(v: View, log: seq<Record>, longer: seq<Record>, c: Config)
    requires forall k :: GlobalNoops(longer, k) == GlobalNoops(log, k)
    requires forall s, k :: Noops(longer, s, k) == Noops(log, s, k)
    ensures NoopsExact(v, log) <==> NoopsExact(v, longer)
    ensures BansExact(v, log, c) <==> BansExact(v, longer, c)
  {
  }

  lemma MarkerIgnores(v: View, log: seq<Record>, r: Record)
    requires !Relevant(r)
    ensures MarkerOk(v, log) <==> MarkerOk(v, log + [r])
  {
    var longer := log + [r];
    forall i | 0 <= i < |log| ensures longer[i] == log[i] {}
    if exists i :: 0 <= i < |log| && Relevant(log[i]) && log[i].step == v.last {
      var i :| 0 <= i < |log| && Relevant(log[i]) && log[i].step == v.last;
      assert Relevant(longer[i]);
    }
  }

  lemma {:induction false} IrrelevantRun(v: View, log: seq<Record>, c: Config, m: nat, p: nat)
    requires m <= p <= |log| && Exact(v, log[..p], c)
    requires forall i :: m <= i < p ==> !Relevant(log[i])
    ensures Exact(v, log[..m], c)
    decreases p
  {
    hide Exact;
    if m < p {
      assert log[..p] == log[..p - 1] + [log[p - 1]];
      IrrelevantKeepsExact(v, log[..p - 1], log[p - 1], c);
      IrrelevantRun(v, log, c, m, p - 1);
    }
  }

  lemma {:induction false} ProcessRun(v: View, log: seq<Record>, c: Config, m: nat, n: nat)
    requires Numbered(log) && m <= n <= |log| && Exact(v, log[..m], c)
    ensures Exact(ProcessAll(v, log[m..n], c), log[..n], c)
    decreases n
  {
    hide Exact, Process;
    if m < n {
      ProcessRun(v, log, c, m, n - 1);
      SliceLast(log, m, n);
      ProcessKeepsExact(ProcessAll(v, log[m..n - 1], c), log[..n - 1], log[n - 1], c);
    }
  }

  lemma PastMarkerIrrelevant(v: View, log: seq<Record>, i: nat)
    requires MarkerOk(v, log) && i < |log| && log[i].step > v.last
    ensures !Relevant(log[i])
  {
  }

  /** The entries a refresh takes: the tail of the log from the marker on, where nothing before `p` is countable. */
  lemma EntriesToProcess(v: View, log: seq<Record>, p: nat, h: seq<Record>) returns (m: nat)
    requires Numbered(log) && Suffix(h, log) && |log| - |h| <= p <= |log| && MarkerOk(v, log[..p])
    ensures m <= p && NewEntries(h, v.last) == log[m..] && forall i :: m <= i < p ==> !Relevant(log[i])
  {
    m := NewEntriesOfSuffix(log, h, v.last);
    if v.last != -1 {
      var i :| 0 <= i < p && Relevant(log[..p][i]) && log[..p][i].step == v.last;
      assert log[i].step == i;
    }
    forall i | m <= i < p ensures !Relevant(log[i]) {
      PastMarkerIrrelevant(v, log[..p], i);
    }
  }

  /** As for the simple explorer: a history that holds everything since the last refresh is enough. */
  lemma RefreshIsExact(v: View, log: seq<Record>, p: nat, h: seq<Record>, c: Config)
    requires Numbered(log) && Suffix(h, log) && |log| - |h| <= p <= |log|
    requires Exact(v, log[..p], c)
    ensures Exact(Refresh(v, h, c), log, c)
  {
    var m := EntriesToProcess(v, log, p, h);
    IrrelevantRun(v, log, c, m, p);
    ProcessRun(v, log, c, m, |log|);
    assert log[m..|log|] == log[m..] && log[..|log|] == log;
  }

  lemma {:induction false} EnsureActionsKeepsExact(v: View, log: seq<Record>, ids: seq<ActionKey>, c: Config)
    ensures var w := EnsureActions(v, ids);
      && w == v.(actionAttempts := w.actionAttempts, actionTried := w.actionTried)
      && (forall id :: Get(w.actionAttempts, id, 0) == Get(v.actionAttempts, id, 0))
      && (forall id :: Get(w.actionTried, id, {}) == Get(v.actionTried, id, {}))
      && (Exact(v, log, c) ==> Exact(w, log, c))
  {
    if ids != [] { EnsureActionsKeepsExact(v, log, ids[..|ids| - 1], c); }
  }

  // ---------------------------------------------------------------- the backfill

  lemma {:induction false} NewerMembers(h: seq<Record>, last: int)
    ensures forall r :: r in Newer(h, last) <==> r in h && r.step > last
  {
    if h != [] {
      NewerMembers(h[..|h| - 1], last);
      assert h == h[..|h| - 1] + [h[|h| - 1]];
    }
  }

  lemma NewEntriesMembers(h: seq<Record>, last: int)
    ensures forall r :: r in NewEntries(h, last) <==> r in h && r.step > last
  {
    NewerMembers(h, last);
    SortLaws(Newer(h, last), Sooner);
    forall r ensures r in NewEntries(h, last) <==> r in Newer(h, last) {
      assert r in NewEntries(h, last) <==> r in multiset(NewEntries(h, last));
      assert r in Newer(h, last) <==> r in multiset(Newer(h, last));
    }
  }

  lemma ProcessTries(v: View, r: Record, c: Config)
    ensures Process(v, r, c).tried == map[] <==> v.tried == map[] && !Relevant(r)
  {
    if Relevant(r) { assert RecordKey(r) in Process(v, r, c).tried; }
  }

  lemma {:induction false} ProcessAllTries(v: View, rs: seq<Record>, c: Config)
    ensures ProcessAll(v, rs, c).tried == map[] <==> v.tried == map[] && forall r :: r in rs ==> !Relevant(r)
  {
    hide Process, Relevant;
    if rs != [] {
      var front, last := rs[..|rs| - 1], rs[|rs| - 1];
      ProcessAllTries(v, front, c);
      ProcessTries(ProcessAll(v, front, c), last, c);
      assert rs == front + [last];
    }
  }

  lemma {:induction false} BackfillAdds(v: View, h: seq<Record>, c: Config)
    ensures (forall r :: r in h ==> !Relevant(r)) ==> Backfill(v, h, c) == v
    ensures (exists r :: r in h && Relevant(r)) ==> Backfill(v, h, c).tried != map[]
  {
    if h != [] {
      var front, last := h[..|h| - 1], h[|h| - 1];
      BackfillAdds(v, front, c);
      assert h == front + [last];
      if Relevant(last) {
        assert RecordKey(last) in Backfill(v, h, c).tried;
      }
    }
  }

  /**
   When no try is on record after a refresh of a fresh explorer, the backfill adds something
   exactly if the history holds a countable record whose step index is missing or negative.
   */
  lemma BackfillExactly(v: View, h: seq<Record>, c: Config)
    requires v.last == -1 && Refresh(v, h, c).tried == map[]
    ensures Backfill(Refresh(v, h, c), h, c) != Refresh(v, h, c) <==> exists r :: r in h && Relevant(r) && r.step < 0
  {
    var w := Refresh(v, h, c);
    NewEntriesMembers(h, v.last);
    ProcessAllTries(v, NewEntries(h, v.last), c);
    BackfillAdds(w, h, c);
    forall r | r in h && Relevant(r) ensures r.step < 0 {
      assert r !in NewEntries(h, v.last);
    }
  }

  /** Untouched counters mean an unmoved marker, so the backfill is idle on numbered records. */
  lemma BackfillIdle(v: View, log: seq<Record>, h: seq<Record>, c: Config)
    requires Exact(v, log, c) && v.tried == map[] && forall r :: r in h ==> r in log
    ensures Backfill(v, h, c) == v
  {
    forall r | r in h ensures !Relevant(r) {
      var i :| 0 <= i < |log| && log[i] == r;
      if Relevant(r) { TrialsPositive(log, i); }
    }
    BackfillAdds(v, h, c);
  }

  lemma {:induction false} TrialsPositive(log: seq<Record>, i: nat)
    requires i < |log| && Relevant(log[i])
    ensures Trials(log, RecordKey(log[i])) > 0
  {
    if i < |log| - 1 { TrialsPositive(log[..|log| - 1], i); }
  }

  // ---------------------------------------------------------------- proposals

  /** The frontier steps of choose_action only touch the queues. */
  lemma PopTouchesQueues(v: View, s: StateKey, raw: seq<Candidate>, order: Option<seq<Candidate>>, c: Config)
    ensures var (w, cand) := Pop(Reorder(BuildFrontier(v, s, raw, c), s, order), s, c);
      && w == v.(frontier := w.frontier)
      && (cand.Some? ==> Proposable(v, s, KeyOf(cand.value), c))
  {
  }

  /** A key the whole log leaves open: under both caps, and not banned at the state. */
  ghost predicate OpenAt(log: seq<Record>, s: StateKey, k: Key, c: Config) {
    && Trials(log, k) < c.attemptCap && GlobalNoops(log, k) < c.globalBanAfter
    && !(0 < Noops(log, s, k) && c.banAfter <= Noops(log, s, k))
  }

  /**
   A proposal, made from however truncated a history, has been tried fewer than the allowed
   number of times in the whole log, and is neither banned at the state nor globally.
   */
  lemma ProposalIsUnderCap(v: View, log: seq<Record>, p: nat, h: seq<Record>, s: StateKey, raw: seq<Candidate>,
                           order: Option<seq<Candidate>>, c: Config)
    requires Numbered(log) && Suffix(h, log) && |log| - |h| <= p <= |log|
    requires Exact(v, log[..p], c)
    ensures var (w, cand) := Choose(v, h, s, raw, order, c);
      && (c.ids != [] ==> Exact(w, log, c))
      && (c.ids == [] ==> w == v && cand.None?)
      && (cand.Some? ==> OpenAt(log, s, KeyOf(cand.value), c))
  {
    hide Refresh, EnsureActions, Backfill, TriesExact, NoopsExact, BansExact, MarkerOk, OpenAt, Proposable;
    if c.ids != [] {
      var u := RefreshedExplorer(v, log, p, h, c);
      PopTouchesQueues(u, s, raw, order, c);
      QueuesAreSeparate(u, Choose(v, h, s, raw, order, c).0, log, c);
      forall k { ProposableIsOpen(u, log, s, k, c); }
    }
  }

  /** The explorer when it comes to its queues: refreshed, and exact for the whole log; the backfill was idle. */
  lemma RefreshedExplorer(v: View, log: seq<Record>, p: nat, h: seq<Record>, c: Config) returns (u: View)
    requires Numbered(log) && Suffix(h, log) && |log| - |h| <= p <= |log|
    requires Exact(v, log[..p], c)
    ensures u == Refresh(EnsureActions(v, c.ids), h, c) && Exact(u, log, c)
    ensures u.tried == map[] ==> Backfill(u, h, c) == u
  {
    hide Refresh, EnsureActions, Backfill, TriesExact, NoopsExact, BansExact, MarkerOk;
    var e := EnsureActions(v, c.ids);
    EnsureActionsKeepsExact(v, log[..p], c.ids, c);
    u := Refresh(e, h, c);
    RefreshIsExact(e, log, p, h, c);
    if u.tried == map[] { BackfillIdle(u, log, h, c); }
  }

  /** On exact counters, what may be proposed is what the log leaves open. */
  lemma ProposableIsOpen(v: View, log: seq<Record>, s: StateKey, k: Key, c: Config)
    requires Exact(v, log, c)
    ensures Proposable(v, s, k, c) <==> OpenAt(log, s, k, c)
  {
  }

  // ---------------------------------------------------------------- and no open candidate is passed over

  /** The candidate is the first open one of the list; it is missing only when none is open. */
  ghost predicate IsFirstOpen(list: seq<Candidate>, cand: Option<Candidate>, log: seq<Record>, s: StateKey, c: Config) {
    if cand.None? then forall i :: 0 <= i < |list| ==> !OpenAt(log, s, KeyOf(list[i]), c)
    else exists i :: 0 <= i < |list| && FirstOpenAt(list, i, log, s, c) && list[i] == cand.value
  }

  ghost predicate FirstOpenAt(list: seq<Candidate>, i: nat, log: seq<Record>, s: StateKey, c: Config)
    requires i < |list|
  {
    OpenAt(log, s, KeyOf(list[i]), c) && forall j :: 0 <= j < i ==> !OpenAt(log, s, KeyOf(list[j]), c)
  }

  ghost predicate TriedAt(recs: seq<Record>, s: StateKey, k: Key) {
    exists i :: 0 <= i < |recs| && Hits(recs[i], k) && recs[i].before.value == s
  }

  /** The candidates of a queue that none of the records tried at the state. */
  ghost function Waiting(queue: seq<Candidate>, recs: seq<Record>, s: StateKey): seq<Candidate> {
    if queue == [] then [] else
      var front, last := Waiting(queue[..|queue| - 1], recs, s), queue[|queue| - 1];
      if TriedAt(recs, s, KeyOf(last)) then front else front + [last]
  }

  /**
   What the explorer chooses from: its queue at the state without what was tried there since,
   else the scored candidates; memory's own order replaces whatever is admitted.
   */
  ghost function Consulted(v: View, since: seq<Record>, log: seq<Record>, s: StateKey, raw: seq<Candidate>,
                           order: Option<seq<Candidate>>, c: Config): seq<Candidate>
  {
    var queue := Waiting(Get(v.frontier, s, []), since, s);
    if order.Some? && (queue != [] || exists i :: 0 <= i < |raw| && Admitted(log, KeyOf(raw[i]), c))
    then order.value
    else if queue != [] then queue else raw
  }

  ghost predicate Admitted(log: seq<Record>, k: Key, c: Config) {
    Trials(log, k) < c.attemptCap && GlobalNoops(log, k) < c.globalBanAfter
  }

  lemma {:induction false} WaitingAgrees(queue: seq<Candidate>, a: seq<Record>, b: seq<Record>, s: StateKey)
    requires forall k :: TriedAt(a, s, k) <==> TriedAt(b, s, k)
    ensures Waiting(queue, a, s) == Waiting(queue, b, s)
  {
    if queue != [] { WaitingAgrees(queue[..|queue| - 1], a, b, s); }
  }

  lemma {:induction false} NothingTried(queue: seq<Candidate>, s: StateKey)
    ensures Waiting(queue, [], s) == queue
  {
    if queue != [] {
      NothingTried(queue[..|queue| - 1], s);
      assert queue == queue[..|queue| - 1] + [queue[|queue| - 1]];
    }
  }

  lemma TriedOnceMore(recs: seq<Record>, r: Record, s: StateKey, k: Key)
    ensures TriedAt(recs + [r], s, k) <==> TriedAt(recs, s, k) || (Hits(r, k) && r.before.value == s)
  {
    var more := recs + [r];
    if TriedAt(recs, s, k) {
      var i :| 0 <= i < |recs| && Hits(recs[i], k) && recs[i].before.value == s;
      assert more[i] == recs[i];
    }
    if Hits(r, k) && r.before.value == s { assert more[|recs|] == r; }
  }

  /** One more try at the state takes its key out of the waiting candidates. */
  lemma {:induction false} WaitingOneMore(queue: seq<Candidate>, recs: seq<Record>, r: Record, s: StateKey)
    ensures Waiting(queue, recs + [r], s) ==
      if Relevant(r) && r.before.value == s then Excluding(Waiting(queue, recs, s), RecordKey(r))
      else Waiting(queue, recs, s)
  {
    hide TriedAt;
    if queue != [] {
      var last := queue[|queue| - 1];
      WaitingOneMore(queue[..|queue| - 1], recs, r, s);
      TriedOnceMore(recs, r, s, KeyOf(last));
      var front := Waiting(queue[..|queue| - 1], recs, s);
      assert (front + [last])[..|front|] == front;
    }
  }

  lemma ProcessQueue(v: View, r: Record, s: StateKey, c: Config)
    ensures Get(Process(v, r, c).frontier, s, []) ==
      if Relevant(r) && r.before.value == s then Excluding(Get(v.frontier, s, []), RecordKey(r))
      else Get(v.frontier, s, [])
  {
    hide AddTrial;
    if Relevant(r) { TrialKeepsQueues(v, r, c); }
  }

  lemma TrialKeepsQueues(v: View, r: Record, c: Config)
    requires Relevant(r)
    ensures AddTrial(v, r, c).frontier == v.frontier
  {
    hide Bump, Get;
  }

  lemma {:induction false} ProcessAllQueue(v: View, rs: seq<Record>, s: StateKey, c: Config)
    ensures Get(ProcessAll(v, rs, c).frontier, s, []) == Waiting(Get(v.frontier, s, []), rs, s)
  {
    hide Process, Waiting, Excluding;
    if rs == [] {
      NothingTried(Get(v.frontier, s, []), s);
    } else {
      var front, last := rs[..|rs| - 1], rs[|rs| - 1];
      ProcessAllQueue(v, front, s, c);
      ProcessQueue(ProcessAll(v, front, c), last, s, c);
      WaitingOneMore(Get(v.frontier, s, []), front, last, s);
      assert rs == front + [last];
    }
  }

  /** A refresh takes off each queue what was tried at its state since the last one. */
  lemma RefreshQueue(v: View, log: seq<Record>, p: nat, h: seq<Record>, s: StateKey, c: Config)
    requires Numbered(log) && Suffix(h, log) && |log| - |h| <= p <= |log| && MarkerOk(v, log[..p])
    ensures Get(Refresh(v, h, c).frontier, s, []) == Waiting(Get(v.frontier, s, []), log[p..], s)
  {
    hide MarkerOk, NewEntries;
    var m := EntriesToProcess(v, log, p, h);
    ProcessAllQueue(v, log[m..], s, c);
    forall k ensures TriedAt(log[m..], s, k) <==> TriedAt(log[p..], s, k) {
      if TriedAt(log[m..], s, k) {
        var i :| 0 <= i < |log[m..]| && Hits(log[m..][i], k) && log[m..][i].before.value == s;
        assert log[m + i] == log[m..][i];
        assert log[p..][m + i - p] == log[m + i];
      }
      if TriedAt(log[p..], s, k) {
        var i :| 0 <= i < |log[p..]| && Hits(log[p..][i], k) && log[p..][i].before.value == s;
        assert log[m..][p + i - m] == log[p..][i];
      }
    }
    WaitingAgrees(Get(v.frontier, s, []), log[m..], log[p..], s);
  }

  /** Candidates that are not admitted are not open, so leaving them out loses no choice. */
  lemma {:induction false} FilteredKeepsFirst(v: View, raw: seq<Candidate>, cand: Option<Candidate>, log: seq<Record>,
                                              s: StateKey, c: Config)
    requires Exact(v, log, c)
    ensures IsFirstOpen(Filtered(v, raw, c), cand, log, s, c) <==> IsFirstOpen(raw, cand, log, s, c)
  {
    hide Exact, OpenAt, IsFirstOpen;
    if raw != [] {
      var front, last := raw[..|raw| - 1], raw[|raw| - 1];
      FilteredKeepsFirst(v, front, cand, log, s, c);
      FilteredKeepsFirst(v, front, None, log, s, c);
      FirstOpenOneMore(front, last, cand, log, s, c);
      FirstOpenOneMore(Filtered(v, front, c), last, cand, log, s, c);
      AllowedIsAdmitted(v, log, KeyOf(last), c);
      assert raw == front + [last];
      if !Allowed(v, KeyOf(last), c) {
        assert !OpenAt(log, s, KeyOf(last), c) by { AdmittedFirst(log, s, KeyOf(last), c); }
        if IsFirstOpen(front, None, log, s, c) { NoneIsUnique(front, cand, log, s, c); }
      }
    }
  }

  lemma AllowedIsAdmitted(v: View, log: seq<Record>, k: Key, c: Config)
    requires Exact(v, log, c)
    ensures Allowed(v, k, c) <==> Admitted(log, k, c)
  {
  }

  lemma AdmittedFirst(log: seq<Record>, s: StateKey, k: Key, c: Config)
    ensures OpenAt(log, s, k, c) ==> Admitted(log, k, c)
  {
  }

  lemma NoneIsUnique(list: seq<Candidate>, cand: Option<Candidate>, log: seq<Record>, s: StateKey, c: Config)
    requires IsFirstOpen(list, None, log, s, c)
    ensures IsFirstOpen(list, cand, log, s, c) <==> cand.None?
  {
  }

  lemma FirstOpenOneMore(list: seq<Candidate>, x: Candidate, cand: Option<Candidate>, log: seq<Record>, s: StateKey,
                         c: Config)
    ensures IsFirstOpen(list + [x], cand, log, s, c) <==>
      if !IsFirstOpen(list, None, log, s, c) then IsFirstOpen(list, cand, log, s, c)
      else if OpenAt(log, s, KeyOf(x), c) then cand == Some(x) else cand.None?
  {
    hide OpenAt;
    var more := list + [x];
    assert forall i :: 0 <= i < |list| ==> more[i] == list[i];
    assert more[|list|] == x;
    if cand.Some? {
      if IsFirstOpen(list, cand, log, s, c) {
        var i :| 0 <= i < |list| && FirstOpenAt(list, i, log, s, c) && list[i] == cand.value;
        assert FirstOpenAt(more, i, log, s, c);
      }
      if IsFirstOpen(more, cand, log, s, c) {
        var i :| 0 <= i < |more| && FirstOpenAt(more, i, log, s, c) && more[i] == cand.value;
        if i < |list| { assert FirstOpenAt(list, i, log, s, c); }
      }
      if IsFirstOpen(list, None, log, s, c) && OpenAt(log, s, KeyOf(x), c) {
        assert FirstOpenAt(more, |list|, log, s, c);
      }
    }
  }

  /** The pop loop returns the first open candidate and keeps what comes after it. */
  lemma {:induction false} PopsFirstOpen(v: View, log: seq<Record>, s: StateKey, queue: seq<Candidate>, c: Config)
    requires Exact(v, log, c)
    ensures var (rest, cand) := PopFrom(v, s, queue, c);
      if cand.None? then rest == [] && IsFirstOpen(queue, None, log, s, c)
      else exists i :: 0 <= i < |queue| && FirstOpenAt(queue, i, log, s, c) && queue[i] == cand.value
             && rest == queue[i + 1..]
  {
    hide Exact, OpenAt, Proposable;
    if queue != [] {
      ProposableIsOpen(v, log, s, KeyOf(queue[0]), c);
      if OpenAt(log, s, KeyOf(queue[0]), c) {
        assert FirstOpenAt(queue, 0, log, s, c);
      } else {
        PopsFirstOpen(v, log, s, queue[1..], c);
        var (rest, cand) := PopFrom(v, s, queue[1..], c);
        if cand.Some? {
          var i :| 0 <= i < |queue[1..]| && FirstOpenAt(queue[1..], i, log, s, c) && queue[1..][i] == cand.value
                   && rest == queue[1..][i + 1..];
          assert forall j :: 0 < j <= i ==> queue[j] == queue[1..][j - 1];
          assert FirstOpenAt(queue, i + 1, log, s, c);
        } else {
          assert forall j :: 0 < j < |queue| ==> queue[j] == queue[1..][j - 1];
        }
      }
    }
  }

  /**
   The explorer proposes the first candidate the whole log leaves open: of its queue at the
   state, else of the scored ones, or in the order of memory. It proposes none only when none is open.
   */
  lemma ProposalIsFirstOpen(v: View, log: seq<Record>, p: nat, h: seq<Record>, s: StateKey, raw: seq<Candidate>,
                            order: Option<seq<Candidate>>, c: Config)
    requires Numbered(log) && Suffix(h, log) && |log| - |h| <= p <= |log| && c.ids != []
    requires Exact(v, log[..p], c)
    ensures IsFirstOpen(Consulted(v, log[p..], log, s, raw, order, c), Choose(v, h, s, raw, order, c).1, log, s, c)
  {
    hide Refresh, EnsureActions, Backfill, Exact, OpenAt, IsFirstOpen, PopFrom, Waiting;
    var u := RefreshedExplorer(v, log, p, h, c);
    RefreshedQueue(v, log, p, h, s, c);
    ChoiceFromQueue(u, log, s, raw, order, c);
    NothingTried(Get(u.frontier, s, []), s);
  }

  lemma RefreshedQueue(v: View, log: seq<Record>, p: nat, h: seq<Record>, s: StateKey, c: Config)
    requires Numbered(log) && Suffix(h, log) && |log| - |h| <= p <= |log|
    requires Exact(v, log[..p], c)
    ensures Get(Refresh(EnsureActions(v, c.ids), h, c).frontier, s, []) == Waiting(Get(v.frontier, s, []), log[p..], s)
  {
    hide Refresh, EnsureActions, TriesExact, NoopsExact, BansExact, MarkerOk, Waiting;
    EnsureActionsKeepsExact(v, log[..p], c.ids, c);
    RefreshQueue(EnsureActions(v, c.ids), log, p, h, s, c);
  }

  lemma ChoiceFromQueue(u: View, log: seq<Record>, s: StateKey, raw: seq<Candidate>, order: Option<seq<Candidate>>,
                        c: Config)
    requires Exact(u, log, c)
    ensures var cand := Pop(Reorder(BuildFrontier(u, s, raw, c), s, order), s, c).1;
      IsFirstOpen(Consulted(u, [], log, s, raw, order, c), cand, log, s, c)
  {
    hide Exact, IsFirstOpen, Filtered, Waiting, Pop, Admitted, BuildFrontier, Reorder;
    var w := Reorder(BuildFrontier(u, s, raw, c), s, order);
    QueueAtChoice(u, s, raw, order, c);
    ExactWithQueues(u, w, log, c);
    PopIsFirstOpen(w, log, s, c);
    NothingTried(Get(u.frontier, s, []), s);
    FilteredKeepsFirst(u, raw, Pop(w, s, c).1, log, s, c);
    FilteredEmpty(u, raw, log, c);
  }

  lemma QueueAtChoice(u: View, s: StateKey, raw: seq<Candidate>, order: Option<seq<Candidate>>, c: Config)
    ensures var w := Reorder(BuildFrontier(u, s, raw, c), s, order);
      var queue := Get(u.frontier, s, []);
      var built := if queue != [] then queue else Filtered(u, raw, c);
      && w == u.(frontier := w.frontier)
      && Get(w.frontier, s, []) == if built != [] && order.Some? then order.value else built
  {
    hide Filtered;
  }

  lemma ExactWithQueues(v: View, w: View, log: seq<Record>, c: Config)
    requires Exact(v, log, c) && w == v.(frontier := w.frontier)
    ensures Exact(w, log, c)
  {
    hide TriesExact, NoopsExact, BansExact, MarkerOk;
    QueuesAreSeparate(v, w, log, c);
  }

  lemma PopIsFirstOpen(v: View, log: seq<Record>, s: StateKey, c: Config)
    requires Exact(v, log, c)
    ensures IsFirstOpen(Get(v.frontier, s, []), Pop(v, s, c).1, log, s, c)
  {
    hide Exact, OpenAt;
    PopsFirstOpen(v, log, s, Get(v.frontier, s, []), c);
  }

  lemma {:induction false} FilteredEmpty(v: View, raw: seq<Candidate>, log: seq<Record>, c: Config)
    requires Exact(v, log, c)
    ensures Filtered(v, raw, c) != [] <==> exists i :: 0 <= i < |raw| && Admitted(log, KeyOf(raw[i]), c)
  {
    hide Exact, Admitted;
    if raw != [] {
      var front, last := raw[..|raw| - 1], raw[|raw| - 1];
      FilteredEmpty(v, front, log, c);
      AllowedIsAdmitted(v, log, KeyOf(last), c);
      assert forall i :: 0 <= i < |front| ==> front[i] == raw[i];
      if Filtered(v, front, c) != [] {
        var i :| 0 <= i < |front| && Admitted(log, KeyOf(front[i]), c);
        assert Admitted(log, KeyOf(raw[i]), c);
      }
    }
  }

  // ---------------------------------------------------------------- reports

  /** build_frontier_report refreshes the counters like a choice does, when there is a coordinate action. */
  lemma ReportIsExact(v: View, log: seq<Record>, p: nat, h: seq<Record>, s: StateKey, raw: seq<Candidate>, c: Config)
    requires Numbered(log) && Suffix(h, log) && |log| - |h| <= p <= |log|
    requires c.ids != [] ==> Exact(v, log[..p], c)
    ensures c.ids != [] ==> Exact(Report(v, h, s, raw, c), log, c)
  {
    hide Refresh, EnsureActions, TriesExact, NoopsExact, BansExact, MarkerOk;
    if c.ids != [] {
      var e := EnsureActions(v, c.ids);
      EnsureActionsKeepsExact(v, log[..p], c.ids, c);
      RefreshIsExact(e, log, p, h, c);
      QueuesAreSeparate(Refresh(e, h, c), Report(v, h, s, raw, c), log, c);
    }
  }

  /** A report in between does not change what a choice at the same state will be. */
  lemma ReportKeepsChoice(v: View, log: seq<Record>, p: nat, h: seq<Record>, s: StateKey, raw: seq<Candidate>,
                          order: Option<seq<Candidate>>, cand: Option<Candidate>, c: Config)
    requires Numbered(log) && Suffix(h, log) && |log| - |h| <= p <= |log| && c.ids != []
    requires Exact(v, log[..p], c)
    ensures IsFirstOpen(Consulted(Report(v, h, s, raw, c), [], log, s, raw, order, c), cand, log, s, c) <==>
            IsFirstOpen(Consulted(v, log[p..], log, s, raw, order, c), cand, log, s, c)
  {
    hide Refresh, EnsureActions, Backfill, Exact, IsFirstOpen, Waiting, BuildFrontier, Filtered, Admitted;
    var u := RefreshedExplorer(v, log, p, h, c);
    var w := BuildFrontier(u, s, raw, c);
    RefreshedQueue(v, log, p, h, s, c);
    QueueAtChoice(u, s, raw, None, c);
    assert Reorder(w, s, None) == w;
    NothingTried(Get(w.frontier, s, []), s);
    FilteredKeepsFirst(u, raw, cand, log, s, c);
    FilteredEmpty(u, raw, log, c);
  }

  // ---------------------------------------------------------------- which windows are wide enough

  /** What a report sees besides the history: the current state and the scored candidates. */
  type Sight = (StateKey, seq<Candidate>)

  /** The explorer's state when it reports after every step. */
  function ViewAfter(batches: seq<seq<Record>>, sights: seq<Sight>, n: int, c: Config): View
    requires |sights| == |batches|
  {
    if batches == [] then EMPTY else
      var last := |batches| - 1;
      var (state, raw) := sights[last];
      Report(ViewAfter(batches[..last], sights[..last], n, c), HistoryAfter(batches, n), state, raw, c)
  }

  lemma EmptyIsExact(c: Config)
    ensures Exact(EMPTY, [], c)
  {
    forall k ensures Column(EMPTY.noops, k) == map[] {}
  }

  lemma {:induction false} WideWindowIsExact(batches: seq<seq<Record>>, sights: seq<Sight>, n: int, c: Config)
    requires n == 0 || n >= 2
    requires IsRun(batches) && |sights| == |batches| && c.ids != []
    ensures Exact(ViewAfter(batches, sights, n, c), Flatten(batches), c)
  {
    hide Exact, Report;
    if batches == [] {
      EmptyIsExact(c);
    } else {
      var front, last := batches[..|batches| - 1], sights[|batches| - 1];
      RunPrefix(batches);
      WideWindowIsExact(front, sights[..|front|], n, c);
      HistoryLaws(batches, n);
      ReportIsExact(ViewAfter(front, sights[..|front|], n, c), Flatten(batches), |Flatten(front)|,
                    HistoryAfter(batches, n), last.0, last.1, c);
    }
  }

  /** A click of the first action on offer, or of any when there is none. */
  function Click(c: Config): Action {
    Action(CoordKind, Some(if c.ids == [] then "A" else c.ids[0]), Some(0), Some(0))
  }

  /** Records without a countable action change nothing. */
  lemma {:induction false} ProcessIrrelevant(v: View, rs: seq<Record>, c: Config)
    requires forall i :: 0 <= i < |rs| ==> !Relevant(rs[i])
    ensures ProcessAll(v, rs, c) == v
  {
    if rs != [] { ProcessIrrelevant(v, rs[..|rs| - 1], c); }
  }

  /** After one lost game the click is uncounted: its record is cut off, or the explorer never looks. */
  lemma LostClickIsUncounted(sight: Sight, n: int, c: Config)
    requires n == 1 || n < 0 || c.ids == []
    ensures ViewAfter(LostGame(Click(c)), [sight], n, c).tried == map[]
  {
    hide BuildFrontier, EnsureActions, NewEntries;
    var batches := LostGame(Click(c));
    var h := HistoryAfter(batches, n);
    AfterOne(batches, [sight], n, c);
    if c.ids != [] {
      LostGameHistory(Click(c), n);
      var e := EnsureActions(EMPTY, c.ids);
      EnsureActionsKeepsExact(EMPTY, [], c.ids, c);
      OneNewEntry(h, e.last);
      ProcessIrrelevant(e, NewEntries(h, e.last), c);
      BuildTouchesQueues(e, sight.0, sight.1, c);
    }
  }

  lemma BuildTouchesQueues(v: View, s: StateKey, raw: seq<Candidate>, c: Config)
    ensures BuildFrontier(v, s, raw, c) == v.(frontier := BuildFrontier(v, s, raw, c).frontier)
  {
  }

  lemma AfterOne(batches: seq<seq<Record>>, sights: seq<Sight>, n: int, c: Config)
    requires |batches| == |sights| == 1
    ensures ViewAfter(batches, sights, n, c) == Report(EMPTY, HistoryAfter(batches, n), sights[0].0, sights[0].1, c)
  {
    assert batches[..0] == [] && sights[..0] == [];
    assert ViewAfter(batches[..0], sights[..0], n, c) == EMPTY;
  }

  lemma LostGameIsMiscounted(sight: Sight, n: int, c: Config)
    requires n == 1 || n < 0 || c.ids == []
    ensures !Exact(ViewAfter(LostGame(Click(c)), [sight], n, c), Flatten(LostGame(Click(c))), c)
  {
    hide ViewAfter, Flatten, NoopsExact, BansExact, MarkerOk;
    var batches := LostGame(Click(c));
    LostGameIsRun(Click(c));
    LostClickIsUncounted(sight, n, c);
    TrialsPositive(batches[0], 0);
    var k := RecordKey(batches[0][0]);
    assert Get(ViewAfter(batches, [sight], n, c).tried, k, 0) != Trials(Flatten(batches), k);
  }

  /**
   The coordinate counters, too, are exact in every run exactly for a window of 0 or at least 2,
   provided there is a coordinate action: otherwise the explorer returns before it counts.
   */
  lemma WindowsThatSuffice(n: int, c: Config)
    ensures (forall batches, sights: seq<Sight> :: IsRun(batches) && |sights| == |batches| ==>
              Exact(ViewAfter(batches, sights, n, c), Flatten(batches), c))
            <==> c.ids != [] && (n == 0 || n >= 2)
  {
    if c.ids != [] && (n == 0 || n >= 2) {
      forall batches, sights: seq<Sight> | IsRun(batches) && |sights| == |batches|
        ensures Exact(ViewAfter(batches, sights, n, c), Flatten(batches), c)
      {
        WideWindowIsExact(batches, sights, n, c);
      }
    } else {
      var sight: Sight := ("s", []);
      LostGameIsRun(Click(c));
      LostGameIsMiscounted(sight, n, c);
    }
  }

  /** A run that only takes coordinate actions on offer. */
  ghost predicate OnlyOffered(batches: seq<seq<Record>>, c: Config) {
    var log := Flatten(batches);
    forall i :: 0 <= i < |log| && Relevant(log[i]) ==> RecordKey(log[i]).0 in c.ids
  }

  /** Over runs that only take actions on offer, having none does no harm. */
  lemma WindowsThatSufficeForOffered(n: int, c: Config)
    ensures (forall batches, sights: seq<Sight> ::
              IsRun(batches) && OnlyOffered(batches, c) && |sights| == |batches| ==>
              Exact(ViewAfter(batches, sights, n, c), Flatten(batches), c))
            <==> c.ids == [] || n == 0 || n >= 2
  {
    if c.ids == [] || n == 0 || n >= 2 {
      forall batches, sights: seq<Sight> | IsRun(batches) && OnlyOffered(batches, c) && |sights| == |batches|
        ensures Exact(ViewAfter(batches, sights, n, c), Flatten(batches), c)
      {
        if c.ids == [] {
          StaysEmpty(batches, sights, n, c);
          NothingToCount(Flatten(batches), c);
        } else {
          WideWindowIsExact(batches, sights, n, c);
        }
      }
    } else {
      var sight: Sight := ("s", []);
      LostGameIsRun(Click(c));
      LostGameIsMiscounted(sight, n, c);
    }
  }

  lemma {:induction false} StaysEmpty(batches: seq<seq<Record>>, sights: seq<Sight>, n: int, c: Config)
    requires |sights| == |batches| && c.ids == []
    ensures ViewAfter(batches, sights, n, c) == EMPTY
  {
    if batches != [] { StaysEmpty(batches[..|batches| - 1], sights[..|batches| - 1], n, c); }
  }

  /** Records the explorer does not count leave an empty explorer exact. */
  lemma {:induction false} NothingToCount(log: seq<Record>, c: Config)
    requires forall i :: 0 <= i < |log| ==> !Relevant(log[i])
    ensures Exact(EMPTY, log, c)
  {
    hide Exact;
    if log == [] {
      EmptyIsExact(c);
    } else {
      var front := log[..|log| - 1];
      NothingToCount(front, c);
      IrrelevantKeepsExact(EMPTY, front, log[|log| - 1], c);
      assert log == front + [log[|log| - 1]];
    }
  }

  // ---------------------------------------------------------------- the state object

  /** The dictionaries themselves, updated in place; each method's contract is the operation above. */
  class FullFrontierState {
    var stateFrontier: map<StateKey, seq<Candidate>>
    var stateNoopCounts: map<StateKey, map<Key, nat>>
    var stateBanlist: map<StateKey, set<Key>>
    var globalNoopCounts: map<Key, nat>
    var coordTried: map<Key, nat>
    var actionCoordTried: map<ActionKey, set<(int, int)>>
    var actionAttempts: map<ActionKey, nat>
    var lastProcessedStep: int

    function Now(): View
      reads this
    {
      View(stateFrontier, stateNoopCounts, stateBanlist, globalNoopCounts,
           coordTried, actionCoordTried, actionAttempts, lastProcessedStep)
    }

    constructor ()
      ensures Now() == EMPTY
    {
      stateFrontier, stateNoopCounts, stateBanlist, globalNoopCounts := map[], map[], map[], map[];
      coordTried, actionCoordTried, actionAttempts, lastProcessedStep := map[], map[], map[], -1;
    }

    method EnsureActionState(ids: seq<ActionKey>)
      modifies this
      ensures Now() == EnsureActions(old(Now()), ids)
    {
      ghost var v0 := Now();
      var i := 0;
      while i < |ids|
        invariant 0 <= i <= |ids| && Now() == EnsureActions(v0, ids[..i])
      {
        assert ids[..i + 1][..i] == ids[..i];
        actionAttempts := actionAttempts[ids[i] := Get(actionAttempts, ids[i], 0)];
        actionCoordTried := actionCoordTried[ids[i] := Get(actionCoordTried, ids[i], {})];
        i := i + 1;
      }
      assert ids[..|ids|] == ids;
    }

    /** The counter updates that the refresh and the backfill share. */
    method CountTrial(r: Record, c: Config)
      requires Relevant(r)
      modifies this
      ensures Now() == AddTrial(old(Now()), r, c)
    {
      var key := RecordKey(r);
      coordTried := Bump(coordTried, key);
      actionCoordTried := actionCoordTried[key.0 := Get(actionCoordTried, key.0, {}) + {(key.1, key.2)}];
      actionAttempts := actionAttempts[key.0 := Get(actionAttempts, key.0, 0) + 1];
      assert Now() == CountTry(old(Now()), key);
      if r.changed == 0 {
        AddNoop(r.before.value, key, c);
      }
    }

    method AddNoop(prev: StateKey, key: Key, c: Config)
      modifies this
      ensures Now() == CountNoop(old(Now()), prev, key, c)
    {
      stateNoopCounts := BumpAt(stateNoopCounts, prev, key);
      globalNoopCounts := Bump(globalNoopCounts, key);
      if stateNoopCounts[prev][key] >= c.banAfter {
        stateBanlist := stateBanlist[prev := Get(stateBanlist, prev, {}) + {key}];
      }
    }

    method ProcessEntry(r: Record, c: Config)
      modifies this
      ensures Now() == Process(old(Now()), r, c)
    {
      if Relevant(r) {
        CountTrial(r, c);
        var frontier := Get(stateFrontier, r.before.value, []);
        if frontier != [] {
          stateFrontier := stateFrontier[r.before.value := Excluding(frontier, RecordKey(r))];
        }
        lastProcessedStep := Max(lastProcessedStep, r.step);
      }
    }

    method UpdateFromHistory(h: seq<Record>, c: Config)
      modifies this
      ensures Now() == Refresh(old(Now()), h, c)
    {
      var entries := NewEntries(h, lastProcessedStep);
      ghost var v0 := Now();
      var i := 0;
      while i < |entries|
        invariant 0 <= i <= |entries| && Now() == ProcessAll(v0, entries[..i], c)
      {
        assert entries[..i + 1][..i] == entries[..i];
        ProcessEntry(entries[i], c);
        i := i + 1;
      }
      assert entries[..|entries|] == entries;
    }

    method BackfillCoordTrials(h: seq<Record>, c: Config)
      modifies this
      ensures Now() == Backfill(old(Now()), h, c)
    {
      ghost var v0 := Now();
      var i := 0;
      while i < |h|
        invariant 0 <= i <= |h| && Now() == Backfill(v0, h[..i], c)
      {
        assert h[..i + 1][..i] == h[..i];
        if Relevant(h[i]) {
          CountTrial(h[i], c);
        }
        i := i + 1;
      }
      assert h[..|h|] == h;
    }

    /** The pop loop: candidates that may not be proposed are thrown away. */
    method PopCoordCandidate(s: StateKey, c: Config) returns (cand: Option<Candidate>)
      modifies this
      ensures (Now(), cand) == Pop(old(Now()), s, c)
    {
      var queue := Get(stateFrontier, s, []);
      cand := None;
      if queue == [] {
        return;
      }
      ghost var v, queue0 := Now(), queue;
      while queue != []
        invariant Now() == v && cand.None? && PopFrom(v, s, queue, c) == PopFrom(v, s, queue0, c)
        decreases |queue|
      {
        var head := queue[0];
        queue := queue[1..];
        if KeyOf(head) !in Get(stateBanlist, s, {}) && Allowed(Now(), KeyOf(head), c) {
          cand := Some(head);
          break;
        }
      }
      stateFrontier := stateFrontier[s := queue];
    }

    method BuildIfEmpty(s: StateKey, raw: seq<Candidate>, c: Config)
      modifies this
      ensures Now() == BuildFrontier(old(Now()), s, raw, c)
    {
      if Get(stateFrontier, s, []) == [] {
        stateFrontier := stateFrontier[s := Filtered(Now(), raw, c)];
      }
    }

    method ChooseAction(h: seq<Record>, s: StateKey, raw: seq<Candidate>, order: Option<seq<Candidate>>, c: Config)
      returns (cand: Option<Candidate>)
      modifies this
      ensures (Now(), cand) == Choose(old(Now()), h, s, raw, order, c)
    {
      if c.ids == [] {
        return None;
      }
      EnsureActionState(c.ids);
      UpdateFromHistory(h, c);
      if coordTried == map[] {
        BackfillCoordTrials(h, c);
      }
      BuildIfEmpty(s, raw, c);
      if order.Some? && Get(stateFrontier, s, []) != [] {
        stateFrontier := stateFrontier[s := order.value];
      }
      cand := PopCoordCandidate(s, c);
    }

    method BuildFrontierReport(h: seq<Record>, s: StateKey, raw: seq<Candidate>, c: Config)
      modifies this
      ensures Now() == Report(old(Now()), h, s, raw, c)
    {
      if c.ids != [] {
        EnsureActionState(c.ids);
        UpdateFromHistory(h, c);
        BuildIfEmpty(s, raw, c);
      }
    }
  }
}
