/**
 The stepwise simple explorer (simple_explorer.py): which actions each state has left to try,
 how often each was attempted and where it led, all updated from the bounded history.
 */
module SimpleFrontier {
  import opened Common
  import opened History
  import opened Sorting

  /** `hash` stands for Python's string hash, `cap` for attempts_per_action_per_state. */
  datatype Config = Config(ids: seq<ActionKey>, cap: int, hash: StateKey -> int)

  /** The explorer's dictionaries, as values. */
  datatype View = View(untried: map<StateKey, seq<ActionKey>>,
                       attempts: map<StateKey, map<ActionKey, nat>>,
                       outcomes: map<StateKey, map<ActionKey, map<StateKey, nat>>>, last: int)

  const EMPTY := View(map[], map[], map[], -1)

  // ---------------------------------------------------------------- what each operation does

  function Rotated(ids: seq<ActionKey>, h: int): (r: seq<ActionKey>)
    ensures forall a :: a in r <==> a in ids
    ensures Distinct(ids) ==> Distinct(r)
  {
    if ids == [] then [] else
      var o := (if h < 0 then -h else h) % |ids|;
      assert ids == ids[..o] + ids[o..];
      ids[o..] + ids[..o]
  }

  /** The ids in their cyclic order, from the place the hash gives. */
  lemma RotatedAt(ids: seq<ActionKey>, h: int, i: nat)
    requires i < |ids|
    ensures var n, o := |ids|, Abs(h) % |ids|;
      |Rotated(ids, h)| == n && Rotated(ids, h)[i] == if o + i < n then ids[o + i] else ids[o + i - n]
  {
  }

  predicate SameKeys(v: View) {
    v.attempts.Keys == v.untried.Keys == v.outcomes.Keys
  }

  function Ensure(v: View, s: StateKey, c: Config): (w: View)
    ensures SameKeys(v) ==> SameKeys(w)
    ensures s in w.attempts && v.attempts.Keys <= w.attempts.Keys
  {
    if s in v.attempts then v else
      v.(attempts := v.attempts[s := map[]],
         untried := v.untried[s := Rotated(c.ids, c.hash(s))],
         outcomes := v.outcomes[s := map[]])
  }

  /** list.remove: drop the first occurrence. */
  function Without(s: seq<ActionKey>, a: ActionKey): seq<ActionKey> {
    if s == [] then [] else if s[0] == a then s[1..] else [s[0]] + Without(s[1..], a)
  }

  function Remove(untried: map<StateKey, seq<ActionKey>>, s: StateKey, a: ActionKey): (r: map<StateKey, seq<ActionKey>>)
    ensures r.Keys == untried.Keys
  {
    if s in untried && a in untried[s] then untried[s := Without(untried[s], a)] else untried
  }

  type AttemptTable = map<StateKey, map<ActionKey, nat>>
  type OutcomeTable = map<StateKey, map<ActionKey, map<StateKey, nat>>>

  function AddAttempt(m: AttemptTable, s: StateKey, a: ActionKey): AttemptTable
    requires s in m
  {
    var row: map<ActionKey, nat> := m[s];
    m[s := row[a := Get(row, a, 0) + 1]]
  }

  function AddOutcome(m: OutcomeTable, s: StateKey, a: ActionKey, t: StateKey): OutcomeTable
    requires s in m
  {
    var row: map<ActionKey, map<StateKey, nat>> := m[s];
    var counts: map<StateKey, nat> := Get(row, a, map[]);
    m[s := row[a := counts[t := Get(counts, t, 0) + 1]]]
  }

  /** Remove the action when this outcome is no longer new, or when the attempts are used up. */
  function DropExhausted(untried: map<StateKey, seq<ActionKey>>, s: StateKey, a: ActionKey, attempts: nat, seen: nat,
                         cap: int)
    : (r: map<StateKey, seq<ActionKey>>)
    ensures r.Keys == untried.Keys
  {
    var once := if seen >= 2 then Remove(untried, s, a) else untried;
    if attempts >= cap then Remove(once, s, a) else once
  }

  function RecordOutcome(v: View, prev: StateKey, a: ActionKey, next: StateKey, c: Config): (w: View)
    requires prev in v.attempts && prev in v.outcomes
    ensures SameKeys(v) ==> SameKeys(w)
  {
    var attempts, outcomes := AddAttempt(v.attempts, prev, a), AddOutcome(v.outcomes, prev, a, next);
    var untried := DropExhausted(v.untried, prev, a, attempts[prev][a], outcomes[prev][a][next], c.cap);
    View(untried, attempts, outcomes, v.last)
  }

  /** Records this explorer counts: a known simple action between two known states. */
  predicate Relevant(r: Record, ids: seq<ActionKey>) {
    r.action.kind == SimpleKind && r.action.id.Some? && r.action.id.value in ids && r.before.Some? && r.after.Some?
  }

  function Process(v: View, r: Record, c: Config): (w: View)
    requires SameKeys(v)
    ensures SameKeys(w)
  {
    if !Relevant(r, c.ids) then v else
      var u := Ensure(Ensure(v, r.before.value, c), r.after.value, c);
      RecordOutcome(u, r.before.value, r.action.id.value, r.after.value, c).(last := Max(u.last, r.step))
  }

  function ProcessAll(v: View, rs: seq<Record>, c: Config): (w: View)
    requires SameKeys(v)
    ensures SameKeys(w)
  {
    if rs == [] then v else Process(ProcessAll(v, rs[..|rs| - 1], c), rs[|rs| - 1], c)
  }

  /** The refresh from a history: process the records newer than the last one processed, oldest first. */
  function Refresh(v: View, h: seq<Record>, c: Config): (w: View)
    requires SameKeys(v)
    ensures SameKeys(w)
  {
    ProcessAll(v, NewEntries(h, v.last), c)
  }

  /** What the memory view contributes: which actions to hide, and the order of the rest. */
  datatype Ordering = Ordering(blocked: set<ActionKey>, before: (ActionKey, ActionKey) -> bool)

  function Kept(s: seq<ActionKey>, blocked: set<ActionKey>): seq<ActionKey> {
    if s == [] then [] else
      var front := Kept(s[..|s| - 1], blocked);
      if s[|s| - 1] in blocked then front else front + [s[|s| - 1]]
  }

  /** Hide blocked actions unless that hides them all, and sort; the list is replaced for good. */
  function Reorder(v: View, s: StateKey, o: Option<Ordering>): View {
    if o.None? || s !in v.untried || v.untried[s] == [] then v else
      var kept := Kept(v.untried[s], o.value.blocked);
      v.(untried := v.untried[s := SortBy(if kept != [] then kept else v.untried[s], o.value.before)])
  }

  function FirstIn(ids: seq<ActionKey>, s: seq<ActionKey>): Option<ActionKey> {
    if ids == [] then None else if ids[0] in s then Some(ids[0]) else FirstIn(ids[1..], s)
  }

  /** The next action: the rotation's choice if untried, else the first untried id; it stays in the list. */
  function NextAction(untried: map<StateKey, seq<ActionKey>>, s: StateKey, ids: seq<ActionKey>,
                      offset: nat)
    : (r: Option<ActionKey>)
    ensures r.None? <==> Get(untried, s, []) == []
    ensures r.Some? ==> r.value in Get(untried, s, [])
  {
    var actions := Get(untried, s, []);
    if actions == [] then None
    else if ids != [] && ids[offset % |ids|] in actions then Some(ids[offset % |ids|])
    else
      var first := FirstIn(ids, actions);
      FirstInLaw(ids, actions);
      if first.Some? then first else Some(actions[0])
  }

  lemma FirstInLaw(ids: seq<ActionKey>, s: seq<ActionKey>)
    ensures FirstIn(ids, s).Some? ==> FirstIn(ids, s).value in s
  {
  }

  /** The untried action that stands first in the rotation's order: its turn, then the ids from the start. */
  lemma NextActionIsFirst(untried: map<StateKey, seq<ActionKey>>, s: StateKey, ids: seq<ActionKey>, offset: nat,
                          i: nat)
    requires i < |ids| && ids[i] in Get(untried, s, [])
    ensures var act := NextAction(untried, s, ids, offset);
      && act.Some? && act.value in ids
      && (ids[offset % |ids|] in Get(untried, s, []) ==> act.value == ids[offset % |ids|])
      && (ids[offset % |ids|] !in Get(untried, s, []) ==>
           exists j :: 0 <= j <= i && ids[j] == act.value && forall k :: 0 <= k < j ==> ids[k] !in Get(untried, s, []))
  {
    FirstInIsFirst(ids, Get(untried, s, []), i);
  }

  lemma {:induction false} FirstInIsFirst(ids: seq<ActionKey>, s: seq<ActionKey>, i: nat)
    requires i < |ids| && ids[i] in s
    ensures FirstIn(ids, s).Some?
    ensures exists j :: 0 <= j <= i && ids[j] == FirstIn(ids, s).value && forall k :: 0 <= k < j ==> ids[k] !in s
  {
    if ids[0] !in s {
      FirstInIsFirst(ids[1..], s, i - 1);
      var j :| 0 <= j <= i - 1 && ids[1..][j] == FirstIn(ids, s).value && forall k :: 0 <= k < j ==> ids[1..][k] !in s;
      assert forall k :: 1 <= k < |ids| ==> ids[k] == ids[1..][k - 1];
      assert ids[j + 1] == FirstIn(ids, s).value;
    } else {
      assert ids[0] == FirstIn(ids, s).value;
    }
  }

  // ---------------------------------------------------------------- the counts a log determines

  predicate Counts(r: Record, ids: seq<ActionKey>, s: StateKey, a: ActionKey) {
    Relevant(r, ids) && r.before.value == s && r.action.id.value == a
  }

  function Attempts(log: seq<Record>, ids: seq<ActionKey>, s: StateKey, a: ActionKey): nat {
    if log == [] then 0 else
      Attempts(log[..|log| - 1], ids, s, a) + (if Counts(log[|log| - 1], ids, s, a) then 1 else 0)
  }

  function Outcomes(log: seq<Record>, ids: seq<ActionKey>, s: StateKey, a: ActionKey, t: StateKey): nat {
    if log == [] then 0 else
      var r := log[|log| - 1];
      Outcomes(log[..|log| - 1], ids, s, a, t) + (if Counts(r, ids, s, a) && r.after.value == t then 1 else 0)
  }

  /** An action is exhausted once tried `cap` times, or once some outcome has been seen twice. */
  ghost predicate Exhausted(log: seq<Record>, c: Config, s: StateKey, a: ActionKey) {
    Attempts(log, c.ids, s, a) > 0 &&
    (Attempts(log, c.ids, s, a) >= c.cap || exists t :: Outcomes(log, c.ids, s, a, t) >= 2)
  }

  function AttemptCount(v: View, s: StateKey, a: ActionKey): nat {
    Get(Get(v.attempts, s, map[]), a, 0)
  }

  function OutcomeCounts(v: View, s: StateKey, a: ActionKey): map<StateKey, nat> {
    Get(Get(v.outcomes, s, map[]), a, map[])
  }

  function OutcomeCount(v: View, s: StateKey, a: ActionKey, t: StateKey): nat {
    Get(OutcomeCounts(v, s, a), t, 0)
  }

  ghost predicate CountersExact(v: View, log: seq<Record>, ids: seq<ActionKey>) {
    && SameKeys(v)
    && (forall s, a :: AttemptCount(v, s, a) == Attempts(log, ids, s, a))
    && (forall s, a, t :: OutcomeCount(v, s, a, t) == Outcomes(log, ids, s, a, t))
    && (forall s, a :: SumValues(OutcomeCounts(v, s, a)) == AttemptCount(v, s, a))
  }

  /** Actions memory took off the untried lists of known states. */
  type Hidden = set<(StateKey, ActionKey)>

  /** Untried lists hold, once each, exactly the known actions that are neither exhausted nor hidden by memory. */
  ghost predicate UntriedExact(v: View, log: seq<Record>, c: Config, hidden: Hidden) {
    && (forall s :: s in v.untried ==> Distinct(v.untried[s]))
    && (forall s, a :: s in v.untried ==> (a in v.untried[s] <==> Open(log, c, hidden, s, a)))
    && (forall s, a :: (s, a) in hidden ==> s in v.untried)
  }

  ghost predicate Open(log: seq<Record>, c: Config, hidden: Hidden, s: StateKey, a: ActionKey) {
    a in c.ids && !Exhausted(log, c, s, a) && (s, a) !in hidden
  }

  /** The marker is at or past every counted record, and is -1 or the step of a counted one. */
  ghost predicate MarkerOk(v: View, log: seq<Record>, ids: seq<ActionKey>) {
    && (forall i :: 0 <= i < |log| && Relevant(log[i], ids) ==> log[i].step <= v.last)
    && (v.last == -1 || exists i :: 0 <= i < |log| && Relevant(log[i], ids) && log[i].step == v.last)
  }

  /** The explorer's state is exactly what the whole log calls for. */
  ghost predicate Exact(v: View, log: seq<Record>, c: Config, hidden: Hidden) {
    CountersExact(v, log, c.ids) && UntriedExact(v, log, c, hidden) && MarkerOk(v, log, c.ids)
  }

  // ---------------------------------------------------------------- every operation keeps it exact

  lemma EmptyIsExact(c: Config)
    ensures Exact(EMPTY, [], c, {})
  {
  }

  /** Knowing a new state changes no count. */
  lemma EnsureKeepsCounts(v: View, s: StateKey, c: Config)
    ensures var w := Ensure(v, s, c);
      && (forall x, a :: AttemptCount(w, x, a) == AttemptCount(v, x, a))
      && (SameKeys(v) ==> forall x, a :: OutcomeCounts(w, x, a) == OutcomeCounts(v, x, a))
  {
  }

  /** Its untried list starts complete and unattempted. */
  lemma EnsureKeepsExact(v: View, log: seq<Record>, c: Config, hidden: Hidden, s: StateKey)
    requires Exact(v, log, c, hidden) && Distinct(c.ids)
    ensures Exact(Ensure(v, s, c), log, c, hidden)
  {
    var w := Ensure(v, s, c);
    if s !in v.attempts {
      EnsureKeepsCounts(v, s, c);
      var r := Rotated(c.ids, c.hash(s));
      forall a ensures a in r <==> Open(log, c, hidden, s, a) {
        assert AttemptCount(v, s, a) == 0;
      }
    }
  }

  lemma AppendCounts(log: seq<Record>, r: Record, ids: seq<ActionKey>)
    ensures forall s, a :: Attempts(log + [r], ids, s, a)
              == Attempts(log, ids, s, a) + (if Counts(r, ids, s, a) then 1 else 0)
    ensures forall s, a, t :: Outcomes(log + [r], ids, s, a, t)
              == Outcomes(log, ids, s, a, t) + (if Counts(r, ids, s, a) && r.after.value == t then 1 else 0)
  {
    assert (log + [r])[..|log|] == log;
  }

  lemma RecordKeepsCounters(v: View, log: seq<Record>, c: Config, r: Record)
    requires CountersExact(v, log, c.ids) && Relevant(r, c.ids)
    requires r.before.value in v.attempts
    ensures CountersExact(RecordOutcome(v, r.before.value, r.action.id.value, r.after.value, c), log + [r], c.ids)
  {
    var prev, act, next := r.before.value, r.action.id.value, r.after.value;
    AppendCounts(log, r, c.ids);
    RecordedCounters(v, prev, act, next, c);
  }

  /** Recording one outcome adds one to exactly one attempt counter and one outcome counter. */
  lemma RecordedCounters(v: View, prev: StateKey, act: ActionKey, next: StateKey, c: Config)
    requires SameKeys(v) && prev in v.attempts
    ensures var w := RecordOutcome(v, prev, act, next, c);
      && SameKeys(w)
      && (forall s, a :: AttemptCount(w, s, a) == AttemptCount(v, s, a) + (if s == prev && a == act then 1 else 0))
      && (forall s, a, t :: OutcomeCount(w, s, a, t)
           == OutcomeCount(v, s, a, t) + (if s == prev && a == act && t == next then 1 else 0))
      && (forall s, a :: SumValues(OutcomeCounts(w, s, a))
           == SumValues(OutcomeCounts(v, s, a)) + (if s == prev && a == act then 1 else 0))
  {
    AddedAttempt(v.attempts, prev, act);
    AddedOutcome(v.outcomes, prev, act, next);
  }

  lemma AddedAttempt(m: AttemptTable, prev: StateKey, act: ActionKey)
    requires prev in m
    ensures var n := AddAttempt(m, prev, act);
      forall s, a :: Get(Get(n, s, map[]), a, 0)
        == Get(Get(m, s, map[]), a, 0) + (if s == prev && a == act then 1 else 0)
  {
  }

  lemma AddedOutcome(m: OutcomeTable, prev: StateKey, act: ActionKey, next: StateKey)
    requires prev in m
    ensures var n := AddOutcome(m, prev, act, next);
      && (forall s, a, t :: Get(Get(Get(n, s, map[]), a, map[]), t, 0)
           == Get(Get(Get(m, s, map[]), a, map[]), t, 0) + (if s == prev && a == act && t == next then 1 else 0))
      && (forall s, a :: SumValues(Get(Get(n, s, map[]), a, map[]))
           == SumValues(Get(Get(m, s, map[]), a, map[])) + (if s == prev && a == act then 1 else 0))
  {
    var n := AddOutcome(m, prev, act, next);
    var counts := Get(m[prev], act, map[]);
    assert Get(n[prev], act, map[]) == counts[next := Get(counts, next, 0) + 1];
    SumIncrement(counts, next);
    forall s, a | s != prev || a != act ensures Get(Get(n, s, map[]), a, map[]) == Get(Get(m, s, map[]), a, map[]) {}
  }

  lemma {:induction false} WithoutLaws(s: seq<ActionKey>, a: ActionKey)
    requires Distinct(s)
    ensures Distinct(Without(s, a)) && forall x :: x in Without(s, a) <==> x in s && x != a
  {
    if s != [] {
      DistinctTail(s);
      WithoutLaws(s[1..], a);
      if s[0] != a { DistinctCons(s[0], Without(s[1..], a)); }
    }
  }

  /** After a removal the action is gone from the state's list, and nothing else changed. */
  lemma RemoveLaws(untried: map<StateKey, seq<ActionKey>>, s: StateKey, a: ActionKey)
    requires forall x :: x in untried ==> Distinct(untried[x])
    ensures var u := Remove(untried, s, a);
      && u.Keys == untried.Keys
      && (forall x :: x in u ==> Distinct(u[x]))
      && (forall x, y :: x in u ==> (y in u[x] <==> y in untried[x] && !(x == s && y == a)))
  {
    if s in untried { WithoutLaws(untried[s], a); }
  }

  lemma DropLaws(untried: map<StateKey, seq<ActionKey>>, s: StateKey, a: ActionKey, attempts: nat, seen: nat, cap: int)
    requires forall x :: x in untried ==> Distinct(untried[x])
    ensures var u := DropExhausted(untried, s, a, attempts, seen, cap);
      && (forall x :: x in u ==> Distinct(u[x]))
      && (forall x, y :: x in u ==>
           (y in u[x] <==> y in untried[x] && !(x == s && y == a && (attempts >= cap || seen >= 2))))
  {
    RemoveLaws(untried, s, a);
    RemoveLaws(if seen >= 2 then Remove(untried, s, a) else untried, s, a);
  }

  /** A recorded action that became exhausted is removed; every other list entry stays. */
  lemma RecordKeepsUntried(v: View, log: seq<Record>, c: Config, hidden: Hidden, r: Record)
    requires CountersExact(v, log, c.ids) && UntriedExact(v, log, c, hidden) && Relevant(r, c.ids)
    requires r.before.value in v.attempts
    ensures UntriedExact(RecordOutcome(v, r.before.value, r.action.id.value, r.after.value, c), log + [r], c, hidden)
  {
    var prev, act, next := r.before.value, r.action.id.value, r.after.value;
    var w := RecordOutcome(v, prev, act, next, c);
    assert w.attempts[prev][act] == AttemptCount(v, prev, act) + 1;
    assert w.outcomes[prev][act][next] == OutcomeCount(v, prev, act, next) + 1;
    DropLaws(v.untried, prev, act, w.attempts[prev][act], w.outcomes[prev][act][next], c.cap);
    forall s, a | s in w.untried ensures a in w.untried[s] <==> Open(log + [r], c, hidden, s, a) {
      assert a in v.untried[s] <==> Open(log, c, hidden, s, a);
      ExhaustedLater(v, log, c, r, s, a);
    }
  }

  /** One more record exhausts exactly the action it counts for, when that reaches the cap or repeats its outcome. */
  lemma ExhaustedLater(v: View, log: seq<Record>, c: Config, r: Record, s: StateKey, a: ActionKey)
    requires CountersExact(v, log, c.ids) && Relevant(r, c.ids)
    ensures var dropped := AttemptCount(v, s, a) + 1 >= c.cap || OutcomeCount(v, s, a, r.after.value) + 1 >= 2;
      Exhausted(log + [r], c, s, a) <==> Exhausted(log, c, s, a) || (Counts(r, c.ids, s, a) && dropped)
  {
    AppendCounts(log, r, c.ids);
    var longer, next := log + [r], r.after.value;
    forall t ensures Outcomes(log, c.ids, s, a, t) <= Outcomes(longer, c.ids, s, a, t) {}
    if exists t :: Outcomes(longer, c.ids, s, a, t) >= 2 {
      var t :| Outcomes(longer, c.ids, s, a, t) >= 2;
      if t != next || !Counts(r, c.ids, s, a) {
        OutcomeNeedsAttempt(log, c.ids, s, a, t);
        assert Outcomes(log, c.ids, s, a, t) >= 2;
      }
    }
    if exists t :: Outcomes(log, c.ids, s, a, t) >= 2 {
      var t :| Outcomes(log, c.ids, s, a, t) >= 2;
      assert Outcomes(longer, c.ids, s, a, t) >= 2;
    }
    if Counts(r, c.ids, s, a) {
      assert Outcomes(longer, c.ids, s, a, next) == OutcomeCount(v, s, a, next) + 1;
    }
  }

  lemma {:induction false} OutcomeNeedsAttempt(log: seq<Record>, ids: seq<ActionKey>, s: StateKey, a: ActionKey,
                                               t: StateKey)
    ensures Outcomes(log, ids, s, a, t) <= Attempts(log, ids, s, a)
  {
    if log != [] { OutcomeNeedsAttempt(log[..|log| - 1], ids, s, a, t); }
  }

  lemma ProcessKeepsExact(v: View, log: seq<Record>, c: Config, hidden: Hidden, r: Record)
    requires Exact(v, log, c, hidden) && Distinct(c.ids)
    requires forall i :: 0 <= i < |log| ==> log[i].step <= r.step
    requires r.step >= -1
    ensures Exact(Process(v, r, c), log + [r], c, hidden)
  {
    if Relevant(r, c.ids) {
      var u1 := Ensure(v, r.before.value, c);
      var u := Ensure(u1, r.after.value, c);
      EnsureKeepsExact(v, log, c, hidden, r.before.value);
      EnsureKeepsExact(u1, log, c, hidden, r.after.value);
      RecordKeepsExact(u, log, c, hidden, r);
    } else {
      IrrelevantKeepsExact(v, log, c, hidden, r);
    }
  }

  lemma RecordKeepsExact(v: View, log: seq<Record>, c: Config, hidden: Hidden, r: Record)
    requires Exact(v, log, c, hidden) && Relevant(r, c.ids) && r.before.value in v.attempts && r.step >= -1
    ensures var w := RecordOutcome(v, r.before.value, r.action.id.value, r.after.value, c);
      Exact(w.(last := Max(v.last, r.step)), log + [r], c, hidden)
  {
    var w := RecordOutcome(v, r.before.value, r.action.id.value, r.after.value, c);
    RecordKeepsCounters(v, log, c, r);
    RecordKeepsUntried(v, log, c, hidden, r);
    MarkerAdvances(v, log, c, r);
    LastIsSeparate(w, Max(v.last, r.step), log + [r], c, hidden);
  }

  lemma LastIsSeparate(v: View, last: int, log: seq<Record>, c: Config, hidden: Hidden)
    ensures CountersExact(v, log, c.ids) ==> CountersExact(v.(last := last), log, c.ids)
    ensures UntriedExact(v, log, c, hidden) ==> UntriedExact(v.(last := last), log, c, hidden)
  {
    var w := v.(last := last);
    forall s, a
      ensures AttemptCount(w, s, a) == AttemptCount(v, s, a) && OutcomeCounts(w, s, a) == OutcomeCounts(v, s, a)
    {
    }
  }

  lemma MarkerAdvances(v: View, log: seq<Record>, c: Config, r: Record)
    requires MarkerOk(v, log, c.ids) && Relevant(r, c.ids) && r.step >= -1
    ensures MarkerOk(v.(last := Max(v.last, r.step)), log + [r], c.ids)
  {
    var longer := log + [r];
    if v.last != -1 {
      var i :| 0 <= i < |log| && Relevant(log[i], c.ids) && log[i].step == v.last;
      assert longer[i] == log[i];
    }
    assert longer[|log|] == r;
  }

  /** Records the explorer does not count neither matter nor need to be seen. */
  lemma IrrelevantKeepsExact(v: View, log: seq<Record>, c: Config, hidden: Hidden, r: Record)
    requires !Relevant(r, c.ids)
    ensures Exact(v, log, c, hidden) <==> Exact(v, log + [r], c, hidden)
  {
    var longer := log + [r];
    AppendCounts(log, r, c.ids);
    forall s, a ensures Exhausted(log, c, s, a) <==> Exhausted(longer, c, s, a) {
      forall t ensures Outcomes(longer, c.ids, s, a, t) == Outcomes(log, c.ids, s, a, t) {}
    }
    forall i | 0 <= i < |log| ensures longer[i] == log[i] {}
    if exists i :: 0 <= i < |log| && Relevant(log[i], c.ids) && log[i].step == v.last {
      var i :| 0 <= i < |log| && Relevant(log[i], c.ids) && log[i].step == v.last;
      assert Relevant(longer[i], c.ids);
    }
  }

  lemma {:induction false} IrrelevantRun(v: View, log: seq<Record>, c: Config, hidden: Hidden, m: nat, p: nat)
    requires m <= p <= |log| && Exact(v, log[..p], c, hidden)
    requires forall i :: m <= i < p ==> !Relevant(log[i], c.ids)
    ensures Exact(v, log[..m], c, hidden)
    decreases p
  {
    hide Exact;
    if m < p {
      assert log[..p] == log[..p - 1] + [log[p - 1]];
      IrrelevantKeepsExact(v, log[..p - 1], c, hidden, log[p - 1]);
      IrrelevantRun(v, log, c, hidden, m, p - 1);
    }
  }

  lemma {:induction false} ProcessRun(v: View, log: seq<Record>, c: Config, hidden: Hidden, m: nat, n: nat)
    requires Numbered(log) && m <= n <= |log| && Exact(v, log[..m], c, hidden) && Distinct(c.ids)
    ensures Exact(ProcessAll(v, log[m..n], c), log[..n], c, hidden)
    decreases n
  {
    assert SameKeys(v);
    hide Exact, Process;
    if m < n {
      ProcessRun(v, log, c, hidden, m, n - 1);
      SliceLast(log, m, n);
      ProcessKeepsExact(ProcessAll(v, log[m..n - 1], c), log[..n - 1], c, hidden, log[n - 1]);
    }
  }

  lemma PastMarkerIrrelevant(v: View, log: seq<Record>, ids: seq<ActionKey>, i: nat)
    requires MarkerOk(v, log, ids) && i < |log| && log[i].step > v.last
    ensures !Relevant(log[i], ids)
  {
  }

  /**
   The refresh from a truncated history: when the state was exact for the first `p` records
   and the history still holds everything after them, the state is exact for the whole log.
   */
  lemma RefreshIsExact(v: View, log: seq<Record>, p: nat, h: seq<Record>, c: Config, hidden: Hidden)
    requires Numbered(log) && Suffix(h, log) && |log| - |h| <= p <= |log|
    requires Exact(v, log[..p], c, hidden) && Distinct(c.ids)
    ensures Exact(Refresh(v, h, c), log, c, hidden)
  {
    var m := NewEntriesOfSuffix(log, h, v.last);
    if v.last != -1 {
      var i :| 0 <= i < p && Relevant(log[..p][i], c.ids) && log[..p][i].step == v.last;
      assert log[i].step == i;
    }
    assert m <= p;
    forall i | m <= i < p ensures !Relevant(log[i], c.ids) {
      PastMarkerIrrelevant(v, log[..p], c.ids, i);
    }
    IrrelevantRun(v, log, c, hidden, m, p);
    ProcessRun(v, log, c, hidden, m, |log|);
    assert log[m..|log|] == log[m..] && log[..|log|] == log;
  }

  // ---------------------------------------------------------------- reordering by memory

  lemma {:induction false} KeptLaws(s: seq<ActionKey>, blocked: set<ActionKey>)
    requires Distinct(s)
    ensures Distinct(Kept(s, blocked)) && forall x :: x in Kept(s, blocked) <==> x in s && x !in blocked
  {
    if s != [] {
      var front := s[..|s| - 1];
      KeptLaws(front, blocked);
      assert s == front + [s[|s| - 1]];
      var t := Kept(front, blocked);
      assert forall i :: 0 <= i < |t| ==> t[i] in t;
      assert forall i :: 0 <= i < |front| ==> front[i] in front && front[i] != s[|s| - 1];
    }
  }

  /** What one reordering hides: the blocked entries of the list, unless that is all of them. */
  ghost function NewlyHidden(v: View, s: StateKey, o: Option<Ordering>): (r: Hidden)
    ensures forall x, a :: (x, a) in r <==>
      && x == s && o.Some? && s in v.untried && a in v.untried[s]
      && a in o.value.blocked && Kept(v.untried[s], o.value.blocked) != []
  {
    if o.None? || s !in v.untried || Kept(v.untried[s], o.value.blocked) == [] then {}
    else set a | a in v.untried[s] && a in o.value.blocked :: (s, a)
  }

  /** Memory takes exactly the actions it newly hides off the list, and never brings one back. */
  lemma ReorderKeepsExact(v: View, log: seq<Record>, c: Config, hidden: Hidden, s: StateKey, o: Option<Ordering>)
    requires Exact(v, log, c, hidden)
    ensures Exact(Reorder(v, s, o), log, c, hidden + NewlyHidden(v, s, o))
  {
    var w := Reorder(v, s, o);
    ReorderLaws(v, s, o);
    forall x, a
      ensures AttemptCount(w, x, a) == AttemptCount(v, x, a) && OutcomeCounts(w, x, a) == OutcomeCounts(v, x, a)
    {
    }
    forall x, a | x in w.untried ensures a in w.untried[x] <==> Open(log, c, hidden + NewlyHidden(v, s, o), x, a) {
      assert a in v.untried[x] <==> Open(log, c, hidden, x, a);
    }
  }

  lemma ReorderLaws(v: View, s: StateKey, o: Option<Ordering>)
    requires forall x :: x in v.untried ==> Distinct(v.untried[x])
    ensures var w := Reorder(v, s, o);
      && w == v.(untried := w.untried) && w.untried.Keys == v.untried.Keys
      && (forall x :: x in w.untried ==> Distinct(w.untried[x]))
      && (forall x, a :: x in w.untried ==>
           (a in w.untried[x] <==> a in v.untried[x] && (x, a) !in NewlyHidden(v, s, o)))
  {
    if o.Some? && s in v.untried && v.untried[s] != [] {
      var kept := Kept(v.untried[s], o.value.blocked);
      KeptLaws(v.untried[s], o.value.blocked);
      SortDistinct(if kept != [] then kept else v.untried[s], o.value.before);
    }
  }

  /** build_frontier_report, as values, and what memory hides in it. */
  function Report(v: View, h: seq<Record>, s: StateKey, o: Option<Ordering>, c: Config): View
    requires SameKeys(v)
  {
    Reorder(Ensure(Refresh(v, h, c), s, c), s, o)
  }

  ghost function HiddenByReport(v: View, h: seq<Record>, s: StateKey, o: Option<Ordering>, c: Config): Hidden
    requires SameKeys(v)
  {
    NewlyHidden(Ensure(Refresh(v, h, c), s, c), s, o)
  }

  lemma ReportIsExact(v: View, log: seq<Record>, p: nat, h: seq<Record>, s: StateKey, o: Option<Ordering>, c: Config,
                      hidden: Hidden)
    requires Numbered(log) && Suffix(h, log) && |log| - |h| <= p <= |log|
    requires Exact(v, log[..p], c, hidden) && Distinct(c.ids) && SameKeys(v)
    ensures Exact(Report(v, h, s, o, c), log, c, hidden + HiddenByReport(v, h, s, o, c))
    ensures s in Report(v, h, s, o, c).untried && (o.None? ==> HiddenByReport(v, h, s, o, c) == {})
  {
    hide Refresh, Ensure;
    RefreshIsExact(v, log, p, h, c, hidden);
    EnsureKeepsExact(Refresh(v, h, c), log, c, hidden, s);
    ReorderKeepsExact(Ensure(Refresh(v, h, c), s, c), log, c, hidden, s, o);
  }

  // ---------------------------------------------------------------- choosing an action

  /** choose_action: refresh, make sure the current state is known, let memory reorder, take the next action. */
  function Choose(v: View, h: seq<Record>, s: StateKey, o: Option<Ordering>, offset: nat, c: Config)
    : (View, Option<ActionKey>)
    requires SameKeys(v)
  {
    if c.ids == [] then (v, None) else
      var w := Report(v, h, s, o, c);
      (w, NextAction(w.untried, s, c.ids, offset))
  }

  /** Among the open actions it is the one whose turn it is, or else the first in the order of the ids. */
  ghost predicate Takes(log: seq<Record>, c: Config, hidden: Hidden, s: StateKey, offset: nat, a: ActionKey) {
    c.ids != [] && Open(log, c, hidden, s, a) &&
    var turn := c.ids[offset % |c.ids|];
    if Open(log, c, hidden, s, turn) then a == turn
    else exists j :: 0 <= j < |c.ids| && c.ids[j] == a && forall k :: 0 <= k < j ==> !Open(log, c, hidden, s, c.ids[k])
  }

  /** However memory sorts the untried list, the choice goes by turn and by the order of the ids. */
  lemma NextActionTakes(w: View, log: seq<Record>, c: Config, hidden: Hidden, s: StateKey, offset: nat)
    requires UntriedExact(w, log, c, hidden) && s in w.untried && c.ids != []
    ensures var act := NextAction(w.untried, s, c.ids, offset);
      if act.Some? then Takes(log, c, hidden, s, offset, act.value) else forall a :: !Open(log, c, hidden, s, a)
  {
    hide Exhausted, NextAction;
    var act := NextAction(w.untried, s, c.ids, offset);
    assert forall a :: a in w.untried[s] <==> Open(log, c, hidden, s, a);
    if act.Some? {
      var i :| 0 <= i < |c.ids| && c.ids[i] == act.value;
      NextActionIsFirst(w.untried, s, c.ids, offset, i);
    }
  }

  /** A chosen action has never been exhausted in the whole log, truncated history or not. */
  lemma ChosenIsFresh(v: View, log: seq<Record>, p: nat, h: seq<Record>, s: StateKey, o: Option<Ordering>, offset: nat,
                      c: Config, hidden: Hidden)
    requires Numbered(log) && Suffix(h, log) && |log| - |h| <= p <= |log| && c.ids != []
    requires Exact(v, log[..p], c, hidden) && Distinct(c.ids) && SameKeys(v)
    ensures var (w, act) := Choose(v, h, s, o, offset, c);
      && Exact(w, log, c, hidden + HiddenByReport(v, h, s, o, c)) && (o.None? ==> HiddenByReport(v, h, s, o, c) == {})
      && (if act.Some? then Takes(log, c, hidden + HiddenByReport(v, h, s, o, c), s, offset, act.value)
          else forall a :: !Open(log, c, hidden + HiddenByReport(v, h, s, o, c), s, a))
  {
    hide Report, Open, HiddenByReport, Takes, NextAction;
    ReportIsExact(v, log, p, h, s, o, c, hidden);
    NextActionTakes(Report(v, h, s, o, c), log, c, hidden + HiddenByReport(v, h, s, o, c), s, offset);
  }

  // ---------------------------------------------------------------- which windows are wide enough

  /** The explorer's state when it refreshes after every step. */
  function ViewAfter(batches: seq<seq<Record>>, n: int, c: Config): (v: View)
    ensures SameKeys(v)
  {
    if batches == [] then EMPTY else Refresh(ViewAfter(batches[..|batches| - 1], n, c), HistoryAfter(batches, n), c)
  }

  lemma {:induction false} WideWindowIsExact(batches: seq<seq<Record>>, n: int, c: Config)
    requires n == 0 || n >= 2
    requires IsRun(batches) && Distinct(c.ids)
    ensures Exact(ViewAfter(batches, n, c), Flatten(batches), c, {})
  {
    if batches != [] {
      var front := batches[..|batches| - 1];
      RunPrefix(batches);
      WideWindowIsExact(front, n, c);
      HistoryLaws(batches, n);
      RefreshIsExact(ViewAfter(front, n, c), Flatten(batches), |Flatten(front)|, HistoryAfter(batches, n), c, {});
    }
  }

  lemma LostGameIsMiscounted(n: int, c: Config)
    requires n == 1 || n < 0
    requires c.ids != []
    ensures var batches := LostGame(Action(SimpleKind, Some(c.ids[0]), None, None));
      !Exact(ViewAfter(batches, n, c), Flatten(batches), c, {})
  {
    var a := c.ids[0];
    var act := Action(SimpleKind, Some(a), None, None);
    var batches := LostGame(act);
    LostGameIsRun(act);
    LostGameHistory(act, n);
    var h := HistoryAfter(batches, n);
    OneNewEntry(h, EMPTY.last);
    SkipsState(EMPTY, NewEntries(h, EMPTY.last), c, "s", a);
    assert batches[..0] == [];
    assert ViewAfter(batches, n, c) == Refresh(EMPTY, h, c);
    LostGameAttempts(batches[0], c.ids, a);
  }

  lemma LostGameAttempts(b: seq<Record>, ids: seq<ActionKey>, a: ActionKey)
    requires a in ids && b == LostGame(Action(SimpleKind, Some(a), None, None))[0]
    ensures Attempts(b, ids, "s", a) >= 1
  {
    var first := b[..1];
    assert Counts(first[0], ids, "s", a);
  }

  /** Processing only records of other states leaves a state's counters alone. */
  lemma {:induction false} SkipsState(v: View, rs: seq<Record>, c: Config, s: StateKey, a: ActionKey)
    requires SameKeys(v) && forall i :: 0 <= i < |rs| ==> rs[i].before.Some? && rs[i].before.value != s
    ensures AttemptCount(ProcessAll(v, rs, c), s, a) == AttemptCount(v, s, a)
  {
    if rs != [] {
      SkipsState(v, rs[..|rs| - 1], c, s, a);
      SkipsOne(ProcessAll(v, rs[..|rs| - 1], c), rs[|rs| - 1], c, s, a);
    }
  }

  lemma SkipsOne(v: View, r: Record, c: Config, s: StateKey, a: ActionKey)
    requires SameKeys(v) && r.before.Some? && r.before.value != s
    ensures AttemptCount(Process(v, r, c), s, a) == AttemptCount(v, s, a)
  {
    if Relevant(r, c.ids) {
      var u := Ensure(Ensure(v, r.before.value, c), r.after.value, c);
      RecordedCounters(u, r.before.value, r.action.id.value, r.after.value, c);
    }
  }

  /** Without actions nothing is ever counted, and nothing needs to be. */
  lemma {:induction false} NothingToCount(log: seq<Record>, c: Config)
    requires c.ids == []
    ensures Exact(EMPTY, log, c, {})
  {
    if log == [] {
      EmptyIsExact(c);
    } else {
      var front := log[..|log| - 1];
      NothingToCount(front, c);
      IrrelevantKeepsExact(EMPTY, front, c, {}, log[|log| - 1]);
      assert log == front + [log[|log| - 1]];
    }
  }

  lemma {:induction false} StaysEmpty(batches: seq<seq<Record>>, n: int, c: Config)
    requires c.ids == []
    ensures ViewAfter(batches, n, c) == EMPTY
  {
    if batches != [] {
      StaysEmpty(batches[..|batches| - 1], n, c);
      ProcessNothing(NewEntries(HistoryAfter(batches, n), EMPTY.last), c);
    }
  }

  lemma {:induction false} ProcessNothing(rs: seq<Record>, c: Config)
    requires c.ids == []
    ensures ProcessAll(EMPTY, rs, c) == EMPTY
  {
    if rs != [] { ProcessNothing(rs[..|rs| - 1], c); }
  }

  /**
   The explorer is exact after every step of every run exactly for the windows that keep two
   records, or everything: history_window_N of 0 or at least 2 (or when it has nothing to try).
   */
  lemma WindowsThatSuffice(n: int, c: Config)
    requires Distinct(c.ids)
    ensures (forall batches :: IsRun(batches) ==> Exact(ViewAfter(batches, n, c), Flatten(batches), c, {}))
            <==> n == 0 || n >= 2 || c.ids == []
  {
    if n == 0 || n >= 2 || c.ids == [] {
      forall batches | IsRun(batches) ensures Exact(ViewAfter(batches, n, c), Flatten(batches), c, {}) {
        if c.ids == [] {
          StaysEmpty(batches, n, c);
          NothingToCount(Flatten(batches), c);
        } else {
          WideWindowIsExact(batches, n, c);
        }
      }
    } else {
      LostGameIsRun(Action(SimpleKind, Some(c.ids[0]), None, None));
      LostGameIsMiscounted(n, c);
    }
  }

  // ---------------------------------------------------------------- the state object

  /** The dictionaries themselves, updated in place; each method's contract is the operation above. */
  class SimpleFrontierState {
    var stateUntried: map<StateKey, seq<ActionKey>>
    var stateActionAttempts: map<StateKey, map<ActionKey, nat>>
    var stateActionOutcomes: map<StateKey, map<ActionKey, map<StateKey, nat>>>
    var lastProcessedStep: int

    function Now(): View
      reads this
    {
      View(stateUntried, stateActionAttempts, stateActionOutcomes, lastProcessedStep)
    }

    constructor ()
      ensures Now() == EMPTY
    {
      stateUntried, stateActionAttempts, stateActionOutcomes, lastProcessedStep := map[], map[], map[], -1;
    }

    method EnsureState(s: StateKey, c: Config)
      modifies this
      ensures Now() == Ensure(old(Now()), s, c)
    {
      if s !in stateActionAttempts {
        stateActionAttempts := stateActionAttempts[s := map[]];
        stateUntried := stateUntried[s := Rotated(c.ids, c.hash(s))];
        stateActionOutcomes := stateActionOutcomes[s := map[]];
      }
    }

    method RemoveAction(s: StateKey, a: ActionKey)
      modifies this`stateUntried
      ensures stateUntried == Remove(old(stateUntried), s, a)
    {
      if s in stateUntried && a in stateUntried[s] {
        stateUntried := stateUntried[s := Without(stateUntried[s], a)];
      }
    }

    method RecordActionOutcome(prev: StateKey, a: ActionKey, next: StateKey, c: Config)
      requires prev in stateActionAttempts && prev in stateActionOutcomes
      modifies this
      ensures Now() == RecordOutcome(old(Now()), prev, a, next, c)
    {
      stateActionAttempts := AddAttempt(stateActionAttempts, prev, a);
      stateActionOutcomes := AddOutcome(stateActionOutcomes, prev, a, next);
      if stateActionOutcomes[prev][a][next] >= 2 {
        RemoveAction(prev, a);
      }
      if stateActionAttempts[prev][a] >= c.cap {
        RemoveAction(prev, a);
      }
    }

    method ProcessEntry(r: Record, c: Config)
      requires SameKeys(Now())
      modifies this
      ensures SameKeys(Now()) && Now() == Process(old(Now()), r, c)
    {
      if Relevant(r, c.ids) {
        EnsureState(r.before.value, c);
        EnsureState(r.after.value, c);
        RecordActionOutcome(r.before.value, r.action.id.value, r.after.value, c);
        ghost var w := Now();
        lastProcessedStep := Max(lastProcessedStep, r.step);
        assert Now() == w.(last := Max(w.last, r.step));
      }
    }

    method UpdateFromHistory(h: seq<Record>, c: Config)
      requires SameKeys(Now())
      modifies this
      ensures SameKeys(Now()) && Now() == Refresh(old(Now()), h, c)
    {
      var entries := NewEntries(h, lastProcessedStep);
      ghost var v0 := Now();
      var i := 0;
      while i < |entries|
        invariant 0 <= i <= |entries|
        invariant SameKeys(Now()) && Now() == ProcessAll(v0, entries[..i], c)
      {
        assert entries[..i + 1][..i] == entries[..i];
        ProcessEntry(entries[i], c);
        i := i + 1;
      }
      assert entries[..|entries|] == entries;
    }

    method ApplyMemoryOrdering(s: StateKey, o: Option<Ordering>)
      modifies this
      ensures Now() == Reorder(old(Now()), s, o)
    {
      if o.None? {
        return;
      }
      var actions := Get(stateUntried, s, []);
      if actions == [] {
        return;
      }
      var filtered := Kept(actions, o.value.blocked);
      if filtered != [] {
        actions := filtered;
      }
      stateUntried := stateUntried[s := SortBy(actions, o.value.before)];
    }

    method ChooseAction(h: seq<Record>, s: StateKey, o: Option<Ordering>, offset: nat, c: Config)
      returns (act: Option<ActionKey>)
      requires SameKeys(Now())
      modifies this
      ensures SameKeys(Now()) && (Now(), act) == Choose(old(Now()), h, s, o, offset, c)
    {
      if c.ids == [] {
        return None;
      }
      UpdateFromHistory(h, c);
      EnsureState(s, c);
      ApplyMemoryOrdering(s, o);
      act := NextAction(stateUntried, s, c.ids, offset);
    }

    /** build_frontier_report: the same refresh, for the report at the current state. */
    method BuildFrontierReport(h: seq<Record>, s: StateKey, o: Option<Ordering>, c: Config)
      requires SameKeys(Now())
      modifies this
      ensures SameKeys(Now()) && Now() == Report(old(Now()), h, s, o, c)
    {
      UpdateFromHistory(h, c);
      EnsureState(s, c);
      ApplyMemoryOrdering(s, o);
    }
  }
}
