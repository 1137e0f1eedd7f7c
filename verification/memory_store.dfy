/**
 From step records to persistent priors: trajectory_summarizer.py turns a run's records into rates
 and means, memory_store.py turns them back into totals and adds them to two tables.
 */
module MemoryStore {
  import opened Common
  import opened Means

  /** The four totals kept for every action; both the summaries and the rows encode them as means. */
  datatype Quantity = Attempts | NoEffects | Cells | Areas

  // ---------------------------------------------------------------- summarizing a run

  /** A step record; an absent or empty action id is the empty string. */
  datatype StepRecord = StepRecord(actionId: string, changed: int, area: int)

  datatype Entry = Entry(attempts: nat, noops: nat, changed: int, area: int)

  datatype Efficacy = Efficacy(attempts: int, noEffectRate: real, avgCells: real, avgArea: real)

  ghost function RecordAmount(r: StepRecord, q: Quantity): int {
    match q
    case Attempts => 1
    case NoEffects => if r.changed == 0 then 1 else 0
    case Cells => r.changed
    case Areas => r.area
  }

  /** A total of one action over a list of records; records without an action count for nothing. */
  ghost function RunAmount(records: seq<StepRecord>, action: string, q: Quantity): int {
    if records == [] then 0 else
      var r := records[|records| - 1];
      RunAmount(records[..|records| - 1], action, q) +
      (if r.actionId == action && action != "" then RecordAmount(r, q) else 0)
  }

  ghost function EntryAmount(e: Entry, q: Quantity): int {
    match q
    case Attempts => e.attempts
    case NoEffects => e.noops
    case Cells => e.changed
    case Areas => e.area
  }

  const NO_ENTRY := Entry(0, 0, 0, 0)

  method Accumulate(stats: map<string, Entry>, key: string, changed: int, area: int) returns (r: map<string, Entry>)
    ensures r.Keys == stats.Keys + {key}
    ensures forall q {:trigger EntryAmount(r[key], q)} ::
      EntryAmount(r[key], q)
        == EntryAmount(Get(stats, key, NO_ENTRY), q) + RecordAmount(StepRecord(key, changed, area), q)
    ensures forall k :: k in stats && k != key ==> r[k] == stats[k]
  {
    var e := Get(stats, key, NO_ENTRY);
    var noop := if changed == 0 then 1 else 0;
    r := stats[key := Entry(e.attempts + 1, e.noops + noop, e.changed + changed, e.area + area)];
  }

  /** The entries hold the run's totals, one for each action that occurs. */
  ghost predicate Accumulated(stats: map<string, Entry>, records: seq<StepRecord>) {
    && (forall k {:trigger k in stats} :: k in stats <==> RunAmount(records, k, Attempts) > 0)
    && (forall k, q {:trigger RunAmount(records, k, q)} ::
          EntryAmount(Get(stats, k, NO_ENTRY), q) == RunAmount(records, k, q))
  }

  method ActionEfficacy(records: seq<StepRecord>) returns (perAction: map<string, Efficacy>)
    ensures Finalized(perAction, records)
  {
    var stats: map<string, Entry> := map[];
    var i := 0;
    while i < |records|
      invariant 0 <= i <= |records|
      invariant Accumulated(stats, records[..i])
    {
      var r := records[i];
      assert records[..i + 1] == records[..i] + [r];
      if r.actionId != "" {
        var next := Accumulate(stats, r.actionId, r.changed, r.area);
        AccumulatedStep(stats, records[..i], r, next);
        stats := next;
      } else {
        AccumulatedSkip(stats, records[..i], r);
      }
      i := i + 1;
    }
    assert records[..i] == records;
    perAction := Finalize(stats, records);
  }

  lemma AccumulatedStep(stats: map<string, Entry>, before: seq<StepRecord>, r: StepRecord, next: map<string, Entry>)
    requires Accumulated(stats, before) && r.actionId != ""
    requires next.Keys == stats.Keys + {r.actionId}
    requires forall q {:trigger EntryAmount(next[r.actionId], q)} ::
      EntryAmount(next[r.actionId], q) == EntryAmount(Get(stats, r.actionId, NO_ENTRY), q) + RecordAmount(r, q)
    requires forall k :: k in stats && k != r.actionId ==> next[k] == stats[k]
    ensures Accumulated(next, before + [r])
  {
    assert (before + [r])[..|before|] == before;
    forall k, q ensures EntryAmount(Get(next, k, NO_ENTRY), q) == RunAmount(before + [r], k, q) {
      assert RunAmount(before, k, q) == EntryAmount(Get(stats, k, NO_ENTRY), q);
    }
    forall k ensures k in next <==> RunAmount(before + [r], k, Attempts) > 0 {
      assert RunAmount(before + [r], k, Attempts) == EntryAmount(Get(next, k, NO_ENTRY), Attempts);
      assert k in stats <==> RunAmount(before, k, Attempts) > 0;
      assert RunAmount(before, k, Attempts) == EntryAmount(Get(stats, k, NO_ENTRY), Attempts);
    }
  }

  lemma AccumulatedSkip(stats: map<string, Entry>, before: seq<StepRecord>, r: StepRecord)
    requires Accumulated(stats, before) && r.actionId == ""
    ensures Accumulated(stats, before + [r])
  {
    assert (before + [r])[..|before|] == before;
    forall k, q ensures RunAmount(before + [r], k, q) == RunAmount(before, k, q) {
    }
  }

  /** The rates and means of a run: times the attempts they give the totals back. */
  ghost predicate Encodes(e: Efficacy, records: seq<StepRecord>, action: string) {
    && e.attempts == RunAmount(records, action, Attempts) > 0
    && IsMean(e.noEffectRate, e.attempts, RunAmount(records, action, NoEffects))
    && IsMean(e.avgCells, e.attempts, RunAmount(records, action, Cells))
    && IsMean(e.avgArea, e.attempts, RunAmount(records, action, Areas))
  }

  /** One entry for each action that occurs in the records, encoding its totals. */
  ghost predicate Finalized(perAction: map<string, Efficacy>, records: seq<StepRecord>) {
    forall k {:trigger k in perAction} ::
      && (k in perAction ==> Encodes(perAction[k], records, k))
      && (k !in perAction ==> forall q {:trigger RunAmount(records, k, q)} :: RunAmount(records, k, q) == 0)
  }

  function FinalizeEntry(e: Entry): Efficacy {
    if e.attempts == 0 then Efficacy(0, 0.0, 0.0, 0.0) else
      var n := e.attempts as real;
      Efficacy(e.attempts, e.noops as real / n, e.changed as real / n, e.area as real / n)
  }

  lemma FinalizeEncodes(stats: map<string, Entry>, records: seq<StepRecord>, k: string)
    requires Accumulated(stats, records) && k in stats
    ensures Encodes(FinalizeEntry(stats[k]), records, k)
  {
    var e := stats[k];
    assert forall q {:trigger RunAmount(records, k, q)} :: EntryAmount(e, q) == RunAmount(records, k, q);
    QuotientIsMean(e.noops as real, e.attempts);
    QuotientIsMean(e.changed as real, e.attempts);
    QuotientIsMean(e.area as real, e.attempts);
  }

  method Finalize(stats: map<string, Entry>, ghost records: seq<StepRecord>) returns (output: map<string, Efficacy>)
    requires Accumulated(stats, records)
    ensures Finalized(output, records)
  {
    output := map[];
    var rest := stats.Keys;
    while rest != {}
      invariant rest <= stats.Keys && output.Keys == stats.Keys - rest
      invariant forall k :: k in output ==> Encodes(output[k], records, k)
      decreases |rest|
    {
      var k :| k in rest;
      FinalizeEncodes(stats, records, k);
      output := output[k := FinalizeEntry(stats[k])];
      rest := rest - {k};
    }
  }

  // ---------------------------------------------------------------- rounding

  /** Python's round on a real: to the nearest integer, ties to even. */
  function Round(x: real): int {
    var f := x.Floor;
    var d := x - f as real;
    if d < 0.5 then f else if d > 0.5 then f + 1 else if f % 2 == 0 then f else f + 1
  }

  /** The nearest integer, and of two equally near ones the even one. */
  lemma RoundIsNearest(x: real, n: int)
    ensures -0.5 <= x - Round(x) as real <= 0.5
    ensures (x - n as real == 0.5 || x - n as real == -0.5) && Round(x) == n ==> n % 2 == 0
    ensures -0.5 < x - n as real < 0.5 ==> Round(x) == n
  {
    if -0.5 < x - n as real < 0.5 { RoundRecovers(x, n); }
    var f := x.Floor;
    assert f as real <= x < f as real + 1.0;
    if x - n as real == 0.5 { assert f == n; }
    if x - n as real == -0.5 { assert f == n - 1; }
  }

  lemma RoundRecovers(x: real, n: int)
    requires -0.5 < x - n as real < 0.5
    ensures Round(x) == n
  {
    if x >= n as real {
      assert x.Floor == n;
    } else {
      assert x.Floor == n - 1;
    }
  }

  /** A rate whose error adds up to less than one half over all attempts still gives the exact count back. */
  lemma ApproximateRateRecovers(rate: real, attempts: nat, noops: int, drift: real)
    requires attempts > 0 && -0.5 < drift < 0.5
    requires rate == (noops as real + drift) / attempts as real
    ensures Round(rate * attempts as real) == noops
  {
    Quotient(noops as real + drift, attempts as real);
    RoundRecovers(rate * attempts as real, noops);
  }

  // ---------------------------------------------------------------- the two tables

  datatype Row = Row(attempts: nat, effects: int, noEffects: int, avgCells: real, avgArea: real, lastSeen: real)

  /** The update of an existing row; SQL evaluates every right-hand side on the row as it was. */
  function Combine(r: Row, add: Row): Row {
    Row(r.attempts + add.attempts, r.effects + add.effects, r.noEffects + add.noEffects,
        MergeMean(r.avgCells, r.attempts, add.avgCells, add.attempts),
        MergeMean(r.avgArea, r.attempts, add.avgArea, add.attempts), add.lastSeen)
  }

  /** The row that comes about when another joins the one under its key, if there is one. */
  function Joined<K>(rows: map<K, Row>, key: K, add: Row): Row {
    if key in rows then Combine(rows[key], add) else add
  }

  function Upsert<K>(rows: map<K, Row>, key: K, add: Row): map<K, Row> {
    rows[key := Joined(rows, key, add)]
  }

  /** The total a row stands for. */
  ghost function RowAmount(r: Row, q: Quantity): real {
    match q
    case Attempts => r.attempts as real
    case NoEffects => r.noEffects as real
    case Cells => Times(r.avgCells, r.attempts)
    case Areas => Times(r.avgArea, r.attempts)
  }

  ghost function Amount<K>(rows: map<K, Row>, key: K, q: Quantity): real {
    if key in rows then RowAmount(rows[key], q) else 0.0
  }

  predicate SoundRow(r: Row) {
    r.attempts > 0 && r.effects + r.noEffects == r.attempts
  }

  ghost predicate Sound<K>(rows: map<K, Row>) {
    forall key :: key in rows ==> SoundRow(rows[key])
  }

  /** Combining rows adds all four totals: counts by sum, means by the attempts-weighted mean. */
  lemma CombineAdds(r: Row, add: Row, q: Quantity)
    requires SoundRow(r) && SoundRow(add)
    ensures SoundRow(Combine(r, add))
    ensures RowAmount(Combine(r, add), q) == RowAmount(r, q) + RowAmount(add, q)
  {
    MergeMeanAdds(r.avgCells, r.attempts, add.avgCells, add.attempts);
    MergeMeanAdds(r.avgArea, r.attempts, add.avgArea, add.attempts);
  }

  /** An upsert adds the new row's totals to its key and leaves every other key alone. */
  lemma UpsertAdds<K>(rows: map<K, Row>, key: K, add: Row, q: Quantity)
    requires Sound(rows) && SoundRow(add)
    ensures Amount(Upsert(rows, key, add), key, q) == Amount(rows, key, q) + RowAmount(add, q)
    ensures forall k {:trigger Amount(Upsert(rows, key, add), k, q)} ::
      k != key ==> Amount(Upsert(rows, key, add), k, q) == Amount(rows, k, q)
  {
    if key in rows { CombineAdds(rows[key], add, q); }
  }

  lemma UpsertIsSound<K>(rows: map<K, Row>, key: K, add: Row)
    requires Sound(rows) && SoundRow(add)
    ensures Sound(Upsert(rows, key, add))
  {
    if key in rows { CombineAdds(rows[key], add, Attempts); }
  }

  datatype Key = Key(signature: string, action: string)

  type SignatureRows = map<Key, Row>

  /** A total over all rows of one action, whatever their signature. */
  ghost function SumRows(rows: SignatureRows, action: string, q: Quantity): real
    decreases |rows|
  {
    if rows.Keys == {} then 0.0 else
      var k := Pick(rows);
      DropShrinks(rows, k);
      Share(rows, k, action, q) + SumRows(rows - {k}, action, q)
  }

  ghost function Share(rows: SignatureRows, k: Key, action: string, q: Quantity): real {
    if k.action == action then Amount(rows, k, q) else 0.0
  }

  lemma SumRowsStep(rows: SignatureRows, action: string, q: Quantity)
    requires rows.Keys != {}
    ensures SumRows(rows, action, q) == Share(rows, Pick(rows), action, q) + SumRows(rows - {Pick(rows)}, action, q)
  {
  }

  lemma {:induction false} SumRowsRemove(rows: SignatureRows, k: Key, action: string, q: Quantity)
    requires k in rows
    ensures SumRows(rows, action, q) == Share(rows, k, action, q) + SumRows(rows - {k}, action, q)
    decreases |rows|
  {
    hide SumRows, RowAmount;
    SumRowsStep(rows, action, q);
    var c := Pick(rows);
    if c != k {
      DropShrinks(rows, c);
      DropShrinks(rows, k);
      SumRowsRemove(rows - {c}, k, action, q);
      SumRowsRemove(rows - {k}, c, action, q);
      assert rows - {c} - {k} == rows - {k} - {c};
    }
  }

  lemma UpsertAddsToSum(rows: SignatureRows, key: Key, add: Row, action: string, q: Quantity)
    requires Sound(rows) && SoundRow(add)
    ensures SumRows(Upsert(rows, key, add), action, q) ==
            SumRows(rows, action, q) + (if key.action == action then RowAmount(add, q) else 0.0)
  {
    var after := Upsert(rows, key, add);
    UpsertAdds(rows, key, add, q);
    SumRowsRemove(after, key, action, q);
    if key in rows {
      SumRowsRemove(rows, key, action, q);
      assert after - {key} == rows - {key};
    } else {
      assert after - {key} == rows;
    }
  }

  // ---------------------------------------------------------------- ingesting

  /** One run as it reaches the store. */
  datatype Summary = Summary(signature: string, perAction: map<string, Efficacy>)

  /** The row an entry turns into: the no-effect count is decoded from the rate. */
  function Decode(e: Efficacy, ts: real): (r: Row)
    requires e.attempts > 0
    ensures SoundRow(r)
  {
    var noops := Round(e.noEffectRate * e.attempts as real);
    Row(e.attempts, e.attempts - noops, noops, e.avgCells, e.avgArea, ts)
  }

  /** Entries without attempts are skipped. */
  predicate Brings(s: Summary, action: string) {
    action in s.perAction && s.perAction[action].attempts > 0
  }

  /** The total a summary brings for an action. */
  ghost function Brought(s: Summary, action: string, q: Quantity): real {
    if Brings(s, action) then RowAmount(Decode(s.perAction[action], 0.0), q) else 0.0
  }

  ghost function Total(runs: seq<Summary>, action: string, q: Quantity): real {
    if runs == [] then 0.0 else Total(runs[..|runs| - 1], action, q) + Brought(runs[|runs| - 1], action, q)
  }

  /** The same over the runs with one signature only. */
  ghost function TotalUnder(runs: seq<Summary>, signature: string, action: string, q: Quantity): real {
    if runs == [] then 0.0 else
      var s := runs[|runs| - 1];
      TotalUnder(runs[..|runs| - 1], signature, action, q)
      + (if s.signature == signature then Brought(s, action, q) else 0.0)
  }

  lemma TotalsLast(runs: seq<Summary>, s: Summary, signature: string, action: string, q: Quantity)
    ensures Total(runs + [s], action, q) == Total(runs, action, q) + Brought(s, action, q)
    ensures TotalUnder(runs + [s], signature, action, q) ==
            TotalUnder(runs, signature, action, q) + (if s.signature == signature then Brought(s, action, q) else 0.0)
  {
    assert (runs + [s])[..|runs|] == runs;
  }

  lemma DecodeIgnoresTime(s: Summary, action: string, ts: real, q: Quantity)
    requires Brings(s, action)
    ensures RowAmount(Decode(s.perAction[action], ts), q) == Brought(s, action, q)
  {
  }

  /** The part of it still missing while some actions wait, and the part already added. */
  ghost function Added(s: Summary, action: string, waiting: set<string>, q: Quantity): real {
    if action in waiting then 0.0 else Brought(s, action, q)
  }

  lemma NothingAddedYet(s: Summary, action: string, q: Quantity)
    ensures Added(s, action, s.perAction.Keys, q) == 0.0
  {
  }

  /** The rows of the actions ingested so far are joined with their entries; every other row is as it was. */
  ghost predicate Ingested(rows: map<string, Row>, r: map<string, Row>, s: Summary, ts: real, waiting: set<string>) {
    forall a {:trigger a in r} ::
      if Brings(s, a) && a !in waiting then a in r && r[a] == Joined(rows, a, Decode(s.perAction[a], ts))
      else (a in r <==> a in rows) && (a in rows ==> r[a] == rows[a])
  }

  /** The same for the rows under the summary's signature. */
  ghost predicate IngestedUnder(rows: SignatureRows, r: SignatureRows, s: Summary, ts: real, waiting: set<string>) {
    forall k: Key {:trigger k in r} ::
      if k.signature == s.signature && Brings(s, k.action) && k.action !in waiting
      then k in r && r[k] == Joined(rows, k, Decode(s.perAction[k.action], ts))
      else (k in r <==> k in rows) && (k in rows ==> r[k] == rows[k])
  }

  lemma NothingIngested(rows: map<string, Row>, s: Summary, ts: real)
    ensures Ingested(rows, rows, s, ts, s.perAction.Keys)
  {
  }

  lemma NothingIngestedUnder(rows: SignatureRows, s: Summary, ts: real)
    ensures IngestedUnder(rows, rows, s, ts, s.perAction.Keys)
  {
  }

  lemma IngestOne(rows: map<string, Row>, r: map<string, Row>, s: Summary, ts: real, waiting: set<string>,
                  action: string)
    requires Ingested(rows, r, s, ts, waiting) && action in waiting && action in s.perAction
    ensures var rest := waiting - {action};
      if Brings(s, action) then Ingested(rows, Upsert(r, action, Decode(s.perAction[action], ts)), s, ts, rest)
      else Ingested(rows, r, s, ts, rest)
  {
    assert action in r <==> action in rows;
  }

  lemma IngestOneUnder(rows: SignatureRows, r: SignatureRows, s: Summary, ts: real, waiting: set<string>,
                       action: string)
    requires IngestedUnder(rows, r, s, ts, waiting) && action in waiting && action in s.perAction
    ensures var rest, key := waiting - {action}, Key(s.signature, action);
      if Brings(s, action) then IngestedUnder(rows, Upsert(r, key, Decode(s.perAction[action], ts)), s, ts, rest)
      else IngestedUnder(rows, r, s, ts, rest)
  {
    assert Key(s.signature, action) in r <==> Key(s.signature, action) in rows;
  }

  class Store {
    var global: map<string, Row>
    var bySignature: SignatureRows
    ghost var runs: seq<Summary>

    /** Rows are sound and hold the totals of the runs so far, overall and under their signature. */
    ghost predicate Valid()
      reads this
    {
      && Sound(global) && Sound(bySignature)
      && (forall action, q {:trigger Total(runs, action, q)} :: Amount(global, action, q) == Total(runs, action, q))
      && (forall signature, action, q {:trigger TotalUnder(runs, signature, action, q)} ::
            Amount(bySignature, Key(signature, action), q) == TotalUnder(runs, signature, action, q))
      && (forall action, q {:trigger SumRows(bySignature, action, q)} ::
            SumRows(bySignature, action, q) == Total(runs, action, q))
    }

    constructor ()
      ensures Valid() && runs == []
    {
      global, bySignature, runs := map[], map[], [];
    }

    method IngestRunSummary(s: Summary, ts: real)
      requires Valid()
      modifies this
      ensures Valid() && runs == old(runs) + [s]
      ensures Ingested(old(global), global, s, ts, {}) && IngestedUnder(old(bySignature), bySignature, s, ts, {})
    {
      forall signature, action, q { TotalsLast(runs, s, signature, action, q); }
      global := IngestGlobal(global, s, ts);
      bySignature := IngestBySignature(bySignature, s, ts);
      runs := runs + [s];
    }

    /** Each global row holds the sum of its per-signature rows, and so the attempts-weighted mean of their means. */
    lemma GlobalIsSumOfSignatures(action: string, q: Quantity)
      requires Valid()
      ensures Amount(global, action, q) == SumRows(bySignature, action, q)
    {
      assert Amount(global, action, q) == Total(runs, action, q);
    }
  }

  method IngestGlobal(rows: map<string, Row>, s: Summary, ts: real) returns (r: map<string, Row>)
    requires Sound(rows)
    ensures Sound(r)
    ensures forall action, q {:trigger Amount(r, action, q)} ::
      Amount(r, action, q) == Amount(rows, action, q) + Added(s, action, {}, q)
    ensures Ingested(rows, r, s, ts, {})
  {
    NothingIngested(rows, s, ts);
    hide Ingested;
    r := rows;
    var rest := s.perAction.Keys;
    forall action, q ensures Added(s, action, rest, q) == 0.0 { NothingAddedYet(s, action, q); }
    while rest != {}
      invariant rest <= s.perAction.Keys && Sound(r)
      invariant forall action, q {:trigger Amount(r, action, q)} ::
        Amount(r, action, q) == Amount(rows, action, q) + Added(s, action, rest, q)
      invariant Ingested(rows, r, s, ts, rest)
      decreases |rest|
    {
      var action :| action in rest;
      IngestOne(rows, r, s, ts, rest, action);
      rest := rest - {action};
      if s.perAction[action].attempts > 0 {
        var add := Decode(s.perAction[action], ts);
        UpsertIsSound(r, action, add);
        forall q ensures RowAmount(add, q) == Brought(s, action, q) { DecodeIgnoresTime(s, action, ts, q); }
        forall k, q
          ensures Amount(Upsert(r, action, add), k, q)
               == Amount(r, k, q) + (if k == action then RowAmount(add, q) else 0.0)
        {
          UpsertAdds(r, action, add, q);
        }
        r := Upsert(r, action, add);
      }
    }
  }

  method IngestBySignature(rows: SignatureRows, s: Summary, ts: real) returns (r: SignatureRows)
    requires Sound(rows)
    ensures Sound(r)
    ensures forall signature, action, q {:trigger Amount(r, Key(signature, action), q)} ::
      Amount(r, Key(signature, action), q) ==
        Amount(rows, Key(signature, action), q) + (if signature == s.signature then Added(s, action, {}, q) else 0.0)
    ensures forall action, q {:trigger SumRows(r, action, q)} ::
      SumRows(r, action, q) == SumRows(rows, action, q) + Added(s, action, {}, q)
    ensures IngestedUnder(rows, r, s, ts, {})
  {
    NothingIngestedUnder(rows, s, ts);
    hide IngestedUnder;
    r := rows;
    var rest := s.perAction.Keys;
    forall action, q ensures Added(s, action, rest, q) == 0.0 { NothingAddedYet(s, action, q); }
    while rest != {}
      invariant rest <= s.perAction.Keys && Sound(r)
      invariant forall signature, action, q {:trigger Amount(r, Key(signature, action), q)} ::
        Amount(r, Key(signature, action), q) ==
          Amount(rows, Key(signature, action), q)
          + (if signature == s.signature then Added(s, action, rest, q) else 0.0)
      invariant forall action, q {:trigger SumRows(r, action, q)} ::
        SumRows(r, action, q) == SumRows(rows, action, q) + Added(s, action, rest, q)
      invariant IngestedUnder(rows, r, s, ts, rest)
      decreases |rest|
    {
      var action :| action in rest;
      IngestOneUnder(rows, r, s, ts, rest, action);
      rest := rest - {action};
      if s.perAction[action].attempts > 0 {
        var add, key := Decode(s.perAction[action], ts), Key(s.signature, action);
        UpsertIsSound(r, key, add);
        forall q ensures RowAmount(add, q) == Brought(s, action, q) { DecodeIgnoresTime(s, action, ts, q); }
        forall k, q
          ensures Amount(Upsert(r, key, add), k, q)
               == Amount(r, k, q) + (if k == key then RowAmount(add, q) else 0.0)
        {
          UpsertAdds(r, key, add, q);
        }
        forall other, q { UpsertAddsToSum(r, key, add, other, q); }
        r := Upsert(r, key, add);
      }
    }
  }

  // ---------------------------------------------------------------- from records to rows

  /** Summarized and decoded again, a run brings exactly its records' totals. */
  lemma SummaryKeepsTotals(s: Summary, records: seq<StepRecord>, action: string, q: Quantity)
    requires Finalized(s.perAction, records)
    ensures Brought(s, action, q) == RunAmount(records, action, q) as real
  {
    if action in s.perAction {
      DecodeRestores(s.perAction[action], records, action, q);
    } else {
      assert RunAmount(records, action, q) == 0;
    }
  }

  lemma DecodeRestores(e: Efficacy, records: seq<StepRecord>, action: string, q: Quantity)
    requires Encodes(e, records, action)
    ensures RowAmount(Decode(e, 0.0), q) == RunAmount(records, action, q) as real
  {
    hide RunAmount;
    if q == NoEffects {
      var x := e.noEffectRate * e.attempts as real;
      TimesIsProduct(e.noEffectRate, e.attempts);
      RoundRecovers(x, RunAmount(records, action, NoEffects));
      assert Decode(e, 0.0).noEffects == Round(x);
    }
  }

  ghost function AllAmounts(logs: seq<seq<StepRecord>>, action: string, q: Quantity): int {
    if logs == [] then 0 else AllAmounts(logs[..|logs| - 1], action, q) + RunAmount(logs[|logs| - 1], action, q)
  }

  /** The store's totals are those of all records ever summarized: attempts, no-ops, cells and areas. */
  lemma {:induction false} StoreCountsEveryRecord(runs: seq<Summary>, logs: seq<seq<StepRecord>>, action: string,
                                                  q: Quantity)
    requires |runs| == |logs|
    requires forall i :: 0 <= i < |runs| ==> Finalized(runs[i].perAction, logs[i])
    ensures Total(runs, action, q) == AllAmounts(logs, action, q) as real
  {
    if runs != [] {
      var n := |runs| - 1;
      StoreCountsEveryRecord(runs[..n], logs[..n], action, q);
      SummaryKeepsTotals(runs[n], logs[n], action, q);
    }
  }
}
