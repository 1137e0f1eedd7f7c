/**
 The bounded tables of memory.py: rows stamped with the step that touched them last, sorted and
 cut to a limit after every touch. With increasing steps this is a least-recently-used table.
 */
module MemoryTables {
  import opened Common

  /** A table row: what the source's record holds besides its last_step_seen. */
  datatype Row<+S> = Row(stats: S, lastStep: int)

  /** One touch of a table. */
  datatype Touch = Touch(key: string, step: int, noEffect: bool, changed: int)

  // ---------------------------------------------------------------- the eviction order

  /** Code-point order on keys. */
  predicate Less(a: string, b: string) {
    b != [] && (a == [] || a[0] < b[0] || (a[0] == b[0] && Less(a[1..], b[1..])))
  }

  lemma {:induction false} LessIsTotal(a: string, b: string)
    ensures a == b || Less(a, b) || Less(b, a)
    ensures !(Less(a, b) && Less(b, a))
  {
    if a != [] && b != [] {
      LessIsTotal(a[1..], b[1..]);
      assert a == [a[0]] + a[1..] && b == [b[0]] + b[1..];
    }
  }

  lemma {:induction false} LessIsTransitive(a: string, b: string, c: string)
    requires Less(a, b) && Less(b, c)
    ensures Less(a, c)
  {
    if a != [] && a[0] == b[0] && b[0] == c[0] { LessIsTransitive(a[1..], b[1..], c[1..]); }
  }

  /** The sort key of an item: its last step, then its name. */
  predicate Precedes<S>(table: map<string, Row<S>>, a: string, b: string)
    requires a in table && b in table
  {
    table[a].lastStep < table[b].lastStep || (table[a].lastStep == table[b].lastStep && Less(a, b))
  }

  lemma PrecedesIsTotal<S>(table: map<string, Row<S>>, a: string, b: string)
    requires a in table && b in table
    ensures a == b || Precedes(table, a, b) || Precedes(table, b, a)
  {
    LessIsTotal(a, b);
  }

  lemma PrecedesIsTransitive<S>(table: map<string, Row<S>>, a: string, b: string, c: string)
    requires a in table && b in table && c in table && Precedes(table, a, b) && Precedes(table, b, c)
    ensures Precedes(table, a, c)
  {
    if Less(a, b) && Less(b, c) { LessIsTransitive(a, b, c); }
  }

  ghost predicate Sorted<S>(table: map<string, Row<S>>, items: seq<string>) {
    && (forall i :: 0 <= i < |items| ==> items[i] in table)
    && (forall i, j :: 0 <= i < j < |items| ==> Precedes(table, items[i], items[j]))
  }

  /** Puts one more key into a sorted list. */
  method InsertSorted<S>(table: map<string, Row<S>>, items: seq<string>, key: string) returns (r: seq<string>)
    requires Sorted(table, items) && Distinct(items) && key in table && key !in items
    ensures Sorted(table, r) && Distinct(r) && |r| == |items| + 1
    ensures forall k :: k in r <==> k == key || k in items
  {
    var i := 0;
    while i < |items| && Precedes(table, items[i], key)
      invariant 0 <= i <= |items|
      invariant forall j :: 0 <= j < i ==> Precedes(table, items[j], key)
    {
      i := i + 1;
    }
    forall j | i <= j < |items| ensures Precedes(table, key, items[j]) {
      PrecedesIsTotal(table, items[i], key);
      if j > i { PrecedesIsTransitive(table, key, items[i], items[j]); }
    }
    r := items[..i] + [key] + items[i..];
  }

  /** The items of a table in eviction order. */
  method SortItems<S>(table: map<string, Row<S>>) returns (items: seq<string>)
    ensures Sorted(table, items) && Distinct(items) && |items| == |table|
    ensures forall k :: k in items <==> k in table
  {
    items := [];
    var rest := table.Keys;
    while rest != {}
      invariant rest <= table.Keys && Sorted(table, items) && Distinct(items) && |items| + |rest| == |table|
      invariant forall k :: k in items <==> k in table.Keys - rest
      decreases |rest|
    {
      var key :| key in rest;
      items := InsertSorted(table, items, key);
      rest := rest - {key};
    }
  }

  /** `kept` is what eviction leaves of `table`: everything under the limit, else the last `limit` rows in order. */
  ghost predicate Evicted<S>(table: map<string, Row<S>>, limit: int, kept: map<string, Row<S>>) {
    && kept.Keys <= table.Keys
    && (forall k :: k in kept ==> kept[k] == table[k])
    && (limit <= 0 || |table| <= limit ==> kept == table)
    && (0 < limit < |table| ==> |kept| == limit)
    && (forall a, b :: a in table && a !in kept && b in kept ==> Precedes(table, a, b))
  }

  method Evict<S>(table: map<string, Row<S>>, limit: int) returns (kept: map<string, Row<S>>)
    ensures Evicted(table, limit, kept)
  {
    kept := table;
    if limit <= 0 || |table| <= limit { return; }
    var items := SortItems(table);
    var i := 0;
    while i < |items| - limit
      invariant 0 <= i <= |items| - limit
      invariant kept.Keys <= table.Keys && |kept| == |items| - i
      invariant forall k :: k in kept ==> kept[k] == table[k]
      invariant forall j :: 0 <= j < |items| ==> (items[j] in kept <==> i <= j)
    {
      var key := items[i];
      DropShrinks(kept, key);
      kept := kept - {key};
      i := i + 1;
    }
    forall a, b | a in table && a !in kept && b in kept ensures Precedes(table, a, b) {
      assert a in items && b in items;
      var x :| 0 <= x < |items| && items[x] == a;
      var y :| 0 <= y < |items| && items[y] == b;
      assert x < i <= y;
    }
  }

  // ---------------------------------------------------------------- the access log

  ghost function Touched(log: seq<Touch>): set<string> {
    if log == [] then {} else Touched(log[..|log| - 1]) + {log[|log| - 1].key}
  }

  /** The place of a key's last touch in the log. */
  ghost function LastAt(log: seq<Touch>, k: string): (i: nat)
    requires k in Touched(log)
    ensures i < |log| && log[i].key == k
  {
    var n := |log| - 1;
    if log[n].key == k then n else LastAt(log[..n], k)
  }

  ghost function LastTouch(log: seq<Touch>, k: string): int
    requires k in Touched(log)
  {
    log[LastAt(log, k)].step
  }

  lemma LogLast(log: seq<Touch>, t: Touch)
    ensures Touched(log + [t]) == Touched(log) + {t.key} && LastAt(log + [t], t.key) == |log|
    ensures forall k :: k in Touched(log) && k != t.key ==> LastAt(log + [t], k) == LastAt(log, k)
    ensures LastTouch(log + [t], t.key) == t.step
    ensures forall k :: k in Touched(log) && k != t.key ==> LastTouch(log + [t], k) == LastTouch(log, k)
  {
    assert (log + [t])[..|log|] == log;
  }

  // ---------------------------------------------------------------- touches in order

  /** The last touches of two keys, compared as the eviction compares rows. */
  ghost predicate StampedBefore(log: seq<Touch>, a: string, b: string)
    requires a in Touched(log) && b in Touched(log)
  {
    LastTouch(log, a) < LastTouch(log, b) || (LastTouch(log, a) == LastTouch(log, b) && Less(a, b))
  }

  /** A key touched since the last touch of `c`, if there was one. */
  ghost predicate Since(log: seq<Touch>, c: string, a: string) {
    a in Touched(log) && a != c && (c in Touched(log) ==> LastAt(log, c) < LastAt(log, a))
  }

  ghost predicate InTurn(log: seq<Touch>, a: string, b: string) {
    a in Touched(log) && b in Touched(log) && LastAt(log, a) < LastAt(log, b)
  }

  /** At the next touch, the keys touched since that key's own last touch are stamped in their order in the log. */
  ghost predicate NextInOrder(log: seq<Touch>, t: Touch) {
    var now := log + [t];
    forall a, b :: Since(log, t.key, a) && (b == t.key || Since(log, t.key, b)) && InTurn(now, a, b) ==>
      StampedBefore(now, a, b)
  }

  ghost predicate InOrder(log: seq<Touch>) {
    forall n: nat :: n < |log| ==> NextInOrder(log[..n], log[n])
  }

  ghost predicate Increasing(log: seq<Touch>) {
    forall i, j :: 0 <= i < j < |log| ==> log[i].step < log[j].step
  }

  /** Increasing steps are always in order. */
  lemma IncreasingIsInOrder(log: seq<Touch>)
    requires Increasing(log)
    ensures InOrder(log)
  {
    forall n: nat | n < |log| ensures NextInOrder(log[..n], log[n]) {
      var now := log[..n] + [log[n]];
      forall a, b | InTurn(now, a, b) ensures StampedBefore(now, a, b) {
        assert now[LastAt(now, a)].step < now[LastAt(now, b)].step;
      }
    }
  }

  lemma InOrderLast(log: seq<Touch>, t: Touch)
    requires InOrder(log + [t])
    ensures InOrder(log) && NextInOrder(log, t)
  {
    hide NextInOrder;
    var now := log + [t];
    forall n: nat | n < |log| ensures NextInOrder(log[..n], log[n]) {
      assert now[..n] == log[..n] && now[n] == log[n];
    }
    assert now[..|log|] == log && now[|log|] == t;
  }

  // ---------------------------------------------------------------- least recently used

  /**
   The rows are the most recently touched keys by their place in the log, as many as the limit
   admits (all of them when the limit is not positive), each stamped with its last touch.
   */
  ghost predicate MostRecent<S>(table: map<string, Row<S>>, log: seq<Touch>, limit: int) {
    && table.Keys <= Touched(log)
    && |table| == (if 0 < limit < |Touched(log)| then limit else |Touched(log)|)
    && (forall k :: k in table ==> table[k].lastStep == LastTouch(log, k))
    && (forall a, b :: a in Touched(log) && a !in table && b in table ==> LastAt(log, a) < LastAt(log, b))
  }

  lemma StampsKept<S>(table: map<string, Row<S>>, log: seq<Touch>, limit: int, t: Touch, stats: S,
                      kept: map<string, Row<S>>)
    requires table.Keys <= Touched(log) && forall k :: k in table ==> table[k].lastStep == LastTouch(log, k)
    requires Evicted(table[t.key := Row(stats, t.step)], limit, kept)
    ensures kept.Keys <= Touched(log + [t]) && forall k :: k in kept ==> kept[k].lastStep == LastTouch(log + [t], k)
  {
    hide LastAt, LastTouch, Touched;
    LogLast(log, t);
  }

  lemma EmptyIsRecent<S>(limit: int)
    ensures MostRecent<S>(map[], [], limit)
  {
  }

  /** Touching a row and evicting keeps the table least-recently-used, while touches are in order. */
  lemma TouchKeepsRecent<S>(table: map<string, Row<S>>, log: seq<Touch>, limit: int, t: Touch, stats: S,
                            kept: map<string, Row<S>>)
    requires MostRecent(table, log, limit) && NextInOrder(log, t)
    requires Evicted(table[t.key := Row(stats, t.step)], limit, kept)
    ensures MostRecent(kept, log + [t], limit)
  {
    hide LastAt, LastTouch, Touched, NextInOrder, Evicted;
    StampsKept(table, log, limit, t, stats, kept);
    TouchKeepsSize(table, log, limit, t, stats, kept);
    forall a, b | a in Touched(log + [t]) && a !in kept && b in kept
      ensures LastAt(log + [t], a) < LastAt(log + [t], b)
    {
      OldestGoesFirst(table, log, limit, t, stats, kept, a, b);
    }
  }

  lemma TouchKeepsSize<S>(table: map<string, Row<S>>, log: seq<Touch>, limit: int, t: Touch, stats: S,
                          kept: map<string, Row<S>>)
    requires table.Keys <= Touched(log)
    requires |table| == (if 0 < limit < |Touched(log)| then limit else |Touched(log)|)
    requires Evicted(table[t.key := Row(stats, t.step)], limit, kept)
    ensures |kept| == (if 0 < limit < |Touched(log + [t])| then limit else |Touched(log + [t])|)
  {
    LogLast(log, t);
    var wide := table[t.key := Row(stats, t.step)];
    assert wide.Keys == table.Keys + {t.key};
    SubsetSize(wide.Keys, Touched(log + [t]));
    if |table| == |Touched(log)| { FullSet(table.Keys, Touched(log)); }
  }

  lemma OldestGoesFirst<S>(table: map<string, Row<S>>, log: seq<Touch>, limit: int, t: Touch, stats: S,
                           kept: map<string, Row<S>>, a: string, b: string)
    requires MostRecent(table, log, limit) && NextInOrder(log, t)
    requires Evicted(table[t.key := Row(stats, t.step)], limit, kept)
    requires a in Touched(log + [t]) && a !in kept && b in kept
    ensures b in Touched(log + [t]) && LastAt(log + [t], a) < LastAt(log + [t], b)
  {
    hide LastAt, LastTouch, Touched, NextInOrder, MostRecent, Evicted;
    LogLast(log, t);
    KeptOrder(table, t, stats, limit, kept, a, b);
    if a in table || a == t.key {
      RecentFits(table, log, limit);
      RoomKeepsAll(table, limit, t, stats, kept, a);
      RecentStamps(table, log, limit, t, stats, a, b);
      if b != t.key {
        HeldSince(table, log, limit, t.key, b);
        if a != t.key { HeldSince(table, log, limit, t.key, a); }
        NotInTurn(log, t, a, b);
        LastAtDiffers(log + [t], a, b);
      }
    } else {
      GoneIsOlder(table, log, limit, t, a, b);
    }
  }

  lemma KeptOrder<S>(table: map<string, Row<S>>, t: Touch, stats: S, limit: int, kept: map<string, Row<S>>, a: string,
                     b: string)
    requires Evicted(table[t.key := Row(stats, t.step)], limit, kept) && a !in kept && b in kept
    ensures b in table || b == t.key
    ensures a in table || a == t.key ==> Precedes(table[t.key := Row(stats, t.step)], a, b)
  {
    hide Precedes;
  }

  lemma RecentFits<S>(table: map<string, Row<S>>, log: seq<Touch>, limit: int)
    requires MostRecent(table, log, limit)
    ensures limit > 0 ==> |table| <= limit
  {
  }

  lemma RecentStamps<S>(table: map<string, Row<S>>, log: seq<Touch>, limit: int, t: Touch, stats: S, a: string,
                        b: string)
    requires MostRecent(table, log, limit) && (a in table || a == t.key) && (b in table || b == t.key)
    ensures a in Touched(log + [t]) && b in Touched(log + [t])
    ensures StampedBefore(log + [t], a, b) <==> Precedes(table[t.key := Row(stats, t.step)], a, b)
  {
    hide StampedBefore, Precedes, LastTouch, LastAt, Touched;
    StampsAreSteps(table, log, t, stats, a, b);
  }

  lemma GoneIsOlder<S>(table: map<string, Row<S>>, log: seq<Touch>, limit: int, t: Touch, a: string, b: string)
    requires MostRecent(table, log, limit) && a in Touched(log + [t]) && a !in table && a != t.key
    requires b in table || b == t.key
    ensures b in Touched(log + [t]) && LastAt(log + [t], a) < LastAt(log + [t], b)
  {
    hide LastAt, LastTouch, Touched;
    LogLast(log, t);
  }

  lemma LastAtDiffers(log: seq<Touch>, a: string, b: string)
    requires a in Touched(log) && b in Touched(log) && a != b
    ensures LastAt(log, a) != LastAt(log, b)
  {
    hide LastAt, Touched;
  }

  lemma HeldSince<S>(table: map<string, Row<S>>, log: seq<Touch>, limit: int, c: string, a: string)
    requires MostRecent(table, log, limit) && c !in table && a in table
    ensures Since(log, c, a)
  {
  }

  lemma StampsAreSteps<S>(table: map<string, Row<S>>, log: seq<Touch>, t: Touch, stats: S, a: string, b: string)
    requires table.Keys <= Touched(log) && forall k :: k in table ==> table[k].lastStep == LastTouch(log, k)
    requires a in table || a == t.key
    requires b in table || b == t.key
    ensures a in Touched(log + [t]) && b in Touched(log + [t])
    ensures StampedBefore(log + [t], a, b) <==> Precedes(table[t.key := Row(stats, t.step)], a, b)
  {
    hide LastTouch, Touched, Less;
    LogLast(log, t);
  }

  lemma NotInTurn(log: seq<Touch>, t: Touch, a: string, b: string)
    requires NextInOrder(log, t) && Since(log, t.key, b) && (a == t.key || Since(log, t.key, a))
    requires a in Touched(log + [t]) && b in Touched(log + [t]) && StampedBefore(log + [t], a, b)
    ensures !InTurn(log + [t], b, a)
  {
    hide LastTouch, Touched, LastAt;
    LessIsTotal(a, b);
  }

  /** A row goes only when the touched one is new. */
  lemma RoomKeepsAll<S>(table: map<string, Row<S>>, limit: int, t: Touch, stats: S, kept: map<string, Row<S>>,
                     a: string)
    requires limit > 0 ==> |table| <= limit
    requires Evicted(table[t.key := Row(stats, t.step)], limit, kept) && a !in kept
    requires a in table || a == t.key
    ensures t.key !in table
  {
    WithRow(table, t.key, Row(stats, t.step));
  }

  lemma WithRow<S>(table: map<string, Row<S>>, key: string, row: Row<S>)
    ensures table[key := row].Keys == table.Keys + {key}
    ensures |table[key := row]| == |table| + if key in table then 0 else 1
  {
    var wide := table[key := row];
    assert wide.Keys == table.Keys + {key} && |wide| == |wide.Keys|;
    if key in table { assert wide.Keys == table.Keys; }
  }

  /** The keys touched after the last touch of `k`: its stack distance. */
  ghost function NewerKeys(log: seq<Touch>, k: string): set<string>
    requires k in Touched(log)
  {
    set x | x in Touched(log) && LastAt(log, x) > LastAt(log, k)
  }

  /** A touched key is still held exactly when fewer than `limit` other keys were touched since. */
  ghost predicate Survives(log: seq<Touch>, k: string, limit: int) {
    k in Touched(log) && (limit <= 0 || |NewerKeys(log, k)| < limit)
  }

  lemma HeldExactlyWhenRecent<S>(table: map<string, Row<S>>, log: seq<Touch>, limit: int, k: string)
    requires MostRecent(table, log, limit)
    ensures k in table <==> Survives(log, k, limit)
  {
    if k in Touched(log) {
      var newer := NewerKeys(log, k);
      if k in table {
        assert newer <= table.Keys - {k};
        SubsetSize(newer, table.Keys - {k});
        if 0 < limit { SubsetSize(table.Keys, Touched(log)); }
      } else {
        if |table| == |Touched(log)| { FullSet(table.Keys, Touched(log)); }
        assert table.Keys <= newer;
        SubsetSize(table.Keys, newer);
      }
    }
  }

  // ---------------------------------------------------------------- what a row counts

  /** The touches of `k` since it last fell out of the table. */
  ghost function Tenure(log: seq<Touch>, k: string, limit: int): (r: seq<Touch>)
    ensures k in Touched(log) <==> r != []
    ensures forall i :: 0 <= i < |r| ==> r[i].key == k
  {
    if log == [] then [] else
      var rest, t := log[..|log| - 1], log[|log| - 1];
      if t.key != k then Tenure(rest, k, limit)
      else (if Survives(rest, k, limit) then Tenure(rest, k, limit) else []) + [t]
  }

  lemma TenureLast(log: seq<Touch>, t: Touch, k: string, limit: int)
    ensures Tenure(log + [t], k, limit) ==
            if t.key != k then Tenure(log, k, limit)
            else (if Survives(log, k, limit) then Tenure(log, k, limit) else []) + [t]
  {
    assert (log + [t])[..|log|] == log;
  }

  ghost function Hits(log: seq<Touch>, k: string): nat {
    if log == [] then 0 else Hits(log[..|log| - 1], k) + (if log[|log| - 1].key == k then 1 else 0)
  }

  /** A tenure never exceeds the touches of its key, and without a bound it is all of them. */
  lemma {:induction false} TenureIsBounded(log: seq<Touch>, k: string, limit: int)
    ensures |Tenure(log, k, limit)| <= Hits(log, k)
    ensures limit <= 0 ==> |Tenure(log, k, limit)| == Hits(log, k)
  {
    if log != [] { TenureIsBounded(log[..|log| - 1], k, limit); }
  }

  ghost function NoEffects(l: seq<Touch>): (n: nat)
    ensures n <= |l|
  {
    if l == [] then 0 else NoEffects(l[..|l| - 1]) + (if l[|l| - 1].noEffect then 1 else 0)
  }

  ghost function Changed(l: seq<Touch>): int {
    if l == [] then 0 else Changed(l[..|l| - 1]) + l[|l| - 1].changed
  }

  /** The step of the last touch that had an effect. */
  ghost function LastEffect(l: seq<Touch>): Option<int> {
    if l == [] then None
    else if l[|l| - 1].noEffect then LastEffect(l[..|l| - 1]) else Some(l[|l| - 1].step)
  }

  // ---------------------------------------------------------------- when recency holds

  /** The row just touched outlives the eviction exactly when there is room or some row sorts before it. */
  lemma TouchedRowSurvives<S>(table: map<string, Row<S>>, limit: int, t: Touch, stats: S, kept: map<string, Row<S>>)
    requires limit > 0 ==> |table| <= limit
    requires Evicted(table[t.key := Row(stats, t.step)], limit, kept)
    ensures var wide := table[t.key := Row(stats, t.step)];
      t.key in kept <==>
        limit <= 0 || t.key in table || |table| < limit || exists k :: k in table && Precedes(wide, k, t.key)
  {
    var wide := table[t.key := Row(stats, t.step)];
    WithRow(table, t.key, Row(stats, t.step));
    if limit > 0 && t.key !in table && |table| >= limit {
      if t.key in kept {
        SomeRowGone(wide.Keys, kept.Keys);
        var a :| a in wide && a !in kept;
        assert a in table && Precedes(wide, a, t.key);
      } else {
        assert kept.Keys <= table.Keys;
        FullSet(kept.Keys, table.Keys);
        forall k | k in table ensures !Precedes(wide, k, t.key) {
          assert k in kept && Precedes(wide, t.key, k);
          LessIsTotal(k, t.key);
        }
      }
    }
  }

  lemma SomeRowGone(wide: set<string>, kept: set<string>)
    requires kept <= wide && |kept| < |wide|
    ensures exists a :: a in wide && a !in kept
  {
    assert wide == kept + (wide - kept);
    var a :| a in wide - kept;
  }

  /** One touch and eviction; what the rows count plays no part in it. */
  ghost predicate TouchedAndEvicted(table: map<string, Row<nat>>, t: Touch, limit: int, kept: map<string, Row<nat>>) {
    exists stats: nat :: Evicted(table[t.key := Row(stats, t.step)], limit, kept)
  }

  /** The table before and after every touch of a log. */
  ghost predicate TableRun(tables: seq<map<string, Row<nat>>>, log: seq<Touch>, limit: int) {
    && |tables| == |log| + 1 && tables[0] == map[]
    && forall n: nat :: n < |log| ==> TouchedAndEvicted(tables[n], log[n], limit, tables[n + 1])
  }

  ghost predicate AlwaysLatest(log: seq<Touch>) {
    forall limit, tables: seq<map<string, Row<nat>>> :: TableRun(tables, log, limit) ==>
      forall n: nat :: n <= |log| ==> MostRecent(tables[n], log[..n], limit)
  }

  /**
   Whatever the steps, the tables of a log are least-recently-used under every limit exactly when
   at each touch the keys touched since that key's last touch are stamped in order.
   */
  lemma LatestExactlyInOrder(log: seq<Touch>)
    ensures AlwaysLatest(log) <==> InOrder(log)
  {
    if InOrder(log) {
      forall limit, tables: seq<map<string, Row<nat>>> | TableRun(tables, log, limit)
        ensures forall n: nat :: n <= |log| ==> MostRecent(tables[n], log[..n], limit) {
        forall n: nat | n <= |log| { OrderKeepsLatest(tables, log, limit, n); }
      }
    }
    if AlwaysLatest(log) {
      forall n: nat | n < |log| ensures NextInOrder(log[..n], log[n]) {
        LatestNeedsOrder(log, n);
      }
    }
  }

  lemma {:induction false} OrderKeepsLatest(tables: seq<map<string, Row<nat>>>, log: seq<Touch>, limit: int, n: nat)
    requires InOrder(log) && TableRun(tables, log, limit) && n <= |log|
    ensures MostRecent(tables[n], log[..n], limit)
  {
    hide MostRecent, NextInOrder, Evicted;
    if n == 0 {
      EmptyIsRecent<nat>(limit);
    } else {
      OrderKeepsLatest(tables, log, limit, n - 1);
      var stats: nat :| Evicted(tables[n - 1][log[n - 1].key := Row(stats, log[n - 1].step)], limit, tables[n]);
      TouchKeepsRecent(tables[n - 1], log[..n - 1], limit, log[n - 1], stats, tables[n]);
      assert log[..n - 1] + [log[n - 1]] == log[..n];
    }
  }

  // ---------------------------------------------------------------- out of order, some limit shows it

  lemma {:induction false} LeastRow(table: map<string, Row<nat>>) returns (k: string)
    requires table.Keys != {}
    ensures k in table && forall other :: other in table && other != k ==> Precedes(table, k, other)
    decreases |table|
  {
    k := Pick(table);
    DropShrinks(table, k);
    if (table - {k}).Keys != {} {
      var least := LeastRow(table - {k});
      PrecedesIsTotal(table, k, least);
      if Precedes(table, least, k) {
        forall other | other in table && other != least ensures Precedes(table, least, other) {
          assert other != k ==> Precedes(table - {k}, least, other);
        }
        k := least;
      } else {
        forall other | other in table && other != k ensures Precedes(table, k, other) {
          assert other != least ==> Precedes(table - {k}, least, other);
          if other != least { PrecedesIsTransitive(table, k, least, other); }
        }
      }
    }
  }

  /** Every table can be evicted. */
  lemma {:induction false} EvictionExists(table: map<string, Row<nat>>, limit: int)
    returns (kept: map<string, Row<nat>>)
    ensures Evicted(table, limit, kept)
    decreases |table|
  {
    kept := table;
    if 0 < limit < |table| {
      var k := LeastRow(table);
      DropShrinks(table, k);
      kept := EvictionExists(table - {k}, limit);
      EvictOneMore(table, limit, k, kept);
    }
  }

  lemma EvictOneMore(table: map<string, Row<nat>>, limit: int, k: string, kept: map<string, Row<nat>>)
    requires 0 < limit < |table| && k in table && Evicted(table - {k}, limit, kept)
    requires forall other :: other in table && other != k ==> Precedes(table, k, other)
    ensures Evicted(table, limit, kept)
  {
    var rest := table - {k};
    DropShrinks(table, k);
    forall a, b | a in table && a !in kept && b in kept ensures Precedes(table, a, b) {
      if a != k { assert Precedes(rest, a, b); }
    }
  }

  lemma {:induction false} RunExists(log: seq<Touch>, limit: int) returns (tables: seq<map<string, Row<nat>>>)
    ensures TableRun(tables, log, limit)
  {
    if log == [] {
      tables := [map[]];
    } else {
      var n := |log| - 1;
      var front := RunExists(log[..n], limit);
      var row: Row<nat> := Row(0, log[n].step);
      var kept := EvictionExists(front[n][log[n].key := row], limit);
      tables := front + [kept];
      assert TouchedAndEvicted(front[n], log[n], limit, kept);
      forall i: nat | i < |log| ensures TouchedAndEvicted(tables[i], log[i], limit, tables[i + 1]) {
        if i < n { assert TouchedAndEvicted(front[i], log[..n][i], limit, front[i + 1]); }
      }
    }
  }

  /** The keys touched last at or after the last touch of `a`. */
  ghost function NoOlder(log: seq<Touch>, a: string): set<string>
    requires a in Touched(log)
  {
    set k | k in Touched(log) && LastAt(log, a) <= LastAt(log, k)
  }

  lemma HeldAreNoOlder(table: map<string, Row<nat>>, log: seq<Touch>, a: string)
    requires a in Touched(log) && MostRecent(table, log, |NoOlder(log, a)|)
    ensures table.Keys == NoOlder(log, a)
  {
    var keys := NoOlder(log, a);
    SubsetSize(keys, Touched(log));
    if a in table {
      assert keys <= table.Keys;
      FullSet(keys, table.Keys);
    } else {
      assert table.Keys <= keys - {a};
      SubsetSize(table.Keys, keys - {a});
      assert false;
    }
  }

  lemma LatestNeedsOrder(log: seq<Touch>, n: nat)
    requires AlwaysLatest(log) && n < |log|
    ensures NextInOrder(log[..n], log[n])
  {
    var past, t := log[..n], log[n];
    var now := past + [t];
    assert now == log[..n + 1];
    forall a, b | Since(past, t.key, a) && (b == t.key || Since(past, t.key, b)) && InTurn(now, a, b)
      ensures StampedBefore(now, a, b)
    {
      var limit := |NoOlder(past, a)|;
      var tables := RunExists(log, limit);
      assert MostRecent(tables[n], log[..n], limit);
      assert MostRecent(tables[n + 1], log[..n + 1], limit);
      assert TouchedAndEvicted(tables[n], log[n], limit, tables[n + 1]);
      var stats: nat :| Evicted(tables[n][t.key := Row(stats, t.step)], limit, tables[n + 1]);
      OldestEvicted(tables[n], past, t, stats, tables[n + 1], a, b);
    }
  }

  /** With room for exactly the keys no older than `a`, a new touch pushes `a` out, so it sorts before all others. */
  lemma OldestEvicted(table: map<string, Row<nat>>, log: seq<Touch>, t: Touch, stats: nat, kept: map<string, Row<nat>>,
                      a: string, b: string)
    requires Since(log, t.key, a) && (b == t.key || Since(log, t.key, b)) && InTurn(log + [t], a, b)
    requires Evicted(table[t.key := Row(stats, t.step)], |NoOlder(log, a)|, kept)
    requires MostRecent(table, log, |NoOlder(log, a)|) && MostRecent(kept, log + [t], |NoOlder(log, a)|)
    ensures StampedBefore(log + [t], a, b)
  {
    hide LastAt, LastTouch, Touched, Less, NoOlder, StampedBefore;
    AllNoOlder(table, log, t, stats, a);
    StampsAreSteps(table, log, t, stats, a, b);
    PushedOut(table[t.key := Row(stats, t.step)], log + [t], kept, a, b);
  }

  lemma AllNoOlder(table: map<string, Row<nat>>, log: seq<Touch>, t: Touch, stats: nat, a: string)
    requires Since(log, t.key, a) && MostRecent(table, log, |NoOlder(log, a)|)
    ensures table.Keys == NoOlder(log, a) && a in table
    ensures var wide := table[t.key := Row(stats, t.step)];
      && wide.Keys <= Touched(log + [t]) && |wide| == |NoOlder(log, a)| + 1
      && forall x :: x in wide ==> LastAt(log + [t], a) <= LastAt(log + [t], x)
    ensures forall x :: InTurn(log + [t], a, x) && (x == t.key || Since(log, t.key, x)) ==> x == t.key || x in table
  {
    hide LastAt, LastTouch, Touched;
    LogLast(log, t);
    HeldAreNoOlder(table, log, a);
    WithRow(table, t.key, Row(stats, t.step));
  }

  /** One row too many, all touched last at or after `a`: `a` is the one to go. */
  lemma PushedOut(wide: map<string, Row<nat>>, log: seq<Touch>, kept: map<string, Row<nat>>, a: string, b: string)
    requires wide.Keys <= Touched(log) && kept.Keys <= wide.Keys && |wide| == |kept| + 1
    requires a in wide && b in wide && a != b && forall x :: x in wide ==> LastAt(log, a) <= LastAt(log, x)
    requires forall x, y :: x in wide && x !in kept && y in kept ==> LastAt(log, x) < LastAt(log, y)
    ensures a !in kept && b in kept
  {
    SomeRowGone(wide.Keys, kept.Keys);
    var x :| x in wide && x !in kept;
    assert a !in kept;
    FullSet(kept.Keys, wide.Keys - {a});
  }

  lemma OneOfTwo<T>(s: set<T>, a: T, b: T)
    requires |s| == 1 && s <= {a, b}
    ensures s == {a} || s == {b}
  {
    var x :| x in s;
    assert |s - {x}| == 0;
    assert s == {x};
  }

  /**
   Without increasing steps the table need not hold the latest key: two touches in one step
   with room for one row leave the greater name, here the earlier touch.
   */
  lemma EqualStepsEvictTheLatest(kept: map<string, Row<nat>>)
    requires Evicted(map["b" := Row(1, 0)]["a" := Row(1, 0)], 1, kept)
    ensures "b" in kept && "a" !in kept
    ensures !MostRecent(kept, [Touch("b", 0, false, 1), Touch("a", 0, false, 1)], 1)
  {
    var table: map<string, Row<nat>> := map["b" := Row(1, 0)]["a" := Row(1, 0)];
    assert table.Keys == {"b", "a"};
    OneOfTwo(kept.Keys, "a", "b");
    assert !Precedes(table, "b", "a");
    TwoTouches(Touch("b", 0, false, 1), Touch("a", 0, false, 1));
  }

  lemma NothingTouched()
    ensures Touched([]) == {}
  {
  }

  lemma TwoTouches(t: Touch, u: Touch)
    requires t.key != u.key
    ensures Touched([t, u]) == {t.key, u.key}
    ensures LastTouch([t, u], t.key) == t.step && LastTouch([t, u], u.key) == u.step
  {
    hide LastAt, LastTouch, Touched;
    NothingTouched();
    LogLast([], t);
    assert [] + [t] == [t];
    LogLast([t], u);
    assert [t] + [u] == [t, u];
  }
}
