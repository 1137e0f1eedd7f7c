/**
 Per-action memory (memory.py): counters and running means built one observation at a time,
 and the merge of two memories, which must agree with one memory built from both logs.
 */
module ActionMemory {
  import opened Common
  import opened Means

  /** What one update knows: the changed cells and box, the kinds of event seen, the credited source. */
  datatype Observation = Observation(key: string, changed: int, area: int, kinds: seq<string>,
                                     source: Option<string>, step: int)

  datatype ActionEfficacy = ActionEfficacy(
    attempts: nat, noEffects: nat, effects: nat, avgCells: real, avgArea: real, lastStep: int,
    signatures: map<string, nat>, sources: map<string, nat>)

  const TOTAL := "_total"

  // ---------------------------------------------------------------- the meaning of a record

  ghost function Of(log: seq<Observation>, key: string): (r: seq<Observation>)
    ensures forall i :: 0 <= i < |r| ==> r[i].key == key
    ensures |r| <= |log|
  {
    if log == [] then [] else
      var rest := Of(log[..|log| - 1], key);
      if log[|log| - 1].key == key then rest + [log[|log| - 1]] else rest
  }

  ghost function Noops(l: seq<Observation>): (n: nat)
    ensures n <= |l|
  {
    if l == [] then 0 else Noops(l[..|l| - 1]) + (if l[|l| - 1].changed == 0 then 1 else 0)
  }

  ghost function Cells(l: seq<Observation>): int {
    if l == [] then 0 else Cells(l[..|l| - 1]) + l[|l| - 1].changed
  }

  ghost function Areas(l: seq<Observation>): int {
    if l == [] then 0 else Areas(l[..|l| - 1]) + l[|l| - 1].area
  }

  /** How often an event kind was seen; the empty kind and the reserved total are never recorded. */
  ghost function Seen(l: seq<Observation>, kind: string): nat {
    if l == [] || kind == "" || kind == TOTAL then 0 else
      Seen(l[..|l| - 1], kind) + Occurrences(l[|l| - 1].kinds, kind)
  }

  ghost function Credited(l: seq<Observation>, source: string): nat {
    if l == [] then 0 else
      Credited(l[..|l| - 1], source) + (if l[|l| - 1].source == Some(source) then 1 else 0)
  }

  /** A counter map holds exactly the names counted at least once, each with its count. */
  ghost predicate Counts(m: map<string, nat>, count: string -> nat) {
    forall name {:trigger count(name)} :: (name in m <==> count(name) > 0) && Get(m, name, 0) == count(name)
  }

  /** The record says exactly what happened in `l`. */
  ghost predicate Describes(e: ActionEfficacy, l: seq<Observation>) {
    && e.attempts == |l| && e.noEffects == Noops(l) && e.effects == |l| - Noops(l)
    && IsMean(e.avgCells, |l|, Cells(l)) && IsMean(e.avgArea, |l|, Areas(l))
    && Counts(e.signatures, (kind: string) => Seen(l, kind))
    && Counts(e.sources, (source: string) => Credited(l, source))
  }

  /** The memory holds one record for each action key in the log, describing its observations. */
  ghost predicate Built(m: map<string, ActionEfficacy>, log: seq<Observation>) {
    forall key {:trigger Of(log, key)} ::
      && (key in m <==> Of(log, key) != [])
      && (key in m ==> Describes(m[key], Of(log, key)) && m[key].lastStep == Of(log, key)[|Of(log, key)| - 1].step)
  }

  // ---------------------------------------------------------------- building

  /** How many events have a kind at all. */
  ghost function Named(kinds: seq<string>): nat {
    if kinds == [] then 0 else Named(kinds[..|kinds| - 1]) + (if kinds[|kinds| - 1] == "" then 0 else 1)
  }

  /** The event counter of one observation, with its total under the reserved name. */
  method EventSignatures(kinds: seq<string>) returns (counts: map<string, nat>)
    ensures forall name :: name != TOTAL && name in counts ==>
      name != "" && counts[name] == Occurrences(kinds, name) > 0
    ensures forall name :: name != TOTAL && name != "" && Occurrences(kinds, name) > 0 ==> name in counts
    ensures (TOTAL in counts <==> Named(kinds) > 0) && Get(counts, TOTAL, 0) == Named(kinds)
  {
    counts := map[];
    var i := 0;
    while i < |kinds|
      invariant 0 <= i <= |kinds|
      invariant forall name :: name in counts ==> name != "" && counts[name] == Occurrences(kinds[..i], name) > 0
      invariant forall name :: name != "" && Occurrences(kinds[..i], name) > 0 ==> name in counts
      invariant SumValues(counts) == Named(kinds[..i]) && (counts == map[] <==> Named(kinds[..i]) == 0)
    {
      assert kinds[..i + 1][..i] == kinds[..i];
      SumIncrement(counts, kinds[i]);
      if kinds[i] != "" {
        counts := counts[kinds[i] := Get(counts, kinds[i], 0) + 1];
      }
      i := i + 1;
    }
    assert kinds[..i] == kinds;
    if counts != map[] {
      var total := SumCounts(counts);
      counts := counts[TOTAL := total];
    }
  }

  method SumCounts(counts: map<string, nat>) returns (total: nat)
    ensures total == SumValues(counts)
  {
    total := 0;
    var rest := counts;
    while rest.Keys != {}
      invariant total + SumValues(rest) == SumValues(counts)
      decreases |rest|
    {
      var name :| name in rest;
      SumRemove(rest, name);
      DropShrinks(rest, name);
      total := total + rest[name];
      rest := rest - {name};
    }
  }

  /** Adds one observation's event counter into a record's, leaving the total out. */
  method AddSignatures(into: map<string, nat>, counts: map<string, nat>) returns (r: map<string, nat>)
    ensures r.Keys == into.Keys + (counts.Keys - {TOTAL})
    ensures forall name :: name in r ==>
      r[name] == Get(into, name, 0) + (if name == TOTAL then 0 else Get(counts, name, 0))
  {
    r := into;
    var rest := counts.Keys;
    while rest != {}
      invariant rest <= counts.Keys
      invariant r.Keys == into.Keys + (counts.Keys - rest - {TOTAL})
      invariant forall name :: name in r ==>
        r[name] == Get(into, name, 0) + (if name == TOTAL || name in rest then 0 else Get(counts, name, 0))
      decreases |rest|
    {
      var name :| name in rest;
      rest := rest - {name};
      if name != TOTAL {
        r := r[name := Get(r, name, 0) + counts[name]];
      }
    }
  }

  const NO_EFFICACY := ActionEfficacy(0, 0, 0, 0.0, 0.0, 0, map[], map[])

  lemma OfLast(log: seq<Observation>, o: Observation, key: string)
    ensures Of(log + [o], key) == if o.key == key then Of(log, key) + [o] else Of(log, key)
  {
    assert (log + [o])[..|log|] == log;
  }

  /** One memory update: counters and means, then the credited source, then the event signatures. */
  method Record(m: map<string, ActionEfficacy>, ghost log: seq<Observation>, o: Observation)
    returns (r: map<string, ActionEfficacy>)
    requires Built(m, log)
    ensures Built(r, log + [o])
  {
    ghost var l := Of(log, o.key);
    var stats := Get(m, o.key, NO_EFFICACY);
    assert Describes(stats, l);
    var next := Updated(stats, l, o);
    r := m[o.key := next];
    forall key
      ensures key in r <==> Of(log + [o], key) != []
      ensures key in r ==> Describes(r[key], Of(log + [o], key))
      ensures key in r ==> r[key].lastStep == Of(log + [o], key)[|Of(log + [o], key)| - 1].step
    {
      OfLast(log, o, key);
    }
  }

  method Updated(stats: ActionEfficacy, ghost l: seq<Observation>, o: Observation) returns (r: ActionEfficacy)
    requires Describes(stats, l)
    ensures Describes(r, l + [o]) && r.lastStep == o.step
  {
    var attempts := stats.attempts + 1;
    var noop := if o.changed == 0 then 1 else 0;
    var sources := stats.sources;
    if o.source.Some? {
      sources := sources[o.source.value := Get(sources, o.source.value, 0) + 1];
    }
    var counts := EventSignatures(o.kinds);
    var signatures := AddSignatures(stats.signatures, counts);
    r := ActionEfficacy(
      attempts, stats.noEffects + noop, stats.effects + 1 - noop,
      RunningMean(stats.avgCells, attempts, o.changed as real),
      RunningMean(stats.avgArea, attempts, o.area as real), o.step, signatures, sources);
    assert (l + [o])[..|l|] == l;
    RunningMeanIsExact(stats.avgCells, |l|, Cells(l), o.changed);
    RunningMeanIsExact(stats.avgArea, |l|, Areas(l), o.area);
    SignaturesAdded(stats.signatures, counts, l, o, signatures);
    SourceAdded(stats.sources, l, o, sources);
  }

  lemma SourceAdded(before: map<string, nat>, l: seq<Observation>, o: Observation, after: map<string, nat>)
    requires Counts(before, (source: string) => Credited(l, source))
    requires after == if o.source.Some? then before[o.source.value := Get(before, o.source.value, 0) + 1] else before
    ensures Counts(after, (source: string) => Credited(l + [o], source))
  {
    assert (l + [o])[..|l|] == l;
    var count := (source: string) => Credited(l, source);
    forall name
      ensures (name in after <==> Credited(l + [o], name) > 0) && Get(after, name, 0) == Credited(l + [o], name)
    {
      assert count(name) == Credited(l, name);
    }
  }

  lemma SignaturesAdded(before: map<string, nat>, counts: map<string, nat>, l: seq<Observation>, o: Observation,
                        after: map<string, nat>)
    requires Counts(before, (kind: string) => Seen(l, kind))
    requires forall name :: name != TOTAL && name in counts ==>
      name != "" && counts[name] == Occurrences(o.kinds, name) > 0
    requires forall name :: name != TOTAL && name != "" && Occurrences(o.kinds, name) > 0 ==> name in counts
    requires after.Keys == before.Keys + (counts.Keys - {TOTAL})
    requires forall name :: name in after ==>
      after[name] == Get(before, name, 0) + (if name == TOTAL then 0 else Get(counts, name, 0))
    ensures Counts(after, (kind: string) => Seen(l + [o], kind))
  {
    assert (l + [o])[..|l|] == l;
    var count := (kind: string) => Seen(l, kind);
    forall name
      ensures (name in after <==> Seen(l + [o], name) > 0) && Get(after, name, 0) == Seen(l + [o], name)
    {
      assert count(name) == Seen(l, name);
    }
  }

  // ---------------------------------------------------------------- merging two memories

  function MergeCounts(a: map<string, nat>, b: map<string, nat>): map<string, nat> {
    map name | name in a.Keys + b.Keys :: Get(a, name, 0) + Get(b, name, 0)
  }

  function MergeEfficacy(a: ActionEfficacy, b: ActionEfficacy): ActionEfficacy {
    ActionEfficacy(
      a.attempts + b.attempts, a.noEffects + b.noEffects, a.effects + b.effects,
      MergeMean(a.avgCells, a.attempts, b.avgCells, b.attempts),
      MergeMean(a.avgArea, a.attempts, b.avgArea, b.attempts),
      if a.lastStep >= b.lastStep then a.lastStep else b.lastStep,
      MergeCounts(a.signatures, b.signatures), MergeCounts(a.sources, b.sources))
  }

  function Merge(base: map<string, ActionEfficacy>, later: map<string, ActionEfficacy>): map<string, ActionEfficacy> {
    map key | key in base.Keys + later.Keys ::
      if key !in base then later[key] else if key !in later then base[key] else MergeEfficacy(base[key], later[key])
  }

  lemma {:induction false} OfConcat(a: seq<Observation>, b: seq<Observation>, key: string)
    ensures Of(a + b, key) == Of(a, key) + Of(b, key)
  {
    if b == [] {
      assert a + b == a;
    } else {
      var rest := b[..|b| - 1];
      OfConcat(a, rest, key);
      assert (a + b)[..|a + b| - 1] == a + rest;
    }
  }

  lemma {:induction false} TotalsConcat(a: seq<Observation>, b: seq<Observation>)
    ensures Noops(a + b) == Noops(a) + Noops(b)
    ensures Cells(a + b) == Cells(a) + Cells(b) && Areas(a + b) == Areas(a) + Areas(b)
  {
    if b == [] {
      assert a + b == a;
    } else {
      var rest := b[..|b| - 1];
      TotalsConcat(a, rest);
      assert (a + b)[..|a + b| - 1] == a + rest;
    }
  }

  lemma {:induction false} TalliesConcat(a: seq<Observation>, b: seq<Observation>, name: string)
    ensures Seen(a + b, name) == Seen(a, name) + Seen(b, name)
    ensures Credited(a + b, name) == Credited(a, name) + Credited(b, name)
  {
    if b == [] {
      assert a + b == a;
    } else {
      var rest := b[..|b| - 1];
      TalliesConcat(a, rest, name);
      assert (a + b)[..|a + b| - 1] == a + rest;
    }
  }

  lemma MergeCountsAdds(a: map<string, nat>, b: map<string, nat>, f: string -> nat, g: string -> nat, h: string -> nat)
    requires Counts(a, f) && Counts(b, g)
    requires forall name :: h(name) == f(name) + g(name)
    ensures Counts(MergeCounts(a, b), h)
  {
    forall name
      ensures (name in MergeCounts(a, b) <==> h(name) > 0) && Get(MergeCounts(a, b), name, 0) == h(name)
    {
      assert h(name) == f(name) + g(name);
    }
  }

  /** Merging two records describes both lists of observations one after the other. */
  lemma MergeDescribes(a: ActionEfficacy, la: seq<Observation>, b: ActionEfficacy, lb: seq<Observation>)
    requires Describes(a, la) && Describes(b, lb)
    ensures Describes(MergeEfficacy(a, b), la + lb)
  {
    TotalsConcat(la, lb);
    MergeMeanAdds(a.avgCells, |la|, b.avgCells, |lb|);
    MergeMeanAdds(a.avgArea, |la|, b.avgArea, |lb|);
    MergeSignatures(a, la, b, lb);
    MergeSources(a, la, b, lb);
  }

  lemma MergeSignatures(a: ActionEfficacy, la: seq<Observation>, b: ActionEfficacy, lb: seq<Observation>)
    requires Describes(a, la) && Describes(b, lb)
    ensures Counts(MergeCounts(a.signatures, b.signatures), (kind: string) => Seen(la + lb, kind))
  {
    forall name ensures Seen(la + lb, name) == Seen(la, name) + Seen(lb, name) {
      TalliesConcat(la, lb, name);
    }
    MergeCountsAdds(a.signatures, b.signatures, (kind: string) => Seen(la, kind), (kind: string) => Seen(lb, kind),
                    (kind: string) => Seen(la + lb, kind));
  }

  lemma MergeSources(a: ActionEfficacy, la: seq<Observation>, b: ActionEfficacy, lb: seq<Observation>)
    requires Describes(a, la) && Describes(b, lb)
    ensures Counts(MergeCounts(a.sources, b.sources), (source: string) => Credited(la + lb, source))
  {
    forall name ensures Credited(la + lb, name) == Credited(la, name) + Credited(lb, name) {
      TalliesConcat(la, lb, name);
    }
    MergeCountsAdds(a.sources, b.sources, (source: string) => Credited(la, source),
                    (source: string) => Credited(lb, source), (source: string) => Credited(la + lb, source));
  }

  /** A description leaves room for one record only, up to the last step. */
  lemma DescriptionIsUnique(a: ActionEfficacy, b: ActionEfficacy, l: seq<Observation>)
    requires l != [] && Describes(a, l) && Describes(b, l)
    ensures a.(lastStep := b.lastStep) == b
  {
    MeanIsUnique(a.avgCells, b.avgCells, |l|);
    MeanIsUnique(a.avgArea, b.avgArea, |l|);
    CountsAreUnique(a.signatures, b.signatures, (kind: string) => Seen(l, kind));
    CountsAreUnique(a.sources, b.sources, (source: string) => Credited(l, source));
  }

  lemma CountsAreUnique(a: map<string, nat>, b: map<string, nat>, f: string -> nat)
    requires Counts(a, f) && Counts(b, f)
    ensures a == b
  {
    forall name ensures (name in a <==> name in b) && Get(a, name, 0) == Get(b, name, 0) {
      assert f(name) >= 0;
    }
  }

  /**
   Merging two memories gives the memory of both logs in sequence exactly when, for every action
   in both, the first memory saw it no later than the second.
   */
  lemma MergeMatchesReplay(base: map<string, ActionEfficacy>, first: seq<Observation>,
                           later: map<string, ActionEfficacy>, second: seq<Observation>,
                           whole: map<string, ActionEfficacy>)
    requires Built(base, first) && Built(later, second) && Built(whole, first + second)
    ensures Merge(base, later) == whole <==>
            forall key :: key in base && key in later ==> base[key].lastStep <= later[key].lastStep
  {
    var merged := Merge(base, later);
    forall key
      ensures key in merged <==> key in whole
      ensures key in merged ==> merged[key].(lastStep := whole[key].lastStep) == whole[key]
      ensures key in merged && !(key in base && key in later) ==> merged[key] == whole[key]
      ensures key in base && key in later ==> whole[key].lastStep == later[key].lastStep
    {
      MergeAtKey(base, first, later, second, whole, key);
    }
  }

  lemma MergeAtKey(base: map<string, ActionEfficacy>, first: seq<Observation>,
                   later: map<string, ActionEfficacy>, second: seq<Observation>,
                   whole: map<string, ActionEfficacy>, key: string)
    requires Built(base, first) && Built(later, second) && Built(whole, first + second)
    ensures key in Merge(base, later) <==> key in whole
    ensures key in whole ==> Merge(base, later)[key].(lastStep := whole[key].lastStep) == whole[key]
    ensures key in whole && !(key in base && key in later) ==> Merge(base, later)[key] == whole[key]
    ensures key in base && key in later ==> whole[key].lastStep == later[key].lastStep
  {
    var a, b := Of(first, key), Of(second, key);
    OfConcat(first, second, key);
    assert Of(first + second, key) == a + b;
    if b == [] { assert a + b == a; }
    if a == [] { assert a + b == b; }
    if key in whole {
      if key in base && key in later { MergeDescribes(base[key], a, later[key], b); }
      DescriptionIsUnique(Merge(base, later)[key], whole[key], a + b);
    }
  }
}
