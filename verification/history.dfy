/**
 The step records the orchestrator keeps, its bounded history (swarm_orchestrator.py), and
 the selection of new records that both stepwise explorers start from.
 */
module History {
  import opened Common
  import opened Sorting

  type StateKey = string

  /** Action ids are non-empty; an empty id in a record counts as missing. */
  type ActionKey = s: string | s != "" witness "A"

  datatype Kind = SimpleKind | CoordKind | OtherKind

  /** Fields a recorded action may lack are options. */
  datatype Action = Action(kind: Kind, id: Option<ActionKey>, x: Option<int>, y: Option<int>)

  /** `step` is -1 when the record carries no step index. */
  datatype Record = Record(step: int, action: Action, before: Option<StateKey>, after: Option<StateKey>, changed: int)

  // ---------------------------------------------------------------- the bounded history

  /** The slice history[-n:], which keeps everything for n = 0 and drops from the front for negative n. */
  function Window<T>(h: seq<T>, n: int): seq<T> {
    if n > 0 then (if |h| <= n then h else h[|h| - n..])
    else if n == 0 then h
    else (if |h| <= -n then [] else h[-n..])
  }

  /** Records are numbered by the step counter, from zero. */
  ghost predicate Numbered(log: seq<Record>) {
    forall i :: 0 <= i < |log| ==> log[i].step == i
  }

  ghost predicate Suffix<T>(h: seq<T>, log: seq<T>) {
    |h| <= |log| && forall i {:trigger h[i]} :: 0 <= i < |h| ==> h[i] == log[|log| - |h| + i]
  }

  // ---------------------------------------------------------------- new records, oldest first

  /** The records with a step index above `last`, in history order. */
  function Newer(h: seq<Record>, last: int): seq<Record> {
    if h == [] then [] else
      var front := Newer(h[..|h| - 1], last);
      if h[|h| - 1].step > last then front + [h[|h| - 1]] else front
  }

  predicate Sooner(a: Record, b: Record) { a.step < b.step }

  function NewEntries(h: seq<Record>, last: int): seq<Record> {
    SortBy(Newer(h, last), Sooner)
  }

  /** Of a numbered run of records, the newer ones are a tail. */
  lemma {:induction false} NewerOfRun(log: seq<Record>, lo: nat, hi: nat, last: int)
    requires Numbered(log) && lo <= hi <= |log|
    ensures var m := if last + 1 <= lo then lo else if last + 1 >= hi then hi else last + 1;
      Newer(log[lo..hi], last) == log[m..hi]
    decreases hi
  {
    if lo < hi {
      SliceLast(log, lo, hi);
      NewerOfRun(log, lo, hi - 1, last);
      if hi - 1 > last {
        var m := if last + 1 <= lo then lo else last + 1;
        assert log[m..hi] == log[m..hi - 1] + [log[hi - 1]];
      } else {
        assert Newer(log[lo..hi - 1], last) == [] == log[hi..hi];
      }
    }
  }

  lemma SliceLast<T>(s: seq<T>, m: nat, n: nat)
    requires m < n <= |s|
    ensures var r := s[m..n]; r != [] && r[..|r| - 1] == s[m..n - 1] && r[|r| - 1] == s[n - 1]
    ensures s[..n] == s[..n - 1] + [s[n - 1]]
  {
  }

  lemma DropToEnd<T>(s: seq<T>, m: nat)
    requires m <= |s|
    ensures s[m..|s|] == s[m..]
  {
  }

  /** From a suffix of the log, the new entries are again a suffix of the log, already in order. */
  lemma NewEntriesOfSuffix(log: seq<Record>, h: seq<Record>, last: int) returns (m: nat)
    requires Numbered(log) && Suffix(h, log)
    ensures m <= |log| && NewEntries(h, last) == log[m..]
    ensures |log| - |h| <= m && (m <= last + 1 || m == |log| - |h|) && (last + 1 <= m || m == |log|)
  {
    var lo := |log| - |h|;
    NewerOfRun(log, lo, |log|, last);
    assert log[lo..|log|] == h;
    m := if last + 1 <= lo then lo else if last + 1 >= |log| then |log| else last + 1;
    DropToEnd(log, m);
    SortOfOrdered(log[m..], Sooner);
  }

  /** Appending to the log and cutting to the window leaves a suffix that still holds the newest records. */
  lemma WindowOfSuffix<T>(log: seq<T>, h: seq<T>, x: T, n: int)
    requires Suffix(h, log) && n >= 0
    ensures var h2 := Window(h + [x], n);
      Suffix(h2, log + [x]) && (n == 0 ==> |h2| == |h| + 1) && (n > 0 ==> |h2| == if |h| < n then |h| + 1 else n)
  {
  }

  // ---------------------------------------------------------------- runs under a window

  /** One orchestrator step appends its record, and a reset record after a lost game. */
  ghost predicate IsBatch(b: seq<Record>) {
    |b| == 1 || (|b| == 2 && b[1].action == RESET)
  }

  ghost predicate IsRun(batches: seq<seq<Record>>) {
    (forall i :: 0 <= i < |batches| ==> IsBatch(batches[i])) && Numbered(Flatten(batches))
  }

  /** Each record is appended on its own, and the history is cut every time. */
  function Push(h: seq<Record>, b: seq<Record>, n: int): seq<Record> {
    if b == [] then h else Window(Push(h, b[..|b| - 1], n) + [b[|b| - 1]], n)
  }

  function HistoryAfter(batches: seq<seq<Record>>, n: int): seq<Record> {
    if batches == [] then [] else Push(HistoryAfter(batches[..|batches| - 1], n), batches[|batches| - 1], n)
  }

  lemma {:induction false} PushLaws(log: seq<Record>, h: seq<Record>, b: seq<Record>, n: int)
    requires Suffix(h, log) && n >= 0
    requires (n == 0 && |h| == |log|) || (n > 0 && |h| == if |log| < n then |log| else n)
    ensures Suffix(Push(h, b, n), log + b)
    ensures n == 0 ==> |Push(h, b, n)| == |log + b|
    ensures n > 0 ==> |Push(h, b, n)| == if |log + b| < n then |log + b| else n
  {
    if b == [] {
      assert log + b == log;
    } else {
      var front, last := b[..|b| - 1], b[|b| - 1];
      PushLaws(log, h, front, n);
      WindowOfSuffix(log + front, Push(h, front, n), last, n);
      assert log + b == log + front + [last];
    }
  }

  lemma {:induction false} HistoryLaws(batches: seq<seq<Record>>, n: int)
    requires n >= 0
    ensures Suffix(HistoryAfter(batches, n), Flatten(batches))
    ensures n == 0 ==> |HistoryAfter(batches, n)| == |Flatten(batches)|
    ensures n > 0 ==> |HistoryAfter(batches, n)| == if |Flatten(batches)| < n then |Flatten(batches)| else n
  {
    if batches != [] {
      HistoryLaws(batches[..|batches| - 1], n);
      PushLaws(Flatten(batches[..|batches| - 1]), HistoryAfter(batches[..|batches| - 1], n), batches[|batches| - 1], n);
    }
  }

  lemma {:induction false} RunPrefix(batches: seq<seq<Record>>)
    requires IsRun(batches) && batches != []
    ensures var front, log := batches[..|batches| - 1], Flatten(batches);
      && IsRun(front) && |Flatten(front)| <= |log| <= |Flatten(front)| + 2
      && log[..|Flatten(front)|] == Flatten(front)
  {
    var front, last := batches[..|batches| - 1], batches[|batches| - 1];
    var log, p := Flatten(batches), |Flatten(front)|;
    assert log == Flatten(front) + last;
    forall i | 0 <= i < p ensures Flatten(front)[i].step == i { assert log[i] == Flatten(front)[i]; }
    assert forall i :: 0 <= i < |front| ==> front[i] == batches[i];
    assert IsBatch(last);
  }

  const RESET := Action(SimpleKind, Some("RESET"), None, None)

  /** One lost game: the step that loses it, and the reset. */
  function LostGame(a: Action): seq<seq<Record>> {
    [[Record(0, a, Some("s"), Some("t"), 1), Record(1, RESET, Some("t"), Some("r"), 1)]]
  }

  lemma LostGameIsRun(a: Action)
    ensures IsRun(LostGame(a)) && Flatten(LostGame(a)) == LostGame(a)[0]
  {
    assert LostGame(a)[..0] == [];
  }

  /** A window too narrow for both records loses the first. */
  lemma LostGameHistory(a: Action, n: int)
    requires n == 1 || n < 0
    ensures var h := HistoryAfter(LostGame(a), n); |h| <= 1 && forall i :: 0 <= i < |h| ==> h[i] == LostGame(a)[0][1]
  {
    var batches := LostGame(a);
    var b := batches[0];
    assert batches[..0] == [] && b[..1] == [b[0]] && b[..1][..0] == [];
    assert HistoryAfter(batches[..0], n) == [];
    assert Push([], b[..1], n) == Window([b[0]], n);
    assert Push([], b, n) == Window(Window([b[0]], n) + [b[1]], n);
  }

  lemma OneNewEntry(h: seq<Record>, last: int)
    requires |h| <= 1
    ensures NewEntries(h, last) == [] || NewEntries(h, last) == h
  {
    if |h| == 1 {
      assert h[..0] == [] && h == [h[0]];
      assert Newer(h[..0], last) == [];
      if h[0].step > last { SortOfOrdered(h, Sooner); }
    }
  }
}
