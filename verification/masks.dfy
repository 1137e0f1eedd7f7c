/**
 Boolean masks over a grid and their run-length form, shared by the UI-bar detector
 (transition_event_compiler.py) and the HUD probe (hud_probe_accumulator.py).
 */
module Masks {
  import opened Common
  import opened Cells

  datatype RawMask = RawMask(h: nat, w: nat, rows: seq<seq<bool>>) {
    predicate Valid() {
      |rows| == h && forall y :: 0 <= y < h ==> |rows[y]| == w
    }
  }

  type Mask = m: RawMask | m.Valid() witness RawMask(0, 0, [])

  predicate SameShape(a: Grid, b: Grid) {
    a.h == b.h && a.w == b.w
  }

  function Blank(h: nat, w: nat): Mask {
    RawMask(h, w, seq(h, _ => seq(w, _ => false)))
  }

  /** The cells whose colour differs between two frames. */
  function Changed(prev: Grid, curr: Grid): (m: Mask)
    requires SameShape(prev, curr)
    ensures m.h == curr.h && m.w == curr.w
    ensures forall y, x :: 0 <= y < m.h && 0 <= x < m.w ==> (m.rows[y][x] <==> prev.rows[y][x] != curr.rows[y][x])
  {
    RawMask(curr.h, curr.w,
            seq(curr.h, y requires 0 <= y < curr.h =>
              seq(curr.w, x requires 0 <= x < curr.w => prev.rows[y][x] != curr.rows[y][x])))
  }

  function CountRow(row: seq<bool>): (n: nat)
    ensures n <= |row|
  {
    if row == [] then 0 else CountRow(row[..|row| - 1]) + (if row[|row| - 1] then 1 else 0)
  }

  function CountRows(rows: seq<seq<bool>>): nat {
    if rows == [] then 0 else CountRows(rows[..|rows| - 1]) + CountRow(rows[|rows| - 1])
  }

  lemma {:induction false} CountRowConcat(a: seq<bool>, b: seq<bool>)
    ensures CountRow(a + b) == CountRow(a) + CountRow(b)
  {
    if b == [] {
      assert a + b == a;
    } else {
      CountRowConcat(a, b[..|b| - 1]);
      assert (a + b)[..|a + b| - 1] == a + b[..|b| - 1];
    }
  }

  lemma {:induction false} CountRowsConcat(a: seq<seq<bool>>, b: seq<seq<bool>>)
    ensures CountRows(a + b) == CountRows(a) + CountRows(b)
  {
    if b == [] {
      assert a + b == a;
    } else {
      CountRowsConcat(a, b[..|b| - 1]);
      assert (a + b)[..|a + b| - 1] == a + b[..|b| - 1];
    }
  }

  /** The places of the true cells. */
  ghost function TrueCells(rows: seq<seq<bool>>): set<Cell> {
    set y, x | 0 <= y < |rows| && 0 <= x < |rows[y]| && rows[y][x] :: (y, x)
  }

  ghost function TrueInRow(row: seq<bool>, y: int): set<Cell> {
    set x | 0 <= x < |row| && row[x] :: (y, x)
  }

  lemma {:induction false} RowCountIsSize(row: seq<bool>, y: int)
    ensures CountRow(row) == |TrueInRow(row, y)|
  {
    if row != [] {
      var front, last := row[..|row| - 1], |row| - 1;
      RowCountIsSize(front, y);
      assert TrueInRow(row, y) == TrueInRow(front, y) + (if row[last] then {(y, last)} else {});
    }
  }

  /** The count is the number of true cells. */
  lemma {:induction false} CountIsSize(rows: seq<seq<bool>>)
    ensures CountRows(rows) == |TrueCells(rows)|
  {
    if rows != [] {
      var front, last := rows[..|rows| - 1], |rows| - 1;
      CountIsSize(front);
      RowCountIsSize(rows[last], last);
      assert TrueCells(rows) == TrueCells(front) + TrueInRow(rows[last], last);
      assert TrueCells(front) !! TrueInRow(rows[last], last);
    }
  }

  // ---------------------------------------------------------------- run-length form

  datatype Run = Run(start: nat, length: nat)

  predicate Inside(r: Run, i: int) {
    r.start <= i < r.start + r.length
  }

  predicate Covered(runs: seq<Run>, i: int) {
    exists k :: 0 <= k < |runs| && Inside(runs[k], i)
  }

  /** Non-empty runs inside the first `n` positions, in order, with a gap between neighbours. */
  ghost predicate Canonical(runs: seq<Run>, n: nat) {
    && (forall k :: 0 <= k < |runs| ==> runs[k].length > 0 && runs[k].start + runs[k].length <= n)
    && (forall j, k :: 0 <= j < k < |runs| ==> runs[j].start + runs[j].length < runs[k].start)
  }

  ghost predicate Expands(runs: seq<Run>, flat: seq<bool>) {
    forall i :: 0 <= i < |flat| ==> (flat[i] <==> Covered(runs, i))
  }

  function SumLengths(runs: seq<Run>): nat {
    if runs == [] then 0 else SumLengths(runs[..|runs| - 1]) + runs[|runs| - 1].length
  }

  lemma CoveredLast(runs: seq<Run>, r: Run, i: int)
    ensures Covered(runs + [r], i) <==> Covered(runs, i) || Inside(r, i)
  {
    if Inside(r, i) { assert (runs + [r])[|runs|] == r; }
    if Covered(runs, i) {
      var k :| 0 <= k < |runs| && Inside(runs[k], i);
      assert (runs + [r])[k] == runs[k];
    }
  }

  /** The end of a run of true cells that starts at `i`. */
  method RunEnd(flat: seq<bool>, i: nat) returns (j: nat)
    requires i < |flat| && flat[i]
    ensures i < j <= |flat| && (forall k :: i <= k < j ==> flat[k]) && (j < |flat| ==> !flat[j])
    ensures CountRow(flat[..j]) == CountRow(flat[..i]) + (j - i)
  {
    j := i;
    while j < |flat| && flat[j]
      invariant i <= j <= |flat| && forall k :: i <= k < j ==> flat[k]
      invariant CountRow(flat[..j]) == CountRow(flat[..i]) + (j - i)
    {
      assert flat[..j + 1][..j] == flat[..j];
      j := j + 1;
    }
  }

  /** The scan that cuts a flat mask into its runs. */
  method MaskToRuns(flat: seq<bool>) returns (runs: seq<Run>)
    ensures Canonical(runs, |flat|) && Expands(runs, flat)
    ensures SumLengths(runs) == CountRow(flat)
  {
    hide Covered;
    runs := [];
    var i := 0;
    while i < |flat|
      invariant 0 <= i <= |flat|
      invariant Canonical(runs, i)
      invariant forall k :: 0 <= k < i ==> (flat[k] <==> Covered(runs, k))
      invariant i < |flat| && flat[i] && runs != [] ==> runs[|runs| - 1].start + runs[|runs| - 1].length < i
      invariant SumLengths(runs) == CountRow(flat[..i])
    {
      assert flat[..i + 1][..i] == flat[..i];
      if !flat[i] {
        NotCoveredPast(runs, i);
        i := i + 1;
      } else {
        var j := RunEnd(flat, i);
        AddRunCanonical(runs, i, j);
        AddRunCovers(runs, flat, i, j);
        SumLengthsLast(runs, Run(i, j - i));
        runs := runs + [Run(i, j - i)];
        i := j;
      }
    }
    assert flat[..i] == flat;
  }

  lemma AddRunCanonical(runs: seq<Run>, i: nat, j: nat)
    requires i < j && Canonical(runs, i)
    requires runs != [] ==> runs[|runs| - 1].start + runs[|runs| - 1].length < i
    ensures Canonical(runs + [Run(i, j - i)], j)
  {
    var s := runs + [Run(i, j - i)];
    assert forall k :: 0 <= k < |runs| ==> s[k] == runs[k];
    forall a, b | 0 <= a < b < |s| ensures s[a].start + s[a].length < s[b].start {
      if b == |runs| && a < b - 1 { assert runs[a].start + runs[a].length < runs[b - 1].start; }
    }
  }

  lemma SumLengthsLast(runs: seq<Run>, r: Run)
    ensures SumLengths(runs + [r]) == SumLengths(runs) + r.length
  {
    assert (runs + [r])[..|runs|] == runs;
  }

  lemma AddRunCovers(runs: seq<Run>, flat: seq<bool>, i: nat, j: nat)
    requires i < j <= |flat|
    requires forall k :: 0 <= k < i ==> (flat[k] <==> Covered(runs, k))
    requires forall k :: i <= k < j ==> flat[k]
    ensures forall k :: 0 <= k < j ==> (flat[k] <==> Covered(runs + [Run(i, j - i)], k))
  {
    hide Covered;
    forall k | 0 <= k < j ensures flat[k] <==> Covered(runs + [Run(i, j - i)], k) {
      CoveredLast(runs, Run(i, j - i), k);
    }
  }

  lemma NotCoveredPast(runs: seq<Run>, n: nat)
    requires Canonical(runs, n)
    ensures !Covered(runs, n)
  {
  }

  /** A mask has one canonical run list only. */
  lemma {:induction false} CanonicalIsUnique(a: seq<Run>, b: seq<Run>, n: nat)
    requires Canonical(a, n) && Canonical(b, n)
    requires forall i :: 0 <= i < n ==> (Covered(a, i) <==> Covered(b, i))
    ensures a == b
    decreases |a| + |b|
  {
    if a == [] && b == [] { return; }
    LastRunsAgree(a, b, n);
    var ra, rb, r := a[..|a| - 1], b[..|b| - 1], a[|a| - 1];
    assert a == ra + [r] && b == rb + [r];
    forall i | 0 <= i < r.start ensures Covered(ra, i) <==> Covered(rb, i) {
      CoveredLast(ra, r, i);
      CoveredLast(rb, r, i);
    }
    CanonicalIsUnique(ra, rb, r.start);
  }

  lemma LastRunsAgree(a: seq<Run>, b: seq<Run>, n: nat)
    requires Canonical(a, n) && Canonical(b, n) && (a != [] || b != [])
    requires forall i :: 0 <= i < n ==> (Covered(a, i) <==> Covered(b, i))
    ensures a != [] && b != [] && a[|a| - 1] == b[|b| - 1]
  {
    if a != [] { LastCell(a, n); }
    if b != [] { LastCell(b, n); }
    var x, y := a[|a| - 1], b[|b| - 1];
    BeforeLast(a, n);
    BeforeLast(b, n);
    assert x.start > 0 ==> !Covered(a, x.start - 1);
    assert Inside(x, x.start) && Inside(y, y.start);
  }

  /** The last cell covered is the last cell of the last run. */
  lemma LastCell(a: seq<Run>, n: nat)
    requires Canonical(a, n) && a != []
    ensures var e := a[|a| - 1].start + a[|a| - 1].length;
      0 < e <= n && Covered(a, e - 1) && forall i :: e <= i < n ==> !Covered(a, i)
  {
    var last := a[|a| - 1];
    assert Inside(last, last.start + last.length - 1);
  }

  /** The cell before the last run is not covered. */
  lemma BeforeLast(a: seq<Run>, n: nat)
    requires Canonical(a, n) && a != []
    ensures forall i :: 0 <= i < n && Inside(a[|a| - 1], i) ==> Covered(a, i)
    ensures a[|a| - 1].start > 0 ==> !Covered(a, a[|a| - 1].start - 1)
  {
  }

  // ---------------------------------------------------------------- rows

  lemma {:induction false} FlatLength(rows: seq<seq<bool>>, w: nat)
    requires forall y :: 0 <= y < |rows| ==> |rows[y]| == w
    ensures |Flatten(rows)| == |rows| * w
  {
    if rows != [] {
      FlatLength(rows[..|rows| - 1], w);
      assert (|rows| - 1) * w + w == |rows| * w;
    }
  }

  lemma {:induction false} FlatCell(rows: seq<seq<bool>>, w: nat, y: nat, x: nat)
    requires forall i :: 0 <= i < |rows| ==> |rows[i]| == w
    requires y < |rows| && x < w
    ensures 0 <= y * w + x < |Flatten(rows)| && Flatten(rows)[y * w + x] == rows[y][x]
  {
    var n := |rows| - 1;
    FlatLength(rows[..n], w);
    if y < n { FlatCell(rows[..n], w, y, x); }
  }

  lemma {:induction false} FlatCount(rows: seq<seq<bool>>)
    ensures CountRow(Flatten(rows)) == CountRows(rows)
  {
    if rows != [] {
      FlatCount(rows[..|rows| - 1]);
      CountRowConcat(Flatten(rows[..|rows| - 1]), rows[|rows| - 1]);
    }
  }

  /** The stored form: a shape and its runs. */
  datatype Encoded = Encoded(h: nat, w: nat, runs: seq<Run>)

  method MaskToRle(m: Mask) returns (e: Encoded)
    ensures e.h == m.h && e.w == m.w && Canonical(e.runs, m.h * m.w)
    ensures Decode(e) == m
    ensures SumLengths(e.runs) == CountRows(m.rows)
  {
    FlatLength(m.rows, m.w);
    FlatCount(m.rows);
    var runs := MaskToRuns(Flatten(m.rows));
    e := Encoded(m.h, m.w, runs);
    DecodesBack(m, e);
  }

  lemma DecodesBack(m: Mask, e: Encoded)
    requires e.h == m.h && e.w == m.w && Expands(e.runs, Flatten(m.rows))
    ensures Decode(e) == m
  {
    hide Covered, Flatten;
    forall y | 0 <= y < m.h ensures Decode(e).rows[y] == m.rows[y] {
      forall x | 0 <= x < m.w ensures Decode(e).rows[y][x] == m.rows[y][x] {
        FlatCell(m.rows, m.w, y, x);
      }
    }
  }

  function Decode(e: Encoded): Mask {
    RawMask(e.h, e.w, seq(e.h, y requires 0 <= y < e.h =>
                            seq(e.w, x requires 0 <= x < e.w => Covered(e.runs, y * e.w + x))))
  }
}
