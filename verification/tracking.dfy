/**
 One-to-one matchings between `nc` current and `np` previous items, for any compatibility
 test `ok(j, i)` and any preference `better(j, j2, i)` between partners of current item `i`.
 */
module Matchings {
  import opened Common

  type Pairing = map<nat, nat>

  /** A pairing sends indices of current items to distinct indices of previous ones. */
  ghost predicate Pairs(m: Pairing, nc: nat, np: nat) {
    && (forall i :: i in m ==> i < nc && m[i] < np)
    && OneToOne(m)
  }

  ghost predicate OneToOne(m: Pairing) {
    forall i, j :: i in m && j in m && i != j ==> m[i] != m[j]
  }

  ghost predicate Respects(m: Pairing, ok: (nat, nat) -> bool) {
    forall i :: i in m ==> ok(m[i], i)
  }

  ghost predicate Maximal(m: Pairing, nc: nat, np: nat, ok: (nat, nat) -> bool) {
    forall i: nat, j: nat :: i < nc && j < np && i !in m && j !in m.Values ==> !ok(j, i)
  }

  /** Previous item `j` is unused when the loop reaches current item `i`. */
  ghost predicate Free(m: Pairing, i: nat, j: nat) {
    forall k :: k in m && k < i ==> m[k] != j
  }

  /** The loop's rule for current item `i`: an unbeaten compatible free partner, and none only if there is none. */
  ghost predicate GreedyAt(m: Pairing, np: nat, ok: (nat, nat) -> bool, better: (nat, nat, nat) -> bool, i: nat) {
    if i in m then
      && m[i] < np && ok(m[i], i) && Free(m, i, m[i])
      && forall j: nat :: j < np && Free(m, i, j) && ok(j, i) ==> !better(j, m[i], i)
    else
      forall j: nat :: j < np && Free(m, i, j) ==> !ok(j, i)
  }

  ghost predicate Greedy(m: Pairing, nc: nat, np: nat, ok: (nat, nat) -> bool, better: (nat, nat, nat) -> bool) {
    && (forall i :: i in m ==> i < nc)
    && (forall i: nat :: i < nc ==> GreedyAt(m, np, ok, better, i))
  }

  /** Every greedy pairing is one-to-one, respects the test, and cannot be extended. */
  lemma GreedyIsMaximal(m: Pairing, nc: nat, np: nat, ok: (nat, nat) -> bool, better: (nat, nat, nat) -> bool)
    requires Greedy(m, nc, np, ok, better)
    ensures Pairs(m, nc, np) && Respects(m, ok) && Maximal(m, nc, np, ok)
  {
    forall i | i in m ensures m[i] < np && ok(m[i], i) && Free(m, i, m[i]) {
      assert GreedyAt(m, np, ok, better, i);
    }
    forall i: nat, j: nat | i < nc && j < np && i !in m && j !in m.Values ensures !ok(j, i) {
      assert GreedyAt(m, np, ok, better, i);
      FreeIfUnused(m, i, j);
    }
  }

  lemma FreeIfUnused(m: Pairing, i: nat, j: nat)
    requires j !in m.Values
    ensures Free(m, i, j)
  {
    forall k | k in m && k < i ensures m[k] != j { assert m[k] in m.Values; }
  }

  lemma FreeAtEnd(m: Pairing, n: nat)
    requires forall k :: k in m ==> k < n
    ensures forall j: nat :: Free(m, n, j) <==> j !in m.Values
  {
    forall j: nat ensures Free(m, n, j) <==> j !in m.Values {
      if j !in m.Values {
        FreeIfUnused(m, n, j);
      } else {
        var k :| k in m && m[k] == j;
        assert !Free(m, n, j);
      }
    }
  }

  /** Deciding current item `i` leaves the decisions before it as they were. */
  lemma GreedyExtends(m0: Pairing, m: Pairing, np: nat, ok: (nat, nat) -> bool, better: (nat, nat, nat) -> bool, i: nat)
    requires forall k :: k in m0 ==> k < i
    requires m == m0 || (i in m && m == m0[i := m[i]])
    requires forall k: nat :: k < i ==> GreedyAt(m0, np, ok, better, k)
    ensures forall k: nat :: k < i ==> GreedyAt(m, np, ok, better, k)
    ensures forall j: nat :: Free(m, i, j) <==> Free(m0, i, j)
    ensures forall j: nat :: Free(m, i + 1, j) <==> Free(m0, i, j) && (i in m ==> m[i] != j)
  {
    assert forall q: nat :: q in m0 ==> q in m && m[q] == m0[q];
    assert forall q: nat :: q in m && q != i ==> q in m0;
    forall k: nat, j: nat | k <= i ensures Free(m, k, j) <==> Free(m0, k, j) {}
    forall j: nat ensures Free(m, i + 1, j) <==> Free(m, i, j) && (i in m ==> m[i] != j) {
      if Free(m, i, j) && (i in m ==> m[i] != j) {
        forall q | q in m && q < i + 1 ensures m[q] != j { assert q == i || q < i; }
      }
    }
    forall k: nat | k < i ensures GreedyAt(m, np, ok, better, k) {
      assert GreedyAt(m0, np, ok, better, k);
    }
  }

  lemma {:induction false} ValuesSize(m: Pairing)
    ensures |m.Values| <= |m|
    ensures OneToOne(m) ==> |m.Values| == |m|
    decreases |m|
  {
    if m.Keys == {} {
      assert m == map[] && m.Values == {};
    } else {
      var i :| i in m.Keys;
      var rest := m - {i};
      assert rest.Keys == m.Keys - {i};
      ValuesSize(rest);
      assert m.Values == rest.Values + {m[i]} by {
        forall v | v in m.Values ensures v in rest.Values + {m[i]} {
          var k :| k in m && m[k] == v;
          if k != i { assert k in rest && rest[k] == v; }
        }
        forall v | v in rest.Values ensures v in m.Values {
          var k :| k in rest && rest[k] == v;
        }
      }
      if OneToOne(m) {
        assert OneToOne(rest);
        assert m[i] !in rest.Values;
      }
    }
  }

  /** A maximal pairing has at least half as many pairs as any other pairing that respects the test. */
  lemma MaximalIsHalfOptimal(m: Pairing, best: Pairing, nc: nat, np: nat, ok: (nat, nat) -> bool)
    requires Pairs(m, nc, np) && Maximal(m, nc, np, ok)
    requires Pairs(best, nc, np) && Respects(best, ok)
    ensures |best| <= 2 * |m|
  {
    var blocked := map i | i in best && i !in m :: best[i];
    forall v | v in blocked.Values ensures v in m.Values {
      var i :| i in blocked && blocked[i] == v;
      assert ok(v, i);
    }
    assert OneToOne(blocked);
    ValuesSize(blocked);
    ValuesSize(m);
    SubsetSize(blocked.Values, m.Values);
    var kept := best.Keys * m.Keys;
    SubsetSize(kept, m.Keys);
    assert best.Keys == kept + blocked.Keys && kept !! blocked.Keys;
    assert |best.Keys| == |kept| + |blocked.Keys|;
  }

  /**
   Some item like `i` is still free when the loop reaches `i`, provided the earlier ones
   were paired within their own kind: they are fewer than the items of that kind.
   */
  lemma SomeOfKindFree(m: Pairing, i: nat, kind: set<nat>) returns (j: nat)
    requires i in kind
    requires forall k :: k in m && k < i ==> (k in kind <==> m[k] in kind)
    ensures j in kind && Free(m, i, j)
  {
    var used := map k | k in m && k < i && k in kind :: m[k];
    assert used.Keys <= kind - {i};
    SubsetSize(used.Keys, kind - {i});
    ValuesSize(used);
    assert exists j :: j in kind && j !in used.Values by {
      if kind <= used.Values { SubsetSize(kind, used.Values); }
    }
    j :| j in kind && j !in used.Values;
    forall k | k in m && k < i ensures m[k] != j {
      if k in kind { assert used[k] == m[k] && m[k] in used.Values; }
    }
  }
}

/**
 Greedy object tracking between two frames (components.py): box overlap, the match test,
 and the loop that pairs every current component with the best unused previous one.
 */
module Tracking {
  import opened Common
  import opened Components
  import opened Matchings
  import Cells

  datatype Thresholds = Thresholds(iou: real, iouSoft: real, distance: real)

  datatype Event = Moved | Static | Appeared | Disappeared

  datatype ObjectDelta =
    ObjectDelta(objectId: nat, color: int, prevBox: Option<BBox>, currBox: Option<BBox>,
                dy: real, dx: real, event: Event)

  // ---------------------------------------------------------------- overlap

  predicate ValidBox(b: BBox) {
    b.0 <= b.2 && b.1 <= b.3
  }

  function BoxArea(b: BBox): int {
    (b.2 - b.0 + 1) * (b.3 - b.1 + 1)
  }

  /** Intersection over union of two inclusive boxes. */
  function Iou(a: BBox, b: BBox): real {
    var y0, x0, y1, x1 := Max(a.0, b.0), Max(a.1, b.1), Min(a.2, b.2), Min(a.3, b.3);
    if y1 < y0 || x1 < x0 then 0.0 else
      var inter := BoxArea((y0, x0, y1, x1));
      var union := BoxArea(a) + BoxArea(b) - inter;
      if union > 0 then inter as real / union as real else 0.0
  }

  lemma {:induction false} ScaleMono(a: int, b: int, c: int)
    requires a <= b && 0 < c
    ensures a * c <= b * c && (a < b ==> a * c < b * c)
    decreases b - a
  {
    if a < b {
      ScaleMono(a, b - 1, c);
      assert b * c == (b - 1) * c + c;
    }
  }

  lemma MulMono(a: int, b: int, c: int, d: int)
    requires 0 < a <= b && 0 < c <= d
    ensures a * c <= b * d && (a * c == b * d ==> a == b && c == d)
  {
    ScaleMono(a, b, c);
    ScaleMono(c, d, b);
    assert c * b == b * c && d * b == b * d;
  }

  lemma ShareLaws(i: int, u: int)
    requires 0 < i <= u
    ensures 0.0 < i as real / u as real <= 1.0 && (i as real / u as real == 1.0 <==> i == u)
  {
    var q := i as real / u as real;
    assert q * u as real == i as real;
  }

  /** Overlap of real boxes lies between 0 and 1, and reaches 1 exactly for equal boxes. */
  lemma IouLaws(a: BBox, b: BBox)
    requires ValidBox(a) && ValidBox(b)
    ensures 0.0 <= Iou(a, b) <= 1.0
    ensures Iou(a, b) == 1.0 <==> a == b
    ensures Iou(a, b) == Iou(b, a)
  {
    var y0, x0, y1, x1 := Max(a.0, b.0), Max(a.1, b.1), Min(a.2, b.2), Min(a.3, b.3);
    if y0 <= y1 && x0 <= x1 {
      var inter := BoxArea((y0, x0, y1, x1));
      MulMono(y1 - y0 + 1, a.2 - a.0 + 1, x1 - x0 + 1, a.3 - a.1 + 1);
      MulMono(y1 - y0 + 1, b.2 - b.0 + 1, x1 - x0 + 1, b.3 - b.1 + 1);
      MulMono(1, y1 - y0 + 1, 1, x1 - x0 + 1);
      ShareLaws(inter, BoxArea(a) + BoxArea(b) - inter);
    }
  }

  /** The cells of the grid inside a box. */
  ghost function CellsOf(b: BBox): set<Cells.Cell> {
    set y, x | b.0 <= y <= b.2 && b.1 <= x <= b.3 :: (y, x)
  }

  lemma {:induction false} RowSize(y: int, x0: int, x1: int)
    requires x0 <= x1 + 1
    ensures |CellsOf((y, x0, y, x1))| == x1 - x0 + 1
    decreases x1 - x0 + 1
  {
    if x0 <= x1 {
      RowSize(y, x0, x1 - 1);
      assert CellsOf((y, x0, y, x1)) == CellsOf((y, x0, y, x1 - 1)) + {(y, x1)};
    } else {
      assert CellsOf((y, x0, y, x1)) == {};
    }
  }

  /** The area of a box is the number of its cells. */
  lemma {:induction false} AreaCounts(b: BBox)
    requires b.0 <= b.2 + 1 && b.1 <= b.3
    ensures |CellsOf(b)| == BoxArea(b)
    decreases b.2 - b.0 + 1
  {
    if b.0 <= b.2 {
      var above, last := (b.0, b.1, b.2 - 1, b.3), (b.2, b.1, b.2, b.3);
      AreaCounts(above);
      RowSize(b.2, b.1, b.3);
      assert CellsOf(b) == CellsOf(above) + CellsOf(last) && CellsOf(above) !! CellsOf(last);
      assert BoxArea(b) == BoxArea(above) + (b.3 - b.1 + 1) by { OneMoreRow(b.2 - b.0, b.3 - b.1 + 1); }
    } else {
      assert CellsOf(b) == {};
    }
  }

  lemma OneMoreRow(rows: int, width: int)
    ensures (rows + 1) * width == rows * width + width
  {
  }

  lemma UnionSize<T>(a: set<T>, b: set<T>)
    ensures |a + b| == |a| + |b| - |a * b|
  {
    assert a + b == a + (b - a) && b == (b - a) + a * b;
  }

  /** The overlap is the number of shared cells over the number of cells in either box. */
  lemma IouIsShare(a: BBox, b: BBox)
    requires ValidBox(a) && ValidBox(b)
    ensures |CellsOf(a) + CellsOf(b)| > 0
    ensures Iou(a, b) == |CellsOf(a) * CellsOf(b)| as real / |CellsOf(a) + CellsOf(b)| as real
  {
    hide CellsOf, BoxArea;
    AreaCounts(a);
    AreaCounts(b);
    UnionSize(CellsOf(a), CellsOf(b));
    SharedCells(a, b);
    HoldsCorner(a);
    SubsetSize({(a.0, a.1)}, CellsOf(a) + CellsOf(b));
  }

  lemma HoldsCorner(b: BBox)
    requires ValidBox(b)
    ensures (b.0, b.1) in CellsOf(b)
  {
  }

  /** The shared cells of two boxes are those of a box, or none. */
  lemma SharedCells(a: BBox, b: BBox)
    ensures var shared := (Max(a.0, b.0), Max(a.1, b.1), Min(a.2, b.2), Min(a.3, b.3));
      |CellsOf(a) * CellsOf(b)| == if ValidBox(shared) then BoxArea(shared) else 0
  {
    var shared := (Max(a.0, b.0), Max(a.1, b.1), Min(a.2, b.2), Min(a.3, b.3));
    assert CellsOf(a) * CellsOf(b) == CellsOf(shared);
    if ValidBox(shared) {
      AreaCounts(shared);
    } else {
      assert CellsOf(shared) == {};
    }
  }

  // ---------------------------------------------------------------- the match test

  function Product(a: real, b: real): real { a * b }

  function Square(r: real): real { Product(r, r) }

  /** Centroid distances are compared through their squares. */
  function SquaredDistance(a: (real, real), b: (real, real)): real {
    Square(a.0 - b.0) + Square(a.1 - b.1)
  }

  lemma ProductPositive(a: real, b: real)
    requires a > 0.0 && b > 0.0
    ensures Product(a, b) > 0.0
  {
  }

  lemma SquarePositive(r: real)
    ensures Square(r) >= 0.0 && (r != 0.0 ==> Square(r) > 0.0)
  {
    if r < 0.0 {
      ProductPositive(-r, -r);
      assert Product(-r, -r) == Product(r, r);
    } else if r > 0.0 {
      ProductPositive(r, r);
    }
  }

  lemma SquareLaws(a: (real, real), b: (real, real))
    ensures SquaredDistance(a, b) >= 0.0
    ensures SquaredDistance(a, b) == 0.0 <==> a == b
  {
    SquarePositive(a.0 - b.0);
    SquarePositive(a.1 - b.1);
  }

  /** `dist <= threshold` for a distance given by its square: no distance is below a negative threshold. */
  predicate Within(squared: real, threshold: real) {
    threshold >= 0.0 && squared <= Square(threshold)
  }

  /** Two legs at right angles, each as long as its coordinates differ. */
  lemma DistanceIsEuclidean(a: (real, real), b: (real, real))
    ensures var corner := (a.0, b.1);
      && SquaredDistance(a, b) == SquaredDistance(a, corner) + SquaredDistance(corner, b)
      && SquaredDistance(a, corner) == Square(b.1 - a.1) && SquaredDistance(corner, b) == Square(b.0 - a.0)
  {
    SquareOfOpposite(a.0 - b.0);
    SquareOfOpposite(a.1 - b.1);
    assert Square(0.0) == 0.0;
  }

  lemma SquareOfOpposite(r: real)
    ensures Square(-r) == Square(r)
  {
  }

  /** The comparison of squares is the comparison of the distances themselves. */
  lemma WithinIsDistance(distance: real, threshold: real)
    requires distance >= 0.0
    ensures Within(Square(distance), threshold) <==> distance <= threshold
  {
    if 0.0 <= threshold < distance {
      ProductPositive(distance - threshold, distance + threshold);
      SquareDifference(distance, threshold);
    } else if distance < threshold {
      ProductPositive(threshold - distance, threshold + distance);
      SquareDifference(threshold, distance);
    }
  }

  lemma SquareDifference(a: real, b: real)
    ensures Square(a) - Square(b) == Product(a - b, a + b)
  {
  }

  predicate IsMatch(iou: real, squared: real, t: Thresholds) {
    iou >= t.iou || (iou >= t.iouSoft && Within(squared, t.distance))
  }

  predicate Compatible(p: Component, c: Component, t: Thresholds) {
    p.color == c.color && IsMatch(Iou(p.bbox, c.bbox), SquaredDistance(p.centroid, c.centroid), t)
  }

  /** `p` is a strictly better partner for `c` than `q`: more overlap, or the same overlap and closer. */
  predicate Better(p: Component, q: Component, c: Component) {
    var ip, iq := Iou(p.bbox, c.bbox), Iou(q.bbox, c.bbox);
    ip > iq || (ip == iq && SquaredDistance(p.centroid, c.centroid) < SquaredDistance(q.centroid, c.centroid))
  }

  /** The compatibility test and the preference between partners, on indices. */
  ghost function Ok(prev: seq<Component>, curr: seq<Component>, t: Thresholds): (nat, nat) -> bool {
    (j: nat, i: nat) => j < |prev| && i < |curr| && Compatible(prev[j], curr[i], t)
  }

  ghost function Preferred(prev: seq<Component>, curr: seq<Component>): (nat, nat, nat) -> bool {
    (j: nat, q: nat, i: nat) => j < |prev| && q < |prev| && i < |curr| && Better(prev[j], prev[q], curr[i])
  }

  // ---------------------------------------------------------------- the tracking loop

  function MatchedDelta(p: Component, c: Component): ObjectDelta {
    var dy, dx := c.centroid.0 - p.centroid.0, c.centroid.1 - p.centroid.1;
    ObjectDelta(c.ordinal, c.color, Some(p.bbox), Some(c.bbox), dy, dx,
                if dy != 0.0 || dx != 0.0 then Moved else Static)
  }

  function AppearedDelta(c: Component): ObjectDelta {
    ObjectDelta(c.ordinal, c.color, None, Some(c.bbox), 0.0, 0.0, Appeared)
  }

  function DisappearedDelta(p: Component): ObjectDelta {
    ObjectDelta(p.ordinal, p.color, Some(p.bbox), None, 0.0, 0.0, Disappeared)
  }

  /** The first deltas speak of the current components, in order. */
  ghost predicate ReportsCurrent(prev: seq<Component>, curr: seq<Component>, m: Pairing, deltas: seq<ObjectDelta>,
                                 n: nat)
    requires n <= |curr| && n <= |deltas|
  {
    forall i: nat :: i < n ==>
      if i in m then m[i] < |prev| && deltas[i] == MatchedDelta(prev[m[i]], curr[i])
      else deltas[i] == AppearedDelta(curr[i])
  }

  /** The remaining deltas report each unused previous component once. */
  ghost predicate ReportsLost(prev: seq<Component>, n: nat, m: Pairing, lost: seq<nat>, deltas: seq<ObjectDelta>) {
    && |deltas| == n + |lost|
    && Distinct(lost)
    && (forall j: nat :: j in lost <==> j < |prev| && j !in m.Values)
    && (forall j :: 0 <= j < |lost| ==> lost[j] < |prev| && deltas[n + j] == DisappearedDelta(prev[lost[j]]))
  }

  /** The inner loop: scan the free previous components, in any order, for the best partner. */
  method BestPartner(prev: seq<Component>, c: Component, free: set<nat>, t: Thresholds) returns (best: Option<nat>)
    requires forall j :: j in free ==> j < |prev|
    ensures best.None? ==> forall j :: j in free ==> !Compatible(prev[j], c, t)
    ensures best.Some? ==> best.value in free && Compatible(prev[best.value], c, t)
    ensures best.Some? ==> forall j :: j in free && Compatible(prev[j], c, t) ==> !Better(prev[j], prev[best.value], c)
  {
    best := None;
    var rest := free;
    while rest != {}
      invariant rest <= free
      invariant best.None? ==> forall j :: j in free - rest ==> !Compatible(prev[j], c, t)
      invariant best.Some? ==> best.value in free && Compatible(prev[best.value], c, t)
      invariant best.Some? ==> forall j :: j in free - rest && Compatible(prev[j], c, t) ==>
          !Better(prev[j], prev[best.value], c)
      decreases rest
    {
      var j :| j in rest;
      rest := rest - {j};
      if Compatible(prev[j], c, t) && (best.None? || Better(prev[j], prev[best.value], c)) {
        best := Some(j);
      }
    }
  }

  /** Taking what `BestPartner` found extends the greedy decisions by one. */
  lemma DecisionIsGreedy(prev: seq<Component>, curr: seq<Component>, t: Thresholds, m0: Pairing, m: Pairing, i: nat,
                         free: set<nat>, rest: set<nat>)
    requires rest == if i in m then free - {m[i]} else free
    requires i < |curr| && (forall k :: k in m0 ==> k < i)
    requires m == m0 || (i in m && m == m0[i := m[i]])
    requires forall k: nat :: k < i ==> GreedyAt(m0, |prev|, Ok(prev, curr, t), Preferred(prev, curr), k)
    requires forall j: nat :: j in free <==> j < |prev| && Free(m0, i, j)
    requires i !in m ==> forall j :: j in free ==> !Compatible(prev[j], curr[i], t)
    requires i in m ==> m[i] in free && Compatible(prev[m[i]], curr[i], t)
    requires i in m ==> forall j :: j in free && Compatible(prev[j], curr[i], t) ==>
        !Better(prev[j], prev[m[i]], curr[i])
    ensures forall k: nat :: k < i + 1 ==> GreedyAt(m, |prev|, Ok(prev, curr, t), Preferred(prev, curr), k)
    ensures forall j: nat :: j in rest <==> j < |prev| && Free(m, i + 1, j)
  {
    var ok, better := Ok(prev, curr, t), Preferred(prev, curr);
    GreedyExtends(m0, m, |prev|, ok, better, i);
    assert GreedyAt(m, |prev|, ok, better, i) by {
      assert forall j: nat :: j < |prev| ==> (ok(j, i) <==> Compatible(prev[j], curr[i], t));
    }
  }

  lemma ReportsOneMore(prev: seq<Component>, curr: seq<Component>, m0: Pairing, m: Pairing, deltas0: seq<ObjectDelta>,
                       deltas: seq<ObjectDelta>, i: nat)
    requires i < |curr| && |deltas0| == i && |deltas| == i + 1 && deltas0 <= deltas
    requires (forall k :: k in m0 ==> k < i) && (m == m0 || (i in m && m == m0[i := m[i]]))
    requires ReportsCurrent(prev, curr, m0, deltas0, i)
    requires if i in m then m[i] < |prev| && deltas[i] == MatchedDelta(prev[m[i]], curr[i])
             else deltas[i] == AppearedDelta(curr[i])
    ensures ReportsCurrent(prev, curr, m, deltas, i + 1)
  {
  }

  /** A greedy pairing and a list of leftover objects explain the deltas, one by one. */
  ghost predicate Explains(prev: seq<Component>, curr: seq<Component>, t: Thresholds, deltas: seq<ObjectDelta>,
                           m: Pairing, lost: seq<nat>)
  {
    && Greedy(m, |curr|, |prev|, Ok(prev, curr, t), Preferred(prev, curr))
    && ReportsLost(prev, |curr|, m, lost, deltas) && ReportsCurrent(prev, curr, m, deltas, |curr|)
  }

  method TrackComponents(prev: seq<Component>, curr: seq<Component>, t: Thresholds)
    returns (deltas: seq<ObjectDelta>)
    ensures exists m, lost :: Explains(prev, curr, t, deltas, m, lost)
  {
    ghost var m: Pairing, lost: seq<nat> := map[], [];
    deltas := [];
    var unmatched := Indices(|prev|);
    var i := 0;
    while i < |curr|
      invariant 0 <= i <= |curr| && |deltas| == i
      invariant forall k :: k in m ==> k < i
      invariant forall k: nat :: k < i ==> GreedyAt(m, |prev|, Ok(prev, curr, t), Preferred(prev, curr), k)
      invariant forall j: nat :: j in unmatched <==> j < |prev| && Free(m, i, j)
      invariant ReportsCurrent(prev, curr, m, deltas, i)
    {
      ghost var m0, free, deltas0 := m, unmatched, deltas;
      var best := BestPartner(prev, curr[i], unmatched, t);
      if best.Some? {
        unmatched := unmatched - {best.value};
        m := m[i := best.value];
        deltas := deltas + [MatchedDelta(prev[best.value], curr[i])];
      } else {
        deltas := deltas + [AppearedDelta(curr[i])];
      }
      DecisionIsGreedy(prev, curr, t, m0, m, i, free, unmatched);
      ReportsOneMore(prev, curr, m0, m, deltas0, deltas, i);
      i := i + 1;
    }
    FreeAtEnd(m, |curr|);
    deltas, lost := AppendLost(prev, unmatched, deltas);
    assert Explains(prev, curr, t, deltas, m, lost);
  }

  /** The closing loop over the previous components nobody took, in any order. */
  method AppendLost(prev: seq<Component>, unmatched: set<nat>, before: seq<ObjectDelta>)
    returns (deltas: seq<ObjectDelta>, ghost lost: seq<nat>)
    requires forall j :: j in unmatched ==> j < |prev|
    ensures |deltas| == |before| + |lost| && before <= deltas
    ensures Distinct(lost) && (forall j :: j in lost <==> j in unmatched)
    ensures forall j :: 0 <= j < |lost| ==> lost[j] < |prev| && deltas[|before| + j] == DisappearedDelta(prev[lost[j]])
  {
    deltas, lost := before, [];
    var rest := unmatched;
    while rest != {}
      invariant rest <= unmatched && |deltas| == |before| + |lost| && before <= deltas
      invariant Distinct(lost) && (forall j :: j in lost <==> j in unmatched - rest)
      invariant forall j :: 0 <= j < |lost| ==>
        lost[j] < |prev| && deltas[|before| + j] == DisappearedDelta(prev[lost[j]])
      decreases rest
    {
      var j :| j in rest;
      rest := rest - {j};
      assert forall k :: 0 <= k < |lost| ==> lost[k] in lost;
      lost := lost + [j];
      deltas := deltas + [DisappearedDelta(prev[j])];
    }
  }

  /**
   The tracker's pairing is one-to-one, keeps colour and thresholds, cannot be extended, and
   has at least half as many pairs as any pairing that keeps colour and thresholds.
   */
  lemma TrackingIsHalfOptimal(prev: seq<Component>, curr: seq<Component>, t: Thresholds, m: Pairing, best: Pairing)
    requires Greedy(m, |curr|, |prev|, Ok(prev, curr, t), Preferred(prev, curr))
    requires Pairs(best, |curr|, |prev|) && Respects(best, Ok(prev, curr, t))
    ensures Pairs(m, |curr|, |prev|) && forall i :: i in m ==> Compatible(prev[m[i]], curr[i], t)
    ensures forall i: nat, j: nat :: i < |curr| && j < |prev| && i !in m && j !in m.Values ==>
        !Compatible(prev[j], curr[i], t)
    ensures |best| <= 2 * |m|
  {
    var ok := Ok(prev, curr, t);
    GreedyIsMaximal(m, |curr|, |prev|, ok, Preferred(prev, curr));
    MaximalIsHalfOptimal(m, best, |curr|, |prev|, ok);
    forall i: nat, j: nat | i < |curr| && j < |prev| && i !in m && j !in m.Values
      ensures !Compatible(prev[j], curr[i], t)
    {
      assert !ok(j, i);
    }
    forall i | i in m ensures Compatible(prev[m[i]], curr[i], t) { assert ok(m[i], i); }
  }

  /** No partner still free overlaps more than the one taken, and none that overlaps as much is nearer. */
  lemma TakenOverlapsMost(prev: seq<Component>, curr: seq<Component>, t: Thresholds, m: Pairing, i: nat, j: nat)
    requires Greedy(m, |curr|, |prev|, Ok(prev, curr, t), Preferred(prev, curr)) && i in m
    requires j < |prev| && Free(m, i, j) && Compatible(prev[j], curr[i], t)
    ensures i < |curr| && m[i] < |prev| && Compatible(prev[m[i]], curr[i], t)
    ensures var p, q, c := prev[m[i]], prev[j], curr[i];
      && Iou(p.bbox, c.bbox) >= Iou(q.bbox, c.bbox)
      && (Iou(p.bbox, c.bbox) == Iou(q.bbox, c.bbox) ==>
           SquaredDistance(p.centroid, c.centroid) <= SquaredDistance(q.centroid, c.centroid))
  {
    hide Iou, SquaredDistance, IsMatch;
    assert GreedyAt(m, |prev|, Ok(prev, curr, t), Preferred(prev, curr), i);
    assert Ok(prev, curr, t)(j, i) && Ok(prev, curr, t)(m[i], i);
    assert !Preferred(prev, curr)(j, m[i], i);
  }

  /** A delta takes one object to another: same id and box as the latter, and the way between the centroids. */
  ghost predicate Carries(d: ObjectDelta, p: Component, c: Component) {
    && d.objectId == c.ordinal && d.color == c.color && d.prevBox == Some(p.bbox) && d.currBox == Some(c.bbox)
    && p.centroid.0 + d.dy == c.centroid.0 && p.centroid.1 + d.dx == c.centroid.1
    && d.event == if p.centroid == c.centroid then Static else Moved
  }

  ghost predicate Rests(d: ObjectDelta) {
    d.dy == 0.0 && d.dx == 0.0
  }

  ghost predicate Loses(d: ObjectDelta, p: Component) {
    d.objectId == p.ordinal && d.color == p.color && d.prevBox == Some(p.bbox)
  }

  /** Past the current objects, every delta tells of a previous one that is gone. */
  lemma LaterDeltasLose(prev: seq<Component>, curr: seq<Component>, t: Thresholds, deltas: seq<ObjectDelta>, i: nat)
    requires (exists m, lost :: Explains(prev, curr, t, deltas, m, lost)) && |curr| <= i < |deltas|
    ensures deltas[i].event == Disappeared && deltas[i].currBox.None? && Rests(deltas[i])
    ensures exists j :: 0 <= j < |prev| && Loses(deltas[i], prev[j])
  {
    hide Greedy;
    var m, lost :| Explains(prev, curr, t, deltas, m, lost);
    var j := lost[i - |curr|];
    assert deltas[|curr| + (i - |curr|)] == DisappearedDelta(prev[j]);
  }

  /** Every current object was carried over from a compatible previous one, or appeared. */
  lemma DeltasCarry(prev: seq<Component>, curr: seq<Component>, t: Thresholds, deltas: seq<ObjectDelta>, i: nat)
    requires (exists m, lost :: Explains(prev, curr, t, deltas, m, lost)) && i < |curr|
    ensures i < |deltas| && (deltas[i].event == Appeared ==> deltas[i].prevBox.None? && Rests(deltas[i]))
    ensures deltas[i].event != Appeared ==>
      exists j :: 0 <= j < |prev| && Compatible(prev[j], curr[i], t) && Carries(deltas[i], prev[j], curr[i])
    ensures deltas[i].objectId == curr[i].ordinal && deltas[i].currBox == Some(curr[i].bbox)
  {
    hide Compatible;
    var m, lost :| Explains(prev, curr, t, deltas, m, lost);
    if i in m {
      assert GreedyAt(m, |prev|, Ok(prev, curr, t), Preferred(prev, curr), i);
      assert Ok(prev, curr, t)(m[i], i);
      assert Carries(deltas[i], prev[m[i]], curr[i]);
    }
  }

  // ---------------------------------------------------------------- counting appeared and disappeared

  function CountEvent(deltas: seq<ObjectDelta>, e: Event): nat {
    if deltas == [] then 0 else
      CountEvent(deltas[..|deltas| - 1], e) + (if deltas[|deltas| - 1].event == e then 1 else 0)
  }

  lemma {:induction false} CountSplit(deltas: seq<ObjectDelta>, k: nat, e: Event)
    requires k <= |deltas|
    ensures CountEvent(deltas, e) == CountEvent(deltas[..k], e) + CountEvent(deltas[k..], e)
    decreases |deltas|
  {
    if k == |deltas| {
      assert deltas[..k] == deltas;
    } else {
      var front := deltas[..|deltas| - 1];
      CountSplit(front, k, e);
      assert front[..k] == deltas[..k] && deltas[k..][..|deltas| - k - 1] == front[k..];
    }
  }

  lemma {:induction false} CountCurrent(deltas: seq<ObjectDelta>, matched: set<nat>)
    requires forall i: nat :: i < |deltas| ==>
      (deltas[i].event == Appeared <==> i !in matched) && deltas[i].event != Disappeared
    requires forall i :: i in matched ==> i < |deltas|
    ensures CountEvent(deltas, Appeared) == |deltas| - |matched| && CountEvent(deltas, Disappeared) == 0
    decreases |deltas|
  {
    if deltas == [] {
      assert matched == {};
    } else {
      var last := |deltas| - 1;
      CountCurrent(deltas[..last], matched - {last});
    }
  }

  lemma {:induction false} CountLost(deltas: seq<ObjectDelta>)
    requires forall i :: 0 <= i < |deltas| ==> deltas[i].event == Disappeared
    ensures CountEvent(deltas, Disappeared) == |deltas| && CountEvent(deltas, Appeared) == 0
  {
    if deltas != [] { CountLost(deltas[..|deltas| - 1]); }
  }

  lemma LostSize(prev: seq<Component>, n: nat, m: Pairing, lost: seq<nat>, deltas: seq<ObjectDelta>)
    requires Pairs(m, n, |prev|) && ReportsLost(prev, n, m, lost, deltas)
    ensures |lost| == |prev| - |m|
  {
    ValuesSize(m);
    LeftOver(lost, m.Values, |prev|);
  }

  /** A list without repeats that covers exactly the indices outside a set has the remaining size. */
  lemma LeftOver(lost: seq<nat>, taken: set<nat>, n: nat)
    requires Distinct(lost) && (forall j: nat :: j in taken ==> j < n)
    requires forall j: nat :: j in lost <==> j < n && j !in taken
    ensures |lost| == n - |taken|
  {
    var gone := set j | j in lost;
    DistinctSize(lost);
    assert gone !! taken;
    assert gone + taken == Indices(n);
  }

  /** The change in object count that callers read off the deltas is the true one. */
  lemma AppearedMinusDisappeared(prev: seq<Component>, curr: seq<Component>, m: Pairing, lost: seq<nat>,
                                 deltas: seq<ObjectDelta>)
    requires Pairs(m, |curr|, |prev|)
    requires ReportsLost(prev, |curr|, m, lost, deltas) && ReportsCurrent(prev, curr, m, deltas, |curr|)
    ensures CountEvent(deltas, Appeared) == |curr| - |m| && CountEvent(deltas, Disappeared) == |prev| - |m|
    ensures CountEvent(deltas, Appeared) - CountEvent(deltas, Disappeared) == |curr| - |prev|
  {
    var n := |curr|;
    CountSplit(deltas, n, Appeared);
    CountSplit(deltas, n, Disappeared);
    CountCurrent(deltas[..n], m.Keys);
    forall i | 0 <= i < |lost| ensures deltas[n..][i].event == Disappeared {
      assert lost[i] < |prev| && deltas[n..][i] == deltas[n + i];
    }
    CountLost(deltas[n..]);
    LostSize(prev, n, m, lost, deltas);
  }

  // ---------------------------------------------------------------- tracking a list against itself

  /** Same colour, same box and same centroid: indistinguishable to the tracker. */
  predicate Identical(a: Component, b: Component) {
    a.color == b.color && a.bbox == b.bbox && a.centroid == b.centroid
  }

  ghost predicate Boxed(s: seq<Component>) {
    forall i :: 0 <= i < |s| ==> ValidBox(s[i].bbox)
  }

  /** Whether a perfect overlap at distance zero passes the match test. */
  predicate AcceptsIdentical(t: Thresholds) {
    IsMatch(1.0, 0.0, t)
  }

  /** Among boxes, an identical partner is compatible, and only identical partners are not beaten by it. */
  lemma IdenticalIsBest(a: Component, b: Component, c: Component, t: Thresholds)
    requires ValidBox(a.bbox) && ValidBox(b.bbox) && ValidBox(c.bbox) && AcceptsIdentical(t)
    requires Identical(a, c)
    ensures Compatible(a, c, t)
    ensures Compatible(b, c, t) && !Better(a, b, c) ==> Identical(b, c)
  {
    IouLaws(a.bbox, c.bbox);
    IouLaws(b.bbox, c.bbox);
    SquareLaws(a.centroid, c.centroid);
    SquareLaws(b.centroid, c.centroid);
  }

  /** Without acceptance of a perfect overlap nothing at all can match. */
  lemma NothingMatches(a: Component, c: Component, t: Thresholds)
    requires ValidBox(a.bbox) && ValidBox(c.bbox) && !AcceptsIdentical(t)
    ensures !Compatible(a, c, t)
  {
    IouLaws(a.bbox, c.bbox);
    SquareLaws(a.centroid, c.centroid);
    SquarePositive(t.distance);
  }

  lemma SelfMatchStep(s: seq<Component>, m: Pairing, t: Thresholds, i: nat)
    requires i < |s| && Boxed(s) && AcceptsIdentical(t)
    requires GreedyAt(m, |s|, Ok(s, s, t), Preferred(s, s), i)
    requires forall k :: k in m && k < i ==> m[k] < |s| && Identical(s[m[k]], s[k])
    ensures i in m && m[i] < |s| && Identical(s[m[i]], s[i])
  {
    var kind := set j | j in Indices(|s|) && Identical(s[j], s[i]);
    var j := SomeOfKindFree(m, i, kind);
    IdenticalIsBest(s[j], s[j], s[i], t);
    assert Ok(s, s, t)(j, i);
    if i in m {
      IdenticalIsBest(s[j], s[m[i]], s[i], t);
      assert Ok(s, s, t)(m[i], i) && !Preferred(s, s)(j, m[i], i);
    }
  }

  lemma {:induction false} SelfMatchesIdentical(s: seq<Component>, m: Pairing, t: Thresholds, n: nat)
    requires n <= |s| && Boxed(s) && AcceptsIdentical(t)
    requires Greedy(m, |s|, |s|, Ok(s, s, t), Preferred(s, s))
    ensures forall i: nat :: i < n ==> i in m && m[i] < |s| && Identical(s[m[i]], s[i])
  {
    if n > 0 {
      SelfMatchesIdentical(s, m, t, n - 1);
      assert GreedyAt(m, |s|, Ok(s, s, t), Preferred(s, s), n - 1);
      SelfMatchStep(s, m, t, n - 1);
    }
  }

  ghost predicate AllStill(deltas: seq<ObjectDelta>) {
    forall i :: 0 <= i < |deltas| ==> deltas[i].event == Static && deltas[i].dy == 0.0 && deltas[i].dx == 0.0
  }

  lemma AllMatchedIsStill(s: seq<Component>, m: Pairing, deltas: seq<ObjectDelta>)
    requires |deltas| == |s| && ReportsCurrent(s, s, m, deltas, |s|)
    requires forall i: nat :: i < |s| ==> i in m && m[i] < |s| && Identical(s[m[i]], s[i])
    ensures AllStill(deltas)
  {
    forall i: nat | i < |deltas| ensures deltas[i].event == Static && deltas[i].dy == 0.0 && deltas[i].dx == 0.0 {
      IdenticalIsStill(s[m[i]], s[i]);
    }
  }

  lemma IdenticalIsStill(p: Component, c: Component)
    requires Identical(p, c)
    ensures var d := MatchedDelta(p, c); d.event == Static && d.dy == 0.0 && d.dx == 0.0
  {
  }

  /** The first component of a non-empty list appears out of nothing when no perfect overlap is accepted. */
  lemma RejectedIsNotStill(s: seq<Component>, m: Pairing, deltas: seq<ObjectDelta>, t: Thresholds)
    requires s != [] && Boxed(s) && !AcceptsIdentical(t) && |deltas| >= |s|
    requires Respects(m, Ok(s, s, t)) && ReportsCurrent(s, s, m, deltas, |s|)
    ensures deltas[0].event == Appeared
  {
    if 0 in m {
      assert Ok(s, s, t)(m[0], 0);
      NothingMatches(s[m[0]], s[0], t);
    }
  }

  /**
   Tracking a frame against itself reports a still scene exactly when the thresholds accept
   a perfect overlap at distance zero (or there is nothing to track), duplicates included.
   */
  lemma SelfTrackingIsStill(s: seq<Component>, m: Pairing, lost: seq<nat>, deltas: seq<ObjectDelta>, t: Thresholds)
    requires Boxed(s) && Greedy(m, |s|, |s|, Ok(s, s, t), Preferred(s, s))
    requires ReportsLost(s, |s|, m, lost, deltas) && ReportsCurrent(s, s, m, deltas, |s|)
    ensures AllStill(deltas) <==> s == [] || t.iou <= 1.0 || (t.iouSoft <= 1.0 && t.distance >= 0.0)
  {
    AcceptsIdenticalExactly(t);
    if s == [] {
      NothingLost(s, m, lost, deltas);
    } else if AcceptsIdentical(t) {
      StillWhenAccepted(s, m, lost, deltas, t);
    } else {
      NotStillWhenRejected(s, m, lost, deltas, t);
    }
  }

  lemma StillWhenAccepted(s: seq<Component>, m: Pairing, lost: seq<nat>, deltas: seq<ObjectDelta>, t: Thresholds)
    requires Boxed(s) && Greedy(m, |s|, |s|, Ok(s, s, t), Preferred(s, s))
    requires ReportsLost(s, |s|, m, lost, deltas) && ReportsCurrent(s, s, m, deltas, |s|)
    requires AcceptsIdentical(t)
    ensures AllStill(deltas)
  {
    GreedyIsMaximal(m, |s|, |s|, Ok(s, s, t), Preferred(s, s));
    SelfMatchesIdentical(s, m, t, |s|);
    NothingLost(s, m, lost, deltas);
    AllMatchedIsStill(s, m, deltas);
  }

  lemma NotStillWhenRejected(s: seq<Component>, m: Pairing, lost: seq<nat>, deltas: seq<ObjectDelta>, t: Thresholds)
    requires s != [] && Boxed(s) && Greedy(m, |s|, |s|, Ok(s, s, t), Preferred(s, s))
    requires ReportsLost(s, |s|, m, lost, deltas) && ReportsCurrent(s, s, m, deltas, |s|)
    requires !AcceptsIdentical(t)
    ensures !AllStill(deltas)
  {
    GreedyIsMaximal(m, |s|, |s|, Ok(s, s, t), Preferred(s, s));
    RejectedIsNotStill(s, m, deltas, t);
  }

  lemma NothingLost(s: seq<Component>, m: Pairing, lost: seq<nat>, deltas: seq<ObjectDelta>)
    requires Pairs(m, |s|, |s|) && ReportsLost(s, |s|, m, lost, deltas)
    requires forall i: nat :: i < |s| ==> i in m
    ensures |deltas| == |s|
  {
    assert m.Keys == Indices(|s|);
    LostSize(s, |s|, m, lost, deltas);
  }

  lemma AcceptsIdenticalExactly(t: Thresholds)
    ensures AcceptsIdentical(t) <==> t.iou <= 1.0 || (t.iouSoft <= 1.0 && t.distance >= 0.0)
  {
    SquarePositive(t.distance);
  }

  /** Extracted components have real boxes. */
  lemma ExtractedAreBoxed(g: Cells.Grid, k: int, comps: seq<Component>, cells: seq<seq<Cells.Cell>>,
                          leaders: seq<Cells.Cell>)
    requires Reports(g, k, comps, cells, leaders)
    ensures Boxed(comps)
  {
    forall i | 0 <= i < |comps| ensures ValidBox(comps[i].bbox) {
      assert Describes(g, comps[i], cells[i], Cells.Region(g, k, leaders[i]));
    }
  }

  /** So tracking what was extracted from one frame against itself is still under the same condition. */
  lemma ExtractedTrackingIsStill(g: Cells.Grid, k: int, comps: seq<Component>, cells: seq<seq<Cells.Cell>>,
                                 leaders: seq<Cells.Cell>, t: Thresholds, deltas: seq<ObjectDelta>)
    requires Reports(g, k, comps, cells, leaders)
    requires exists m, lost :: Explains(comps, comps, t, deltas, m, lost)
    ensures AllStill(deltas) <==> leaders == [] || t.iou <= 1.0 || (t.iouSoft <= 1.0 && t.distance >= 0.0)
  {
    ExtractedAreBoxed(g, k, comps, cells, leaders);
    var m, lost :| Explains(comps, comps, t, deltas, m, lost);
    SelfTrackingIsStill(comps, m, lost, deltas, t);
  }
}
