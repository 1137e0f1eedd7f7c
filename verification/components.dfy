/**
 Connected-component extraction by stack flood fill (components.py), and the
 largest-component area used for background scoring (grid_utils.py).
 */
module Cells {
  import opened Common

  type Cell = (int, int)

  /** A rectangular numpy grid: `h` rows of `w` colours. */
  datatype RawGrid = RawGrid(h: nat, w: nat, rows: seq<seq<int>>) {
    predicate Valid() {
      |rows| == h && forall y :: 0 <= y < h ==> |rows[y]| == w
    }
  }

  type Grid = g: RawGrid | g.Valid() witness RawGrid(0, 0, [])

  predicate In(g: Grid, c: Cell) {
    0 <= c.0 < g.h && 0 <= c.1 < g.w
  }

  function Color(g: Grid, c: Cell): int
    requires In(g, c)
  {
    g.rows[c.0][c.1]
  }

  ghost function AllCells(g: Grid): set<Cell> {
    set y, x | 0 <= y < g.h && 0 <= x < g.w :: (y, x)
  }

  function Neighbors4(c: Cell): seq<Cell> {
    [(c.0 - 1, c.1), (c.0 + 1, c.1), (c.0, c.1 - 1), (c.0, c.1 + 1)]
  }

  function Neighbors8(c: Cell): seq<Cell> {
    [(c.0 - 1, c.1 - 1), (c.0 - 1, c.1), (c.0 - 1, c.1 + 1), (c.0, c.1 - 1),
     (c.0, c.1 + 1), (c.0 + 1, c.1 - 1), (c.0 + 1, c.1), (c.0 + 1, c.1 + 1)]
  }

  function Neighbors(connectivity: int, c: Cell): seq<Cell> {
    if connectivity == 8 then Neighbors8(c) else Neighbors4(c)
  }

  /** Cells one step apart: along an axis, and under 8-connectivity along a diagonal too. */
  predicate Touches(k: int, a: Cell, b: Cell) {
    var dy, dx := Abs(b.0 - a.0), Abs(b.1 - a.1);
    if k == 8 then Max(dy, dx) == 1 else dy + dx == 1
  }

  /** The lists of neighbours hold exactly the cells that touch. */
  lemma NeighborsTouch(k: int, a: Cell)
    ensures forall b :: b in Neighbors(k, a) <==> Touches(k, a, b)
  {
    var n := Neighbors(k, a);
    forall b ensures b in n <==> Touches(k, a, b) {
      if k == 8 {
        assert && n[0] == (a.0 - 1, a.1 - 1) && n[1] == (a.0 - 1, a.1) && n[2] == (a.0 - 1, a.1 + 1)
               && n[3] == (a.0, a.1 - 1) && n[4] == (a.0, a.1 + 1)
               && n[5] == (a.0 + 1, a.1 - 1) && n[6] == (a.0 + 1, a.1) && n[7] == (a.0 + 1, a.1 + 1);
      } else {
        assert n[0] == (a.0 - 1, a.1) && n[1] == (a.0 + 1, a.1) && n[2] == (a.0, a.1 - 1) && n[3] == (a.0, a.1 + 1);
      }
    }
  }

  /** Two cells of the grid that touch and have the same colour. */
  predicate Linked(g: Grid, k: int, a: Cell, b: Cell) {
    In(g, a) && In(g, b) && Touches(k, a, b) && Color(g, a) == Color(g, b)
  }

  ghost predicate IsPath(g: Grid, k: int, p: seq<Cell>) {
    |p| > 0 && In(g, p[0]) && forall i :: 0 <= i < |p| - 1 ==> StepAt(g, k, p, i)
  }

  ghost predicate StepAt(g: Grid, k: int, p: seq<Cell>, i: nat)
    requires i + 1 < |p|
  {
    Linked(g, k, p[i], p[i + 1])
  }

  ghost predicate Joins(g: Grid, k: int, p: seq<Cell>, a: Cell, b: Cell) {
    IsPath(g, k, p) && p[0] == a && p[|p| - 1] == b
  }

  /** `a` reaches `b` through touching cells of one colour. */
  ghost predicate Connected(g: Grid, k: int, a: Cell, b: Cell) {
    exists p :: Joins(g, k, p, a, b)
  }

  ghost function Region(g: Grid, k: int, a: Cell): (r: set<Cell>) {
    set c | c in AllCells(g) && Connected(g, k, a, c)
  }

  lemma PathStaysInside(g: Grid, k: int, p: seq<Cell>)
    requires IsPath(g, k, p)
    ensures forall i :: 0 <= i < |p| ==> In(g, p[i]) && Color(g, p[i]) == Color(g, p[0])
  {
    var n := 1;
    while n < |p|
      invariant 1 <= n <= |p|
      invariant forall i :: 0 <= i < n ==> In(g, p[i]) && Color(g, p[i]) == Color(g, p[0])
    {
      assert StepAt(g, k, p, n - 1);
      n := n + 1;
    }
  }

  lemma ConnectedReflexive(g: Grid, k: int, a: Cell)
    requires In(g, a)
    ensures Connected(g, k, a, a)
  {
    assert Joins(g, k, [a], a, a);
  }

  lemma ConnectedInside(g: Grid, k: int, a: Cell, b: Cell)
    requires Connected(g, k, a, b)
    ensures In(g, a) && In(g, b) && Color(g, a) == Color(g, b)
  {
    var p :| Joins(g, k, p, a, b);
    PathStaysInside(g, k, p);
  }

  lemma ConnectedStep(g: Grid, k: int, a: Cell, b: Cell, c: Cell)
    requires Connected(g, k, a, b) && Linked(g, k, b, c)
    ensures Connected(g, k, a, c)
  {
    var p :| Joins(g, k, p, a, b);
    var q := p + [c];
    forall i: nat | i < |q| - 1 ensures StepAt(g, k, q, i) {
      if i < |p| - 1 { assert StepAt(g, k, p, i); }
    }
    assert Joins(g, k, q, a, c);
  }

  lemma ConnectedSymmetric(g: Grid, k: int, a: Cell, b: Cell)
    requires Connected(g, k, a, b)
    ensures Connected(g, k, b, a)
  {
    var p :| Joins(g, k, p, a, b);
    PathStaysInside(g, k, p);
    var q := seq(|p|, i requires 0 <= i < |p| => p[|p| - 1 - i]);
    forall i: nat | i < |q| - 1 ensures StepAt(g, k, q, i) {
      assert StepAt(g, k, p, |p| - 2 - i);
    }
    assert Joins(g, k, q, b, a);
  }

  lemma ConnectedTransitive(g: Grid, k: int, a: Cell, b: Cell, c: Cell)
    requires Connected(g, k, a, b) && Connected(g, k, b, c)
    ensures Connected(g, k, a, c)
  {
    var p :| Joins(g, k, p, a, b);
    var q :| Joins(g, k, q, b, c);
    var r := p + q[1..];
    forall i: nat | i < |r| - 1 ensures StepAt(g, k, r, i) {
      if i < |p| - 1 {
        assert StepAt(g, k, p, i);
      } else {
        assert StepAt(g, k, q, i - |p| + 1);
      }
    }
    assert Joins(g, k, r, a, c);
  }

  /** A set that holds `a` and every same-colour neighbour of its members holds all of `a`'s region. */
  lemma ClosedHoldsRegion(g: Grid, k: int, a: Cell, s: set<Cell>)
    requires a in s
    requires forall b, c :: b in s && Linked(g, k, b, c) ==> c in s
    ensures Region(g, k, a) <= s
  {
    forall c | c in Region(g, k, a) ensures c in s {
      var p :| Joins(g, k, p, a, c);
      var n := 1;
      while n < |p|
        invariant 1 <= n <= |p|
        invariant p[n - 1] in s
      {
        assert StepAt(g, k, p, n - 1);
        n := n + 1;
      }
    }
  }

  lemma SameRegion(g: Grid, k: int, a: Cell, b: Cell)
    requires Connected(g, k, a, b)
    ensures Region(g, k, a) == Region(g, k, b)
  {
    ConnectedSymmetric(g, k, a, b);
    forall c | c in AllCells(g) ensures Connected(g, k, a, c) <==> Connected(g, k, b, c) {
      if Connected(g, k, a, c) { ConnectedTransitive(g, k, b, a, c); }
      if Connected(g, k, b, c) { ConnectedTransitive(g, k, a, b, c); }
    }
  }
}

module Components {
  import opened Common
  import opened Cells
  import opened Means

  type BBox = (int, int, int, int)

  /** `ordinal` is the number in the source's "colour:ordinal" id. */
  datatype Component = Component(ordinal: nat, color: int, area: nat, bbox: BBox, centroid: (real, real))

  // ---------------------------------------------------------------- boxes and centroids

  ghost predicate InBox(b: BBox, c: Cell) {
    b.0 <= c.0 <= b.2 && b.1 <= c.1 <= b.3
  }

  /** The box holds every cell, and each of its four sides touches one. */
  ghost predicate TightBox(b: BBox, s: set<Cell>) {
    && (forall c :: c in s ==> InBox(b, c))
    && (exists c :: c in s && c.0 == b.0) && (exists c :: c in s && c.1 == b.1)
    && (exists c :: c in s && c.0 == b.2) && (exists c :: c in s && c.1 == b.3)
  }

  function Ys(coords: seq<Cell>): seq<int> {
    seq(|coords|, i requires 0 <= i < |coords| => coords[i].0)
  }

  function Xs(coords: seq<Cell>): seq<int> {
    seq(|coords|, i requires 0 <= i < |coords| => coords[i].1)
  }

  function Sum(s: seq<int>): int {
    if s == [] then 0 else Sum(s[..|s| - 1]) + s[|s| - 1]
  }

  /** The sum is additive and the identity on single numbers, which determines it. */
  lemma {:induction false} SumLaws(s: seq<int>, t: seq<int>)
    ensures Sum(s + t) == Sum(s) + Sum(t)
    ensures |s| == 1 ==> Sum(s) == s[0]
  {
    assert |s| == 1 ==> Sum(s[..0]) == 0;
    if t == [] {
      assert s + t == s;
    } else {
      SumLaws(s, t[..|t| - 1]);
      assert (s + t)[..|s + t| - 1] == s + t[..|t| - 1];
    }
  }

  /** What one reported component says about the cells it was built from. */
  ghost predicate Describes(g: Grid, comp: Component, cells: seq<Cell>, region: set<Cell>) {
    && Distinct(cells) && (set c | c in cells) == region && region != {}
    && (forall c :: c in region ==> In(g, c) && Color(g, c) == comp.color)
    && comp.area == |region|
    && TightBox(comp.bbox, region)
    && IsMean(comp.centroid.0, |cells|, Sum(Ys(cells)))
    && IsMean(comp.centroid.1, |cells|, Sum(Xs(cells)))
  }

  // ---------------------------------------------------------------- which cells lead a component

  /** Strictly earlier in row-major order. */
  predicate Before(a: Cell, b: Cell) {
    a.0 < b.0 || (a.0 == b.0 && a.1 < b.1)
  }

  /** `c` has an allowed colour and is the first cell of its region in row-major order. */
  ghost predicate Leads(g: Grid, k: int, colors: set<int>, c: Cell) {
    In(g, c) && Color(g, c) in colors && forall d :: In(g, d) && Before(d, c) ==> !Connected(g, k, d, c)
  }

  ghost predicate Reported(g: Grid, k: int, colors: set<int>, minArea: int, c: Cell) {
    Leads(g, k, colors, c) && |Region(g, k, c)| >= minArea
  }

  /** The reported leaders among the cells before (y, x), in row-major order. */
  ghost function Leaders(g: Grid, k: int, colors: set<int>, minArea: int, y: nat, x: nat): seq<Cell>
    requires y <= g.h && x <= g.w
    decreases y, x
  {
    if x > 0 then
      var front := Leaders(g, k, colors, minArea, y, x - 1);
      if Reported(g, k, colors, minArea, (y, x - 1)) then front + [(y, x - 1)] else front
    else if y > 0 then Leaders(g, k, colors, minArea, y - 1, g.w)
    else []
  }

  lemma {:induction false} LeadersExact(g: Grid, k: int, colors: set<int>, minArea: int, y: nat, x: nat)
    requires y <= g.h && x <= g.w
    ensures var s := Leaders(g, k, colors, minArea, y, x);
      && (forall c :: c in s <==> Reported(g, k, colors, minArea, c) && Before(c, (y, x)))
      && (forall i, j :: 0 <= i < j < |s| ==> Before(s[i], s[j]))
    decreases y, x
  {
    if x > 0 {
      LeadersExact(g, k, colors, minArea, y, x - 1);
      forall c | Before(c, (y, x)) && In(g, c) ensures c == (y, x - 1) || Before(c, (y, x - 1)) {}
    } else if y > 0 {
      LeadersExact(g, k, colors, minArea, y - 1, g.w);
    }
  }

  lemma {:induction false} LeadersPrefix(g: Grid, k: int, colors: set<int>, minArea: int, y: nat, x: nat, y2: nat,
                                         x2: nat)
    requires y <= g.h && x <= g.w && y2 <= g.h && x2 <= g.w
    requires y < y2 || (y == y2 && x <= x2)
    ensures Leaders(g, k, colors, minArea, y, x) <= Leaders(g, k, colors, minArea, y2, x2)
    decreases y2, x2
  {
    if y == y2 && x == x2 {
    } else if x2 > 0 {
      LeadersPrefix(g, k, colors, minArea, y, x, y2, x2 - 1);
    } else {
      LeadersPrefix(g, k, colors, minArea, y, x, y2 - 1, g.w);
    }
  }

  /** Cells of the regions filled when the scan reaches `pos`. */
  ghost function Filled(g: Grid, k: int, colors: set<int>, pos: Cell): set<Cell> {
    set c | c in AllCells(g) && exists d :: In(g, d) && Before(d, pos) && Fills(g, k, colors, d, c)
  }

  ghost predicate Fills(g: Grid, k: int, colors: set<int>, d: Cell, c: Cell)
    requires In(g, d)
  {
    Color(g, d) in colors && Connected(g, k, d, c)
  }

  /** Cells of other colours the scan has passed. */
  ghost function Skipped(g: Grid, colors: set<int>, pos: Cell): set<Cell> {
    set c | c in AllCells(g) && Before(c, pos) && Color(g, c) !in colors
  }

  /** Scanning one cell fills its region when the colour is allowed, and skips it otherwise. */
  lemma ScanStep(g: Grid, k: int, colors: set<int>, pos: Cell)
    requires In(g, pos)
    ensures var next := (pos.0, pos.1 + 1);
      if Color(g, pos) in colors then
        && Filled(g, k, colors, next) == Filled(g, k, colors, pos) + Region(g, k, pos)
        && Skipped(g, colors, next) == Skipped(g, colors, pos)
      else
        && Filled(g, k, colors, next) == Filled(g, k, colors, pos)
        && Skipped(g, colors, next) == Skipped(g, colors, pos) + {pos}
    ensures Color(g, pos) !in colors ==> pos !in Filled(g, k, colors, pos) + Skipped(g, colors, pos)
  {
    forall d | In(g, d) && Connected(g, k, d, pos) ensures Color(g, d) == Color(g, pos) {
      ConnectedInside(g, k, d, pos);
    }
    var next := (pos.0, pos.1 + 1);
    forall d | In(g, d) ensures Before(d, next) <==> d == pos || Before(d, pos) {}
    forall c | c in AllCells(g)
      ensures c in Filled(g, k, colors, next) <==> c in Filled(g, k, colors, pos) || Fills(g, k, colors, pos, c)
    {
      if c in Filled(g, k, colors, pos) {
        var d :| In(g, d) && Before(d, pos) && Fills(g, k, colors, d, c);
        assert Before(d, next);
      }
      if Fills(g, k, colors, pos, c) { assert Before(pos, next); }
    }
  }

  lemma ScanNextRow(g: Grid, k: int, colors: set<int>, y: nat)
    requires y < g.h
    ensures Filled(g, k, colors, (y, g.w)) == Filled(g, k, colors, (y + 1, 0))
    ensures Skipped(g, colors, (y, g.w)) == Skipped(g, colors, (y + 1, 0))
  {
    forall d | In(g, d) ensures Before(d, (y, g.w)) <==> Before(d, (y + 1, 0)) {}
  }

  /** A cell of allowed colour leads its region exactly when it is not filled yet, and then none of the region is. */
  lemma UnfilledLeads(g: Grid, k: int, colors: set<int>, pos: Cell)
    requires In(g, pos) && Color(g, pos) in colors
    ensures pos !in Filled(g, k, colors, pos) <==> Leads(g, k, colors, pos)
    ensures pos !in Filled(g, k, colors, pos) ==>
      Region(g, k, pos) !! Filled(g, k, colors, pos) + Skipped(g, colors, pos)
    ensures pos in Filled(g, k, colors, pos) ==> Region(g, k, pos) <= Filled(g, k, colors, pos)
  {
    forall d | In(g, d) && Before(d, pos) && Connected(g, k, d, pos) ensures Fills(g, k, colors, d, pos) {
      ConnectedInside(g, k, d, pos);
    }
    if pos in Filled(g, k, colors, pos) {
      var d :| In(g, d) && Before(d, pos) && Fills(g, k, colors, d, pos);
      SameRegion(g, k, d, pos);
      forall c | c in Region(g, k, pos) ensures Fills(g, k, colors, d, c) {}
    }
    forall c | c in Region(g, k, pos)
      ensures c !in Skipped(g, colors, pos) && (c in Filled(g, k, colors, pos) ==> pos in Filled(g, k, colors, pos))
    {
      ConnectedInside(g, k, pos, c);
      if c in Filled(g, k, colors, pos) {
        var d :| In(g, d) && Before(d, pos) && Fills(g, k, colors, d, c);
        ConnectedSymmetric(g, k, pos, c);
        ConnectedTransitive(g, k, d, c, pos);
        assert Fills(g, k, colors, d, pos);
      }
    }
  }

  /** Everything the component scan has marked when it reaches `pos`. */
  ghost function Marked(g: Grid, k: int, colors: set<int>, pos: Cell): set<Cell> {
    Filled(g, k, colors, pos) + Skipped(g, colors, pos)
  }

  lemma MarkedStep(g: Grid, k: int, colors: set<int>, pos: Cell)
    requires In(g, pos)
    ensures var next := (pos.0, pos.1 + 1); var marked, region := Marked(g, k, colors, pos), Region(g, k, pos);
      if pos in marked then Marked(g, k, colors, next) == marked && !Leads(g, k, colors, pos)
      else if Color(g, pos) !in colors then Marked(g, k, colors, next) == marked + {pos} && !Leads(g, k, colors, pos)
      else Marked(g, k, colors, next) == marked + region && region !! marked && Leads(g, k, colors, pos)
  {
    ScanStep(g, k, colors, pos);
    ConnectedReflexive(g, k, pos);
    if Color(g, pos) in colors { UnfilledLeads(g, k, colors, pos); }
  }

  lemma FilledStep(g: Grid, k: int, colors: set<int>, pos: Cell)
    requires In(g, pos)
    ensures var next := (pos.0, pos.1 + 1); var filled, region := Filled(g, k, colors, pos), Region(g, k, pos);
      if Color(g, pos) !in colors || pos in filled
      then Filled(g, k, colors, next) == filled && !Leads(g, k, colors, pos)
      else Filled(g, k, colors, next) == filled + region && region !! filled && Leads(g, k, colors, pos)
  {
    ScanStep(g, k, colors, pos);
    if Color(g, pos) in colors { UnfilledLeads(g, k, colors, pos); }
  }

  // ---------------------------------------------------------------- the flood fill

  ghost predicate Shows(g: Grid, visited: array2<bool>, done: set<Cell>)
    requires visited.Length0 == g.h && visited.Length1 == g.w
    reads visited
  {
    done <= AllCells(g) && forall c {:trigger visited[c.0, c.1]} {:trigger c in done} :: In(g, c) ==>
        (visited[c.0, c.1] <==> c in done)
  }

  ghost predicate Lists(s: seq<Cell>, t: set<Cell>) {
    Distinct(s) && forall c :: c in s <==> c in t
  }

  lemma ListsSize(s: seq<Cell>, t: set<Cell>)
    requires Lists(s, t)
    ensures (set c | c in s) == t && |s| == |t|
  {
    DistinctSize(s);
    assert (set c | c in s) == t;
  }

  /** The neighbour loop: marks and stacks the unmarked same-colour neighbours of `c`, in list order. */
  method PushNeighbors(g: Grid, k: int, visited: array2<bool>, c: Cell, color: int, stack0: seq<Cell>,
                       ghost onStack: set<Cell>, ghost done: set<Cell>)
    returns (stack: seq<Cell>, ghost added: set<Cell>)
    requires visited.Length0 == g.h && visited.Length1 == g.w && Shows(g, visited, done)
    requires In(g, c) && Color(g, c) == color
    requires Lists(stack0, onStack) && onStack <= done
    modifies visited
    ensures Shows(g, visited, done + added) && added !! done
    ensures Lists(stack, onStack + added) && stack0 <= stack
    ensures added == set b | b in AllCells(g) && Linked(g, k, c, b) && b !in done
  {
    var near := Neighbors(k, c);
    NeighborsTouch(k, c);
    stack := stack0;
    added := {};
    var i := 0;
    while i < |near|
      invariant 0 <= i <= |near|
      invariant Shows(g, visited, done + added) && added !! done
      invariant Lists(stack, onStack + added) && stack0 <= stack
      invariant forall b :: b in added ==> Linked(g, k, c, b)
      invariant forall j :: 0 <= j < i && Linked(g, k, c, near[j]) ==> near[j] in done + added
    {
      var n := near[i];
      if In(g, n) && !visited[n.0, n.1] && Color(g, n) == color {
        visited[n.0, n.1] := true;
        stack := stack + [n];
        added := added + {n};
      }
      i := i + 1;
    }
  }

  /** The stack loop: marks exactly the start cell's region and returns its cells, each once. */
  method Fill(g: Grid, k: int, visited: array2<bool>, start: Cell, ghost done: set<Cell>) returns (coords: seq<Cell>)
    requires visited.Length0 == g.h && visited.Length1 == g.w && Shows(g, visited, done)
    requires In(g, start) && Region(g, k, start) !! done
    modifies visited
    ensures Shows(g, visited, done + Region(g, k, start))
    ensures Lists(coords, Region(g, k, start))
  {
    ghost var region := Region(g, k, start);
    ConnectedReflexive(g, k, start);
    var stack := [start];
    visited[start.0, start.1] := true;
    coords := [];
    ghost var popped: set<Cell>, onStack := {}, {start};
    while stack != []
      invariant Lists(coords, popped) && Lists(stack, onStack) && popped !! onStack
      invariant popped + onStack <= region && start in popped + onStack
      invariant Shows(g, visited, done + popped + onStack)
      invariant forall a, b :: a in popped && Linked(g, k, a, b) ==> b in popped + onStack
      decreases region - popped
    {
      var c := stack[|stack| - 1];
      assert c in onStack;
      ConnectedInside(g, k, start, c);
      ghost var before := popped + onStack;
      stack, coords := stack[..|stack| - 1], coords + [c];
      popped, onStack := popped + {c}, onStack - {c};
      assert popped + onStack == before && done + popped + onStack == done + before;
      ghost var added;
      stack, added := PushNeighbors(g, k, visited, c, Color(g, start), stack, onStack, done + popped + onStack);
      StepStaysInRegion(g, k, start, c, added);
      onStack := onStack + added;
      assert done + before + added == done + popped + onStack;
    }
    ClosedHoldsRegion(g, k, start, popped);
    assert popped == region && done + popped + onStack == done + region;
  }

  lemma StepStaysInRegion(g: Grid, k: int, start: Cell, c: Cell, added: set<Cell>)
    requires Connected(g, k, start, c)
    requires forall b :: b in added ==> Linked(g, k, c, b)
    ensures added <= Region(g, k, start)
    ensures forall b :: Linked(g, k, c, b) ==> b in Region(g, k, start)
  {
    forall b | Linked(g, k, c, b) ensures b in Region(g, k, start) {
      ConnectedStep(g, k, start, c, b);
    }
  }

  // ---------------------------------------------------------------- one component from its cells

  function Least(s: seq<int>): (m: int)
    requires s != []
    ensures m in s && forall i :: 0 <= i < |s| ==> m <= s[i]
  {
    if |s| == 1 then s[0] else
      var m := Least(s[..|s| - 1]);
      if s[|s| - 1] < m then s[|s| - 1] else m
  }

  function Greatest(s: seq<int>): (m: int)
    requires s != []
    ensures m in s && forall i :: 0 <= i < |s| ==> s[i] <= m
  {
    if |s| == 1 then s[0] else
      var m := Greatest(s[..|s| - 1]);
      if s[|s| - 1] > m then s[|s| - 1] else m
  }

  function Build(ordinal: nat, color: int, coords: seq<Cell>): Component
    requires coords != []
  {
    var ys, xs := Ys(coords), Xs(coords);
    Component(ordinal, color, |coords|, (Least(ys), Least(xs), Greatest(ys), Greatest(xs)),
              (Sum(ys) as real / |coords| as real, Sum(xs) as real / |coords| as real))
  }

  lemma BuildDescribes(g: Grid, k: int, ordinal: nat, start: Cell, coords: seq<Cell>)
    requires In(g, start) && Lists(coords, Region(g, k, start))
    ensures coords != []
    ensures Describes(g, Build(ordinal, Color(g, start), coords), coords, Region(g, k, start))
  {
    var region := Region(g, k, start);
    ConnectedReflexive(g, k, start);
    assert start in region;
    assert start in coords;
    ListsSize(coords, region);
    forall c | c in region ensures In(g, c) && Color(g, c) == Color(g, start) {
      ConnectedInside(g, k, start, c);
    }
    BoxIsTight(coords, region);
    QuotientIsMean(Sum(Ys(coords)) as real, |coords|);
    QuotientIsMean(Sum(Xs(coords)) as real, |coords|);
  }

  lemma BoxIsTight(coords: seq<Cell>, region: set<Cell>)
    requires coords != [] && forall c :: c in coords <==> c in region
    ensures TightBox((Least(Ys(coords)), Least(Xs(coords)), Greatest(Ys(coords)), Greatest(Xs(coords))), region)
  {
    hide Least, Greatest;
    var ys, xs := Ys(coords), Xs(coords);
    forall c | c in region ensures c.0 in ys && c.1 in xs {
      var i :| 0 <= i < |coords| && coords[i] == c;
      assert ys[i] == c.0 && xs[i] == c.1;
    }
    var i0 :| 0 <= i0 < |ys| && ys[i0] == Least(ys);
    var i1 :| 0 <= i1 < |xs| && xs[i1] == Least(xs);
    var i2 :| 0 <= i2 < |ys| && ys[i2] == Greatest(ys);
    var i3 :| 0 <= i3 < |xs| && xs[i3] == Greatest(xs);
    assert coords[i0] in region && coords[i1] in region && coords[i2] in region && coords[i3] in region;
  }

  /** The mean of numbers lies between their bounds. */
  lemma MeanInside(s: seq<int>, lo: int, hi: int, mean: real)
    requires s != [] && (forall i :: 0 <= i < |s| ==> lo <= s[i] <= hi) && IsMean(mean, |s|, Sum(s))
    ensures lo as real <= mean <= hi as real
  {
    hide Times, Sum;
    SumInside(s, lo, hi);
    if mean < lo as real { TimesGrows(mean, lo as real, |s|); }
    if mean > hi as real { TimesGrows(hi as real, mean, |s|); }
  }

  lemma {:induction false} SumInside(s: seq<int>, lo: int, hi: int)
    requires forall i :: 0 <= i < |s| ==> lo <= s[i] <= hi
    ensures Times(lo as real, |s|) <= Sum(s) as real <= Times(hi as real, |s|)
  {
    if s != [] { SumInside(s[..|s| - 1], lo, hi); }
  }

  /** The centroid of a reported component lies inside its box. */
  lemma CentroidInBox(g: Grid, comp: Component, cells: seq<Cell>, region: set<Cell>)
    requires Describes(g, comp, cells, region)
    ensures comp.bbox.0 as real <= comp.centroid.0 <= comp.bbox.2 as real
    ensures comp.bbox.1 as real <= comp.centroid.1 <= comp.bbox.3 as real
  {
    var c :| c in region;
    assert c in cells;
    forall i | 0 <= i < |cells| ensures InBox(comp.bbox, cells[i]) { assert cells[i] in region; }
    MeanInside(Ys(cells), comp.bbox.0, comp.bbox.2, comp.centroid.0);
    MeanInside(Xs(cells), comp.bbox.1, comp.bbox.3, comp.centroid.1);
  }

  // ---------------------------------------------------------------- extraction

  /** The components list reports `leaders` in order: one entry each, numbered from zero. */
  ghost predicate Reports(g: Grid, k: int, comps: seq<Component>, cells: seq<seq<Cell>>, leaders: seq<Cell>) {
    && |comps| == |cells| == |leaders|
    && forall i :: 0 <= i < |comps| ==>
         comps[i].ordinal == i && Describes(g, comps[i], cells[i], Region(g, k, leaders[i]))
  }

  lemma ReportOneMore(g: Grid, k: int, comps: seq<Component>, cells: seq<seq<Cell>>, leaders: seq<Cell>, color: int,
                      start: Cell, coords: seq<Cell>)
    requires Reports(g, k, comps, cells, leaders) && coords != []
    requires Describes(g, Build(|comps|, color, coords), coords, Region(g, k, start))
    ensures Reports(g, k, comps + [Build(|comps|, color, coords)], cells + [coords], leaders + [start])
  {
  }

  /** One cell of the scan: an unmarked cell of allowed colour is filled, one of another colour only marked. */
  method Visit(g: Grid, k: int, colors: set<int>, visited: array2<bool>, y: nat, x: nat) returns (coords: seq<Cell>)
    requires y < g.h && x < g.w && visited.Length0 == g.h && visited.Length1 == g.w
    requires Shows(g, visited, Marked(g, k, colors, (y, x)))
    modifies visited
    ensures Shows(g, visited, Marked(g, k, colors, (y, x + 1)))
    ensures if Leads(g, k, colors, (y, x)) then coords != [] && Lists(coords, Region(g, k, (y, x))) else coords == []
  {
    hide Region, Connected, Marked, Leads;
    coords := [];
    MarkedStep(g, k, colors, (y, x));
    if !visited[y, x] {
      if Color(g, (y, x)) !in colors {
        visited[y, x] := true;
      } else {
        coords := Fill(g, k, visited, (y, x), Marked(g, k, colors, (y, x)));
        RegionNotEmpty(g, k, (y, x), coords);
      }
    }
  }

  lemma RegionNotEmpty(g: Grid, k: int, c: Cell, coords: seq<Cell>)
    requires In(g, c) && Lists(coords, Region(g, k, c))
    ensures coords != []
  {
    ConnectedReflexive(g, k, c);
    assert c in Region(g, k, c) && c in coords;
  }

  /** A filled region that is large enough becomes the next component. */
  method Emit(g: Grid, k: int, colors: set<int>, minArea: int, y: nat, x: nat, coords: seq<Cell>,
              comps0: seq<Component>, ghost cells0: seq<seq<Cell>>)
    returns (comps: seq<Component>, ghost cells: seq<seq<Cell>>)
    requires y < g.h && x < g.w && coords != [] && |coords| >= minArea
    requires Leads(g, k, colors, (y, x)) && Lists(coords, Region(g, k, (y, x)))
    requires Reports(g, k, comps0, cells0, Leaders(g, k, colors, minArea, y, x))
    ensures |comps| == |comps0| + 1 && Reports(g, k, comps, cells, Leaders(g, k, colors, minArea, y, x + 1))
  {
    BuildDescribes(g, k, |comps0|, (y, x), coords);
    ReportOneMore(g, k, comps0, cells0, Leaders(g, k, colors, minArea, y, x), Color(g, (y, x)), (y, x), coords);
    comps, cells := comps0 + [Build(|comps0|, Color(g, (y, x)), coords)], cells0 + [coords];
  }

  lemma NotReported(g: Grid, k: int, colors: set<int>, minArea: int, y: nat, x: nat, coords: seq<Cell>)
    requires y < g.h && x < g.w && (coords == [] || |coords| < minArea)
    requires if Leads(g, k, colors, (y, x)) then coords != [] && Lists(coords, Region(g, k, (y, x))) else coords == []
    ensures Leaders(g, k, colors, minArea, y, x + 1) == Leaders(g, k, colors, minArea, y, x)
  {
    if coords != [] { ListsSize(coords, Region(g, k, (y, x))); }
  }

  function AtLeastOne(n: int): nat {
    if n <= 1 then 1 else n
  }

  function Cut<T>(s: seq<T>, n: nat): seq<T> {
    if |s| <= n then s else s[..n]
  }

  lemma CutPrefix<T>(s: seq<T>, all: seq<T>)
    requires s <= all
    ensures Cut(all, |s|) == s
  {
  }

  /** One cell of the scan, and the component it may complete. */
  method ScanCell(g: Grid, k: int, colors: set<int>, minArea: int, visited: array2<bool>, y: nat, x: nat,
                  comps0: seq<Component>, ghost cells0: seq<seq<Cell>>)
    returns (comps: seq<Component>, ghost cells: seq<seq<Cell>>)
    requires y < g.h && x < g.w && visited.Length0 == g.h && visited.Length1 == g.w
    requires Shows(g, visited, Marked(g, k, colors, (y, x)))
    requires Reports(g, k, comps0, cells0, Leaders(g, k, colors, minArea, y, x))
    modifies visited
    ensures Shows(g, visited, Marked(g, k, colors, (y, x + 1)))
    ensures Reports(g, k, comps, cells, Leaders(g, k, colors, minArea, y, x + 1))
    ensures |comps| == |comps0| + 1 || comps == comps0
  {
    hide Describes, Region, Connected, Marked, Leads, Leaders, Shows, Lists, Reports;
    var coords := Visit(g, k, colors, visited, y, x);
    if coords != [] && |coords| >= minArea {
      comps, cells := Emit(g, k, colors, minArea, y, x, coords, comps0, cells0);
    } else {
      NotReported(g, k, colors, minArea, y, x, coords);
      comps, cells := comps0, cells0;
    }
  }

  lemma NothingReported(g: Grid, k: int, colors: set<int>, minArea: int, visited: array2<bool>)
    requires visited.Length0 == g.h && visited.Length1 == g.w
    requires forall y, x :: 0 <= y < g.h && 0 <= x < g.w ==> !visited[y, x]
    ensures Shows(g, visited, Marked(g, k, colors, (0, 0)))
    ensures Reports(g, k, [], [], Leaders(g, k, colors, minArea, 0, 0))
  {
  }

  lemma LeadersNextRow(g: Grid, k: int, colors: set<int>, minArea: int, y: nat)
    requires y < g.h
    ensures Leaders(g, k, colors, minArea, y, g.w) == Leaders(g, k, colors, minArea, y + 1, 0)
  {
  }

  /** With the list full, the leaders so far are all leaders cut to its length. */
  lemma FullIsCut(g: Grid, k: int, colors: set<int>, minArea: int, y: nat, x: nat, n: nat)
    requires y < g.h && x <= g.w && |Leaders(g, k, colors, minArea, y, x)| == n
    ensures Cut(Leaders(g, k, colors, minArea, g.h, 0), n) == Leaders(g, k, colors, minArea, y, x)
  {
    LeadersPrefix(g, k, colors, minArea, y, x, g.h, 0);
    CutPrefix(Leaders(g, k, colors, minArea, y, x), Leaders(g, k, colors, minArea, g.h, 0));
  }

  lemma ReportsSize(g: Grid, k: int, comps: seq<Component>, cells: seq<seq<Cell>>, leaders: seq<Cell>)
    requires Reports(g, k, comps, cells, leaders)
    ensures |comps| == |leaders|
  {
  }

  /** The scan over rows and columns; it stops once `maxObjects` components are out, but only after the first. */
  method ExtractComponents(g: Grid, colors: set<int>, connectivity: int, minArea: int, maxObjects: int)
    returns (comps: seq<Component>)
    ensures var leaders := Cut(Leaders(g, connectivity, colors, minArea, g.h, 0), AtLeastOne(maxObjects));
      exists cells :: Reports(g, connectivity, comps, cells, leaders)
  {
    hide Leaders, Shows, Reports;
    ghost var cells: seq<seq<Cell>> := [];
    comps := [];
    var visited := new bool[g.h, g.w]((y, x) => false);
    NothingReported(g, connectivity, colors, minArea, visited);
    var y := 0;
    while y < g.h
      invariant 0 <= y <= g.h
      invariant Shows(g, visited, Marked(g, connectivity, colors, (y, 0)))
      invariant Reports(g, connectivity, comps, cells, Leaders(g, connectivity, colors, minArea, y, 0))
      invariant |comps| < AtLeastOne(maxObjects)
    {
      var x := 0;
      while x < g.w
        invariant 0 <= x <= g.w
        invariant Shows(g, visited, Marked(g, connectivity, colors, (y, x)))
        invariant Reports(g, connectivity, comps, cells, Leaders(g, connectivity, colors, minArea, y, x))
        invariant |comps| < AtLeastOne(maxObjects)
      {
        var before := |comps|;
        comps, cells := ScanCell(g, connectivity, colors, minArea, visited, y, x, comps, cells);
        x := x + 1;
        if |comps| > before && |comps| >= maxObjects {
          ReportsSize(g, connectivity, comps, cells, Leaders(g, connectivity, colors, minArea, y, x));
          FullIsCut(g, connectivity, colors, minArea, y, x, |comps|);
          return;
        }
      }
      ScanNextRow(g, connectivity, colors, y);
      LeadersNextRow(g, connectivity, colors, minArea, y);
      y := y + 1;
    }
    ReportsSize(g, connectivity, comps, cells, Leaders(g, connectivity, colors, minArea, g.h, 0));
    assert Cut(Leaders(g, connectivity, colors, minArea, g.h, 0), AtLeastOne(maxObjects))
        == Leaders(g, connectivity, colors, minArea, g.h, 0);
  }

  /** Every region of allowed colour and sufficient area has exactly one leader in the full list. */
  lemma LeadersCover(g: Grid, k: int, colors: set<int>, minArea: int, c: Cell)
    requires In(g, c) && Color(g, c) in colors && |Region(g, k, c)| >= minArea
    ensures var all := Leaders(g, k, colors, minArea, g.h, 0);
      exists i :: 0 <= i < |all| && c in Region(g, k, all[i])
        && forall j :: 0 <= j < |all| && c in Region(g, k, all[j]) ==> j == i
  {
    var lead := FirstOf(g, k, c, c);
    SameRegion(g, k, lead, c);
    ConnectedInside(g, k, lead, c);
    FirstLeads(g, k, colors, c, lead);
    var all := Leaders(g, k, colors, minArea, g.h, 0);
    LeadersExact(g, k, colors, minArea, g.h, 0);
    assert Reported(g, k, colors, minArea, lead) && Before(lead, (g.h, 0));
    assert lead in all;
    var i :| 0 <= i < |all| && all[i] == lead;
    ConnectedReflexive(g, k, c);
    assert c in Region(g, k, all[i]);
    forall j | 0 <= j < |all| && c in Region(g, k, all[j]) ensures j == i {
      assert all[j] in all;
      ConnectedSymmetric(g, k, all[j], c);
      ConnectedTransitive(g, k, lead, c, all[j]);
      ConnectedSymmetric(g, k, lead, all[j]);
      assert !Before(lead, all[j]) && !Before(all[j], lead);
    }
  }

  /** The first cell, in row-major order, that reaches `c`; found by walking down from `from`. */
  lemma FirstOf(g: Grid, k: int, c: Cell, from: Cell) returns (lead: Cell)
    requires In(g, c) && In(g, from) && (from == c || Connected(g, k, from, c))
    ensures In(g, lead) && Connected(g, k, lead, c)
    ensures forall d :: In(g, d) && Before(d, lead) ==> !Connected(g, k, d, c)
    decreases from.0, from.1
  {
    ConnectedReflexive(g, k, c);
    if d :| In(g, d) && Before(d, from) && Connected(g, k, d, c) {
      lead := FirstOf(g, k, c, d);
    } else {
      lead := from;
    }
  }

  lemma FirstLeads(g: Grid, k: int, colors: set<int>, c: Cell, lead: Cell)
    requires Connected(g, k, lead, c) && In(g, lead) && Color(g, lead) in colors
    requires forall d :: In(g, d) && Before(d, lead) ==> !Connected(g, k, d, c)
    ensures Leads(g, k, colors, lead)
  {
    forall d | In(g, d) && Before(d, lead) ensures !Connected(g, k, d, lead) {
      if Connected(g, k, d, lead) { ConnectedTransitive(g, k, d, lead, c); }
    }
  }

  /** Reported components never share a cell. */
  lemma LeadersDisjoint(g: Grid, k: int, colors: set<int>, minArea: int, i: nat, j: nat)
    requires var all := Leaders(g, k, colors, minArea, g.h, 0); i < j < |all|
    ensures var all := Leaders(g, k, colors, minArea, g.h, 0); Region(g, k, all[i]) !! Region(g, k, all[j])
  {
    var all := Leaders(g, k, colors, minArea, g.h, 0);
    LeadersExact(g, k, colors, minArea, g.h, 0);
    assert all[i] in all && all[j] in all;
    forall c | c in Region(g, k, all[i]) ensures c !in Region(g, k, all[j]) {
      if Connected(g, k, all[j], c) {
        ConnectedSymmetric(g, k, all[j], c);
        ConnectedTransitive(g, k, all[i], c, all[j]);
      }
    }
  }

  // ---------------------------------------------------------------- the largest area of one colour

  /** `n` is the largest region area of the colour under 4-connectivity, 0 when the colour is absent. */
  ghost predicate IsLargestArea(g: Grid, color: int, n: nat) {
    && (forall c :: In(g, c) && Color(g, c) == color ==> |Region(g, 4, c)| <= n)
    && (n > 0 ==> exists c :: In(g, c) && Color(g, c) == color && |Region(g, 4, c)| == n)
  }

  lemma LargestAreaUnique(g: Grid, color: int, m: nat, n: nat)
    requires IsLargestArea(g, color, m) && IsLargestArea(g, color, n)
    ensures m == n
  {
    if m > 0 {
      var c :| In(g, c) && Color(g, c) == color && |Region(g, 4, c)| == m;
    }
    if n > 0 {
      var c :| In(g, c) && Color(g, c) == color && |Region(g, 4, c)| == n;
    }
  }

  /** The largest area among the regions of the colour that start before (y, x). */
  ghost function LargestUpTo(g: Grid, color: int, y: nat, x: nat): nat
    requires y <= g.h && x <= g.w
    decreases y, x
  {
    if x > 0 then
      var n := LargestUpTo(g, color, y, x - 1);
      if Leads(g, 4, {color}, (y, x - 1)) && |Region(g, 4, (y, x - 1))| > n then |Region(g, 4, (y, x - 1))| else n
    else if y > 0 then LargestUpTo(g, color, y - 1, g.w)
    else 0
  }

  lemma {:induction false} LargestUpToExact(g: Grid, color: int, y: nat, x: nat)
    requires y <= g.h && x <= g.w
    ensures var n := LargestUpTo(g, color, y, x);
      && (forall c :: Leads(g, 4, {color}, c) && Before(c, (y, x)) ==> |Region(g, 4, c)| <= n)
      && (n > 0 ==> exists c :: Leads(g, 4, {color}, c) && |Region(g, 4, c)| == n)
    decreases y, x
  {
    if x > 0 {
      LargestUpToExact(g, color, y, x - 1);
      forall c | Before(c, (y, x)) && In(g, c) ensures c == (y, x - 1) || Before(c, (y, x - 1)) {}
    } else if y > 0 {
      LargestUpToExact(g, color, y - 1, g.w);
    }
  }

  lemma LargestIsOverall(g: Grid, color: int)
    ensures IsLargestArea(g, color, LargestUpTo(g, color, g.h, 0))
  {
    LargestUpToExact(g, color, g.h, 0);
    forall c | In(g, c) && Color(g, c) == color ensures |Region(g, 4, c)| <= LargestUpTo(g, color, g.h, 0) {
      ConnectedReflexive(g, 4, c);
      var lead := FirstOf(g, 4, c, c);
      ConnectedInside(g, 4, lead, c);
      SameRegion(g, 4, lead, c);
      FirstLeads(g, 4, {color}, c, lead);
    }
  }

  /** One cell of the background scan: only cells of the colour are ever marked. */
  method VisitColor(g: Grid, color: int, visited: array2<bool>, y: nat, x: nat) returns (coords: seq<Cell>)
    requires y < g.h && x < g.w && visited.Length0 == g.h && visited.Length1 == g.w
    requires Shows(g, visited, Filled(g, 4, {color}, (y, x)))
    modifies visited
    ensures Shows(g, visited, Filled(g, 4, {color}, (y, x + 1)))
    ensures if Leads(g, 4, {color}, (y, x))
            then Lists(coords, Region(g, 4, (y, x))) && |coords| == |Region(g, 4, (y, x))|
            else coords == []
  {
    hide Region, Connected, Filled, Leads;
    coords := [];
    FilledStep(g, 4, {color}, (y, x));
    if Color(g, (y, x)) == color && !visited[y, x] {
      coords := Fill(g, 4, visited, (y, x), Filled(g, 4, {color}, (y, x)));
      ListsSize(coords, Region(g, 4, (y, x)));
    }
  }

  /** The largest region of the colour as a share of the grid. */
  method LargestComponentFraction(g: Grid, color: int) returns (fraction: real)
    ensures exists largest: nat :: IsLargestArea(g, color, largest) && Times(fraction, g.h * g.w) == largest as real
    ensures g.h * g.w == 0 ==> fraction == 0.0
  {
    hide Region, Connected;
    var visited := new bool[g.h, g.w]((y, x) => false);
    var maxArea: nat := 0;
    var y := 0;
    while y < g.h
      invariant 0 <= y <= g.h
      invariant Shows(g, visited, Filled(g, 4, {color}, (y, 0)))
      invariant maxArea == LargestUpTo(g, color, y, 0)
    {
      var x := 0;
      while x < g.w
        invariant 0 <= x <= g.w
        invariant Shows(g, visited, Filled(g, 4, {color}, (y, x)))
        invariant maxArea == LargestUpTo(g, color, y, x)
      {
        var coords := VisitColor(g, color, visited, y, x);
        maxArea := if |coords| > maxArea then |coords| else maxArea;
        x := x + 1;
      }
      ScanNextRow(g, 4, {color}, y);
      y := y + 1;
    }
    LargestIsOverall(g, color);
    if g.h == 0 || g.w == 0 {
      NoCellsNoArea(g, color, maxArea);
      fraction := 0.0;
    } else {
      assert g.h * g.w > 0;
      fraction := maxArea as real / (g.h * g.w) as real;
      QuotientIsMean(maxArea as real, g.h * g.w);
    }
    assert IsLargestArea(g, color, maxArea) && Times(fraction, g.h * g.w) == maxArea as real;
  }

  lemma NoCellsNoArea(g: Grid, color: int, n: nat)
    requires g.h == 0 || g.w == 0
    ensures IsLargestArea(g, color, n) ==> n == 0
  {
  }

  /**
   The two flood fills agree: the largest reported component of a colour, when none was cut off,
   has the area the background score divides by; when none is reported, every region is too small.
   */
  lemma ExtractionAgreesOnLargest(g: Grid, colors: set<int>, minArea: int, color: int, comps: seq<Component>,
                                  cells: seq<seq<Cell>>, n: nat)
    requires color in colors
    requires Reports(g, 4, comps, cells, Leaders(g, 4, colors, minArea, g.h, 0))
    requires forall i :: 0 <= i < |comps| && comps[i].color == color ==> comps[i].area <= n
    requires n > 0 ==> exists i :: 0 <= i < |comps| && comps[i].color == color && comps[i].area == n
    ensures n > 0 || minArea <= 1 ==> IsLargestArea(g, color, n)
    ensures n == 0 ==> forall c :: In(g, c) && Color(g, c) == color ==> |Region(g, 4, c)| < minArea
  {
    var all := Leaders(g, 4, colors, minArea, g.h, 0);
    LeadersExact(g, 4, colors, minArea, g.h, 0);
    forall i | 0 <= i < |all|
      ensures In(g, all[i]) && Color(g, all[i]) == comps[i].color
      ensures comps[i].area == |Region(g, 4, all[i])| >= minArea
    {
      assert all[i] in all;
      ConnectedReflexive(g, 4, all[i]);
      assert all[i] in Region(g, 4, all[i]);
    }
    forall c | In(g, c) && Color(g, c) == color ensures |Region(g, 4, c)| < minArea || 0 < |Region(g, 4, c)| <= n {
      if |Region(g, 4, c)| >= minArea { LargeIsReported(g, colors, minArea, c, all); }
      ConnectedReflexive(g, 4, c);
      assert c in Region(g, 4, c) && {c} <= Region(g, 4, c);
      SubsetSize({c}, Region(g, 4, c));
    }
  }

  /** A large enough region of an allowed colour is the region of a leader. */
  lemma LargeIsReported(g: Grid, colors: set<int>, minArea: int, c: Cell, all: seq<Cell>)
    requires all == Leaders(g, 4, colors, minArea, g.h, 0)
    requires In(g, c) && Color(g, c) in colors && |Region(g, 4, c)| >= minArea
    ensures exists i ::
      0 <= i < |all| && In(g, all[i]) && Color(g, all[i]) == Color(g, c) && Region(g, 4, all[i]) == Region(g, 4, c)
  {
    LeadersCover(g, 4, colors, minArea, c);
    var i :| 0 <= i < |all| && c in Region(g, 4, all[i]);
    LeadersExact(g, 4, colors, minArea, g.h, 0);
    assert all[i] in all;
    SameRegion(g, 4, all[i], c);
    ConnectedInside(g, 4, all[i], c);
  }
}
