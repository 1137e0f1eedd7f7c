/**
 The HUD probe (hud_probe_accumulator.py): change counts over a sliding window of frame
 differences, and the mask of the screen regions at the edge that keep changing.
 */
module HudProbe {
  import opened Common
  import opened Cells
  import opened Components
  import opened Masks

  datatype Config = Config(
    detectWindow: int, minSteps: int, edgeMargin: int, minComponentArea: int, minChangedPerStep: int, changeRate: real)

  // ---------------------------------------------------------------- the window

  /** How many of the differences set the cell. */
  ghost function CountAt(deltas: seq<Mask>, y: int, x: int): (n: nat)
    ensures n <= |deltas|
  {
    if deltas == [] then 0 else
      CountAt(deltas[1..], y, x) +
      (if 0 <= y < deltas[0].h && 0 <= x < deltas[0].w && deltas[0].rows[y][x] then 1 else 0)
  }

  lemma {:induction false} CountAtAppend(deltas: seq<Mask>, d: Mask, y: int, x: int)
    ensures CountAt(deltas + [d], y, x) ==
            CountAt(deltas, y, x) + (if 0 <= y < d.h && 0 <= x < d.w && d.rows[y][x] then 1 else 0)
  {
    if deltas == [] {
      assert deltas + [d] == [d];
    } else {
      CountAtAppend(deltas[1..], d, y, x);
      assert (deltas + [d])[1..] == deltas[1..] + [d];
    }
  }

  /** A cell has a positive count exactly when some difference sets it. */
  lemma {:induction false} CountedMeansChanged(deltas: seq<Mask>, y: int, x: int)
    ensures CountAt(deltas, y, x) >= 1 <==>
            exists i :: 0 <= i < |deltas| && 0 <= y < deltas[i].h && 0 <= x < deltas[i].w && deltas[i].rows[y][x]
  {
    if deltas != [] {
      CountedMeansChanged(deltas[1..], y, x);
      assert forall i :: 0 <= i < |deltas| - 1 ==> deltas[1..][i] == deltas[i + 1];
      assert forall i :: 1 <= i < |deltas| ==> deltas[1..][i - 1] == deltas[i];
    }
  }

  ghost predicate Shaped(deltas: seq<Mask>, h: nat, w: nat) {
    forall i :: 0 <= i < |deltas| ==> deltas[i].h == h && deltas[i].w == w
  }

  ghost predicate Tallies(counts: array2<int>, deltas: seq<Mask>)
    reads counts
  {
    forall y, x :: 0 <= y < counts.Length0 && 0 <= x < counts.Length1 ==> counts[y, x] == CountAt(deltas, y, x)
  }

  /** Adds `sign` at every cell the difference sets. */
  method AddDelta(counts: array2<int>, delta: Mask, sign: int)
    requires counts.Length0 == delta.h && counts.Length1 == delta.w
    modifies counts
    ensures forall y, x :: 0 <= y < delta.h && 0 <= x < delta.w ==>
      counts[y, x] == old(counts[y, x]) + (if delta.rows[y][x] then sign else 0)
  {
    forall y, x | 0 <= y < delta.h && 0 <= x < delta.w {
      counts[y, x] := counts[y, x] + (if delta.rows[y][x] then sign else 0);
    }
  }

  /** The last `n` elements, or all of them. */
  ghost function Tail<T>(s: seq<T>, n: nat): seq<T> {
    if |s| <= n then s else s[|s| - n..]
  }

  // ---------------------------------------------------------------- the edge band

  /** The four slices that mark the band: top, bottom, left and right. */
  predicate EdgeCell(h: nat, w: nat, margin: int, y: int, x: int) {
    var m := Max(0, margin);
    y < Min(h, m + 1) || y >= Max(0, h - m - 1) || x < Min(w, m + 1) || x >= Max(0, w - m - 1)
  }

  /** The band is every cell at most `margin` cells away from some border of the grid. */
  lemma EdgeIsNearBorder(h: nat, w: nat, margin: int, y: nat, x: nat)
    requires y < h && x < w
    ensures EdgeCell(h, w, margin, y, x) <==>
            Min(Min(y, h - 1 - y), Min(x, w - 1 - x)) <= Max(0, margin)
  {
  }

  function EdgeBandMask(h: nat, w: nat, margin: int): Mask {
    RawMask(h, w, seq(h, y => seq(w, x => EdgeCell(h, w, margin, y, x))))
  }

  // ---------------------------------------------------------------- components of the support

  /** A mask as a grid with colour 1 where it is set, for the flood fill. */
  function AsGrid(m: Mask): (g: Grid)
    ensures g.h == m.h && g.w == m.w
    ensures forall y, x :: 0 <= y < m.h && 0 <= x < m.w ==> g.rows[y][x] == if m.rows[y][x] then 1 else 0
  {
    RawGrid(m.h, m.w, seq(m.h, y requires 0 <= y < m.h =>
                            seq(m.w, x requires 0 <= x < m.w => if m.rows[y][x] then 1 else 0)))
  }

  /** Rows and columns from the first to past the last. */
  type Box = (int, int, int, int)

  predicate InsideBox(b: Box, y: int, x: int) {
    b.0 <= y < b.2 && b.1 <= x < b.3
  }

  function BoxOf(coords: seq<Cell>): Box
    requires coords != []
  {
    (Least(Ys(coords)), Least(Xs(coords)), Greatest(Ys(coords)) + 1, Greatest(Xs(coords)) + 1)
  }

  /** The boxes are the tight boxes of the regions that start at the leaders. */
  ghost predicate BoxesOf(g: Grid, boxes: seq<Box>, leaders: seq<Cell>) {
    |boxes| == |leaders| && forall i :: 0 <= i < |boxes| ==> IsBoxOf(g, boxes[i], leaders[i])
  }

  ghost predicate IsBoxOf(g: Grid, b: Box, lead: Cell) {
    TightBox((b.0, b.1, b.2 - 1, b.3 - 1), Region(g, 4, lead))
  }

  lemma BoxOfRegion(g: Grid, coords: seq<Cell>, lead: Cell)
    requires In(g, lead) && Lists(coords, Region(g, 4, lead))
    ensures coords != [] && IsBoxOf(g, BoxOf(coords), lead)
  {
    ConnectedReflexive(g, 4, lead);
    assert lead in Region(g, 4, lead);
    BoxIsTight(coords, Region(g, 4, lead));
  }

  /** The components of the support with enough cells, in row-major order of their first cell. */
  method Candidates(support: Mask, minArea: int) returns (boxes: seq<Box>)
    ensures BoxesOf(AsGrid(support), boxes, Leaders(AsGrid(support), 4, {1}, minArea, support.h, 0))
  {
    var g := AsGrid(support);
    var visited := new bool[g.h, g.w]((y, x) => false);
    boxes := [];
    var y := 0;
    while y < g.h
      invariant 0 <= y <= g.h
      invariant Shows(g, visited, Filled(g, 4, {1}, (y, 0)))
      invariant BoxesOf(g, boxes, Leaders(g, 4, {1}, minArea, y, 0))
    {
      var x := 0;
      while x < g.w
        invariant 0 <= x <= g.w
        invariant Shows(g, visited, Filled(g, 4, {1}, (y, x)))
        invariant BoxesOf(g, boxes, Leaders(g, 4, {1}, minArea, y, x))
      {
        var coords := VisitColor(g, 1, visited, y, x);
        boxes := AddCandidate(g, minArea, y, x, coords, boxes);
        x := x + 1;
      }
      ScanNextRow(g, 4, {1}, y);
      y := y + 1;
    }
  }

  method AddCandidate(g: Grid, minArea: int, y: nat, x: nat, coords: seq<Cell>, boxes: seq<Box>) returns (r: seq<Box>)
    requires y < g.h && x < g.w
    requires if Leads(g, 4, {1}, (y, x)) then Lists(coords, Region(g, 4, (y, x))) && |coords| == |Region(g, 4, (y, x))|
             else coords == []
    requires BoxesOf(g, boxes, Leaders(g, 4, {1}, minArea, y, x))
    ensures BoxesOf(g, r, Leaders(g, 4, {1}, minArea, y, x + 1))
  {
    r := boxes;
    if coords != [] && |coords| >= minArea {
      BoxOfRegion(g, coords, (y, x));
      r := boxes + [BoxOf(coords)];
    } else {
      assert Leads(g, 4, {1}, (y, x)) ==> coords != [] by {
        if Leads(g, 4, {1}, (y, x)) { BoxOfRegion(g, coords, (y, x)); }
      }
    }
  }

  // ---------------------------------------------------------------- activity

  /** The edge cells of the box that one difference sets. */
  function ActiveCells(edge: Mask, delta: Mask, b: Box): Mask
    requires edge.h == delta.h && edge.w == delta.w
  {
    RawMask(delta.h, delta.w, seq(delta.h, y requires 0 <= y < delta.h =>
      seq(delta.w, x requires 0 <= x < delta.w => InsideBox(b, y, x) && edge.rows[y][x] && delta.rows[y][x])))
  }

  /** Their count is the number of places in the box where the edge band and the difference are both set. */
  lemma ActiveCellsCount(edge: Mask, delta: Mask, b: Box)
    requires edge.h == delta.h && edge.w == delta.w
    ensures CountRows(ActiveCells(edge, delta, b).rows) ==
      |set y, x | 0 <= y < delta.h && 0 <= x < delta.w && b.0 <= y < b.2 && b.1 <= x < b.3
                  && edge.rows[y][x] && delta.rows[y][x] :: (y, x)|
  {
    CountIsSize(ActiveCells(edge, delta, b).rows);
    assert TrueCells(ActiveCells(edge, delta, b).rows) ==
      set y, x | 0 <= y < delta.h && 0 <= x < delta.w && b.0 <= y < b.2 && b.1 <= x < b.3
                 && edge.rows[y][x] && delta.rows[y][x] :: (y, x);
  }

  /** In how many differences enough cells of the box were active. */
  ghost function ActiveSteps(edge: Mask, deltas: seq<Mask>, b: Box, enough: int): nat
    requires Shaped(deltas, edge.h, edge.w)
  {
    if deltas == [] then 0 else
      var n := |deltas| - 1;
      var active := CountRows(ActiveCells(edge, deltas[n], b).rows) >= enough;
      ActiveSteps(edge, deltas[..n], b, enough) + (if active then 1 else 0)
  }

  method CountActiveSteps(edge: Mask, deltas: seq<Mask>, b: Box, enough: int) returns (n: nat)
    requires Shaped(deltas, edge.h, edge.w)
    ensures n == ActiveSteps(edge, deltas, b, enough)
  {
    n := 0;
    for i := 0 to |deltas|
      invariant n == ActiveSteps(edge, deltas[..i], b, enough)
    {
      assert deltas[..i + 1][..i] == deltas[..i];
      if CountRows(ActiveCells(edge, deltas[i], b).rows) >= enough { n := n + 1; }
    }
    assert deltas[..|deltas|] == deltas;
  }

  /** The box changes often enough to be part of the HUD. */
  ghost predicate IsActive(cfg: Config, edge: Mask, deltas: seq<Mask>, b: Box)
    requires Shaped(deltas, edge.h, edge.w)
  {
    ActiveSteps(edge, deltas, b, Max(1, cfg.minChangedPerStep)) as real / Max(1, |deltas|) as real >= cfg.changeRate
  }

  /** The boxes that are active, in their order. */
  ghost function ActiveOnly(cfg: Config, edge: Mask, deltas: seq<Mask>, boxes: seq<Box>): (r: seq<Box>)
    requires Shaped(deltas, edge.h, edge.w)
    ensures forall b :: b in r <==> b in boxes && IsActive(cfg, edge, deltas, b)
  {
    if boxes == [] then [] else
      var front, last := boxes[..|boxes| - 1], boxes[|boxes| - 1];
      assert boxes == front + [last];
      ActiveOnly(cfg, edge, deltas, front) + if IsActive(cfg, edge, deltas, last) then [last] else []
  }

  method KeepActive(cfg: Config, edge: Mask, deltas: seq<Mask>, boxes: seq<Box>) returns (kept: seq<Box>)
    requires Shaped(deltas, edge.h, edge.w)
    ensures kept == ActiveOnly(cfg, edge, deltas, boxes)
  {
    kept := [];
    for i := 0 to |boxes|
      invariant kept == ActiveOnly(cfg, edge, deltas, boxes[..i])
    {
      assert boxes[..i + 1][..i] == boxes[..i];
      var steps := CountActiveSteps(edge, deltas, boxes[i], Max(1, cfg.minChangedPerStep));
      if steps as real / Max(1, |deltas|) as real >= cfg.changeRate { kept := kept + [boxes[i]]; }
    }
    assert boxes[..|boxes|] == boxes;
  }

  // ---------------------------------------------------------------- one game's probe

  /** What finalize reports. */
  datatype Spec = Spec(boxes: seq<Box>, rle: Encoded, area: nat, window: nat, steps: nat)

  predicate InSomeBox(boxes: seq<Box>, y: int, x: int) {
    exists i :: 0 <= i < |boxes| && InsideBox(boxes[i], y, x)
  }

  function UnionMask(h: nat, w: nat, boxes: seq<Box>): Mask {
    RawMask(h, w, seq(h, y => seq(w, x => InSomeBox(boxes, y, x))))
  }

  /** A cell at the edge that some difference in the window sets. */
  ghost predicate InSupport(cfg: Config, deltas: seq<Mask>, h: nat, w: nat, y: int, x: int) {
    EdgeCell(h, w, cfg.edgeMargin, y, x) && CountAt(deltas, y, x) >= 1
  }

  ghost function Support(cfg: Config, deltas: seq<Mask>, h: nat, w: nat): (m: Mask)
    ensures m.h == h && m.w == w
  {
    RawMask(h, w, seq(h, y => seq(w, x => InSupport(cfg, deltas, h, w, y, x))))
  }

  /** The boxes of the large enough components of the support that are active. */
  ghost predicate IsHudBox(cfg: Config, deltas: seq<Mask>, support: Mask, b: Box)
    requires Shaped(deltas, support.h, support.w)
  {
    && (exists lead ::
         Reported(AsGrid(support), 4, {1}, Max(1, cfg.minComponentArea), lead) && IsBoxOf(AsGrid(support), b, lead))
    && IsActive(cfg, EdgeBandMask(support.h, support.w, cfg.edgeMargin), deltas, b)
  }

  lemma CandidatesAreBoxes(cfg: Config, deltas: seq<Mask>, support: Mask, boxes: seq<Box>, kept: seq<Box>)
    requires Shaped(deltas, support.h, support.w)
    requires BoxesOf(AsGrid(support), boxes,
                     Leaders(AsGrid(support), 4, {1}, Max(1, cfg.minComponentArea), support.h, 0))
    requires forall b :: b in kept <==>
      b in boxes && IsActive(cfg, EdgeBandMask(support.h, support.w, cfg.edgeMargin), deltas, b)
    ensures forall b :: b in kept ==> IsHudBox(cfg, deltas, support, b)
    ensures forall b :: IsHudBox(cfg, deltas, support, b) ==> b in kept
  {
    var g, minArea := AsGrid(support), Max(1, cfg.minComponentArea);
    var leaders := Leaders(g, 4, {1}, minArea, g.h, 0);
    LeadersExact(g, 4, {1}, minArea, g.h, 0);
    forall b | b in kept ensures IsHudBox(cfg, deltas, support, b) {
      var i :| 0 <= i < |boxes| && boxes[i] == b;
      assert leaders[i] in leaders;
    }
    forall b | IsHudBox(cfg, deltas, support, b) ensures b in kept {
      var lead :| Reported(g, 4, {1}, minArea, lead) && IsBoxOf(g, b, lead);
      assert lead in leaders;
      var i :| 0 <= i < |leaders| && leaders[i] == lead;
      TightBoxIsUnique((b.0, b.1, b.2 - 1, b.3 - 1), (boxes[i].0, boxes[i].1, boxes[i].2 - 1, boxes[i].3 - 1),
                       Region(g, 4, lead));
      assert b in boxes;
    }
  }

  lemma TightBoxIsUnique(a: BBox, b: BBox, s: set<Cell>)
    requires TightBox(a, s) && TightBox(b, s)
    ensures a == b
  {
  }

  /** What a finalized probe says about its window and the `steps` differences it accepted. */
  ghost predicate IsReport(cfg: Config, deltas: seq<Mask>, h: nat, w: nat, steps: nat, spec: Option<Spec>)
    requires Shaped(deltas, h, w)
  {
    var support := Support(cfg, deltas, h, w);
    && (spec.None? <==> |deltas| < Max(2, cfg.minSteps) || forall b :: !IsHudBox(cfg, deltas, support, b))
    && (spec.Some? ==> DescribesHud(cfg, deltas, support, spec.value) && spec.value.steps == steps)
  }

  /** The boxes are exactly the HUD boxes, in the order of the components they come from. */
  ghost predicate HudBoxes(cfg: Config, deltas: seq<Mask>, support: Mask, kept: seq<Box>)
    requires Shaped(deltas, support.h, support.w)
  {
    var g, edge := AsGrid(support), EdgeBandMask(support.h, support.w, cfg.edgeMargin);
    && (forall b :: b in kept <==> IsHudBox(cfg, deltas, support, b))
    && exists boxes :: BoxesOf(g, boxes, Leaders(g, 4, {1}, Max(1, cfg.minComponentArea), support.h, 0))
         && kept == ActiveOnly(cfg, edge, deltas, boxes)
  }

  /** The boxes are the HUD boxes, the mask is their union, and its runs decode to it. */
  ghost predicate DescribesHud(cfg: Config, deltas: seq<Mask>, support: Mask, spec: Spec)
    requires Shaped(deltas, support.h, support.w)
  {
    var mask := UnionMask(support.h, support.w, spec.boxes);
    && HudBoxes(cfg, deltas, support, spec.boxes)
    && Canonical(spec.rle.runs, support.h * support.w) && Decode(spec.rle) == mask
    && spec.area == CountRows(mask.rows) == SumLengths(spec.rle.runs) && spec.window == |deltas|
  }

  /** The mask of a report is set at every cell of the regions behind its boxes, and only inside the boxes. */
  lemma MaskHoldsRegions(cfg: Config, deltas: seq<Mask>, support: Mask, spec: Spec, c: Cell)
    requires Shaped(deltas, support.h, support.w) && DescribesHud(cfg, deltas, support, spec)
    requires In(AsGrid(support), c)
    ensures (exists b, lead :: b in spec.boxes && IsBoxOf(AsGrid(support), b, lead)
               && c in Region(AsGrid(support), 4, lead)) ==> Decode(spec.rle).rows[c.0][c.1]
    ensures Decode(spec.rle).rows[c.0][c.1] <==>
      exists b :: b in spec.boxes && InBox((b.0, b.1, b.2 - 1, b.3 - 1), c)
  {
    hide HudBoxes, Canonical, Decode;
    if InSomeBox(spec.boxes, c.0, c.1) {
      var i :| 0 <= i < |spec.boxes| && InsideBox(spec.boxes[i], c.0, c.1);
      var b := spec.boxes[i];
      assert b in spec.boxes && InBox((b.0, b.1, b.2 - 1, b.3 - 1), c);
    }
    forall b | b in spec.boxes && InBox((b.0, b.1, b.2 - 1, b.3 - 1), c) ensures InSomeBox(spec.boxes, c.0, c.1) {
      var i :| 0 <= i < |spec.boxes| && spec.boxes[i] == b;
      assert InsideBox(spec.boxes[i], c.0, c.1);
    }
    forall b, lead | b in spec.boxes && IsBoxOf(AsGrid(support), b, lead) && c in Region(AsGrid(support), 4, lead)
      ensures InBox((b.0, b.1, b.2 - 1, b.3 - 1), c)
    {
    }
  }

  lemma RateReachesOne(count: int, n: int)
    requires n >= 1
    ensures count as real / n as real >= 1.0 / n as real <==> count >= 1
  {
    var rate, one := count as real / n as real, 1.0 / n as real;
    assert rate * n as real == count as real && one * n as real == 1.0;
  }

  method FindHudBoxes(cfg: Config, deltas: seq<Mask>, support: Mask) returns (kept: seq<Box>)
    requires Shaped(deltas, support.h, support.w)
    ensures HudBoxes(cfg, deltas, support, kept)
    ensures kept == [] <==> forall b :: !IsHudBox(cfg, deltas, support, b)
  {
    var boxes := Candidates(support, Max(1, cfg.minComponentArea));
    kept := KeepActive(cfg, EdgeBandMask(support.h, support.w, cfg.edgeMargin), deltas, boxes);
    CandidatesAreBoxes(cfg, deltas, support, boxes, kept);
    assert kept != [] ==> kept[0] in kept;
  }

  class GameProbe {
    const cfg: Config
    const window: nat
    var stepsSeen: nat
    var deltas: seq<Mask>
    var counts: array2?<int>
    var finalized: bool
    var spec: Option<Spec>

    /** Every difference accepted since this state began. */
    ghost var accepted: seq<Mask>

    /** The counts tally the window, the window is the tail of what was accepted. */
    ghost predicate Valid()
      reads this, counts
    {
      && window == Max(2, cfg.detectWindow)
      && (counts == null ==> deltas == [] && accepted == [] && !finalized)
      && (counts != null ==> Shaped(deltas, counts.Length0, counts.Length1) && Tallies(counts, deltas))
      && |deltas| <= window && deltas == Tail(accepted, window) && stepsSeen == |accepted|
      && (counts != null && finalized ==> IsReport(cfg, deltas, counts.Length0, counts.Length1, |accepted|, spec))
    }

    constructor (cfg: Config)
      ensures Valid() && this.cfg == cfg && counts == null
    {
      this.cfg, window := cfg, Max(2, cfg.detectWindow);
      stepsSeen, deltas, counts, finalized, spec := 0, [], null, false, None;
      accepted := [];
    }

    /** The difference of two frames; frames of unequal shape count as unchanged. */
    static function Delta(prev: Grid, curr: Grid): (d: Mask)
      ensures d.h == curr.h && d.w == curr.w
    {
      if SameShape(prev, curr) then Changed(prev, curr) else Changed(curr, curr)
    }

    /** Whether the next difference starts a new state: the first one, or one of another shape. */
    predicate Restarts(d: Mask)
      reads this, counts
    {
      counts == null || counts.Length0 != d.h || counts.Length1 != d.w
    }

    lemma WindowIsSet()
      requires Valid()
      ensures window == Max(2, cfg.detectWindow)
    {
    }

    method Observe(prev: Grid, curr: Grid)
      requires Valid()
      modifies this, counts
      ensures Valid() && counts != null && (counts == old(counts) || fresh(counts))
      ensures counts.Length0 == curr.h && counts.Length1 == curr.w
      ensures old(Restarts(Delta(prev, curr))) ==> accepted == [Delta(prev, curr)] && !finalized
      ensures !old(Restarts(Delta(prev, curr))) && !old(finalized) ==>
        accepted == old(accepted) + [Delta(prev, curr)] && !finalized
      ensures !old(Restarts(Delta(prev, curr))) && old(finalized) ==>
        accepted == old(accepted) && deltas == old(deltas) && finalized && spec == old(spec)
    {
      hide GameProbe.Valid, ReadyToAppend, Delta;
      WindowIsSet();
      var delta := Delta(prev, curr);
      if counts == null || counts.Length0 != delta.h || counts.Length1 != delta.w {
        Restart(delta.h, delta.w);
      }
      if finalized { return; }
      if |deltas| >= window { DropOldest(); }
      Append(delta);
    }

    method Restart(h: nat, w: nat)
      requires window == Max(2, cfg.detectWindow)
      modifies this
      ensures Valid() && counts != null && fresh(counts) && counts.Length0 == h && counts.Length1 == w
      ensures accepted == [] && !finalized
    {
      stepsSeen, deltas, finalized, spec := 0, [], false, None;
      counts := new int[h, w]((y, x) => 0);
      accepted := [];
    }

    /** Between dropping and appending the window is one short of the tail. */
    ghost predicate ReadyToAppend()
      reads this, counts
    {
      && window == Max(2, cfg.detectWindow) && counts != null && !finalized
      && Shaped(deltas, counts.Length0, counts.Length1) && Tallies(counts, deltas)
      && |deltas| < window && deltas == Tail(accepted, window - 1) && stepsSeen == |accepted|
    }

    method DropOldest()
      requires Valid() && counts != null && !finalized && |deltas| >= window
      modifies this`deltas, counts
      ensures ReadyToAppend()
    {
      var oldest := deltas[0];
      ghost var was := deltas;
      deltas := deltas[1..];
      AddDelta(counts, oldest, -1);
      assert was == Tail(accepted, window);
    }

    method Append(delta: Mask)
      requires counts != null && counts.Length0 == delta.h && counts.Length1 == delta.w
      requires ReadyToAppend() || (Valid() && !finalized && |deltas| < window)
      modifies this`deltas, this`stepsSeen, this`accepted, counts
      ensures Valid() && accepted == old(accepted) + [delta]
    {
      hide IsReport, CountAt;
      forall y, x { CountAtAppend(deltas, delta, y, x); }
      deltas := deltas + [delta];
      AddDelta(counts, delta, 1);
      stepsSeen := stepsSeen + 1;
      accepted := accepted + [delta];
    }

    /** The cells whose rate reaches one change per window, at the edge. */
    method SupportMask() returns (support: Mask)
      requires Valid() && counts != null && deltas != []
      ensures support == Support(cfg, deltas, counts.Length0, counts.Length1)
    {
      var h, w := counts.Length0, counts.Length1;
      var edge := EdgeBandMask(h, w, cfg.edgeMargin);
      support := Blank(h, w);
      for y := 0 to h
        invariant support.h == h && support.w == w
        invariant forall j, k :: 0 <= j < y && 0 <= k < w ==>
          (support.rows[j][k] <==> InSupport(cfg, deltas, h, w, j, k))
      {
        var row := RateRow(edge, y);
        support := RawMask(h, w, support.rows[y := row]);
      }
      forall y | 0 <= y < h ensures support.rows[y] == Support(cfg, deltas, h, w).rows[y] {
        assert forall x :: 0 <= x < w ==> support.rows[y][x] == Support(cfg, deltas, h, w).rows[y][x];
      }
    }

    method RateRow(edge: Mask, y: nat) returns (row: seq<bool>)
      requires Valid() && counts != null && deltas != [] && y < counts.Length0
      requires edge == EdgeBandMask(counts.Length0, counts.Length1, cfg.edgeMargin)
      ensures |row| == counts.Length1
      ensures forall x :: 0 <= x < counts.Length1 ==>
        (row[x] <==> InSupport(cfg, deltas, counts.Length0, counts.Length1, y, x))
    {
      row := [];
      var n := Max(1, |deltas|);
      for x := 0 to counts.Length1
        invariant |row| == x
        invariant forall k :: 0 <= k < x ==>
          (row[k] <==> InSupport(cfg, deltas, counts.Length0, counts.Length1, y, k))
      {
        var count := if edge.rows[y][x] then counts[y, x] else 0;
        RateReachesOne(count, n);
        row := row + [count as real / n as real >= 1.0 / n as real];
      }
    }

    /** Reports once; later calls return the same until the next frame of another shape. */
    method Finalize() returns (r: Option<Spec>)
      requires Valid()
      modifies this`finalized, this`spec
      ensures Valid() && (counts == null ==> r.None?)
      ensures counts != null ==>
        finalized && r == spec && IsReport(cfg, deltas, counts.Length0, counts.Length1, |accepted|, r)
      ensures old(finalized) ==> spec == old(spec)
    {
      if counts == null { return None; }
      if finalized { return spec; }
      if |deltas| < Max(2, cfg.minSteps) {
        finalized, spec := true, None;
        return None;
      }
      var support := SupportMask();
      var kept := FindHudBoxes(cfg, deltas, support);
      finalized, spec := true, None;
      if kept != [] {
        var mask := UnionMask(support.h, support.w, kept);
        var rle := MaskToRle(mask);
        spec := Some(Spec(kept, rle, CountRows(mask.rows), |deltas|, stepsSeen));
      }
      return spec;
    }
  }
}
