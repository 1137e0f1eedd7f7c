/**
 The UI progress bar detector and the change counts it filters (transition_event_compiler.py).
 */
module UiBar {
  import opened Common
  import opened Cells
  import opened Masks
  import opened Sorting

  datatype Config = Config(
    minRowDiffFrac: real, minRowDiffAbs: int, maxBandHeight: int, minTotalDiffFrac: real,
    minRunFrac: real, minRunAbs: int, padCols: int)

  // ---------------------------------------------------------------- runs inside a row

  /** `n` neighbouring true cells. */
  ghost predicate HasRun(row: seq<bool>, n: int) {
    exists s :: RunAt(row, s, n)
  }

  ghost predicate RunAt(row: seq<bool>, s: int, n: int) {
    0 <= s && s + n <= |row| && forall i :: s <= i < s + n ==> 0 <= i < |row| && row[i]
  }

  /** The columns of the true cells, in increasing order. */
  method Where(row: seq<bool>) returns (xs: seq<nat>)
    ensures forall i, j :: 0 <= i < j < |xs| ==> xs[i] < xs[j]
    ensures forall i :: 0 <= i < |xs| ==> xs[i] < |row| && row[xs[i]]
    ensures forall x :: 0 <= x < |row| && row[x] ==> x in xs
  {
    xs := [];
    for x := 0 to |row|
      invariant forall i, j :: 0 <= i < j < |xs| ==> xs[i] < xs[j]
      invariant forall i :: 0 <= i < |xs| ==> xs[i] < x && row[xs[i]]
      invariant forall k :: 0 <= k < x && row[k] ==> k in xs
    {
      if row[x] { xs := xs + [x]; }
    }
  }

  /** `xs[i - cur .. i]` are neighbours. */
  ghost predicate Neighbouring(xs: seq<nat>, i: int, cur: int) {
    1 <= cur <= i <= |xs| && forall k :: i - cur <= k < i ==> xs[k] == xs[i - 1] - (i - 1 - k)
  }

  predicate Below(a: nat, b: nat) { a < b }

  /** numpy.sort. */
  function Ascending(xs: seq<nat>): seq<nat> {
    SortBy(xs, Below)
  }

  /** The longest stretch of neighbours in the sorted list. */
  method LargestContiguousRun(columns: seq<nat>) returns (best: nat)
    ensures best == 0 <==> columns == []
    ensures best > 0 ==> exists i :: Neighbouring(Ascending(columns), i, best)
    ensures forall i, n :: Neighbouring(Ascending(columns), i, n) ==> n <= best
  {
    AscendingSize(columns);
    best := LongestStretch(Ascending(columns));
  }

  lemma AscendingSize(xs: seq<nat>)
    ensures Ascending(xs) == [] <==> xs == []
  {
    SortLaws(xs, Below);
    if xs != [] { assert xs[0] in multiset(xs); }
  }

  method LongestStretch(xs: seq<nat>) returns (best: nat)
    ensures best == 0 <==> xs == []
    ensures best > 0 ==> exists i :: Neighbouring(xs, i, best)
    ensures forall i, n :: Neighbouring(xs, i, n) ==> n <= best
  {
    if xs == [] { return 0; }
    best := 1;
    var cur := 1;
    ghost var at := 1;
    var i := 1;
    FirstStretch(xs);
    hide Neighbouring;
    while i < |xs|
      invariant 1 <= i <= |xs|
      invariant Neighbouring(xs, i, cur)
      invariant forall n :: Neighbouring(xs, i, n) ==> n <= cur
      invariant Neighbouring(xs, at, best)
      invariant forall j, n :: Neighbouring(xs, j, n) && j < i ==> n <= Max(best, cur)
    {
      StretchGrows(xs, i, i + 1, cur);
      if xs[i] == xs[i - 1] + 1 {
        cur := cur + 1;
      } else {
        if cur > best { best, at := cur, i; }
        cur := 1;
      }
      i := i + 1;
    }
    if cur > best { best, at := cur, i; }
    StretchEndsInside(xs);
  }

  lemma FirstStretch(xs: seq<nat>)
    requires xs != []
    ensures Neighbouring(xs, 1, 1) && forall i, n :: Neighbouring(xs, i, n) && i <= 1 ==> n <= 1
  {
  }

  lemma StretchEndsInside(xs: seq<nat>)
    ensures forall i, n :: Neighbouring(xs, i, n) ==> i <= |xs|
  {
  }

  lemma StretchGrows(xs: seq<nat>, i: nat, next: nat, cur: nat)
    requires 1 <= i < |xs| && next == i + 1 && Neighbouring(xs, i, cur)
    requires forall n :: Neighbouring(xs, i, n) ==> n <= cur
    ensures xs[i] == xs[i - 1] + 1 ==>
      Neighbouring(xs, next, cur + 1) && forall n :: Neighbouring(xs, next, n) ==> n <= cur + 1
    ensures xs[i] != xs[i - 1] + 1 ==> Neighbouring(xs, next, 1) && forall n :: Neighbouring(xs, next, n) ==> n <= 1
  {
    forall n | Neighbouring(xs, next, n) && n >= 2 ensures xs[i] == xs[i - 1] + 1 && n <= cur + 1 {
      assert xs[i - 1] + 1 == xs[i];
      assert Neighbouring(xs, i, n - 1);
    }
  }

  /** Over the columns of a row, the longest stretch is the longest run of true cells. */
  method LargestRun(row: seq<bool>) returns (best: nat)
    ensures forall n: nat :: n <= best <==> HasRun(row, n)
  {
    var xs := Where(row);
    best := LargestContiguousRun(xs);
    SortOfOrdered(xs, Below);
    forall n: nat ensures n <= best <==> HasRun(row, n) {
      if n <= best { StretchIsRun(row, xs, best, n); }
      if HasRun(row, n) && n > 0 { RunIsStretch(row, xs, n); }
    }
  }

  lemma StretchIsRun(row: seq<bool>, xs: seq<nat>, best: nat, n: nat)
    requires forall i :: 0 <= i < |xs| ==> xs[i] < |row| && row[xs[i]]
    requires best > 0 ==> exists i :: Neighbouring(xs, i, best)
    requires n <= best
    ensures HasRun(row, n)
  {
    if n == 0 {
      assert RunAt(row, 0, 0);
    } else {
      var i :| Neighbouring(xs, i, best);
      var s := xs[i - best];
      forall k | s <= k < s + n ensures 0 <= k < |row| && row[k] {
        assert xs[i - best + (k - s)] == k;
      }
      assert xs[i - best + (n - 1)] == s + n - 1;
      assert RunAt(row, s, n);
    }
  }

  /** In a sorted list the numbers x, x + 1, ... stand next to each other. */
  lemma {:induction false} SideBySide(xs: seq<nat>, i: nat, n: nat)
    requires forall i, j :: 0 <= i < j < |xs| ==> xs[i] < xs[j]
    requires i < |xs| && n > 0 && forall x: nat :: xs[i] <= x < xs[i] + n ==> x in xs
    ensures i + n <= |xs| && forall j :: i <= j < i + n ==> xs[j] == xs[i] + (j - i)
  {
    if n > 1 {
      SideBySide(xs, i, n - 1);
      var x := xs[i] + (n - 1);
      assert x in xs && xs[i + n - 2] == x - 1;
      var m :| 0 <= m < |xs| && xs[m] == x;
      assert i + n - 2 < m;
      assert xs[i + n - 2] < xs[i + n - 1] <= xs[m];
    }
  }

  lemma RunIsStretch(row: seq<bool>, xs: seq<nat>, n: nat)
    requires forall i, j :: 0 <= i < j < |xs| ==> xs[i] < xs[j]
    requires forall i :: 0 <= i < |xs| ==> xs[i] < |row| && row[xs[i]]
    requires forall x :: 0 <= x < |row| && row[x] ==> x in xs
    requires n > 0 && HasRun(row, n)
    ensures exists i :: Neighbouring(xs, i, n)
  {
    var s :| RunAt(row, s, n);
    assert row[s];
    var i :| 0 <= i < |xs| && xs[i] == s;
    SideBySide(xs, i, n);
    assert Neighbouring(xs, i + n, n);
  }

  // ---------------------------------------------------------------- the best band

  function RowCounts(diff: Mask): (counts: seq<nat>)
    ensures |counts| == diff.h
  {
    seq(diff.h, y requires 0 <= y < diff.h => CountRow(diff.rows[y]))
  }

  /** Rows `top` up to `bottom` (exclusive). */
  datatype Band = Band(top: nat, bottom: nat)

  ghost predicate IsBand(counts: seq<nat>, threshold: int, maxHeight: int, b: Band) {
    && b.top < b.bottom <= |counts| && b.bottom - b.top <= maxHeight
    && forall y :: b.top <= y < b.bottom ==> counts[y] >= threshold
  }

  function Score(counts: seq<nat>, b: Band): nat
    requires b.bottom <= |counts|
    decreases b.bottom
  {
    if b.top < b.bottom then Score(counts, Band(b.top, b.bottom - 1)) + counts[b.bottom - 1] else 0
  }

  /** Higher score first, then the topmost, then the shortest. */
  predicate Better(counts: seq<nat>, a: Band, b: Band)
    requires a.bottom <= |counts| && b.bottom <= |counts|
  {
    var s, t := Score(counts, a), Score(counts, b);
    s > t || (s == t && (a.top < b.top || (a.top == b.top && a.bottom - a.top < b.bottom - b.top)))
  }

  /** The bands the two loops have tried before top row `y` and height `bh`. */
  predicate Tried(b: Band, y: int, bh: int) {
    b.top < y || (b.top == y && b.bottom - b.top < bh)
  }

  ghost predicate BestOfTried(counts: seq<nat>, threshold: int, maxHeight: int, best: Option<Band>, y: int, bh: int) {
    && (best.Some? ==> IsBand(counts, threshold, maxHeight, best.value))
    && forall b :: IsBand(counts, threshold, maxHeight, b) && Tried(b, y, bh) ==>
         best.Some? && (b == best.value || Better(counts, best.value, b))
  }

  method AllCandidates(counts: seq<nat>, threshold: int, b: Band) returns (all: bool)
    requires b.top < b.bottom <= |counts|
    ensures all <==> forall y :: b.top <= y < b.bottom ==> counts[y] >= threshold
  {
    all := true;
    for y := b.top to b.bottom
      invariant all <==> forall k :: b.top <= k < y ==> counts[k] >= threshold
    {
      if counts[y] < threshold { all := false; }
    }
  }

  lemma TriedOneMore(counts: seq<nat>, threshold: int, maxHeight: int, before: Option<Band>, after: Option<Band>,
                     y: nat, bh: nat)
    requires BestOfTried(counts, threshold, maxHeight, before, y, bh)
    requires bh > 0 && y + bh <= |counts| && bh <= maxHeight
    requires var band := Band(y, y + bh);
      after == if IsBand(counts, threshold, maxHeight, band) && (before.None? || Better(counts, band, before.value))
               then Some(band) else before
    ensures BestOfTried(counts, threshold, maxHeight, after, y, bh + 1)
  {
    var band := Band(y, y + bh);
    forall b | IsBand(counts, threshold, maxHeight, b) && Tried(b, y, bh + 1)
      ensures after.Some? && (b == after.value || Better(counts, after.value, b))
    {
      if Tried(b, y, bh) {
        assert before.Some? && (b == before.value || Better(counts, before.value, b));
      } else {
        assert b == band;
      }
    }
  }

  /** The search over top rows and heights. */
  method BestBand(counts: seq<nat>, threshold: int, maxHeight: int) returns (best: Option<Band>)
    requires maxHeight >= 1
    ensures best.None? ==> forall b :: !IsBand(counts, threshold, maxHeight, b)
    ensures best.Some? ==> IsBand(counts, threshold, maxHeight, best.value)
    ensures best.Some? ==> forall b :: IsBand(counts, threshold, maxHeight, b) && b != best.value ==>
      Better(counts, best.value, b)
  {
    best := None;
    var y := 0;
    while y < |counts|
      invariant 0 <= y <= |counts|
      invariant BestOfTried(counts, threshold, maxHeight, best, y, 0)
    {
      var bh := 1;
      while bh <= maxHeight && y + bh <= |counts|
        invariant 1 <= bh <= maxHeight + 1
        invariant BestOfTried(counts, threshold, maxHeight, best, y, bh)
      {
        var band := Band(y, y + bh);
        var all := AllCandidates(counts, threshold, band);
        ghost var before := best;
        if all && (best.None? || Better(counts, band, best.value)) {
          best := Some(band);
        }
        TriedOneMore(counts, threshold, maxHeight, before, best, y, bh);
        bh := bh + 1;
      }
      y := y + 1;
    }
  }

  // ---------------------------------------------------------------- detection

  type Box = (nat, nat, nat, nat)

  function RowThreshold(cfg: Config, w: nat): int {
    Max((w as real * cfg.minRowDiffFrac).Floor, cfg.minRowDiffAbs)
  }

  function MinRun(cfg: Config, w: nat): int {
    Max((w as real * cfg.minRunFrac).Floor, cfg.minRunAbs)
  }

  /** A count reaches a threshold when it reaches the absolute one and misses the share by less than one cell. */
  lemma ThresholdLaws(cfg: Config, w: nat, n: int)
    ensures n >= RowThreshold(cfg, w) <==> n >= cfg.minRowDiffAbs && n as real > w as real * cfg.minRowDiffFrac - 1.0
    ensures n >= MinRun(cfg, w) <==> n >= cfg.minRunAbs && n as real > w as real * cfg.minRunFrac - 1.0
  {
    AtLeastFloor(w as real * cfg.minRowDiffFrac, n);
    AtLeastFloor(w as real * cfg.minRunFrac, n);
  }

  lemma AtLeastFloor(r: real, n: int)
    ensures n >= r.Floor <==> n as real > r - 1.0
  {
    var f := r.Floor;
    assert f as real <= r < f as real + 1.0;
    if n < f {
      assert n + 1 <= f && (n + 1) as real <= f as real;
    }
  }

  /** The band that beats every other one. */
  ghost predicate IsBest(counts: seq<nat>, threshold: int, maxHeight: int, b: Band) {
    && IsBand(counts, threshold, maxHeight, b)
    && forall other :: IsBand(counts, threshold, maxHeight, other) && other != b ==> Better(counts, b, other)
  }

  /** All changed cells of the band. */
  function BandCount(diff: Mask, b: Band): nat
    requires b.top <= b.bottom <= diff.h
  {
    CountRows(diff.rows[b.top..b.bottom])
  }

  /** The score of a band is the number of its changed cells. */
  lemma {:induction false} ScoreIsBandCount(diff: Mask, b: Band)
    requires b.top <= b.bottom <= diff.h
    ensures Score(RowCounts(diff), b) == BandCount(diff, b)
    decreases b.bottom
  {
    hide CountRow;
    if b.top < b.bottom {
      var shorter, rows := Band(b.top, b.bottom - 1), diff.rows[b.top..b.bottom];
      ScoreIsBandCount(diff, shorter);
      assert rows[..|rows| - 1] == diff.rows[b.top..b.bottom - 1];
    }
  }

  /** A best band has at least as many changes as any other; with as many it starts first, or is the shorter one. */
  lemma BestHasMost(diff: Mask, threshold: int, maxHeight: int, b: Band, other: Band)
    requires IsBest(RowCounts(diff), threshold, maxHeight, b) && IsBand(RowCounts(diff), threshold, maxHeight, other)
    ensures BandCount(diff, other) <= BandCount(diff, b)
    ensures BandCount(diff, other) == BandCount(diff, b) ==>
      b.top < other.top || (b.top == other.top && b.bottom <= other.bottom)
  {
    hide BandCount, Score;
    ScoreIsBandCount(diff, b);
    ScoreIsBandCount(diff, other);
  }

  /** The band holds the required share of all changes. */
  predicate LargeShare(diff: Mask, cfg: Config, b: Band)
    requires b.top <= b.bottom <= diff.h
  {
    var total := CountRows(diff.rows);
    total > 0 ==> BandCount(diff, b) as real / total as real >= cfg.minTotalDiffFrac
  }

  /** Whatever the total, the band's changes reach the share of it. */
  lemma LargeShareExactly(diff: Mask, cfg: Config, b: Band)
    requires b.top <= b.bottom <= diff.h
    ensures LargeShare(diff, cfg, b) <==>
      BandCount(diff, b) as real >= Portion(cfg.minTotalDiffFrac, CountRows(diff.rows))
  {
    var total, part := CountRows(diff.rows), BandCount(diff, b);
    assert diff.rows == diff.rows[..b.top] + diff.rows[b.top..b.bottom] + diff.rows[b.bottom..];
    CountRowsConcat(diff.rows[..b.top] + diff.rows[b.top..b.bottom], diff.rows[b.bottom..]);
    CountRowsConcat(diff.rows[..b.top], diff.rows[b.top..b.bottom]);
    if total > 0 { ShareReaches(part, total, cfg.minTotalDiffFrac); }
  }

  ghost function Portion(frac: real, total: nat): real {
    frac * total as real
  }

  lemma ShareReaches(part: nat, total: nat, frac: real)
    requires total > 0
    ensures part as real / total as real >= frac <==> part as real >= Portion(frac, total)
  {
    var t := total as real;
    var share := part as real / t;
    assert share * t == part as real;
    assert share >= frac ==> (share - frac) * t >= 0.0;
    assert share < frac ==> (frac - share) * t > 0.0;
  }

  ghost predicate LongRuns(diff: Mask, cfg: Config, b: Band)
    requires b.top <= b.bottom <= diff.h
  {
    forall y :: b.top <= y < b.bottom ==> MinRun(cfg, diff.w) <= 0 || HasRun(diff.rows[y], MinRun(cfg, diff.w))
  }

  /** A band is a progress bar when it is the best one, dominates the changes and every row has a long run. */
  ghost predicate IsBar(diff: Mask, cfg: Config, b: Band) {
    && b.top < b.bottom <= diff.h && diff.w > 0
    && IsBest(RowCounts(diff), RowThreshold(cfg, diff.w), Max(1, cfg.maxBandHeight), b)
    && LargeShare(diff, cfg, b) && LongRuns(diff, cfg, b)
  }

  lemma BestIsUnique(counts: seq<nat>, threshold: int, maxHeight: int, a: Band, b: Band)
    requires IsBest(counts, threshold, maxHeight, a) && IsBest(counts, threshold, maxHeight, b)
    ensures a == b
  {
  }

  /** The mask is the box: rows of the band, columns `x0` up to `x1`. */
  ghost predicate IsBox(m: Mask, box: Box) {
    && box.0 < box.2 <= m.h && box.1 <= box.3 <= m.w
    && forall y, x :: 0 <= y < m.h && 0 <= x < m.w ==> (m.rows[y][x] <==> box.0 <= y < box.2 && box.1 <= x < box.3)
  }

  /** Every changed cell of the band lies between the columns. */
  ghost predicate CoversBand(diff: Mask, b: Band, x0: int, x1: int) {
    forall y, x :: b.top <= y < b.bottom && y < diff.h && 0 <= x < diff.w && diff.rows[y][x] ==> x0 <= x < x1
  }

  /**
   The columns reach exactly `pad` columns past the first and the last changed one of the band, or
   to the end of the grid; they are the whole width when the band has no change.
   */
  ghost predicate Snug(diff: Mask, b: Band, x0: int, x1: int, pad: int) {
    && (forall x :: ChangedColumn(diff, b, x) && NoneWithin(diff, b, 0, x) ==> x0 == Max(0, x - pad))
    && (forall x :: ChangedColumn(diff, b, x) && NoneWithin(diff, b, x + 1, diff.w) ==> x1 == Min(diff.w, x + 1 + pad))
    && (NoneWithin(diff, b, 0, diff.w) ==> x0 == 0 && x1 == diff.w)
  }

  ghost predicate NoneWithin(diff: Mask, b: Band, lo: int, hi: int) {
    forall x :: lo <= x < hi ==> !ChangedColumn(diff, b, x)
  }

  ghost predicate ChangedColumn(diff: Mask, b: Band, x: int) {
    0 <= x < diff.w && exists y :: b.top <= y < b.bottom && y < diff.h && diff.rows[y][x]
  }

  function BoxMask(h: nat, w: nat, box: Box): Mask {
    RawMask(h, w, seq(h, y => seq(w, x => box.0 <= y < box.2 && box.1 <= x < box.3)))
  }

  lemma BoxMaskIsBox(h: nat, w: nat, box: Box)
    requires 0 <= box.0 < box.2 <= h && 0 <= box.1 <= box.3 <= w
    ensures var m := BoxMask(h, w, box); m.h == h && m.w == w && IsBox(m, box)
  {
  }

  /** Column bounds of the changed cells of a band; the whole width when it has none. */
  method Columns(diff: Mask, b: Band, padCols: int) returns (x0: nat, x1: nat)
    requires b.top < b.bottom <= diff.h
    ensures x0 <= x1 <= diff.w && CoversBand(diff, b, x0, x1)
    ensures Snug(diff, b, x0, x1, Max(0, padCols))
  {
    var least, greatest := diff.w, -1;
    for y := b.top to b.bottom
      invariant 0 <= least <= diff.w && -1 <= greatest < diff.w && (least == diff.w <==> greatest == -1)
      invariant greatest >= 0 ==> least <= greatest && ChangedColumn(diff, b, least) && ChangedColumn(diff, b, greatest)
      invariant forall j, x :: b.top <= j < y && 0 <= x < diff.w && diff.rows[j][x] ==> least <= x <= greatest
    {
      for x := 0 to diff.w
        invariant 0 <= least <= diff.w && -1 <= greatest < diff.w && (least == diff.w <==> greatest == -1)
        invariant greatest >= 0 ==>
          least <= greatest && ChangedColumn(diff, b, least) && ChangedColumn(diff, b, greatest)
        invariant forall j, k :: b.top <= j < y && 0 <= k < diff.w && diff.rows[j][k] ==> least <= k <= greatest
        invariant forall k :: 0 <= k < x && diff.rows[y][k] ==> least <= k <= greatest
      {
        if diff.rows[y][x] {
          assert ChangedColumn(diff, b, x);
          if x < least { least := x; }
          if x > greatest { greatest := x; }
        }
      }
    }
    var pad := Max(0, padCols);
    if greatest >= 0 {
      x0, x1 := Max(0, least - pad), Min(diff.w, greatest + 1 + pad);
    } else {
      x0, x1 := 0, diff.w;
    }
    assert forall x :: ChangedColumn(diff, b, x) ==> least <= x <= greatest;
  }

  method RunsAreLong(diff: Mask, cfg: Config, b: Band) returns (long: bool)
    requires b.top <= b.bottom <= diff.h
    ensures long <==> LongRuns(diff, cfg, b)
  {
    var minRun := MinRun(cfg, diff.w);
    for y := b.top to b.bottom
      invariant forall k :: b.top <= k < y ==> minRun <= 0 || HasRun(diff.rows[k], minRun)
    {
      var run := LargestRun(diff.rows[y]);
      if run < minRun { return false; }
    }
    return true;
  }

  /** No box unless the frames match and some band is a bar; then the mask is that band's box. */
  method DetectUiProgressBar(prev: Grid, next: Grid, cfg: Config) returns (mask: Mask, boxes: seq<Box>)
    ensures mask.h == next.h && mask.w == next.w
    ensures boxes == [] ==> mask == Blank(next.h, next.w)
    ensures boxes != [] <==> SameShape(prev, next) && exists b :: IsBar(Changed(prev, next), cfg, b)
    ensures boxes != [] ==> |boxes| == 1 && IsBox(mask, boxes[0])
    ensures boxes != [] ==> IsBar(Changed(prev, next), cfg, Band(boxes[0].0, boxes[0].2))
    ensures boxes != [] ==> CoversBand(Changed(prev, next), Band(boxes[0].0, boxes[0].2), boxes[0].1, boxes[0].3)
    ensures boxes != [] ==>
      Snug(Changed(prev, next), Band(boxes[0].0, boxes[0].2), boxes[0].1, boxes[0].3, Max(0, cfg.padCols))
  {
    hide CoversBand, Snug, LongRuns, LargeShare, RowCounts, Changed, RowThreshold, BoxMask, IsBox;
    mask, boxes := Blank(next.h, next.w), [];
    if !SameShape(prev, next) { return; }
    var diff := Changed(prev, next);
    if next.h == 0 || next.w == 0 { return; }
    var counts := RowCounts(diff);
    var threshold, maxHeight := RowThreshold(cfg, next.w), Max(1, cfg.maxBandHeight);
    var best := BestBand(counts, threshold, maxHeight);
    if best.None? { return; }
    var b := best.value;
    assert IsBest(counts, threshold, maxHeight, b);
    forall other | IsBar(diff, cfg, other) ensures other == b { BestIsUnique(counts, threshold, maxHeight, other, b); }
    if !LargeShare(diff, cfg, b) { return; }
    var long := RunsAreLong(diff, cfg, b);
    if !long { return; }
    var x0, x1 := Columns(diff, b, cfg.padCols);
    mask, boxes := BoxMask(next.h, next.w, (b.top, x0, b.bottom, x1)), [(b.top, x0, b.bottom, x1)];
    BoxMaskIsBox(next.h, next.w, (b.top, x0, b.bottom, x1));
    assert IsBar(diff, cfg, b);
  }

  // ---------------------------------------------------------------- what the mask filters out

  /** The changed cells the mask hides, and those it leaves. */
  function Hidden(diff: Mask, mask: Mask): (m: Mask)
    requires diff.h == mask.h && diff.w == mask.w
    ensures m.h == diff.h && m.w == diff.w
  {
    RawMask(diff.h, diff.w, seq(diff.h, y requires 0 <= y < diff.h =>
      seq(diff.w, x requires 0 <= x < diff.w => diff.rows[y][x] && mask.rows[y][x])))
  }

  function Kept(diff: Mask, mask: Mask): (m: Mask)
    requires diff.h == mask.h && diff.w == mask.w
    ensures m.h == diff.h && m.w == diff.w
  {
    RawMask(diff.h, diff.w, seq(diff.h, y requires 0 <= y < diff.h =>
      seq(diff.w, x requires 0 <= x < diff.w => diff.rows[y][x] && !mask.rows[y][x])))
  }

  lemma {:induction false} RowSplits(row: seq<bool>, hidden: seq<bool>, kept: seq<bool>)
    requires |row| == |hidden| == |kept|
    requires forall x :: 0 <= x < |row| ==> (row[x] <==> hidden[x] || kept[x]) && !(hidden[x] && kept[x])
    ensures CountRow(hidden) + CountRow(kept) == CountRow(row)
  {
    if row != [] {
      var n := |row| - 1;
      RowSplits(row[..n], hidden[..n], kept[..n]);
    }
  }

  lemma {:induction false} RowsSplit(rows: seq<seq<bool>>, hidden: seq<seq<bool>>, kept: seq<seq<bool>>)
    requires |rows| == |hidden| == |kept|
    requires forall y :: 0 <= y < |rows| ==> CountRow(hidden[y]) + CountRow(kept[y]) == CountRow(rows[y])
    ensures CountRows(hidden) + CountRows(kept) == CountRows(rows)
  {
    if rows != [] {
      var n := |rows| - 1;
      RowsSplit(rows[..n], hidden[..n], kept[..n]);
    }
  }

  /** Every changed cell is either hidden or kept. */
  lemma HiddenPlusKept(diff: Mask, mask: Mask)
    requires diff.h == mask.h && diff.w == mask.w
    ensures CountRows(Hidden(diff, mask).rows) + CountRows(Kept(diff, mask).rows) == CountRows(diff.rows)
  {
    var hidden, kept := Hidden(diff, mask), Kept(diff, mask);
    forall y | 0 <= y < diff.h ensures CountRow(hidden.rows[y]) + CountRow(kept.rows[y]) == CountRow(diff.rows[y]) {
      RowSplits(diff.rows[y], hidden.rows[y], kept.rows[y]);
    }
    RowsSplit(diff.rows, hidden.rows, kept.rows);
  }

  lemma {:induction false} NoneIsZero(row: seq<bool>)
    requires forall x :: 0 <= x < |row| ==> !row[x]
    ensures CountRow(row) == 0
  {
    if row != [] { NoneIsZero(row[..|row| - 1]); }
  }

  lemma {:induction false} ZeroRows(rows: seq<seq<bool>>)
    requires forall y :: 0 <= y < |rows| ==> CountRow(rows[y]) == 0
    ensures CountRows(rows) == 0
  {
    if rows != [] { ZeroRows(rows[..|rows| - 1]); }
  }

  lemma OnlyBandCounts(rows: seq<seq<bool>>, hidden: seq<seq<bool>>, b: Band)
    requires b.top <= b.bottom <= |rows| == |hidden|
    requires forall y :: 0 <= y < |rows| ==>
      if b.top <= y < b.bottom then hidden[y] == rows[y] else CountRow(hidden[y]) == 0
    ensures CountRows(hidden) == CountRows(rows[b.top..b.bottom])
  {
    hide CountRow, CountRows;
    var above, band, below := hidden[..b.top], hidden[b.top..b.bottom], hidden[b.bottom..];
    ZeroRows(above);
    ZeroRows(below);
    CountRowsConcat(above + band, below);
    CountRowsConcat(above, band);
    assert hidden == above + band + below && band == rows[b.top..b.bottom];
  }

  /** A box over a band that covers its changes hides exactly the band's changes. */
  lemma BoxHidesBand(diff: Mask, mask: Mask, box: Box)
    requires diff.h == mask.h && diff.w == mask.w
    requires IsBox(mask, box) && CoversBand(diff, Band(box.0, box.2), box.1, box.3)
    ensures CountRows(Hidden(diff, mask).rows) == BandCount(diff, Band(box.0, box.2))
  {
    var hidden, b := Hidden(diff, mask), Band(box.0, box.2);
    forall y | 0 <= y < diff.h
      ensures if b.top <= y < b.bottom then hidden.rows[y] == diff.rows[y] else CountRow(hidden.rows[y]) == 0
    {
      if b.top <= y < b.bottom {
        assert forall x :: 0 <= x < diff.w ==> hidden.rows[y][x] == diff.rows[y][x];
      } else {
        NoneIsZero(hidden.rows[y]);
      }
    }
    OnlyBandCounts(diff.rows, hidden.rows, b);
  }

  /** What is left of a total without the given share. */
  ghost function ShareLeft(frac: real, total: nat): real {
    (1.0 - frac) * total as real
  }

  /**
   When a bar is found, the filtered count is the raw count without the band's changes,
   and at most the share of it that the band leaves.
   */
  lemma BarBoundsFiltered(diff: Mask, cfg: Config, mask: Mask, box: Box)
    requires diff.h == mask.h && diff.w == mask.w && IsBox(mask, box)
    requires LargeShare(diff, cfg, Band(box.0, box.2)) && CoversBand(diff, Band(box.0, box.2), box.1, box.3)
    ensures CountRows(Kept(diff, mask).rows) == CountRows(diff.rows) - BandCount(diff, Band(box.0, box.2))
    ensures CountRows(Kept(diff, mask).rows) as real <= ShareLeft(cfg.minTotalDiffFrac, CountRows(diff.rows))
  {
    HiddenPlusKept(diff, mask);
    BoxHidesBand(diff, mask, box);
    var part := BandCount(diff, Band(box.0, box.2));
    ShareBounds(CountRows(diff.rows), part, CountRows(Kept(diff, mask).rows), cfg.minTotalDiffFrac);
  }

  lemma ShareBounds(total: nat, part: nat, rest: nat, frac: real)
    requires part + rest == total
    requires total > 0 ==> part as real / total as real >= frac
    ensures rest as real <= ShareLeft(frac, total)
  {
    if total > 0 {
      var t := total as real;
      var share := part as real / t;
      assert share * t == part as real;
      assert (share - frac) * t >= 0.0;
    }
  }

  // ---------------------------------------------------------------- the counts of a transition

  /** Which grids the counts cover: a used name with a grid before and after. */
  predicate Compared(prev: seq<Grid>, curr: seq<Grid>, used: set<string>, names: seq<string>, i: nat)
    requires i < |names|
  {
    names[i] in used && i < |prev| && i < |curr|
  }

  /** Only frames of equal shape are compared. */
  ghost predicate ShapesAgree(prev: seq<Grid>, curr: seq<Grid>, used: set<string>, names: seq<string>) {
    forall i: nat :: i < |names| && Compared(prev, curr, used, names, i) ==> SameShape(prev[i], curr[i])
  }

  /** All changed cells of the first `n` named grids. */
  ghost function RawCount(prev: seq<Grid>, curr: seq<Grid>, used: set<string>, names: seq<string>, n: nat): nat
    requires n <= |names|
    requires ShapesAgree(prev, curr, used, names)
  {
    if n == 0 then 0 else
      RawCount(prev, curr, used, names, n - 1) +
      (if names[n - 1] in used && n <= |prev| && n <= |curr| then CountRows(Changed(prev[n - 1], curr[n - 1]).rows)
       else 0)
  }

  /** The mask applies to the grid at `i`. */
  predicate Filtered(prev: seq<Grid>, curr: seq<Grid>, used: set<string>, names: seq<string>, primary: string,
                     mask: Mask, i: nat)
    requires i < |names|
  {
    Compared(prev, curr, used, names, i) && names[i] == primary && curr[i].h == mask.h && curr[i].w == mask.w
  }

  /** Those of them the mask hides: on grids with the primary name and the mask's shape. */
  ghost function HiddenCount(prev: seq<Grid>, curr: seq<Grid>, used: set<string>, names: seq<string>, n: nat,
                             primary: string, mask: Mask): nat
    requires n <= |names|
    requires ShapesAgree(prev, curr, used, names)
  {
    if n == 0 then 0 else
      HiddenCount(prev, curr, used, names, n - 1, primary, mask) +
      (if Filtered(prev, curr, used, names, primary, mask, n - 1)
       then CountRows(Hidden(Changed(prev[n - 1], curr[n - 1]), mask).rows) else 0)
  }

  /** The raw count takes every changed cell, the filtered one every changed cell the mask does not hide. */
  method GridDelta(prev: seq<Grid>, curr: seq<Grid>, used: set<string>, names: seq<string>, primary: string, mask: Mask)
    returns (raw: nat, filtered: nat)
    requires ShapesAgree(prev, curr, used, names)
    ensures raw == RawCount(prev, curr, used, names, |names|)
    ensures raw == filtered + HiddenCount(prev, curr, used, names, |names|, primary, mask)
  {
    hide CountRows, Changed, Hidden, Kept;
    raw, filtered := 0, 0;
    for i := 0 to |names|
      invariant raw == RawCount(prev, curr, used, names, i)
      invariant raw == filtered + HiddenCount(prev, curr, used, names, i, primary, mask)
    {
      if Compared(prev, curr, used, names, i) {
        var diff := Changed(prev[i], curr[i]);
        var changed := CountRows(diff.rows);
        raw := raw + changed;
        if names[i] == primary && diff.h == mask.h && diff.w == mask.w {
          HiddenPlusKept(diff, mask);
          filtered := filtered + CountRows(Kept(diff, mask).rows);
        } else {
          filtered := filtered + changed;
        }
      }
    }
  }

  // ---------------------------------------------------------------- detection and counts together

  /** When one grid only is filtered, the hidden cells are those the mask hides there. */
  lemma {:induction false} HiddenAtOne(prev: seq<Grid>, curr: seq<Grid>, used: set<string>, names: seq<string>, n: nat,
                                       primary: string, mask: Mask, p: nat)
    requires ShapesAgree(prev, curr, used, names) && n <= |names| && p < |names|
    requires Filtered(prev, curr, used, names, primary, mask, p)
    requires forall i: nat :: i < |names| && Filtered(prev, curr, used, names, primary, mask, i) ==> i == p
    ensures var hidden := CountRows(Hidden(Changed(prev[p], curr[p]), mask).rows);
      HiddenCount(prev, curr, used, names, n, primary, mask) == if p < n then hidden else 0
  {
    hide CountRows, Hidden, Changed;
    if n > 0 {
      HiddenAtOne(prev, curr, used, names, n - 1, primary, mask, p);
      assert Filtered(prev, curr, used, names, primary, mask, n - 1) <==> n - 1 == p;
    }
  }

  lemma {:induction false} RawHolds(prev: seq<Grid>, curr: seq<Grid>, used: set<string>, names: seq<string>,
                                    n: nat, p: nat)
    requires ShapesAgree(prev, curr, used, names) && p < n <= |names| && Compared(prev, curr, used, names, p)
    ensures RawCount(prev, curr, used, names, n) >= CountRows(Changed(prev[p], curr[p]).rows)
  {
    hide CountRows, Changed;
    if p < n - 1 { RawHolds(prev, curr, used, names, n - 1, p); }
  }

  lemma BlankHides(diff: Mask)
    ensures CountRows(Hidden(diff, Blank(diff.h, diff.w)).rows) == 0
  {
    var hidden := Hidden(diff, Blank(diff.h, diff.w));
    forall y | 0 <= y < diff.h ensures CountRow(hidden.rows[y]) == 0 { NoneIsZero(hidden.rows[y]); }
    ZeroRows(hidden.rows);
  }

  lemma {:induction false} BlankHidesNothing(prev: seq<Grid>, curr: seq<Grid>, used: set<string>, names: seq<string>,
                                             n: nat, primary: string, h: nat, w: nat)
    requires ShapesAgree(prev, curr, used, names) && n <= |names|
    ensures HiddenCount(prev, curr, used, names, n, primary, Blank(h, w)) == 0
  {
    hide CountRows, Hidden, Changed;
    if n > 0 {
      BlankHidesNothing(prev, curr, used, names, n - 1, primary, h, w);
      if Filtered(prev, curr, used, names, primary, Blank(h, w), n - 1) {
        BlankHides(Changed(prev[n - 1], curr[n - 1]));
      }
    }
  }

  /** The first place of a name, or the first place of all when it is missing. */
  method PrimaryIndex(names: seq<string>, primary: string) returns (p: nat)
    ensures primary in names ==> p < |names| && names[p] == primary && primary !in names[..p]
    ensures primary !in names ==> p == 0
  {
    for i := 0 to |names|
      invariant primary !in names[..i]
    {
      if names[i] == primary { return i; }
      assert names[..i + 1] == names[..i] + [names[i]];
    }
    assert names[..|names|] == names;
    return 0;
  }

  /** What a found bar does to the counts: exactly its band's changes are filtered, and the rest is bounded. */
  ghost predicate BarFiltered(prev: Grid, curr: Grid, cfg: Config, box: Box, raw: nat, filtered: nat)
    requires SameShape(prev, curr)
  {
    var diff := Changed(prev, curr);
    var here := CountRows(diff.rows);
    && box.0 <= box.2 <= diff.h && here <= raw
    && raw == filtered + BandCount(diff, Band(box.0, box.2))
    && filtered as real <= ShareLeft(cfg.minTotalDiffFrac, here) + (raw - here) as real
  }

  /** The grid at `p` is compared under the primary name, and no other one of that name has its shape. */
  ghost predicate OnlyPrimary(prev: seq<Grid>, curr: seq<Grid>, used: set<string>, names: seq<string>, primary: string,
                              p: nat)
  {
    && p < |names| && Compared(prev, curr, used, names, p) && names[p] == primary
    && forall i: nat :: i < |names| && i != p && Compared(prev, curr, used, names, i) && names[i] == primary ==>
         !SameShape(curr[i], curr[p])
  }

  lemma BarFilters(prev: seq<Grid>, curr: seq<Grid>, used: set<string>, names: seq<string>, primary: string, p: nat,
                   cfg: Config, mask: Mask, box: Box, raw: nat, filtered: nat)
    requires ShapesAgree(prev, curr, used, names) && p < |names|
    requires Filtered(prev, curr, used, names, primary, mask, p)
    requires forall i: nat :: i < |names| && Filtered(prev, curr, used, names, primary, mask, i) ==> i == p
    requires IsBox(mask, box)
    requires var diff, b := Changed(prev[p], curr[p]), Band(box.0, box.2);
      b.top <= b.bottom <= diff.h && LargeShare(diff, cfg, b) && CoversBand(diff, b, box.1, box.3)
    requires raw == RawCount(prev, curr, used, names, |names|)
    requires raw == filtered + HiddenCount(prev, curr, used, names, |names|, primary, mask)
    ensures BarFiltered(prev[p], curr[p], cfg, box, raw, filtered)
  {
    hide RawCount, HiddenCount, CountRows, Changed, Hidden, Kept, LargeShare, CoversBand, BandCount;
    var diff := Changed(prev[p], curr[p]);
    HiddenAtOne(prev, curr, used, names, |names|, primary, mask, p);
    RawHolds(prev, curr, used, names, |names|, p);
    BoxHidesBand(diff, mask, box);
    BarBoundsFiltered(diff, cfg, mask, box);
  }

  /**
   The detector's mask over the primary grid, and the counts with it. Without a bar nothing is
   filtered; with one, and one compared grid of the primary name and its shape, BarFiltered holds.
   */
  method DetectAndCount(prev: seq<Grid>, curr: seq<Grid>, used: set<string>, names: seq<string>, primary: string,
                        cfg: Config)
    returns (p: nat, boxes: seq<Box>, raw: nat, filtered: nat)
    requires ShapesAgree(prev, curr, used, names)
    ensures if primary in names then p < |names| && names[p] == primary && primary !in names[..p] else p == 0
    ensures raw == RawCount(prev, curr, used, names, |names|) >= filtered
    ensures boxes == [] ==> raw == filtered
    ensures boxes != [] ==> |boxes| == 1 && p < |prev| && p < |curr| && SameShape(prev[p], curr[p])
    ensures boxes != [] && OnlyPrimary(prev, curr, used, names, primary, p) ==>
      BarFiltered(prev[p], curr[p], cfg, boxes[0], raw, filtered)
  {
    p := PrimaryIndex(names, primary);
    var mask := if curr != [] then Blank(curr[0].h, curr[0].w)
                else if prev != [] then Blank(prev[0].h, prev[0].w) else Blank(0, 0);
    boxes := [];
    if p < |prev| && p < |curr| { mask, boxes := DetectUiProgressBar(prev[p], curr[p], cfg); }
    raw, filtered := GridDelta(prev, curr, used, names, primary, mask);
    if boxes == [] {
      BlankHidesNothing(prev, curr, used, names, |names|, primary, mask.h, mask.w);
    } else if OnlyPrimary(prev, curr, used, names, primary, p) {
      BarFilters(prev, curr, used, names, primary, p, cfg, mask, boxes[0], raw, filtered);
    }
  }
}
