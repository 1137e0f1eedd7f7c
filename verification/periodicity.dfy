/**
 Periods along an axis of a grid (grid_utils.py): which divisors of the size repeat, and why
 the least of them divides all the others.
 */
module Periodicity {
  import opened Common
  import opened Cells

  /** Row `i` for axis 0, column `i` for axis 1. */
  function Line(g: Grid, axis: int, i: nat): seq<int>
    requires i < Size(g, axis)
  {
    if axis == 0 then g.rows[i] else seq(g.h, y requires 0 <= y < g.h => g.rows[y][i])
  }

  function Size(g: Grid, axis: int): nat {
    if axis == 0 then g.h else g.w
  }

  /** Every line equals the one at its index modulo `p`. */
  ghost predicate Repeats(g: Grid, axis: int, p: nat)
    requires p > 0
  {
    forall i: nat :: p <= i < Size(g, axis) ==> i % p < Size(g, axis) && Line(g, axis, i) == Line(g, axis, i % p)
  }

  ghost predicate IsPeriod(g: Grid, axis: int, p: nat) {
    p > 0 && Size(g, axis) % p == 0 && Repeats(g, axis, p)
  }

  /** The loop over candidate periods, with its early exit. */
  method AxisPeriodicity(g: Grid, axis: int, maxPeriod: int) returns (periods: seq<nat>)
    ensures forall p: nat :: p in periods <==> IsPeriod(g, axis, p) && p <= Min(maxPeriod, Size(g, axis))
    ensures forall i, j :: 0 <= i < j < |periods| ==> periods[i] < periods[j]
  {
    var size := Size(g, axis);
    var maxP := Min(maxPeriod, size);
    periods := [];
    var p := 1;
    while p <= maxP
      invariant 1 <= p && (p <= maxP + 1 || p == 1)
      invariant forall q: nat :: q in periods <==> q < p && IsPeriod(g, axis, q) && q <= maxP
      invariant forall i, j :: 0 <= i < j < |periods| ==> periods[i] < periods[j]
    {
      if size % p == 0 {
        var ok := true;
        var i := p;
        while i < size
          invariant p <= i <= size
          invariant ok && forall j: nat :: p <= j < i ==> Line(g, axis, j) == Line(g, axis, j % p)
        {
          if Line(g, axis, i) != Line(g, axis, i % p) {
            ok := false;
            break;
          }
          i := i + 1;
        }
        if ok {
          assert forall j :: 0 <= j < |periods| ==> periods[j] in periods;
          periods := periods + [p];
        }
      }
      p := p + 1;
    }
  }

  // ---------------------------------------------------------------- the lines repeated in both directions for ever

  /** The line at any integer index, wrapping around. */
  function Wrapped(g: Grid, axis: int, i: int): seq<int>
    requires Size(g, axis) > 0
  {
    Line(g, axis, i % Size(g, axis))
  }

  /** Shifting the wrapped lines by `p` changes nothing. */
  ghost predicate Invariant(g: Grid, axis: int, p: int)
    requires Size(g, axis) > 0
  {
    forall i: int :: Wrapped(g, axis, i + p) == Wrapped(g, axis, i)
  }

  /** A multiple of `n` strictly between `-n` and `n` is zero. */
  lemma SmallMultiple(n: int, d: int)
    requires -n < n * d < n
    ensures d == 0
  {
    assert d >= 1 ==> n * d >= n;
    assert d <= -1 ==> n * d <= -n;
  }

  lemma ModUnique(a: int, n: int, q: int, r: int)
    requires n > 0 && a == n * q + r && 0 <= r < n
    ensures a % n == r
  {
    assert a == n * (a / n) + a % n;
    var d := q - a / n;
    assert n * d == a % n - r;
    SmallMultiple(n, d);
  }

  /** Reducing modulo a multiple of `p` first does not change the remainder modulo `p`. */
  lemma ModOfMod(i: int, n: nat, p: nat)
    requires p > 0 && n > 0 && n % p == 0
    ensures (i % n) % p == i % p
  {
    var r, c := i % n, n / p;
    assert n == p * c;
    assert i == n * (i / n) + r && r == p * (r / p) + r % p;
    assert n * (i / n) == p * (c * (i / n));
    assert i == p * (c * (i / n) + r / p) + r % p;
    ModUnique(i, p, c * (i / n) + r / p, r % p);
  }

  lemma ModShift(i: int, p: nat)
    requires p > 0
    ensures (i + p) % p == i % p
  {
    assert i == p * (i / p) + i % p;
    assert i + p == p * (i / p + 1) + i % p;
    ModUnique(i + p, p, i / p + 1, i % p);
  }

  lemma {:induction false} InvariantReaches(g: Grid, axis: int, p: nat, r: int, k: nat)
    requires Size(g, axis) > 0 && Invariant(g, axis, p)
    ensures Wrapped(g, axis, r + p * k) == Wrapped(g, axis, r)
  {
    if k > 0 {
      InvariantReaches(g, axis, p, r, k - 1);
      assert r + p * k == r + p * (k - 1) + p;
    } else {
      assert r + p * k == r;
    }
  }

  /** A divisor of the size is a period exactly when the wrapped lines are invariant under it. */
  lemma PeriodIsInvariance(g: Grid, axis: int, p: nat)
    requires Size(g, axis) > 0 && p > 0 && Size(g, axis) % p == 0
    ensures Repeats(g, axis, p) <==> Invariant(g, axis, p)
  {
    if Repeats(g, axis, p) {
      forall i: int ensures Wrapped(g, axis, i + p) == Wrapped(g, axis, i) {
        RepeatsWrapped(g, axis, p, i);
        RepeatsWrapped(g, axis, p, i + p);
        ModShift(i, p);
      }
    }
    if Invariant(g, axis, p) {
      forall i: nat | p <= i < Size(g, axis)
        ensures i % p < Size(g, axis) && Line(g, axis, i) == Line(g, axis, i % p)
      {
        InvariantRepeats(g, axis, p, i);
      }
    }
  }

  lemma InvariantRepeats(g: Grid, axis: int, p: nat, i: nat)
    requires 0 < p <= i < Size(g, axis) && Invariant(g, axis, p)
    ensures i % p < Size(g, axis) && Line(g, axis, i) == Line(g, axis, i % p)
  {
    var n, r := Size(g, axis), i % p;
    assert i == r + p * (i / p);
    InvariantReaches(g, axis, p, r, i / p);
    ModUnique(i, n, 0, i);
    ModUnique(r, n, 0, r);
  }

  lemma RepeatsWrapped(g: Grid, axis: int, p: nat, i: int)
    requires Size(g, axis) > 0 && p > 0 && Size(g, axis) % p == 0 && Repeats(g, axis, p)
    ensures i % p < Size(g, axis) && Wrapped(g, axis, i) == Line(g, axis, i % p)
  {
    var n := Size(g, axis);
    ModOfMod(i, n, p);
    var r: nat := i % n;
    if r < p { ModUnique(r, p, 0, r); }
  }

  // ---------------------------------------------------------------- greatest common divisors

  function Gcd(a: nat, b: nat): (d: nat)
    requires a > 0 && b > 0
    ensures d > 0 && d <= a && d <= b
    decreases a + b
  {
    if a == b then a else if a > b then Gcd(a - b, b) else Gcd(a, b - a)
  }

  lemma DividesDifference(a: nat, b: nat, d: nat)
    requires d > 0 && b <= a && (a - b) % d == 0 && b % d == 0
    ensures a % d == 0
  {
    assert a == d * ((a - b) / d + b / d);
    ModUnique(a, d, (a - b) / d + b / d, 0);
  }

  lemma DividesRest(a: nat, b: nat, d: nat)
    requires d > 0 && b <= a && a % d == 0 && b % d == 0
    ensures (a - b) % d == 0
  {
    assert a - b == d * (a / d - b / d);
    ModUnique(a - b, d, a / d - b / d, 0);
  }

  /** Gcd divides both numbers, and everything that divides both divides it. */
  lemma {:induction false} GcdLaws(a: nat, b: nat, m: nat)
    requires a > 0 && b > 0 && m > 0
    ensures a % Gcd(a, b) == 0 && b % Gcd(a, b) == 0
    ensures a % m == 0 && b % m == 0 ==> Gcd(a, b) % m == 0
    decreases a + b
  {
    if a > b {
      GcdLaws(a - b, b, m);
      DividesDifference(a, b, Gcd(a, b));
      if a % m == 0 && b % m == 0 { DividesRest(a, b, m); }
    } else if b > a {
      GcdLaws(a, b - a, m);
      DividesDifference(b, a, Gcd(a, b));
      if a % m == 0 && b % m == 0 { DividesRest(b, a, m); }
    } else {
      ModUnique(a, a, 1, 0);
    }
  }

  lemma {:induction false} GcdInvariant(g: Grid, axis: int, p: nat, q: nat)
    requires Size(g, axis) > 0 && p > 0 && q > 0 && Invariant(g, axis, p) && Invariant(g, axis, q)
    ensures Invariant(g, axis, Gcd(p, q))
    decreases p + q
  {
    if p > q {
      InvariantDifference(g, axis, p, q);
      GcdInvariant(g, axis, p - q, q);
    } else if q > p {
      InvariantDifference(g, axis, q, p);
      GcdInvariant(g, axis, p, q - p);
    }
  }

  lemma InvariantDifference(g: Grid, axis: int, p: nat, q: nat)
    requires Size(g, axis) > 0 && q < p && Invariant(g, axis, p) && Invariant(g, axis, q)
    ensures Invariant(g, axis, p - q)
  {
    forall i: int ensures Wrapped(g, axis, i + (p - q)) == Wrapped(g, axis, i) {
      assert Wrapped(g, axis, i + (p - q) + q) == Wrapped(g, axis, i + (p - q));
      assert i + (p - q) + q == i + p;
    }
  }

  lemma DividesTransitive(n: nat, p: nat, d: nat)
    requires p > 0 && d > 0 && n % p == 0 && p % d == 0
    ensures n % d == 0
  {
    var c, e := n / p, p / d;
    assert n == p * c && p == d * e;
    assert n == d * (e * c);
    ModUnique(n, d, e * c, 0);
  }

  /** The periods of an axis are closed under greatest common divisors. */
  lemma PeriodsClosedUnderGcd(g: Grid, axis: int, p: nat, q: nat)
    requires IsPeriod(g, axis, p) && IsPeriod(g, axis, q) && Size(g, axis) > 0
    ensures IsPeriod(g, axis, Gcd(p, q))
  {
    var d := Gcd(p, q);
    PeriodIsInvariance(g, axis, p);
    PeriodIsInvariance(g, axis, q);
    GcdInvariant(g, axis, p, q);
    GcdLaws(p, q, d);
    DividesTransitive(Size(g, axis), p, d);
    PeriodIsInvariance(g, axis, d);
  }

  /** The first reported period divides every other, whatever the bound. */
  lemma LeastPeriodDividesAll(g: Grid, axis: int, maxPeriod: int, periods: seq<nat>, p: nat)
    requires forall q: nat :: q in periods <==> IsPeriod(g, axis, q) && q <= Min(maxPeriod, Size(g, axis))
    requires forall i, j :: 0 <= i < j < |periods| ==> periods[i] < periods[j]
    requires p in periods
    ensures periods[0] > 0 && p % periods[0] == 0
  {
    var least := periods[0];
    assert least in periods;
    var d := Gcd(least, p);
    PeriodsClosedUnderGcd(g, axis, least, p);
    assert d in periods;
    var i :| 0 <= i < |periods| && periods[i] == d;
    assert d == least;
    GcdLaws(least, p, 1);
  }

  /** The whole size is a period, so the list is empty only when the bound or the axis is. */
  lemma SizeIsPeriod(g: Grid, axis: int)
    requires Size(g, axis) > 0
    ensures IsPeriod(g, axis, Size(g, axis))
  {
    ModUnique(Size(g, axis), Size(g, axis), 1, 0);
  }
}
