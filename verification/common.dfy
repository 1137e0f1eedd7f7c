/** Small vocabulary shared by the models: options, finite sets and lists without repeats. */
module Common {
  datatype Option<+T> = None | Some(value: T)

  ghost predicate Distinct<T>(s: seq<T>) {
    forall i, j :: 0 <= i < j < |s| ==> s[i] != s[j]
  }

  lemma DistinctCons<T>(x: T, s: seq<T>)
    requires Distinct(s) && x !in s
    ensures Distinct([x] + s) && forall y :: y in [x] + s <==> y == x || y in s
  {
    assert forall i :: 0 <= i < |s| ==> ([x] + s)[i + 1] == s[i] && s[i] in s;
  }

  lemma DistinctTail<T>(s: seq<T>)
    requires Distinct(s) && s != []
    ensures Distinct(s[1..]) && s[0] !in s[1..] && forall y :: y in s <==> y == s[0] || y in s[1..]
  {
    assert forall i :: 1 <= i < |s| ==> s[1..][i - 1] == s[i];
  }

  lemma DistinctSize<T>(s: seq<T>)
    requires Distinct(s)
    ensures |set c | c in s| == |s|
  {
    if s != [] {
      var t := s[..|s| - 1];
      DistinctSize(t);
      assert (set c | c in s) == (set c | c in t) + {s[|s| - 1]};
    }
  }

  /** All lists, one after the other. */
  function Flatten<T>(lists: seq<seq<T>>): seq<T> {
    if lists == [] then [] else Flatten(lists[..|lists| - 1]) + lists[|lists| - 1]
  }

  lemma SubsetSize<T>(a: set<T>, b: set<T>)
    requires a <= b
    ensures |a| <= |b|
  {
    assert b == a + (b - a);
  }

  lemma FullSet<T>(a: set<T>, b: set<T>)
    requires a <= b && |a| == |b|
    ensures a == b
  {
    assert b == a + (b - a);
  }

  function Max(a: int, b: int): int { if a >= b then a else b }

  function Min(a: int, b: int): int { if a <= b then a else b }

  function Abs(n: int): nat { if n < 0 then -n else n }

  function Indices(n: nat): (r: set<nat>)
    ensures forall j: nat :: j in r <==> j < n
    ensures |r| == n
  {
    if n == 0 then {} else Indices(n - 1) + {n - 1}
  }

  // ---------------------------------------------------------------- counters kept in maps

  function Get<K, V>(m: map<K, V>, k: K, default: V): V {
    if k in m then m[k] else default
  }

  /** How often a name occurs in a list. */
  function Occurrences(names: seq<string>, name: string): nat {
    if names == [] then 0 else
      Occurrences(names[..|names| - 1], name) + (if names[|names| - 1] == name then 1 else 0)
  }

  ghost function Pick<K, V>(m: map<K, V>): K
    requires m.Keys != {}
    ensures Pick(m) in m
  {
    var k :| k in m.Keys; k
  }

  lemma DropShrinks<K, V>(m: map<K, V>, k: K)
    requires k in m
    ensures (m - {k}).Keys == m.Keys - {k} && |m - {k}| == |m| - 1
  {
    assert (m - {k}).Keys == m.Keys - {k};
  }

  /** The sum of all counters in a map. */
  ghost function SumValues<K>(m: map<K, nat>): nat
    decreases |m|
  {
    if m.Keys == {} then 0 else
      var k := Pick(m);
      DropShrinks(m, k);
      m[k] + SumValues(m - {k})
  }

  lemma SumStep<K>(m: map<K, nat>)
    requires m.Keys != {}
    ensures SumValues(m) == m[Pick(m)] + SumValues(m - {Pick(m)})
  {
  }

  lemma {:induction false} SumRemove<K>(m: map<K, nat>, k: K)
    requires k in m
    ensures SumValues(m) == m[k] + SumValues(m - {k})
    decreases |m|
  {
    hide SumValues;
    SumStep(m);
    var c := Pick(m);
    if c != k {
      DropShrinks(m, c);
      DropShrinks(m, k);
      SumRemove(m - {c}, k);
      SumRemove(m - {k}, c);
      assert m - {c} - {k} == m - {k} - {c};
    }
  }

  /** Setting one counter changes the sum by the difference. */
  lemma SumUpdate<K>(m: map<K, nat>, k: K, n: nat)
    ensures SumValues(m[k := n]) == SumValues(m) - Get(m, k, 0) + n
  {
    var u := m[k := n];
    SumRemove(u, k);
    if k in m {
      SumRemove(m, k);
      assert u - {k} == m - {k};
    } else {
      assert u - {k} == m;
    }
  }

  /** Adding one to a counter adds one to the sum. */
  lemma SumIncrement<K>(m: map<K, nat>, k: K)
    ensures SumValues(m[k := Get(m, k, 0) + 1]) == SumValues(m) + 1
  {
    SumUpdate(m, k, Get(m, k, 0) + 1);
  }
}

/** Stable insertion sort under an arbitrary comparison. */
module Sorting {
  import opened Common

  /** Insertion behind every element that `x` does not go before. */
  function PlaceBy<T>(s: seq<T>, x: T, before: (T, T) -> bool): seq<T> {
    if s == [] || !before(x, s[|s| - 1]) then s + [x] else PlaceBy(s[..|s| - 1], x, before) + [s[|s| - 1]]
  }

  function SortBy<T>(s: seq<T>, before: (T, T) -> bool): seq<T> {
    if s == [] then [] else PlaceBy(SortBy(s[..|s| - 1], before), s[|s| - 1], before)
  }

  /** No element goes before an earlier one. */
  ghost predicate InOrder<T>(s: seq<T>, before: (T, T) -> bool) {
    forall i, j :: 0 <= i < j < |s| ==> !before(s[j], s[i])
  }

  ghost predicate WeakOrder<T(!new)>(before: (T, T) -> bool) {
    && (forall a, b :: before(a, b) ==> !before(b, a))
    && (forall a, b, c :: before(a, c) ==> before(a, b) || before(b, c))
  }

  lemma {:induction false} PlaceKeeps<T>(s: seq<T>, x: T, before: (T, T) -> bool)
    ensures multiset(PlaceBy(s, x, before)) == multiset(s) + multiset{x}
  {
    if s != [] && before(x, s[|s| - 1]) {
      PlaceKeeps(s[..|s| - 1], x, before);
      assert s == s[..|s| - 1] + [s[|s| - 1]];
    }
  }

  lemma {:induction false} PlaceMembers<T>(s: seq<T>, x: T, before: (T, T) -> bool)
    ensures forall y :: y in PlaceBy(s, x, before) <==> y == x || y in s
  {
    if s != [] && before(x, s[|s| - 1]) {
      PlaceMembers(s[..|s| - 1], x, before);
      assert s == s[..|s| - 1] + [s[|s| - 1]];
    }
  }

  lemma NotBefore<T(!new)>(a: T, b: T, c: T, before: (T, T) -> bool)
    requires WeakOrder(before) && !before(a, b) && !before(b, c)
    ensures !before(a, c)
  {
  }

  lemma {:induction false} PlaceInOrder<T(!new)>(s: seq<T>, x: T, before: (T, T) -> bool)
    requires WeakOrder(before) && InOrder(s, before)
    ensures InOrder(PlaceBy(s, x, before), before)
  {
    if s != [] {
      var front, last := s[..|s| - 1], s[|s| - 1];
      if before(x, last) {
        PlaceInOrder(front, x, before);
        PlaceMembers(front, x, before);
        var t := PlaceBy(front, x, before);
        forall i | 0 <= i < |t| ensures !before(last, t[i]) { assert t[i] in t; }
      } else {
        forall i | 0 <= i < |s| ensures !before(x, s[i]) { NotBefore(x, last, s[i], before); }
      }
    }
  }

  /** Sorting orders the elements and neither drops nor repeats any. */
  lemma {:induction false} SortLaws<T(!new)>(s: seq<T>, before: (T, T) -> bool)
    ensures multiset(SortBy(s, before)) == multiset(s)
    ensures WeakOrder(before) ==> InOrder(SortBy(s, before), before)
  {
    hide WeakOrder, PlaceBy;
    if s != [] {
      var front, last := s[..|s| - 1], s[|s| - 1];
      SortLaws(front, before);
      PlaceKeeps(SortBy(front, before), last, before);
      assert s == front + [last];
      if WeakOrder(before) { PlaceInOrder(SortBy(front, before), last, before); }
    }
  }

  lemma PlaceLast<T>(s: seq<T>, x: T, before: (T, T) -> bool)
    requires s != [] ==> !before(x, s[|s| - 1])
    ensures PlaceBy(s, x, before) == s + [x]
  {
  }

  /** What is in order stays as it is. */
  lemma {:induction false} SortOfOrdered<T>(s: seq<T>, before: (T, T) -> bool)
    requires InOrder(s, before)
    ensures SortBy(s, before) == s
  {
    hide PlaceBy;
    if s != [] {
      var front, last := s[..|s| - 1], s[|s| - 1];
      SortOfOrdered(front, before);
      assert front != [] ==> !before(last, front[|front| - 1]);
      PlaceLast(front, last, before);
      assert front + [last] == s;
    }
  }

  lemma {:induction false} PlaceDistinct<T>(s: seq<T>, x: T, before: (T, T) -> bool)
    requires Distinct(s) && x !in s
    ensures Distinct(PlaceBy(s, x, before))
  {
    if s == [] || !before(x, s[|s| - 1]) {
      assert forall i :: 0 <= i < |s| ==> s[i] in s;
    } else {
      var front, last := s[..|s| - 1], s[|s| - 1];
      assert forall i :: 0 <= i < |front| ==> front[i] == s[i] && s[i] in s;
      PlaceDistinct(front, x, before);
      PlaceMembers(front, x, before);
      var t := PlaceBy(front, x, before);
      assert last !in front;
      assert forall i :: 0 <= i < |t| ==> t[i] in t;
    }
  }

  /** Under any comparison, a list without repeats keeps its members, once each. */
  lemma {:induction false} SortDistinct<T>(s: seq<T>, before: (T, T) -> bool)
    requires Distinct(s)
    ensures Distinct(SortBy(s, before)) && forall x :: x in SortBy(s, before) <==> x in s
  {
    if s != [] {
      var front, last := s[..|s| - 1], s[|s| - 1];
      SortDistinct(front, before);
      assert s == front + [last];
      assert forall i :: 0 <= i < |front| ==> front[i] in front && front[i] != last;
      PlaceDistinct(SortBy(front, before), last, before);
      PlaceMembers(SortBy(front, before), last, before);
    }
  }
}

/** Exact means over the reals: what a mean times its count stands for. */
module Means {
  /** `n` times a mean, as the sum it stands for. */
  ghost function Times(mean: real, n: nat): real {
    if n == 0 then 0.0 else Times(mean, n - 1) + mean
  }

  /** `mean` is the exact mean of `n` numbers whose sum is `sum`. */
  ghost predicate IsMean(mean: real, n: nat, sum: int) {
    Times(mean, n) == sum as real
  }

  lemma {:induction false} TimesGrows(a: real, b: real, n: nat)
    requires a < b && n > 0
    ensures Times(a, n) < Times(b, n)
  {
    if n > 1 { TimesGrows(a, b, n - 1); }
  }

  lemma OneMore(mean: real, n: real)
    ensures mean * (n + 1.0) == mean * n + mean
  {
  }

  lemma {:induction false} TimesIsProduct(mean: real, n: nat)
    ensures Times(mean, n) == mean * n as real
  {
    if n > 0 {
      TimesIsProduct(mean, n - 1);
      OneMore(mean, (n - 1) as real);
    }
  }

  lemma Quotient(total: real, n: real)
    requires n > 0.0
    ensures total / n * n == total
  {
  }

  /** A sum divided by its count is its mean. */
  lemma QuotientIsMean(total: real, n: nat)
    requires n > 0
    ensures Times(total / n as real, n) == total
  {
    TimesIsProduct(total / n as real, n);
    Quotient(total, n as real);
  }

  lemma ProductOne(a: real, b: real, n: real)
    requires n > 0.0 && a * n == b * n
    ensures a == b
  {
    assert a * n / n == a && b * n / n == b;
  }

  lemma MeanIsUnique(a: real, b: real, n: nat)
    requires n > 0 && Times(a, n) == Times(b, n)
    ensures a == b
  {
    TimesIsProduct(a, n);
    TimesIsProduct(b, n);
    ProductOne(a, b, n as real);
  }

  function RunningMean(prev: real, attempts: nat, value: real): real {
    if attempts <= 1 then value else prev + (value - prev) / attempts as real
  }

  lemma Shifted(prev: real, value: real, k: real)
    requires k > 0.0
    ensures (prev + (value - prev) / k) * k == prev * (k - 1.0) + value
  {
    var d := (value - prev) / k;
    assert d * k == value - prev;
    assert (prev + d) * k == prev * k + d * k;
    assert prev * (k - 1.0) == prev * k - prev;
  }

  /** The running update keeps an exact mean exact. */
  lemma RunningMeanIsExact(prev: real, n: nat, sum: int, value: int)
    requires IsMean(prev, n, sum)
    ensures IsMean(RunningMean(prev, n + 1, value as real), n + 1, sum + value)
  {
    if n > 0 {
      TimesIsProduct(prev, n);
      TimesIsProduct(RunningMean(prev, n + 1, value as real), n + 1);
      Shifted(prev, value as real, (n + 1) as real);
    }
  }

  function MergeMean(a: real, aN: int, b: real, bN: int): real {
    if aN + bN <= 0 then 0.0 else (a * aN as real + b * bN as real) / (aN + bN) as real
  }

  /** The attempts-weighted mean of two means stands for both sums together. */
  lemma MergeMeanAdds(a: real, aN: nat, b: real, bN: nat)
    ensures Times(MergeMean(a, aN, b, bN), aN + bN) == Times(a, aN) + Times(b, bN)
    ensures aN + bN == 0 ==> MergeMean(a, aN, b, bN) == 0.0
  {
    TimesIsProduct(a, aN);
    TimesIsProduct(b, bN);
    if aN + bN > 0 { QuotientIsMean(a * aN as real + b * bN as real, aN + bN); }
  }
}

/** Python's decimal rendering of integers. */
module Decimals {
  import opened Common

  const DIGITS := "0123456789"

  function Natural(n: nat): (s: string)
    ensures s != [] && forall i :: 0 <= i < |s| ==> s[i] in DIGITS
    decreases n
  {
    if n < 10 then [DIGITS[n]] else Natural(n / 10) + [DIGITS[n % 10]]
  }

  function Decimal(n: int): string {
    if n < 0 then "-" + Natural(-n) else Natural(n)
  }

  /** The number a text of digits stands for. */
  function Read(s: string): int {
    if s == [] then 0 else 10 * Read(s[..|s| - 1]) + (s[|s| - 1] as int - '0' as int)
  }

  /** The text reads back as the number, and has no leading zero. */
  lemma {:induction false} NaturalReads(n: nat)
    ensures Read(Natural(n)) == n && (n > 0 ==> Natural(n)[0] != '0')
    decreases n
  {
    DigitReads(n % 10);
    if n < 10 {
      assert Natural(n)[..0] == [];
    } else {
      NaturalReads(n / 10);
      assert Natural(n)[..|Natural(n)| - 1] == Natural(n / 10);
    }
  }

  lemma DigitReads(d: nat)
    requires d < 10
    ensures DIGITS[d] as int == '0' as int + d
  {
  }

  /** Different numbers look different, whatever their sign. */
  lemma DecimalDetermines(m: int, n: int)
    ensures Decimal(m) == Decimal(n) ==> m == n
  {
    NaturalReads(Abs(m));
    NaturalReads(Abs(n));
    if Decimal(m) == Decimal(n) {
      assert Decimal(m)[0] in DIGITS <==> m >= 0;
      assert Decimal(n)[0] in DIGITS <==> n >= 0;
      assert m < 0 ==> Decimal(m)[1..] == Natural(-m);
      assert n < 0 ==> Decimal(n)[1..] == Natural(-n);
    }
  }

  /** One digit below ten, two below a hundred, three or more from there on. */
  lemma Width(n: nat)
    ensures (|Natural(n)| == 1 <==> n < 10) && (|Natural(n)| == 2 <==> 10 <= n < 100)
  {
    if n >= 10 {
      var tens := n / 10;
      assert |Natural(n)| == |Natural(tens)| + 1;
      if tens >= 10 { assert |Natural(tens)| == |Natural(tens / 10)| + 1; }
    }
  }
}
