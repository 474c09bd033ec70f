/**
 * The descending ranker (exec.js, `sortGenerationPopulationDescRows`):
 * `Array.prototype.sort` with the comparator `(a, b) => b[1] - a[1]`. The
 * sort is stable (section 23.1.3.30 of ECMA-262 requires it), so buckets
 * with equal populations keep their relative order.
 */
module Ranking {
  import opened JsNumber
  import opened Records

  /** Every population is a number. */
  predicate AllNumeric(s: seq<GenerationTotal>) {
    forall i :: 0 <= i < |s| ==> s[i].population.Num?
  }

  /**
   * The comparator `(a, b) => b[1] - a[1]` as written: negative when `a`
   * belongs before `b`, and NaN as soon as either population is NaN.
   */
  function Comparator(a: GenerationTotal, b: GenerationTotal): Number {
    Sub(b.population, a.population)
  }

  /** `a <CF b` of ECMA-262: the comparator returns a number below zero. */
  predicate Before(a: GenerationTotal, b: GenerationTotal) {
    Comparator(a, b).Num? && Comparator(a, b).value < 0
  }

  /** `a >CF b` of ECMA-262: the comparator returns a number above zero. */
  predicate After(a: GenerationTotal, b: GenerationTotal) {
    Comparator(a, b).Num? && Comparator(a, b).value > 0
  }

  /** `a =CF b` of ECMA-262: the comparator returns zero. */
  predicate Tied(a: GenerationTotal, b: GenerationTotal) {
    Comparator(a, b) == Num(0)
  }

  /**
   * The requirements section 23.1.3.30 of ECMA-262 puts on a consistent
   * comparator for the entries of `s`: every call returns a number that is
   * not NaN, `=CF` is reflexive, symmetric and transitive, `a <CF b` implies
   * `b >CF a`, and `<CF` is transitive. Otherwise the order a sort leaves is
   * implementation-defined.
   */
  predicate ConsistentComparator(s: seq<GenerationTotal>) {
    && (forall i, j :: 0 <= i < |s| && 0 <= j < |s| ==> Comparator(s[i], s[j]).Num?)
    && (forall i :: 0 <= i < |s| ==> Tied(s[i], s[i]))
    && (forall i, j :: 0 <= i < |s| && 0 <= j < |s| && Tied(s[i], s[j]) ==> Tied(s[j], s[i]))
    && (forall i, j :: 0 <= i < |s| && 0 <= j < |s| && Before(s[i], s[j]) ==> After(s[j], s[i]))
    && (forall i, j, k :: 0 <= i < |s| && 0 <= j < |s| && 0 <= k < |s| && Before(s[i], s[j]) && Before(s[j], s[k])
          ==> Before(s[i], s[k]))
    && (forall i, j, k :: 0 <= i < |s| && 0 <= j < |s| && 0 <= k < |s| && Tied(s[i], s[j]) && Tied(s[j], s[k])
          ==> Tied(s[i], s[k]))
  }

  /**
   * The comparator is consistent for the entries exactly when every
   * population is a number: one NaN entry makes even its comparison with
   * itself NaN, however the other populations compare.
   */
  lemma ConsistentIff(s: seq<GenerationTotal>)
    ensures ConsistentComparator(s) <==> AllNumeric(s)
  {
    if !AllNumeric(s) {
      var n :| 0 <= n < |s| && s[n].population == NaN;
      assert !Comparator(s[n], s[n]).Num?;
    }
  }

  /**
   * The sort key: the population. The sort is only applied to numeric
   * populations, so the value given to NaN is never consulted.
   */
  function Key(e: GenerationTotal): int {
    match e.population
    case Num(v) => v
    case NaN => 0
  }

  /** Populations never grow from one entry to any later one. */
  predicate NonIncreasing(s: seq<GenerationTotal>) {
    forall i, j :: 0 <= i < j < |s| ==> Key(s[j]) <= Key(s[i])
  }

  /**
   * On numbers, ordering by the key is ordering by the comparator: a
   * sequence is non-increasing exactly when no entry belongs after a later one.
   */
  lemma NonIncreasingByComparator(s: seq<GenerationTotal>)
    requires AllNumeric(s)
    ensures NonIncreasing(s) <==> forall i, j :: 0 <= i < j < |s| ==> !After(s[i], s[j])
  {
  }

  /**
   * Puts `x` just before the first entry it does not sort after, that is the
   * first entry whose population is not above its own.
   */
  function Insert(x: GenerationTotal, s: seq<GenerationTotal>): (r: seq<GenerationTotal>)
    ensures multiset(r) == multiset(s) + multiset{x}
    ensures |r| == |s| + 1
  {
    if |s| == 0 || Key(s[0]) <= Key(x) then [x] + s
    else
      assert s == [s[0]] + s[1..];
      [s[0]] + Insert(x, s[1..])
  }

  /** Inserting into a non-increasing sequence keeps it non-increasing. */
  lemma {:induction false} InsertSorted(x: GenerationTotal, s: seq<GenerationTotal>)
    requires NonIncreasing(s)
    ensures NonIncreasing(Insert(x, s))
    decreases |s|
  {
    if |s| > 0 && Key(s[0]) > Key(x) {
      var r' := Insert(x, s[1..]);
      InsertSorted(x, s[1..]);
      assert s == [s[0]] + s[1..];
      forall i | 0 <= i < |r'|
        ensures Key(r'[i]) <= Key(s[0])
      {
        assert r'[i] in multiset(r');
        assert r'[i] == x || r'[i] in multiset(s[1..]);
      }
    }
  }

  /**
   * `generationPopulationRows.sort((a, b) => b[1] - a[1])`: the same entries,
   * highest population first.
   */
  function SortGenerationPopulationDescRows(s: seq<GenerationTotal>): (r: seq<GenerationTotal>)
    requires AllNumeric(s)
    ensures AllNumeric(r)
    ensures multiset(r) == multiset(s)
    ensures NonIncreasing(r)
  {
    if |s| == 0 then []
    else
      assert s == [s[0]] + s[1..];
      var t := SortGenerationPopulationDescRows(s[1..]);
      InsertSorted(s[0], t);
      var r := Insert(s[0], t);
      forall i | 0 <= i < |r|
        ensures r[i].population.Num?
      {
        assert r[i] in multiset(r);
        assert r[i] in s;
      }
      r
  }

  /** The entries with population `k`, in their order in `s`. */
  function WithKey(s: seq<GenerationTotal>, k: int): (r: seq<GenerationTotal>)
    ensures forall i :: 0 <= i < |r| ==> r[i] in s && Key(r[i]) == k
  {
    if |s| == 0 then []
    else (if Key(s[0]) == k then [s[0]] else []) + WithKey(s[1..], k)
  }

  /** The first entry is among the entries with its own population. */
  lemma WithKeyOfFirst(s: seq<GenerationTotal>)
    ensures |s| > 0 ==> WithKey(s, Key(s[0])) == [s[0]] + WithKey(s[1..], Key(s[0]))
  {
  }

  /** The entries of `[e] + s` with population `k`: `e` if it has it, then those of `s`. */
  lemma WithKeyCons(e: GenerationTotal, s: seq<GenerationTotal>, k: int)
    ensures WithKey([e] + s, k) == (if Key(e) == k then [e] else []) + WithKey(s, k)
  {
    assert ([e] + s)[0] == e;
    assert ([e] + s)[1..] == s;
  }

  /** Inserting `x` puts it ahead of every entry that has its population. */
  lemma {:induction false} InsertStable(x: GenerationTotal, s: seq<GenerationTotal>, k: int)
    ensures WithKey(Insert(x, s), k) == (if Key(x) == k then [x] else []) + WithKey(s, k)
    decreases |s|
  {
    if |s| == 0 || Key(s[0]) <= Key(x) {
      WithKeyCons(x, s, k);
    } else {
      InsertStableSkip(x, s, k);
    }
  }

  /** The step of `InsertStable` where `x` goes past the first entry. */
  lemma {:induction false} InsertStableSkip(x: GenerationTotal, s: seq<GenerationTotal>, k: int)
    requires |s| > 0 && Key(s[0]) > Key(x)
    ensures WithKey(Insert(x, s), k) == (if Key(x) == k then [x] else []) + WithKey(s, k)
    decreases |s|, 0
  {
    var hx := if Key(x) == k then [x] else [];
    var h0 := if Key(s[0]) == k then [s[0]] else [];
    var r' := Insert(x, s[1..]);
    var w := WithKey(s[1..], k);
    assert Insert(x, s) == [s[0]] + r';
    assert WithKey(Insert(x, s), k) == h0 + WithKey(r', k) by { WithKeyCons(s[0], r', k); }
    assert WithKey(r', k) == hx + w by { InsertStable(x, s[1..], k); }
    assert WithKey(s, k) == h0 + w by {
      assert s == [s[0]] + s[1..];
      WithKeyCons(s[0], s[1..], k);
    }
    if Key(x) == k {
      assert h0 == [];
      assert h0 + (hx + w) == hx + w;
      assert h0 + w == w;
    } else {
      assert hx == [];
      assert hx + w == w;
      assert hx + (h0 + w) == h0 + w;
    }
  }

  /** The sort is stable: entries with equal populations keep their input order. */
  lemma {:induction false} SortStable(s: seq<GenerationTotal>, k: int)
    requires AllNumeric(s)
    ensures WithKey(SortGenerationPopulationDescRows(s), k) == WithKey(s, k)
    decreases |s|
  {
    if |s| > 0 {
      SortStable(s[1..], k);
      InsertStable(s[0], SortGenerationPopulationDescRows(s[1..]), k);
    }
  }

  /**
   * Two non-increasing orderings that agree on the order within every
   * population are the same ordering.
   */
  lemma {:induction false} StableOrderUnique(r: seq<GenerationTotal>, t: seq<GenerationTotal>)
    requires NonIncreasing(r) && NonIncreasing(t)
    requires forall k :: WithKey(r, k) == WithKey(t, k)
    ensures r == t
    decreases |r|
  {
    WithKeyOfFirst(r);
    WithKeyOfFirst(t);
    if |r| > 0 && |t| > 0 {
      var kr, kt := Key(r[0]), Key(t[0]);
      assert WithKey(r, kr) == WithKey(t, kr);
      var e := WithKey(t, kr)[0];
      assert e in t;
      assert kr <= kt;
      assert WithKey(r, kt) == WithKey(t, kt);
      var e' := WithKey(r, kt)[0];
      assert e' in r;
      assert kt <= kr;
      assert r[0] == t[0];
      forall k
        ensures WithKey(r[1..], k) == WithKey(t[1..], k)
      {
        var head := if Key(r[0]) == k then [r[0]] else [];
        assert WithKey(r, k) == head + WithKey(r[1..], k);
        assert WithKey(t, k) == head + WithKey(t[1..], k);
        assert (head + WithKey(r[1..], k))[|head|..] == WithKey(r[1..], k);
        assert (head + WithKey(t[1..], k))[|head|..] == WithKey(t[1..], k);
      }
      StableOrderUnique(r[1..], t[1..]);
    }
  }

  /**
   * Any stable descending sort yields exactly this result: a non-increasing
   * reordering that keeps every population's entries in input order is it.
   */
  lemma SortIsTheStableSort(s: seq<GenerationTotal>, r: seq<GenerationTotal>)
    requires AllNumeric(s) && AllNumeric(r)
    requires NonIncreasing(r)
    requires forall k :: WithKey(r, k) == WithKey(s, k)
    ensures r == SortGenerationPopulationDescRows(s)
  {
    var t := SortGenerationPopulationDescRows(s);
    forall k
      ensures WithKey(r, k) == WithKey(t, k)
    {
      SortStable(s, k);
    }
    StableOrderUnique(r, t);
  }
}
