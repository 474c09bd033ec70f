/**
 * The generation aggregator (exec.js, `extractGenerations` and
 * `convertGenerationPopulationRows`): the distinct buckets in order of first
 * appearance, each with the population of its rows summed the way
 * `reduce((sum, row) => sum + row[1], 0)` sums it.
 */
module Aggregation {
  import opened JsNumber
  import opened Records

  /** No element appears twice. */
  predicate NoDuplicates<T(==)>(s: seq<T>) {
    forall i, j :: 0 <= i < j < |s| ==> s[i] != s[j]
  }

  /** The position where `x` first appears in `s`. */
  function FirstIndex<T(==)>(s: seq<T>, x: T): (k: nat)
    requires x in s
    ensures k < |s| && s[k] == x && x !in s[..k]
  {
    if s[0] == x then 0
    else
      assert s == [s[0]] + s[1..];
      var k := FirstIndex(s[1..], x);
      assert s[..k + 1] == [s[0]] + s[1..][..k];
      k + 1
  }

  /**
   * `[...new Set(s)]`: each element of `s` once, in the order a `Set` keeps,
   * which is the order of first insertion.
   */
  function Distinct<T(==)>(s: seq<T>): (r: seq<T>)
    ensures NoDuplicates(r)
    ensures forall i :: 0 <= i < |s| ==> s[i] in r
    ensures forall i :: 0 <= i < |r| ==> r[i] in s
    decreases |s|
  {
    if |s| == 0 then []
    else
      var p := s[..|s| - 1];
      assert s == p + [s[|s| - 1]];
      var d := Distinct(p);
      if s[|s| - 1] in d then d else d + [s[|s| - 1]]
  }

  /** Two positions that both qualify as the first appearance of `x` are the same. */
  lemma FirstIndexUnique<T>(s: seq<T>, x: T, k: nat, k': nat)
    requires k < |s| && s[k] == x && x !in s[..k]
    requires k' < |s| && s[k'] == x && x !in s[..k']
    ensures k == k'
  {
  }

  /** Appending to a sequence does not move the first appearance of what it already held. */
  lemma FirstIndexAppend<T>(p: seq<T>, x: T, y: T)
    requires y in p
    ensures FirstIndex(p + [x], y) == FirstIndex(p, y)
  {
    var s := p + [x];
    var k := FirstIndex(p, y);
    assert s[k] == y;
    assert s[..k] == p[..k];
    FirstIndexUnique(s, y, FirstIndex(s, y), k);
  }

  /** `Distinct` lists the elements in the order they first appear in `s`. */
  lemma {:induction false} DistinctFirstOccurrence<T>(s: seq<T>)
    ensures forall i, j :: 0 <= i < j < |Distinct(s)| ==>
      FirstIndex(s, Distinct(s)[i]) < FirstIndex(s, Distinct(s)[j])
    decreases |s|
  {
    if |s| > 0 {
      var p := s[..|s| - 1];
      var x := s[|s| - 1];
      assert s == p + [x];
      var d := Distinct(p);
      DistinctFirstOccurrence(p);
      forall y | y in d
        ensures FirstIndex(s, y) == FirstIndex(p, y)
      {
        FirstIndexAppend(p, x, y);
      }
      if x !in d {
        assert x !in p;
        assert s[..|s| - 1] == p;
        FirstIndexUnique(s, x, FirstIndex(s, x), |s| - 1);
      }
    }
  }

  /** Column 2 of every classified row, in row order. */
  function GenerationsOf(rows: seq<ClassifiedRow>): (gs: seq<string>)
    ensures |gs| == |rows|
    ensures forall i :: 0 <= i < |rows| ==> gs[i] == rows[i].generation
  {
    seq(|rows|, i requires 0 <= i < |rows| => rows[i].generation)
  }

  /**
   * `extractGenerations`: every bucket that some row carries, each exactly
   * once, in order of first appearance.
   */
  function ExtractGenerations(rows: seq<ClassifiedRow>): (r: seq<string>)
    ensures NoDuplicates(r)
    ensures forall i :: 0 <= i < |rows| ==> rows[i].generation in r
    ensures forall g :: g in r ==> exists i :: 0 <= i < |rows| && rows[i].generation == g
  {
    var gs := GenerationsOf(rows);
    var r := Distinct(gs);
    assert forall i :: 0 <= i < |rows| ==> gs[i] in r;
    r
  }

  /** Buckets come out in the order their first row comes in. */
  lemma ExtractGenerationsOrder(rows: seq<ClassifiedRow>)
    ensures forall i, j :: 0 <= i < j < |ExtractGenerations(rows)| ==>
      FirstIndex(GenerationsOf(rows), ExtractGenerations(rows)[i])
        < FirstIndex(GenerationsOf(rows), ExtractGenerations(rows)[j])
  {
    DistinctFirstOccurrence(GenerationsOf(rows));
  }

  /** `rows.filter(row => row[2] == g)`, kept in row order: only input rows of generation `g`. */
  function RowsOf(rows: seq<ClassifiedRow>, g: string): (r: seq<ClassifiedRow>)
    ensures |r| <= |rows|
    ensures forall i :: 0 <= i < |r| ==> r[i].generation == g
    decreases |rows|
  {
    if |rows| == 0 then []
    else
      var last := rows[|rows| - 1];
      RowsOf(rows[..|rows| - 1], g) + (if last.generation == g then [last] else [])
  }

  /**
   * `rows.reduce((sum, row) => sum + row[1], 0)`: a left-to-right sum; NaN
   * absorbs, so a numeric sum means every summand was a number.
   */
  function Total(rows: seq<ClassifiedRow>): (r: Number)
    ensures r.Num? ==> forall i :: 0 <= i < |rows| ==> rows[i].population.Num?
    decreases |rows|
  {
    if |rows| == 0 then Num(0) else Add(Total(rows[..|rows| - 1]), rows[|rows| - 1].population)
  }

  /**
   * `convertGenerationPopulationRows`: one total per distinct bucket, in
   * order of first appearance, each the sum over the rows of that bucket.
   */
  function ConvertGenerationPopulationRows(rows: seq<ClassifiedRow>): (r: seq<GenerationTotal>)
    ensures |r| == |ExtractGenerations(rows)|
    ensures forall i :: 0 <= i < |r| ==> r[i].generation == ExtractGenerations(rows)[i]
    ensures forall i :: 0 <= i < |r| ==> r[i].population == Total(RowsOf(rows, r[i].generation))
  {
    var gs := ExtractGenerations(rows);
    seq(|gs|, i requires 0 <= i < |gs| => GenerationTotal(gs[i], Total(RowsOf(rows, gs[i]))))
  }

  /** Appending a row adds its population to the running sum. */
  lemma TotalSnoc(rows: seq<ClassifiedRow>, x: ClassifiedRow)
    ensures Total(rows + [x]) == Add(Total(rows), x.population)
  {
    assert (rows + [x])[..|rows|] == rows;
  }

  /** Appending a row appends it to the rows of its own bucket and to no other. */
  lemma RowsOfSnoc(rows: seq<ClassifiedRow>, x: ClassifiedRow, g: string)
    ensures RowsOf(rows + [x], g) == RowsOf(rows, g) + (if x.generation == g then [x] else [])
  {
    assert (rows + [x])[..|rows|] == rows;
  }

  /** A bucket no row carries has no rows. */
  lemma {:induction false} RowsOfAbsent(rows: seq<ClassifiedRow>, g: string)
    requires forall i :: 0 <= i < |rows| ==> rows[i].generation != g
    ensures RowsOf(rows, g) == []
    decreases |rows|
  {
    if |rows| > 0 {
      RowsOfAbsent(rows[..|rows| - 1], g);
    }
  }

  /** A bucket total is NaN exactly when one of the rows summed into it carries NaN. */
  lemma {:induction false} TotalNaN(rows: seq<ClassifiedRow>)
    ensures Total(rows) == NaN <==> exists i :: 0 <= i < |rows| && rows[i].population == NaN
    decreases |rows|
  {
    if |rows| > 0 {
      var p := rows[..|rows| - 1];
      TotalNaN(p);
      if exists i :: 0 <= i < |p| && p[i].population == NaN {
        var i :| 0 <= i < |p| && p[i].population == NaN;
        assert rows[i] == p[i];
      }
      if exists i :: 0 <= i < |rows| && rows[i].population == NaN {
        var i :| 0 <= i < |rows| && rows[i].population == NaN;
        if i < |p| {
          assert p[i] == rows[i];
        }
      }
    }
  }

  /**
   * A one-pass group-by into a map, bucket to running sum: an independent
   * way of computing the per-bucket totals.
   */
  function GroupSums(rows: seq<ClassifiedRow>): map<string, Number>
    decreases |rows|
  {
    if |rows| == 0 then map[]
    else
      var m := GroupSums(rows[..|rows| - 1]);
      var x := rows[|rows| - 1];
      m[x.generation := Add(if x.generation in m then m[x.generation] else Num(0), x.population)]
  }

  /** The group-by map holds exactly the buckets present, each with the sum over its rows. */
  lemma {:induction false} GroupSumsAgree(rows: seq<ClassifiedRow>)
    ensures forall g :: g in GroupSums(rows) <==> g in GenerationsOf(rows)
    ensures forall g :: g in GroupSums(rows) ==> GroupSums(rows)[g] == Total(RowsOf(rows, g))
    decreases |rows|
  {
    if |rows| > 0 {
      var p := rows[..|rows| - 1];
      var x := rows[|rows| - 1];
      assert rows == p + [x];
      assert GenerationsOf(rows) == GenerationsOf(p) + [x.generation];
      GroupSumsAgree(p);
      forall g | g in GroupSums(rows)
        ensures GroupSums(rows)[g] == Total(RowsOf(rows, g))
      {
        GroupSumsStep(p, x, g);
      }
    }
  }

  /** One more row updates its own bucket's sum in the map and the filtered total alike. */
  lemma GroupSumsStep(p: seq<ClassifiedRow>, x: ClassifiedRow, g: string)
    requires forall g :: g in GroupSums(p) <==> g in GenerationsOf(p)
    requires forall g :: g in GroupSums(p) ==> GroupSums(p)[g] == Total(RowsOf(p, g))
    requires g in GroupSums(p + [x])
    ensures GroupSums(p + [x])[g] == Total(RowsOf(p + [x], g))
  {
    var rows := p + [x];
    assert rows[..|rows| - 1] == p;
    var m := GroupSums(p);
    RowsOfSnoc(p, x, g);
    if g == x.generation {
      TotalSnoc(RowsOf(p, g), x);
      if g !in m {
        assert forall i :: 0 <= i < |p| ==> p[i].generation == GenerationsOf(p)[i];
        RowsOfAbsent(p, g);
      }
    } else {
      assert RowsOf(p, g) + [] == RowsOf(p, g);
    }
  }

  /** The totals agree with the group-by map, bucket for bucket, and cover the same buckets. */
  lemma ConvertMatchesGroupSums(rows: seq<ClassifiedRow>)
    ensures forall g :: g in GroupSums(rows) <==> g in ExtractGenerations(rows)
    ensures forall t :: t in ConvertGenerationPopulationRows(rows) ==>
      t.generation in GroupSums(rows) && t.population == GroupSums(rows)[t.generation]
  {
    GroupSumsAgree(rows);
    var gs := GenerationsOf(rows);
    forall g | g in gs
      ensures g in ExtractGenerations(rows)
    {
      var i :| 0 <= i < |gs| && gs[i] == g;
    }
  }

  /** The sum of the given totals, left to right. */
  function TotalOf(totals: seq<GenerationTotal>): Number
    decreases |totals|
  {
    if |totals| == 0 then Num(0) else Add(TotalOf(totals[..|totals| - 1]), totals[|totals| - 1].population)
  }

  /** The sum, over the given buckets in order, of each bucket's total. */
  function SumOver(labels: seq<string>, rows: seq<ClassifiedRow>): Number
    decreases |labels|
  {
    if |labels| == 0 then Num(0)
    else Add(SumOver(labels[..|labels| - 1], rows), Total(RowsOf(rows, labels[|labels| - 1])))
  }

  /** Totals listed bucket by bucket sum to the sum over those buckets. */
  lemma {:induction false} TotalOfListed(totals: seq<GenerationTotal>, labels: seq<string>, rows: seq<ClassifiedRow>)
    requires |totals| == |labels|
    requires forall i :: 0 <= i < |totals| ==> totals[i].population == Total(RowsOf(rows, labels[i]))
    ensures TotalOf(totals) == SumOver(labels, rows)
    decreases |labels|
  {
    if |labels| > 0 {
      TotalOfListed(totals[..|totals| - 1], labels[..|labels| - 1], rows);
    }
  }

  /** One more row raises the sum over distinct buckets by its population iff its bucket is listed. */
  lemma {:induction false} SumOverSnoc(labels: seq<string>, rows: seq<ClassifiedRow>, x: ClassifiedRow)
    requires NoDuplicates(labels)
    ensures SumOver(labels, rows + [x])
      == if x.generation in labels then Add(SumOver(labels, rows), x.population) else SumOver(labels, rows)
    decreases |labels|
  {
    if |labels| > 0 {
      var l := labels[..|labels| - 1];
      var g := labels[|labels| - 1];
      assert labels == l + [g];
      var a := SumOver(l, rows);
      var t := Total(RowsOf(rows, g));
      assert SumOver(labels, rows) == Add(a, t);
      assert SumOver(labels, rows + [x]) == Add(SumOver(l, rows + [x]), Total(RowsOf(rows + [x], g)));
      assert NoDuplicates(l);
      if g == x.generation {
        assert x.generation !in l;
        assert SumOver(l, rows + [x]) == a by { SumOverSnoc(l, rows, x); }
        assert Total(RowsOf(rows + [x], g)) == Add(t, x.population) by {
          RowsOfSnoc(rows, x, g);
          TotalSnoc(RowsOf(rows, g), x);
        }
        AddAssociative(a, t, x.population);
      } else {
        assert Total(RowsOf(rows + [x], g)) == t by {
          RowsOfSnoc(rows, x, g);
          assert RowsOf(rows, g) + [] == RowsOf(rows, g);
        }
        SumOverSnoc(l, rows, x);
        if x.generation in l {
          AddAssociative(a, x.population, t);
          AddCommutative(x.population, t);
          AddAssociative(a, t, x.population);
        }
      }
    }
  }

  /** Summing over the distinct buckets counts every row exactly once. */
  lemma {:induction false} SumOverDistinct(rows: seq<ClassifiedRow>)
    ensures SumOver(ExtractGenerations(rows), rows) == Total(rows)
    decreases |rows|
  {
    if |rows| > 0 {
      var p := rows[..|rows| - 1];
      var x := rows[|rows| - 1];
      assert rows == p + [x];
      var gs := GenerationsOf(rows);
      assert gs[..|gs| - 1] == GenerationsOf(p);
      var d := ExtractGenerations(p);
      SumOverDistinct(p);
      SumOverSnoc(d, p, x);
      TotalSnoc(p, x);
      if x.generation !in d {
        assert d + [x.generation] == ExtractGenerations(rows);
        assert (d + [x.generation])[..|d|] == d;
        RowsOfSnoc(p, x, x.generation);
        RowsOfAbsent(p, x.generation);
        assert RowsOf(rows, x.generation) == [x];
        assert [x] == [] + [x];
        TotalSnoc([], x);
      }
    }
  }

  /** Grouping loses no population and counts none twice: the totals add up to the overall sum. */
  lemma GrandTotal(rows: seq<ClassifiedRow>)
    ensures TotalOf(ConvertGenerationPopulationRows(rows)) == Total(rows)
  {
    TotalOfListed(ConvertGenerationPopulationRows(rows), ExtractGenerations(rows), rows);
    SumOverDistinct(rows);
  }

  /** Summing a concatenation sums the parts. */
  lemma {:induction false} TotalConcat(u: seq<ClassifiedRow>, v: seq<ClassifiedRow>)
    ensures Total(u + v) == Add(Total(u), Total(v))
    decreases |v|
  {
    if |v| == 0 {
      assert u + v == u;
    } else {
      var v' := v[..|v| - 1];
      var y := v[|v| - 1];
      assert v == v' + [y];
      assert u + v == (u + v') + [y];
      TotalSnoc(u + v', y);
      TotalConcat(u, v');
      AddAssociative(Total(u), Total(v'), y.population);
    }
  }

  lemma MultisetCancel<T>(m: multiset<T>, n: multiset<T>, x: T)
    requires m + multiset{x} == n + multiset{x}
    ensures m == n
  {
    forall y
      ensures m[y] == n[y]
    {
      assert (m + multiset{x})[y] == (n + multiset{x})[y];
    }
  }

  /** The sum does not depend on the order of the rows. */
  lemma {:induction false} TotalReorder(a: seq<ClassifiedRow>, b: seq<ClassifiedRow>)
    requires multiset(a) == multiset(b)
    ensures Total(a) == Total(b)
    decreases |a|
  {
    if |a| == 0 {
      assert |b| == |multiset(b)| == 0;
    } else {
      var a' := a[..|a| - 1];
      var x := a[|a| - 1];
      assert a == a' + [x];
      assert x in multiset(b);
      var k :| 0 <= k < |b| && b[k] == x;
      var u, w := b[..k], b[k + 1..];
      assert b == u + [x] + w;
      calc {
        multiset(u + w) + multiset{x};
        multiset(u) + multiset(w) + multiset([x]);
        multiset(u + [x] + w);
        multiset(a' + [x]);
        multiset(a') + multiset{x};
      }
      MultisetCancel(multiset(u + w), multiset(a'), x);
      TotalReorder(a', u + w);
      TotalConcat(u + [x], w);
      TotalSnoc(u, x);
      TotalConcat(u, w);
      AddAssociative(Total(u), x.population, Total(w));
      AddCommutative(x.population, Total(w));
      AddAssociative(Total(u), Total(w), x.population);
    }
  }

  /** The rows of a bucket are the input rows of that bucket, each as often as in the input. */
  lemma {:induction false} RowsOfCount(rows: seq<ClassifiedRow>, g: string)
    ensures forall y :: multiset(RowsOf(rows, g))[y] == if y.generation == g then multiset(rows)[y] else 0
    decreases |rows|
  {
    if |rows| > 0 {
      var p := rows[..|rows| - 1];
      assert rows == p + [rows[|rows| - 1]];
      RowsOfCount(p, g);
    }
  }

  /**
   * Reordering the input rows changes no bucket's total: each total depends
   * only on which rows carry that bucket.
   */
  lemma BucketTotalsReorder(a: seq<ClassifiedRow>, b: seq<ClassifiedRow>)
    requires multiset(a) == multiset(b)
    ensures forall g :: Total(RowsOf(a, g)) == Total(RowsOf(b, g))
  {
    forall g
      ensures Total(RowsOf(a, g)) == Total(RowsOf(b, g))
    {
      RowsOfCount(a, g);
      RowsOfCount(b, g);
      assert multiset(RowsOf(a, g)) == multiset(RowsOf(b, g));
      TotalReorder(RowsOf(a, g), RowsOf(b, g));
    }
  }
}
