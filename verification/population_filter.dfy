/**
 * The row filter (exec.js, `filterPopulationRows`): keeps the single-age,
 * both-sexes, total-population rows of the census CSV.
 */
module PopulationFilter {
  import opened Records

  /** Column 1 value for figures not split by sex. */
  const BothSexes: string := "男女計"
  /** Column 3 value for the total population (rather than a sub-population). */
  const TotalPopulation: string := "総人口"
  /** Column 5 value of the pre-aggregated all-ages row. */
  const AllAges: string := "総数"
  /** The population sits in the twelfth column, so shorter rows cannot be used. */
  const MinFields: nat := 12

  /**
   * The filter callback: true exactly when none of its four early
   * `return false` guards fires.
   */
  predicate IsPopulationRow(row: Row) {
    && |row| >= MinFields
    && row[1] == BothSexes
    && row[3] == TotalPopulation
    && row[5] != AllAges
  }

  /** `a` is `b` with some elements dropped and the rest in their original order. */
  ghost predicate IsSubsequence<T>(a: seq<T>, b: seq<T>)
    decreases |b|
  {
    if |a| == 0 then true
    else if |b| == 0 then false
    else (a[0] == b[0] && IsSubsequence(a[1..], b[1..])) || IsSubsequence(a, b[1..])
  }

  /**
   * `rows.filter(IsPopulationRow)`: an order-preserving subsequence holding exactly the
   * rows that meet all four conditions, each as often as in the input.
   */
  function FilterPopulationRows(rows: seq<Row>): (r: seq<Row>)
    ensures forall i :: 0 <= i < |r| ==> IsPopulationRow(r[i])
    ensures forall row :: row in rows && IsPopulationRow(row) ==> row in r
    ensures forall row :: multiset(r)[row] == if IsPopulationRow(row) then multiset(rows)[row] else 0
    ensures IsSubsequence(r, rows)
  {
    if |rows| == 0 then []
    else
      var rest := FilterPopulationRows(rows[1..]);
      assert rows == [rows[0]] + rows[1..];
      if IsPopulationRow(rows[0]) then [rows[0]] + rest else rest
  }

  /** A row shorter than twelve fields never survives, whatever it holds. */
  lemma ShortRowDropped(row: Row)
    requires |row| < MinFields
    ensures FilterPopulationRows([row]) == []
  {
  }

  /** The all-ages row is dropped even when every other condition holds. */
  lemma AllAgesRowDropped(row: Row)
    requires |row| >= MinFields && row[5] == AllAges
    ensures FilterPopulationRows([row]) == []
  {
  }
}
