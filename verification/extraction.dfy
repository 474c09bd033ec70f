/**
 * The age/population projection (exec.js, `convertAgePopulationRows`): each
 * kept row becomes its age label and its population, read with `parseInt`
 * and scaled from thousands of persons to persons.
 */
module Extraction {
  import opened JsNumber
  import opened Records
  import PopulationFilter

  /** Column holding the age label (`0歳`, …, `100歳以上`). */
  const AgeColumn: nat := 5
  /** Column holding the population in thousands of persons. */
  const PopulationColumn: nat := 11
  /** Populations are recorded in thousands. */
  const Scale: int := 1000

  /** The population a row records, in persons; NaN when the field has no leading number. */
  function RowPopulation(row: Row): Number
    requires |row| > PopulationColumn
  {
    Times(ParseInt(row[PopulationColumn]), Scale)
  }

  /**
   * `populationRows.map(row => [row[5], parseInt(row[11]) * 1000])`: one pair
   * per row, in row order.
   */
  function ConvertAgePopulationRows(rows: seq<Row>): (r: seq<AgePopulation>)
    requires forall i :: 0 <= i < |rows| ==> |rows[i]| >= PopulationFilter.MinFields
    ensures |r| == |rows|
    ensures forall i :: 0 <= i < |rows| ==> r[i].age == rows[i][AgeColumn]
    ensures forall i :: 0 <= i < |rows| ==> r[i].population == RowPopulation(rows[i])
  {
    seq(|rows|, i requires 0 <= i < |rows| => AgePopulation(rows[i][AgeColumn], RowPopulation(rows[i])))
  }

  /** A population field written as a plain integer `v` yields `v` thousand persons. */
  lemma PopulationOfDecimalField(row: Row, v: int)
    requires |row| > PopulationColumn && row[PopulationColumn] == IntToString(v)
    ensures RowPopulation(row) == Num(v * 1000)
  {
    ParseIntOfIntToString(v, "");
    assert IntToString(v) + "" == IntToString(v);
  }
}
