/**
 * The whole ranking run (exec.js, the `'end'` handler): filter the CSV rows,
 * project them to age and population, classify the ages, total per
 * generation, sort by population and render the ranking text. Reading the
 * CSV and writing the text file are left to the caller.
 */
module Pipeline {
  import opened JsNumber
  import opened Records
  import PopulationFilter
  import Extraction
  import Generation
  import Aggregation
  import Ranking
  import Report

  /**
   * What a run produces: the ranking text, or no determined text because a
   * population total is NaN among two or more totals, so the comparator
   * returns NaN and the order a sort leaves is the engine's choice.
   */
  datatype Outcome = Written(text: string) | NaNPopulation

  /** The kept rows of a batch, projected to age and population and classified by generation. */
  function Classified(rows: seq<Row>): seq<ClassifiedRow> {
    var populationRows := PopulationFilter.FilterPopulationRows(rows);
    var agePopulationRows := Extraction.ConvertAgePopulationRows(populationRows);
    Generation.AppendGenerationPopulationRows(agePopulationRows)
  }

  /** The generation totals of a batch of rows, in order of first appearance. */
  function Totals(rows: seq<Row>): seq<GenerationTotal> {
    Aggregation.ConvertGenerationPopulationRows(Classified(rows))
  }

  /**
   * The run: the stages composed in the order the `'end'` handler calls them.
   * A text is written exactly when ECMA-262 fixes the sorted order: the
   * comparator is consistent for the totals, or there is at most one total,
   * which a sort leaves in place without calling the comparator.
   */
  function Run(rows: seq<Row>): (r: Outcome)
    ensures r.Written? <==> Ranking.ConsistentComparator(Totals(rows)) || |Totals(rows)| <= 1
  {
    var totals := Totals(rows);
    Ranking.ConsistentIff(totals);
    if Ranking.AllNumeric(totals)
    then Written(Report.Render(Ranking.SortGenerationPopulationDescRows(totals), 1))
    else if |totals| == 1 then Written(Report.Render(totals, 1))
    else NaNPopulation
  }

  /** Every row kept by the filter has a population field `parseInt` can read. */
  predicate PopulationsReadable(rows: seq<Row>) {
    var kept := PopulationFilter.FilterPopulationRows(rows);
    forall i :: 0 <= i < |kept| ==> ParseInt(kept[i][Extraction.PopulationColumn]).Num?
  }

  /** Every row sits in its own bucket. */
  lemma RowInBucket(rows: seq<ClassifiedRow>, i: nat)
    requires i < |rows|
    ensures rows[i] in Aggregation.RowsOf(rows, rows[i].generation)
  {
    Aggregation.RowsOfCount(rows, rows[i].generation);
    assert multiset(rows)[rows[i]] > 0;
  }

  /** A bucket holds only rows of the input. */
  lemma BucketRowIn(rows: seq<ClassifiedRow>, g: string, y: ClassifiedRow)
    requires y in Aggregation.RowsOf(rows, g)
    ensures y in rows
  {
    Aggregation.RowsOfCount(rows, g);
    assert multiset(Aggregation.RowsOf(rows, g))[y] > 0;
  }

  /** A bucket total is NaN exactly when some classified row has a NaN population. */
  lemma TotalsNaN(classified: seq<ClassifiedRow>)
    ensures Ranking.AllNumeric(Aggregation.ConvertGenerationPopulationRows(classified))
      <==> forall i :: 0 <= i < |classified| ==> classified[i].population.Num?
  {
    var totals := Aggregation.ConvertGenerationPopulationRows(classified);
    var gs := Aggregation.ExtractGenerations(classified);
    if i :| 0 <= i < |classified| && classified[i].population == NaN {
      var g := classified[i].generation;
      assert g in gs;
      var j :| 0 <= j < |gs| && gs[j] == g;
      var bucket := Aggregation.RowsOf(classified, g);
      RowInBucket(classified, i);
      var k :| 0 <= k < |bucket| && bucket[k] == classified[i];
      Aggregation.TotalNaN(bucket);
      assert totals[j].population == NaN;
    }
    if j :| 0 <= j < |totals| && totals[j].population == NaN {
      var bucket := Aggregation.RowsOf(classified, totals[j].generation);
      Aggregation.TotalNaN(bucket);
      var k :| 0 <= k < |bucket| && bucket[k].population == NaN;
      BucketRowIn(classified, totals[j].generation, bucket[k]);
      var i :| 0 <= i < |classified| && classified[i] == bucket[k];
    }
  }

  /** Rows of twelve or more fields classify into rows carrying numbers exactly when every population field is readable. */
  lemma ClassifiedOfKept(kept: seq<Row>)
    requires forall i :: 0 <= i < |kept| ==> |kept[i]| >= PopulationFilter.MinFields
    ensures var classified := Generation.AppendGenerationPopulationRows(Extraction.ConvertAgePopulationRows(kept));
      (forall i :: 0 <= i < |classified| ==> classified[i].population.Num?)
      <==> forall i :: 0 <= i < |kept| ==> ParseInt(kept[i][Extraction.PopulationColumn]).Num?
  {
    PairsReadable(kept);
    ClassifiedKeepsNumbers(Extraction.ConvertAgePopulationRows(kept));
  }

  /** The age and population pairs carry numbers exactly when every population field is readable. */
  lemma PairsReadable(kept: seq<Row>)
    requires forall i :: 0 <= i < |kept| ==> |kept[i]| >= PopulationFilter.MinFields
    ensures var pairs := Extraction.ConvertAgePopulationRows(kept);
      (forall i :: 0 <= i < |pairs| ==> pairs[i].population.Num?)
      <==> forall i :: 0 <= i < |kept| ==> ParseInt(kept[i][Extraction.PopulationColumn]).Num?
  {
    var pairs := Extraction.ConvertAgePopulationRows(kept);
    assert forall i :: 0 <= i < |pairs| ==> pairs[i].population == Extraction.RowPopulation(kept[i]);
  }

  /** Classifying keeps every population, so the numbers stay numbers and NaN stays NaN. */
  lemma ClassifiedKeepsNumbers(pairs: seq<AgePopulation>)
    ensures var classified := Generation.AppendGenerationPopulationRows(pairs);
      (forall i :: 0 <= i < |classified| ==> classified[i].population.Num?)
      <==> forall i :: 0 <= i < |pairs| ==> pairs[i].population.Num?
  {
    var classified := Generation.AppendGenerationPopulationRows(pairs);
    assert forall i :: 0 <= i < |classified| ==> classified[i].population == pairs[i].population;
  }

  /** The classified rows all carry numbers exactly when every kept row's population field is readable. */
  lemma ClassifiedReadable(rows: seq<Row>)
    ensures (forall i :: 0 <= i < |Classified(rows)| ==> Classified(rows)[i].population.Num?)
      <==> PopulationsReadable(rows)
  {
    var kept := PopulationFilter.FilterPopulationRows(rows);
    var classified := Generation.AppendGenerationPopulationRows(Extraction.ConvertAgePopulationRows(kept));
    assert Classified(rows) == classified;
    ClassifiedOfKept(kept);
    assert (forall i :: 0 <= i < |classified| ==> classified[i].population.Num?) <==> PopulationsReadable(rows);
  }

  /** The generation totals are all numbers exactly when every kept row's population field is readable. */
  lemma TotalsNumericIff(rows: seq<Row>)
    ensures Ranking.AllNumeric(Totals(rows)) <==> PopulationsReadable(rows)
  {
    TotalsNaN(Classified(rows));
    ClassifiedReadable(rows);
  }

  /**
   * A run yields a ranking exactly when every kept row's population field
   * is readable or the kept rows make at most one generation; otherwise an
   * unreadable field turns its generation's total into NaN.
   */
  lemma RunWrittenIff(rows: seq<Row>)
    ensures Run(rows).Written? <==> PopulationsReadable(rows) || |Totals(rows)| <= 1
  {
    TotalsNumericIff(rows);
    Ranking.ConsistentIff(Totals(rows));
  }

  /** A sequence without repeats drawn from `l` is no longer than `l`. */
  lemma {:induction false} NoDuplicatesWithin(r: seq<string>, l: seq<string>)
    requires Aggregation.NoDuplicates(r)
    requires forall i :: 0 <= i < |r| ==> r[i] in l
    ensures |r| <= |l|
    decreases |r|
  {
    if |r| > 0 {
      var x := r[|r| - 1];
      var r' := r[..|r| - 1];
      var k := Aggregation.FirstIndex(l, x);
      var l' := l[..k] + l[k + 1..];
      forall i | 0 <= i < |r'|
        ensures r'[i] in l'
      {
        var y := r[i];
        assert y != x;
        var m :| 0 <= m < |l| && l[m] == y;
        if m < k {
          assert l'[m] == y;
        } else {
          assert l'[m - 1] == y;
        }
      }
      NoDuplicatesWithin(r', l');
    }
  }

  /**
   * Classified rows fall into at most the eleven generations, and into all
   * eleven exactly when each of them occurs.
   */
  lemma BucketCount(classified: seq<ClassifiedRow>)
    requires forall i :: 0 <= i < |classified| ==> classified[i].generation in Generation.Labels
    ensures |Aggregation.ExtractGenerations(classified)| <= |Generation.Labels|
    ensures (forall i :: 0 <= i < |Generation.Labels| ==> Generation.Labels[i] in Aggregation.ExtractGenerations(classified))
      ==> |Aggregation.ExtractGenerations(classified)| == |Generation.Labels|
  {
    var gs := Aggregation.ExtractGenerations(classified);
    forall i | 0 <= i < |gs|
      ensures gs[i] in Generation.Labels
    {
      assert gs[i] in gs;
      var j :| 0 <= j < |classified| && classified[j].generation == gs[i];
    }
    NoDuplicatesWithin(gs, Generation.Labels);
    if forall i :: 0 <= i < |Generation.Labels| ==> Generation.Labels[i] in gs {
      Generation.LabelsDistinct();
      NoDuplicatesWithin(Generation.Labels, gs);
    }
  }

  /**
   * The ranking lists each generation at most once, so it never has more
   * than eleven entries, and has exactly eleven when every generation occurs.
   */
  lemma AtMostElevenGenerations(rows: seq<Row>)
    ensures |Totals(rows)| <= |Generation.Labels|
    ensures (forall i :: 0 <= i < |Generation.Labels| ==> exists j :: 0 <= j < |Totals(rows)| && Totals(rows)[j].generation == Generation.Labels[i])
      ==> |Totals(rows)| == |Generation.Labels|
  {
    var totals := Totals(rows);
    var kept := PopulationFilter.FilterPopulationRows(rows);
    var classified := Generation.AppendGenerationPopulationRows(Extraction.ConvertAgePopulationRows(kept));
    var gs := Aggregation.ExtractGenerations(classified);
    assert |totals| == |gs|;
    assert forall j :: 0 <= j < |totals| ==> totals[j].generation == gs[j];
    BucketCount(classified);
  }

  /** Every generation a run can list is one of the eleven labels. */
  lemma TotalsLabelled(rows: seq<Row>)
    ensures forall j :: 0 <= j < |Totals(rows)| ==> Totals(rows)[j].generation in Generation.Labels
  {
    var kept := PopulationFilter.FilterPopulationRows(rows);
    var classified := Generation.AppendGenerationPopulationRows(Extraction.ConvertAgePopulationRows(kept));
    var gs := Aggregation.ExtractGenerations(classified);
    forall j | 0 <= j < |gs|
      ensures gs[j] in Generation.Labels
    {
      assert gs[j] in gs;
      var i :| 0 <= i < |classified| && classified[i].generation == gs[j];
    }
  }

  /** No generation label contains a line break. */
  lemma LabelsSingleLine()
    ensures forall i :: 0 <= i < |Generation.Labels| ==> '\n' !in Generation.Labels[i]
  {
  }

  /** Sorted and rendered, labelled totals read back as one line per total. */
  lemma SortedLines(totals: seq<GenerationTotal>)
    requires Ranking.AllNumeric(totals)
    requires forall j :: 0 <= j < |totals| ==> totals[j].generation in Generation.Labels
    ensures Report.SplitLines(Report.Render(Ranking.SortGenerationPopulationDescRows(totals), 1))
      == Report.LineTexts(Ranking.SortGenerationPopulationDescRows(totals), 1)
    ensures |Ranking.SortGenerationPopulationDescRows(totals)| == |totals|
  {
    var sorted := Ranking.SortGenerationPopulationDescRows(totals);
    LabelsSingleLine();
    forall i | 0 <= i < |sorted|
      ensures '\n' !in sorted[i].generation
    {
      assert sorted[i] in multiset(totals);
      var j :| 0 <= j < |totals| && totals[j] == sorted[i];
      var k :| 0 <= k < |Generation.Labels| && Generation.Labels[k] == totals[j].generation;
    }
    Report.RenderLines(sorted, 1);
    assert |sorted| == |multiset(sorted)| == |multiset(totals)| == |totals|;
  }

  /** With every population field readable, the run writes the sorted totals. */
  lemma RunReadable(rows: seq<Row>)
    requires PopulationsReadable(rows)
    ensures Ranking.AllNumeric(Totals(rows))
    ensures Run(rows) == Written(Report.Render(Ranking.SortGenerationPopulationDescRows(Totals(rows)), 1))
  {
    TotalsNumericIff(rows);
  }

  /**
   * Read back line by line, a written report has one line per generation
   * present, ranked 1, 2, ... in sorted order, and so at most eleven lines.
   */
  lemma RunLines(rows: seq<Row>)
    requires PopulationsReadable(rows)
    ensures Run(rows).Written? && Ranking.AllNumeric(Totals(rows))
    ensures Report.SplitLines(Run(rows).text)
      == Report.LineTexts(Ranking.SortGenerationPopulationDescRows(Totals(rows)), 1)
    ensures |Report.SplitLines(Run(rows).text)| <= |Generation.Labels|
  {
    var totals := Totals(rows);
    RunReadable(rows);
    TotalsLabelled(rows);
    SortedLines(totals);
    AtMostElevenGenerations(rows);
  }

  /** One row that qualifies passes the filter unchanged. */
  lemma OneKept(row: Row)
    requires PopulationFilter.IsPopulationRow(row)
    ensures PopulationFilter.FilterPopulationRows([row]) == [row]
  {
    assert [row][1..] == [];
  }

  /** One classified row makes one total: its own generation and population. */
  lemma OneRowTotals(c: ClassifiedRow)
    ensures Aggregation.ConvertGenerationPopulationRows([c]) == [GenerationTotal(c.generation, c.population)]
  {
    var g := c.generation;
    assert Aggregation.GenerationsOf([c]) == [g];
    assert [g][..0] == [];
    assert Aggregation.Distinct([g]) == [g];
    assert [c][..0] == [];
    assert Aggregation.RowsOf([c], g) == [c];
    OneTotal(c);
  }

  /** The single total of a single kept row. */
  function OneRowTotal(row: Row): GenerationTotal
    requires |row| > Extraction.PopulationColumn
  {
    GenerationTotal(Generation.GetGeneration(row[Extraction.AgeColumn]), Extraction.RowPopulation(row))
  }

  /** One row becomes one age and population pair. */
  lemma OneAgePopulation(row: Row)
    requires |row| >= PopulationFilter.MinFields
    ensures Extraction.ConvertAgePopulationRows([row]) ==
      [AgePopulation(row[Extraction.AgeColumn], Extraction.RowPopulation(row))]
  {
  }

  /** One age pair becomes one classified row. */
  lemma OneClassified(a: AgePopulation)
    ensures Generation.AppendGenerationPopulationRows([a]) ==
      [ClassifiedRow(a.age, a.population, Generation.GetGeneration(a.age))]
  {
    var r := Generation.AppendGenerationPopulationRows([a]);
    assert |r| == 1;
    assert r[0] == ClassifiedRow(a.age, a.population, Generation.GetGeneration(a.age));
  }

  /** A single kept row makes a single generation total. */
  lemma OneRowTotalsOf(row: Row)
    requires PopulationFilter.IsPopulationRow(row)
    ensures Totals([row]) == [OneRowTotal(row)]
  {
    var a := AgePopulation(row[Extraction.AgeColumn], Extraction.RowPopulation(row));
    var c := ClassifiedRow(a.age, a.population, Generation.GetGeneration(a.age));
    OneKept(row);
    OneAgePopulation(row);
    OneClassified(a);
    OneRowTotals(c);
  }

  /** One entry renders as one line. */
  lemma RenderOne(t: GenerationTotal, first: nat)
    ensures Report.Render([t], first) == Report.Line(first, t)
  {
    assert [t][1..] == [];
    assert Report.Line(first, t) + "" == Report.Line(first, t);
  }

  /** One numeric entry is already sorted. */
  lemma SortOne(t: GenerationTotal)
    requires t.population.Num?
    ensures Ranking.AllNumeric([t])
    ensures Ranking.SortGenerationPopulationDescRows([t]) == [t]
  {
    assert [t][1..] == [];
  }

  /** A run over one total writes that total as the only line. */
  lemma OneTotalRun(rows: seq<Row>, t: GenerationTotal)
    requires Totals(rows) == [t]
    ensures Run(rows) == Written(Report.Line(1, t))
  {
    RenderOne(t, 1);
    if t.population.Num? {
      SortOne(t);
    }
  }

  /**
   * A single kept row is ranked alone, whatever its population field holds:
   * a one-entry array is sorted without a call to the comparator.
   */
  lemma OneRowRun(row: Row)
    requires PopulationFilter.IsPopulationRow(row)
    ensures Run([row]) == Written(Report.Line(1, OneRowTotal(row)))
  {
    OneRowTotalsOf(row);
    OneTotalRun([row], OneRowTotal(row));
  }

  /**
   * A single kept row whose population field is unreadable is still written
   * out, with `NaN` as its population.
   */
  lemma OneUnreadableRowRun(row: Row)
    requires PopulationFilter.IsPopulationRow(row)
    requires ParseInt(row[Extraction.PopulationColumn]) == NaN
    ensures Run([row]) == Written("1位: " + Generation.GetGeneration(row[Extraction.AgeColumn]) + " NaN\n")
  {
    var g := Generation.GetGeneration(row[Extraction.AgeColumn]);
    OneRowRun(row);
    assert OneRowTotal(row) == GenerationTotal(g, NaN);
    LineOfNaN(g);
  }

  /** The first line for a NaN total. */
  lemma LineOfNaN(g: string)
    ensures Report.Line(1, GenerationTotal(g, NaN)) == "1位: " + g + " NaN\n"
  {
    assert DecimalString(1) == "1";
    assert ToDisplayString(NaN) == "NaN";
  }


  /** The first sample row of the source comments: age 0, 894 thousand persons. */
  const SampleRowAge0: Row :=
    ["001", "男女計", "001", "総人口", "01001", "0歳", "00000", "全国", "1201", "2019年10月1日現在", "千人", "894", ""]

  /** The second sample row of the source comments: age 100 and over, 69 thousand persons. */
  const SampleRowAge100: Row :=
    ["001", "男女計", "001", "総人口", "01101", "100歳以上", "00000", "全国", "1201", "2019年10月1日現在", "千人", "69", ""]

  /** The totals the two sample rows produce. */
  const SampleTotal0 := GenerationTotal(Generation.Under10, Num(894000))
  const SampleTotal1 := GenerationTotal(Generation.Hundred, Num(69000))

  /** Two rows that both qualify pass the filter unchanged. */
  lemma TwoKept(r0: Row, r1: Row)
    requires PopulationFilter.IsPopulationRow(r0) && PopulationFilter.IsPopulationRow(r1)
    ensures PopulationFilter.FilterPopulationRows([r0, r1]) == [r0, r1]
  {
    assert [r0, r1][1..] == [r1];
    assert [r1][1..] == [];
  }

  /** The digits the sample needs, unfolded one place at a time. */
  lemma SampleDigits()
    ensures DecimalString(0) == "0" && DecimalString(1) == "1" && DecimalString(2) == "2"
    ensures DecimalString(69) == "69" && DecimalString(894) == "894"
    ensures DecimalString(69000) == "69000" && DecimalString(894000) == "894000"
  {
    assert DecimalString(6) == "6";
    assert DecimalString(69) == "69";
    assert DecimalString(690) == "690";
    assert DecimalString(6900) == "6900";
    assert DecimalString(69000) == "69000";
    assert DecimalString(8) == "8";
    assert DecimalString(89) == "89";
    assert DecimalString(894) == "894";
    assert DecimalString(8940) == "8940";
    assert DecimalString(89400) == "89400";
    assert DecimalString(894000) == "894000";
  }

  /** Two rows become two age and population pairs, in order. */
  lemma TwoAgePopulations(r0: Row, r1: Row)
    requires |r0| >= PopulationFilter.MinFields && |r1| >= PopulationFilter.MinFields
    ensures Extraction.ConvertAgePopulationRows([r0, r1]) == [
      AgePopulation(r0[Extraction.AgeColumn], Extraction.RowPopulation(r0)),
      AgePopulation(r1[Extraction.AgeColumn], Extraction.RowPopulation(r1))]
  {
  }

  /** Two age pairs become two classified rows, in order. */
  lemma TwoClassified(a0: AgePopulation, a1: AgePopulation)
    ensures Generation.AppendGenerationPopulationRows([a0, a1]) == [
      ClassifiedRow(a0.age, a0.population, Generation.GetGeneration(a0.age)),
      ClassifiedRow(a1.age, a1.population, Generation.GetGeneration(a1.age))]
  {
    var r := Generation.AppendGenerationPopulationRows([a0, a1]);
    assert |r| == 2;
    assert r[0] == ClassifiedRow(a0.age, a0.population, Generation.GetGeneration(a0.age));
    assert r[1] == ClassifiedRow(a1.age, a1.population, Generation.GetGeneration(a1.age));
  }

  /** Two rows of different generations are two generations, in row order. */
  lemma TwoGenerations(c0: ClassifiedRow, c1: ClassifiedRow)
    requires c0.generation != c1.generation
    ensures Aggregation.ExtractGenerations([c0, c1]) == [c0.generation, c1.generation]
  {
    var u, h := c0.generation, c1.generation;
    assert Aggregation.GenerationsOf([c0, c1]) == [u, h];
    assert [u, h][..1] == [u];
    assert [u][..0] == [];
    assert Aggregation.Distinct([u]) == [u];
    assert Aggregation.Distinct([u, h]) == [u, h];
  }

  /** Each of two rows of different generations is alone in its bucket. */
  lemma TwoBuckets(c0: ClassifiedRow, c1: ClassifiedRow)
    requires c0.generation != c1.generation
    ensures Aggregation.RowsOf([c0, c1], c0.generation) == [c0]
    ensures Aggregation.RowsOf([c0, c1], c1.generation) == [c1]
  {
    assert [c0, c1][..1] == [c0];
    assert [c0][..0] == [];
    assert Aggregation.RowsOf([c0], c0.generation) == [c0];
    assert Aggregation.RowsOf([c0], c1.generation) == [];
  }

  /** A single row's total is its population. */
  lemma OneTotal(c: ClassifiedRow)
    ensures Aggregation.Total([c]) == Add(Num(0), c.population)
  {
    assert [c][..0] == [];
  }

  /** Two rows of different generations make two one-row totals, in row order. */
  lemma TwoTotals(c0: ClassifiedRow, c1: ClassifiedRow)
    requires c0.generation != c1.generation
    ensures Aggregation.ConvertGenerationPopulationRows([c0, c1]) == [
      GenerationTotal(c0.generation, Add(Num(0), c0.population)),
      GenerationTotal(c1.generation, Add(Num(0), c1.population))]
  {
    TwoGenerations(c0, c1);
    TwoBuckets(c0, c1);
    OneTotal(c0);
    OneTotal(c1);
  }

  /** Two totals already in descending order stay as they are. */
  lemma TwoSorted(t0: GenerationTotal, t1: GenerationTotal)
    requires t0.population.Num? && t1.population.Num?
    requires t0.population.value > t1.population.value
    ensures Ranking.SortGenerationPopulationDescRows([t0, t1]) == [t0, t1]
  {
    assert [t0, t1][1..] == [t1];
    assert [t1][1..] == [];
    assert Ranking.SortGenerationPopulationDescRows([t1]) == [t1];
  }

  /** Two totals render as two lines ranked 1 and 2. */
  lemma TwoRendered(t0: GenerationTotal, t1: GenerationTotal)
    ensures Report.Render([t0, t1], 1) == Report.Line(1, t0) + Report.Line(2, t1)
  {
    assert [t0, t1][1..] == [t1];
    assert [t1][1..] == [];
    assert Report.Render([t1], 2) == Report.Line(2, t1) + "";
  }

  /** A row of both sexes' total population for one age label and one population field. */
  predicate RowOf(row: Row, age: string, population: string) {
    && PopulationFilter.IsPopulationRow(row)
    && row[Extraction.AgeColumn] == age
    && row[Extraction.PopulationColumn] == population
  }

  /**
   * Two rows shaped like the sample rows: age `0歳` with `894` thousand
   * persons, then `100歳以上` with `69` thousand.
   */
  predicate SampleShaped(r0: Row, r1: Row) {
    && RowOf(r0, DecimalString(0) + "歳", DecimalString(894))
    && RowOf(r1, Generation.Hundred, DecimalString(69))
  }

  /** The sample rows are such rows: age `0歳` with `894`, and `100歳以上` with `69`. */
  lemma SampleRowsFit()
    ensures SampleShaped(SampleRowAge0, SampleRowAge100)
  {
    SampleDigits();
  }

  /** The first sample line. */
  lemma SampleLine0(t0: GenerationTotal)
    requires t0.generation == Generation.Under10 && t0.population == Num(894000)
    ensures Report.Line(1, t0) == "1位: 10歳未満 894000\n"
  {
    SampleDigits();
    assert ToDisplayString(t0.population) == "894000";
  }

  /** The second sample line. */
  lemma SampleLine1(t1: GenerationTotal)
    requires t1.generation == Generation.Hundred && t1.population == Num(69000)
    ensures Report.Line(2, t1) == "2位: 100歳以上 69000\n"
  {
    SampleDigits();
    assert ToDisplayString(t1.population) == "69000";
  }

  /** A row under ten and a row at a hundred and over make the two sample totals. */
  lemma SampleBucketTotals(c0: ClassifiedRow, c1: ClassifiedRow)
    requires c0.generation == Generation.Under10 && c1.generation == Generation.Hundred
    requires c0.population == Num(894000) && c1.population == Num(69000)
    ensures Aggregation.ConvertGenerationPopulationRows([c0, c1]) == [SampleTotal0, SampleTotal1]
  {
    assert c0.generation != c1.generation by { assert c0.generation[2] != c1.generation[2]; }
    TwoTotals(c0, c1);
  }

  /** Two numeric totals, the larger first, are ranked 1 and 2 in that order. */
  lemma TwoRanked(t0: GenerationTotal, t1: GenerationTotal)
    requires t0.population.Num? && t1.population.Num?
    requires t0.population.value > t1.population.value
    ensures Ranking.AllNumeric([t0, t1])
    ensures Report.Render(Ranking.SortGenerationPopulationDescRows([t0, t1]), 1) == Report.Line(1, t0) + Report.Line(2, t1)
  {
    TwoSorted(t0, t1);
    TwoRendered(t0, t1);
  }

  /** Rows shaped like the sample rows classify as age 0 and as 100 and over. */
  lemma ShapedClassified(r0: Row, r1: Row)
    requires SampleShaped(r0, r1)
    ensures Classified([r0, r1])
      == [ClassifiedRow(r0[Extraction.AgeColumn], Num(894000), Generation.Under10),
          ClassifiedRow(r1[Extraction.AgeColumn], Num(69000), Generation.Hundred)]
  {
    TwoKept(r0, r1);
    TwoAgePopulations(r0, r1);
    Extraction.PopulationOfDecimalField(r0, 894);
    Extraction.PopulationOfDecimalField(r1, 69);
    TwoClassified(AgePopulation(r0[Extraction.AgeColumn], Num(894000)), AgePopulation(r1[Extraction.AgeColumn], Num(69000)));
    Generation.GetGenerationOfAge(0);
    Generation.GetGenerationOfHundredPlus();
  }

  /** Rows shaped like the sample rows total 894 thousand under ten and 69 thousand at a hundred and over. */
  lemma ShapedTotals(r0: Row, r1: Row)
    requires SampleShaped(r0, r1)
    ensures Totals([r0, r1]) == [SampleTotal0, SampleTotal1]
  {
    var c0 := ClassifiedRow(r0[Extraction.AgeColumn], Num(894000), Generation.Under10);
    var c1 := ClassifiedRow(r1[Extraction.AgeColumn], Num(69000), Generation.Hundred);
    ShapedClassified(r0, r1);
    SampleBucketTotals(c0, c1);
  }

  /**
   * Any two rows shaped like the sample rows (age 0 with 894 thousand
   * persons, then 100 and over with 69 thousand) rank as the comments show,
   * whatever their other fields hold.
   */
  lemma SampleShapedRun(r0: Row, r1: Row)
    requires SampleShaped(r0, r1)
    ensures Run([r0, r1]) == Written("1位: 10歳未満 894000\n" + "2位: 100歳以上 69000\n")
  {
    ShapedTotals(r0, r1);
    TwoRanked(SampleTotal0, SampleTotal1);
    SampleLine0(SampleTotal0);
    SampleLine1(SampleTotal1);
  }

  /** The two sample rows of the source comments rank as the comments show. */
  lemma SampleRun()
    ensures Run([SampleRowAge0, SampleRowAge100]) == Written("1位: 10歳未満 894000\n" + "2位: 100歳以上 69000\n")
  {
    SampleRowsFit();
    SampleShapedRun(SampleRowAge0, SampleRowAge100);
  }
}
