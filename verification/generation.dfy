/**
 * The generation classifier (exec.js, `getGeneration` and
 * `appendGenerationPopulationRows`): an age label is stripped of `歳` and
 * `以上`, read with `parseInt`, and compared against the decade boundaries.
 */
module Generation {
  import opened JsNumber
  import opened JsString
  import opened Records

  /** The bucket of ages below ten. */
  const Under10: string := "10歳未満"
  /** The bucket of ages of a hundred and over; also where an unreadable age ends up. */
  const Hundred: string := "100歳以上"

  /** The eleven buckets, youngest first. */
  const Labels: seq<string> :=
    [Under10, "10代", "20代", "30代", "40代", "50代", "60代", "70代", "80代", "90代", Hundred]

  /**
   * Where an age falls among `Labels`, by arithmetic: the decade of the age,
   * with everything below ten in the first bucket and everything from a
   * hundred on, and NaN, in the last.
   */
  function BucketIndex(age: Number): (k: nat)
    ensures k < |Labels|
  {
    match age
    case NaN => |Labels| - 1
    case Num(a) => if a < 10 then 0 else if a < 100 then a / 10 else |Labels| - 1
  }

  /** The comparison chain of `getGeneration`; NaN fails every `<` and falls to the end. */
  function Classify(age: Number): (g: string)
    ensures g == Labels[BucketIndex(age)]
  {
    if LessThan(age, 10) then Under10
    else if LessThan(age, 20) then "10代"
    else if LessThan(age, 30) then "20代"
    else if LessThan(age, 40) then "30代"
    else if LessThan(age, 50) then "40代"
    else if LessThan(age, 60) then "50代"
    else if LessThan(age, 70) then "60代"
    else if LessThan(age, 80) then "70代"
    else if LessThan(age, 90) then "80代"
    else if LessThan(age, 100) then "90代"
    else Hundred
  }

  /** The text handed to `parseInt`: the label without its first `歳`, then without its first `以上`. */
  function StripAgeLabel(ageString: string): string {
    ReplaceFirst(ReplaceFirst(ageString, "歳", ""), "以上", "")
  }

  /** `getGeneration(ageString)`: always one of the eleven buckets. */
  function GetGeneration(ageString: string): (g: string)
    ensures g in Labels
    ensures g == Labels[BucketIndex(ParseInt(StripAgeLabel(ageString)))]
  {
    Classify(ParseInt(StripAgeLabel(ageString)))
  }

  /** The eleven buckets are pairwise different. */
  lemma LabelsDistinct()
    ensures forall i, j :: 0 <= i < j < |Labels| ==> Labels[i] != Labels[j]
  {
  }

  /** An older age never lands in a younger bucket. */
  lemma ClassifyMonotone(a: int, b: int)
    requires a <= b
    ensures BucketIndex(Num(a)) <= BucketIndex(Num(b))
  {
  }

  /**
   * The buckets are contiguous decades: below ten is `10歳未満`, from `10k`
   * to `10k + 9` is `k0代` for k from 1 to 9, and a hundred on is `100歳以上`.
   */
  lemma ClassifyDecades(a: int)
    ensures a < 10 ==> Classify(Num(a)) == Under10
    ensures 10 <= a < 100 ==> Classify(Num(a)) == DecimalString(a / 10) + "0代"
    ensures a >= 100 ==> Classify(Num(a)) == Hundred
  {
    if 10 <= a < 100 {
      var k := a / 10;
      assert DecimalString(k) == [DigitChar(k)];
      assert 1 <= k <= 9;
      assert Labels[k] == [DigitChar(k)] + "0代" by {
        if k == 1 { } else if k == 2 { } else if k == 3 { } else if k == 4 { }
        else if k == 5 { } else if k == 6 { } else if k == 7 { } else if k == 8 { } else { }
      }
    }
  }

  /** A plain age label `n歳` is classified by the number `n` it spells. */
  lemma GetGenerationOfAge(n: nat)
    ensures GetGeneration(DecimalString(n) + "歳") == Classify(Num(n))
  {
    var d := DecimalString(n);
    assert d + "歳" == d + "歳" + "";
    ReplaceFirstAfter(d, "歳", "", "");
    assert d + "" + "" == d;
    ReplaceFirstNoStart(d, "以上", "");
    assert StripAgeLabel(d + "歳") == d;
    ParseIntOfIntToString(n, "");
    assert IntToString(n) + "" == d;
  }

  /** The top label `100歳以上` is classified into its own bucket. */
  lemma GetGenerationOfHundredPlus()
    ensures GetGeneration(Hundred) == Hundred
  {
    var d := DecimalString(100);
    assert d == "100";
    assert Hundred == d + "歳" + "以上";
    ReplaceFirstAfter(d, "歳", "以上", "");
    assert d + "" + "以上" == d + "以上" + "";
    ReplaceFirstAfter(d, "以上", "", "");
    assert StripAgeLabel(Hundred) == d;
    ParseIntOfIntToString(100, "");
    assert IntToString(100) + "" == d;
  }

  /**
   * A label without a single decimal digit, such as the all-ages `総数`,
   * reads as NaN and falls through every comparison into `100歳以上`.
   */
  lemma GetGenerationOfDigitFree(ageString: string)
    requires forall k :: 0 <= k < |ageString| ==> !IsDecimalDigit(ageString[k])
    ensures GetGeneration(ageString) == Hundred
  {
    var once := ReplaceFirst(ageString, "歳", "");
    var twice := ReplaceFirst(once, "以上", "");
    ReplaceFirstChars(ageString, "歳", "");
    ReplaceFirstChars(once, "以上", "");
    assert forall k :: 0 <= k < |once| ==> !IsDecimalDigit(once[k]);
    assert forall k :: 0 <= k < |twice| ==> !IsDecimalDigit(twice[k]);
    ParseIntNeedsDigit(twice);
  }

  /**
   * `appendGenerationPopulationRows`: each pair gains the bucket of its age
   * label as a third component; ages and populations are carried over as
   * they are, in the same order.
   */
  function AppendGenerationPopulationRows(rows: seq<AgePopulation>): (r: seq<ClassifiedRow>)
    ensures |r| == |rows|
    ensures forall i :: 0 <= i < |rows| ==>
      r[i].age == rows[i].age && r[i].population == rows[i].population
    ensures forall i :: 0 <= i < |rows| ==> r[i].generation == GetGeneration(rows[i].age)
    ensures forall i :: 0 <= i < |rows| ==> r[i].generation in Labels
  {
    seq(|rows|, i requires 0 <= i < |rows| =>
      ClassifiedRow(rows[i].age, rows[i].population, GetGeneration(rows[i].age)))
  }
}
