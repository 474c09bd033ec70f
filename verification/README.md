# Population ranking by generation — a Dafny model

`exec.js` reads the Japanese population estimate CSV (one row per sex,
population kind and age) and writes a ranking of the eleven generations
(`10歳未満`, `10代`, …, `90代`, `100歳以上`) by total population. Once the
CSV has been parsed into rows of fields, the work is a chain of pure
sequence functions, and that chain is what this project models:

| module | file | models |
|---|---|---|
| `JsNumber` | `js_number.dfy` | the JavaScript number values the script meets: integers and `NaN`, `+`, `*`, `<`, `parseInt` without a radix (section 19.2.5 of ECMA-262), and the decimal text a template literal prints |
| `JsString` | `js_string.dfy` | `String.prototype.replace` with a string pattern and a replacement free of `$` patterns: only the leftmost occurrence is replaced |
| `Records` | `records.dfy` | the row shapes: a CSV row, the (age, population) pair, the pair with its generation, the (generation, total) pair |
| `PopulationFilter` | `population_filter.dfy` | `filterPopulationRows` |
| `Extraction` | `extraction.dfy` | `convertAgePopulationRows` |
| `Generation` | `generation.dfy` | `getGeneration`, `appendGenerationPopulationRows` |
| `Aggregation` | `aggregation.dfy` | `extractGenerations`, `convertGenerationPopulationRows`, plus a one-pass group-by as an independent reference |
| `Ranking` | `ranking.dfy` | `sortGenerationPopulationDescRows`, as the stable sort ECMA-262 requires |
| `Report` | `report.dfy` | `convertOutPutString`, and reading the text back line by line |
| `Pipeline` | `pipeline.dfy` | the `'end'` handler's composition of the six stages |

A population field that `parseInt` cannot read yields `NaN`. The `NaN` then
flows through `* 1000` and the per-generation sum, so `Number` carries `NaN`
explicitly. An age label whose stripped text has no leading number parses
to `NaN` as well. That covers every label without a digit, such as `総数`,
but not `" 5歳"` or `"+5歳"`, which `parseInt` reads as 5. Every `<`
comparison against `NaN` is false, so such a label falls through the whole
comparison chain of `getGeneration` into `100歳以上`. The code has this
implicit fallback bucket, and the model follows the code: `Generation.GetGeneration`
is total, and `Generation.GetGenerationOfDigitFree` shows every digit-free
label landing in `100歳以上`.

The sort comparator `b[1] - a[1]` returns `NaN` whenever either total is
`NaN`. Section 23.1.3.30 of ECMA-262 calls a comparator consistent only
when it returns a number that is not `NaN` for every pair of elements,
an element paired with itself included. `Ranking.ConsistentIff` proves
that the comparator is consistent for a list of totals exactly when every
total is a number. For an inconsistent comparator the standard leaves the
order to the engine. A list of one element is the exception, because a
sort never calls the comparator on it. So `Pipeline.Run` writes the text
when the totals are all numbers, and when there is at most one total, even
a `NaN` one (`Pipeline.OneUnreadableRowRun` gives `1位: 10歳未満 NaN`).
With two or more totals and a `NaN` among them it returns `NaNPopulation`
instead of choosing an order. `Pipeline.RunWrittenIff` proves that a text
comes out exactly when every kept row's population field is readable or
the kept rows fall into at most one generation.

## Model

| member | source | states |
|---|---|---|
| PopulationFilter.FilterPopulationRows | exec.js:39-54 | every kept row has at least 12 fields, `男女計` in column 1, `総人口` in column 3 and not `総数` in column 5; every input row meeting all four is kept, as often as it occurs, and no other row is; the result is an order-preserving subsequence of the input |
| PopulationFilter.ShortRowDropped | exec.js:41-43 | a row with fewer than 12 fields is dropped whatever it contains |
| PopulationFilter.AllAgesRowDropped | exec.js:50-52 | the all-ages `総数` row is dropped even when the other conditions hold |
| Extraction.ConvertAgePopulationRows | exec.js:60-67 | one pair per row, in order; the i-th pair is the i-th row's column 5 and its column 11 read by `parseInt` and multiplied by 1000 |
| Extraction.PopulationOfDecimalField | exec.js:64 | a population field holding the decimal text of `v` yields exactly `v * 1000` persons |
| JsNumber.ParseInt | exec.js:84 | `parseInt` as used at exec.js:64 and exec.js:84; no contract of its own, its behaviour is stated by ParseIntOfIntToString, ParseIntNeedsDigit and ParseIntNaN |
| JsNumber.ParseIntOfIntToString | exec.js:84 | `parseInt` reads back the integer a template literal printed, whatever follows it, unless the next character continues the digits or the integer is a lone `0` followed by `x` or `X` |
| JsNumber.ParseIntNeedsDigit | exec.js:64 | `parseInt` yields a number only from text that holds a decimal digit |
| JsNumber.ParseIntNaN | exec.js:84 | text starting with no white space, sign or digit parses to `NaN` |
| JsNumber.DecimalStringValue | exec.js:175 | the printed digits of `n` denote `n` |
| JsString.ReplaceFirst | exec.js:84 | the result either is as long as the input, when nothing was replaced, or is one pattern shorter and one replacement longer |
| JsString.ReplaceFirstChars | exec.js:84 | every character of the result comes from the input or from the replacement, so a replacement cannot bring in a digit |
| JsString.ReplaceFirstAt | exec.js:84 | `replace` substitutes the leftmost occurrence of the pattern and keeps everything before and after it |
| JsString.ReplaceFirstAbsent | exec.js:84 | a pattern that does not occur leaves the text unchanged |
| Generation.Classify | exec.js:85-115 | the comparison chain picks the bucket whose index is the age's decade: 0 below ten, `a / 10` from ten to 99, the last bucket from a hundred on and for `NaN` |
| Generation.GetGeneration | exec.js:83-116 | the result is always one of the eleven labels, namely the bucket of the stripped label read by `parseInt` |
| Generation.LabelsDistinct | exec.js:85-115 | the eleven labels the chain can return are pairwise different |
| Generation.ClassifyMonotone | exec.js:85-115 | an older age never lands in a younger bucket |
| Generation.ClassifyDecades | exec.js:85-115 | below ten gives `10歳未満`; from `10k` to `10k + 9` gives `k0代` for k from 1 to 9; a hundred and over gives `100歳以上` |
| Generation.GetGenerationOfAge | exec.js:83-84 | a label `n歳` is classified by the number `n` |
| Generation.GetGenerationOfHundredPlus | exec.js:83-116 | `100歳以上` maps to itself |
| Generation.GetGenerationOfDigitFree | exec.js:83-116 | any label without a decimal digit, such as `総数`, reads as `NaN` and falls through every comparison into `100歳以上` |
| Generation.AppendGenerationPopulationRows | exec.js:72-81 | same length and order; age and population are carried over, and each row gains the generation of its age label, one of the eleven |
| Aggregation.Distinct | exec.js:156 | no duplicates, and exactly the elements of the input |
| Aggregation.DistinctFirstOccurrence | exec.js:156 | the elements come out in the order of their first occurrence in the input |
| Aggregation.ExtractGenerations | exec.js:150-157 | duplicate-free, and holding exactly the generations some row carries |
| Aggregation.ExtractGenerationsOrder | exec.js:150-157 | generations come out in the order their first row comes in |
| Aggregation.ConvertGenerationPopulationRows | exec.js:121-145 | one entry per distinct generation, in first-occurrence order, each holding the sum of the populations of exactly the rows of that generation |
| Aggregation.RowsOf | exec.js:127-132 | a generation's rows are no more than the input rows, and every one of them carries that generation |
| Aggregation.RowsOfCount | exec.js:127-132 | a generation's rows are the input rows of that generation, each as often as in the input, and no others |
| Aggregation.Total | exec.js:135-137 | a sum that is a number comes only from rows whose populations are all numbers |
| Aggregation.TotalNaN | exec.js:135-137 | a sum is `NaN` exactly when one of its populations is `NaN` |
| Aggregation.ConvertMatchesGroupSums | exec.js:121-145 | the totals agree with an independent one-pass group-by: same generations, same sums |
| Aggregation.GrandTotal | exec.js:121-145 | the totals add up to the sum of all input populations: grouping loses nothing and counts nothing twice |
| Aggregation.TotalReorder | exec.js:135-137 | the sum does not depend on the order of the rows |
| Aggregation.BucketTotalsReorder | exec.js:127-137 | reordering the input rows changes no generation's total |
| Ranking.ConsistentIff | exec.js:161-163 | the comparator `b[1] - a[1]` is consistent in the sense of ECMA-262 for a list of totals exactly when every total is a number |
| Ranking.NonIncreasingByComparator | exec.js:161-163 | on numeric totals, populations never increase exactly when the comparator never says that an earlier entry belongs after a later one |
| Ranking.SortGenerationPopulationDescRows | exec.js:160-164 | the result is a permutation of the input whose populations never increase |
| Ranking.SortStable | exec.js:161-163 | entries with equal populations keep their input order |
| Ranking.SortIsTheStableSort | exec.js:160-164 | any non-increasing reordering that keeps equal populations in input order is this result, so the output is fully determined |
| Report.ConvertOutPutString | exec.js:171-179 | the loop builds the lines ranked 1, 2, … for the entries in order; the text is empty exactly for no entries and otherwise ends in a newline |
| Report.LineText | exec.js:175 | a ranking line holds a line break exactly when the generation label does |
| Report.RenderLines | exec.js:174-177 | split at newlines, the text has exactly one line per entry, the i-th reading `rank位: generation population` with rank `i + 1` |
| Report.LineRank | exec.js:175 | `parseInt` of a line gives back its rank |
| Pipeline.TotalsNaN | exec.js:121-145 | some generation total is `NaN` exactly when some classified row's population is `NaN` |
| Pipeline.Run | exec.js:15-25 | a text is written exactly when the comparator is consistent for the totals or there is at most one total, the cases where ECMA-262 fixes the sorted order |
| Pipeline.TotalsNumericIff | exec.js:15-21 | the generation totals are all numbers exactly when every kept row's population field is readable |
| Pipeline.RunWrittenIff | exec.js:15-25 | a run produces a ranking exactly when every kept row's population field is readable or the kept rows fall into at most one generation |
| Pipeline.AtMostElevenGenerations | exec.js:147-157 | the ranking has at most eleven entries, and exactly eleven when every generation occurs |
| Pipeline.RunLines | exec.js:15-25 | a readable input yields a text of one line per generation present, ranked in sorted order, at most eleven lines |
| Pipeline.OneRowRun | exec.js:15-25 | a single qualifying row yields the one line ranking its generation first with the row's population |
| Pipeline.OneUnreadableRowRun | exec.js:15-25 | a single qualifying row with an unreadable population field yields `1位: <generation> NaN` |
| Pipeline.SampleShapedRun | exec.js:15-25 | two kept rows with ages `0歳` and `100歳以上` and populations `894` and `69` rank as `1位: 10歳未満 894000` then `2位: 100歳以上 69000`, whatever their other fields hold |
| Pipeline.SampleRun | exec.js:37-38 | the two sample rows of the comments produce exactly those two lines |

## Left out

- Reading `popu_source.csv`, the `csv-parser` stream, the `'data'` and `'end'` events, and writing `popu_ranking.txt` (exec.js:1-13, 27-28). These are file and event I/O through a library that is not part of this model. The model starts from the parsed rows, a `seq<seq<string>>`, and `Pipeline.Run` returns the text that would be written.
- `Object.values(row)` and CSV header handling (exec.js:11). These depend on the object shape `csv-parser` produces. The model takes each row's fields in column order.
- IEEE-754 doubles. Numbers are unbounded integers plus `NaN`; infinities and `-0` are not represented. `parseInt` never yields a fraction, and populations of the census file are far below 2^53, so no rounding occurs there. Other input can reach the missing values: `parseInt("-0")` is `-0`, whose text is `0`, and a population field of 310 or more digits reads as `Infinity`. The `-0` does no harm: the `reduce` from `0` turns it into `+0`, and `${-0}` prints `0` anyway, so the text matches the model's `0`. Rounding does: the model adds exactly, while the `reduce` of exec.js:135-137 rounds once a sum leaves the exactly representable range. So the model assumes that every population, every partial sum of a generation's `reduce`, and so every generation total, stays below 2^53 in magnitude. Beyond that the printed totals (exec.js:175) and the order the comparator sees (exec.js:162) can differ from the model's.
- Strings are sequences of Unicode scalar values, not UTF-16 code units. None of the strings involved contain characters outside the Basic Multilingual Plane.
- The in-place `row.push` (exec.js:78) and the in-place `sort` (exec.js:161). Both are modelled as building new sequences. Aliasing of the old arrays does not matter, because nothing reads them afterwards.
- Extraction.ConvertAgePopulationRows: requires every row to have at least 12 fields. The script only calls it on filtered rows. On a row of 6 to 11 fields, `row[11]` is `undefined` and `parseInt(undefined)` is `NaN`, so nothing throws and the row carries a `NaN` population. Only a row of at most 5 fields has an `undefined` age, on which `getGeneration` throws at `undefined.replace`.
- Ranking.SortGenerationPopulationDescRows: requires every total to be a number. With a `NaN` total the comparator returns `NaN`, which section 23.1.3.30 of ECMA-262 rules out for a consistent comparator, and the resulting order is the engine's choice.
- Pipeline.Run: with a `NaN` total among two or more totals it returns `NaNPopulation` rather than a text, because the order, and so the text a given engine writes, is implementation-defined and not modelled.
- JsString.ReplaceFirst: requires a replacement without `$`. The script only replaces with the empty string; the `$` substitution patterns of GetSubstitution (section 22.1.3.19.1 of ECMA-262) are not modelled.
- Ranking.Key: gives `NaN` the key 0. It is only consulted on numeric totals, where it is the population itself.
- The example outputs in the comments at exec.js:120 and exec.js:168-170 are national totals for the full census file. No lemma reproduces them, because that would need the whole data file. The two-row example of exec.js:37-38 is proved instead.
