/**
 * The values that flow between the stages of the ranking pipeline. Each
 * stage builds new values; nothing is updated in place.
 */
module Records {
  import opened JsNumber

  /** One CSV record: its fields as text, in column order. */
  type Row = seq<string>

  /** An age label (`0歳` … `100歳以上`) with its population in persons. */
  datatype AgePopulation = AgePopulation(age: string, population: Number)

  /** An age label and population with the generation bucket it falls into. */
  datatype ClassifiedRow = ClassifiedRow(age: string, population: Number, generation: string)

  /** A generation bucket with the population summed over its ages. */
  datatype GenerationTotal = GenerationTotal(generation: string, population: Number)
}
