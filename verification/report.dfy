/**
 * The report formatter (exec.js, `convertOutPutString`): one numbered line
 * `${rank}位: ${generation} ${population}` per entry, each ended by a
 * newline, ranks counting up from 1 in the given order.
 */
module Report {
  import opened JsNumber
  import opened Records

  /**
   * The text of one line, without its newline: `${rank}位: ${generation} ${population}`.
   * It is a single line exactly when the generation label is.
   */
  function LineText(rank: nat, e: GenerationTotal): (t: string)
    ensures '\n' in t <==> '\n' in e.generation
  {
    var head := DecimalString(rank) + "位: ";
    var t := head + e.generation + " " + ToDisplayString(e.population);
    DisplayStringNoNewline(e.population);
    assert '\n' !in head;
    assert t == head + (e.generation + (" " + ToDisplayString(e.population)));
    t
  }

  /** One line of the ranking, newline included. */
  function Line(rank: nat, e: GenerationTotal): string {
    LineText(rank, e) + "\n"
  }

  /** The lines for `rows`, the first ranked `first`, the next `first + 1`, and so on. */
  function Render(rows: seq<GenerationTotal>, first: nat): string
    decreases |rows|
  {
    if |rows| == 0 then "" else Line(first, rows[0]) + Render(rows[1..], first + 1)
  }

  /** One more entry adds one more line, at the end, with the next rank. */
  lemma {:induction false} RenderSnoc(rows: seq<GenerationTotal>, e: GenerationTotal, first: nat)
    ensures Render(rows + [e], first) == Render(rows, first) + Line(first + |rows|, e)
    decreases |rows|
  {
    if |rows| == 0 {
      assert [e][1..] == [];
    } else {
      assert (rows + [e])[1..] == rows[1..] + [e];
      RenderSnoc(rows[1..], e, first + 1);
    }
  }

  /** Rendering one more entry of `rows` appends its line, ranked after the others. */
  lemma RenderPrefix(rows: seq<GenerationTotal>, i: nat)
    requires i < |rows|
    ensures Render(rows[..i + 1], 1) == Render(rows[..i], 1) + Line(i + 1, rows[i])
  {
    assert rows[..i + 1] == rows[..i] + [rows[i]];
    RenderSnoc(rows[..i], rows[i], 1);
  }

  /** The rendering is empty exactly for no entries, and otherwise ends in a newline. */
  lemma RenderShape(rows: seq<GenerationTotal>, first: nat)
    ensures |rows| == 0 <==> Render(rows, first) == ""
    ensures |rows| > 0 ==> Render(rows, first)[|Render(rows, first)| - 1] == '\n'
  {
    if |rows| > 0 {
      var l := |rows| - 1;
      assert rows == rows[..l] + [rows[l]];
      RenderSnoc(rows[..l], rows[l], first);
    }
  }

  /**
   * `convertOutPutString`: the loop appends one line per entry and counts
   * the rank up; the result is the rendering of all entries from rank 1.
   */
  method ConvertOutPutString(rows: seq<GenerationTotal>) returns (out: string)
    ensures out == Render(rows, 1)
    ensures |rows| == 0 <==> out == ""
    ensures |rows| > 0 ==> out[|out| - 1] == '\n'
  {
    RenderShape(rows, 1);
    out := "";
    var rank := 1;
    for i := 0 to |rows|
      invariant rank == i + 1
      invariant out == Render(rows[..i], 1)
    {
      RenderPrefix(rows, i);
      out := out + Line(rank, rows[i]);
      rank := rank + 1;
    }
    assert rows[..|rows|] == rows;
  }

  /** The length of the first line of `s`: the position of its first newline, or `|s|`. */
  function LineLength(s: string): (n: nat)
    ensures n <= |s|
    ensures '\n' !in s[..n]
    ensures n < |s| ==> s[n] == '\n'
  {
    if |s| == 0 || s[0] == '\n' then 0
    else
      var n := LineLength(s[1..]);
      assert s[..n + 1] == [s[0]] + s[1..][..n];
      n + 1
  }

  /** The lines of `s`: the text between newlines, a final unterminated piece included. */
  function SplitLines(s: string): seq<string>
    decreases |s|
  {
    if |s| == 0 then []
    else
      var n := LineLength(s);
      if n == |s| then [s] else [s[..n]] + SplitLines(s[n + 1..])
  }

  /** A newline-free piece followed by a newline is split off as the first line. */
  lemma SplitLinesCons(a: string, rest: string)
    requires '\n' !in a
    ensures SplitLines(a + "\n" + rest) == [a] + SplitLines(rest)
  {
    var s := a + "\n" + rest;
    assert s[..|a|] == a;
    LineLengthAt(s, |a|);
    assert s[|a| + 1..] == rest;
  }

  /** The first newline of `s` is the one at `k` when none comes before it. */
  lemma LineLengthAt(s: string, k: nat)
    requires k < |s| && s[k] == '\n' && '\n' !in s[..k]
    ensures LineLength(s) == k
  {
    var n := LineLength(s);
    assert forall j :: 0 <= j < n ==> s[..n][j] == s[j];
    assert forall j :: 0 <= j < k ==> s[..k][j] == s[j];
  }

  /** No rendered number contains a newline. */
  lemma DisplayStringNoNewline(a: Number)
    ensures '\n' !in ToDisplayString(a)
  {
    match a
    case NaN =>
    case Num(v) =>
      var d := if v < 0 then DecimalString(-v) else DecimalString(v);
      assert '\n' !in d;
  }

  /** The line texts for `rows`, ranked from `first` on. */
  function LineTexts(rows: seq<GenerationTotal>, first: nat): (ls: seq<string>)
    ensures |ls| == |rows|
    ensures forall i :: 0 <= i < |rows| ==> ls[i] == LineText(first + i, rows[i])
    decreases |rows|
  {
    if |rows| == 0 then [] else [LineText(first, rows[0])] + LineTexts(rows[1..], first + 1)
  }

  /**
   * Read back line by line, the report has exactly one line per entry, the
   * i-th (from 0) ranked `first + i` and naming the i-th entry.
   */
  lemma {:induction false} RenderLines(rows: seq<GenerationTotal>, first: nat)
    requires forall i :: 0 <= i < |rows| ==> '\n' !in rows[i].generation
    ensures SplitLines(Render(rows, first)) == LineTexts(rows, first)
    decreases |rows|
  {
    if |rows| > 0 {
      var head := LineText(first, rows[0]);
      var tail := Render(rows[1..], first + 1);
      assert Render(rows, first) == head + "\n" + tail;
      SplitLinesCons(head, tail);
      RenderLines(rows[1..], first + 1);
    }
  }

  /** `parseInt` of a report line gives back its rank. */
  lemma LineRank(rank: nat, e: GenerationTotal)
    ensures ParseInt(LineText(rank, e)) == Num(rank)
  {
    var rest := "位: " + e.generation + " " + ToDisplayString(e.population);
    assert LineText(rank, e) == IntToString(rank) + rest;
    ParseIntOfIntToString(rank, rest);
  }
}
