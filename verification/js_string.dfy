/**
 * `String.prototype.replace` called with a string pattern (section 22.1.3.19
 * of ECMA-262): only the first occurrence of the pattern is replaced. The
 * replacement is taken without `$`, so GetSubstitution (section 22.1.3.19.1)
 * inserts it literally.
 */
module JsString {

  /** Whether `p` occurs in `s` starting at index `i`. */
  predicate OccursAt(s: string, p: string, i: nat) {
    i + |p| <= |s| && s[i..i + |p|] == p
  }

  /**
   * `s.replace(pattern, replacement)` for a replacement free of `$`: the
   * leftmost occurrence of `pattern` is replaced, the rest of `s` is kept;
   * an empty pattern matches at the very start, and a pattern that never
   * occurs leaves `s` unchanged. At most one occurrence is replaced, so
   * the length either stays or changes by one substitution's worth.
   */
  function ReplaceFirst(s: string, pattern: string, replacement: string): (r: string)
    requires '$' !in replacement
    ensures |r| == |s| || |r| == |s| - |pattern| + |replacement|
    decreases |s|
  {
    if pattern <= s then replacement + s[|pattern|..]
    else if |s| == 0 then s
    else [s[0]] + ReplaceFirst(s[1..], pattern, replacement)
  }

  /** No character of the result comes from anywhere but the text and the replacement. */
  lemma {:induction false} ReplaceFirstChars(s: string, p: string, q: string)
    requires '$' !in q
    ensures forall k :: 0 <= k < |ReplaceFirst(s, p, q)| ==> ReplaceFirst(s, p, q)[k] in s || ReplaceFirst(s, p, q)[k] in q
    decreases |s|
  {
    var r := ReplaceFirst(s, p, q);
    if !(p <= s) && |s| > 0 {
      ReplaceFirstChars(s[1..], p, q);
      forall k | 0 < k < |r|
        ensures r[k] in s || r[k] in q
      {
        assert r[k] == ReplaceFirst(s[1..], p, q)[k - 1];
      }
    }
  }

  /** Dropping the first character shifts every occurrence one place left. */
  lemma OccursShift(s: string, p: string, j: nat)
    requires |s| > 0
    ensures OccursAt(s[1..], p, j) <==> OccursAt(s, p, j + 1)
  {
    if j + |p| <= |s| - 1 {
      assert s[1..][j..j + |p|] == s[j + 1..j + 1 + |p|];
    }
  }

  /** An occurrence at `j` puts the pattern's first character at `j`. */
  lemma OccursFirstChar(s: string, p: string, j: nat)
    requires |p| > 0 && OccursAt(s, p, j)
    ensures s[j] == p[0]
  {
    assert s[j..j + |p|][0] == s[j];
  }

  /** Where the pattern does not start the text, the first character is kept. */
  lemma ReplaceFirstStep(s: string, p: string, q: string)
    requires '$' !in q
    requires |s| > 0 && !OccursAt(s, p, 0)
    ensures ReplaceFirst(s, p, q) == [s[0]] + ReplaceFirst(s[1..], p, q)
  {
    assert !(p <= s);
  }

  /** The replacement lands at the leftmost occurrence, and only there. */
  lemma {:induction false} ReplaceFirstAt(s: string, p: string, q: string, i: nat)
    requires '$' !in q
    requires OccursAt(s, p, i)
    requires forall j :: 0 <= j < i ==> !OccursAt(s, p, j)
    ensures ReplaceFirst(s, p, q) == s[..i] + q + s[i + |p|..]
    decreases i
  {
    if i == 0 {
      assert p <= s;
    } else {
      var t := s[1..];
      ReplaceFirstStep(s, p, q);
      var r := ReplaceFirst(t, p, q);
      assert r == t[..i - 1] + q + t[i - 1 + |p|..] by {
        forall j | 0 <= j < i - 1
          ensures !OccursAt(t, p, j)
        {
          OccursShift(s, p, j);
        }
        OccursShift(s, p, i - 1);
        ReplaceFirstAt(t, p, q, i - 1);
      }
      calc {
        ReplaceFirst(s, p, q);
        [s[0]] + r;
        [s[0]] + (t[..i - 1] + q + t[i - 1 + |p|..]);
        { assert [s[0]] + t[..i - 1] == s[..i]; assert t[i - 1 + |p|..] == s[i + |p|..]; }
        s[..i] + q + s[i + |p|..];
      }
    }
  }

  /** A pattern that occurs nowhere leaves the text as it was. */
  lemma {:induction false} ReplaceFirstAbsent(s: string, p: string, q: string)
    requires '$' !in q
    requires forall j :: 0 <= j <= |s| ==> !OccursAt(s, p, j)
    ensures ReplaceFirst(s, p, q) == s
    decreases |s|
  {
    assert !OccursAt(s, p, 0);
    assert !(p <= s);
    if |s| > 0 {
      forall j | 0 <= j <= |s| - 1
        ensures !OccursAt(s[1..], p, j)
      {
        OccursShift(s, p, j);
      }
      ReplaceFirstAbsent(s[1..], p, q);
    }
  }

  /**
   * A pattern whose first character cannot appear in the prefix `a` is first
   * found right after it.
   */
  lemma ReplaceFirstAfter(a: string, p: string, b: string, q: string)
    requires '$' !in q
    requires |p| > 0
    requires forall k :: 0 <= k < |a| ==> a[k] != p[0]
    ensures ReplaceFirst(a + p + b, p, q) == a + q + b
  {
    var s := a + p + b;
    assert s[|a|..|a| + |p|] == p;
    forall j | 0 <= j < |a|
      ensures !OccursAt(s, p, j)
    {
      assert s[j] == a[j];
      if OccursAt(s, p, j) {
        OccursFirstChar(s, p, j);
      }
    }
    ReplaceFirstAt(s, p, q, |a|);
    assert s[..|a|] == a;
    assert s[|a| + |p|..] == b;
  }

  /** A pattern whose first character does not appear in `a` at all leaves `a` unchanged. */
  lemma ReplaceFirstNoStart(a: string, p: string, q: string)
    requires '$' !in q
    requires |p| > 0
    requires forall k :: 0 <= k < |a| ==> a[k] != p[0]
    ensures ReplaceFirst(a, p, q) == a
  {
    forall j | 0 <= j <= |a|
      ensures !OccursAt(a, p, j)
    {
      if OccursAt(a, p, j) {
        OccursFirstChar(a, p, j);
      }
    }
    ReplaceFirstAbsent(a, p, q);
  }
}
