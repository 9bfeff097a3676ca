/** String helpers shared by the chunker and the answer synthesiser: ASCII
    lower-casing (`str.lower`), substring membership (`needle in hay`),
    `sep.join(xs)` and `"".join(xs)`. */
module Text {

  function Min(a: int, b: int): int {
    if a <= b then a else b
  }

  /** A slice of a slice is a slice of the original sequence. */
  lemma SliceOfSlice<T>(s: seq<T>, lo: int, hi: int, a: int, b: int)
    requires 0 <= lo <= hi <= |s| && 0 <= a <= b <= hi - lo
    ensures s[lo..hi][a..b] == s[lo + a..lo + b]
  {
    var x := s[lo..hi];
    assert |x[a..b]| == b - a == |s[lo + a..lo + b]|;
    forall k | 0 <= k < b - a
      ensures x[a..b][k] == s[lo + a..lo + b][k]
    {
      assert x[a..b][k] == x[a + k] == s[lo + a + k];
    }
  }

  /** Lower-case one character; only the ASCII capitals 'A'..'Z' change. */
  function LowerChar(c: char): char {
    if 'A' <= c <= 'Z' then (c as int + 32) as char else c
  }

  /** `s.lower()`, restricted to ASCII letters. */
  function Lower(s: string): (r: string)
    ensures |r| == |s|
    ensures forall i :: 0 <= i < |s| ==> r[i] == LowerChar(s[i])
  {
    if |s| == 0 then "" else [LowerChar(s[0])] + Lower(s[1..])
  }

  lemma LowerAppend(a: string, b: string)
    ensures Lower(a + b) == Lower(a) + Lower(b)
  {
  }

  /** `needle` occurs in `hay` starting at index `i`. */
  predicate OccursAt(hay: string, needle: string, i: int) {
    0 <= i && i + |needle| <= |hay| && hay[i..i + |needle|] == needle
  }

  /** `needle in hay`, computed by scanning `hay` from the left. */
  predicate Contains(hay: string, needle: string)
    decreases |hay|
  {
    (|needle| <= |hay| && hay[..|needle|] == needle)
    || (|hay| > 0 && Contains(hay[1..], needle))
  }

  /** The scan finds `needle` exactly when it occurs at some index. */
  lemma {:induction false} ContainsIff(hay: string, needle: string)
    ensures Contains(hay, needle) <==> exists i :: OccursAt(hay, needle, i)
    decreases |hay|
  {
    if |needle| <= |hay| && hay[..|needle|] == needle {
      assert OccursAt(hay, needle, 0);
    } else if |hay| == 0 {
      assert !Contains(hay, needle);
    } else {
      ContainsIff(hay[1..], needle);
      if Contains(hay[1..], needle) {
        var i :| OccursAt(hay[1..], needle, i);
        assert hay[i + 1..i + 1 + |needle|] == hay[1..][i..i + |needle|];
        assert OccursAt(hay, needle, i + 1);
      }
      if i :| OccursAt(hay, needle, i) {
        assert i != 0;
        assert hay[1..][i - 1..i - 1 + |needle|] == hay[i..i + |needle|];
        assert OccursAt(hay[1..], needle, i - 1);
      }
    }
  }

  /** An occurrence that covers index `k` of `hay` puts `hay[k]` into the needle. */
  lemma OccurrenceCovers(hay: string, needle: string, i: int, k: int)
    requires OccursAt(hay, needle, i) && i <= k < i + |needle|
    ensures hay[k] in needle
  {
  }

  /** An occurrence in `a + [c] + b` of a needle without `c` lies wholly in
      `a` or wholly in `b`. */
  lemma OccurrenceAroundSeparator(a: string, c: char, b: string, needle: string, i: int)
    requires c !in needle && OccursAt(a + [c] + b, needle, i)
    ensures OccursAt(a, needle, i) || OccursAt(b, needle, i - |a| - 1)
  {
    var s := a + [c] + b;
    if i + |needle| <= |a| {
      assert a[i..i + |needle|] == s[i..i + |needle|];
    } else if i > |a| {
      assert b[i - |a| - 1..i - |a| - 1 + |needle|] == s[i..i + |needle|];
    } else {
      OccurrenceCovers(s, needle, i, |a|);
      assert false;
    }
  }

  /** An occurrence in `a` or in `b` is also one in `a + [c] + b`. */
  lemma OccurrenceSurvivesJoin(a: string, c: char, b: string, needle: string, i: int, j: int)
    ensures OccursAt(a, needle, i) ==> OccursAt(a + [c] + b, needle, i)
    ensures OccursAt(b, needle, j) ==> OccursAt(a + [c] + b, needle, j + |a| + 1)
  {
  }

  /** A needle that does not contain the character `c` occurs in `a + [c] + b`
      exactly when it occurs in `a` or in `b`: no occurrence can straddle `c`. */
  lemma ContainsAroundSeparator(a: string, c: char, b: string, needle: string)
    requires c !in needle
    ensures Contains(a + [c] + b, needle) <==> Contains(a, needle) || Contains(b, needle)
  {
    var s := a + [c] + b;
    ContainsIff(s, needle);
    ContainsIff(a, needle);
    ContainsIff(b, needle);
    if i :| OccursAt(s, needle, i) {
      OccurrenceAroundSeparator(a, c, b, needle, i);
    }
    if i :| OccursAt(a, needle, i) {
      OccurrenceSurvivesJoin(a, c, b, needle, i, 0);
    }
    if j :| OccursAt(b, needle, j) {
      OccurrenceSurvivesJoin(a, c, b, needle, 0, j);
    }
  }

  /** `sep.join(xs)`. */
  function Join(sep: string, xs: seq<string>): string {
    if |xs| == 0 then ""
    else if |xs| == 1 then xs[0]
    else xs[0] + sep + Join(sep, xs[1..])
  }

  /** `[x.lower() for x in xs]`. */
  function LowerAll(xs: seq<string>): (r: seq<string>)
    ensures |r| == |xs|
    ensures forall i :: 0 <= i < |xs| ==> r[i] == Lower(xs[i])
  {
    if |xs| == 0 then [] else [Lower(xs[0])] + LowerAll(xs[1..])
  }

  /** Lower-casing a space-joined text lower-cases each part. */
  lemma {:induction false} LowerJoin(xs: seq<string>)
    ensures Lower(Join(" ", xs)) == Join(" ", LowerAll(xs))
  {
    if |xs| >= 2 {
      LowerJoin(xs[1..]);
      assert LowerAll(xs)[1..] == LowerAll(xs[1..]);
      LowerAppend(xs[0] + " ", Join(" ", xs[1..]));
      LowerAppend(xs[0], " ");
    }
  }

  /** Some part of `xs` contains `needle`. */
  predicate SomePartContains(xs: seq<string>, needle: string) {
    exists i :: 0 <= i < |xs| && Contains(xs[i], needle)
  }

  lemma SomePartSplit(xs: seq<string>, needle: string)
    requires |xs| > 0
    ensures SomePartContains(xs, needle)
            <==> Contains(xs[0], needle) || SomePartContains(xs[1..], needle)
  {
  }

  /** A non-empty needle without the separator character occurs in
      `[c].join(xs)` exactly when it occurs in one of the parts. */
  lemma {:induction false} JoinContains(c: char, xs: seq<string>, needle: string)
    requires needle != [] && c !in needle
    ensures Contains(Join([c], xs), needle) <==> SomePartContains(xs, needle)
  {
    if |xs| == 0 {
      assert !Contains("", needle);
    } else if |xs| == 1 {
      SomePartSplit(xs, needle);
      assert !SomePartContains(xs[1..], needle);
    } else {
      var rest := Join([c], xs[1..]);
      assert Join([c], xs) == xs[0] + [c] + rest;
      JoinContains(c, xs[1..], needle);
      ContainsAroundSeparator(xs[0], c, rest, needle);
      SomePartSplit(xs, needle);
    }
  }

  /** `"".join(xs)`. */
  function Concat(xs: seq<string>): string {
    if |xs| == 0 then "" else xs[0] + Concat(xs[1..])
  }
}
