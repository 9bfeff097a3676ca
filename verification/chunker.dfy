/** The sliding-window chunker of text_chunker.py. A window of `size`
    characters starts at offset 0; its end is clipped to the text length; the
    next window starts `size - overlap` characters later; chunking stops once
    the start reaches the end of the text. There is no special case for a
    text that fits in one window, so such a text still produces a trailing
    chunk whenever it is longer than one step. */
module Chunker {
  import opened Text

  /** The chunker's loop only advances when the step `size - overlap` is
      positive. A zero `size` appends empty chunks, and a negative `size`
      makes the first slice end at a Python negative index. `chunk_text`
      checks neither, so callers must. */
  predicate ValidWindow(size: int, overlap: int) {
    0 < size && overlap < size
  }

  /** `ceil(n / d)` for a positive step `d`, counted one step at a time
      (zero when `n <= 0`). */
  function CeilDiv(n: int, d: int): nat
    requires d > 0
    decreases n
  {
    if n <= 0 then 0 else 1 + CeilDiv(n - d, d)
  }

  /** The step count is the least `k` with `k * d >= n`. */
  lemma {:induction false} CeilDivBounds(n: int, d: int)
    requires d > 0 && n > 0
    ensures (CeilDiv(n, d) - 1) * d < n <= CeilDiv(n, d) * d
    decreases n
  {
    if n - d > 0 {
      CeilDivBounds(n - d, d);
      var k := CeilDiv(n - d, d);
      assert (k + 1) * d == k * d + d;
      assert k * d == (k - 1) * d + d;
    }
  }

  /** The step count agrees with the integer formula `(n + d - 1) / d`. */
  lemma CeilDivIsDivision(n: int, d: int)
    requires d > 0 && n > 0
    ensures CeilDiv(n, d) == (n + d - 1) / d
  {
    CeilDivBounds(n, d);
    var k := CeilDiv(n, d);
    var m := n + d - 1;
    assert k * d <= m < (k + 1) * d by {
      assert (k + 1) * d == (k - 1) * d + 2 * d;
    }
    DivisionUnique(m, d, k);
  }

  lemma DivisionUnique(m: int, d: int, k: int)
    requires d > 0 && k * d <= m < (k + 1) * d
    ensures m / d == k
  {
    var q := m / d;
    assert (q - k) * d == (m - k * d) - m % d;
    if q > k {
      MulAtLeast(q - k, d);
    } else if q < k {
      MulAtLeast(k - q, d);
    }
  }

  lemma MulAtLeast(x: int, d: int)
    requires x >= 1 && d > 0
    ensures x * d >= d
  {
  }

  /** The value of `start` after `n` passes of the loop body, which is also
      the offset at which chunk `n` begins. */
  function ChunkStart(size: int, overlap: int, n: nat): int {
    if n == 0 then 0 else ChunkStart(size, overlap, n - 1) + size - overlap
  }

  /** Successive starts advance by exactly `size - overlap`. */
  lemma {:induction false} ChunkStartIsMultiple(size: int, overlap: int, n: nat)
    ensures ChunkStart(size, overlap, n) == n * (size - overlap)
  {
    if n > 0 {
      ChunkStartIsMultiple(size, overlap, n - 1);
      assert n * (size - overlap) == (n - 1) * (size - overlap) + (size - overlap);
    }
  }

  /** The chunks produced by the loop from the offset `start` onwards: the
      slice `text[start:start + size]`, then the chunks from
      `start + size - overlap`, until `start` reaches `len(text)`. */
  function ChunkFrom(text: string, size: int, overlap: int, start: nat): (r: seq<string>)
    requires ValidWindow(size, overlap)
    ensures |r| == CeilDiv(|text| - start, size - overlap)
    ensures forall i {:trigger r[i]} :: 0 <= i < |r| ==> InWindow(text, size, start + ChunkStart(size, overlap, i), r[i])
    decreases |text| - start
  {
    if start >= |text| then []
    else
      var rest := ChunkFrom(text, size, overlap, start + size - overlap);
      [text[start..Min(start + size, |text|)]] + rest
  }

  /** One pass of the loop: appending the window at `start` to the chunks
      so far and continuing from the next start loses and adds nothing. */
  lemma ChunkFromStep(text: string, size: int, overlap: int, start: nat, done: seq<string>)
    requires ValidWindow(size, overlap) && start < |text|
    ensures done + ChunkFrom(text, size, overlap, start)
            == (done + [text[start..Min(start + size, |text|)]]) + ChunkFrom(text, size, overlap, start + size - overlap)
  {
    var rest := ChunkFrom(text, size, overlap, start + size - overlap);
    var chunk := text[start..Min(start + size, |text|)];
    assert ChunkFrom(text, size, overlap, start) == [chunk] + rest;
    assert done + ([chunk] + rest) == (done + [chunk]) + rest;
  }

  /** `chunk` is the window `text[from:from + size]` of a text, starting
      inside the text, with its end clipped to the text length. */
  predicate InWindow(text: string, size: int, from: int, chunk: string) {
    && 0 < size
    && 0 <= from < |text|
    && chunk == text[from..Min(from + size, |text|)]
  }

  /** `chunk_text(text, chunk_size=size, overlap=overlap)`. */
  function ChunkText(text: string, size: int, overlap: int): (r: seq<string>)
    requires ValidWindow(size, overlap)
    ensures r == [] <==> |text| == 0
    ensures |r| == CeilDiv(|text|, size - overlap)
    ensures forall i :: 0 <= i < |r| ==> 0 < |r[i]| <= size
    ensures forall i {:trigger r[i]} :: 0 <= i < |r| ==> InWindow(text, size, ChunkStart(size, overlap, i), r[i])
  {
    ChunkFrom(text, size, overlap, 0)
  }

  /** The `while` loop of `chunk_text`, statement by statement. */
  method ChunkTextLoop(text: string, size: int, overlap: int) returns (chunks: seq<string>)
    requires ValidWindow(size, overlap)
    ensures chunks == ChunkText(text, size, overlap)
  {
    chunks := [];
    var start: nat := 0;
    var textLength := |text|;
    while start < textLength
      invariant chunks + ChunkFrom(text, size, overlap, start) == ChunkFrom(text, size, overlap, 0)
      decreases textLength - start
    {
      var end := start + size;
      var chunk := text[start..Min(end, textLength)];
      ChunkFromStep(text, size, overlap, start, chunks);
      chunks := chunks + [chunk];
      start := end - overlap;
    }
  }

  /** Chunk `i` is `text[i * (size - overlap):i * (size - overlap) + size]`. */
  lemma ChunkAt(text: string, size: int, overlap: int, i: int)
    requires ValidWindow(size, overlap) && 0 <= i < |ChunkText(text, size, overlap)|
    ensures 0 <= i * (size - overlap) < |text|
    ensures ChunkText(text, size, overlap)[i]
            == text[i * (size - overlap)..Min(i * (size - overlap) + size, |text|)]
  {
    var r := ChunkText(text, size, overlap);
    var a := ChunkStart(size, overlap, i);
    assert InWindow(text, size, a, r[i]);
    ChunkStartIsMultiple(size, overlap, i);
    assert a == i * (size - overlap);
    assert r[i] == text[a..Min(a + size, |text|)];
  }

  /** Every chunk is a substring of the text it was cut from. */
  lemma ChunkOccursInText(text: string, size: int, overlap: int, i: nat)
    requires ValidWindow(size, overlap) && i < |ChunkText(text, size, overlap)|
    ensures Contains(text, ChunkText(text, size, overlap)[i])
  {
    var c := ChunkText(text, size, overlap)[i];
    var from := ChunkStart(size, overlap, i);
    assert InWindow(text, size, from, c);
    assert OccursAt(text, c, from);
    ContainsIff(text, c);
  }

  /** For a non-empty text the number of chunks is `ceil(len(text) / (size - overlap))`. */
  lemma ChunkCount(text: string, size: int, overlap: int)
    requires ValidWindow(size, overlap) && |text| > 0
    ensures |ChunkText(text, size, overlap)| == (|text| + (size - overlap) - 1) / (size - overlap)
  {
    CeilDivIsDivision(|text|, size - overlap);
  }

  /** With a non-negative overlap the last chunk ends exactly at the end of the text. */
  lemma LastChunkReachesEnd(text: string, size: int, overlap: int)
    requires ValidWindow(size, overlap) && 0 <= overlap && |text| > 0
    ensures var r := ChunkText(text, size, overlap);
            ChunkStart(size, overlap, |r| - 1) + |r[|r| - 1]| == |text|
  {
    var r := ChunkText(text, size, overlap);
    var step := size - overlap;
    CeilDivBounds(|text|, step);
    ChunkStartIsMultiple(size, overlap, |r| - 1);
    assert |r| * step == (|r| - 1) * step + step;
  }

  /** Position `k` of the text falls inside chunk `i` of those produced from `start`. */
  predicate CoveredBy(text: string, size: int, overlap: int, start: nat, i: int, k: int)
    requires ValidWindow(size, overlap)
  {
    var r := ChunkFrom(text, size, overlap, start);
    && 0 <= i < |r|
    && start + ChunkStart(size, overlap, i) <= k < start + ChunkStart(size, overlap, i) + |r[i]|
  }

  /** A position covered by chunk `j` of the chunks produced from the next
      loop state is covered by chunk `j + 1` of those produced from `start`. */
  lemma CoveredStep(text: string, size: int, overlap: int, start: nat, j: int, k: int)
    requires ValidWindow(size, overlap) && 0 <= overlap && start < |text|
    requires CoveredBy(text, size, overlap, start + size - overlap, j, k)
    ensures CoveredBy(text, size, overlap, start, j + 1, k)
  {
    var step := size - overlap;
    var r := ChunkFrom(text, size, overlap, start);
    var rest := ChunkFrom(text, size, overlap, start + step);
    assert r == [text[start..Min(start + size, |text|)]] + rest;
    assert r[j + 1] == rest[j];
    assert ChunkStart(size, overlap, j + 1) == ChunkStart(size, overlap, j) + step;
  }

  /** Every position `k >= start` of the text lies in some chunk produced from `start`. */
  lemma {:induction false} CoveredFrom(text: string, size: int, overlap: int, start: nat, k: int)
    requires ValidWindow(size, overlap) && 0 <= overlap && start <= k < |text|
    ensures exists i :: CoveredBy(text, size, overlap, start, i, k)
    decreases |text| - start
  {
    if k < start + size {
      var r := ChunkFrom(text, size, overlap, start);
      assert r[0] == text[start..Min(start + size, |text|)];
      assert ChunkStart(size, overlap, 0) == 0;
      assert CoveredBy(text, size, overlap, start, 0, k);
    } else {
      CoveredFrom(text, size, overlap, start + size - overlap, k);
      var j :| CoveredBy(text, size, overlap, start + size - overlap, j, k);
      CoveredStep(text, size, overlap, start, j, k);
    }
  }

  /** Chunk `i` holds character `k` of the text, at the offset its start predicts. */
  predicate ChunkHolds(text: string, size: int, overlap: int, i: int, k: int)
    requires ValidWindow(size, overlap)
  {
    var r := ChunkText(text, size, overlap);
    && 0 <= i < |r|
    && ChunkStart(size, overlap, i) <= k < ChunkStart(size, overlap, i) + |r[i]|
    && 0 <= k < |text|
    && r[i][k - ChunkStart(size, overlap, i)] == text[k]
  }

  /** Every character of the text lies in some chunk. */
  lemma EveryCharacterCovered(text: string, size: int, overlap: int, k: int)
    requires ValidWindow(size, overlap) && 0 <= overlap && 0 <= k < |text|
    ensures exists i :: ChunkHolds(text, size, overlap, i, k)
  {
    var r := ChunkText(text, size, overlap);
    CoveredFrom(text, size, overlap, 0, k);
    var i :| CoveredBy(text, size, overlap, 0, i, k);
    assert InWindow(text, size, ChunkStart(size, overlap, i), r[i]);
    assert ChunkHolds(text, size, overlap, i, k);
  }

  /** Without overlap, joining the chunks gives back the text. */
  lemma {:induction false} NoOverlapRoundTripFrom(text: string, size: int, start: nat)
    requires 0 < size && start <= |text|
    ensures Concat(ChunkFrom(text, size, 0, start)) == text[start..]
    decreases |text| - start
  {
    if start < |text| {
      var next := start + size;
      if next < |text| {
        NoOverlapRoundTripFrom(text, size, next);
        assert text[start..] == text[start..next] + text[next..];
      } else {
        assert ChunkFrom(text, size, 0, next) == [];
      }
    }
  }

  lemma NoOverlapRoundTrip(text: string, size: int)
    requires 0 < size
    ensures Concat(ChunkText(text, size, 0)) == text
  {
    NoOverlapRoundTripFrom(text, size, 0);
  }

  /** Neighbouring chunks overlap: the first `min(overlap, len(chunk i+1))`
      characters of chunk `i + 1` repeat the characters of chunk `i` from
      offset `size - overlap` on. */
  lemma NeighboursOverlap(text: string, size: int, overlap: int, i: int)
    requires ValidWindow(size, overlap) && 0 <= overlap
    requires 0 <= i && i + 1 < |ChunkText(text, size, overlap)|
    ensures var r := ChunkText(text, size, overlap);
            var m := Min(overlap, |r[i + 1]|);
            && (size - overlap) + m <= |r[i]|
            && r[i + 1][..m] == r[i][size - overlap..size - overlap + m]
  {
    var r := ChunkText(text, size, overlap);
    var step := size - overlap;
    var a := ChunkStart(size, overlap, i);
    assert ChunkStart(size, overlap, i + 1) == a + step;
    assert InWindow(text, size, a, r[i]);
    assert InWindow(text, size, a + step, r[i + 1]);
    var m := Min(overlap, |r[i + 1]|);
    var end := Min(a + size, |text|);
    var nextEnd := Min(a + step + size, |text|);
    assert step + m <= end - a;
    SliceOfSlice(text, a + step, nextEnd, 0, m);
    SliceOfSlice(text, a, end, step, step + m);
    assert r[i + 1][..m] == r[i + 1][0..m];
  }

  /** Once a chunk already reaches the end of the text, the chunk after it is
      redundant: it is a suffix of its predecessor. */
  lemma RedundantTail(text: string, size: int, overlap: int, i: int)
    requires ValidWindow(size, overlap) && 0 <= overlap
    requires 0 <= i && i + 1 < |ChunkText(text, size, overlap)|
    requires ChunkStart(size, overlap, i) + size >= |text|
    ensures var r := ChunkText(text, size, overlap);
            && size - overlap <= |r[i]|
            && r[i + 1] == r[i][size - overlap..]
  {
    var r := ChunkText(text, size, overlap);
    var a := ChunkStart(size, overlap, i);
    assert ChunkStart(size, overlap, i + 1) == a + (size - overlap);
    assert InWindow(text, size, a, r[i]);
    assert InWindow(text, size, a + (size - overlap), r[i + 1]);
  }

  /** No single-chunk shortcut: a text longer than one step but no longer
      than one window yields the whole text and then a redundant tail. */
  lemma ShortTextStillSplits(text: string, size: int, overlap: int)
    requires ValidWindow(size, overlap) && 0 <= overlap
    requires size - overlap < |text| <= size
    ensures var r := ChunkText(text, size, overlap);
            |r| >= 2 && r[0] == text && r[1] == text[size - overlap..]
  {
  }

  /** With the configuration of rag_qa.py (500, 100), a text of 401 to 500
      characters yields exactly two chunks. */
  lemma DefaultShortTextTwoChunks(text: string)
    requires 400 < |text| <= 500
    ensures |ChunkText(text, 500, 100)| == 2
  {
    assert CeilDiv(|text| - 800, 400) == 0;
    assert CeilDiv(|text| - 400, 400) == 1;
  }

  /** The missing guard: when `overlap >= size` the loop never advances past
      its first start, so for non-empty text its condition `start < len(text)`
      holds after every pass and the loop does not terminate. */
  lemma {:induction false} NoStepNoProgress(text: string, size: int, overlap: int, n: nat)
    requires overlap >= size && |text| > 0
    ensures ChunkStart(size, overlap, n) <= 0
    ensures ChunkStart(size, overlap, n) < |text|
  {
    if n > 0 {
      NoStepNoProgress(text, size, overlap, n - 1);
    }
  }
}
