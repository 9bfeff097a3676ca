/** The deterministic orchestration of rag_qa.py: the global chunk list built
    from the Drive texts followed by the GitHub texts, and the mapping from the
    positions returned by the nearest-neighbour search back to chunk text
    before the answer is synthesised. The embedding model and the vector index
    are not modelled: the positions a search returns are an input. */
module Pipeline {
  import opened Text
  import opened Chunker
  import opened Answer

  /** The configuration constants of rag_qa.py. */
  const ChunkSize: int := 500
  const Overlap: int := 100

  /** The texts handed over by the two loaders, each in its loader's order. */
  datatype Sources = Sources(driveTexts: seq<string>, githubTexts: seq<string>)

  /** The built state of the script: the global chunk list. A chunk's position
      in it is also the position of its vector in the index, and is the only
      key a search result carries. */
  datatype Engine = Engine(chunks: seq<string>)

  /** `drive_texts + github_texts`. */
  function AllTexts(s: Sources): seq<string> {
    s.driveTexts + s.githubTexts
  }

  /** The number of chunks each text yields, summed over the texts. */
  function TotalChunkCount(texts: seq<string>): nat {
    if |texts| == 0 then 0
    else CeilDiv(|texts[0]|, ChunkSize - Overlap) + TotalChunkCount(texts[1..])
  }

  /** The chunks of every text, in text order, flattened into one list. */
  function ChunkAll(texts: seq<string>): (r: seq<string>)
    ensures |r| == TotalChunkCount(texts)
  {
    if |texts| == 0 then []
    else ChunkText(texts[0], ChunkSize, Overlap) + ChunkAll(texts[1..])
  }

  lemma {:induction false} ChunkAllAppend(a: seq<string>, b: seq<string>)
    ensures ChunkAll(a + b) == ChunkAll(a) + ChunkAll(b)
  {
    if |a| > 0 {
      assert (a + b)[1..] == a[1..] + b;
      ChunkAllAppend(a[1..], b);
    } else {
      assert a + b == b;
    }
  }

  /** The chunking loop of rag_qa.py: `all_chunks.extend(chunk_text(...))` per text. */
  method AssembleChunks(texts: seq<string>) returns (allChunks: seq<string>)
    ensures allChunks == ChunkAll(texts)
  {
    allChunks := [];
    for k := 0 to |texts|
      invariant allChunks == ChunkAll(texts[..k])
    {
      var chunks := ChunkTextLoop(texts[k], ChunkSize, Overlap);
      ChunkAllAppend(texts[..k], [texts[k]]);
      assert texts[..k + 1] == texts[..k] + [texts[k]];
      allChunks := allChunks + chunks;
    }
    assert texts[..|texts|] == texts;
  }

  /** The build phase up to the embedding step. */
  function Build(s: Sources): Engine {
    Engine(ChunkAll(AllTexts(s)))
  }

  /** Every Drive chunk comes before every GitHub chunk, and the chunk count
      is the sum of the per-text counts. */
  lemma BuildOrder(s: Sources)
    ensures Build(s).chunks == ChunkAll(s.driveTexts) + ChunkAll(s.githubTexts)
    ensures |Build(s).chunks| == TotalChunkCount(s.driveTexts) + TotalChunkCount(s.githubTexts)
  {
    ChunkAllAppend(s.driveTexts, s.githubTexts);
  }

  /** Maps a global chunk position to the text it came from and the chunk's
      index within that text's chunks. */
  function Locate(texts: seq<string>, p: nat): (loc: (nat, nat))
    requires p < |ChunkAll(texts)|
    ensures loc.0 < |texts|
    ensures loc.1 < |ChunkText(texts[loc.0], ChunkSize, Overlap)|
    ensures p == TotalChunkCount(texts[..loc.0]) + loc.1
    ensures ChunkAll(texts)[p] == ChunkText(texts[loc.0], ChunkSize, Overlap)[loc.1]
    decreases |texts|
  {
    var first := ChunkText(texts[0], ChunkSize, Overlap);
    if p < |first| then
      assert texts[..0] == [];
      (0, p)
    else
      var loc := Locate(texts[1..], p - |first|);
      assert texts[..loc.0 + 1][1..] == texts[1..][..loc.0];
      (loc.0 + 1, loc.1)
  }

  /** Every chunk of the corpus is a substring of one of the loaded texts. */
  lemma CorpusChunkFromSource(texts: seq<string>, p: nat)
    requires p < |ChunkAll(texts)|
    ensures exists d :: 0 <= d < |texts| && Contains(texts[d], ChunkAll(texts)[p])
  {
    var loc := Locate(texts, p);
    ChunkOccursInText(texts[loc.0], ChunkSize, Overlap, loc.1);
  }

  /** Every position is a valid index into a list of `n` chunks. */
  predicate InRange(hits: seq<int>, n: int) {
    forall j :: 0 <= j < |hits| ==> 0 <= hits[j] < n
  }

  /** `[all_chunks[i] for i in idx[0]]`. */
  function Retrieve(chunks: seq<string>, hits: seq<int>): (r: seq<string>)
    requires InRange(hits, |chunks|)
    ensures |r| == |hits|
    ensures forall j :: 0 <= j < |hits| ==> r[j] == chunks[hits[j]]
  {
    if |hits| == 0 then [] else [chunks[hits[0]]] + Retrieve(chunks, hits[1..])
  }

  /** Retrieving a prefix of the positions gives the prefix of the retrieval. */
  lemma RetrievePrefix(chunks: seq<string>, hits: seq<int>, m: nat)
    requires InRange(hits, |chunks|) && m <= |hits|
    ensures Retrieve(chunks, hits)[..m] == Retrieve(chunks, hits[..m])
  {
  }

  /** `ask_question(question)`, given the positions `hits` that the index
      search returned, best first. The answer is the resume text exactly when
      the question mentions "resume" and one of the retrieved chunks mentions
      "flask"; otherwise it previews only the chunks at the first two
      positions. */
  function Ask(engine: Engine, question: string, hits: seq<int>): (r: string)
    requires InRange(hits, |engine.chunks|)
    ensures r == ResumeAnalyzerSummary
            <==> Contains(Lower(question), "resume")
                 && exists j :: 0 <= j < |hits| && Contains(Lower(engine.chunks[hits[j]]), "flask")
    ensures r != ResumeAnalyzerSummary
            ==> r == FallbackSummary(Retrieve(engine.chunks, hits[..Min(PreviewCount, |hits|)]))
  {
    var retrieved := Retrieve(engine.chunks, hits);
    var m := Min(PreviewCount, |hits|);
    RetrievePrefix(engine.chunks, hits, m);
    assert Retrieve(engine.chunks, hits[..m])[..m] == Retrieve(engine.chunks, hits[..m]);
    GenerateAnswer(question, retrieved)
  }

  /** Whatever the search returns, every chunk an answer is built from is a
      substring of one of the loaded Drive or GitHub texts. */
  lemma RetrievedChunksComeFromSources(s: Sources, hits: seq<int>, j: nat)
    requires InRange(hits, |Build(s).chunks|) && j < |hits|
    ensures exists d :: 0 <= d < |AllTexts(s)|
                        && Contains(AllTexts(s)[d], Retrieve(Build(s).chunks, hits)[j])
  {
    CorpusChunkFromSource(AllTexts(s), hits[j]);
  }
}
