/** The rule-based answer synthesiser `generate_answer_from_context` of
    rag_qa.py: one keyword rule (a question about the resume project, with
    retrieved context mentioning Flask) that returns a fixed description, and
    otherwise a fallback that lists short previews of the top two chunks. */
module Answer {
  import opened Text

  /** The fixed text returned by the resume rule. */
  const ResumeAnalyzerSummary: string :=
    "The Resume Analyzer "
    + "is a Flask-based web application that allows users "
    + "to upload resumes and compare them with job descriptions. "
    + "It extracts skills from resumes, calculates a match score, "
    + "and highlights missing skills to help improve job fit."

  /** The first line of every fallback answer. */
  const Banner: string := "Here is the relevant information found:\n"

  /** Each preview keeps at most this many characters of its chunk ... */
  const PreviewLength: nat := 200

  /** ... and at most this many chunks are previewed. */
  const PreviewCount: nat := 2

  /** The two ways an answer can be produced. */
  datatype Branch = ResumeRule | Fallback

  /** `" ".join(chunks).lower()`. */
  function CombinedText(chunks: seq<string>): string {
    Lower(Join(" ", chunks))
  }

  /** The question test of the resume rule, with both of its disjuncts. */
  predicate AsksAboutResume(question: string) {
    var q := Lower(question);
    Contains(q, "resume analyzer") || Contains(q, "resume")
  }

  predicate ResumeRuleFires(question: string, chunks: seq<string>) {
    AsksAboutResume(question) && Contains(CombinedText(chunks), "flask")
  }

  function BranchTaken(question: string, chunks: seq<string>): Branch {
    if ResumeRuleFires(question, chunks) then ResumeRule else Fallback
  }

  /** `f"- {chunk[:200]}...\n"`: a bullet, at most 200 characters of the
      chunk, and an ellipsis, so never longer than 206 characters. */
  function PreviewLine(chunk: string): (r: string)
    ensures |r| == Min(PreviewLength, |chunk|) + 6 <= PreviewLength + 6
    ensures r[..2] == "- " && r[|r| - 4..] == "...\n"
  {
    "- " + chunk[..Min(PreviewLength, |chunk|)] + "...\n"
  }

  /** The preview lines of `chunks`, in order: the loop
      `for chunk in chunks[:2]: summary += ...` applied to its slice. */
  function Previews(chunks: seq<string>): string {
    if |chunks| == 0 then "" else PreviewLine(chunks[0]) + Previews(chunks[1..])
  }

  /** The generic fallback: the banner, then one preview per chunk of
      `chunks[:2]`, appended by the loop that `Previews` models. */
  function FallbackSummary(chunks: seq<string>): (r: string)
    ensures Banner <= r
    ensures |chunks| == 0 <==> r == Banner
  {
    Banner + Previews(chunks[..Min(PreviewCount, |chunks|)])
  }

  /** `generate_answer_from_context(question, chunks)`. The resume rule fires
      exactly when the question mentions "resume" (the longer "resume
      analyzer" adds nothing) and some single chunk mentions "flask", both
      ignoring letter case; every other call ends in the fallback. */
  function GenerateAnswer(question: string, chunks: seq<string>): (r: string)
    ensures r == ResumeAnalyzerSummary
            <==> Contains(Lower(question), "resume")
                 && exists i :: 0 <= i < |chunks| && Contains(Lower(chunks[i]), "flask")
    ensures r != ResumeAnalyzerSummary ==> r == FallbackSummary(chunks)
  {
    ResumeAnalyzerImpliesResume(Lower(question));
    FlaskFoundInSomeChunk(chunks);
    FallbackIsNotSummary(chunks);
    if ResumeRuleFires(question, chunks) then ResumeAnalyzerSummary else FallbackSummary(chunks)
  }

  /** The disjunct "resume analyzer" is subsumed by "resume". */
  lemma ResumeAnalyzerImpliesResume(s: string)
    ensures Contains(s, "resume analyzer") ==> Contains(s, "resume")
  {
    ContainsIff(s, "resume analyzer");
    ContainsIff(s, "resume");
    if i :| OccursAt(s, "resume analyzer", i) {
      assert "resume analyzer"[..6] == "resume";
      assert s[i..i + 6] == s[i..i + 15][..6];
      assert OccursAt(s, "resume", i);
    }
  }

  /** "flask" has no space in it, so it occurs in the space-joined,
      lower-cased context exactly when it occurs in one lower-cased chunk. */
  lemma FlaskFoundInSomeChunk(chunks: seq<string>)
    ensures Contains(CombinedText(chunks), "flask")
            <==> exists i :: 0 <= i < |chunks| && Contains(Lower(chunks[i]), "flask")
  {
    LowerJoin(chunks);
    var lowered := LowerAll(chunks);
    assert " " == [' '];
    JoinContains(' ', lowered, "flask");
    if SomePartContains(lowered, "flask") {
      var i :| 0 <= i < |lowered| && Contains(lowered[i], "flask");
      assert Contains(Lower(chunks[i]), "flask");
    }
  }

  /** A fallback answer starts with the banner, so it is never the resume text. */
  lemma FallbackIsNotSummary(chunks: seq<string>)
    ensures FallbackSummary(chunks) != ResumeAnalyzerSummary
  {
    assert FallbackSummary(chunks)[0] == 'H';
    var opening := "The Resume Analyzer ";
    assert ResumeAnalyzerSummary[0] == opening[0] == 'T';
  }

  /** The fallback written out case by case: the banner alone for no chunks,
      then one bullet for each of the first (at most two) chunks, in rank order. */
  lemma FallbackShape(chunks: seq<string>)
    ensures |chunks| == 0 ==> FallbackSummary(chunks) == Banner
    ensures |chunks| == 1 ==>
              FallbackSummary(chunks) == Banner + "- " + chunks[0][..Min(200, |chunks[0]|)] + "...\n"
    ensures |chunks| >= 2 ==>
              FallbackSummary(chunks)
              == Banner + "- " + chunks[0][..Min(200, |chunks[0]|)] + "...\n"
                 + "- " + chunks[1][..Min(200, |chunks[1]|)] + "...\n"
  {
    var top := chunks[..Min(PreviewCount, |chunks|)];
    if |chunks| >= 2 {
      assert top[1..] == [chunks[1]];
      assert Previews(top[1..][1..]) == "";
      assert Previews(top) == PreviewLine(chunks[0]) + PreviewLine(chunks[1]);
    } else if |chunks| == 1 {
      assert top == [chunks[0]];
      assert Previews(top) == PreviewLine(chunks[0]);
    }
  }

  /** Whatever was retrieved, a fallback answer is at most the banner plus
      two full preview lines long. */
  lemma FallbackLengthBound(chunks: seq<string>)
    ensures |FallbackSummary(chunks)| <= |Banner| + PreviewCount * (PreviewLength + 6)
  {
    FallbackShape(chunks);
  }

  /** With nothing retrieved the answer is exactly the banner line: without
      context the resume rule has no "flask" to find. */
  lemma EmptyContextGivesBanner(question: string)
    ensures BranchTaken(question, []) == Fallback
    ensures GenerateAnswer(question, []) == Banner
  {
  }

  /** Changing the letter case of the question or of any chunk does not
      change which branch is taken; when the resume rule fires, the answer
      itself does not change either. */
  lemma BranchIgnoresCase(question: string, question': string, chunks: seq<string>, chunks': seq<string>)
    requires Lower(question) == Lower(question')
    requires |chunks| == |chunks'|
    requires forall i :: 0 <= i < |chunks| ==> Lower(chunks[i]) == Lower(chunks'[i])
    ensures BranchTaken(question, chunks) == BranchTaken(question', chunks')
    ensures BranchTaken(question, chunks) == ResumeRule
            ==> GenerateAnswer(question, chunks) == GenerateAnswer(question', chunks')
  {
    LowerJoin(chunks);
    LowerJoin(chunks');
    assert LowerAll(chunks) == LowerAll(chunks');
  }
}
