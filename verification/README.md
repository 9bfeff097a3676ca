# Context-IQ retrieval core in Dafny

A model of the deterministic parts of a small retrieval-augmented question
answering script. Texts loaded from Google Drive and from GitHub are cut into
overlapping windows by `chunk_text`. The windows are flattened into one global
chunk list, whose positions are the keys of the vector index. A question is
answered by mapping the positions a nearest-neighbour search returns back to
chunks, and then applying a rule-based synthesiser,
`generate_answer_from_context`. That synthesiser has one keyword rule: a
question about the resume project, asked with Flask in the context, gets a
fixed description. Every other question gets a fallback that previews the top
two chunks.

Modules, one per concern:

- `Text` (text.dfy): ASCII `lower()`, Python's `needle in hay` as a left-to-right scan proved equal to "occurs at some index", `sep.join`, `"".join`.
- `Chunker` (chunker.dfy): `chunk_text` as a recursive function, plus its `while` loop as a method; chunk count, window contents, coverage, overlap, round trip, the redundant tail, and the missing step guard.
- `Answer` (answer.dfy): `generate_answer_from_context`; the resume rule, the fallback shape, and insensitivity to letter case.
- `Pipeline` (pipeline.dfy): corpus assembly (Drive texts before GitHub texts, flattened), the map from positions back to texts, retrieval by position, and `ask_question` with the search result as an input.

Facts about `chunk_text` that shape the model:

- `chunk_text` has no guard against `overlap >= chunk_size`; its loop then never advances. The model requires `0 < size && overlap < size` (`Chunker.ValidWindow`), and `Chunker.NoStepNoProgress` shows that when `overlap >= size` the loop condition holds after every pass.
- `chunk_text` has no single-chunk case: it yields `ceil(len / (chunk_size - overlap))` chunks, so a text with `size - overlap < len <= size` yields at least two, and exactly two when `overlap <= size - overlap`, as with the script's 500/100 (`Chunker.DefaultShortTextTwoChunks`); and the last chunk is redundant whenever the one before it already reaches the end of the text (`Chunker.ChunkCount`, `Chunker.ShortTextStillSplits`, `Chunker.RedundantTail`).

## Model

| member | source | states |
|---|---|---|
| Chunker.ChunkText | text_chunker.py:1-12 | the empty text gives no chunks and only it does; the count is `ceil(len / (size - overlap))`; each chunk is non-empty and at most `size` long; chunk `i` is the window of the text that starts at offset `ChunkStart(i)` and is clipped to the text length |
| Chunker.ChunkFrom | text_chunker.py:6-10 | from a loop state `start`, the loop yields `ceil((len - start) / step)` chunks, and chunk `i` is the clipped window starting at `start + ChunkStart(i)` |
| Chunker.ChunkTextLoop | text_chunker.py:1-12 | the imperative `while` loop (slice, append, `start = end - overlap`) computes exactly the chunks of the recursive definition |
| Chunker.ChunkStartIsMultiple | text_chunker.py:7-10 | successive window starts advance by exactly `size - overlap`: chunk `n` starts at `n * (size - overlap)` |
| Chunker.ChunkAt | text_chunker.py:7-10 | chunk `i` equals `text[i*(size-overlap) : min(i*(size-overlap)+size, len)]`, and its start lies inside the text |
| Chunker.ChunkOccursInText | text_chunker.py:7-9 | for any valid window, every chunk is a substring of the text it was cut from |
| Chunker.ChunkCount | text_chunker.py:6-10 | for non-empty text the number of chunks is `(len + step - 1) / step`, with `step = size - overlap` |
| Chunker.LastChunkReachesEnd | text_chunker.py:6-10 | with `0 <= overlap`, the last chunk ends exactly at the end of the text |
| Chunker.EveryCharacterCovered | text_chunker.py:6-10 | with `0 <= overlap`, every character of the text appears in some chunk, at the offset that chunk's start predicts |
| Chunker.NoOverlapRoundTrip | text_chunker.py:7-10 | with `overlap = 0`, concatenating the chunks gives back the text |
| Chunker.NeighboursOverlap | text_chunker.py:7-10 | the first `min(overlap, len(chunk i+1))` characters of chunk `i+1` equal the characters of chunk `i` from offset `size - overlap` on |
| Chunker.RedundantTail | text_chunker.py:6-10 | once chunk `i` reaches the end of the text, chunk `i+1` is a suffix of chunk `i` and adds nothing |
| Chunker.ShortTextStillSplits | text_chunker.py:6-10 | a text longer than one step but no longer than `size` gives at least two chunks: the whole text, then its tail from offset `size - overlap` |
| Chunker.DefaultShortTextTwoChunks | text_chunker.py:6-10 | with the script's 500/100 configuration, a text of 401 to 500 characters gives exactly two chunks |
| Chunker.NoStepNoProgress | text_chunker.py:6-10 | when `overlap >= size`, `start` never becomes positive, so on non-empty text the loop condition `start < len(text)` holds after every pass |
| Text.Contains | rag_qa.py:54-55 | Python's `needle in hay`, as a scan from the left; `Text.ContainsIff` proves it equal to "occurs at some index" |
| Text.Join | rag_qa.py:50 | `sep.join(xs)`; `Text.LowerJoin` and `Text.JoinContains` state how lower-casing and substring search pass through it |
| Text.Lower | rag_qa.py:50-51 | lower-casing keeps the length and lower-cases every character independently |
| Text.ContainsIff | rag_qa.py:54-55 | the substring scan succeeds exactly when the needle occurs at some index of the haystack |
| Text.LowerJoin | rag_qa.py:50 | lower-casing the space-joined chunks is the same as joining the lower-cased chunks |
| Text.JoinContains | rag_qa.py:50-55 | a non-empty needle without the separator character occurs in the joined text exactly when it occurs in one of the parts |
| Answer.CombinedText | rag_qa.py:50 | the lower-cased, space-joined context; `Answer.FlaskFoundInSomeChunk` shows that "flask" occurs in it exactly when it occurs in some lower-cased chunk |
| Answer.AsksAboutResume | rag_qa.py:51-54 | both disjuncts of the question test on the lower-cased question; `Answer.ResumeAnalyzerImpliesResume` shows the first adds nothing to the second |
| Answer.PreviewLine | rag_qa.py:66 | a preview line is the bullet `"- "`, at most 200 characters of the chunk, and `"...\n"`, so it is exactly `min(200, len(chunk)) + 6` characters long |
| Answer.Previews | rag_qa.py:65-66 | the `for chunk in ...: summary += ...` loop: one preview line per chunk, in order; `Answer.FallbackShape` writes out its result for the first two chunks |
| Answer.FallbackSummary | rag_qa.py:64-68 | the fallback always starts with the banner, and is exactly the banner precisely when there are no chunks |
| Answer.GenerateAnswer | rag_qa.py:44-68 | the answer is the fixed Resume Analyzer text exactly when the lower-cased question contains "resume" and some lower-cased chunk contains "flask"; in every other case, including a resume question without flask, the answer is the fallback |
| Answer.ResumeAnalyzerImpliesResume | rag_qa.py:54 | the "resume analyzer" disjunct is subsumed by "resume" |
| Answer.FlaskFoundInSomeChunk | rag_qa.py:50-55 | "flask" occurs in the lower-cased, space-joined context exactly when it occurs in some single lower-cased chunk |
| Answer.FallbackIsNotSummary | rag_qa.py:56-68 | a fallback answer never equals the fixed resume text, so the two branches can be told apart from the answer |
| Answer.FallbackShape | rag_qa.py:64-68 | the fallback is the banner, then `"- " + chunk[:200] + "...\n"` for each of the first `min(2, len(chunks))` chunks, in rank order |
| Answer.FallbackLengthBound | rag_qa.py:64-66 | a fallback answer is at most the banner plus two 206-character preview lines long |
| Answer.EmptyContextGivesBanner | rag_qa.py:54-68 | with no retrieved chunks the resume rule cannot fire, and the answer is exactly the banner line |
| Answer.BranchIgnoresCase | rag_qa.py:50-55 | changing the letter case of the question or of any chunk does not change the branch taken, nor the answer when the resume rule fires |
| Pipeline.ChunkAll | rag_qa.py:26-28 | the flattened chunk list has as many entries as the per-text chunk counts add up to |
| Pipeline.ChunkAllAppend | rag_qa.py:22-28 | chunking a concatenation of text lists gives the concatenation of their chunk lists |
| Pipeline.AssembleChunks | rag_qa.py:26-28 | the `for`/`extend` loop builds exactly the in-order flattening of every text's chunks |
| Pipeline.AllTexts | rag_qa.py:22 | `drive_texts + github_texts`; `Pipeline.BuildOrder` shows the chunk order follows it |
| Pipeline.Build | rag_qa.py:22-28 | the chunk list built from all loaded texts; `Pipeline.BuildOrder` gives its order and size, and `Pipeline.RetrievedChunksComeFromSources` ties every retrieved chunk back to a loaded text |
| Pipeline.BuildOrder | rag_qa.py:22-28 | all Drive chunks come first, then all GitHub chunks, and the total is the sum of both counts |
| Pipeline.Locate | rag_qa.py:26-28 | every global position belongs to one text and one chunk index within it; the position is the chunk count of the earlier texts plus that index |
| Pipeline.CorpusChunkFromSource | rag_qa.py:26-28 | every entry of the global chunk list is a substring of one of the loaded texts |
| Pipeline.Retrieve | rag_qa.py:78 | one retrieved chunk per returned position, in the order returned; entry `j` is the chunk at position `hits[j]` |
| Pipeline.Ask | rag_qa.py:72-81 | the answer is the resume text exactly when the question mentions "resume" and the chunk at some returned position mentions "flask"; otherwise it is the fallback over the chunks at the first two returned positions only |
| Pipeline.RetrievedChunksComeFromSources | rag_qa.py:77-78 | each chunk passed to the synthesiser is a substring of one of the Drive or GitHub texts |

## Left out

- The embedding model and the FAISS index (rag_qa.py:1-3, 16, 33-41, 74, 77). They are foreign libraries computing on float32 vectors. `index.search` enters `Pipeline.Ask` as the list of positions it returns, and `top_k` (default 3) only sizes that list.
- Pipeline.Retrieve: requires every returned position to be inside the chunk list. FAISS pads with `-1` when `top_k` exceeds the number of vectors, and Python would then read the last chunk. That padding is library behaviour and is not modelled.
- Pipeline.Ask: requires in-range positions too, for the same reason.
- Chunker.ChunkText: `chunk_size <= 0` is excluded by the precondition. With `chunk_size == 0` and a negative overlap, every pass appends the empty slice `text[start:start]`, giving `ceil(len / -overlap)` empty chunks; with `chunk_size == 0` and `overlap >= 0` the loop never advances. With `chunk_size < 0` the first slice ends at a negative index, which Python counts from the back of the text.
- Chunker.LastChunkReachesEnd: also requires `overlap >= 0`. The code does not exclude a negative overlap, and then the windows leave gaps.
- Chunker.EveryCharacterCovered: also requires `overlap >= 0`, for the same reason.
- Chunker.NeighboursOverlap: also requires `overlap >= 0`; with a negative overlap neighbours share nothing.
- Text.Lower: lower-cases ASCII letters only, unlike Python's full Unicode `str.lower()`.
- The document loaders (drive_text_loader.py, google_drive_integration.py, git_hub_integration.py). They handle OAuth tokens, Drive and GitHub API calls, and file I/O. Their output enters as `Pipeline.Sources`.
- The module-level prints (rag_qa.py:23, 30, 41) and the `__main__` demo, which asks one fixed question and prints the answer (rag_qa.py:85-88).
