# Retrieval pipeline of the career/course recommendation assistant

This project models, in Dafny, the retrieval core of `main.py`: the assistant
that answers a user's question about job postings (careers) or training
courses (skills) by retrieving matching table rows and having a language model
explain them.

The model has five modules:

- `Outcomes`: the exceptions the pipeline can raise, as a `Failure` datatype,
  a `Result` type, and Python's sequence semantics. `PyIndex` covers negative
  indices and `IndexError`. `PySlice` covers clamped slices.
- `Documents`: the row-document builder `extract_text_from_csv`. A table is a
  set of column labels and a sequence of rows. A cell is text or missing
  (NaN). A row document is the `" "`-join of the configured columns in
  configured order. A missing cell becomes a single space.
- `Chunking`: the sliding-window chunker `chunk_text`. Windows of `size`
  characters start every `size - overlap` characters. The windows of all
  texts are concatenated in text order.
- `Retrieval`: the selection logic of `search_faiss_index`. It works over the
  ranked candidate labels the vector search returns. A greedy phase keeps a
  candidate only when `far(candidate, accepted)` holds for every candidate
  already kept. `far` stands for "cosine similarity of the two embeddings is
  below the diversity threshold". A positional backfill then tops the result
  up to `k`. `Select` is the functional model. `SearchIndex` is a loop-based
  method proved equal to it.
- `Answering`: the control logic of `answer_question`. It covers:
  - history truncation to the last ten turns;
  - dispatch on `"career" in mode` before `"skill" in mode`;
  - per-row projection of the display fields, with `"N/A"` for absent columns;
  - the single `("Chatbot", response)` turn appended on success;
  - the `Error` reply that every failure collapses into.

  The vector search, the similarity test, the first-paragraph template and the
  language model are functions in a `Services` value.

The model follows the code in these places:

- A frame with configured columns but no rows does not give an empty list:
  the row-wise `apply` returns a frame, and `tolist` raises (`ExtractText`).
- A missing cell becomes `" "`, not the empty string. So a row whose cells
  are all missing still yields a non-empty document (`AllMissingRow`).
- A text of length n yields `ceil(n / step)` chunks, and an empty text yields
  none (`ChunkCount`).
- `overlap == size` raises from `range` only when the text list is non-empty.
  `overlap > size` silently yields no chunks; it does not loop and is not
  rejected (`OverlapBeyondSize`).
- Chunks carry no row of origin. The chunk index is used directly as a row
  index. That is right only when every text gives exactly one chunk
  (`OneChunkPerText`, `ChunkIndexShift`).
- The backfill appends the candidates at positions `s .. k-1` without
  skipping accepted ones, so results can repeat (`BackfillRepeats`).
- The search's `-1` padding labels are valid Python indices (the last chunk),
  and the model treats them so.
- The history is cut before the reply is appended. A successful answer can
  therefore return eleven turns (`HistoryGrowsToEleven`).
- An unknown mode is not a typed error. The dataset variables stay unbound,
  and the resulting exception becomes the error reply (`UnknownModeIsError`).
- A mode containing both "career" and "skill" reads the career fields but
  looks the title up under "Course Title", so every title caption is Python's
  `None` (`MixedModeTitle`).

## Model

| member | source | states |
|---|---|---|
| `Documents.ExtractText` | main.py:24-26 | succeeds exactly when every configured column is in the table and the table has rows (or no column is configured); a missing column fails naming a configured column the table lacks, whatever the row count, and only a frame with all configured columns but no rows fails because `apply` returns a frame without `tolist`; on success gives one document per row, in row order, each that row's document |
| `Documents.RowDocumentLayout` | main.py:25 | each configured column's text, or a single space for a missing cell, sits in the row document at its position in configured order, followed by one space unless it is the last |
| `Documents.JoinLength` | main.py:25 | a space-join is as long as its parts plus one separator between each two |
| `Documents.AllMissingRow` | main.py:25 | a row whose configured cells are all missing yields 2m-1 spaces for m columns, never the empty string |
| `Documents.EveryRowChunked` | main.py:24-34 | with two or more configured columns every row document is non-empty and yields at least one chunk |
| `Chunking.ChunkText` | main.py:29-34 | fails, with the zero-step error, exactly when the text list is non-empty and the overlap equals the chunk size |
| `Chunking.ChunkCount` | main.py:32 | given overlap < size, a text of length n yields exactly ceil(n / (size - overlap)) chunks, the least count whose windows reach the end; an empty text yields none |
| `Chunking.ChunkContents` | main.py:32-33 | chunk j exists exactly when its start j·step is inside the text; it is the text from j·step for at most `size` characters, so no chunk is longer than `size` |
| `Chunking.ChunkOverlap` | main.py:32-33 | a full-length chunk and the next chunk of the same text share exactly `overlap` characters |
| `Chunking.ChunkCoverage` | main.py:32-33 | with 0 <= overlap < size every character of a text lies in some chunk of it, at the offset its position gives |
| `Chunking.ChunkAllAppend` | main.py:30-34 | the chunks of a concatenated text list are the chunks of each part, in order |
| `Chunking.ChunkSource` | main.py:30-34 | every chunk index determines its text and window: chunk c is window j of text i, after all chunks of earlier texts, and equals that text's slice from j·step |
| `Chunking.OneChunkPerText` | main.py:30-34 | when every text is non-empty and at most one step long, chunk i is the first window of text i, so chunk index equals row index |
| `Chunking.ChunkIndexShift` | main.py:30-34 | a text longer than one step shifts later chunk indices: texts "ab","c" with size 2 and overlap 1 give chunks "ab","b","c" |
| `Chunking.OverlapBeyondSize` | main.py:32 | an overlap larger than the chunk size gives no chunks and no error |
| `Retrieval.SearchIndex` | main.py:54-75 | the two loops compute the functional selection; k = 0 gives an empty result; the two lists pair each index with its chunk and have min(k, number of candidates) entries; a failure names a candidate that is no valid index |
| `Retrieval.GreedyPaired` | main.py:58-68 | every chunk the greedy phase accepts is the corpus entry at the index accepted with it |
| `Retrieval.GreedyDiverse` | main.py:63-68 | every accepted chunk is far from each chunk accepted before it |
| `Retrieval.GreedyAtMostK` | main.py:58-60 | the greedy phase accepts at most k candidates |
| `Retrieval.GreedySubsequence` | main.py:58-68 | the greedy phase only appends, and the appended indices are a subsequence of the candidates in candidate order |
| `Retrieval.GreedyMaximal` | main.py:58-68 | when fewer than k are accepted, every candidate was a valid index and every candidate not kept fails the similarity test against some accepted chunk |
| `Retrieval.GreedySnoc` | main.py:58-68 | one loop iteration: appending a candidate to the list leaves a failed or full (k accepted) outcome unchanged; otherwise the candidate's lookup fails with its index, or it is accepted exactly when its chunk is far from every chunk accepted before it, so the accepted set is determined candidate by candidate |
| `Retrieval.SelectDrawsFromCandidates` | main.py:54-75 | every selected index is one of the search's candidates |
| `Retrieval.GreedyFirst` | main.py:58-68 | for k > 0 the first candidate is always accepted, since the test over no accepted chunk holds |
| `Retrieval.GreedyTotal` | main.py:58-62 | the greedy phase does not fail when every candidate is a valid index |
| `Retrieval.GreedyError` | main.py:61 | a greedy failure names a candidate outside the corpus |
| `Retrieval.FillAppends` | main.py:71-73 | the backfill appends exactly the given indices with their chunks, fails exactly when one of them is out of range, and names that one |
| `Retrieval.SelectBackfill` | main.py:70-73 | with s < k accepted, the result is the accepted indices followed by candidates s .. k-1 by position, without a similarity check; with k accepted it is the accepted ones alone |
| `Retrieval.SelectPaired` | main.py:54-75 | the returned chunk and index lists have equal length and chunk j is the corpus entry at index j |
| `Retrieval.SelectLength` | main.py:70-73 | the result has min(k, number of candidates) entries, so exactly k when at least k candidates were returned |
| `Retrieval.SelectFirst` | main.py:58-68 | for k > 0 the result starts with the best-ranked candidate |
| `Retrieval.SelectError` | main.py:61-72 | selection fails only on a candidate that is no valid index, and never when all are valid |
| `Retrieval.BackfillRepeats` | main.py:70-73 | the backfill can repeat an accepted candidate: candidates 0,1,2 with k = 3, where only "c" is far, give indices 0,2,2 |
| `Answering.LastTurns` | main.py:129-130 | the kept history is the suffix of the last min(n, 10) turns, in order |
| `Answering.Recommend` | main.py:164-166 | succeeds exactly when every index is a row (Python indexing); gives one description per index, of the row at that index; a failure names an out-of-range index |
| `Answering.AnswerQuestion` | main.py:125-226 | on success exactly one ("Chatbot", response) turn follows the cut history; on failure the cut history is returned unchanged; an unknown mode is an error; the history never exceeds eleven turns |
| `Answering.ContainsIffOccurs` | main.py:143-148 | the substring test holds exactly when the word occurs at some position of the mode |
| `Answering.DispatchExamples` | main.py:143-152 | the dispatch is a substring test: "careers" and "career skill" choose careers, "skills" chooses skills, "jobs" chooses nothing |
| `Answering.CareerModeIgnoresSkills` | main.py:143-147 | a mode containing "career" uses the careers dataset even if it also contains "skill": the skills corpus cannot change the exchange |
| `Answering.SkillModeIgnoresCareers` | main.py:148-152 | a mode containing "skill" but not "career" uses the skills dataset: the careers corpus cannot change the exchange |
| `Answering.UnknownModeIsError` | main.py:143-160 | any other mode yields the error reply and the cut history, never recommendations |
| `Answering.AnswerSucceedsIff` | main.py:154-184 | an answer succeeds exactly when the mode names a domain, the selection succeeds with at least three results, and the first three selected indices are rows of that domain's table |
| `Answering.FullSearchNeverTooFew` | main.py:154-184 | when the search returns its 2k = 10 labels (main.py:52), the too-few-results error never occurs: a successful selection has five results, so three are there to describe |
| `Answering.ValidLabelsAnswer` | main.py:154-184 | ten labels that are all valid indices into the chunks and the rows always give a successful answer |
| `Answering.PaddedSearchAnswers` | main.py:154-168 | a one-row, one-chunk career corpus answers although nine of the ten labels are the -1 padding, since Python reads -1 as the last element |
| `Answering.RecommendationFields` | main.py:164-167 | each recommendation j holds every display field of the row at selected index j: its cell where the table has the column, "N/A" where it does not; the title link is the "Link" field |
| `Answering.MixedModeTitle` | main.py:167 | a mode containing both "career" and "skill" gives career recommendations whose title caption is `None` |
| `Answering.HistoryGrowsToEleven` | main.py:129-130 | since truncation precedes the append, a successful answer to ten or more turns returns eleven |

## Left out

- Sentence embedding, the flat L2 vector index and cosine similarity (main.py:37-47, 51-52, 62-65) are floating-point foreign libraries. The ranked labels are a given function `rank`. "Similarity below the threshold" is a given predicate `far`. The search's `2k` labels, padded with -1 when the index holds fewer vectors, are a premise of `FullSearchNeverTooFew` and `ValidLabelsAnswer` rather than a property of `rank`, so elsewhere the candidate list may have any length.
- The language-model call and the prompt, paragraph and HTML title templates (main.py:99-124, 167-220) are external text. The paragraph and the model's answer are given functions of the domain, résumé, query and recommendations. The title is kept as its link and caption, not as an HTML string.
- The language model and the embedding model are assumed not to fail. Their exceptions, including one from constructing the model client outside the `try` (main.py:126), are not modelled.
- The exception text after "Error: " is represented by the `Failure` tag, not Python's message string.
- Loading the CSV files and building the indices at import time (main.py:19-21, 77-97) is file I/O and global state. One fact about their composition, that every row yields at least one chunk when two or more columns are configured, is `EveryRowChunked`.
- ExtractText: cells are text or missing. A numeric cell, which would make the join raise a type error, is not modelled.
- ChunkText: the chunk size is a natural number. A negative size would make Python's slice end count from the end of the text, which is not modelled.
- AnswerQuestion: a history of ten or fewer turns is the caller's own list, and Python appends to it in place. The model returns a new sequence and does not model that aliasing.
- The web endpoint, the chat UI, the résumé converter, the scraping scripts, the news-reader utilities, the LangChain draft and the configuration constants are I/O or glue outside this core.
