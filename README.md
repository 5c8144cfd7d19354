# FinanceQA agent, modelled in Dafny

FinanceQA answers financial questions with a language model and a small retrieval layer,
then grades the answers with a second model call. This project models the deterministic
logic around those calls and proves properties of it. The modelled units are:

- **The retrieval layer's knowledge base (rag.py).** It holds five hardcoded rules followed
  by chunks of a PDF textbook. To build the textbook chunks, the pages are assembled into
  one text. Section titles are then looked for in a table of contents. The text is cut by
  section when titles were found and by paragraph otherwise. In both modes, paragraphs are
  packed greedily under a 1500-character threshold.
- **Top-k selection over similarity scores (rag.py `query`).**
- **The judge model's verdict and reason parsing (evaluator.py).**
- **The agent (agent.py).** This covers the question-type rule, when retrieval is
  consulted, how the answer fields are read out of the model's reply, the error record, and
  the metric aggregation over finished results.
- **The retry policy with exponential backoff (utils.py).**

Modules, in dependency order:

- `Wrappers`: Option.
- `Text`: the Python string operations used: strip, find, split, join, upper and lower, and
  str(n). It also holds list filtering.
- `Packing`: the greedy paragraph accumulation that both chunkers share.
- `RagChunking`: page assembly, the table of contents, the two chunkers and
  `_process_pdf_textbook`.
- `Rag`: the rules, argsort and top-k selection, and the class `FinancialRag`.
- `Utils`: `retry_with_exponential_backoff`.
- `Evaluator`: `evaluate_answer`.
- `Agent`: `answer_question`, the question data and `_process_single_question`.
- `AgentMetrics`: the metrics of `evaluate_on_dataset`.

The model's inputs:

- **Calls outside the model are parameters.**
  - A model call is given by its outcome on each attempt (`nat -> CallOutcome<string>`).
  - The random jitter of attempt a is `jitter(a)`, in [0, 1].
  - The sentence embedder is a function from a text to a vector.
  - A query receives the cosine similarity of the question to each chunk as a `seq<real>`.
  - A PDF is the list of what `extract_text()` returned for each page, with None where the
    call raised. `Unreadable` stands for a file that cannot be opened or parsed.
- **Regular expressions.**
  - The table-of-contents regexes (rag.py:110-130) are modelled by what `re.findall` returns
    for them (`Matcher = string -> seq<string>`).
  - The escaped section search (rag.py:150-159) is modelled as an ASCII case-insensitive
    substring search.
  - The agent's `CLASSIFICATION:` and `FINAL ANSWER:` searches are modelled exactly, except
    that `\s`, `\w` and case folding are ASCII-only. This includes the backtracking case
    where the whitespace after `FINAL ANSWER:` runs to the end of the reply.

The code and its comments disagree in one place. The evaluator's comment calls its test an
"exact CORRECT/INCORRECT status, not substring match". The code is a substring test on the
upper-cased first line, and the model follows the code. As a result, a first line opening
with the requested label `CORRECTNESS:` is judged correct unless it contains `INCORRECT`
(`Evaluator.CorrectnessLabel`).

## Model

| member | source | states |
|---|---|---|
| Rag.FinancialRules | rag.py:39-62 | exactly five rules with the stated topics (working_capital, diluted_shares, ebitda, lease_analysis, working_capital), none with a source or section |
| Rag.FinancialRag.constructor | rag.py:20-37 | the knowledge list is the five rules followed by the textbook's chunks in order; it is exactly the rules when no textbook file exists; there is one embedding per chunk, the embedding of its text |
| Rag.ArgSortIsArgsort | rag.py:68 | the concrete argsort used is a permutation of the indices in ascending score order, as np.argsort returns |
| Rag.SelectTopKMembers | rag.py:68-70 | an index is selected exactly when it lies in the last top_k slots of the ascending order, with Python's `[-top_k:]` slice rule, and scores over 0.3 |
| Rag.SelectTopKSize | rag.py:68-70 | with top_k ≥ 1 at most top_k indices are returned, and never more than there are chunks |
| Rag.SelectTopKAboveFloor | rag.py:70 | every returned index is a valid chunk index scoring strictly above 0.3 |
| Rag.SelectTopKDescending | rag.py:68-70 | returned indices are pairwise distinct and in non-increasing score order, for any argsort order of ties |
| Rag.SelectTopKBest | rag.py:68-70 | any chunk scoring strictly higher than a returned chunk is returned too |
| Rag.SelectTopKAll | rag.py:68-70 | with top_k = 0, or top_k at least the chunk count, an index is returned exactly when it scores over 0.3 |
| Rag.FinancialRag.Query | rag.py:64-70 | given one score per embedding row (rag.py:66-67), the result is at most top_k chunks (top_k ≥ 1), no more than the knowledge list holds, all taken from it |
| Rag.QueryRanked | rag.py:64-70 | a query returns the chunks at the selected indices: all above 0.3, distinct, best first, none beaten by a left-out chunk |
| RagChunking.AssemblePages | rag.py:79-87 | the page loop builds exactly the blocks `"\n--- Page N ---\n" + text` of the pages that neither raise nor are blank, in page order, numbered from 1 |
| RagChunking.AssembledBlankIff | rag.py:83-91 | the full text is blank exactly when every page raised or was blank |
| RagChunking.NoTextNoChunks | rag.py:89-91 | a document with no contributing page yields no chunk |
| RagChunking.TocCandidates | rag.py:117-133 | the candidates are empty exactly when no lead-in pattern yields a title; otherwise they are the titles of the first lead-in that yields one |
| RagChunking.TocCandidatesSkip | rag.py:119-133 | a lead-in that yields no title is passed over, whether or not it matched |
| RagChunking.CollectTitles | rag.py:128-130 | the title loop collects the stripped matches of every title pattern on the first lead-in match, pattern by pattern |
| RagChunking.FirstProductive | rag.py:117-133 | the lead-in loop stops at the first lead-in whose titles are non-empty |
| RagChunking.CleanTitles | rag.py:135-141 | at most 20 titles; a title is kept exactly when it is among the first 20 candidates and its length is strictly between 10 and 100; the titles are the first 20 candidates at strictly increasing positions, in their original order and with their repetitions, and a position is taken exactly when its title has a reasonable length |
| RagChunking.KeepReasonable | rag.py:136-141 | the filter loop computes CleanTitles |
| RagChunking.ExtractTocSections | rag.py:107-141 | the section titles are the cleaned candidates of the first productive lead-in |
| RagChunking.SectionContent | rag.py:147-162 | no content exactly when the stripped title does not occur, ignoring case; otherwise the slice that starts right after the first occurrence of the title and ends at the first occurrence of the next stripped title from there, or at the end of the text, and always at the end for the last title |
| RagChunking.PackSection | rag.py:167-190 | the greedy loop over a long section's paragraphs emits one chunk per packed body, each `title + "\n\n" + body` |
| RagChunking.ChunkSection | rag.py:147-201 | one iteration of the section loop emits the chunks of that section |
| RagChunking.CreateSectionChunks | rag.py:143-203 | the chunks of all sections, in title order |
| RagChunking.ChunksOfSection | rag.py:161-197 | every chunk one section emits is tagged textbook_section / pdf_valuation |
| RagChunking.SectionChunksUpTo | rag.py:143-203 | every chunk of the first n sections, in order, is tagged textbook_section / pdf_valuation |
| RagChunking.SectionChunksTagged | rag.py:173-196 | every section chunk has topic textbook_section, source pdf_valuation, the title as section, and text starting with the title and a blank line |
| RagChunking.SectionShortAndMedium | rag.py:161-197 | a missing title or content of at most 100 characters emits nothing; content of at most 2000 characters emits exactly `title + "\n\n" + content` |
| RagChunking.SectionLongRoundTrip | rag.py:165-190 | for content over 2000 characters with no empty paragraph, the chunk bodies are the packed paragraphs; joined by blank lines they give back the content, split again they give back its paragraphs, and a body of two or more paragraphs is at most 1502 characters |
| RagChunking.PackParagraphs | rag.py:210-239 | the paragraph loop skips paragraphs shorter than 50 or with "Page" in their first 20 characters, and emits the greedy packing of the rest as chunks tagged chunk_0, chunk_1, … |
| RagChunking.CreateParagraphChunks | rag.py:205-241 | the paragraph chunks of a text |
| RagChunking.KeptParagraphsSound | rag.py:208-216 | every kept paragraph is a stripped, non-empty paragraph of the text, of length at least 50 and with no "Page" in its first 20 characters |
| RagChunking.KeptParagraphsComplete | rag.py:208-216 | every paragraph of the text that passes those tests after stripping is kept |
| RagChunking.ParagraphChunksRoundTrip | rag.py:212-239 | splitting the chunk texts on blank lines gives back exactly the kept paragraphs, in order; a chunk of two or more paragraphs is at most 1502 characters |
| RagChunking.ParagraphChunksTagged | rag.py:221-238 | paragraph chunks are tagged textbook_content / pdf_valuation with sections chunk_0, chunk_1, … in order, pairwise distinct |
| RagChunking.ParagraphChunksEmpty | rag.py:233-241 | no kept paragraph gives no chunk |
| RagChunking.ProcessPdfTextbook | rag.py:72-105 | an unreadable file or a blank text gives no chunk; otherwise section chunks when table-of-contents titles were found, else paragraph chunks |
| RagChunking.TextbookChunksTagged | rag.py:72-105 | every textbook chunk has source pdf_valuation and topic textbook_section or textbook_content |
| Packing.GroupsPartition | rag.py:170-190 | the greedy packing partitions the paragraphs into non-empty consecutive groups; each group of two or more stays within 1500 characters counted the source's way; each group is closed only when the next paragraph would overflow it |
| Packing.PackIsJoinedGroups | rag.py:170-190 | each emitted body is its group of paragraphs joined by blank lines |
| Packing.PackKeepsText | rag.py:170-190 | the emitted bodies joined by blank lines give back the paragraphs joined by blank lines |
| Packing.PackSplitsBack | rag.py:170-190 | splitting each body on blank lines recovers the groups, and so the paragraphs in order |
| Packing.PackBound | rag.py:171 | a body of two or more paragraphs is at most 1502 characters |
| Packing.PackNoEmptyChunk | rag.py:172-190 | no emitted body is empty |
| Packing.PackTwo | rag.py:180-181 | two paragraphs that fit together are joined into one body |
| Text.Strip | rag.py:83 | str.strip(): the result is the text between the first and last non-whitespace characters; empty exactly when the text is blank |
| Text.Split | rag.py:167 | str.split(sep): joining the parts gives back the text; no part but the last contains the separator |
| Text.SplitJoin | rag.py:167 | splitting the join of separator-free parts gives back the parts |
| Text.FilterOrder | rag.py:136-141 | a list comprehension with a condition gives the passing elements at strictly increasing positions, each position exactly when its element passes |
| Text.FindFrom | rag.py:159 | the leftmost occurrence at or after a position, or none at all |
| Utils.Retry | utils.py:13-34 | the loop returns RetryResultOf and makes CallsMade calls; each delay equals the capped backoff and lies between min(base·2^attempt, max_delay) and max_delay |
| Utils.StopAttempt | utils.py:20-34 | the stopping attempt is the first one that is not a rate limit, or the last attempt |
| Utils.Backoff | utils.py:29 | each delay is at most max_delay, at least min(base·2^attempt, max_delay) and at most base·2^attempt + 1 |
| Utils.NoAttempts | utils.py:20 | with max_retries ≤ 0 the function is never called and the result is None |
| Utils.CallsBounded | utils.py:20 | the function is called at most max_retries times, and at least once when max_retries is positive |
| Utils.FirstNonRateLimitWins | utils.py:21-22 | the first attempt that is not a rate limit ends the loop: a success is returned, any other error raised at once, after exactly that many calls |
| Utils.RateLimitedThroughout | utils.py:23-26 | rate limits on every attempt lead to max_retries calls and the last rate-limit error raised |
| Utils.RetryEndsInCall | utils.py:20-34 | with max_retries positive the loop never falls through to None, and it raises a rate limit only after every attempt |
| Evaluator.FirstLine | evaluator.py:58 | the first line holds no newline, is a prefix of the reply and is followed by a newline or the end |
| Evaluator.FirstLineOf | evaluator.py:58 | the first line of `line + "\n" + rest` is line, whatever rest is |
| Evaluator.OnlyFirstLineMatters | evaluator.py:58 | only the first line decides the verdict |
| Evaluator.IncorrectWins | evaluator.py:59-60 | a first line containing INCORRECT, in any case, gives False |
| Evaluator.CorrectIff | evaluator.py:59-65 | without INCORRECT the verdict is True exactly when the first line contains CORRECT; the endswith fallback never holds where the containment test failed |
| Evaluator.CorrectnessLabel | evaluator.py:41 | a first line opening with the requested CORRECTNESS: label is True exactly when it lacks INCORRECT |
| Evaluator.ReasonAfterLastMarker | evaluator.py:66 | with a REASON: marker, the reason is the stripped text after the last marker; that text holds no marker and ends the reply |
| Evaluator.LastMarkerUnique | evaluator.py:66 | the text after the last marker is the only marker-free suffix that follows a marker |
| Evaluator.ReasonOf | evaluator.py:66 | whatever precedes it, a last REASON: followed by marker-free text gives that text, stripped |
| Evaluator.ReasonDefault | evaluator.py:66 | without a marker the reason is "Evaluation completed" |
| Evaluator.FailedEvaluation | evaluator.py:70-72 | a failed call gives False and a reason starting "Evaluation failed: " |
| Evaluator.EvaluateAnswer | evaluator.py:45-72 | the verdict and reason for the outcome of the retried judge call |
| Agent.QuestionType | agent.py:153 | basic_tactical exactly when the context has a non-whitespace character, otherwise conceptual |
| Agent.PrepareQuestions | agent.py:150-161 | one question record per row, in row order, with id q_<index>, the context ("" for a missing cell) and the type rule |
| Agent.PreparedType | agent.py:152-153 | a row is basic_tactical exactly when its context cell is present and not blank |
| Agent.QuestionIdsDistinct | agent.py:156 | distinct row indices give distinct question ids |
| Agent.ClassificationFrom | agent.py:106 | a found classification is a non-empty run of word characters |
| Agent.ReplyTypeDefault | agent.py:107 | without a CLASSIFICATION: label the type is basic_tactical |
| Agent.ReplyTypeLabel | agent.py:106-107 | a reply opening with `CLASSIFICATION: ` and a word has that word, lower-cased, as its type |
| Agent.FinalAnswerFrom | agent.py:110 | a found final answer is non-empty and holds no newline |
| Agent.AnswerFallback | agent.py:111 | without a FINAL ANSWER: label the answer is the reply's last line, stripped: the line the reply ends with after its last newline |
| Agent.AnswerLabel | agent.py:110-111 | when the first FINAL ANSWER: label is followed by a space and a line of text, the answer is that line, stripped |
| Agent.Retrieved | agent.py:40 | retrieval is the query with top_k = 5 for a non-blank context and nothing for a blank one, so at most 5 chunks of the knowledge list |
| Agent.AnswerQuestion | agent.py:37-137 | the response for the retried call's outcome and the gated retrieval |
| Agent.RetrievalGating | agent.py:40-42 | rag_found holds exactly when the call answered and a chunk came back; rag_content is then the chunk texts joined by newlines, and empty otherwise |
| Agent.BlankContextNoRetrieval | agent.py:40 | with a blank context nothing is found and rag_content is empty |
| Agent.ReplyFields | agent.py:103-125 | a reply gives confidence 0.8, the reply as full_response, and the parsed type and answer with their fallbacks |
| Agent.FailureRecord | agent.py:127-137 | a failed call gives confidence 0.0, rag_found False, type "error", no assumptions or rag content, and an answer starting "Error: " |
| Agent.ProcessSingleQuestion | agent.py:222-238 | the result record of answering and grading one question; its type is the prepared type, never the model's classification |
| Agent.StoredTypeFromContext | agent.py:152-153 | a stored result is basic_tactical exactly when the row's context is present and not blank, whatever the reply |
| AgentMetrics.CountWhere | agent.py:191 | a count never exceeds the number of results |
| AgentMetrics.CountWherePermutation | agent.py:170-191 | counts do not depend on the order the results completed in |
| AgentMetrics.TypeAccuracy | agent.py:203 | each by-type accuracy lies in [0, 1] |
| AgentMetrics.Aggregate | agent.py:189-214 | the metrics loop computes the totals, the overall accuracy and the by-type accuracies of Benchmark |
| AgentMetrics.BenchmarkBounds | agent.py:190-203 | total_correct ≤ total_questions; the accuracies lie in [0, 1], overall is correct/total and 0 without results; by-type keys are the types present, each with a non-zero count and value correct-of-type / count-of-type |
| AgentMetrics.TypeCountsSumToTotal | agent.py:195-201 | the per-type counts sum to the total |
| AgentMetrics.BenchmarkOrderIndependent | agent.py:189-214 | two orderings of the same results give the same metrics; only detailed_results differs |

## Left out

- Embeddings and cosine similarity (rag.py:21, 36, 66-67) are library floating-point calls.
  The embedder is a parameter and the scores are an input.
- Opening and parsing the PDF (rag.py:75-76), and the `os.path.exists` test (rag.py:28),
  are file I/O. They become `PdfFile` and `Option<PdfFile>`. The outer catch-all
  (rag.py:103-105) is modelled only as "an unreadable file gives no chunk".
- The table-of-contents and title regexes (rag.py:110-130) are abstract matchers. Their
  exact Python semantics are not modelled, only the fallback order, the stripping and the
  filtering.
- RagChunking.SectionContent: the escaped section regex (rag.py:150-159) is an ASCII
  case-insensitive substring search. `re.escape` makes every character of a title literal,
  so a literal search matches what the regex matches. Python's `$` before a final newline and
  Unicode case folding are not modelled. The `$` difference vanishes once the content is
  stripped.
- The per-section `except` (rag.py:199-201) is not modelled: nothing in the modelled
  section loop raises.
- Whitespace, `\s`, `\w` and case conversion are ASCII-only. Python's are Unicode-aware.
- The ASSUMPTIONS: field (agent.py:113-115) is a parameter, `assumptionsOf`. Its lookahead
  pattern is not modelled, and no other field depends on it.
- The prompts and the OpenAI client calls (agent.py:45-103, evaluator.py:25-54) are outside
  the model. Each call is its outcome on each attempt.
- A reply whose message content is None is not modelled. The content is taken to be text.
- The thread pool and the `as_completed` loop (agent.py:163-187) are not modelled. Their
  point is concurrency. The metrics are proved independent of the completion order instead.
- The `except` of that loop (agent.py:184-187) is not modelled. It leaves out of the results,
  and so out of `total_questions`, any question whose processing raises outside
  `answer_question`'s own try. Such failures, for example in the embedding call of the
  retrieval (agent.py:40), come from code outside the model.
- pandas loading and sampling (agent.py:145-147) are not modelled; rows arrive as a list.
  `str()` conversions of cells are taken as already done.
- Timing, `time.sleep` and the random jitter generation (utils.py:29-31) are not modelled:
  delays are returned instead of slept, and the jitter is a parameter.
- Logging and the progress accuracy are not modelled. It is log output only.
- `execution_time` and `max_workers` on the results (agent.py:205-218) are not modelled.
- results.py, main.py, run.py, setup.py and `__init__.py` are not part of this model.
- Rag.FinancialRag.Query: ranking uses a stable insertion sort, so chunks with equal scores
  come out in one fixed order. `np.argsort` with its default quicksort leaves that order
  unspecified. The SelectTopK lemmas hold for every ascending ordering of the indices, so
  they cover whatever order numpy picks.
- The default `top_k=2` of `query` (rag.py:64) has no constant of its own. Its only caller
  passes `top_k=5` (agent.py:40), and Query takes top_k as a parameter.
- Floating point is modelled as exact reals. Accuracies are exact quotients and scores are
  exact reals.
