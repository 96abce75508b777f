# Retrieval-augmented Q&A backend: chunker, retrieval and answer arbitration

This project models, in Dafny, the two pieces of pure logic at the heart of a
small question-answering backend over a regulation document:

- **Knowledge building** (`backend/scripts/build-knowledge.js`). `chunkText`
  drops carriage returns and splits the document text at blank lines
  (`/\n\s*\n+/`). It then packs the paragraphs greedily, in order, into
  buffers joined by `"\n\n"`, with a soft length target of 1200. A buffer is
  flushed (trimmed) only when it is non-empty and the next paragraph would
  overflow it. The last buffer is kept only if it trims to something. Chunks
  are numbered 1..n. `main` trims the extracted text, chunks it and embeds
  every chunk; a failed embedding aborts the build.
- **Answering** (`backend/server.js`). `topK` scores every stored chunk
  against the query embedding and sorts by descending score with a stable
  sort. It keeps the first `k` (3 at the call site). The `/ask` handler
  rejects a trimmed question shorter than 3 characters with 400. Otherwise it
  embeds the question and retrieves 3 candidates. When the QA model loaded,
  it asks the model about each candidate, skips calls that throw, and keeps
  the first answer with the strictly greatest score. When the kept answer is
  empty, it falls back to the top candidate's text (or
  `"(sem resposta encontrada)"`) with score 0. Any exception becomes a 500.

Modules follow the program's parts:

- `Wrappers`: `Option`.
- `JsText`: JavaScript's white-space class, `trim` and `\r` removal.
- `BlankLineSplit`: the exact behaviour of `split(/\n\s*\n+/)`, including the
  greedy `\s*` backtracking that ends a break at the last line feed of a
  white run.
- `Chunker`: the packing loop as written, `chunkText`, and the corrected
  chunker described under Findings.
- `GreedyPacking`: a loop-free description of the packing and the proof that
  the loop meets it and is the only thing that does.
- `KnowledgeBuild`: the build in `main`.
- `Retrieval`: `topK`, with the stable sort modelled as the order "higher
  score first, earlier store position first".
- `Arbiter`: the QA loop and the fallback.
- `AskHandler`: `/ask` as one pure function returning
  `BadRequest | Answered | ServerError`.

The embedder, the cosine similarity and the QA model are parameters: the
embedders are `string -> Option<seq<real>>`, the similarity is
`(seq<real>, seq<real>) -> real`, and the QA model is
`(question, context) -> Option<QaOutput>`. In each, `None` means the call
threw. The QA model sits behind `Extractor = Disabled | Enabled(qa)`. Scores
are `real`. The handler's initial `-Infinity` is the `NegInf` case of
`Confidence`.

Three details of the code that the model keeps:

- The fallback fires whenever the kept answer is the empty string, not only
  when no extraction succeeded. So an empty top-scoring answer falls back
  even when a lower-scoring candidate had text
  (`Arbiter.EnabledEmptyWinnerFallsBack`).
- The fallback's `source` is `cands[0]?.id || null`, so an id of 0 also
  becomes `null`. `source` is computed but never sent in the response, and
  the model's reply has no such field.
- `chunkText` can emit an empty chunk; see Findings.

## Model

| member | source | states |
|---|---|---|
| JsText.Trim | backend/scripts/build-knowledge.js:24 | the result starts and ends with non-white text, and is empty exactly when the input is all white space |
| JsText.TrimCutsWhiteEnds | backend/server.js:38 | trimming removes a white prefix and a white suffix and nothing else: the input is white prefix + result + white suffix |
| JsText.TrimTrimmed | backend/server.js:38 | trimming is the identity on text that already starts and ends with non-white characters |
| JsText.StripCR | backend/scripts/build-knowledge.js:12 | the result is never longer than the input, and is the input itself when there is no `\r` |
| JsText.StripCRChars | backend/scripts/build-knowledge.js:12 | the result holds exactly the input's characters other than `\r` |
| JsText.StripCRKeepsTrimmed | backend/scripts/build-knowledge.js:12 | removing `\r` from trimmed text leaves it trimmed |
| BlankLineSplit.BreakAt | backend/scripts/build-knowledge.js:12 | the regex matches at a position exactly when a line feed there is followed, within the white run, by another line feed; a match is white, starts and ends with a line feed, and leaves no line feed in the white run after it |
| BlankLineSplit.FirstBreak | backend/scripts/build-knowledge.js:12 | the break found is the leftmost match at or after the start position |
| BlankLineSplit.SplitBlankLines | backend/scripts/build-knowledge.js:12 | there is one more paragraph than separators, and every separator is a blank-line break |
| BlankLineSplit.SplitReassembles | backend/scripts/build-knowledge.js:12 | putting the separators back between the paragraphs gives back the text |
| BlankLineSplit.ParagraphsHaveNoBreak | backend/scripts/build-knowledge.js:12 | the pattern matches nowhere inside a paragraph |
| BlankLineSplit.ParagraphCharsFromText | backend/scripts/build-knowledge.js:12 | every character of every paragraph occurs in the text |
| BlankLineSplit.ParagraphsOfTrimmedCarryInk | backend/scripts/build-knowledge.js:12 | a non-empty trimmed text yields only paragraphs with a non-white character |
| Chunker.Pack | backend/scripts/build-knowledge.js:15-23 | every text the loop pushes is trimmed |
| Chunker.PackKeepsNoCR | backend/scripts/build-knowledge.js:15-23 | packing paragraphs without `\r` pushes texts and leaves a buffer without `\r` |
| Chunker.ChunkText | backend/scripts/build-knowledge.js:11-26 | chunk i has id i+1, every chunk text is trimmed and free of `\r`, and empty input gives no chunk |
| Chunker.ChunkTextCanEmitEmptyChunk | backend/scripts/build-knowledge.js:17-18 | `chunkText(" \n\n  ", 2)` returns one chunk with empty text |
| Chunker.PackFixed | backend/scripts/build-knowledge.js:17-18 | with the flush guarded like the final push, every pushed text is non-empty and trimmed |
| Chunker.ChunkTextFixed | backend/scripts/build-knowledge.js:11-26 | with the guarded flush, ids run 1..n, no chunk is empty, and all-white input gives no chunk |
| Chunker.PackAgreesOnInkedParagraphs | backend/scripts/build-knowledge.js:15-23 | when every paragraph has a non-white character, both loops give the same state |
| Chunker.ChunkTextAgreesOnTrimmed | backend/scripts/build-knowledge.js:29-34 | on trimmed text, which is what `main` passes, the as-written and guarded chunkers agree |
| GreedyPacking.PackIsGreedy | backend/scripts/build-knowledge.js:15-23 | the pushed texts are the trimmed buffers of a grouping of the paragraphs in document order; inside each group, a paragraph joined to a non-empty buffer kept it within `maxLen`; each closed group is non-empty and would overflow with the next paragraph |
| GreedyPacking.GreedyGroupingIsUnique | backend/scripts/build-knowledge.js:15-23 | any grouping with those properties is the loop's |
| GreedyPacking.FlushedBuffersBounded | backend/scripts/build-knowledge.js:16-21 | every flushed buffer, before trimming, is within `maxLen` or is a single paragraph; paragraphs are never split |
| GreedyPacking.BlankBufferHasBlankParagraphs | backend/scripts/build-knowledge.js:24 | a buffer that trims to nothing holds only white paragraphs |
| GreedyPacking.ChunkTextKeepsInkedParagraphs | backend/scripts/build-knowledge.js:11-26 | the chunks are the trimmed groups in order, then the last group when it has a non-white character; the last group is dropped only when all its paragraphs are white |
| KnowledgeBuild.EmbedAll | backend/scripts/build-knowledge.js:35-39 | the build succeeds exactly when every chunk's embedding succeeds, and then record i is chunk i with its own embedding |
| KnowledgeBuild.BuildStore | backend/scripts/build-knowledge.js:29-40 | the stored records are numbered 1..n, non-empty, trimmed, free of `\r`, and carry the embedding of their text; all-white input gives an empty store |
| KnowledgeBuild.BuildStoreUsesChunkText | backend/scripts/build-knowledge.js:29-34 | the build equals embedding `chunkText(raw.trim(), 1200)` as written |
| Retrieval.Insert | backend/server.js:31 | inserting a later position into a ranking keeps it ranked, with that one extra position |
| Retrieval.StableOrder | backend/server.js:31 | the sort lists every position once, by higher score first and earlier position first among equal scores |
| Retrieval.StableOrderIsUnique | backend/server.js:31 | any listing of all positions in that order is the sort's result |
| Retrieval.SliceEnd | backend/server.js:32 | `slice(0, k)` keeps `min(k, n)` elements for `k >= 0` |
| Retrieval.ScoreAll | backend/server.js:30 | each stored chunk is kept unchanged, with its similarity to the query as score |
| Retrieval.TopK | backend/server.js:29-32 | returns `min(k, store size)` results; each is a stored chunk with its own similarity; scores are non-increasing |
| Retrieval.TopKIsStableSelection | backend/server.js:29-32 | results come from distinct store positions; equal scores keep store order; every chunk left out scores lower than each result, or ties with it from a later position |
| Retrieval.TopKTiesByIdOrder | backend/server.js:31 | on a store numbered 1..n, equal scores come out in increasing id order |
| Arbiter.Scan | backend/server.js:44-53 | the loop keeps nothing, or a finite-scored answer from one of the candidates |
| Arbiter.ScanPicksFirstBest | backend/server.js:44-53 | the loop keeps nothing exactly when every call threw; otherwise it keeps the answer of the first candidate with the strictly greatest score among calls that returned |
| Arbiter.WinnerIsUnique | backend/server.js:49 | at most one candidate is first with the greatest score |
| Arbiter.FailedCallIsSkipped | backend/server.js:47-51 | a candidate whose call throws can be removed without changing the result |
| Arbiter.Fallback | backend/server.js:54-60 | a non-empty answer is kept; an empty one becomes the top candidate's text, or the placeholder when there is none, with score 0; the answer is never empty |
| Arbiter.Arbitrate | backend/server.js:44-60 | the settled answer is non-empty and its score is finite, never `-Infinity` |
| Arbiter.DisabledFallsBack | backend/server.js:45-60 | without the model, the answer is the top candidate's text or the placeholder, with score 0 |
| Arbiter.EnabledAnswersWinner | backend/server.js:44-60 | with the model, a non-empty winning answer is returned with the winner's score |
| Arbiter.EnabledEmptyWinnerFallsBack | backend/server.js:54-59 | an empty winning answer falls back to the top candidate's text, score 0 |
| Arbiter.HighestScoreWinsExample | backend/server.js:46-50 | with scores 0.2, 0.9 and 0.5, the 0.9 answer wins |
| AskHandler.QuestionText | backend/server.js:38 | only a truthy non-string throws; the question read is always trimmed, and it is empty exactly when the field is missing or falsy or holds only white space |
| AskHandler.SourcesOf | backend/server.js:63 | one `{id, sim}` per candidate, same order |
| AskHandler.Ask | backend/server.js:36-69 | 400 exactly for a missing or falsy field or a trimmed question shorter than 3; 500 exactly when trim or the embedder throws; otherwise a non-empty answer, a finite score and min(3, store size) sources in non-increasing similarity |
| AskHandler.ShortQuestionUsesNoService | backend/server.js:38-40 | a too-short question gets the same 400 whatever the store, embedder or model |
| AskHandler.AnsweredSourcesAreTopThree | backend/server.js:41-65 | the sources are the stable top three of the store: each is a stored chunk's id with its own similarity to the question, from distinct positions, ties in store order, and every chunk left out is less similar than each source or ties with it from a later position |
| AskHandler.DisabledAnswersTopChunk | backend/server.js:45-65 | without the model, the answer is the most similar chunk's text, or the placeholder, with score 0 |
| AskHandler.EmptyStoreAnswersPlaceholder | backend/server.js:43-65 | an empty store answers the placeholder with score 0 and no sources |

## Left out

- The Express app, CORS, the 1 MB body limit and `listen` (`backend/server.js:7-9, 71`): transport plumbing. A request is modelled as its `question` field.
- Reading and writing `chunks.json`, PDF text extraction and `process.exit`: file I/O. The build is a function from the extracted text to the records.
- Loading the embedding and QA models (`pipeline` calls): foreign code. The loaded handles are parameters, and a QA model that failed to load is `Disabled`.
- The cosine similarity computation: floating-point numerics in a foreign package. It is an uninterpreted function returning `real`. Dimension mismatches, zero vectors and `NaN` are not modelled.
- `NaN` scores in the sort comparator and in the `>` test: scores are real numbers.
- Retrieval.TopK: does not model JavaScript's `b.score - a.score` comparator on floats, because scores are reals; the sort is modelled by the order it produces.
- Awaiting and sequencing: each request is one sequential pure function.
- String lengths count Dafny characters. JavaScript counts UTF-16 code units, so characters outside the Basic Multilingual Plane count once here and twice there. A JavaScript string can also hold a lone UTF-16 surrogate, for example in text extracted from a PDF. A Dafny `char` cannot, so such text lies outside the model's input domain.
- A QA output whose `answer` is not a string is not modelled: it is always a string.
- `app/App.js` (the React Native client): UI state and rendering only.

## Findings

| source | as written | input that shows it | evidently intended | confidence | as-written member | corrected member |
|---|---|---|---|---|---|---|
| backend/scripts/build-knowledge.js:17-18 | the flush pushes `buf.trim()` without checking that it is non-empty | `chunkText(" \n\n  ", 2)` returns `[{ id: 1, text: "" }]`; with the default target, `" \n\n"` followed by 1200 spaces does the same | no empty chunk, as the guard on the final push (line 24) shows | high; not executed | Chunker.ChunkTextCanEmitEmptyChunk | Chunker.ChunkTextFixed |

`main` trims the text before chunking it, and on trimmed text the two
chunkers agree (`Chunker.ChunkTextAgreesOnTrimmed`). So the knowledge build
(`KnowledgeBuild.BuildStore`) uses the corrected chunker and still produces
what the program writes.
