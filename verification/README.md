# Retrieval pipeline of the document Q&A server, in Dafny

This project models the server side of a retrieval-augmented question
answering service (`server/routes.ts`). A user uploads a document, which the
server indexes. Indexing extracts the text, cuts it into overlapping chunks,
embeds the chunks in batches through the Cohere v2 embed endpoint, stores one
row per chunk and marks the document `ready` or `error`. A search request
embeds the question and scores every stored chunk by cosine similarity. It
ranks the chunks and keeps the relevant ones, cut to `topK`. It then hands
the labelled excerpts to a chat model and returns the answer with one cited
source per excerpt.

The modules follow the pipeline:

| file | module | what it holds |
|---|---|---|
| `outcomes.dfy` | `Outcomes` | `Option` (JavaScript `null`/`undefined`), `Result`, `Min`, `Max` |
| `jstext.dfy` | `JsText` | the JavaScript string built-ins the code relies on: `trim`, `\s`, the CR LF rewrite, whitespace collapsing, `slice(0, n)`, `join`, number rendering |
| `chunker.dfy` | `Chunker` | `chunkTextForDb`: the `while` loop as a method, proved against an accumulator function, plus lemmas about the windows and numbering |
| `embedding.dfy` | `Embedding` | `cohereEmbedV2`, `embedDocuments` and `embedQueryToVector`, with the HTTP exchange as a parameter |
| `similarity.dfy` | `Similarity` | `cosineSimilarity`: the accumulating `for` loop as a method, proved against `Cosine` |
| `indexer.dfy` | `Indexer` | `extractTextFromFile` and `startDocumentIndexing`: the database is a class whose `statuses` and `chunkRows` the method updates |
| `retrieval.dfy` | `Retrieval` | `toEmbeddingArray`, the scoring loop, the stable descending sort, the 0.05 threshold with its fallback, and `slice(0, topK)` |
| `search.dfy` | `Search` | the `/api/search` handler: early exits, the document name index, the context string, snippets, relevance labels and the answer |

Things outside the code become parameters:

- the file on disk (`Option<StoredFile>`);
- the PDF parser's output;
- the embedding endpoint (`EmbedRequest -> ServiceReply`) and its API key (`apiKey`, empty when unset);
- `JSON.parse` (`string -> ParsedJson`);
- the square root (any function that is positive on positive numbers);
- the two database reads of the search route;
- whether the chunk insert is rejected;
- the chat model (`string -> LlmReply`).

Numbers are exact reals and integers.

Behaviours of the code worth noting:

- `page_number ?? 1` keeps a stored page 0; only a missing page becomes 1.
- `docNameById[id] || "Unknown Document"` also replaces an empty file name.
- `slice(0, topK)` follows JavaScript: a `topK` of 0 selects nothing, and the route then gives the "no relevant information" answer through its empty-context check. A negative `topK` drops that many matches from the end of the pool, and selects nothing once it reaches the pool's size.
- A query whose embedding reply holds no vectors makes `queryEmbedding.length` throw. The route then answers 500 "Search failed.".
- The batch loop does not compare the number of vectors with the batch size. A missing vector becomes a row whose embedding is `None`.
- The chunker has no guard against `chunkSize <= overlap`. With such a pair its loop never ends once the cleaned text is longer than `chunkSize`; a text that fits in one window still ends after that window. `ChunkTextForDb` requires `chunkSize > overlap`. The code only ever calls it with 2000 and 200.

## Model

| member | source | states |
|---|---|---|
| Chunker.ChunkTextForDb | server/routes.ts:62-93 | The loop terminates whenever `chunkSize > overlap`. It returns exactly the chunk list of the specification walk. Text that is blank after the CR LF rewrite gives no chunks. |
| Chunker.ChunksAreNumberedWindows | server/routes.ts:71-90 | The walk's output is the trimmed text of every non-blank window, in window order. The chunks carry consecutive indices that continue from the chunks already emitted, and the matching pages. |
| Chunker.WindowsChain | server/routes.ts:75-90 | The first window starts at `start` and each ends at `min(len, start + chunkSize)`. The next starts `overlap` before the previous end. Only the last window reaches the end of the text, and there is a window exactly when `start < len`. |
| Chunker.WindowsInRange | server/routes.ts:75-90 | Every window is non-empty, at most `chunkSize` wide and inside the text. |
| Chunker.PageNumberIsFloor | server/routes.ts:81 | The synthetic page of chunk index `i` is `1 + floor(i / 5)`. |
| Chunker.ChunkIndicesContiguous | server/routes.ts:70-86 | Chunk `i` of the result has `chunk_index == i` and `page_number == 1 + floor(i / 5)`. |
| Chunker.ChunkTextsWellFormed | server/routes.ts:76-84 | Every chunk text is non-empty and already trimmed. It is at most `chunkSize` characters long and is a verbatim slice of the cleaned text. |
| Chunker.BlankTextHasNoChunks | server/routes.ts:67-68 | Text that is empty or all whitespace after the CR LF rewrite yields no chunks. |
| Chunker.ShortTextIsOneChunk | server/routes.ts:67-93 | A cleaned text of at most `chunkSize` characters becomes exactly one chunk: page 1, index 0, the whole cleaned text. |
| JsText.ReplaceCrlf | server/routes.ts:67 | Never lengthens the text and keeps every non-whitespace character in order. A text without CR LF is unchanged. |
| JsText.ReplaceCrlfAtPair | server/routes.ts:67 | Every CR LF pair, wherever it stands, becomes one LF, and the text before and after it is rewritten on its own. |
| JsText.ReplaceCrlfAppend | server/routes.ts:67 | Rewriting a concatenation rewrites each side on its own unless a CR ending the first and an LF starting the second form a pair. |
| JsText.TrimFacts | server/routes.ts:67-68 | `trim()` leaves no whitespace at either end. It returns the slice of its input with only whitespace before and after it in the input, and is empty exactly when the input is all whitespace. |
| JsText.TrimRangeIsTrimOfSlice | server/routes.ts:77 | Trimming the window in place equals `cleaned.slice(start, end).trim()`. |
| JsText.CollapseWhitespaceFacts | server/routes.ts:536-537 | Every whitespace character left is a single space, and no two are adjacent. The non-whitespace characters are kept in order. The result starts and ends with whitespace exactly when the input does. |
| JsText.CollapseIsDedupeOfBlanks | server/routes.ts:537 | `replace(/\s+/g, " ")` equals turning every whitespace character into a space and then dropping each space that follows a space. |
| JsText.Prefix | server/routes.ts:110 | `slice(0, n)` is a prefix of length `min(n, len)`. |
| JsText.JoinHoldsParts | server/routes.ts:490-497 | `join(sep)` holds part `i` at its offset, followed by the separator unless it is the last part. |
| JsText.JoinLength | server/routes.ts:490-497 | Joining nothing gives the empty string. Otherwise the joined string ends right after the last part, at that part's offset plus its length. |
| Embedding.BuildRequest | server/routes.ts:105-126 | The request sends the bearer key, model `embed-english-v3.0`, the given input type unchanged and `["float"]`. It holds one input per text, in order, each the first `min(4000, len)` characters of its text. |
| Embedding.RequestSentIff | server/routes.ts:100-126 | A request is posted exactly when there are texts and a key. It then carries one input per text, in order, each cut to 4000 characters, with the caller's input type. |
| Embedding.EmbedOutcome | server/routes.ts:100-137 | The call fails exactly when there are texts and either the key is missing or the reply is not a parsable 2xx. On success it returns the reply's `embeddings.float`, or `[]` when that is absent. An empty list gives `[]`. |
| Embedding.EmbedDocumentsAsDocuments | server/routes.ts:140-142 | `embedDocuments` asks for nothing when there is no text and fails without a key. Otherwise its result is the endpoint's answer to a `search_document` request carrying every text, in order, cut to 4000 characters. |
| Embedding.QueryVectorIsFirst | server/routes.ts:144-147 | The query is sent alone, as `search_query`, cut to 4000 characters. The result is the first vector of the reply, or `undefined` when the reply has none. A missing key fails. |
| Similarity.CosineSimilarity | server/routes.ts:20-36 | The loop computes `Cosine`: dot product and squared norms over the first `min(|a|, |b|)` components, 0 when either squared norm is 0. |
| Similarity.ZeroVectorScoresZero | server/routes.ts:34 | If either vector is zero on the shared components (an empty vector included), the score is 0. |
| Similarity.CosineSymmetric | server/routes.ts:20-36 | The score does not depend on the order of the two vectors. |
| Similarity.ExtraComponentsIgnored | server/routes.ts:21-31 | Components past the shorter length do not change the score. |
| Indexer.ExtractTextChoice | server/routes.ts:38-54 | The parsed PDF text is used exactly when the extension is `.pdf` (any case) and the parser returned text that is not all whitespace. Otherwise the bytes read as UTF-8 are used. |
| Indexer.PdfExtensionIgnoresCase | server/routes.ts:39-42 | The extension test accepts exactly `.pdf` in any mix of letter case. |
| Indexer.BatchRequestShape | server/routes.ts:180-183 | With a key, the call for a batch posts one `search_document` request whose inputs are the batch's chunk texts in chunk order, each cut to 4000 characters. The batch's reply is that call's result. |
| Indexer.BatchRows | server/routes.ts:183-191 | One row per chunk of the batch, in order, with the document id, the chunk's page, index and text, and `vectors[idx]` (`None` past the end). |
| Indexer.PushBatchRows | server/routes.ts:183-191 | The `forEach` loop appends exactly the batch's rows after those already collected. |
| Indexer.EmbeddedRowsShape | server/routes.ts:176-192 | When every batch is embedded there is one row per chunk, in chunk order. Row `k` carries the chunk's data and the vector at position `k mod 90` of batch `floor(k / 90)`'s reply. |
| Indexer.EmbeddingFailsIff | server/routes.ts:176-181 | The batch pass fails exactly when some batch's embedding call fails. |
| Indexer.SetStatus | server/routes.ts:153-157 | The status update changes only the row with the document's id, and only if it exists. |
| Indexer.DocumentStore.UpdateStatus | server/routes.ts:153-157 | The status of an existing document becomes the new one. Chunk rows are unchanged. |
| Indexer.DocumentStore.InsertChunks | server/routes.ts:196-200 | The multi-row insert adds all rows, or none when the database rejects it. Statuses are unchanged. |
| Indexer.StartDocumentIndexing | server/routes.ts:149-222 | The new statuses and chunk rows are exactly those of `IndexSpec` for the observed file, embedding replies and insert outcome. |
| Indexer.IndexStatusIff | server/routes.ts:149-222 | The final status is `ready` exactly when the file exists and either yields no chunk, or every batch is embedded and the insert is accepted. It is `error` otherwise, and never left `processing`, given every status update is accepted. |
| Indexer.IndexInsertsAllOrNothing | server/routes.ts:149-222 | A run inserts nothing exactly when it ends `error` or the document yields no chunk. A run that ends `ready` on a document with chunks has inserted one row per chunk, in chunk order, with the document id, the chunk and the vector at its place in its batch reply. A blank text file ends `ready` with no rows. |
| Retrieval.ToEmbeddingArrayAccepts | server/routes.ts:409-428 | A vector is obtained exactly from an array, or from a non-empty string that parses to an array, and is that array. Everything else gives `null`. |
| Retrieval.ScoreCandidates | server/routes.ts:442-456 | The loop yields exactly `Candidates`: the chunks with a usable embedding, in chunk order, each scored against the query. |
| Retrieval.CandidatesAreTheUsableChunks | server/routes.ts:444-456 | A value is a match exactly when some chunk with a usable embedding gives it. There are never more matches than chunks. |
| Retrieval.CandidatesAppend | server/routes.ts:444-456 | Scoring keeps chunk order: the candidates of two runs of chunks are those of the first followed by those of the second, so each chunk contributes its own match, if any, in its place. |
| Retrieval.MatchOfRecordsChunk | server/routes.ts:445-455 | A chunk gives a match exactly when its embedding decodes to a non-empty vector. The match copies the chunk's document, page, index and text, and holds the cosine score. |
| Retrieval.SortBySimilarityCorrect | server/routes.ts:477 | The ranking is non-increasing in similarity and a permutation of the matches. |
| Retrieval.SortIsStable | server/routes.ts:477 | Matches with equal similarity keep their original relative order. |
| Retrieval.SliceEnd | server/routes.ts:481 | `slice(0, end)` keeps `min(end, len)` elements for a non-negative end and `max(len + end, 0)` for a negative one. |
| Retrieval.AtLeastMembers | server/routes.ts:480 | The filter keeps exactly the matches scoring at least the threshold. |
| Retrieval.AtLeastCounts | server/routes.ts:480 | The filter keeps every copy of a match reaching the threshold and no copy of one below it. |
| Retrieval.AtLeastAppend | server/routes.ts:480 | The filter keeps the ranking's order: filtering two runs of matches filters each in turn. |
| Retrieval.SelectTopShape | server/routes.ts:479-481 | The selection is a prefix of the pool, of length `min(topK, pool)` for `topK >= 0`. If any match reaches 0.05, every selected one does. If none does, it is the top of the full ranking. |
| Retrieval.SelectTopOfRanked | server/routes.ts:477-481 | On a ranked list the selection is ranked and starts with the overall best match. It is empty only when there are no matches or `topK` leaves no room, and is non-empty whenever there are matches and `topK >= 1`. |
| Search.BuildNameIndex | server/routes.ts:377-381 | The loop builds exactly `NameIndexOf(docs)`. |
| Search.NameIndexLastWins | server/routes.ts:378-381 | The name index has one key per document id. Each id maps to the file name of the last row with that id. |
| Search.DisplayName | server/routes.ts:492 | A known, non-empty file name is shown as it is. An unknown id or an empty name gives "Unknown Document". |
| Search.ContextBlankIff | server/routes.ts:490-509 | `context.trim()` is empty exactly when no match was selected. |
| Search.ContextHoldsExcerpts | server/routes.ts:490-497 | Excerpt `i`, `Source {i+1} — {name}, Page {page ?? 1}:` and then the text, sits in the context at its place in rank order. |
| Search.SnippetShape | server/routes.ts:536-538 | The snippet is the first 160 characters with every whitespace run turned into one space, plus `...` when the text is longer than 160. Its visible characters are those of the first 160, in order, and a text of at most 160 characters keeps every visible character. |
| Search.JsRound | server/routes.ts:535 | `Math.round` gives the integer within one half of its argument, rounding halves up. |
| Search.HandleSearch | server/routes.ts:336-546 | The handler returns exactly `SearchSpec` for the request and what the database, the embedding endpoint and the chat model answer. |
| Search.SearchFailures | server/routes.ts:346-348 | The 400 "Missing query or userId" comes back exactly when the query or user id is missing. Every other failure is a 500 with one of the three fixed messages. A missing embedding key gives "Search failed." once documents and chunks exist. |
| Search.SearchNotices | server/routes.ts:369-509 | The "no indexed content" answer comes exactly when the user has no ready document. The "no indexed chunks" answer comes exactly when those documents have no chunk. The "no relevant information" answer comes exactly when, after the query is embedded, no chunk has a usable embedding or `topK` leaves no room. |
| Search.RankAnswers | server/routes.ts:468-541 | The "no relevant information" answer comes back exactly when nothing is selected, that is when no chunk had a usable embedding or `topK` leaves no room. Otherwise a failing chat call gives 500 "Search failed.", and an answer gives its content (or the fixed fallback) with exactly one source per selected match, in rank order, at most `topK` of them. |
| Search.RankCitesBestFirst | server/routes.ts:477-496 | The cited matches are ranked, the first is the best-scoring match overall, and all are drawn from the scored matches. When any match reaches 0.05, every cited one does. |

## Left out

- Floating point: similarities are exact reals, and `Math.sqrt` is any function that is positive on positive arguments. NaN, infinities and rounding of `dot / (sqrt(na) * sqrt(nb))` are not modelled, and neither is the bound `-1 <= similarity <= 1`.
- Search.JsRound: rounds the exact real `similarity * 100`; the floating-point product is not modelled.
- String lengths count Unicode code points, while JavaScript counts UTF-16 code units. Texts outside the Basic Multilingual Plane are cut at different positions by `slice(0, 4000)`, the 2000-character windows and the 160-character snippets.
- `Number(v)` coercion of array elements in `toEmbeddingArray`: stored vectors are taken to be numbers already.
- `path.join`, `path.extname`, `fs.existsSync` and `fs.readFileSync`: the file is a parameter that is present or absent and carries its extension and UTF-8 text. A read that throws is not modelled.
- `toLowerCase` is applied to ASCII letters only. No other character lowercases to `.`, `p`, `d` or `f`, so the `.pdf` test is unaffected.
- Retrieval.SortBySimilarity: `matches.sort` is modelled on values, as a stable insertion sort. The in-place update of the array is not modelled.
- The HTTP status codes of the route are kept (400, 500); the Express plumbing, logging and the request-body types are not. A `query`, `userId` or `topK` of the wrong type is not modelled, and a non-integer `topK` is not modelled.
- The chat model's name, system prompt and temperature: the model is a function of the user message.
- The upload, listing and delete routes: they only move files and rows. The fire-and-forget launch of indexing, and any concurrency between indexing and searches, are also left out.
- The Supabase clients: each read and the chunk insert is an abstract outcome, and every status update is taken to be accepted. The search route's filters (the user's `ready` documents, chunks of those documents) are assumed of the data handed in.
- Indexing errors thrown outside the embedding call, such as a file read that throws: every modelled failure goes through the same error path.
- Indexer.DocumentStore.UpdateStatus: always succeeds. The code never reads the error of its five status updates (server/routes.ts:154-157, 168-171, 202-205, 209-212, 217-220), so a rejected update leaves the document in the status it already had, usually `processing`. The model does not cover that case, and the `ready`/`error` outcome of `Indexer.IndexStatusIff` holds only given every update is accepted.
