# Pitch analyser backend: retrieval, video and competitor services in Dafny

This project models the core of a FastAPI backend. The backend analyses startup
pitch videos and competitor websites and answers questions about uploaded PDF
documents. It does that through retrieval-augmented generation: it embeds chunks
of a document, stores them in a Chroma collection, and looks up the nearest
chunks for a question.

The modules follow the program's files:

- `RequestsModel` (`requests_model.dfy`): the request bodies and their checks.
  - The YouTube URL validator.
  - The `min_length=1` fields.
  - The default collection name, "user_documents".
- `GeminiService` (`gemini_service.dfy`): how the JSON text is cleaned out of
  a model reply.
  - `parse_json_response`: strip, drop a leading "```json" and a trailing
    "```", strip again.
  - How the analyses take the reply text out of the generate-content response.
  - A small model of Python attribute access (`PyValue`, `GetAttr`).
- `VideoService` (`video_service.dfy`):
  - `extract_video_id`: the two regular expressions, with `re.search`'s
    leftmost match and greedy group written out.
  - Transcript assembly.
  - The 15000-character excerpt.
  - `analyze_transcript`.
- `CompetitorService` (`competitor_service.dfy`): the 30000-character cut of the
  scraped page and `analyze_competitor`.
- `ChromaStore` (`chroma_store.dfy`): the part of the Chroma client the service
  uses. It is a `Client` class whose `collections` map is updated in place by
  `DeleteCollection`, `CreateCollection` and `Add`.
- `RagService` (`rag_service.dfy`):
  - Page extraction, a loop proved against `Concat` of the first
    `MAX_PAGES_RAG` pages.
  - Embedding in batches of ten, a loop proved against a batch function.
  - Storing chunks under "chunk_0", "chunk_1", ….
  - Recreating a collection.
  - The question's embedding.
  - The nearest-chunk query.
  - The answer context.
- `RagRoutes` (`rag_routes.dfy`): the two endpoints `POST /api/rag/upload` and
  `POST /api/rag/query`.
  - Each is a function from the store to a response and a new store.
  - The upload is also a method on the `Client` that is proved equal to that
    function.
- `Text` and `Wrappers`: Python string operations (`strip`, `startswith`,
  slicing, `join`, `replace`, `str(int)`) and `Option`/`Result`.

These things enter the model as parameters:

- The embedding model.
- The generative model.
- The page texts of a PDF.
- The text splitter.
- The transcript fetcher.
- The similarity search.

An exception is a `Failure`. An endpoint's response is a datatype with its HTTP
status.

## Model

| member | source | states |
|---|---|---|
| Text.Strip | services/gemini_service.py:44 | `strip()` returns a text that neither begins nor ends with whitespace and is no longer than its input |
| Text.StripIsSlice | services/gemini_service.py:44 | the stripped text is a contiguous piece of the input |
| Text.StripEmpty | services/gemini_service.py:44 | stripping gives "" exactly when the input is all whitespace |
| Text.StripPadded | services/gemini_service.py:52 | stripping a text that is already stripped, with whitespace added on either side, gives that text back |
| Text.StripStripped | services/gemini_service.py:52 | stripping is idempotent |
| Text.StripKeeps | services/gemini_service.py:52 | stripping keeps every character between the first and last non-space characters |
| Text.Truncate | services/competitor_service.py:19 | `s[:n]` is a prefix of `s` whose length is the smaller of `n` and `len(s)` |
| Text.ConcatAppend | services/rag_service.py:23 | appending one more page's text extends the concatenation by exactly that text |
| Text.JoinLength | services/rag_service.py:110 | a join is as long as its pieces plus one separator between each neighbouring pair |
| Text.JoinSplit | services/video_service.py:40 | a join splits at any piece boundary into the joins of both sides around one separator |
| Text.ReplaceAllLength | api/routes/rag.py:36 | `replace` changes the length by `len(rep) - len(pat)` for each occurrence; `Text.Count` is a helper that models `str.count` (the same left-to-right scan without overlaps) |
| Text.ReplaceAllAbsent | api/routes/rag.py:36 | `replace` leaves a text without the pattern unchanged |
| Text.ParseNatToString | services/rag_service.py:78 | reading back the decimal digits of `str(i)` gives `i` |
| Text.NatToStringInjective | services/rag_service.py:78 | different numbers have different decimal strings |
| GeminiService.ParseJsonText | services/gemini_service.py:42-52 | the cleaned JSON text is stripped and no longer than the reply |
| GeminiService.ParseJsonTextIsSlice | services/gemini_service.py:42-52 | the cleaned text is a contiguous piece of the reply |
| GeminiService.ParseJsonTextUnfenced | services/gemini_service.py:42-52 | a reply with neither fence is only stripped |
| GeminiService.DropOpenFence | services/gemini_service.py:47-48 | a text that starts with "```json" is that fence followed by the result, and any other text is kept unchanged |
| GeminiService.DropCloseFence | services/gemini_service.py:49-50 | a text that ends with "```" is the result followed by that fence, and any other text is kept unchanged |
| GeminiService.DropOpenFenceOf | services/gemini_service.py:47-48 | a text that starts with "```json" loses exactly those seven characters |
| GeminiService.DropCloseFenceOf | services/gemini_service.py:49-50 | a text that ends with "```" loses exactly those three characters |
| GeminiService.ParseJsonTextFenced | services/gemini_service.py:42-52 | a body wrapped in "```json" … "```", padded with whitespace, comes back as the stripped body |
| GeminiService.ParseJsonTextEmptyFence | services/gemini_service.py:47-50 | "```json```" cleans to the empty text |
| GeminiService.ParseJsonTextOpensOnce | services/gemini_service.py:47-48 | only one opening fence is removed, so a doubled "```json```json" keeps the second |
| GeminiService.BareFenceIsNotJsonFence | services/gemini_service.py:47 | a body fenced by bare "```" does not start with "```json" unless the body itself starts with "json" |
| GeminiService.StripKeepsOpeningBackticks | services/gemini_service.py:49-52 | a stripped text that starts with "```" keeps those backticks through the final strip |
| GeminiService.ParseJsonTextBareOpening | services/gemini_service.py:47-52 | with a bare "```" opening fence, only the closing fence is removed and the opening backticks stay in the JSON text |
| GeminiService.GetAttr | services/video_service.py:150 | reading an attribute an object has gives its value, a failure propagates, reading any attribute off a value that is not an object raises AttributeError, and nothing else succeeds |
| GeminiService.CandidateTextAsWritten | services/video_service.py:150 | as written, `response.candidates.content.parts.text` fails for every response with AttributeError on `content` |
| GeminiService.FirstCandidateText | services/video_service.py:150 | the reply text is the first part of the first candidate, and absent when either list is empty |
| GeminiService.FirstCandidateTextOfSinglePart | services/competitor_service.py:59 | for a one-candidate, one-part reply, the as-written lookup fails and the corrected one returns that part's text |
| GeminiService.AnalysisJsonText | services/video_service.py:150-160 | a failed call propagates, and a success is `parse_json_response` of the reply text |
| GeminiService.AnalysisJsonTextAsWritten | services/competitor_service.py:59-68 | as written, a failed call propagates and every reply fails with AttributeError on `content` |
| GeminiService.AnalysisJsonTextAsWrittenAlwaysFails | services/competitor_service.py:59-68 | for every reply with a text, the written analysis fails while the corrected one returns the cleaned text |
| GeminiService.AnalysisJsonTextFenced | services/competitor_service.py:59-68 | a one-candidate reply that fences a body in "```json" gives the stripped body |
| RequestsModel.ValidateYoutubeUrl | models/requests_model.py:7-11 | a URL is accepted, unchanged, exactly when it contains "youtube.com" or "youtu.be", and is refused otherwise with "Invalid YouTube URL" |
| RequestsModel.ParseVideoPitchRequest | models/requests_model.py:4-11 | a video request parses exactly when its URL passes the validator |
| RequestsModel.ParseCompetitorRequest | models/requests_model.py:13-15 | a competitor request parses exactly when the company name is non-empty, and keeps both fields |
| RequestsModel.ParseRagQueryRequest | models/requests_model.py:17-19 | a query parses exactly when it is non-empty, and an absent collection name becomes "user_documents" |
| VideoService.RunLength | services/video_service.py:25 | the greedy group `[^&\n?#]+` takes the longest run of allowed characters |
| VideoService.AlternativeAt | services/video_service.py:25 | the alternative the regex picks at a position is one of the markers and occurs there |
| VideoService.LeftmostMatch | services/video_service.py:29 | `re.search` reports a position from which the pattern matches |
| VideoService.GroupAfter | services/video_service.py:25 | the captured group is non-empty and made only of allowed characters |
| VideoService.SearchGroup | services/video_service.py:29-31 | a found group is non-empty and made only of allowed characters |
| VideoService.ExtractVideoId | services/video_service.py:21-32 | a returned id is non-empty and free of `&`, `?`, `#` and newlines |
| VideoService.ShareMarkersExclusive | services/video_service.py:25 | the two alternatives of the first pattern never both match at one position |
| VideoService.MaximalRunIsRunLength | services/video_service.py:25 | any maximal run of allowed characters after a marker is the captured group |
| VideoService.AlternativeAtNone | services/video_service.py:25 | no alternative is picked at a position where no marker matches |
| VideoService.LeftmostMatchSkips | services/video_service.py:29 | no match starts before the reported position |
| VideoService.LeftmostMatchFinds | services/video_service.py:29 | a position where a marker matches is reported, unless an earlier one is |
| VideoService.LeftmostMatchIs | services/video_service.py:29 | the reported position is the leftmost matching one |
| VideoService.SearchGroupFound | services/video_service.py:28-31 | a search that finds a group found a leftmost match followed by a maximal run |
| VideoService.AlternativeIsMarker | services/video_service.py:25 | at a position where a marker matches, the alternative the regex picks is a marker that matches there |
| VideoService.SearchGroupAt | services/video_service.py:29-31 | the group is the maximal run after the marker chosen at the leftmost match |
| VideoService.MatchIsFound | services/video_service.py:28-31 | a leftmost marker occurrence followed by a maximal run is what the search returns |
| VideoService.FoundBySearchGroup | services/video_service.py:28-31 | every group that a leftmost match with a maximal run describes is the search's result |
| VideoService.SearchGroupSpec | services/video_service.py:28-31 | the search returns an id exactly when that id is found by the leftmost-match description |
| VideoService.SearchGroupNone | services/video_service.py:28-32 | the search finds nothing exactly when no marker is followed by an allowed character anywhere |
| VideoService.ExtractVideoIdSpec | services/video_service.py:24-31 | the id is the first pattern's group when it matches, and otherwise the second's |
| VideoService.ExtractVideoIdNone | services/video_service.py:32 | `None` is returned exactly when neither pattern matches anywhere |
| VideoService.NoMarkerInScheme | services/video_service.py:25-26 | no marker occurs inside "https://" |
| VideoService.ShortLinkWins | services/video_service.py:25-31 | a "youtu.be/" link with no earlier marker yields its maximal id run |
| VideoService.ExtractVideoIdShortLink | services/video_service.py:25-31 | "https://youtu.be/" followed by an id gives that id |
| VideoService.EmbedLinkMatchesFirst | services/video_service.py:26 | an embed link matches the second pattern at its marker |
| VideoService.ExtractVideoIdPrefersShareLinks | services/video_service.py:24-31 | when an embed link comes before a short link, the short link's id is returned because the first pattern is tried over the whole URL first |
| VideoService.ValidUrlWithoutVideoId | services/video_service.py:21-32 | "https://youtube.com/" passes the request validator yet yields no video id |
| VideoService.GetYoutubeTranscript | services/video_service.py:35-45 | the transcript is the entry texts joined by single spaces, and a failed fetch is re-raised |
| VideoService.TranscribeAudio | services/video_service.py:71-88 | without a loaded model it fails with "Whisper model not initialized", and otherwise it joins the segment texts by single spaces |
| VideoService.TranscriptSplits | services/video_service.py:83 | the transcript keeps its pieces in order, split at any boundary |
| VideoService.TranscriptExcerpt | services/video_service.py:100 | the prompt quotes a prefix of the transcript of at most 15000 characters, and the whole transcript when it is that short |
| VideoService.AnalyzeTranscript | services/video_service.py:91-160 | a failed call propagates, a success is the cleaned JSON text of the reply to the excerpt, and a reply with a text succeeds |
| VideoService.AnalyzeTranscriptFenced | services/video_service.py:150-160 | a fenced reply gives the stripped body |
| CompetitorService.ScrapeWebsite | services/competitor_service.py:11-19 | the scraped markdown is cut to a prefix of at most 30000 characters, and kept whole when shorter |
| CompetitorService.AnalyzeCompetitor | services/competitor_service.py:22-68 | a failed call propagates, a success is the cleaned JSON text of the reply, and a reply with a text succeeds |
| CompetitorService.AnalyzeCompetitorFenced | services/competitor_service.py:59-68 | a fenced reply gives the stripped body |
| ChromaStore.Records | services/rag_service.py:75-79 | the i-th record pairs the i-th id, document and embedding |
| ChromaStore.AddRecords | services/rag_service.py:75-79 | `add` succeeds exactly when the collection exists, the three lists have one length and the ids are not empty; on success it appends the records in order and changes nothing else; on failure it changes nothing |
| ChromaStore.Client.DeleteCollection | services/rag_service.py:51 | the name is removed, and the call fails exactly when the name was absent |
| ChromaStore.Client.CreateCollection | services/rag_service.py:55 | an empty collection appears under a name that was free, and a taken name fails with nothing changed |
| ChromaStore.Client.Add | services/rag_service.py:75-79 | the client's collections become those of `AddRecords` |
| RagService.PagesToProcess | services/rag_service.py:20 | `min(max_pages or len(doc), len(doc))`: `None` and 0 mean all pages, it never exceeds the page count, and a negative value visits none |
| RagService.ExtractTextFromPdf | services/rag_service.py:18-25 | the text is the concatenation of the visited pages in page order |
| RagService.ExtractionIgnoresLaterPages | services/rag_service.py:20-23 | pages after the limit do not affect the text |
| RagService.ExtractedTextIsPrefix | services/rag_service.py:20-23 | a limit that visits no more pages than another reads a prefix of the other's text; with no limit the other text is the whole document's |
| RagService.Batch | services/rag_service.py:67 | `chunks[i:i+10]` holds between one and ten chunks |
| RagService.Batches | services/rag_service.py:66-67 | there are ⌈n/10⌉ batches, each of one to ten chunks |
| RagService.BatchesPrefixCover | services/rag_service.py:66-67 | the first k batches together are the first chunks in order |
| RagService.BatchesCover | services/rag_service.py:66-67 | the batches together are exactly the chunks, in order |
| RagService.EmbedBatchesFailureStays | services/rag_service.py:66-72 | once a batch fails to embed, the whole embedding fails |
| RagService.EmbedInBatches | services/rag_service.py:65-72 | the loop's result is the batch-by-batch embedding, and it calls the model on exactly the batches, in order, when it succeeds |
| RagService.EmbedBatchesPerText | services/rag_service.py:65-72 | with a model that embeds text by text, batching yields one vector per chunk, in order |
| RagService.AlignedEmbeddings | services/rag_service.py:65-72 | with such a model, the embeddings line up one-to-one with the chunks |
| RagService.ChunkIds | services/rag_service.py:78 | the i-th id is "chunk_" followed by the digits of i |
| RagService.ChunkIdsDistinct | services/rag_service.py:78 | the chunk ids are pairwise distinct |
| RagService.AddDocuments | services/rag_service.py:60-80 | an embedding failure changes nothing; otherwise the result is `add` of the chunks, their embeddings and the ids `chunk_<i>`; a success requires an existing collection and keeps the set of collections |
| RagService.AddDocumentsAligned | services/rag_service.py:60-80 | with a model that embeds text by text and at least one chunk, the collection gains exactly one record per chunk with its id, text and vector |
| RagService.AddDocumentsToCollection | services/rag_service.py:60-80 | the client's collections become those of `AddDocuments` |
| RagService.Recreated | services/rag_service.py:50-55 | after recreation the name holds an empty collection and every other collection is untouched |
| RagService.RecreatedIdempotent | services/rag_service.py:46-57 | recreating twice is the same as recreating once |
| RagService.CreateCollection | services/rag_service.py:46-57 | delete, ignoring failure, then create leaves the client's collections equal to `Recreated` |
| RagService.QueryVector | services/rag_service.py:90-94 | the question's vector is the single embedding returned for `[query]` |
| RagService.QueryVectorAsWritten | services/rag_service.py:94 | as written, `response.embeddings.values` fails for every reply with AttributeError on `values` |
| RagService.QueryVectorAsWrittenAlwaysFails | services/rag_service.py:94 | as written, `response.embeddings.values` fails even when the model returns one vector, while the corrected lookup returns it |
| RagService.QueryCollection | services/rag_service.py:83-103 | a missing collection fails, and otherwise the result is the nearest documents to the question's vector |
| RagService.RagContext | services/rag_service.py:110 | the context is the chunks joined by blank lines: empty for none, the chunk itself for one, and their total length plus two per gap otherwise |
| RagService.RagContextAppend | services/rag_service.py:110 | one more chunk adds a blank line and that chunk at the end |
| RagRoutes.CollectionNameFor | api/routes/rag.py:36 | an upload's collection starts with "user_documents_" and is never the default "user_documents" |
| RagRoutes.ReplacePdfSuffix | api/routes/rag.py:36 | removing ".pdf" from a stem without ".pdf", plus ".pdf", gives the stem |
| RagRoutes.CollectionNameOfStem | api/routes/rag.py:36 | a stem without ".pdf" in it, plus ".pdf", maps to "user_documents_" followed by the stem |
| RagRoutes.DoublePdfSharesCollection | api/routes/rag.py:36 | "a.pdf.pdf" and "a.pdf" share a collection, because every ".pdf" is removed |
| RagRoutes.Upload | api/routes/rag.py:12-54 | a name not ending in ".pdf" is a 400 with nothing changed; a file that cannot be read is a 500 with nothing changed; a success reports the collection name and the chunk count; other collections are untouched; after the gate and a readable file, the store is what `add` on the recreated collection leaves, the upload is a success exactly when that `add` succeeds, and a failed `add` is a 500 with its error |
| RagRoutes.UploadEmbeddingFailure | api/routes/rag.py:33-54 | when embedding fails, the upload is a 500 and the collection is left empty, its previous contents gone |
| RagRoutes.UploadEmptyDocument | api/routes/rag.py:33-54 | a PDF that yields no chunks is a 500, because the store refuses an empty `add`, and the recreated collection is left empty |
| RagRoutes.UploadAligned | api/routes/rag.py:33-47 | with a model that embeds text by text and a PDF that yields at least one chunk, the upload succeeds and the collection holds exactly the chunks as "chunk_0", "chunk_1", … |
| RagRoutes.UploadContentsIgnorePriorStore | api/routes/rag.py:36-40 | what an upload leaves under its name does not depend on the store before |
| RagRoutes.ReuploadReplaces | api/routes/rag.py:36-40 | uploading the same file name again replaces the collection |
| RagRoutes.UploadDocument | api/routes/rag.py:12-54 | the endpoint's steps on the client give the response and the collections of `Upload` |
| RagRoutes.QueryDocuments | api/routes/rag.py:57-83 | a failed lookup is a 500; after a successful lookup, the answer is exactly the model's reply to the question with the joined context of the retrieved chunks, and a failed reply is a 500 carrying its error |
| RagRoutes.DefaultQueryMissesUploads | api/routes/rag.py:36 | no upload creates "user_documents", so a query without a collection name fails after any upload unless that collection already existed |

## Left out

- `chunk_text` (services/rag_service.py:32-43): the recursive character splitter
  belongs to another library. It is the parameter `split`. Its settings,
  1500 and 300 from config.py:38-39, are only recorded as the constants
  `ChunkSize` and `ChunkOverlap`. No contract uses them.
- Chroma's similarity ranking is the parameter `nearest`. The model states only
  that the query's result is that parameter's answer for the question's vector.
- RagService.QueryCollection: Chroma returns `documents` as one list per query
  embedding. The model's `nearest` stands for the list of the single question,
  `results['documents'][0]`. As written, line 103 returns the outer list, and
  `"\n\n".join` at services/rag_service.py:110 would raise TypeError on its
  list element. That failure depends on the Chroma client's return shape, which
  is not part of this model.
- ChromaStore.AddRecords: Chroma's other checks on `add` are not modelled. These
  are duplicate ids and the dimension of the vectors. The refusal of empty lists
  is modelled. Vectors are
  `seq<real>` and nothing looks inside them.
- Error messages and exception classes are reduced to a `Failure` with a text.
  This covers `get_collection` on a missing name, Pydantic's error format, and
  the `HTTPException` detail body.
- PyMuPDF is left out. The PDF's page texts are a parameter. A failure to save
  or open the upload is an error value.
- The Gemini calls (`generate_content`, `embed_content`) are parameters. The
  prompt templates are left out; only the part of the input the source takes
  from its arguments is modelled.
- `json.loads` is left out: the analyses end at the cleaned JSON text. A text
  that is not JSON would raise at that point in the source.
- RagService.GenerateRagResponse: `response.text` is the string the `generate`
  parameter returns, and the function has no contract of its own. Its join is
  `RagService.RagContext`, and its use is stated by `RagRoutes.QueryDocuments`.
- The YouTube transcript API, video download, FFmpeg audio extraction
  (services/video_service.py:47-68), Whisper model loading and crawl4ai are left
  out. Their results are parameters: `fetch`, `segments`, `modelLoaded` and the
  scraped markdown.
- The async execution, file writes, logging and HTTP framing are left out.
- The other routes (api/routes/video_pitch.py, api/routes/competitor.py),
  models/response_model.py, core/clients.py, main.py and utils/logger.py are not
  part of this model.
- `analyze_transcript` and `analyze_competitor` repeat the cleaning of
  `parse_json_response` inline (services/video_service.py:151-160,
  services/competitor_service.py:60-68). The model uses the single definition
  `GeminiService.ParseJsonText` for all three, since the steps are identical.
- `Text.IsSpace` lists the code points Python's `str.isspace` accepts. Strings
  are sequences of Dafny `char`, and no Unicode normalisation is modelled.
- RagRoutes.Upload: the filename that FastAPI may leave as `None` is not
  modelled. The filename is always a string.
- RagRoutes.Upload: Chroma's checks on collection names are not modelled. These
  are 3 to 63 characters from [A-Za-z0-9._-], starting and ending alphanumeric.
  A name such as "Pitch Deck.pdf" (a space) or ".pdf" (a trailing underscore
  after the prefix) makes `create_collection` raise, and the upload returns 500.
  The model reports Uploaded for such names.
- RagRoutes.UploadAligned: its success claim holds only for names Chroma
  accepts, for the same reason.
- ChromaStore.Client.CreateCollection: fails only on a taken name. It does not
  reject invalid names.

## Findings

| source | as written | input that shows it | evidently intended | confidence | as-written member | corrected member |
|---|---|---|---|---|---|---|
| services/rag_service.py:94 | `response.embeddings.values` reads `values` off the list of embeddings | any question, e.g. a model returning one vector `[v]` for `[query]` | the single vector, `response.embeddings[0].values` | not executed | RagService.QueryVectorAsWritten | RagService.QueryVector |
| services/video_service.py:150 | `response.candidates.content.parts.text` reads `content` off the list of candidates | any reply, e.g. one candidate with one part "{}" | `response.candidates[0].content.parts[0].text` | not executed | GeminiService.CandidateTextAsWritten | GeminiService.FirstCandidateText |
| services/competitor_service.py:59 | the same lookup, `response.candidates.content.parts.text` | one candidate with one part "{}" | `response.candidates[0].content.parts[0].text` | not executed | GeminiService.AnalysisJsonTextAsWrittenAlwaysFails | GeminiService.AnalysisJsonText |
