# A verified model of the backend's document logic

This project models, in Dafny, the sequential logic of a patient-support backend written in Python/FastAPI:

- **The in-house retrieval service** (`backend/app/services/rag_service.py`). This covers:
  - the page-aware text chunker;
  - assembling a `Document` from extracted pages;
  - the in-memory vector cache, a pair of insertion-ordered dictionaries: documents by id and chunk embeddings by chunk id;
  - similarity search with a document filter, a stable descending sort and top-k truncation;
  - the facade's search threshold, source metadata, document information, listing, removal and health report.
- **The mock document registry** of the `/docs` router (`backend/app/routers/docs.py`). It is a list of `{id, title, status}` records. Search and the moderation queue filter it, upload appends to it, and approve and reject change one record's status in place.
- **The decision logic of the knowledge-base router** (`backend/app/routers/knowledge.py`). This covers:
  - submission validation;
  - the insert payload with null keys dropped;
  - the paging arithmetic and query filters of a search;
  - the moderation update record;
  - the sorted, de-duplicated category list.
- **The mock user dependency** (`backend/app/deps.py`): a header and the mocks flag give an optional user with a role.

Modules:

| module | file | what it holds |
|---|---|---|
| Base | base.dfy | `Option`, `Result` |
| PyStr | pystr.dfy | the Python string and list built-ins the code relies on: `lower`, `in`, `rfind`, `strip`, `replace`, `s[:k]` |
| Dicts | dicts.dfy | a Python `dict` as an insertion-ordered association list: `get`, `d[k] = v`, `del`, `values()` |
| Ranking | ranking.dfy | `list.sort(key=score, reverse=True)` as a stable insertion sort |
| Chunker | chunker.dfy | `chunk_text_with_page_info` as a function and as the imperative loops |
| VectorStore | vector_cache.dfy | the data classes; class `VectorCache` with its two dictionary fields, specified by functions on them |
| Rag | rag_service.dfy | `process_document`, class `RAGService` |
| DocsRouter | docs_router.dfy | class `Registry` with the `DOCS` list as a field |
| Knowledge | knowledge.dfy | the knowledge-router computations as functions |
| Deps | deps.dfy | `get_user` |

Modelling choices:

- **Dictionaries keep insertion order**, as CPython's do. This matters in three places:
  - `values()` is iterated when a chunk is looked up;
  - the sort is stable, so ties keep the order the embeddings were stored in;
  - `list_documents` returns documents in that order.
- **Values the code takes from outside are parameters.** These are:
  - the embedding function `encode` and the vector norm;
  - the `uuid4` values: the document id, one chunk id per index, and the `processed_at` placeholder;
  - the clock readings of a moderation;
  - the rows and counts the database returns;
  - whether the database is configured, and whether an insert reports an error;
  - the `USE_MOCKS` setting.
- **The pickle file is a `disk` field of the cache.** `_save_cache` sets it to a snapshot of both dictionaries, and `clear_cache` empties it.
- **Cosine similarity is kept abstract.** It is a dot product over an abstract norm, and its only proved properties are symmetry and self-similarity 1. Scores are Dafny `real`s.
- **Exceptions become error values**, where the code defines what they turn into:
  - `ValueError` from an empty page list becomes `Err`;
  - a query vector of the wrong dimension or a missing query vector becomes the empty list, which `search_documents`' handler returns;
  - HTTP status codes are integers.

## Model

The specification functions have no row of their own. Each is covered by the rows of the lemmas and methods about it, which cite the same lines:
- `Chunker.PageWindows`, `Chunker.PageChunks` and `Chunker.Chunks`: by `Chunker.SplitPage`, `Chunker.ChunkTextWithPageInfo` and the `Chunks…` lemmas.
- `Rag.DocumentPieces` and `Rag.Processed`: by `Rag.ProcessDocument` and the `Processed…` lemmas.
- `Rag.SearchOutcome`: by `Rag.RAGService.SearchDocuments` and the `SearchOutcome…` lemmas.
- `Rag.Listing`, `Rag.InfoOf` and `Rag.TotalChunks`: by `Rag.ListingIds`, `Rag.ListingAfterUpload`, `Rag.DocumentInfoOf` and the `TotalChunks…` lemmas.
- `VectorStore.RegisterEmbeddings` and `VectorStore.DropEmbeddings`: by the `Register…` and `Drop…` lemmas.
- `VectorStore.Dot` and `VectorStore.CosineSimilarity`: by `VectorStore.DotSymmetric`, `VectorStore.CosineSymmetric` and `VectorStore.CosineSelf`.
- `VectorStore.Candidates`, `VectorStore.SearchResults` and `VectorStore.Ranked`: by `VectorStore.CandidatesExact` and the `Search…` lemmas.
- `VectorStore.WellFormed`: by the `…WellFormed` lemmas.
- `DocsRouter.Matches`, `DocsRouter.PendingOf` and `DocsRouter.WithStatus`: by the `Matching…`, `Pending…` and `WithStatus…` lemmas.
- `Knowledge.RawPayload` and `Knowledge.InsertPayload`: by `Knowledge.RawPayloadKeys`, `Knowledge.PayloadContents` and `Knowledge.PayloadKeysDistinct`.
- `Knowledge.Offset`, `Knowledge.RangeEnd` and `Knowledge.TotalPages`: by `Knowledge.PageRange`, `Knowledge.TotalPagesCeiling`, `Knowledge.PageWithinTotal` and `Knowledge.Reply`.
- `Knowledge.OrFilter` and `Knowledge.SearchFilters`: by `Knowledge.OrFilterHasTwoConditions` and `Knowledge.SearchFiltersApprovedOnly`.
- `Knowledge.ModerationUpdate`: by `Knowledge.ModerationUpdateContents`.
- `Knowledge.StrLess` and `Knowledge.Categories`: by the `StrLess…` lemmas and `Knowledge.CategoriesSortedSet`.
- `Ranking.Insert` and `Ranking.SortDesc`: by the `SortDesc…` lemmas.
- `PyStr.RFind`, `PyStr.Strip`, `PyStr.RemoveAll` and `PyStr.CountChar`: by `PyStr.RFindIsLast`, the `Strip…` lemmas, the `RemoveAll…` lemmas and `PyStr.CountCharAppend`.
- `Dicts.Put` and `Dicts.Delete`: by the `Get…`, `Put…` and `Delete…` lemmas.

| member | source | states |
|---|---|---|
| PyStr.Lower | backend/app/routers/docs.py:14 | `lower()` keeps the length and lower-cases each character |
| PyStr.Contains | backend/app/routers/docs.py:14 | Python's substring `in` holds exactly when the needle occurs at some index |
| PyStr.RFindIsLast | backend/app/services/rag_service.py:298-299 | `rfind` gives the last index holding the character, or -1 when there is none |
| PyStr.StripIsSlice | backend/app/services/rag_service.py:305 | `strip()` returns a contiguous slice of its input, and everything it removes is whitespace: the leading run and the characters after the slice |
| PyStr.StripTrailingSpace | backend/app/services/rag_service.py:305 | the characters after what `strip()` keeps are whitespace |
| PyStr.LeadingSpace | backend/app/services/rag_service.py:305 | the leading run `strip()` removes is whitespace, and the character after it is not |
| PyStr.StripTrimmed | backend/app/services/rag_service.py:305 | a stripped string neither starts nor ends with whitespace |
| PyStr.RemoveAllAbsent | backend/app/services/rag_service.py:350 | `replace(pat, '')` leaves a string without `pat` unchanged |
| PyStr.RemoveAllTrailing | backend/app/services/rag_service.py:350 | `replace(".pdf", '')` on `stem + ".pdf"` gives `stem` back when `stem` holds no ".pdf" |
| PyStr.ReplaceChar | backend/app/routers/knowledge.py:91 | `replace` of one character is position by position: the old character becomes the new one and the rest stay |
| PyStr.CountCharAppend | backend/app/routers/knowledge.py:92 | the number of occurrences of a character in a concatenation is the sum of the two parts' counts |
| PyStr.PyPrefix | backend/app/routers/docs.py:15 | `s[:k]` is a prefix of length `min(k, len)` for `k >= 0`, and drops `-k` elements from the end otherwise |
| Dicts.Get | backend/app/services/rag_service.py:116 | `get` finds a value exactly for a stored key, and that value is stored under the key |
| Dicts.GetPut | backend/app/services/rag_service.py:105 | after `d[k] = v`, `k` maps to `v` and every other key keeps its value |
| Dicts.PutFresh | backend/app/services/rag_service.py:105 | assigning a new key appends it at the end of the iteration order |
| Dicts.PutDistinct | backend/app/services/rag_service.py:105 | assignment never duplicates a key |
| Dicts.GetDelete | backend/app/services/rag_service.py:172 | after `del d[k]`, `k` is absent and every other key keeps its value |
| Dicts.DeleteAbsent | backend/app/services/rag_service.py:161 | deleting an absent key changes nothing |
| Dicts.DeleteDistinct | backend/app/services/rag_service.py:172 | deletion keeps keys distinct |
| Dicts.DistinctKeysCount | backend/app/services/rag_service.py:472 | `len(d)` is the number of distinct keys |
| Dicts.Values | backend/app/services/rag_service.py:144 | `values()` yields the stored values in insertion order |
| Ranking.SortDescPermutes | backend/app/services/rag_service.py:138 | the sort is a permutation of its input |
| Ranking.SortDescSorted | backend/app/services/rag_service.py:138 | the sort leaves scores in non-increasing order |
| Ranking.SortDescStable | backend/app/services/rag_service.py:138 | equally scored pairs keep their input order, as Python's stable sort with `reverse=True` does |
| Ranking.SortedPrefixBest | backend/app/services/rag_service.py:139 | a prefix of a descending arrangement holds the best scores, and together with the rest it is the whole input |
| Chunker.LastBreak | backend/app/services/rag_service.py:298-300 | the boundary is -1 or an index inside the window |
| Chunker.LastBreakIsLast | backend/app/services/rag_service.py:298-300 | the boundary holds '.' or a newline, and no later character of the window does |
| Chunker.WindowEnd | backend/app/services/rag_service.py:293-303 | `end` lies in `(start, start + chunk_size]`; after a cut at a break it is at least `chunk_size // 2 + 2` past `start` |
| Chunker.Window | backend/app/services/rag_service.py:294-303 | the window is at most `chunk_size` characters long, both for the plain window and for the sentence cut |
| Chunker.NextStart | backend/app/services/rag_service.py:306 | the next `start`, `end - overlap`, is strictly past the current one, so the inner loop terminates |
| Chunker.NextWindow | backend/app/services/rag_service.py:293-303 | the loop body computes exactly the window end and text of the specification |
| Chunker.SplitPage | backend/app/services/rag_service.py:290-309 | the inner `while` loop emits exactly the page's windows |
| Chunker.ChunkTextWithPageInfo | backend/app/services/rag_service.py:280-311 | the outer loop emits exactly the chunks of the specification, page after page |
| Chunker.ChunksAppend | backend/app/services/rag_service.py:285 | chunking a concatenation of page lists gives the concatenation of their chunks |
| Chunker.PageChunksShape | backend/app/services/rag_service.py:286-309 | every page gives at least one chunk, and each is a slice of that page's text of at most `chunk_size` characters with the page's number |
| Chunker.ChunksBounded | backend/app/services/rag_service.py:286-305 | every chunk is a slice of some input page, at most `chunk_size` long, tagged with that page's number |
| Chunker.ChunksCoverPages | backend/app/services/rag_service.py:285-309 | there are at least as many chunks as pages |
| Chunker.ShortPagesUnchanged | backend/app/services/rag_service.py:286-288 | pages of at most `chunk_size` characters come out unchanged, one chunk each, with their own page numbers |
| Chunker.ChunkPageNumbers | backend/app/services/rag_service.py:285-305 | the chunks carry exactly the page numbers of the input |
| Chunker.ChunksInPageOrder | backend/app/services/rag_service.py:285-305 | for pages in page order, the chunks are in page order too |
| Chunker.AsWrittenIgnoresSentenceBreak | backend/app/services/rag_service.py:301-303 | as written, a window starting at index `chunk_size - 1 - chunk_size // 2` or later is never cut at a break in its second half (see Findings) |
| Chunker.IntendedCutsAtLastBreak | backend/app/services/rag_service.py:297-303 | with the intended test, a window with a break past its middle ends right after its last break |
| VectorStore.RegisterKeys | backend/app/services/rag_service.py:106-109 | after registering, the embedding keys are the old keys plus the ids of the chunks that have a non-empty embedding |
| VectorStore.RegisterStores | backend/app/services/rag_service.py:106-109 | a chunk with an embedding that no later chunk overrides has its embedding stored under its id |
| VectorStore.RegisterKeepsOthers | backend/app/services/rag_service.py:106-109 | ids of chunks without an embedding, and ids of other documents, keep their stored vectors |
| VectorStore.RegisterDistinct | backend/app/services/rag_service.py:106-109 | registering keeps embedding keys distinct |
| VectorStore.DropKeys | backend/app/services/rag_service.py:167-169 | after removal, the embedding keys are the old keys minus the document's chunk ids |
| VectorStore.DropKeepsOthers | backend/app/services/rag_service.py:167-169 | embeddings of chunks outside the removed document are untouched |
| VectorStore.DropDistinct | backend/app/services/rag_service.py:167-169 | dropping keeps embedding keys distinct |
| VectorStore.FindInChunks | backend/app/services/rag_service.py:144-146 | the chunk search fails exactly when no chunk has the id, and any chunk found has it |
| VectorStore.FindInDocuments | backend/app/services/rag_service.py:141-148 | the lookup across documents fails exactly when no document holds the id, and any chunk found has it |
| VectorStore.FindInChunksAt | backend/app/services/rag_service.py:144-146 | the search returns the first chunk with the id |
| VectorStore.FindInDocumentsAt | backend/app/services/rag_service.py:141-148 | the lookup returns the first matching chunk of the first document holding one, together with that document |
| VectorStore.FindInDocumentsSound | backend/app/services/rag_service.py:141-148 | a found chunk is a chunk of a cached document, paired with that document |
| VectorStore.FindChunk | backend/app/services/rag_service.py:141-148 | the nested loops compute exactly the lookup function |
| VectorStore.DotSymmetric | backend/app/services/rag_service.py:152 | the dot product is symmetric |
| VectorStore.CosineSymmetric | backend/app/services/rag_service.py:150-159 | the similarity is symmetric, including the zero-norm case |
| VectorStore.CosineSelf | backend/app/services/rag_service.py:150-159 | a non-zero vector has similarity 1 with itself |
| VectorStore.CandidatesExact | backend/app/services/rag_service.py:124-135 | a pair is a candidate exactly when it is some stored embedding that passes the document filter, scored by its similarity to the query |
| VectorStore.CandidatesStep | backend/app/services/rag_service.py:124-135 | one turn of the loop appends the entry's pair exactly when the filter keeps it |
| VectorStore.NotComparable | backend/app/services/rag_service.py:134 | a kept embedding whose dimension differs from the query's makes the search fail |
| VectorStore.SearchIsPrefix | backend/app/services/rag_service.py:139 | the result is a prefix of the sorted candidates |
| VectorStore.SearchSorted | backend/app/services/rag_service.py:137-139 | results come in non-increasing score order |
| VectorStore.SearchSound | backend/app/services/rag_service.py:120-139 | every result is a scored stored embedding; with a document filter, every result's chunk belongs to that document |
| VectorStore.SearchCount | backend/app/services/rag_service.py:120-139 | with no embeddings the result is empty; otherwise there are `min(top_k, candidates)` results |
| VectorStore.SearchTopK | backend/app/services/rag_service.py:137-139 | no candidate left out scores above a returned one, and returned plus left out is exactly the candidates |
| VectorStore.SearchTiesInStoreOrder | backend/app/services/rag_service.py:137-139 | among equal scores, results keep the order in which the embeddings were stored |
| VectorStore.AddRemoveRoundTrip | backend/app/services/rag_service.py:103-110 | adding a new document with new chunk ids and then removing it restores every lookup in both dictionaries |
| VectorStore.DocumentsWellFormed | backend/app/services/rag_service.py:105 | documents are keyed by their own ids |
| VectorStore.PutDocumentWellFormed | backend/app/services/rag_service.py:105 | storing a document under its id keeps the cache well formed, and the id then maps to the document |
| VectorStore.RegisterWellFormed | backend/app/services/rag_service.py:106-109 | registering embeddings keeps the cache well formed |
| VectorStore.RemoveWellFormed | backend/app/services/rag_service.py:161-173 | removal keeps the cache well formed, and the id then maps to nothing |
| VectorStore.VectorCache.constructor | backend/app/services/rag_service.py:57-88 | a new cache holds the saved snapshot when there is one, and is empty otherwise |
| VectorStore.VectorCache.Save | backend/app/services/rag_service.py:90-101 | saving records both dictionaries on disk and changes nothing in memory |
| VectorStore.VectorCache.AddDocument | backend/app/services/rag_service.py:103-112 | the document is stored under its id, the chunks' embeddings are registered, and the result is saved |
| VectorStore.VectorCache.GetDocument | backend/app/services/rag_service.py:114-116 | a document is found exactly for a cached id, and it has that id |
| VectorStore.VectorCache.GetChunkById | backend/app/services/rag_service.py:141-148 | returns the first cached chunk with the id, or nothing when there is none |
| VectorStore.VectorCache.SearchSimilar | backend/app/services/rag_service.py:118-139 | fails exactly when a kept embedding's dimension differs from the query's, and otherwise returns the specified top-k result |
| VectorStore.VectorCache.RemoveDocument | backend/app/services/rag_service.py:161-173 | a cached document and exactly its chunks' embeddings are deleted and the result saved; an unknown id changes nothing |
| VectorStore.VectorCache.ClearCache | backend/app/services/rag_service.py:175-181 | both dictionaries and the cache file are emptied |
| Rag.ProcessDocument | backend/app/services/rag_service.py:313-356 | no pages give the ValueError message; otherwise the document assembled from the chunks and their embeddings, with the sentence-break test as written or as corrected |
| Rag.ProcessedShortPagesAgree | backend/app/services/rag_service.py:286-288 | when every page fits in one chunk, the test as written and the corrected test build the same document, whose chunks are the pages themselves |
| Rag.ProcessedChunk | backend/app/services/rag_service.py:335-345 | chunk `i` has the `i`-th chunk id, `chunk_index == i`, the new document's id and an embedding, and is cut from one of the pages |
| Rag.ProcessedChunkCount | backend/app/services/rag_service.py:326-345 | with one embedding per text, there is one chunk per piece, and at least one per page |
| Rag.ProcessedInPageOrder | backend/app/services/rag_service.py:335-345 | for pages in page order, the chunks' page numbers never decrease |
| Rag.TitleDropsPdfSuffix | backend/app/services/rag_service.py:350 | the title of `name.pdf` is `name` |
| Rag.TitleKeepsOtherNames | backend/app/services/rag_service.py:350 | a filename without ".pdf" is its own title |
| Rag.Hits | backend/app/services/rag_service.py:396-425 | the search loop gives at most one result per similar chunk |
| Rag.HitsExact | backend/app/services/rag_service.py:396-425 | a result is produced exactly for a similar chunk at or above `min_similarity` that a cached document holds |
| Rag.HitsStep | backend/app/services/rag_service.py:396-425 | one turn of the loop appends the chunk's result exactly when it is kept |
| Rag.HitsAtLeast | backend/app/services/rag_service.py:396-425 | results keep the similar chunks' score bounds |
| Rag.HitsSorted | backend/app/services/rag_service.py:396-425 | sorted input similarities give sorted results |
| Rag.HitMetadata | backend/app/services/rag_service.py:403-422 | a result's metadata is that of the cached document holding its chunk |
| Rag.CollectHits | backend/app/services/rag_service.py:396-425 | the loop computes exactly the specified results |
| Rag.SearchOutcomeRanked | backend/app/services/rag_service.py:382-430 | at most `top_k` results, none below `min_similarity`, best first |
| Rag.SearchOutcomeDefaults | backend/app/services/rag_service.py:382-383 | the default call `search_documents(query)` gives at most five results, none scored below 0.01, best first |
| Rag.SearchOutcomeSound | backend/app/services/rag_service.py:382-430 | each result's score is the query vector's similarity with its chunk's stored embedding; with a filter it belongs to that document |
| Rag.DocumentInfoOf | backend/app/services/rag_service.py:432-445 | information exists exactly for a cached id |
| Rag.InfoAfterUpload | backend/app/services/rag_service.py:432-445 | after an upload, the information describes the new document and counts its chunks |
| Rag.InfoAfterRemove | backend/app/services/rag_service.py:432-454 | after a removal, the document has no information and every other document's is unchanged |
| Rag.ListingIds | backend/app/services/rag_service.py:456-467 | the listing names each cached document exactly once |
| Rag.ListingAfterUpload | backend/app/services/rag_service.py:456-467 | uploading a new document appends its summary to the listing |
| Rag.TotalChunksPut | backend/app/services/rag_service.py:473 | storing a document changes the chunk total by the new document's chunks minus the replaced one's |
| Rag.TotalChunksDelete | backend/app/services/rag_service.py:473 | removing a document lowers the chunk total by its chunks |
| Rag.RAGService.constructor | backend/app/services/rag_service.py:361-364 | the service wraps a fresh, well-formed cache |
| Rag.RAGService.UploadDocument | backend/app/services/rag_service.py:366-380 | no pages give the error and leave the cache and its file unchanged; otherwise the processed document is cached, the cache is saved, and the document's id is returned |
| Rag.RAGService.SearchDocuments | backend/app/services/rag_service.py:382-430 | returns exactly the specified search outcome, including the empty list from the exception handler |
| Rag.RAGService.GetDocumentInfo | backend/app/services/rag_service.py:432-445 | returns the cached document's information, or nothing |
| Rag.RAGService.RemoveDocument | backend/app/services/rag_service.py:447-454 | a cached document and its chunks' embeddings are removed and the cache saved; an unknown id changes neither memory nor the file; success is always reported |
| Rag.RAGService.ListDocuments | backend/app/services/rag_service.py:456-467 | the loop returns one summary per cached document in dictionary order |
| Rag.RAGService.HealthCheck | backend/app/services/rag_service.py:469-475 | the embedding service is always available; the counts are the number of cached documents and the sum of their chunks |
| DocsRouter.Matching | backend/app/routers/docs.py:14 | the matches are never more than the records |
| DocsRouter.MatchingExact | backend/app/routers/docs.py:14 | a record matches exactly when its lower-cased title contains the lower-cased query, whatever its status, and a matching record appears as often as it does in the list |
| DocsRouter.MatchingInOrder | backend/app/routers/docs.py:14 | the matches are a subsequence of the list: the comprehension keeps list order |
| DocsRouter.MatchingAppend | backend/app/routers/docs.py:14 | searching a concatenation gives the matches of the first part followed by those of the second |
| DocsRouter.MatchingEmptyQuery | backend/app/routers/docs.py:13-14 | the empty query matches every record, in list order |
| DocsRouter.PendingExact | backend/app/routers/docs.py:24 | the queue holds exactly the pending records, each as often as it occurs in the list |
| DocsRouter.PendingInOrder | backend/app/routers/docs.py:24 | the queue is a subsequence of the list: it keeps list order |
| DocsRouter.PendingAppend | backend/app/routers/docs.py:24 | the queue of a concatenation is the first part's queue followed by the second's |
| DocsRouter.UploadJoinsQueue | backend/app/routers/docs.py:19-24 | an uploaded file joins the end of the moderation queue |
| DocsRouter.FirstIndex | backend/app/routers/docs.py:28-29 | the first record with the id, or -1 when no record has it |
| DocsRouter.WithStatusEffect | backend/app/routers/docs.py:28-30 | a transition sets the first matching record's status and changes no other record and no other field |
| DocsRouter.WithStatusUnknown | backend/app/routers/docs.py:32 | an unknown id leaves the list unchanged |
| DocsRouter.FirstIndexStable | backend/app/routers/docs.py:28-30 | transitions never change ids, so later lookups find the same records |
| DocsRouter.LastTransitionWins | backend/app/routers/docs.py:29-30 | a second transition overrides the first; no status is final |
| DocsRouter.ApproveAfterReject | backend/app/routers/docs.py:29-38 | a rejected record can still be approved |
| DocsRouter.Registry.constructor | backend/app/routers/docs.py:6-10 | the registry starts with the three seeded records |
| DocsRouter.Registry.Search | backend/app/routers/docs.py:12-15 | `total` counts every match, and `items` are the first `perPage` matches in list order |
| DocsRouter.Registry.Upload | backend/app/routers/docs.py:17-20 | exactly one record is appended, with id and title equal to the filename and status pending, and the response says so |
| DocsRouter.Registry.PendingQueue | backend/app/routers/docs.py:22-24 | the queue holds exactly the pending records, each as often as it occurs, in list order |
| DocsRouter.Registry.Approve | backend/app/routers/docs.py:26-32 | the first record with the id becomes approved and nothing else changes; an unknown id gives "not found" and changes nothing |
| DocsRouter.Registry.Reject | backend/app/routers/docs.py:34-40 | the first record with the id becomes rejected and nothing else changes; an unknown id gives "not found" and changes nothing |
| DocsRouter.Registry.SetFirst | backend/app/routers/docs.py:28-32 | the loop updates the first matching record, as the transition function specifies |
| Knowledge.DropNone | backend/app/routers/knowledge.py:50 | the comprehension never adds entries |
| Knowledge.DropNoneGet | backend/app/routers/knowledge.py:50 | a key survives exactly when its value is not None, and keeps that value |
| Knowledge.DropNoneMember | backend/app/routers/knowledge.py:50 | an entry survives exactly when it was present with a non-null value |
| Knowledge.DropNoneDistinct | backend/app/routers/knowledge.py:50 | the filtered payload has distinct keys, all taken from the original |
| Knowledge.RawPayloadKeys | backend/app/routers/knowledge.py:37-47 | the literal payload names nine distinct keys |
| Knowledge.PayloadContents | backend/app/routers/knowledge.py:34-50 | the payload holds the new id and status "pending", each optional field exactly when it is present, and tags exactly when there is at least one |
| Knowledge.PayloadKeysDistinct | backend/app/routers/knowledge.py:37-50 | no key is sent twice, and none outside the nine |
| Knowledge.Submit | backend/app/routers/knowledge.py:24-66 | with the intended status codes: unconfigured gives 500 and a missing title or author email gives 400, both before any insert; otherwise the payload is inserted and the new id returned, and an insert the database reports as failed gives 500 |
| Knowledge.SubmitAsWritten | backend/app/routers/knowledge.py:27-69 | as written, every outcome other than success (a refusal or a failed insert) surfaces as 500 (see Findings) |
| Knowledge.SubmitAccepts | backend/app/routers/knowledge.py:30-66 | a complete submission with a healthy database is accepted with the generated id and a pending payload |
| Knowledge.MissingTitleIsServerError | backend/app/routers/knowledge.py:30-31 | a submission without a title is refused with 500 as written, and with 400 by design |
| Knowledge.PageRange | backend/app/routers/knowledge.py:83-99 | the offset is `(page - 1) * per_page`, the inclusive range covers `per_page` rows, and each page starts right after the previous one |
| Knowledge.TotalPagesCeiling | backend/app/routers/knowledge.py:120 | `total_pages` is the ceiling of `total / per_page`, and it is 0 exactly when there are no rows |
| Knowledge.PageWithinTotal | backend/app/routers/knowledge.py:83-120 | a page is within `total_pages` exactly when its first row exists |
| Knowledge.SafeQuery | backend/app/routers/knowledge.py:91 | each comma of `q` becomes a space and every other character is kept, so the safe query has no comma |
| Knowledge.OrFilterHasTwoConditions | backend/app/routers/knowledge.py:91-92 | the `or` filter holds exactly one comma, so PostgREST always sees two conditions |
| Knowledge.SearchFiltersApprovedOnly | backend/app/routers/knowledge.py:86-96 | only approved documents are searched; the text filter is present exactly for a non-empty query, and the category filter exactly for a non-empty category |
| Knowledge.SearchQuery | backend/app/routers/knowledge.py:72-99 | out-of-bounds paging is rejected with 422; otherwise the query carries the shared filters and a range of `per_page` rows from the offset |
| Knowledge.Reply | backend/app/routers/knowledge.py:113-121 | `items` are the rows returned, `page` and `per_page` are echoed, `total` is the count or 0, and `total_pages` is `(total + per_page - 1) // per_page`: 0 when there are no rows, otherwise the least number of pages that holds `total` rows; `page <= total_pages` exactly when the page's offset is below `total` |
| Knowledge.ModerationUpdateContents | backend/app/routers/knowledge.py:163-169 | the update always sets `status` and `updated_at`, and sets `approved_at` exactly for the action "approved" |
| Knowledge.StrLessTotal | backend/app/routers/knowledge.py:190 | string order is total on distinct strings |
| Knowledge.StrLessTransitive | backend/app/routers/knowledge.py:190 | string order is transitive |
| Knowledge.InsertUnique | backend/app/routers/knowledge.py:188-190 | inserting adds exactly the new element |
| Knowledge.InsertUniqueSorted | backend/app/routers/knowledge.py:188-190 | inserting keeps a list strictly sorted |
| Knowledge.SortedSet | backend/app/routers/knowledge.py:188-190 | `sorted(set(xs))` holds exactly the elements of `xs` |
| Knowledge.SortedSetSorted | backend/app/routers/knowledge.py:188-190 | `sorted(set(xs))` is strictly sorted |
| Knowledge.PresentCategories | backend/app/routers/knowledge.py:188 | the comprehension keeps exactly the truthy categories |
| Knowledge.CategoriesSortedSet | backend/app/routers/knowledge.py:188-190 | the categories are exactly the non-empty ones present, sorted and without duplicates |
| Deps.RoleOf | backend/app/deps.py:10 | the role is admin exactly when the header contains "admin" |
| Deps.GetUser | backend/app/deps.py:7-11 | a user exists exactly when mocks are on and the header is present and non-empty; it has id "u1" and the header as email |
| Deps.MocksOffNoUser | backend/app/deps.py:9-11 | with mocks disabled there is no user, whatever the header |
| Deps.RoleFromHeader | backend/app/deps.py:10 | a non-empty header gives an admin exactly when it contains "admin" and a member otherwise, and no third role |

## Left out

- Reading a PDF (PyPDF2) is left out, because it wraps a library that is not modelled. The model starts from the extracted `(text, page)` pairs.
- The sentence-transformer model and the hash-based fallback embedding are left out. `encode` is a parameter, because the fallback uses floating point and Python's randomised `hash`.
- Floating-point arithmetic is left out: scores and vectors are `real`. The norm is a parameter, and `np.dot` is an exact sum.
- Pickle serialisation, the cache directory and the file system are left out. The file is a `disk` snapshot field, and a failed load or a failed save is not modelled, because it is I/O. `_save_cache` logs a failed write and leaves the old file in place, while `VectorStore.VectorCache.Save` always records the new snapshot. The names under which the pickle stores the dictionaries are not modelled.
- `uuid4` values and `datetime.utcnow()` are parameters, because they are random or read the clock.
- Supabase calls are left out, because they go to an external database:
  - the queries themselves, their ordering by `created_at`, and the `increment_view_count` RPC;
  - `get_document`, `get_pending_documents` and `get_popular_documents`, which are single queries with nothing to compute;
  - what the database does with the filters, which are modelled as values.
- The `detail` text of HTTP errors is left out; only status codes are modelled. The 404 that `moderate_document` raises inside its `try`, and that its handler re-wraps as 500, is not modelled, because the moderation response depends only on the database.
- Logging is left out; it has no effect on results.
- Concurrency and the module-level singletons (`rag_service`, `DOCS`) are left out. The model has one object per instance and no interleaving.
- Aliasing between the record dictionaries in `DOCS` and the response lists is left out: records are values.
- `note` of `/docs/upload` and the file contents are not modelled, because the code ignores them.
- PyStr.Lower: lower-cases ASCII letters only, whereas Python's `str.lower` also maps other Unicode letters.
- Chunker.ChunkTextWithPageInfo: requires `overlap < chunk_size` and `overlap <= chunk_size // 2 + 1`. These are the parameters for which the Python loop provably ends; with a larger overlap it can loop forever. The only call site uses the defaults 1000/200.
- Rag.ProcessDocument: takes the sentence-break test as a parameter. `Chunker.CutRule.AsWritten` is the code as it stands, and `Chunker.CutRule.Intended` is the correction of the first finding below. The service's `UploadDocument` passes the test through, so every fact about processing holds for both.
- Rag.RAGService.HealthCheck: reports the cache directory string as given. Python reports `str(Path(cache_dir))`, which normalises paths, so the default "./cache" is reported as "cache". Path normalisation is not modelled.
- VectorStore.VectorCache.AddDocument: re-adding a document id already cached replaces the document but does not delete the embeddings of old chunks that are absent from the new version. The contract states exactly that, through `RegisterEmbeddings` on the old dictionary, so they stay searchable with no chunk to name them. `search_documents` then skips them.
- VectorStore.VectorCache.SearchSimilar: a dimension mismatch is an `Err`, where numpy raises `ValueError`. The caller turns both into an empty list.
- VectorStore.CosineSelf: proved for an abstract norm whose square is the dot product, not for `np.linalg.norm` in floating point.
- Knowledge.Submit: the `ModerateKnowledgeRequest` and `KnowledgeSubmission` schemas are not part of this model. Fields are optional strings, and `action` is any string.

Behaviour worth knowing, and where the model departs from the code:

- `/docs` approve and reject do not check the current status, so approved and rejected are not final states. `DocsRouter.LastTransitionWins` states this.
- Knowledge submission raises a 400 for a missing title or author email, but the catch-all handler turns it into a 500; see Findings. `Knowledge.SubmitAsWritten` models the code, and `Knowledge.Submit` models the intended 400.
- The sentence-break test of the chunker is modelled both as written and as corrected; see Findings and the `Rag.ProcessDocument` line above.
- For a page longer than `chunk_size`, a window can reach the end of the text while `end - overlap` is still inside it; this happens when `end` lies less than `overlap` past the end. The loop then runs once more and emits a final chunk that lies wholly inside the previous window. The model emits that chunk too.

## Findings

| source | as written | input that shows it | evidently intended | confidence | as-written member | corrected member |
|---|---|---|---|---|---|---|
| backend/app/services/rag_service.py:301 | `boundary`, an index inside the window, is compared with `start + chunk_size // 2`, an index into the page | a page of 1900 characters whose only '.' is at index 1700: the second window starts at 800, has its break at window index 900, and 900 > 1300 fails, so the window is cut at 1800 instead of 1701 | `boundary > chunk_size // 2`: cut at the last break when it lies in the second half of the window | high (not executed) | Chunker.AsWrittenIgnoresSentenceBreak | Chunker.IntendedCutsAtLastBreak |
| backend/app/routers/knowledge.py:30-31 | the 400 for a missing title or author email is raised inside the `try`, and `except Exception` at lines 67-69 turns it into a 500 | a submission with no `title` on a configured database gets status 500 with detail "400: title and author_email are required" | the request is refused with 400, as `get_document` at lines 141-142 does for its 404 | medium (not executed) | Knowledge.SubmitAsWritten | Knowledge.Submit |
