/**
 * `DocumentProcessor.process_document` and the `RAGService` facade over the
 * vector cache: upload, search with a similarity threshold and source
 * metadata, document information, listing, removal and the health report.
 */
module Rag {
  import opened Base
  import opened PyStr
  import opened Dicts
  import opened Chunker
  import opened Ranking
  import opened VectorStore

  const NoTextError := "No text could be extracted from the PDF"
  const PdfSuffix := ".pdf"
  const DefaultTopK := 5
  const DefaultMinSimilarity := 0.01

  function Min(a: int, b: int): int {
    if a < b then a else b
  }

  // ---------------------------------------------------------------------------
  // process_document

  /**
   * The chunks of the extracted pages, with the default size and overlap.
   * `rule` is the sentence-break test: `AsWritten` for the code as it stands,
   * `Intended` for the corrected test.
   */
  function DocumentPieces(pages: seq<TextPage>, rule: CutRule): seq<TextPage> {
    Chunks(pages, DefaultChunkSize, DefaultOverlap, rule)
  }

  /** `[chunk[0] for chunk in chunks_with_pages]`. */
  function Texts(pieces: seq<TextPage>): seq<string> {
    seq(|pieces|, i requires 0 <= i < |pieces| => pieces[i].text)
  }

  /** The `i`-th `DocumentChunk` the `zip` loop builds. */
  function ChunkRecord(documentId: string, pieces: seq<TextPage>, embs: seq<Vector>, chunkId: nat -> string, i: nat): DocumentChunk
    requires i < |pieces| && i < |embs|
  {
    DocumentChunk(chunkId(i), documentId, pieces[i].text, pieces[i].pageNumber, i, Some(embs[i]))
  }

  /** `enumerate(zip(chunks_with_pages, embeddings))`: as many chunks as the shorter list. */
  function ZipChunks(documentId: string, pieces: seq<TextPage>, embs: seq<Vector>, chunkId: nat -> string): seq<DocumentChunk> {
    seq(Min(|pieces|, |embs|), i requires 0 <= i < Min(|pieces|, |embs|) => ChunkRecord(documentId, pieces, embs, chunkId, i))
  }

  /**
   * The document built from the extracted `pages`. `chunkId(i)` stands for the
   * `uuid4` drawn for the `i`-th chunk; `documentId` and `processedAt` are the
   * other two `uuid4` values.
   */
  function Processed(documentId: string, filename: string, pages: seq<TextPage>, encode: seq<string> -> seq<Vector>,
                     chunkId: nat -> string, processedAt: string, rule: CutRule): Document
  {
    var pieces := DocumentPieces(pages, rule);
    Document(documentId, filename, RemoveAll(filename, PdfSuffix), |pages|,
             ZipChunks(documentId, pieces, encode(Texts(pieces)), chunkId), processedAt)
  }

  method ProcessDocument(documentId: string, filename: string, pages: seq<TextPage>, encode: seq<string> -> seq<Vector>,
                         chunkId: nat -> string, processedAt: string, rule: CutRule) returns (r: Result<Document, string>)
    ensures pages == [] ==> r == Err(NoTextError)
    ensures pages != [] ==> r == Ok(Processed(documentId, filename, pages, encode, chunkId, processedAt, rule))
  {
    if pages == [] {
      return Err(NoTextError);
    }
    var pieces := ChunkTextWithPageInfo(pages, DefaultChunkSize, DefaultOverlap, rule);
    var embs := encode(Texts(pieces));
    var chunks: seq<DocumentChunk> := [];
    for i := 0 to Min(|pieces|, |embs|)
      invariant |chunks| == i
      invariant forall k :: 0 <= k < i ==> chunks[k] == ChunkRecord(documentId, pieces, embs, chunkId, k)
    {
      chunks := chunks + [DocumentChunk(chunkId(i), documentId, pieces[i].text, pieces[i].pageNumber, i, Some(embs[i]))];
    }
    assert chunks == ZipChunks(documentId, pieces, embs, chunkId);
    return Ok(Document(documentId, filename, RemoveAll(filename, PdfSuffix), |pages|, chunks, processedAt));
  }

  /** A chunk record of the document cut from one of `pages`: at most 1000 characters of that page's text, with its number. */
  ghost predicate CutFrom(c: DocumentChunk, pages: seq<TextPage>) {
    ChunkOfSomePage(TextPage(c.content, c.pageNumber), pages, DefaultChunkSize)
  }

  /**
   * Chunk `i` of a processed document has the `i`-th chunk id, index `i`, the
   * document's id and an embedding, and is cut from one of the pages.
   */
  lemma ProcessedChunk(documentId: string, filename: string, pages: seq<TextPage>, encode: seq<string> -> seq<Vector>,
                       chunkId: nat -> string, processedAt: string, rule: CutRule, i: int)
    requires 0 <= i < |Processed(documentId, filename, pages, encode, chunkId, processedAt, rule).chunks|
    ensures Processed(documentId, filename, pages, encode, chunkId, processedAt, rule).chunks[i].id == chunkId(i)
    ensures Processed(documentId, filename, pages, encode, chunkId, processedAt, rule).chunks[i].chunkIndex == i
    ensures Processed(documentId, filename, pages, encode, chunkId, processedAt, rule).chunks[i].documentId == documentId
    ensures Processed(documentId, filename, pages, encode, chunkId, processedAt, rule).chunks[i].embedding.Some?
    ensures CutFrom(Processed(documentId, filename, pages, encode, chunkId, processedAt, rule).chunks[i], pages)
  {
    var pieces := DocumentPieces(pages, rule);
    ChunksBounded(pages, DefaultChunkSize, DefaultOverlap, rule);
    assert ChunkOfSomePage(pieces[i], pages, DefaultChunkSize);
    assert TextPage(pieces[i].text, pieces[i].pageNumber) == pieces[i];
  }

  /**
   * With an encoder that returns one vector per text, no chunk is lost to the
   * `zip`, and every page contributes at least one chunk.
   */
  lemma ProcessedChunkCount(documentId: string, filename: string, pages: seq<TextPage>, encode: seq<string> -> seq<Vector>,
                            chunkId: nat -> string, processedAt: string, rule: CutRule)
    requires forall texts :: |encode(texts)| == |texts|
    ensures |Processed(documentId, filename, pages, encode, chunkId, processedAt, rule).chunks| == |DocumentPieces(pages, rule)|
    ensures |Processed(documentId, filename, pages, encode, chunkId, processedAt, rule).chunks| >= |pages|
  {
    ChunksCoverPages(pages, DefaultChunkSize, DefaultOverlap, rule);
    assert |encode(Texts(DocumentPieces(pages, rule)))| == |DocumentPieces(pages, rule)|;
  }

  /** Pages in ascending order give chunks in ascending page order. */
  lemma ProcessedInPageOrder(documentId: string, filename: string, pages: seq<TextPage>, encode: seq<string> -> seq<Vector>,
                             chunkId: nat -> string, processedAt: string, rule: CutRule)
    requires PagesOrdered(pages)
    ensures forall i, j :: 0 <= i < j < |Processed(documentId, filename, pages, encode, chunkId, processedAt, rule).chunks| ==>
              Processed(documentId, filename, pages, encode, chunkId, processedAt, rule).chunks[i].pageNumber <=
              Processed(documentId, filename, pages, encode, chunkId, processedAt, rule).chunks[j].pageNumber
  {
    var pieces := DocumentPieces(pages, rule);
    ChunksInPageOrder(pages, DefaultChunkSize, DefaultOverlap, rule);
    var cs := Processed(documentId, filename, pages, encode, chunkId, processedAt, rule).chunks;
    forall i, j | 0 <= i < j < |cs| ensures cs[i].pageNumber <= cs[j].pageNumber {
      assert cs[i].pageNumber == pieces[i].pageNumber && cs[j].pageNumber == pieces[j].pageNumber;
    }
  }

  /** Both readings of the sentence-break test agree on documents whose pages all fit in one chunk. */
  lemma ProcessedShortPagesAgree(documentId: string, filename: string, pages: seq<TextPage>, encode: seq<string> -> seq<Vector>,
                                 chunkId: nat -> string, processedAt: string)
    requires forall i :: 0 <= i < |pages| ==> |pages[i].text| <= DefaultChunkSize
    ensures DocumentPieces(pages, AsWritten) == pages
    ensures Processed(documentId, filename, pages, encode, chunkId, processedAt, AsWritten) ==
            Processed(documentId, filename, pages, encode, chunkId, processedAt, Intended)
  {
    ShortPagesUnchanged(pages, DefaultChunkSize, DefaultOverlap, AsWritten);
    ShortPagesUnchanged(pages, DefaultChunkSize, DefaultOverlap, Intended);
  }

  /** `filename.replace('.pdf', '')` turns "name.pdf" into "name" when "name" holds no ".pdf". */
  lemma TitleDropsPdfSuffix(stem: string)
    requires !Contains(stem, PdfSuffix)
    ensures RemoveAll(stem + PdfSuffix, PdfSuffix) == stem
  {
    RemoveAllTrailing(stem, PdfSuffix);
  }

  /** A filename without ".pdf" is its own title. */
  lemma TitleKeepsOtherNames(filename: string)
    requires !Contains(filename, PdfSuffix)
    ensures RemoveAll(filename, PdfSuffix) == filename
  {
    RemoveAllAbsent(filename, PdfSuffix);
  }

  // ---------------------------------------------------------------------------
  // search_documents

  datatype SourceMetadata = SourceMetadata(filename: string, title: string, pageNumber: int, totalPages: int)

  /** The `SearchResult` dataclass. */
  datatype SearchResult = SearchResult(chunk: DocumentChunk, similarityScore: real, sourceMetadata: SourceMetadata)

  function Hit(l: Located, score: real): SearchResult {
    SearchResult(l.chunk, score, SourceMetadata(l.document.filename, l.document.title, l.chunk.pageNumber, l.document.totalPages))
  }

  /**
   * The loop of `search_documents` over the similar chunks: those below the
   * threshold, and those whose chunk no cached document holds, are skipped.
   */
  function Hits(scored: seq<Scored>, docs: seq<Document>, minSimilarity: real): (r: seq<SearchResult>)
    ensures |r| <= |scored|
    decreases |scored|
  {
    if scored == [] then []
    else
      var x := scored[|scored| - 1];
      var found := FindInDocuments(docs, x.chunkId);
      Hits(scored[..|scored| - 1], docs, minSimilarity) +
      (if x.score < minSimilarity || found.None? then [] else [Hit(found.value, x.score)])
  }

  /** `h` is the result built for the similar chunk `x`: it reaches the threshold and its chunk is found. */
  predicate HitOf(x: Scored, docs: seq<Document>, minSimilarity: real, h: SearchResult) {
    x.score >= minSimilarity && FindInDocuments(docs, x.chunkId).Some? &&
    h == Hit(FindInDocuments(docs, x.chunkId).value, x.score)
  }

  predicate HitFrom(scored: seq<Scored>, docs: seq<Document>, minSimilarity: real, h: SearchResult) {
    exists k :: 0 <= k < |scored| && HitOf(scored[k], docs, minSimilarity, h)
  }

  /** The results are exactly the found chunks of the similar chunks that reach the threshold. */
  lemma {:induction false} HitsExact(scored: seq<Scored>, docs: seq<Document>, minSimilarity: real, h: SearchResult)
    ensures h in Hits(scored, docs, minSimilarity) <==> HitFrom(scored, docs, minSimilarity, h)
    decreases |scored|
  {
    if scored != [] {
      var init, x := scored[..|scored| - 1], scored[|scored| - 1];
      HitsExact(init, docs, minSimilarity, h);
      HitsLast(scored, docs, minSimilarity, h);
      HitFromLast(scored, docs, minSimilarity, h);
    }
  }

  lemma HitsLast(scored: seq<Scored>, docs: seq<Document>, minSimilarity: real, h: SearchResult)
    requires scored != []
    ensures h in Hits(scored, docs, minSimilarity) <==>
            h in Hits(scored[..|scored| - 1], docs, minSimilarity) || HitOf(scored[|scored| - 1], docs, minSimilarity, h)
  {
  }

  /** One more similar chunk: the loop of `search_documents` appends its result when it reaches the threshold and is found. */
  lemma HitsStep(scored: seq<Scored>, i: int, docs: seq<Document>, minSimilarity: real)
    requires 0 <= i < |scored|
    ensures Hits(scored[..i + 1], docs, minSimilarity) ==
            Hits(scored[..i], docs, minSimilarity) +
            (if scored[i].score < minSimilarity || FindInDocuments(docs, scored[i].chunkId).None? then []
             else [Hit(FindInDocuments(docs, scored[i].chunkId).value, scored[i].score)])
  {
    assert scored[..i + 1][..i] == scored[..i];
    assert scored[..i + 1][i] == scored[i];
  }

  lemma HitFromLast(scored: seq<Scored>, docs: seq<Document>, minSimilarity: real, h: SearchResult)
    requires scored != []
    ensures HitFrom(scored, docs, minSimilarity, h) <==>
            HitFrom(scored[..|scored| - 1], docs, minSimilarity, h) || HitOf(scored[|scored| - 1], docs, minSimilarity, h)
  {
    var init := scored[..|scored| - 1];
    if HitFrom(scored, docs, minSimilarity, h) {
      var k :| 0 <= k < |scored| && HitOf(scored[k], docs, minSimilarity, h);
      if k < |init| {
        assert init[k] == scored[k];
      }
    }
    if HitFrom(init, docs, minSimilarity, h) {
      var k :| 0 <= k < |init| && HitOf(init[k], docs, minSimilarity, h);
      assert scored[k] == init[k];
    }
  }

  lemma {:induction false} HitsAtLeast(scored: seq<Scored>, docs: seq<Document>, minSimilarity: real, b: real)
    requires AllAtLeast(scored, b)
    ensures forall i :: 0 <= i < |Hits(scored, docs, minSimilarity)| ==> Hits(scored, docs, minSimilarity)[i].similarityScore >= b
    decreases |scored|
  {
    if scored != [] {
      var init := scored[..|scored| - 1];
      assert AllAtLeast(init, b) by {
        forall i | 0 <= i < |init| ensures init[i] == scored[i] { }
      }
      HitsAtLeast(init, docs, minSimilarity, b);
    }
  }

  /** Skipping entries of a list in descending order of similarity leaves it in that order. */
  lemma {:induction false} HitsSorted(scored: seq<Scored>, docs: seq<Document>, minSimilarity: real)
    requires SortedDesc(scored)
    ensures forall i, j :: 0 <= i < j < |Hits(scored, docs, minSimilarity)| ==>
              Hits(scored, docs, minSimilarity)[i].similarityScore >= Hits(scored, docs, minSimilarity)[j].similarityScore
    decreases |scored|
  {
    if scored != [] {
      var init, x := scored[..|scored| - 1], scored[|scored| - 1];
      assert SortedDesc(init) && AllAtLeast(init, x.score) by {
        forall i | 0 <= i < |init| ensures init[i] == scored[i] { }
      }
      HitsSorted(init, docs, minSimilarity);
      HitsAtLeast(init, docs, minSimilarity, x.score);
      var r, a := Hits(scored, docs, minSimilarity), Hits(init, docs, minSimilarity);
      forall i, j | 0 <= i < j < |r| ensures r[i].similarityScore >= r[j].similarityScore {
        assert r[i] == a[i];
        if j < |a| { assert r[j] == a[j]; }
      }
    }
  }

  /** The metadata of a search result is that of the cached document holding its chunk. */
  lemma HitMetadata(docs: seq<Document>, cid: string, score: real)
    requires FindInDocuments(docs, cid).Some?
    ensures exists i, j :: 0 <= i < |docs| && 0 <= j < |docs[i].chunks| &&
              Hit(FindInDocuments(docs, cid).value, score) ==
              SearchResult(docs[i].chunks[j], score,
                           SourceMetadata(docs[i].filename, docs[i].title, docs[i].chunks[j].pageNumber, docs[i].totalPages))
  {
    FindInDocumentsSound(docs, cid);
  }

  /** The loop of `search_documents` that turns similar chunks into search results. */
  method CollectHits(scored: seq<Scored>, docs: seq<Document>, minSimilarity: real) returns (results: seq<SearchResult>)
    ensures results == Hits(scored, docs, minSimilarity)
  {
    results := [];
    for i := 0 to |scored|
      invariant results == Hits(scored[..i], docs, minSimilarity)
    {
      var x := scored[i];
      HitsStep(scored, i, docs, minSimilarity);
      if x.score >= minSimilarity {
        var found := FindChunk(docs, x.chunkId);
        if found.Some? {
          var chunk, document := found.value.chunk, found.value.document;
          results := results + [SearchResult(chunk, x.score,
                                             SourceMetadata(document.filename, document.title, chunk.pageNumber, document.totalPages))];
        }
      }
    }
    assert scored[..|scored|] == scored;
  }

  /**
   * What `search_documents` returns. An encoder that returns no vector for the
   * query, and embeddings whose dimension differs from the query's, raise inside
   * the `try`, whose handler returns an empty list.
   */
  function SearchOutcome(embs: Dict<Vector>, docs: seq<Document>, encode: seq<string> -> seq<Vector>, norm: Vector -> real,
                         query: string, documentId: Option<string>, topK: int, minSimilarity: real): seq<SearchResult>
  {
    var qs := encode([query]);
    if qs == [] || !Comparable(embs, docs, qs[0], documentId) then []
    else Hits(SearchResults(embs, docs, qs[0], norm, topK, documentId), docs, minSimilarity)
  }

  /** At most `topK` results, best first, none below the threshold. */
  lemma SearchOutcomeRanked(embs: Dict<Vector>, docs: seq<Document>, encode: seq<string> -> seq<Vector>, norm: Vector -> real,
                            query: string, documentId: Option<string>, topK: int, minSimilarity: real)
    ensures topK >= 0 ==> |SearchOutcome(embs, docs, encode, norm, query, documentId, topK, minSimilarity)| <= topK
    ensures forall i :: 0 <= i < |SearchOutcome(embs, docs, encode, norm, query, documentId, topK, minSimilarity)| ==>
              SearchOutcome(embs, docs, encode, norm, query, documentId, topK, minSimilarity)[i].similarityScore >= minSimilarity
    ensures forall i, j :: 0 <= i < j < |SearchOutcome(embs, docs, encode, norm, query, documentId, topK, minSimilarity)| ==>
              SearchOutcome(embs, docs, encode, norm, query, documentId, topK, minSimilarity)[i].similarityScore >=
              SearchOutcome(embs, docs, encode, norm, query, documentId, topK, minSimilarity)[j].similarityScore
  {
    var qs := encode([query]);
    if qs != [] && Comparable(embs, docs, qs[0], documentId) {
      var s := SearchResults(embs, docs, qs[0], norm, topK, documentId);
      var r := Hits(s, docs, minSimilarity);
      SearchSorted(embs, docs, qs[0], norm, topK, documentId);
      HitsSorted(s, docs, minSimilarity);
      forall i | 0 <= i < |r| ensures r[i].similarityScore >= minSimilarity {
        assert r[i] in r;
        HitsExact(s, docs, minSimilarity, r[i]);
      }
    }
  }

  /** The default call `search_documents(query)`: at most five results, none scored below 0.01, best first. */
  lemma SearchOutcomeDefaults(embs: Dict<Vector>, docs: seq<Document>, encode: seq<string> -> seq<Vector>, norm: Vector -> real,
                              query: string)
    ensures |SearchOutcome(embs, docs, encode, norm, query, None, DefaultTopK, DefaultMinSimilarity)| <= 5
    ensures forall i :: 0 <= i < |SearchOutcome(embs, docs, encode, norm, query, None, DefaultTopK, DefaultMinSimilarity)| ==>
              SearchOutcome(embs, docs, encode, norm, query, None, DefaultTopK, DefaultMinSimilarity)[i].similarityScore >= 0.01
    ensures forall i, j :: 0 <= i < j < |SearchOutcome(embs, docs, encode, norm, query, None, DefaultTopK, DefaultMinSimilarity)| ==>
              SearchOutcome(embs, docs, encode, norm, query, None, DefaultTopK, DefaultMinSimilarity)[i].similarityScore >=
              SearchOutcome(embs, docs, encode, norm, query, None, DefaultTopK, DefaultMinSimilarity)[j].similarityScore
  {
    SearchOutcomeRanked(embs, docs, encode, norm, query, None, DefaultTopK, DefaultMinSimilarity);
  }

  /**
   * Every result's similarity is that of the query's vector with the stored
   * embedding of the result's chunk, and with a document filter every result's
   * chunk belongs to that document.
   */
  lemma SearchOutcomeSound(embs: Dict<Vector>, docs: seq<Document>, encode: seq<string> -> seq<Vector>, norm: Vector -> real,
                           query: string, documentId: Option<string>, topK: int, minSimilarity: real, i: int)
    requires 0 <= i < |SearchOutcome(embs, docs, encode, norm, query, documentId, topK, minSimilarity)|
    ensures encode([query]) != []
    ensures exists k :: 0 <= k < |embs| && embs[k].key == SearchOutcome(embs, docs, encode, norm, query, documentId, topK, minSimilarity)[i].chunk.id &&
              |embs[k].value| == |encode([query])[0]| &&
              SearchOutcome(embs, docs, encode, norm, query, documentId, topK, minSimilarity)[i].similarityScore ==
              CosineSimilarity(encode([query])[0], embs[k].value, norm)
    ensures Filtering(documentId) ==>
              SearchOutcome(embs, docs, encode, norm, query, documentId, topK, minSimilarity)[i].chunk.documentId == documentId.value
  {
    var qs := encode([query]);
    var s := SearchResults(embs, docs, qs[0], norm, topK, documentId);
    var r := SearchOutcome(embs, docs, encode, norm, query, documentId, topK, minSimilarity);
    assert r[i] in r;
    HitsExact(s, docs, minSimilarity, r[i]);
    var m :| 0 <= m < |s| && HitOf(s[m], docs, minSimilarity, r[i]);
    SearchSound(embs, docs, qs[0], norm, topK, documentId);
    assert ScoredFrom(embs, docs, qs[0], norm, documentId, s[m]);
    var k :| 0 <= k < |embs| && Keeps(docs, embs[k].key, documentId) &&
      s[m] == Scored(embs[k].key, CosineSimilarity(qs[0], embs[k].value, norm));
    assert EntryComparable(embs[k], docs, qs[0], documentId);
  }

  // ---------------------------------------------------------------------------
  // get_document_info, list_documents, health_check

  datatype DocumentInfo = DocumentInfo(id: string, filename: string, title: string, totalPages: int, chunksCount: nat, processedAt: string)

  datatype DocumentSummary = DocumentSummary(id: string, filename: string, title: string, totalPages: int, chunksCount: nat)

  datatype HealthReport = HealthReport(embeddingServiceAvailable: bool, cachedDocuments: nat, totalChunks: nat, cacheDirectory: string)

  function InfoOf(d: Document): DocumentInfo {
    DocumentInfo(d.id, d.filename, d.title, d.totalPages, |d.chunks|, d.processedAt)
  }

  function SummaryOf(d: Document): DocumentSummary {
    DocumentSummary(d.id, d.filename, d.title, d.totalPages, |d.chunks|)
  }

  /** What `get_document_info` returns for the cached `docs`. */
  function DocumentInfoOf(docs: Dict<Document>, id: string): (r: Option<DocumentInfo>)
    ensures r.Some? <==> id in Keys(docs)
  {
    match Get(docs, id)
    case None => None
    case Some(d) => Some(InfoOf(d))
  }

  /** Right after an upload the document's information describes it, with its number of chunks. */
  lemma InfoAfterUpload(docs: Dict<Document>, doc: Document)
    ensures DocumentInfoOf(Put(docs, doc.id, doc), doc.id) ==
            Some(DocumentInfo(doc.id, doc.filename, doc.title, doc.totalPages, |doc.chunks|, doc.processedAt))
  {
    GetPut(docs, doc.id, doc, doc.id);
  }

  /** After a removal there is no information about the document, and that of the others is unchanged. */
  lemma InfoAfterRemove(docs: Dict<Document>, id: string, other: string)
    ensures DocumentInfoOf(Delete(docs, id), id).None?
    ensures other != id ==> DocumentInfoOf(Delete(docs, id), other) == DocumentInfoOf(docs, other)
  {
    GetDelete(docs, id, id);
    GetDelete(docs, id, other);
  }

  /** What `list_documents` returns: one summary per cached document, in the dictionary's order. */
  function Listing(docs: Dict<Document>): seq<DocumentSummary> {
    seq(|docs|, i requires 0 <= i < |docs| => SummaryOf(docs[i].value))
  }

  /** The listing names every cached document exactly once. */
  lemma ListingIds(docs: Dict<Document>)
    requires DocumentsWellFormed(docs)
    ensures forall i, j :: 0 <= i < j < |Listing(docs)| ==> Listing(docs)[i].id != Listing(docs)[j].id
    ensures forall k :: k in Keys(docs) <==> exists i :: 0 <= i < |Listing(docs)| && Listing(docs)[i].id == k
  {
    var l := Listing(docs);
    forall i | 0 <= i < |docs| ensures l[i].id == docs[i].key {
      assert docs[i].key in Keys(docs);
      assert Get(docs, docs[i].key) == Some(docs[i].value) by {
        GetAt(docs, i);
      }
    }
  }

  /** With distinct keys, the entry at index `i` is what `get` finds under its key. */
  lemma {:induction false} GetAt<V>(d: Dict<V>, i: int)
    requires DistinctKeys(d) && 0 <= i < |d|
    ensures Get(d, d[i].key) == Some(d[i].value)
    decreases i
  {
    if i > 0 {
      DistinctTail(d);
      assert d[1..][i - 1] == d[i];
      GetAt(d[1..], i - 1);
    }
  }

  /** A newly uploaded document is listed last. */
  lemma ListingAfterUpload(docs: Dict<Document>, doc: Document)
    requires doc.id !in Keys(docs)
    ensures Listing(Put(docs, doc.id, doc)) == Listing(docs) + [SummaryOf(doc)]
  {
    PutFresh(docs, doc.id, doc);
  }

  /** `sum(len(doc.chunks) for doc in documents.values())`. */
  function TotalChunks(docs: Dict<Document>): nat
    decreases |docs|
  {
    if docs == [] then 0 else |docs[0].value.chunks| + TotalChunks(docs[1..])
  }

  /** Storing a document adds its chunks to the total, minus those of the document it replaces. */
  lemma {:induction false} TotalChunksPut(docs: Dict<Document>, id: string, doc: Document)
    ensures TotalChunks(Put(docs, id, doc)) ==
            TotalChunks(docs) + |doc.chunks| - (if id in Keys(docs) then |Get(docs, id).value.chunks| else 0)
    decreases |docs|
  {
    if docs == [] {
      assert Put(docs, id, doc)[1..] == [];
    } else {
      KeysCons(docs[0], docs[1..]);
      assert docs == [docs[0]] + docs[1..];
      var p := Put(docs, id, doc);
      if docs[0].key == id {
        assert p[1..] == docs[1..];
      } else {
        TotalChunksPut(docs[1..], id, doc);
        assert p[0] == docs[0] && p[1..] == Put(docs[1..], id, doc);
      }
    }
  }

  /** Removing a document takes its chunks off the total. */
  lemma {:induction false} TotalChunksDelete(docs: Dict<Document>, id: string)
    requires DistinctKeys(docs)
    ensures TotalChunks(Delete(docs, id)) == TotalChunks(docs) - (if id in Keys(docs) then |Get(docs, id).value.chunks| else 0)
    decreases |docs|
  {
    if docs != [] {
      KeysCons(docs[0], docs[1..]);
      assert docs == [docs[0]] + docs[1..];
      DistinctTail(docs);
      var p := Delete(docs, id);
      if docs[0].key == id {
        DeleteAbsent(docs[1..], id);
      } else {
        TotalChunksDelete(docs[1..], id);
        assert p[0] == docs[0] && p[1..] == Delete(docs[1..], id);
      }
    }
  }

  // ---------------------------------------------------------------------------
  // The service object

  class RAGService {
    const vectorCache: VectorCache
    /** `EmbeddingService.encode`: the sentence-transformer model, or the hash-based fallback. */
    const encode: seq<string> -> seq<Vector>
    /** `np.linalg.norm`. */
    const norm: Vector -> real

    ghost predicate Valid()
      reads this, vectorCache
    {
      vectorCache.Valid()
    }

    constructor(cacheDir: string, saved: Option<Snapshot>, encode: seq<string> -> seq<Vector>, norm: Vector -> real)
      requires saved.Some? ==> WellFormed(saved.value.documents, saved.value.embeddings)
      ensures Valid() && fresh(vectorCache)
      ensures vectorCache.cacheDir == cacheDir && vectorCache.disk == saved
      ensures this.encode == encode && this.norm == norm
    {
      vectorCache := new VectorCache(cacheDir, saved);
      this.encode := encode;
      this.norm := norm;
    }

    /** Processes the pages and caches the document; the id of the new document, or the processing error. */
    method UploadDocument(filename: string, pages: seq<TextPage>, documentId: string, chunkId: nat -> string, processedAt: string,
                          rule: CutRule)
      returns (r: Result<string, string>)
      modifies vectorCache
      requires Valid()
      ensures Valid()
      ensures pages == [] ==>
                r == Err(NoTextError) &&
                vectorCache.documents == old(vectorCache.documents) && vectorCache.embeddings == old(vectorCache.embeddings) &&
                vectorCache.disk == old(vectorCache.disk)
      ensures pages != [] ==>
                r == Ok(documentId) &&
                vectorCache.documents == Put(old(vectorCache.documents), documentId, Processed(documentId, filename, pages, encode, chunkId, processedAt, rule)) &&
                vectorCache.embeddings == RegisterEmbeddings(old(vectorCache.embeddings), Processed(documentId, filename, pages, encode, chunkId, processedAt, rule).chunks) &&
                vectorCache.disk == Some(Snapshot(vectorCache.documents, vectorCache.embeddings))
    {
      var doc := ProcessDocument(documentId, filename, pages, encode, chunkId, processedAt, rule);
      if doc.Err? {
        return Err(doc.error);
      }
      vectorCache.AddDocument(doc.value);
      return Ok(doc.value.id);
    }

    method SearchDocuments(query: string, documentId: Option<string>, topK: int, minSimilarity: real)
      returns (results: seq<SearchResult>)
      ensures results == SearchOutcome(vectorCache.embeddings, Values(vectorCache.documents), encode, norm, query, documentId, topK, minSimilarity)
    {
      var qs := encode([query]);
      if qs == [] {
        return [];
      }
      var similar := vectorCache.SearchSimilar(qs[0], norm, topK, documentId);
      if similar.Err? {
        return [];
      }
      results := CollectHits(similar.value, Values(vectorCache.documents), minSimilarity);
    }

    method GetDocumentInfo(id: string) returns (r: Option<DocumentInfo>)
      ensures r == DocumentInfoOf(vectorCache.documents, id)
    {
      var document := vectorCache.GetDocument(id);
      if document.None? {
        return None;
      }
      var d := document.value;
      return Some(DocumentInfo(d.id, d.filename, d.title, d.totalPages, |d.chunks|, d.processedAt));
    }

    /** `remove_document` on the cache, which raises nothing the model has. */
    method RemoveDocument(id: string) returns (ok: bool)
      modifies vectorCache
      requires Valid()
      ensures Valid() && ok
      ensures id in Keys(old(vectorCache.documents)) ==>
                vectorCache.documents == Delete(old(vectorCache.documents), id) &&
                vectorCache.embeddings == DropEmbeddings(old(vectorCache.embeddings), Get(old(vectorCache.documents), id).value.chunks) &&
                vectorCache.disk == Some(Snapshot(vectorCache.documents, vectorCache.embeddings))
      ensures id !in Keys(old(vectorCache.documents)) ==>
                vectorCache.documents == old(vectorCache.documents) && vectorCache.embeddings == old(vectorCache.embeddings) &&
                vectorCache.disk == old(vectorCache.disk)
    {
      vectorCache.RemoveDocument(id);
      return true;
    }

    method ListDocuments() returns (r: seq<DocumentSummary>)
      ensures r == Listing(vectorCache.documents)
    {
      var docs := Values(vectorCache.documents);
      r := [];
      for i := 0 to |docs|
        invariant r == Listing(vectorCache.documents)[..i]
      {
        var d := docs[i];
        r := r + [DocumentSummary(d.id, d.filename, d.title, d.totalPages, |d.chunks|)];
      }
    }

    /** The embedding service is always available (it falls back to hash embeddings); counts of cached documents and chunks. */
    method HealthCheck() returns (r: HealthReport)
      requires Valid()
      ensures r.embeddingServiceAvailable
      ensures r.cachedDocuments == |Keys(vectorCache.documents)|
      ensures r.totalChunks == TotalChunks(vectorCache.documents)
      ensures r.cacheDirectory == vectorCache.cacheDir
    {
      DistinctKeysCount(vectorCache.documents);
      var docs := vectorCache.documents;
      return HealthReport(true, |docs|, TotalChunks(docs), vectorCache.cacheDir);
    }
  }
}
