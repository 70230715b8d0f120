/**
 * `VectorCache`: the in-memory store of processed documents and of the
 * embeddings of their chunks, with the cosine-similarity search over them.
 * Both stores are Python dictionaries, modelled as insertion-ordered
 * association lists (module `Dicts`), because the search and the chunk lookup
 * iterate over them in that order.
 */
module VectorStore {
  import opened Base
  import opened Dicts
  import opened Ranking
  import opened PyStr

  type Vector = seq<real>

  /** The `DocumentChunk` dataclass. */
  datatype DocumentChunk = DocumentChunk(
    id: string,
    documentId: string,
    content: string,
    pageNumber: int,
    chunkIndex: int,
    embedding: Option<Vector>)

  /** The `Document` dataclass. */
  datatype Document = Document(
    id: string,
    filename: string,
    title: string,
    totalPages: int,
    chunks: seq<DocumentChunk>,
    processedAt: string)

  /** A chunk together with the document that holds it. */
  datatype Located = Located(chunk: DocumentChunk, document: Document)

  /** `if chunk.embedding:`: the embedding is present and is not an empty list. */
  predicate HasEmbedding(c: DocumentChunk) {
    c.embedding.Some? && c.embedding.value != []
  }

  /** The ids of the chunks that carry an embedding. */
  function EmbeddedIds(chunks: seq<DocumentChunk>): set<string> {
    set j | 0 <= j < |chunks| && HasEmbedding(chunks[j]) :: chunks[j].id
  }

  function ChunkIds(chunks: seq<DocumentChunk>): set<string> {
    set j | 0 <= j < |chunks| :: chunks[j].id
  }

  // ---------------------------------------------------------------------------
  // add_document: one embedding per chunk that has one

  /** The embeddings dictionary after the loop of `add_document` over `chunks`. */
  function RegisterEmbeddings(emb: Dict<Vector>, chunks: seq<DocumentChunk>): Dict<Vector>
    decreases |chunks|
  {
    if chunks == [] then emb
    else
      var e := RegisterEmbeddings(emb, chunks[..|chunks| - 1]);
      var c := chunks[|chunks| - 1];
      if HasEmbedding(c) then Put(e, c.id, c.embedding.value) else e
  }

  /** Exactly the chunks with an embedding gain a key. */
  lemma {:induction false} RegisterKeys(emb: Dict<Vector>, chunks: seq<DocumentChunk>)
    ensures Keys(RegisterEmbeddings(emb, chunks)) == Keys(emb) + EmbeddedIds(chunks)
    decreases |chunks|
  {
    if chunks != [] {
      var init, c := chunks[..|chunks| - 1], chunks[|chunks| - 1];
      RegisterKeys(emb, init);
      assert EmbeddedIds(chunks) == EmbeddedIds(init) + (if HasEmbedding(c) then {c.id} else {}) by {
        forall k | k in EmbeddedIds(chunks) ensures k in EmbeddedIds(init) + (if HasEmbedding(c) then {c.id} else {}) {
          var j :| 0 <= j < |chunks| && HasEmbedding(chunks[j]) && chunks[j].id == k;
          if j < |init| { assert init[j] == chunks[j]; }
        }
        forall k | k in EmbeddedIds(init) ensures k in EmbeddedIds(chunks) {
          var j :| 0 <= j < |init| && HasEmbedding(init[j]) && init[j].id == k;
          assert chunks[j] == init[j];
        }
      }
    }
  }

  lemma {:induction false} RegisterDistinct(emb: Dict<Vector>, chunks: seq<DocumentChunk>)
    requires DistinctKeys(emb)
    ensures DistinctKeys(RegisterEmbeddings(emb, chunks))
    decreases |chunks|
  {
    if chunks != [] {
      var init, c := chunks[..|chunks| - 1], chunks[|chunks| - 1];
      RegisterDistinct(emb, init);
      if HasEmbedding(c) {
        PutDistinct(RegisterEmbeddings(emb, init), c.id, c.embedding.value);
      }
    }
  }

  /** A chunk's embedding is stored under its id unless a later chunk with the same id overwrites it. */
  lemma {:induction false} RegisterStores(emb: Dict<Vector>, chunks: seq<DocumentChunk>, i: int)
    requires 0 <= i < |chunks| && HasEmbedding(chunks[i])
    requires forall j :: i < j < |chunks| ==> chunks[j].id != chunks[i].id
    ensures Get(RegisterEmbeddings(emb, chunks), chunks[i].id) == Some(chunks[i].embedding.value)
    decreases |chunks|
  {
    var init, c := chunks[..|chunks| - 1], chunks[|chunks| - 1];
    if i < |init| {
      assert init[i] == chunks[i];
      RegisterStores(emb, init, i);
      if HasEmbedding(c) {
        GetPut(RegisterEmbeddings(emb, init), c.id, c.embedding.value, chunks[i].id);
      }
    } else {
      GetPut(RegisterEmbeddings(emb, init), c.id, c.embedding.value, chunks[i].id);
    }
  }

  /** Keys of chunks without an embedding, and keys of no chunk at all, keep their old value. */
  lemma {:induction false} RegisterKeepsOthers(emb: Dict<Vector>, chunks: seq<DocumentChunk>, k: string)
    requires k !in EmbeddedIds(chunks)
    ensures Get(RegisterEmbeddings(emb, chunks), k) == Get(emb, k)
    decreases |chunks|
  {
    if chunks != [] {
      var init, c := chunks[..|chunks| - 1], chunks[|chunks| - 1];
      assert k !in EmbeddedIds(init) by {
        forall j | 0 <= j < |init| && HasEmbedding(init[j]) ensures init[j].id != k {
          assert chunks[j] == init[j];
        }
      }
      RegisterKeepsOthers(emb, init, k);
      if HasEmbedding(c) {
        assert c.id != k by { assert chunks[|chunks| - 1] == c; }
        GetPut(RegisterEmbeddings(emb, init), c.id, c.embedding.value, k);
      }
    }
  }

  // ---------------------------------------------------------------------------
  // remove_document: the embeddings of the removed document's chunks

  /** The embeddings dictionary after the loop of `remove_document` over `chunks`. */
  function DropEmbeddings(emb: Dict<Vector>, chunks: seq<DocumentChunk>): Dict<Vector>
    decreases |chunks|
  {
    if chunks == [] then emb
    else
      var e := DropEmbeddings(emb, chunks[..|chunks| - 1]);
      var id := chunks[|chunks| - 1].id;
      if id in Keys(e) then Delete(e, id) else e
  }

  /** The keys of all the document's chunks are gone, and no other key. */
  lemma {:induction false} DropKeys(emb: Dict<Vector>, chunks: seq<DocumentChunk>)
    ensures Keys(DropEmbeddings(emb, chunks)) == Keys(emb) - ChunkIds(chunks)
    decreases |chunks|
  {
    if chunks != [] {
      var init, c := chunks[..|chunks| - 1], chunks[|chunks| - 1];
      DropKeys(emb, init);
      assert ChunkIds(chunks) == ChunkIds(init) + {c.id} by {
        forall k | k in ChunkIds(chunks) ensures k in ChunkIds(init) + {c.id} {
          var j :| 0 <= j < |chunks| && chunks[j].id == k;
          if j < |init| { assert init[j] == chunks[j]; }
        }
        forall k | k in ChunkIds(init) ensures k in ChunkIds(chunks) {
          var j :| 0 <= j < |init| && init[j].id == k;
          assert chunks[j] == init[j];
        }
      }
    }
  }

  /** Embeddings of chunks outside the removed document are untouched. */
  lemma {:induction false} DropKeepsOthers(emb: Dict<Vector>, chunks: seq<DocumentChunk>, k: string)
    requires k !in ChunkIds(chunks)
    ensures Get(DropEmbeddings(emb, chunks), k) == Get(emb, k)
    decreases |chunks|
  {
    if chunks != [] {
      var init, c := chunks[..|chunks| - 1], chunks[|chunks| - 1];
      assert k !in ChunkIds(init) by {
        forall j | 0 <= j < |init| ensures init[j].id != k {
          assert chunks[j] == init[j];
        }
      }
      DropKeepsOthers(emb, init, k);
      assert c.id != k by { assert chunks[|chunks| - 1] == c; }
      GetDelete(DropEmbeddings(emb, init), c.id, k);
    }
  }

  lemma {:induction false} DropDistinct(emb: Dict<Vector>, chunks: seq<DocumentChunk>)
    requires DistinctKeys(emb)
    ensures DistinctKeys(DropEmbeddings(emb, chunks))
    decreases |chunks|
  {
    if chunks != [] {
      DropDistinct(emb, chunks[..|chunks| - 1]);
      DeleteDistinct(DropEmbeddings(emb, chunks[..|chunks| - 1]), chunks[|chunks| - 1].id);
    }
  }

  // ---------------------------------------------------------------------------
  // _get_chunk_by_id and the lookup loop of search_documents: first match

  /** No chunk of `d` has id `cid`. */
  predicate NotIn(d: Document, cid: string) {
    forall j :: 0 <= j < |d.chunks| ==> d.chunks[j].id != cid
  }

  /** The first chunk with id `cid`. */
  function FindInChunks(chunks: seq<DocumentChunk>, cid: string): (r: Option<DocumentChunk>)
    ensures r.None? <==> forall j :: 0 <= j < |chunks| ==> chunks[j].id != cid
    ensures r.Some? ==> r.value.id == cid
    decreases |chunks|
  {
    if chunks == [] then None
    else if chunks[0].id == cid then Some(chunks[0])
    else
      var r := FindInChunks(chunks[1..], cid);
      assert r.None? ==> forall j :: 0 <= j < |chunks| ==> chunks[j].id != cid by {
        if r.None? {
          forall j | 0 <= j < |chunks| ensures chunks[j].id != cid {
            if j > 0 { assert chunks[j] == chunks[1..][j - 1]; }
          }
        }
      }
      assert r.Some? ==> exists j :: 0 <= j < |chunks[1..]| && chunks[1..][j].id == cid;
      r
  }

  /** The first chunk with id `cid` in the first document holding one, with that document. */
  function FindInDocuments(docs: seq<Document>, cid: string): (r: Option<Located>)
    ensures r.None? <==> forall i :: 0 <= i < |docs| ==> NotIn(docs[i], cid)
    ensures r.Some? ==> r.value.chunk.id == cid
    decreases |docs|
  {
    if docs == [] then None
    else
      match FindInChunks(docs[0].chunks, cid)
      case Some(c) => Some(Located(c, docs[0]))
      case None =>
        var r := FindInDocuments(docs[1..], cid);
        assert r.None? ==> forall i :: 0 <= i < |docs| ==> NotIn(docs[i], cid) by {
          if r.None? {
            forall i | 0 <= i < |docs| ensures NotIn(docs[i], cid) {
              if i > 0 { assert docs[i] == docs[1..][i - 1]; }
            }
          }
        }
        assert r.Some? ==> !NotIn(docs[1..][0], cid) || exists i :: 0 <= i < |docs[1..]| && !NotIn(docs[1..][i], cid);
        r
  }

  /** When the first match is chunk `j` of document `i`, the lookup returns that chunk and document. */
  lemma {:induction false} FindInChunksAt(chunks: seq<DocumentChunk>, cid: string, j: int)
    requires 0 <= j < |chunks| && chunks[j].id == cid
    requires forall j' :: 0 <= j' < j ==> chunks[j'].id != cid
    ensures FindInChunks(chunks, cid) == Some(chunks[j])
    decreases j
  {
    if j > 0 {
      FindInChunksAt(chunks[1..], cid, j - 1);
    }
  }

  lemma {:induction false} FindInDocumentsAt(docs: seq<Document>, cid: string, i: int, j: int)
    requires 0 <= i < |docs| && 0 <= j < |docs[i].chunks| && docs[i].chunks[j].id == cid
    requires forall i' :: 0 <= i' < i ==> NotIn(docs[i'], cid)
    requires forall j' :: 0 <= j' < j ==> docs[i].chunks[j'].id != cid
    ensures FindInDocuments(docs, cid) == Some(Located(docs[i].chunks[j], docs[i]))
    decreases i
  {
    if i == 0 {
      FindInChunksAt(docs[0].chunks, cid, j);
    } else {
      assert NotIn(docs[0], cid);
      forall i' | 0 <= i' < i - 1 ensures NotIn(docs[1..][i'], cid) {
        assert docs[1..][i'] == docs[i' + 1];
      }
      FindInDocumentsAt(docs[1..], cid, i - 1, j);
    }
  }

  /** Whatever the lookup returns is a chunk of a document of `docs` and carries the id looked for. */
  lemma {:induction false} FindInDocumentsSound(docs: seq<Document>, cid: string)
    requires FindInDocuments(docs, cid).Some?
    ensures exists i, j :: 0 <= i < |docs| && 0 <= j < |docs[i].chunks| &&
              FindInDocuments(docs, cid) == Some(Located(docs[i].chunks[j], docs[i]))
  {
    var i :| 0 <= i < |docs| && !NotIn(docs[i], cid);
    var i0 := i;
    // the first document holding the id
    while i0 > 0 && exists i' :: 0 <= i' < i0 && !NotIn(docs[i'], cid)
      invariant 0 <= i0 < |docs| && !NotIn(docs[i0], cid)
      decreases i0
    {
      var i' :| 0 <= i' < i0 && !NotIn(docs[i'], cid);
      i0 := i';
    }
    assert forall i' :: 0 <= i' < i0 ==> NotIn(docs[i'], cid);
    var j :| 0 <= j < |docs[i0].chunks| && docs[i0].chunks[j].id == cid;
    var j0 := j;
    while j0 > 0 && exists j' :: 0 <= j' < j0 && docs[i0].chunks[j'].id == cid
      invariant 0 <= j0 < |docs[i0].chunks| && docs[i0].chunks[j0].id == cid
      decreases j0
    {
      var j' :| 0 <= j' < j0 && docs[i0].chunks[j'].id == cid;
      j0 := j';
    }
    FindInDocumentsAt(docs, cid, i0, j0);
  }
  // ---------------------------------------------------------------------------
  // _cosine_similarity

  /** `np.dot` of two vectors of the same dimension. */
  function Dot(a: Vector, b: Vector): real
    requires |a| == |b|
    decreases |a|
  {
    if a == [] then 0.0 else Dot(a[..|a| - 1], b[..|b| - 1]) + a[|a| - 1] * b[|b| - 1]
  }

  lemma {:induction false} DotSymmetric(a: Vector, b: Vector)
    requires |a| == |b|
    ensures Dot(a, b) == Dot(b, a)
    decreases |a|
  {
    if a != [] {
      DotSymmetric(a[..|a| - 1], b[..|b| - 1]);
    }
  }

  /**
   * The cosine of the angle between `a` and `b`, and 0 when either has norm 0.
   * `norm` stands for `np.linalg.norm`, a floating-point square root of `Dot(v, v)`.
   */
  function CosineSimilarity(a: Vector, b: Vector, norm: Vector -> real): real
    requires |a| == |b|
  {
    if norm(a) == 0.0 || norm(b) == 0.0 then 0.0 else Dot(a, b) / (norm(a) * norm(b))
  }

  lemma CosineSymmetric(a: Vector, b: Vector, norm: Vector -> real)
    requires |a| == |b|
    ensures CosineSimilarity(a, b, norm) == CosineSimilarity(b, a, norm)
  {
    DotSymmetric(a, b);
  }

  /** A non-zero vector whose norm squares to its dot product with itself has similarity 1 with itself. */
  lemma CosineSelf(a: Vector, norm: Vector -> real)
    requires Dot(a, a) > 0.0 && norm(a) * norm(a) == Dot(a, a)
    ensures CosineSimilarity(a, a, norm) == 1.0
  {
    var d := Dot(a, a);
    assert norm(a) != 0.0;
    assert CosineSimilarity(a, a, norm) == d / d;
    assert d / d == 1.0;
  }

  // ---------------------------------------------------------------------------
  // search_similar

  /** `if document_id:`: a filter is given and is not the empty string. */
  predicate Filtering(documentId: Option<string>) {
    documentId.Some? && documentId.value != []
  }

  /** Whether the search keeps the embedding stored under `cid`: no filter, or its chunk belongs to the document asked for. */
  predicate Keeps(docs: seq<Document>, cid: string, documentId: Option<string>) {
    !Filtering(documentId) ||
    (FindInDocuments(docs, cid).Some? && FindInDocuments(docs, cid).value.chunk.documentId == documentId.value)
  }

  /**
   * Every embedding the search keeps has the query's dimension: `np.dot` raises on
   * vectors of different lengths, and only kept embeddings reach it.
   */
  predicate Comparable(embs: Dict<Vector>, docs: seq<Document>, query: Vector, documentId: Option<string>) {
    forall i :: 0 <= i < |embs| ==> EntryComparable(embs[i], docs, query, documentId)
  }

  predicate EntryComparable(e: Entry<Vector>, docs: seq<Document>, query: Vector, documentId: Option<string>) {
    Keeps(docs, e.key, documentId) ==> |e.value| == |query|
  }

  /** The `(chunk_id, similarity)` pairs appended by the loop, in the dictionary's order. */
  function Candidates(embs: Dict<Vector>, docs: seq<Document>, query: Vector, norm: Vector -> real,
                      documentId: Option<string>): seq<Scored>
    requires Comparable(embs, docs, query, documentId)
    decreases |embs|
  {
    if embs == [] then []
    else
      var e := embs[|embs| - 1];
      Candidates(embs[..|embs| - 1], docs, query, norm, documentId) +
      (if Keeps(docs, e.key, documentId) then [Scored(e.key, CosineSimilarity(query, e.value, norm))] else [])
  }

  /** `x` is the similarity of the query with a stored embedding the search keeps. */
  predicate ScoredFrom(embs: Dict<Vector>, docs: seq<Document>, query: Vector, norm: Vector -> real,
                       documentId: Option<string>, x: Scored)
    requires Comparable(embs, docs, query, documentId)
  {
    exists i :: 0 <= i < |embs| && Keeps(docs, embs[i].key, documentId) &&
      x == Scored(embs[i].key, CosineSimilarity(query, embs[i].value, norm))
  }

  /** The candidates are exactly the scored embeddings the filter keeps. */
  lemma {:induction false} CandidatesExact(embs: Dict<Vector>, docs: seq<Document>, query: Vector,
                                           norm: Vector -> real, documentId: Option<string>, x: Scored)
    requires Comparable(embs, docs, query, documentId)
    ensures x in Candidates(embs, docs, query, norm, documentId) <==> ScoredFrom(embs, docs, query, norm, documentId, x)
    decreases |embs|
  {
    if embs != [] {
      var init, e := embs[..|embs| - 1], embs[|embs| - 1];
      CandidatesExact(init, docs, query, norm, documentId, x);
      if ScoredFrom(embs, docs, query, norm, documentId, x) {
        var i :| 0 <= i < |embs| && Keeps(docs, embs[i].key, documentId) &&
          x == Scored(embs[i].key, CosineSimilarity(query, embs[i].value, norm));
        if i < |init| {
          assert init[i] == embs[i];
        }
      }
      if ScoredFrom(init, docs, query, norm, documentId, x) {
        var i :| 0 <= i < |init| && Keeps(docs, init[i].key, documentId) &&
          x == Scored(init[i].key, CosineSimilarity(query, init[i].value, norm));
        assert embs[i] == init[i];
      }
    }
  }

  /** One more entry of the dictionary: the loop of `search_similar` appends its score when it is kept. */
  lemma CandidatesStep(embs: Dict<Vector>, i: int, docs: seq<Document>, query: Vector, norm: Vector -> real,
                       documentId: Option<string>)
    requires 0 <= i < |embs| && Comparable(embs[..i], docs, query, documentId)
    requires EntryComparable(embs[i], docs, query, documentId)
    ensures Comparable(embs[..i + 1], docs, query, documentId)
    ensures Candidates(embs[..i + 1], docs, query, norm, documentId) ==
            Candidates(embs[..i], docs, query, norm, documentId) +
            (if Keeps(docs, embs[i].key, documentId) then [Scored(embs[i].key, CosineSimilarity(query, embs[i].value, norm))] else [])
  {
    assert embs[..i + 1][..i] == embs[..i];
    assert embs[..i + 1][i] == embs[i];
  }

  /** A kept entry of the wrong dimension makes the whole dictionary incomparable with the query. */
  lemma NotComparable(embs: Dict<Vector>, i: int, docs: seq<Document>, query: Vector, documentId: Option<string>)
    requires 0 <= i < |embs| && Keeps(docs, embs[i].key, documentId) && |embs[i].value| != |query|
    ensures !Comparable(embs, docs, query, documentId)
  {
  }

  /** What `search_similar` returns. */
  function SearchResults(embs: Dict<Vector>, docs: seq<Document>, query: Vector, norm: Vector -> real,
                         topK: int, documentId: Option<string>): seq<Scored>
    requires Comparable(embs, docs, query, documentId)
  {
    if embs == [] then [] else PyPrefix(SortDesc(Candidates(embs, docs, query, norm, documentId)), topK)
  }
  /** All kept candidates, best first. */
  function Ranked(embs: Dict<Vector>, docs: seq<Document>, query: Vector, norm: Vector -> real,
                  documentId: Option<string>): seq<Scored>
    requires Comparable(embs, docs, query, documentId)
  {
    SortDesc(Candidates(embs, docs, query, norm, documentId))
  }

  lemma SearchIsPrefix(embs: Dict<Vector>, docs: seq<Document>, query: Vector, norm: Vector -> real,
                       topK: int, documentId: Option<string>)
    requires Comparable(embs, docs, query, documentId)
    ensures SearchResults(embs, docs, query, norm, topK, documentId) <= Ranked(embs, docs, query, norm, documentId)
  {
  }

  /** The results are in descending order of similarity. */
  lemma SearchSorted(embs: Dict<Vector>, docs: seq<Document>, query: Vector, norm: Vector -> real,
                     topK: int, documentId: Option<string>)
    requires Comparable(embs, docs, query, documentId)
    ensures SortedDesc(SearchResults(embs, docs, query, norm, topK, documentId))
  {
    var r, all := SearchResults(embs, docs, query, norm, topK, documentId), Ranked(embs, docs, query, norm, documentId);
    SortDescSorted(Candidates(embs, docs, query, norm, documentId));
    SearchIsPrefix(embs, docs, query, norm, topK, documentId);
    forall i, j | 0 <= i < j < |r| ensures r[i].score >= r[j].score {
      assert r[i] == all[i] && r[j] == all[j];
    }
  }

  /**
   * Every result is the similarity of the query with a stored embedding, and with a
   * document filter every result's chunk belongs to that document.
   */
  lemma SearchSound(embs: Dict<Vector>, docs: seq<Document>, query: Vector, norm: Vector -> real,
                    topK: int, documentId: Option<string>)
    requires Comparable(embs, docs, query, documentId)
    ensures forall k :: 0 <= k < |SearchResults(embs, docs, query, norm, topK, documentId)| ==>
              ScoredFrom(embs, docs, query, norm, documentId, SearchResults(embs, docs, query, norm, topK, documentId)[k])
    ensures Filtering(documentId) ==>
              forall k :: 0 <= k < |SearchResults(embs, docs, query, norm, topK, documentId)| ==>
                FindInDocuments(docs, SearchResults(embs, docs, query, norm, topK, documentId)[k].chunkId).Some? &&
                FindInDocuments(docs, SearchResults(embs, docs, query, norm, topK, documentId)[k].chunkId).value.chunk.documentId
                  == documentId.value
  {
    var r, all := SearchResults(embs, docs, query, norm, topK, documentId), Ranked(embs, docs, query, norm, documentId);
    var c := Candidates(embs, docs, query, norm, documentId);
    SortDescPermutes(c);
    SearchIsPrefix(embs, docs, query, norm, topK, documentId);
    forall k | 0 <= k < |r| ensures ScoredFrom(embs, docs, query, norm, documentId, r[k]) {
      assert r[k] == all[k];
      assert all[k] in multiset(c);
      CandidatesExact(embs, docs, query, norm, documentId, r[k]);
    }
  }

  /** As many results as asked for when there are enough candidates, and all of them otherwise. */
  lemma SearchCount(embs: Dict<Vector>, docs: seq<Document>, query: Vector, norm: Vector -> real,
                    topK: int, documentId: Option<string>)
    requires Comparable(embs, docs, query, documentId)
    ensures topK >= 0 ==>
              |SearchResults(embs, docs, query, norm, topK, documentId)| ==
              (if topK < |Candidates(embs, docs, query, norm, documentId)| then topK
               else |Candidates(embs, docs, query, norm, documentId)|)
  {
  }

  /**
   * The results are the best candidates: none of the candidates left out scores higher
   * than a result, and results and left-out candidates together are exactly the candidates.
   */
  lemma SearchTopK(embs: Dict<Vector>, docs: seq<Document>, query: Vector, norm: Vector -> real,
                   topK: int, documentId: Option<string>)
    requires Comparable(embs, docs, query, documentId)
    ensures forall i, j :: 0 <= i < |SearchResults(embs, docs, query, norm, topK, documentId)| <= j < |Ranked(embs, docs, query, norm, documentId)| ==>
              SearchResults(embs, docs, query, norm, topK, documentId)[i].score >= Ranked(embs, docs, query, norm, documentId)[j].score
    ensures multiset(SearchResults(embs, docs, query, norm, topK, documentId)) +
            multiset(Ranked(embs, docs, query, norm, documentId)[|SearchResults(embs, docs, query, norm, topK, documentId)|..])
              == multiset(Candidates(embs, docs, query, norm, documentId))
  {
    var r, all := SearchResults(embs, docs, query, norm, topK, documentId), Ranked(embs, docs, query, norm, documentId);
    var c := Candidates(embs, docs, query, norm, documentId);
    SortDescPermutes(c);
    SortDescSorted(c);
    SearchIsPrefix(embs, docs, query, norm, topK, documentId);
    SortedPrefixBest(r, all, c);
  }

  /** Among results with equal similarity the dictionary's order survives (Python's sort is stable). */
  lemma SearchTiesInStoreOrder(embs: Dict<Vector>, docs: seq<Document>, query: Vector, norm: Vector -> real,
                               topK: int, documentId: Option<string>, v: real)
    requires Comparable(embs, docs, query, documentId)
    ensures WithScore(SearchResults(embs, docs, query, norm, topK, documentId), v) <=
            WithScore(Candidates(embs, docs, query, norm, documentId), v)
  {
    var r, all := SearchResults(embs, docs, query, norm, topK, documentId), Ranked(embs, docs, query, norm, documentId);
    SearchIsPrefix(embs, docs, query, norm, topK, documentId);
    assert all == r + all[|r|..];
    WithScoreAppend(r, all[|r|..], v);
    SortDescStable(Candidates(embs, docs, query, norm, documentId), v);
  }
  // ---------------------------------------------------------------------------
  // add_document followed by remove_document

  /**
   * Adding a document with a fresh id whose chunk ids are not yet stored, then removing it,
   * gives back every lookup of both dictionaries.
   */
  lemma AddRemoveRoundTrip(docs: Dict<Document>, emb: Dict<Vector>, doc: Document, k: string)
    requires doc.id !in Keys(docs)
    requires forall j :: 0 <= j < |doc.chunks| ==> doc.chunks[j].id !in Keys(emb)
    ensures Get(Delete(Put(docs, doc.id, doc), doc.id), k) == Get(docs, k)
    ensures Get(DropEmbeddings(RegisterEmbeddings(emb, doc.chunks), doc.chunks), k) == Get(emb, k)
  {
    GetDelete(Put(docs, doc.id, doc), doc.id, k);
    GetPut(docs, doc.id, doc, k);
    var after := RegisterEmbeddings(emb, doc.chunks);
    if k in ChunkIds(doc.chunks) {
      DropKeys(after, doc.chunks);
    } else {
      DropKeepsOthers(after, doc.chunks, k);
      assert k !in EmbeddedIds(doc.chunks);
      RegisterKeepsOthers(emb, doc.chunks, k);
    }
  }

  // ---------------------------------------------------------------------------
  // The cache object

  /** What `_save_cache` pickles to `rag_cache.pkl` and `_load_cache` reads back. */
  datatype Snapshot = Snapshot(documents: Dict<Document>, embeddings: Dict<Vector>)

  /** Dictionary keys are unique and every document is stored under its own id. */
  ghost predicate WellFormed(documents: Dict<Document>, embeddings: Dict<Vector>) {
    DocumentsWellFormed(documents) && DistinctKeys(embeddings)
  }

  ghost predicate DocumentsWellFormed(documents: Dict<Document>) {
    DistinctKeys(documents) && forall k :: k in Keys(documents) ==> Get(documents, k).value.id == k
  }

  /** Storing a document under its own id keeps the dictionaries well formed, and finds it again. */
  lemma PutDocumentWellFormed(documents: Dict<Document>, embeddings: Dict<Vector>, doc: Document)
    requires WellFormed(documents, embeddings)
    ensures WellFormed(Put(documents, doc.id, doc), embeddings)
    ensures Get(Put(documents, doc.id, doc), doc.id) == Some(doc)
  {
    var p := Put(documents, doc.id, doc);
    PutDistinct(documents, doc.id, doc);
    forall k | k in Keys(p) ensures Get(p, k).value.id == k {
      GetPut(documents, doc.id, doc, k);
      if k != doc.id {
        assert k in Keys(documents);
        assert Get(p, k) == Get(documents, k);
      }
    }
    GetPut(documents, doc.id, doc, doc.id);
  }

  lemma RegisterWellFormed(documents: Dict<Document>, embeddings: Dict<Vector>, chunks: seq<DocumentChunk>)
    requires WellFormed(documents, embeddings)
    ensures WellFormed(documents, RegisterEmbeddings(embeddings, chunks))
  {
    RegisterDistinct(embeddings, chunks);
  }

  /** Removing a document and its chunks' embeddings keeps the dictionaries well formed. */
  lemma RemoveWellFormed(documents: Dict<Document>, embeddings: Dict<Vector>, id: string, chunks: seq<DocumentChunk>)
    requires WellFormed(documents, embeddings)
    ensures WellFormed(Delete(documents, id), DropEmbeddings(embeddings, chunks))
    ensures Get(Delete(documents, id), id).None?
  {
    DropDistinct(embeddings, chunks);
    DeleteDistinct(documents, id);
    forall k | k in Keys(Delete(documents, id)) ensures Get(Delete(documents, id), k).value.id == k {
      GetDelete(documents, id, k);
    }
    GetDelete(documents, id, id);
  }

  /**
   * The nested loop over `documents.values()` and each document's chunks that both
   * `_get_chunk_by_id` and `search_documents` run: the first chunk with id `cid`.
   */
  method FindChunk(docs: seq<Document>, cid: string) returns (r: Option<Located>)
    ensures r == FindInDocuments(docs, cid)
  {
    for i := 0 to |docs|
      invariant forall i' :: 0 <= i' < i ==> NotIn(docs[i'], cid)
    {
      var chunks := docs[i].chunks;
      for j := 0 to |chunks|
        invariant forall j' :: 0 <= j' < j ==> chunks[j'].id != cid
      {
        if chunks[j].id == cid {
          FindInDocumentsAt(docs, cid, i, j);
          return Some(Located(chunks[j], docs[i]));
        }
      }
    }
    return None;
  }

  class VectorCache {
    var documents: Dict<Document>
    var embeddings: Dict<Vector>
    /** The contents of `rag_cache.pkl`, `None` when there is no such file. */
    var disk: Option<Snapshot>
    const cacheDir: string

    ghost predicate Valid()
      reads this
    {
      WellFormed(documents, embeddings)
    }

    /** Starts from the saved cache when one can be read, and empty otherwise. */
    constructor(cacheDir: string, saved: Option<Snapshot>)
      requires saved.Some? ==> WellFormed(saved.value.documents, saved.value.embeddings)
      ensures Valid()
      ensures this.cacheDir == cacheDir && disk == saved
      ensures saved.Some? ==> documents == saved.value.documents && embeddings == saved.value.embeddings
      ensures saved.None? ==> documents == [] && embeddings == []
    {
      this.cacheDir := cacheDir;
      disk := saved;
      if saved.Some? {
        documents := saved.value.documents;
        embeddings := saved.value.embeddings;
      } else {
        documents := [];
        embeddings := [];
      }
    }

    method Save()
      modifies this
      ensures disk == Some(Snapshot(documents, embeddings))
      ensures documents == old(documents) && embeddings == old(embeddings)
    {
      disk := Some(Snapshot(documents, embeddings));
    }

    method AddDocument(doc: Document)
      modifies this
      requires Valid()
      ensures Valid()
      ensures documents == Put(old(documents), doc.id, doc)
      ensures embeddings == RegisterEmbeddings(old(embeddings), doc.chunks)
      ensures disk == Some(Snapshot(documents, embeddings))
      ensures GetDocument(doc.id) == Some(doc)
    {
      ghost var docs0, emb0 := documents, embeddings;
      documents := Put(documents, doc.id, doc);
      for i := 0 to |doc.chunks|
        invariant documents == Put(docs0, doc.id, doc)
        invariant embeddings == RegisterEmbeddings(emb0, doc.chunks[..i])
      {
        var chunk := doc.chunks[i];
        assert doc.chunks[..i + 1][..i] == doc.chunks[..i];
        if HasEmbedding(chunk) {
          embeddings := Put(embeddings, chunk.id, chunk.embedding.value);
        }
      }
      assert doc.chunks[..|doc.chunks|] == doc.chunks;
      PutDocumentWellFormed(docs0, emb0, doc);
      RegisterWellFormed(documents, emb0, doc.chunks);
      Save();
    }

    /** `documents.get(document_id)`. */
    function GetDocument(id: string): (r: Option<Document>)
      reads this
      ensures r.Some? <==> id in Keys(documents)
      ensures Valid() && r.Some? ==> r.value.id == id
    {
      Get(documents, id)
    }

    method GetChunkById(cid: string) returns (r: Option<DocumentChunk>)
      ensures r.Some? <==> FindInDocuments(Values(documents), cid).Some?
      ensures r.Some? ==> r.value == FindInDocuments(Values(documents), cid).value.chunk
    {
      var found := FindChunk(Values(documents), cid);
      if found.Some? {
        r := Some(found.value.chunk);
      } else {
        r := None;
      }
    }

    /**
     * The `topK` chunk ids most similar to `query` with their similarities, best first;
     * an error when a kept embedding's dimension differs from the query's.
     */
    method SearchSimilar(query: Vector, norm: Vector -> real, topK: int, documentId: Option<string>)
      returns (r: Result<seq<Scored>, string>)
      ensures r.Ok? <==> Comparable(embeddings, Values(documents), query, documentId)
      ensures r.Ok? ==> r.value == SearchResults(embeddings, Values(documents), query, norm, topK, documentId)
    {
      if embeddings == [] {
        return Ok([]);
      }
      var docs := Values(documents);
      var candidates := [];
      for i := 0 to |embeddings|
        invariant Comparable(embeddings[..i], docs, query, documentId)
        invariant candidates == Candidates(embeddings[..i], docs, query, norm, documentId)
      {
        var e := embeddings[i];
        var keep := true;
        if documentId.Some? && documentId.value != [] {
          var found := FindChunk(docs, e.key);
          keep := found.Some? && found.value.chunk.documentId == documentId.value;
        }
        assert keep == Keeps(docs, e.key, documentId);
        if keep && |e.value| != |query| {
          NotComparable(embeddings, i, docs, query, documentId);
          return Err("shapes not aligned");
        }
        CandidatesStep(embeddings, i, docs, query, norm, documentId);
        if keep {
          candidates := candidates + [Scored(e.key, CosineSimilarity(query, e.value, norm))];
        }
      }
      assert embeddings[..|embeddings|] == embeddings;
      return Ok(PyPrefix(SortDesc(candidates), topK));
    }

    method RemoveDocument(id: string)
      modifies this
      requires Valid()
      ensures Valid()
      ensures id in Keys(old(documents)) ==>
                documents == Delete(old(documents), id) &&
                embeddings == DropEmbeddings(old(embeddings), Get(old(documents), id).value.chunks) &&
                disk == Some(Snapshot(documents, embeddings))
      ensures id !in Keys(old(documents)) ==>
                documents == old(documents) && embeddings == old(embeddings) && disk == old(disk)
      ensures GetDocument(id).None?
    {
      if id !in Keys(documents) {
        return;
      }
      var doc := Get(documents, id).value;
      ghost var emb0 := embeddings;
      for i := 0 to |doc.chunks|
        invariant documents == old(documents)
        invariant embeddings == DropEmbeddings(emb0, doc.chunks[..i])
      {
        var cid := doc.chunks[i].id;
        assert doc.chunks[..i + 1][..i] == doc.chunks[..i];
        if cid in Keys(embeddings) {
          embeddings := Delete(embeddings, cid);
        }
      }
      assert doc.chunks[..|doc.chunks|] == doc.chunks;
      RemoveWellFormed(documents, emb0, id, doc.chunks);
      documents := Delete(documents, id);
      Save();
    }

    /** Empties both dictionaries and deletes the cache file. */
    method ClearCache()
      modifies this
      ensures Valid()
      ensures documents == [] && embeddings == [] && disk == None
    {
      documents := [];
      embeddings := [];
      disk := None;
    }
  }
}
