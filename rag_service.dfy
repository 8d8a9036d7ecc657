/**
 * The retrieval service: reading the first pages of a PDF, recreating a
 * collection, embedding chunks in batches of ten and storing them under the
 * ids "chunk_0", "chunk_1", …, looking up the chunks nearest to a question,
 * and joining them into the answer context.
 *
 * The embedding model is a parameter from a list of texts to a list of
 * vectors (or an error); the page texts of the PDF, the text splitter and the
 * similarity search are parameters too.
 */
module RagService {
  import opened Text
  import opened Wrappers
  import opened ChromaStore
  import GeminiService

  /** `settings.MAX_PAGES_RAG`. */
  const MaxPagesRag: nat := 5
  /** `settings.CHUNK_SIZE` and `settings.CHUNK_OVERLAP`, handed to the text splitter. */
  const ChunkSize: nat := 1500
  const ChunkOverlap: nat := 300

  const EmbeddingBatchSize: nat := 10
  /** The `n_results` default of `query_collection`. */
  const DefaultQueryResults: nat := 3

  /** The embedding model: one vector per text, in order, or an error. */
  type Embedder = seq<string> -> Result<seq<Vector>, string>

  // ---------------------------------------------------------------------------
  // extract_text_from_pdf
  // ---------------------------------------------------------------------------

  /**
   * How many pages `range(min(max_pages or len(doc), len(doc)))` visits: `None`
   * and 0 both mean the whole document, and a negative value visits none.
   */
  function PagesToProcess(pageCount: nat, maxPages: Option<int>): (r: nat)
    ensures r <= pageCount
    ensures maxPages.None? || maxPages == Some(0) ==> r == pageCount
    ensures maxPages.Some? && 0 < maxPages.value <= pageCount ==> r == maxPages.value
    ensures maxPages.Some? && maxPages.value >= pageCount ==> r == pageCount
    ensures maxPages.Some? && maxPages.value < 0 ==> r == 0
  {
    var requested := if maxPages.None? || maxPages.value == 0 then pageCount else maxPages.value;
    var count := Min(requested, pageCount);
    if count < 0 then 0 else count
  }

  /** The page loop of `extract_text_from_pdf`: the texts of the pages it visits, in page order. */
  method ExtractTextFromPdf(pages: seq<string>, maxPages: Option<int>) returns (text: string)
    ensures text == Concat(pages[..PagesToProcess(|pages|, maxPages)])
  {
    var count := PagesToProcess(|pages|, maxPages);
    text := "";
    var pageNum := 0;
    while pageNum < count
      invariant pageNum <= count
      invariant text == Concat(pages[..pageNum])
    {
      assert pages[..pageNum + 1][..pageNum] == pages[..pageNum];
      text := text + pages[pageNum];
      pageNum := pageNum + 1;
    }
  }

  /** Pages after the first `maxPages` never reach the text. */
  lemma ExtractionIgnoresLaterPages(pages: seq<string>, later: seq<string>, maxPages: nat)
    requires |pages| == maxPages > 0
    ensures Concat((pages + later)[..PagesToProcess(|pages + later|, Some(maxPages))]) == Concat(pages)
  {
    assert (pages + later)[..maxPages] == pages;
  }

  /**
   * A limit that visits fewer pages reads a prefix of the text a larger one
   * reads; with `more == None` the larger text is the whole document's.
   */
  lemma {:induction false} ExtractedTextIsPrefix(pages: seq<string>, fewer: Option<int>, more: Option<int>)
    requires PagesToProcess(|pages|, fewer) <= PagesToProcess(|pages|, more)
    ensures StartsWith(Concat(pages[..PagesToProcess(|pages|, more)]), Concat(pages[..PagesToProcess(|pages|, fewer)]))
  {
    var k1 := PagesToProcess(|pages|, fewer);
    var k2 := PagesToProcess(|pages|, more);
    assert pages[..k2] == pages[..k1] + pages[k1..k2];
    ConcatAppend(pages[..k1], pages[k1..k2]);
  }

  // ---------------------------------------------------------------------------
  // add_documents_to_collection: the embedding batches
  // ---------------------------------------------------------------------------

  /** How many times `range(0, n, 10)` runs: ceil(n / 10). */
  function BatchCount(n: nat): nat {
    (n + 9) / 10
  }

  /** `chunks[10 * j:10 * j + 10]`. */
  function Batch(chunks: seq<string>, j: nat): (b: seq<string>)
    requires j < BatchCount(|chunks|)
    ensures 1 <= |b| <= 10
  {
    chunks[10 * j..Min(10 * j + 10, |chunks|)]
  }

  /** The batches the embedding loop sends, in order. */
  function Batches(chunks: seq<string>): (r: seq<seq<string>>)
    ensures |r| == BatchCount(|chunks|)
    ensures forall j :: 0 <= j < |r| ==> 1 <= |r[j]| <= 10
  {
    seq(BatchCount(|chunks|), j requires 0 <= j < BatchCount(|chunks|) => Batch(chunks, j))
  }

  lemma {:induction false} BatchesPrefixCover(chunks: seq<string>, j: nat)
    requires j <= BatchCount(|chunks|)
    ensures Concat(Batches(chunks)[..j]) == chunks[..Min(10 * j, |chunks|)]
  {
    if j > 0 {
      var bs := Batches(chunks);
      BatchesPrefixCover(chunks, j - 1);
      assert bs[..j][..j - 1] == bs[..j - 1];
      assert chunks[..10 * (j - 1)] + chunks[10 * (j - 1)..Min(10 * j, |chunks|)] == chunks[..Min(10 * j, |chunks|)];
    }
  }

  /** The batches cover the chunks exactly once, in order. */
  lemma BatchesCover(chunks: seq<string>)
    ensures Concat(Batches(chunks)) == chunks
  {
    var bs := Batches(chunks);
    BatchesPrefixCover(chunks, |bs|);
    assert bs[..|bs|] == bs;
  }

  /** The vectors for a list of batches, embedded one call per batch; the first failing call ends it. */
  function EmbedBatches(embed: Embedder, batches: seq<seq<string>>): Result<seq<Vector>, string>
    decreases |batches|
  {
    if batches == [] then Success([])
    else
      match EmbedBatches(embed, batches[..|batches| - 1])
      case Failure(e) => Failure(e)
      case Success(vectors) =>
        match embed(batches[|batches| - 1])
        case Failure(e) => Failure(e)
        case Success(more) => Success(vectors + more)
  }

  /** Once a prefix of the batches fails, so does the whole run, with the same error. */
  lemma {:induction false} EmbedBatchesFailureStays(embed: Embedder, batches: seq<seq<string>>, k: nat)
    requires k <= |batches|
    requires EmbedBatches(embed, batches[..k]).Failure?
    ensures EmbedBatches(embed, batches) == EmbedBatches(embed, batches[..k])
    decreases |batches| - k
  {
    if k < |batches| {
      var next := batches[..k + 1];
      assert next[..k] == batches[..k];
      EmbedBatchesFailureStays(embed, batches, k + 1);
    } else {
      assert batches[..k] == batches;
    }
  }

  /**
   * The embedding loop of `add_documents_to_collection`: one call per batch of
   * ten, the vectors extended in order; a failing call propagates. `calls` are
   * the batches sent.
   */
  method EmbedInBatches(chunks: seq<string>, embed: Embedder) returns (r: Result<seq<Vector>, string>, ghost calls: seq<seq<string>>)
    ensures r == EmbedBatches(embed, Batches(chunks))
    ensures calls <= Batches(chunks)
    ensures r.Success? ==> calls == Batches(chunks)
  {
    ghost var bs := Batches(chunks);
    var embeddings: seq<Vector> := [];
    calls := [];
    var i := 0;
    ghost var j := 0;
    while i < |chunks|
      invariant j <= |bs| && i == 10 * j
      invariant i < |chunks| ==> j < |bs|
      invariant i >= |chunks| ==> j == |bs|
      invariant calls == bs[..j]
      invariant EmbedBatches(embed, bs[..j]) == Success(embeddings)
    {
      var batch := chunks[i..Min(i + 10, |chunks|)];
      assert batch == bs[j];
      assert bs[..j + 1][..j] == bs[..j];
      var response := embed(batch);
      calls := calls + [batch];
      if response.Failure? {
        EmbedBatchesFailureStays(embed, bs, j + 1);
        r := Failure(response.error);
        return;
      }
      embeddings := embeddings + response.value;
      i := i + 10;
      j := j + 1;
    }
    assert bs[..j] == bs;
    r := Success(embeddings);
  }

  /** `[embed_one(t) for t in texts]`. */
  function EmbedEach(embedOne: string -> Vector, texts: seq<string>): (r: seq<Vector>)
    ensures |r| == |texts|
  {
    seq(|texts|, i requires 0 <= i < |texts| => embedOne(texts[i]))
  }

  lemma {:induction false} EmbedBatchesPerText(embed: Embedder, embedOne: string -> Vector, batches: seq<seq<string>>)
    requires forall texts :: embed(texts) == Success(EmbedEach(embedOne, texts))
    ensures EmbedBatches(embed, batches) == Success(EmbedEach(embedOne, Concat(batches)))
    decreases |batches|
  {
    if batches != [] {
      var init := batches[..|batches| - 1];
      var last := batches[|batches| - 1];
      EmbedBatchesPerText(embed, embedOne, init);
      assert embed(last) == Success(EmbedEach(embedOne, last));
      assert EmbedEach(embedOne, Concat(init)) + EmbedEach(embedOne, last) == EmbedEach(embedOne, Concat(init) + last);
    }
  }

  /**
   * When the model returns one vector per text, the loop yields exactly one
   * vector per chunk: `embeddings[j]` is the vector of `chunks[j]`.
   */
  lemma AlignedEmbeddings(chunks: seq<string>, embed: Embedder, embedOne: string -> Vector)
    requires forall texts :: embed(texts) == Success(EmbedEach(embedOne, texts))
    ensures EmbedBatches(embed, Batches(chunks)).Success?
    ensures |EmbedBatches(embed, Batches(chunks)).value| == |chunks|
    ensures forall j :: 0 <= j < |chunks| ==> EmbedBatches(embed, Batches(chunks)).value[j] == embedOne(chunks[j])
  {
    EmbedBatchesPerText(embed, embedOne, Batches(chunks));
    BatchesCover(chunks);
  }

  // ---------------------------------------------------------------------------
  // add_documents_to_collection: ids and the store
  // ---------------------------------------------------------------------------

  /** `[f"chunk_{i}" for i in range(n)]`. */
  function ChunkIds(n: nat): (r: seq<string>)
    ensures |r| == n
    ensures forall i :: 0 <= i < n ==> r[i] == "chunk_" + NatToString(i)
  {
    seq(n, i requires 0 <= i < n => "chunk_" + NatToString(i))
  }

  /** The ids are pairwise distinct. */
  lemma ChunkIdsDistinct(n: nat, i: nat, j: nat)
    requires i < n && j < n && i != j
    ensures ChunkIds(n)[i] != ChunkIds(n)[j]
  {
    var ids := ChunkIds(n);
    if ids[i] == ids[j] {
      assert ids[i][6..] == NatToString(i);
      assert ids[j][6..] == NatToString(j);
      NatToStringInjective(i, j);
    }
  }

  /**
   * `add_documents_to_collection`: embed every batch first, then add the chunks,
   * their vectors and the ids "chunk_0", "chunk_1", … in one call.
   */
  function AddDocuments(m: Store, name: string, chunks: seq<string>, embed: Embedder): (r: (Result<(), string>, Store))
    ensures EmbedBatches(embed, Batches(chunks)).Failure? ==> r == (Failure(EmbedBatches(embed, Batches(chunks)).error), m)
    ensures r.0.Failure? ==> r.1 == m
    ensures r.0.Success? ==> name in m && r.1.Keys == m.Keys
    ensures EmbedBatches(embed, Batches(chunks)).Success? ==>
              r == AddRecords(m, name, chunks, EmbedBatches(embed, Batches(chunks)).value, ChunkIds(|chunks|))
  {
    match EmbedBatches(embed, Batches(chunks))
    case Failure(e) => (Failure(e), m)
    case Success(vectors) => AddRecords(m, name, chunks, vectors, ChunkIds(|chunks|))
  }

  /**
   * With one vector per text, adding to an existing collection succeeds and
   * appends, for each chunk in order, the record ("chunk_<j>", chunk, its vector).
   */
  lemma AddDocumentsAligned(m: Store, name: string, chunks: seq<string>, embed: Embedder, embedOne: string -> Vector)
    requires name in m && chunks != []
    requires forall texts :: embed(texts) == Success(EmbedEach(embedOne, texts))
    ensures AddDocuments(m, name, chunks, embed).0.Success?
    ensures AddDocuments(m, name, chunks, embed).1[name] ==
              m[name] + seq(|chunks|, j requires 0 <= j < |chunks| => Record("chunk_" + NatToString(j), chunks[j], embedOne(chunks[j])))
  {
    AlignedEmbeddings(chunks, embed, embedOne);
    var r := AddDocuments(m, name, chunks, embed);
    var added := seq(|chunks|, j requires 0 <= j < |chunks| => Record("chunk_" + NatToString(j), chunks[j], embedOne(chunks[j])));
    assert r.1[name] == r.1[name][..|m[name]|] + r.1[name][|m[name]|..];
    assert r.1[name][|m[name]|..] == added;
  }

  /** `add_documents_to_collection` on the client: the store changes only through one `add`, after all embeddings. */
  method AddDocumentsToCollection(client: Client, name: string, chunks: seq<string>, embed: Embedder) returns (r: Result<(), string>)
    modifies client
    ensures (r, client.collections) == AddDocuments(old(client.collections), name, chunks, embed)
  {
    var embeddings, calls := EmbedInBatches(chunks, embed);
    if embeddings.Failure? {
      r := Failure(embeddings.error);
      return;
    }
    r := client.Add(name, chunks, embeddings.value, ChunkIds(|chunks|));
  }

  // ---------------------------------------------------------------------------
  // create_collection
  // ---------------------------------------------------------------------------

  /** The store after `create_collection(name)`: `name` holds an empty collection; nothing else changes. */
  function Recreated(m: Store, name: string): (r: Store)
    ensures name in r && r[name] == []
    ensures r.Keys == m.Keys + {name}
    ensures forall n :: n in m && n != name ==> r[n] == m[n]
  {
    m[name := []]
  }

  /** Recreating twice in a row leaves the same store as recreating once. */
  lemma RecreatedIdempotent(m: Store, name: string)
    ensures Recreated(Recreated(m, name), name) == Recreated(m, name)
  {
    var once := Recreated(m, name);
    assert once[name := []] == once;
  }

  /** `create_collection`: delete the collection, ignoring a failure, then create it afresh. */
  method CreateCollection(client: Client, name: string)
    modifies client
    ensures client.collections == Recreated(old(client.collections), name)
  {
    var deleted := client.DeleteCollection(name);
    var created := client.CreateCollection(name);
  }

  // ---------------------------------------------------------------------------
  // query_collection and generate_rag_response
  // ---------------------------------------------------------------------------

  /** The embedding of a question: the single vector the model returns for `[query]`. */
  function QueryVector(embed: Embedder, query: string): (r: Result<Vector, string>)
    ensures embed([query]).Failure? ==> r.Failure?
    ensures embed([query]).Success? && embed([query]).value != [] ==> r == Success(embed([query]).value[0])
    ensures r.Success? ==> embed([query]).Success? && embed([query]).value != []
  {
    match embed([query])
    case Failure(e) => Failure(e)
    case Success(vectors) => if vectors == [] then Failure("IndexError: no embedding returned") else Success(vectors[0])
  }

  /** The embed response as the client library presents it: `embeddings` is a list of objects with `values`. */
  function EmbedResponseObject(vectors: seq<Vector>): GeminiService.PyValue {
    GeminiService.PyObject(map["embeddings" := GeminiService.PyList(
      seq(|vectors|, i requires 0 <= i < |vectors| => GeminiService.PyObject(map["values" := GeminiService.PyFloats(vectors[i])])))])
  }

  /** `response.embeddings.values`, evaluated as `query_collection` writes it. */
  function QueryVectorAsWritten(vectors: seq<Vector>): (r: Result<GeminiService.PyValue, string>)
    ensures r == Failure("AttributeError: values")
  {
    var embeddings := GeminiService.GetAttr(Success(EmbedResponseObject(vectors)), "embeddings");
    assert embeddings.Success? && embeddings.value.PyList?;
    assert "AttributeError: " + "values" == "AttributeError: values";
    GeminiService.GetAttr(embeddings, "values")
  }

  /** As written, the question's vector is never obtained: `values` is looked up on a list. */
  lemma QueryVectorAsWrittenAlwaysFails(embed: Embedder, query: string, vector: Vector)
    requires embed([query]) == Success([vector])
    ensures QueryVectorAsWritten(embed([query]).value).Failure?
    ensures QueryVector(embed, query) == Success(vector)
  {
    var embeddings := GeminiService.GetAttr(Success(EmbedResponseObject([vector])), "embeddings");
    assert embeddings.Success? && embeddings.value.PyList?;
  }

  /**
   * `query_collection`: look the collection up (never creating it), embed the
   * question, and ask the store for the `nResults` nearest documents.
   * `nearest` is the store's similarity search, left abstract.
   */
  function QueryCollection(m: Store, name: string, query: string, embed: Embedder,
                           nearest: (seq<Record>, Vector, nat) -> seq<string>,
                           nResults: nat := DefaultQueryResults): (r: Result<seq<string>, string>)
    ensures name !in m ==> r.Failure?
    ensures r.Success? <==> name in m && QueryVector(embed, query).Success?
    ensures r.Success? ==> r.value == nearest(m[name], QueryVector(embed, query).value, nResults)
  {
    if name !in m then Failure("Collection " + name + " does not exist")
    else
      match QueryVector(embed, query)
      case Failure(e) => Failure(e)
      case Success(vector) => Success(nearest(m[name], vector, nResults))
  }

  /** The answer context: the retrieved chunks joined by blank lines, in order. */
  function RagContext(chunks: seq<string>): (r: string)
    ensures chunks == [] ==> r == ""
    ensures |chunks| == 1 ==> r == chunks[0]
    ensures chunks != [] ==> |r| == |Concat(chunks)| + 2 * (|chunks| - 1)
  {
    if chunks != [] then JoinLength("\n\n", chunks); Join("\n\n", chunks) else ""
  }

  /** Adding a chunk adds a blank line and that chunk at the end of the context. */
  lemma RagContextAppend(chunks: seq<string>, chunk: string)
    requires chunks != []
    ensures RagContext(chunks + [chunk]) == RagContext(chunks) + "\n\n" + chunk
  {
    assert (chunks + [chunk])[..|chunks|] == chunks;
  }

  /** `generate_rag_response`: the model's answer to the question given the context. */
  function GenerateRagResponse(query: string, chunks: seq<string>, generate: (string, string) -> Result<string, string>): Result<string, string> {
    generate(RagContext(chunks), query)
  }
}
