/**
 * The two retrieval endpoints: `POST /api/rag/upload`, which admits only
 * ".pdf" file names and rebuilds the collection named after the file, and
 * `POST /api/rag/query`, which answers a question from the chunks nearest to
 * it. The uploaded file's pages reach the model as a value (`pdf`), a
 * failure to save or open it as an error.
 */
module RagRoutes {
  import opened Text
  import opened Wrappers
  import opened ChromaStore
  import RequestsModel
  import opened RagService

  const PdfSuffix: string := ".pdf"
  const CollectionPrefix: string := "user_documents_"

  // ---------------------------------------------------------------------------
  // The collection name of an upload
  // ---------------------------------------------------------------------------

  /** `f"user_documents_{filename.replace('.pdf', '')}"`: every ".pdf" in the name is removed, not only the suffix. */
  function CollectionNameFor(filename: string): (r: string)
    ensures StartsWith(r, CollectionPrefix)
    ensures r != RequestsModel.DefaultCollectionName
  {
    CollectionPrefix + ReplaceAll(filename, PdfSuffix, "")
  }

  /** ".pdf" starts nowhere in `stem + ".pdf"` before the suffix, when it starts nowhere in `stem`. */
  lemma NoEarlyPdf(stem: string)
    requires stem != []
    requires forall i :: 0 <= i ==> !OccursAt(stem, PdfSuffix, i)
    ensures (stem + PdfSuffix)[..4] != PdfSuffix
  {
    var s := stem + PdfSuffix;
    if |stem| >= 4 {
      assert !OccursAt(stem, PdfSuffix, 0);
      assert s[..4] == stem[..4];
    } else {
      var k := |stem|;
      assert s[..4][k] == '.';
      assert PdfSuffix[k] != '.';
    }
  }

  /** Removing ".pdf" from `stem + ".pdf"` gives `stem` back when `stem` holds no ".pdf". */
  lemma {:induction false} ReplacePdfSuffix(stem: string)
    requires forall i :: 0 <= i ==> !OccursAt(stem, PdfSuffix, i)
    ensures ReplaceAll(stem + PdfSuffix, PdfSuffix, "") == stem
    decreases |stem|
  {
    var s := stem + PdfSuffix;
    if stem == [] {
      assert s == PdfSuffix;
      assert s[|PdfSuffix|..] == [];
    } else {
      NoEarlyPdf(stem);
      forall i | 0 <= i
        ensures !OccursAt(stem[1..], PdfSuffix, i)
      {
        assert !OccursAt(stem, PdfSuffix, i + 1);
        if i + 4 <= |stem[1..]| {
          assert stem[1..][i..i + 4] == stem[i + 1..i + 5];
        }
      }
      ReplacePdfSuffix(stem[1..]);
      assert s[1..] == stem[1..] + PdfSuffix;
      assert [s[0]] + stem[1..] == stem;
    }
  }

  /** For `stem + ".pdf"` with no ".pdf" inside `stem`, the collection is "user_documents_" + stem. */
  lemma CollectionNameOfStem(stem: string)
    requires forall i :: 0 <= i ==> !OccursAt(stem, PdfSuffix, i)
    ensures CollectionNameFor(stem + PdfSuffix) == CollectionPrefix + stem
  {
    ReplacePdfSuffix(stem);
  }

  /** "a.pdf.pdf" and "a.pdf" share one collection: both occurrences of ".pdf" are removed. */
  lemma DoublePdfSharesCollection()
    ensures CollectionNameFor("a.pdf.pdf") == "user_documents_a"
    ensures CollectionNameFor("a.pdf") == CollectionNameFor("a.pdf.pdf")
  {
    var a := "a";
    forall i | 0 <= i
      ensures !OccursAt(a, PdfSuffix, i)
    {
    }
    CollectionNameOfStem(a);
    assert "a.pdf.pdf"[..4] != PdfSuffix;
    assert "a.pdf.pdf"[1..][..4] == PdfSuffix;
    assert "a.pdf.pdf"[1..][4..] == "a.pdf"[1..];
    assert ReplaceAll("a.pdf"[1..], PdfSuffix, "") == "";
  }

  // ---------------------------------------------------------------------------
  // POST /api/rag/upload
  // ---------------------------------------------------------------------------

  datatype UploadResult =
    | Uploaded(collectionName: string, chunksCreated: nat)
    | BadRequest(detail: string)
    | ServerError(error: string)
  {
    /** The HTTP status of the response. */
    function Status(): int {
      match this
      case Uploaded(_, _) => 200
      case BadRequest(_) => 400
      case ServerError(_) => 500
    }
  }

  /** The chunks of the upload: the splitter applied to the text of its first `MAX_PAGES_RAG` pages. */
  function UploadChunks(pages: seq<string>, split: string -> seq<string>): seq<string> {
    split(Concat(pages[..PagesToProcess(|pages|, Some(MaxPagesRag))]))
  }

  /**
   * `upload_document`: the ".pdf" gate, then extract, chunk, recreate the
   * collection and add the chunks, in that order. Any failure after the gate is
   * a 500 and leaves whatever the steps before it did to the store.
   */
  function Upload(m: Store, filename: string, pdf: Result<seq<string>, string>,
                  split: string -> seq<string>, embed: Embedder): (r: (UploadResult, Store))
    ensures r.0.BadRequest? <==> !EndsWith(filename, PdfSuffix)
    ensures r.0.BadRequest? ==> r.1 == m && r.0.Status() == 400
    ensures EndsWith(filename, PdfSuffix) && pdf.Failure? ==> r == (ServerError(pdf.error), m)
    ensures r.0.Uploaded? ==> pdf.Success? && r.0 == Uploaded(CollectionNameFor(filename), |UploadChunks(pdf.value, split)|)
    ensures EndsWith(filename, PdfSuffix) && pdf.Success? ==>
              var name := CollectionNameFor(filename);
              && r.1.Keys == m.Keys + {name}
              && (forall n :: n in m && n != name ==> r.1[n] == m[n])
    ensures EndsWith(filename, PdfSuffix) && pdf.Success? ==>
              var name := CollectionNameFor(filename);
              var added := AddDocuments(Recreated(m, name), name, UploadChunks(pdf.value, split), embed);
              && r.1 == added.1
              && (r.0.Uploaded? <==> added.0.Success?)
              && (added.0.Failure? ==> r.0 == ServerError(added.0.error))
  {
    if !EndsWith(filename, PdfSuffix) then (BadRequest("Only PDF files supported"), m)
    else
      match pdf
      case Failure(e) => (ServerError(e), m)
      case Success(pages) =>
        var chunks := UploadChunks(pages, split);
        var name := CollectionNameFor(filename);
        var added := AddDocuments(Recreated(m, name), name, chunks, embed);
        (if added.0.Failure? then ServerError(added.0.error) else Uploaded(name, |chunks|), added.1)
  }

  /**
   * The collection is recreated before the embeddings are computed: when
   * embedding fails, the upload is a 500 and the collection is left empty, its
   * previous contents gone.
   */
  lemma UploadEmbeddingFailure(m: Store, filename: string, pages: seq<string>, split: string -> seq<string>, embed: Embedder)
    requires EndsWith(filename, PdfSuffix)
    requires EmbedBatches(embed, Batches(UploadChunks(pages, split))).Failure?
    ensures Upload(m, filename, Success(pages), split, embed).0.Status() == 500
    ensures Upload(m, filename, Success(pages), split, embed).1[CollectionNameFor(filename)] == []
  {
  }

  /** With one vector per text, the upload succeeds and the collection holds exactly the chunks, as "chunk_0", "chunk_1", …. */
  lemma UploadAligned(m: Store, filename: string, pages: seq<string>, split: string -> seq<string>,
                      embed: Embedder, embedOne: string -> Vector)
    requires EndsWith(filename, PdfSuffix) && UploadChunks(pages, split) != []
    requires forall texts :: embed(texts) == Success(EmbedEach(embedOne, texts))
    ensures Upload(m, filename, Success(pages), split, embed).0 ==
              Uploaded(CollectionNameFor(filename), |UploadChunks(pages, split)|)
    ensures var chunks := UploadChunks(pages, split);
            Upload(m, filename, Success(pages), split, embed).1[CollectionNameFor(filename)] ==
              seq(|chunks|, j requires 0 <= j < |chunks| => Record("chunk_" + NatToString(j), chunks[j], embedOne(chunks[j])))
  {
    var chunks := UploadChunks(pages, split);
    var name := CollectionNameFor(filename);
    AddDocumentsAligned(Recreated(m, name), name, chunks, embed, embedOne);
    assert Recreated(m, name)[name] == [];
  }

  /**
   * A PDF that yields no chunks is refused by the store's `add`, which does not
   * take empty lists: the upload is a 500 and the recreated collection stays empty,
   * whatever the embedder does.
   */
  lemma UploadEmptyDocument(m: Store, filename: string, pages: seq<string>, split: string -> seq<string>, embed: Embedder)
    requires EndsWith(filename, PdfSuffix) && UploadChunks(pages, split) == []
    ensures Upload(m, filename, Success(pages), split, embed).0.Status() == 500
    ensures Upload(m, filename, Success(pages), split, embed).1[CollectionNameFor(filename)] == []
  {
  }

  /** What an upload leaves under its collection name does not depend on what was there before. */
  lemma UploadContentsIgnorePriorStore(m1: Store, m2: Store, filename: string, pdf: Result<seq<string>, string>,
                                        split: string -> seq<string>, embed: Embedder)
    requires EndsWith(filename, PdfSuffix) && pdf.Success?
    ensures Upload(m1, filename, pdf, split, embed).0 == Upload(m2, filename, pdf, split, embed).0
    ensures Upload(m1, filename, pdf, split, embed).1[CollectionNameFor(filename)] ==
            Upload(m2, filename, pdf, split, embed).1[CollectionNameFor(filename)]
  {
    var name := CollectionNameFor(filename);
    var chunks := UploadChunks(pdf.value, split);
    var a1 := AddDocuments(Recreated(m1, name), name, chunks, embed);
    var a2 := AddDocuments(Recreated(m2, name), name, chunks, embed);
    if EmbedBatches(embed, Batches(chunks)).Success? {
      var vectors := EmbedBatches(embed, Batches(chunks)).value;
      var ids := ChunkIds(|chunks|);
      if |chunks| == |vectors| {
        assert a1.1[name] == a1.1[name][..0] + a1.1[name][0..];
        assert a2.1[name] == a2.1[name][..0] + a2.1[name][0..];
        assert a1.1[name][0..] == a2.1[name][0..];
      }
    }
  }

  /** Uploading the same file name again replaces the collection: the last upload wins. */
  lemma ReuploadReplaces(m: Store, filename: string, first: Result<seq<string>, string>, second: Result<seq<string>, string>,
                         split: string -> seq<string>, embed: Embedder)
    requires EndsWith(filename, PdfSuffix) && second.Success?
    ensures Upload(Upload(m, filename, first, split, embed).1, filename, second, split, embed).1[CollectionNameFor(filename)] ==
            Upload(m, filename, second, split, embed).1[CollectionNameFor(filename)]
  {
    UploadContentsIgnorePriorStore(Upload(m, filename, first, split, embed).1, m, filename, second, split, embed);
  }

  /** `upload_document` on the client: the steps, in order, against the store. */
  method UploadDocument(client: Client, filename: string, pdf: Result<seq<string>, string>,
                        split: string -> seq<string>, embed: Embedder) returns (result: UploadResult)
    modifies client
    ensures (result, client.collections) == Upload(old(client.collections), filename, pdf, split, embed)
  {
    if !EndsWith(filename, PdfSuffix) {
      return BadRequest("Only PDF files supported");
    }
    if pdf.Failure? {
      return ServerError(pdf.error);
    }
    var text := ExtractTextFromPdf(pdf.value, Some(MaxPagesRag));
    var chunks := split(text);
    var name := CollectionNameFor(filename);
    CreateCollection(client, name);
    var added := AddDocumentsToCollection(client, name, chunks, embed);
    if added.Failure? {
      result := ServerError(added.error);
    } else {
      result := Uploaded(name, |chunks|);
    }
  }

  // ---------------------------------------------------------------------------
  // POST /api/rag/query
  // ---------------------------------------------------------------------------

  datatype QueryResult = Answered(answer: string) | QueryFailed(error: string)
  {
    /** The HTTP status of the response. */
    function Status(): int {
      if Answered? then 200 else 500
    }
  }

  /**
   * `query_documents`: the chunks `query_collection` returns for the request's
   * collection, with the default number of results, go unchanged to
   * `generate_rag_response`; any failure is a 500.
   */
  function QueryDocuments(m: Store, request: RequestsModel.RagQueryRequest, embed: Embedder,
                          nearest: (seq<Record>, Vector, nat) -> seq<string>,
                          generate: (string, string) -> Result<string, string>): (r: QueryResult)
    ensures QueryCollection(m, request.collectionName, request.query, embed, nearest, DefaultQueryResults).Failure? ==> r.QueryFailed?
    ensures r.Answered? ==>
              var chunks := QueryCollection(m, request.collectionName, request.query, embed, nearest, DefaultQueryResults);
              && chunks.Success?
              && generate(RagContext(chunks.value), request.query) == Success(r.answer)
    ensures var chunks := QueryCollection(m, request.collectionName, request.query, embed, nearest, DefaultQueryResults);
            chunks.Success? && generate(RagContext(chunks.value), request.query).Success? ==>
              r == Answered(generate(RagContext(chunks.value), request.query).value)
    ensures var chunks := QueryCollection(m, request.collectionName, request.query, embed, nearest, DefaultQueryResults);
            chunks.Success? && generate(RagContext(chunks.value), request.query).Failure? ==>
              r == QueryFailed(generate(RagContext(chunks.value), request.query).error)
  {
    match QueryCollection(m, request.collectionName, request.query, embed, nearest)
    case Failure(e) => QueryFailed(e)
    case Success(chunks) =>
      match GenerateRagResponse(request.query, chunks, generate)
      case Failure(e) => QueryFailed(e)
      case Success(answer) => Answered(answer)
  }

  /**
   * Uploads never create the collection a query names by default: unless it was
   * there already, a query without `collection_name` fails after any upload.
   */
  lemma DefaultQueryMissesUploads(m: Store, filename: string, pdf: Result<seq<string>, string>,
                                  split: string -> seq<string>, embed: Embedder, query: string,
                                  nearest: (seq<Record>, Vector, nat) -> seq<string>,
                                  generate: (string, string) -> Result<string, string>)
    requires RequestsModel.DefaultCollectionName !in m
    requires |query| >= 1
    ensures QueryDocuments(Upload(m, filename, pdf, split, embed).1,
                           RequestsModel.ParseRagQueryRequest(query, None).value, embed, nearest, generate).Status() == 500
  {
    var after := Upload(m, filename, pdf, split, embed).1;
    assert RequestsModel.DefaultCollectionName !in after;
  }
}
