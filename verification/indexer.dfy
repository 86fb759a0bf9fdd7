/** Background indexing of one uploaded document: read the stored file,
    chunk it, embed the chunks in batches of 90, insert one row per chunk
    and record the document's final status. The database is a class whose
    two tables the method updates in place; the file system, the PDF parser,
    the embedding endpoint and the outcome of the insert are parameters. */
module Indexer {
  import opened Outcomes
  import opened JsText
  import opened Similarity
  import opened Embedding
  import opened Chunker

  datatype DocStatus = Processing | Ready | Error

  /** A `document_chunks` row; `embedding` is `None` where the embedding
      reply held fewer vectors than the batch had chunks. */
  datatype ChunkRow = ChunkRow(docId: string, pageNumber: int, chunkIndex: int, text: string, embedding: Option<Vector>)

  /** A file found on disk: the extension of its stored path, its bytes read
      as UTF-8, and the text `pdf-parse` yields (`None` when it throws). */
  datatype StoredFile = StoredFile(extension: string, utf8Text: string, pdfText: Option<string>)

  predicate IsPdf(extension: string)
  {
    AsciiLowerCase(extension) == ".pdf"
  }

  /** `extractTextFromFile`. */
  function ExtractText(file: StoredFile): string
  {
    if IsPdf(file.extension) && file.pdfText.Some? && Trim(file.pdfText.value) != [] then file.pdfText.value
    else file.utf8Text
  }

  /** The parsed PDF text is used exactly when the file is a PDF and the
      parser produced text with something other than whitespace in it; in
      every other case the raw bytes read as UTF-8 are used. */
  lemma ExtractTextChoice(file: StoredFile)
    ensures ExtractText(file) == file.utf8Text || Some(ExtractText(file)) == file.pdfText
    ensures IsPdf(file.extension) && file.pdfText.Some? && !AllSpace(file.pdfText.value) ==>
      ExtractText(file) == file.pdfText.value
    ensures !IsPdf(file.extension) || file.pdfText.None? || AllSpace(file.pdfText.value) ==>
      ExtractText(file) == file.utf8Text
  {
    if file.pdfText.Some? {
      TrimFacts(file.pdfText.value);
    }
  }

  /** `.PDF`, `.Pdf` and the like count as PDFs. */
  lemma PdfExtensionIgnoresCase(extension: string)
    ensures IsPdf(extension) <==>
      |extension| == 4 && extension[0] == '.' && extension[1] in "pP" && extension[2] in "dD" && extension[3] in "fF"
  {
    if |extension| == 4 {
      var lower := AsciiLowerCase(extension);
      assert IsPdf(extension) <==> lower[0] == '.' && lower[1] == 'p' && lower[2] == 'd' && lower[3] == 'f';
    }
  }

  const BatchSize: nat := 90

  function Texts(chunks: seq<DbChunk>): (r: seq<string>)
    ensures |r| == |chunks| && forall k :: 0 <= k < |chunks| ==> r[k] == chunks[k].text
  {
    seq(|chunks|, k requires 0 <= k < |chunks| => chunks[k].text)
  }

  /** The chunks of batch `b`: positions `90 * b` up to the next multiple of
      90 or the end. */
  function Batch(chunks: seq<DbChunk>, b: nat): seq<DbChunk>
    requires b * BatchSize < |chunks|
  {
    chunks[b * BatchSize..Min(b * BatchSize + BatchSize, |chunks|)]
  }

  /** What the embedding call for batch `b` returns. */
  function BatchReply(chunks: seq<DbChunk>, b: nat, apiKey: string, service: EmbedRequest -> ServiceReply): Result<seq<Vector>, EmbedError>
    requires b * BatchSize < |chunks|
  {
    EmbedDocuments(Texts(Batch(chunks, b)), apiKey, service)
  }

  /** The embedding call for batch `b` posts, with a key, one
      `search_document` request whose inputs are the batch's chunk texts in
      order, each cut to 4000 characters; the batch's reply is that call's
      result. */
  lemma BatchRequestShape(chunks: seq<DbChunk>, b: nat, apiKey: string, service: EmbedRequest -> ServiceReply)
    requires b * BatchSize < |chunks| && apiKey != ""
    ensures var batch := Batch(chunks, b);
      var call := CohereEmbedV2(Texts(batch), SearchDocument, apiKey, service);
      call.sent.Some? && call.sent.value.inputType == "search_document" &&
      |call.sent.value.inputs| == |batch| &&
      (forall k :: 0 <= k < |batch| ==> call.sent.value.inputs[k] == Prefix(chunks[b * BatchSize + k].text, MaxEmbedChars)) &&
      BatchReply(chunks, b, apiKey, service) == call.result
  {
    var batch := Batch(chunks, b);
    RequestSentIff(Texts(batch), SearchDocument, apiKey, service);
    forall k | 0 <= k < |batch|
      ensures batch[k] == chunks[b * BatchSize + k]
    {
    }
  }

  /** `vectors[idx]`, with `undefined` past the end. */
  function VectorAt(vectors: seq<Vector>, idx: nat): Option<Vector>
  {
    if idx < |vectors| then Some(vectors[idx]) else None
  }

  function RowOf(docId: string, c: DbChunk, embedding: Option<Vector>): ChunkRow
  {
    ChunkRow(docId, c.pageNumber, c.chunkIndex, c.text, embedding)
  }

  /** The rows one batch contributes, in batch order. */
  function BatchRows(docId: string, batch: seq<DbChunk>, vectors: seq<Vector>): (r: seq<ChunkRow>)
    ensures |r| == |batch|
    ensures forall k :: 0 <= k < |batch| ==> r[k] == RowOf(docId, batch[k], VectorAt(vectors, k))
  {
    seq(|batch|, k requires 0 <= k < |batch| => RowOf(docId, batch[k], VectorAt(vectors, k)))
  }

  /** The batch loop read as a tail-recursive function: `acc` holds the rows
      of batches `0 .. b - 1`; the first failing batch ends the walk. */
  function RowsAcc(docId: string, chunks: seq<DbChunk>, apiKey: string, service: EmbedRequest -> ServiceReply,
                   b: nat, acc: seq<ChunkRow>): Result<seq<ChunkRow>, EmbedError>
    decreases |chunks| - b * BatchSize
  {
    if b * BatchSize >= |chunks| then Ok(acc)
    else
      match BatchReply(chunks, b, apiKey, service)
      case Err(e) => Err(e)
      case Ok(vectors) => RowsAcc(docId, chunks, apiKey, service, b + 1, acc + BatchRows(docId, Batch(chunks, b), vectors))
  }

  function EmbeddedRows(docId: string, chunks: seq<DbChunk>, apiKey: string, service: EmbedRequest -> ServiceReply): Result<seq<ChunkRow>, EmbedError>
  {
    RowsAcc(docId, chunks, apiKey, service, 0, [])
  }

  /** One pass of the batch loop, as the loop sees it: the batch starts at
      `90 * b` and its embedding either failed or gave `vectors`. */
  lemma RowsAccStep(docId: string, chunks: seq<DbChunk>, apiKey: string, service: EmbedRequest -> ServiceReply,
                    b: nat, acc: seq<ChunkRow>, batch: seq<DbChunk>)
    requires b * BatchSize < |chunks|
    requires batch == chunks[b * BatchSize..Min(b * BatchSize + BatchSize, |chunks|)]
    ensures EmbedDocuments(Texts(batch), apiKey, service).Err? ==>
      RowsAcc(docId, chunks, apiKey, service, b, acc).Err?
    ensures EmbedDocuments(Texts(batch), apiKey, service).Ok? ==>
      RowsAcc(docId, chunks, apiKey, service, b, acc) ==
      RowsAcc(docId, chunks, apiKey, service, b + 1, acc + BatchRows(docId, batch, EmbedDocuments(Texts(batch), apiKey, service).value))
  {
    assert batch == Batch(chunks, b);
  }

  /** Rows of batches `0 .. b - 1` are in place. */
  ghost predicate RowsUpTo(docId: string, chunks: seq<DbChunk>, apiKey: string, service: EmbedRequest -> ServiceReply,
                           b: nat, rows: seq<ChunkRow>)
  {
    |rows| == Min(b * BatchSize, |chunks|) &&
    forall k :: 0 <= k < |rows| ==>
      k / BatchSize < b && k / BatchSize * BatchSize < |chunks| &&
      BatchReply(chunks, k / BatchSize, apiKey, service).Ok? &&
      rows[k] == RowOf(docId, chunks[k], VectorAt(BatchReply(chunks, k / BatchSize, apiKey, service).value, k % BatchSize))
  }

  lemma BatchStep(docId: string, chunks: seq<DbChunk>, apiKey: string, service: EmbedRequest -> ServiceReply,
                  b: nat, acc: seq<ChunkRow>, vectors: seq<Vector>)
    requires b * BatchSize < |chunks|
    requires BatchReply(chunks, b, apiKey, service) == Ok(vectors)
    requires RowsUpTo(docId, chunks, apiKey, service, b, acc)
    ensures RowsUpTo(docId, chunks, apiKey, service, b + 1, acc + BatchRows(docId, Batch(chunks, b), vectors))
  {
    var start := b * BatchSize;
    var batch := Batch(chunks, b);
    var rows := acc + BatchRows(docId, batch, vectors);
    assert |acc| == start;
    forall k | 0 <= k < |rows|
      ensures k / BatchSize < b + 1 && k / BatchSize * BatchSize < |chunks|
      ensures BatchReply(chunks, k / BatchSize, apiKey, service).Ok?
      ensures rows[k] == RowOf(docId, chunks[k], VectorAt(BatchReply(chunks, k / BatchSize, apiKey, service).value, k % BatchSize))
    {
      if k >= start {
        var j := k - start;
        assert k == b * BatchSize + j && 0 <= j < BatchSize;
        assert k / BatchSize == b && k % BatchSize == j;
        assert batch[j] == chunks[k];
      }
    }
  }

  /** When every batch is embedded, there is exactly one row per chunk, in
      chunk order, carrying the document id, the chunk's page, index and
      text, and the vector at the chunk's position in its batch's reply. */
  lemma {:induction false} RowsFollowChunks(docId: string, chunks: seq<DbChunk>, apiKey: string, service: EmbedRequest -> ServiceReply,
                                            b: nat, acc: seq<ChunkRow>)
    requires RowsUpTo(docId, chunks, apiKey, service, b, acc)
    ensures RowsAcc(docId, chunks, apiKey, service, b, acc).Ok? ==>
      RowsUpTo(docId, chunks, apiKey, service, |chunks|, RowsAcc(docId, chunks, apiKey, service, b, acc).value)
    decreases |chunks| - b * BatchSize
  {
    if b * BatchSize >= |chunks| {
      assert Min(|chunks| * BatchSize, |chunks|) == |chunks|;
      forall k | 0 <= k < |acc|
        ensures k / BatchSize < |chunks|
      {
      }
    } else {
      match BatchReply(chunks, b, apiKey, service)
      case Err(_) =>
      case Ok(vectors) =>
        var next, acc' := b + 1, acc + BatchRows(docId, Batch(chunks, b), vectors);
        assert RowsAcc(docId, chunks, apiKey, service, b, acc) == RowsAcc(docId, chunks, apiKey, service, next, acc');
        BatchStep(docId, chunks, apiKey, service, b, acc, vectors);
        RowsFollowChunks(docId, chunks, apiKey, service, next, acc');
    }
  }

  /** Row `k` of a successful embedding pass. */
  lemma EmbeddedRowsShape(docId: string, chunks: seq<DbChunk>, apiKey: string, service: EmbedRequest -> ServiceReply)
    ensures EmbeddedRows(docId, chunks, apiKey, service).Ok? ==>
      var rows := EmbeddedRows(docId, chunks, apiKey, service).value;
      |rows| == |chunks| &&
      forall k :: 0 <= k < |chunks| ==>
        k / BatchSize * BatchSize < |chunks| &&
        BatchReply(chunks, k / BatchSize, apiKey, service).Ok? &&
        rows[k] == RowOf(docId, chunks[k], VectorAt(BatchReply(chunks, k / BatchSize, apiKey, service).value, k % BatchSize))
  {
    RowsFollowChunks(docId, chunks, apiKey, service, 0, []);
  }

  /** The pass fails exactly when some batch's embedding call fails. */
  lemma {:induction false} EmbeddingFailsIff(docId: string, chunks: seq<DbChunk>, apiKey: string, service: EmbedRequest -> ServiceReply,
                                             b: nat, acc: seq<ChunkRow>)
    ensures RowsAcc(docId, chunks, apiKey, service, b, acc).Err? <==>
      exists c :: b <= c && c * BatchSize < |chunks| && BatchReply(chunks, c, apiKey, service).Err?
    decreases |chunks| - b * BatchSize
  {
    if b * BatchSize < |chunks| {
      match BatchReply(chunks, b, apiKey, service)
      case Err(_) =>
      case Ok(vectors) =>
        var next, acc' := b + 1, acc + BatchRows(docId, Batch(chunks, b), vectors);
        assert RowsAcc(docId, chunks, apiKey, service, b, acc) == RowsAcc(docId, chunks, apiKey, service, next, acc');
        EmbeddingFailsIff(docId, chunks, apiKey, service, next, acc');
        if exists c :: b <= c && c * BatchSize < |chunks| && BatchReply(chunks, c, apiKey, service).Err? {
          var c :| b <= c && c * BatchSize < |chunks| && BatchReply(chunks, c, apiKey, service).Err?;
          assert c != b;
        }
    }
  }

  /** The status and the rows one indexing run leaves behind. */
  datatype IndexOutcome = IndexOutcome(status: DocStatus, inserted: seq<ChunkRow>)

  /** `startDocumentIndexing` as a function of what it observes: whether the
      stored file exists, what it holds, what the endpoint answers and
      whether the database rejects the insert. */
  function IndexSpec(docId: string, file: Option<StoredFile>, apiKey: string, service: EmbedRequest -> ServiceReply,
                     insertRejected: bool): IndexOutcome
  {
    match file
    case None => IndexOutcome(Error, [])
    case Some(f) =>
      var chunks := ChunkSpec(ExtractText(f), DefaultChunkSize, DefaultOverlap);
      if chunks == [] then IndexOutcome(Ready, [])
      else
        match EmbeddedRows(docId, chunks, apiKey, service)
        case Err(_) => IndexOutcome(Error, [])
        case Ok(rows) => if insertRejected then IndexOutcome(Error, []) else IndexOutcome(Ready, rows)
  }

  /** `.update({status}).eq("id", id)`: only an existing document changes. */
  function SetStatus(statuses: map<string, DocStatus>, id: string, s: DocStatus): (r: map<string, DocStatus>)
    ensures r.Keys == statuses.Keys
    ensures forall other :: other in statuses && other != id ==> r[other] == statuses[other]
    ensures id in statuses ==> r[id] == s
  {
    if id in statuses then statuses[id := s] else statuses
  }

  /** The two tables the indexer writes. */
  class DocumentStore {
    var statuses: map<string, DocStatus>
    var chunkRows: seq<ChunkRow>

    constructor (statuses0: map<string, DocStatus>, rows0: seq<ChunkRow>)
      ensures statuses == statuses0 && chunkRows == rows0
    {
      statuses := statuses0;
      chunkRows := rows0;
    }

    method UpdateStatus(id: string, s: DocStatus)
      modifies this
      ensures statuses == SetStatus(old(statuses), id, s)
      ensures chunkRows == old(chunkRows)
    {
      statuses := SetStatus(statuses, id, s);
    }

    /** One multi-row insert: all rows are added, or none when the database
        rejects it. */
    method InsertChunks(rows: seq<ChunkRow>, rejected: bool) returns (failed: bool)
      modifies this
      ensures failed == rejected
      ensures chunkRows == if rejected then old(chunkRows) else old(chunkRows) + rows
      ensures statuses == old(statuses)
    {
      failed := rejected;
      if !rejected {
        chunkRows := chunkRows + rows;
      }
    }
  }

  /** `batch.forEach((c, idx) => allRows.push(...))`: one row per chunk of
      the batch, in batch order, after the rows already collected. */
  method PushBatchRows(allRows: seq<ChunkRow>, docId: string, batch: seq<DbChunk>, vectors: seq<Vector>)
    returns (rows: seq<ChunkRow>)
    ensures rows == allRows + BatchRows(docId, batch, vectors)
  {
    rows := allRows;
    for idx := 0 to |batch|
      invariant rows == allRows + BatchRows(docId, batch, vectors)[..idx]
    {
      rows := rows + [RowOf(docId, batch[idx], VectorAt(vectors, idx))];
      assert BatchRows(docId, batch, vectors)[..idx + 1] == BatchRows(docId, batch, vectors)[..idx] + [RowOf(docId, batch[idx], VectorAt(vectors, idx))];
    }
    assert BatchRows(docId, batch, vectors)[..|batch|] == BatchRows(docId, batch, vectors);
  }

  /** `startDocumentIndexing`. */
  method StartDocumentIndexing(store: DocumentStore, docId: string, file: Option<StoredFile>,
                               apiKey: string, service: EmbedRequest -> ServiceReply, insertRejected: bool)
    modifies store
    ensures store.statuses == SetStatus(old(store.statuses), docId, IndexSpec(docId, file, apiKey, service, insertRejected).status)
    ensures store.chunkRows == old(store.chunkRows) + IndexSpec(docId, file, apiKey, service, insertRejected).inserted
  {
    if file.None? {
      store.UpdateStatus(docId, Error);
      return;
    }
    var text := ExtractText(file.value);
    var chunks := ChunkTextForDb(text, DefaultChunkSize, DefaultOverlap);
    if |chunks| == 0 {
      store.UpdateStatus(docId, Ready);
      return;
    }
    ghost var spec := EmbeddedRows(docId, chunks, apiKey, service);
    ghost var b: nat := 0;
    var allRows: seq<ChunkRow> := [];
    var i := 0;
    while i < |chunks|
      invariant i == b * BatchSize
      invariant RowsAcc(docId, chunks, apiKey, service, b, allRows) == spec
      invariant store.statuses == old(store.statuses) && store.chunkRows == old(store.chunkRows)
      decreases |chunks| - i
    {
      var batch := chunks[i..Min(i + BatchSize, |chunks|)];
      var reply := EmbedDocuments(Texts(batch), apiKey, service);
      RowsAccStep(docId, chunks, apiKey, service, b, allRows, batch);
      if reply.Err? {
        store.UpdateStatus(docId, Error);
        return;
      }
      allRows := PushBatchRows(allRows, docId, batch, reply.value);
      i := i + BatchSize;
      b := b + 1;
    }
    assert spec == Ok(allRows);
    assert IndexSpec(docId, file, apiKey, service, insertRejected) ==
      if insertRejected then IndexOutcome(Error, []) else IndexOutcome(Ready, allRows);
    var failed := store.InsertChunks(allRows, insertRejected);
    if failed {
      store.UpdateStatus(docId, Error);
      return;
    }
    store.UpdateStatus(docId, Ready);
  }

  /** A run ends `ready` exactly when the file exists and either yields no
      chunk or every batch is embedded and the insert is accepted; it ends
      `error` otherwise. */
  lemma IndexStatusIff(docId: string, file: Option<StoredFile>, apiKey: string, service: EmbedRequest -> ServiceReply,
                       insertRejected: bool)
    ensures var o := IndexSpec(docId, file, apiKey, service, insertRejected);
      o.status != Processing &&
      (o.status == Ready <==>
        file.Some? &&
        var chunks := ChunkSpec(ExtractText(file.value), DefaultChunkSize, DefaultOverlap);
        (chunks == [] ||
         (!insertRejected &&
          forall c: nat :: c * BatchSize < |chunks| ==> BatchReply(chunks, c, apiKey, service).Ok?)))
  {
    if file.Some? {
      var chunks := ChunkSpec(ExtractText(file.value), DefaultChunkSize, DefaultOverlap);
      EmbeddingFailsIff(docId, chunks, apiKey, service, 0, []);
    }
  }

  /** All or nothing: a run inserts no row exactly when it ends `error` or
      the document yields no chunk; a run that ends `ready` on a document
      with chunks has inserted one row per chunk, in chunk order, carrying
      the document id, the chunk and its vector. A blank document ends
      `ready` with no rows. */
  lemma IndexInsertsAllOrNothing(docId: string, file: Option<StoredFile>, apiKey: string, service: EmbedRequest -> ServiceReply,
                                 insertRejected: bool)
    ensures var o := IndexSpec(docId, file, apiKey, service, insertRejected);
      o.inserted == [] <==>
        o.status == Error || (file.Some? && ChunkSpec(ExtractText(file.value), DefaultChunkSize, DefaultOverlap) == [])
    ensures var o := IndexSpec(docId, file, apiKey, service, insertRejected);
      o.status == Ready && file.Some? && ChunkSpec(ExtractText(file.value), DefaultChunkSize, DefaultOverlap) != [] ==>
        var chunks := ChunkSpec(ExtractText(file.value), DefaultChunkSize, DefaultOverlap);
        |o.inserted| == |chunks| &&
        forall k :: 0 <= k < |chunks| ==>
          k / BatchSize * BatchSize < |chunks| &&
          BatchReply(chunks, k / BatchSize, apiKey, service).Ok? &&
          o.inserted[k] == RowOf(docId, chunks[k], VectorAt(BatchReply(chunks, k / BatchSize, apiKey, service).value, k % BatchSize))
    ensures file.Some? && AllSpace(ReplaceCrlf(file.value.utf8Text)) && ExtractText(file.value) == file.value.utf8Text ==>
      IndexSpec(docId, file, apiKey, service, insertRejected) == IndexOutcome(Ready, [])
  {
    if file.Some? {
      var chunks := ChunkSpec(ExtractText(file.value), DefaultChunkSize, DefaultOverlap);
      EmbeddedRowsShape(docId, chunks, apiKey, service);
      if AllSpace(ReplaceCrlf(file.value.utf8Text)) && ExtractText(file.value) == file.value.utf8Text {
        BlankTextHasNoChunks(ExtractText(file.value), DefaultChunkSize, DefaultOverlap);
      }
    }
  }
}
