/**
 The queue-triggered handler `lambda_handler`: for every change record of
 every message, in order, it skips keys whose extension is not supported,
 and otherwise fetches the object, extracts its text, chunks it, embeds each
 chunk, upserts one batch of vector records and counts the file. The first
 failure aborts the whole invocation; what was written before stays written.

 The storage, embedding and index services are parameters. The model
 records every call made to them, in order, as a trace of effects.
 */
module Handler {
  import opened Wrappers
  import opened Strings
  import opened Unicode
  import opened Paths
  import opened Extraction
  import opened Chunking
  import opened Vectors

  /** One change record: the bucket and key of the object that changed. */
  datatype ChangeRecord = ChangeRecord(bucket: string, key: string)

  /** One queue message, its body already parsed into change records. */
  datatype Message = Message(records: seq<ChangeRecord>)

  /** A call to an outside service. */
  datatype Effect =
    | FetchObject(bucket: string, key: string)
    | EmbedText(text: string)
    | UpsertVectors(vectors: seq<VectorRecord>)

  /**
   The outside services: the object store (None when the fetch fails), the
   document parsers, the embedding service (None when it fails) and whether
   the index accepts a batch.
   */
  datatype Services = Services(
    getObject: (string, string) -> Option<seq<Byte>>,
    parsers: Parsers,
    embed: string -> Option<Embedding>,
    upsertAccepted: seq<VectorRecord> -> bool)

  /** The exception that ends the invocation. */
  datatype HandlerError =
    | ObjectFetchFailed(bucket: string, key: string)
    | ExtractionFailed(key: string, cause: ExtractError)
    | EmbeddingFailed(key: string, chunkIndex: nat)
    | IndexWriteFailed(key: string)

  /** What the handler returns when every record went through. */
  datatype Response = Response(statusCode: int, body: string)

  /** The calls made so far, the index contents and `processed_count`. */
  datatype State = State(trace: seq<Effect>, index: Index, processed: nat)

  /** After a record: carry on, or stop with the error raised. */
  datatype Step =
    | Continue(state: State)
    | Abort(state: State, error: HandlerError)

  /** One embedding call per text, in order. */
  function EmbedEffects(texts: seq<string>): (es: seq<Effect>)
    ensures |es| == |texts|
  {
    seq(|texts|, j requires 0 <= j < |texts| => EmbedText(texts[j]))
  }

  /**
   Embeds the chunks in order, stopping at the first one the service
   refuses: Failure(i) names that chunk.
   */
  function EmbedAll(embed: string -> Option<Embedding>, chunks: seq<string>): (r: Result<seq<Embedding>, nat>)
    ensures r.Success? ==> |r.value| == |chunks| && forall j :: 0 <= j < |chunks| ==> embed(chunks[j]) == Some(r.value[j])
    ensures r.Failure? ==> r.error < |chunks| && embed(chunks[r.error]).None?
                           && forall j :: 0 <= j < r.error ==> embed(chunks[j]).Some?
  {
    if |chunks| == 0 then Success([])
    else
      match embed(chunks[0])
      case None => Failure(0)
      case Some(v) =>
        match EmbedAll(embed, chunks[1..])
        case Success(vs) => Success([v] + vs)
        case Failure(i) => Failure(i + 1)
  }

  /**
   Fetches the object and extracts its text. Only a fetch failure or a
   document the parser rejects can fail here: an extension that passed the
   handler's filter is always one the dispatch table knows.
   */
  function FetchAndExtract(rec: ChangeRecord, ext: string, svc: Services): (r: Result<string, HandlerError>)
    requires IsSupported(ext)
    ensures r.Failure? ==> r.error == ObjectFetchFailed(rec.bucket, rec.key)
                           || (r.error.ExtractionFailed? && r.error.cause.MalformedDocument?)
    ensures r.Failure? && r.error.ExtractionFailed? ==> FormatOf(ext) != Some(PlainText)
    ensures r.Success? <==> svc.getObject(rec.bucket, rec.key).Some?
                            && ExtractText(svc.getObject(rec.bucket, rec.key).value, ext, svc.parsers).Success?
    ensures r.Success? ==> r.value == ExtractText(svc.getObject(rec.bucket, rec.key).value, ext, svc.parsers).value
  {
    match svc.getObject(rec.bucket, rec.key)
    case None => Failure(ObjectFetchFailed(rec.bucket, rec.key))
    case Some(content) =>
      match ExtractText(content, ext, svc.parsers)
      case Failure(err) => Failure(ExtractionFailed(rec.key, err))
      case Success(text) => Success(text)
  }

  /**
   What handling one record amounts to, whatever the state: skipped; or a
   list of calls ending in an accepted upsert of the vectors; or a list of
   calls after which an error was raised.
   */
  datatype RecordOutcome =
    | Skipped
    | Written(calls: seq<Effect>, vectors: seq<VectorRecord>)
    | Failed(calls: seq<Effect>, error: HandlerError)

  /**
   The body of the inner loop for one change record: filter on the
   extension, fetch, extract, chunk, embed each chunk, build the records and
   upsert them as one batch.
   */
  function HandleRecord(rec: ChangeRecord, svc: Services): (o: RecordOutcome)
    ensures o.Skipped? <==> !IsSupported(Extension(rec.key))
    ensures !o.Skipped? ==> |o.calls| > 0 && o.calls[0] == FetchObject(rec.bucket, rec.key)
  {
    var ext := Extension(rec.key);
    if !IsSupported(ext) then Skipped
    else
      var fetch := [FetchObject(rec.bucket, rec.key)];
      match FetchAndExtract(rec, ext, svc)
      case Failure(e) => Failed(fetch, e)
      case Success(text) =>
        var chunks := Chunks(text, ChunkSize, Overlap);
        match EmbedAll(svc.embed, chunks)
        case Failure(i) => Failed(fetch + EmbedEffects(chunks[..i + 1]), EmbeddingFailed(rec.key, i))
        case Success(embeddings) =>
          var vectors := BuildRecords(rec.bucket, rec.key, ext, chunks, embeddings);
          var calls := fetch + EmbedEffects(chunks) + [UpsertVectors(vectors)];
          if svc.upsertAccepted(vectors) then Written(calls, vectors)
          else Failed(calls, IndexWriteFailed(rec.key))
  }

  /** The loop body for every record, given the services. */
  function Body(svc: Services): ChangeRecord -> RecordOutcome {
    rec => HandleRecord(rec, svc)
  }

  /** One pass of the inner loop: record the calls, apply an accepted upsert, count the file. */
  function Apply(s: State, o: RecordOutcome): Step
  {
    match o
    case Skipped => Continue(s)
    case Written(calls, vectors) => Continue(State(s.trace + calls, Upsert(s.index, vectors), s.processed + 1))
    case Failed(calls, e) => Abort(s.(trace := s.trace + calls), e)
  }

  /** The inner loop: the records in order, stopping at the first failure. */
  function RunRecords(s: State, recs: seq<ChangeRecord>, body: ChangeRecord -> RecordOutcome): Step
    decreases |recs|
  {
    if |recs| == 0 then Continue(s)
    else
      match Apply(s, body(recs[0]))
      case Abort(t, e) => Abort(t, e)
      case Continue(t) => RunRecords(t, recs[1..], body)
  }

  /** The outer loop: the messages in order, each through the inner loop. */
  function RunMessages(s: State, msgs: seq<Message>, body: ChangeRecord -> RecordOutcome): Step
    decreases |msgs|
  {
    if |msgs| == 0 then Continue(s)
    else
      match RunRecords(s, msgs[0].records, body)
      case Abort(t, e) => Abort(t, e)
      case Continue(t) => RunMessages(t, msgs[1..], body)
  }

  /** `json.dumps` of a string with nothing to escape: the string in double quotes. */
  function JsonString(s: string): string {
    "\"" + s + "\""
  }

  /** The success response for a count of processed files. */
  function SuccessResponse(count: nat): Response {
    Response(200, JsonString("Successfully processed " + NatToString(count) + " files"))
  }

  /** The handler's result and the calls it made, starting from a given index. */
  datatype Invocation = Invocation(trace: seq<Effect>, index: Index, result: Result<Response, HandlerError>)

  /** `lambda_handler(event, context)`. */
  function LambdaHandler(msgs: seq<Message>, index: Index, svc: Services): (inv: Invocation)
  {
    match RunMessages(State([], index, 0), msgs, Body(svc))
    case Continue(s) => Invocation(s.trace, s.index, Success(SuccessResponse(s.processed)))
    case Abort(s, e) => Invocation(s.trace, s.index, Failure(e))
  }
}
