/**
 What the handler promises, stated over its trace of calls: which objects it
 fetched, which texts it embedded and which batches it upserted.
 */
module HandlerLaws {
  import opened Paths
  import opened Extraction
  import opened Chunking
  import opened Vectors
  import opened Handler

  /** The objects fetched, in order. */
  function Fetches(trace: seq<Effect>): seq<ChangeRecord> {
    if |trace| == 0 then []
    else
      (if trace[0].FetchObject? then [ChangeRecord(trace[0].bucket, trace[0].key)] else []) + Fetches(trace[1..])
  }

  /** The texts embedded, in order. */
  function Embedded(trace: seq<Effect>): seq<string> {
    if |trace| == 0 then []
    else (if trace[0].EmbedText? then [trace[0].text] else []) + Embedded(trace[1..])
  }

  /** The batches upserted, in order. */
  function Batches(trace: seq<Effect>): seq<seq<VectorRecord>> {
    if |trace| == 0 then []
    else (if trace[0].UpsertVectors? then [trace[0].vectors] else []) + Batches(trace[1..])
  }

  /** The three projections of a trace distribute over concatenation. */
  lemma {:induction false} ProjectionsAppend(a: seq<Effect>, b: seq<Effect>)
    ensures Fetches(a + b) == Fetches(a) + Fetches(b)
    ensures Embedded(a + b) == Embedded(a) + Embedded(b)
    ensures Batches(a + b) == Batches(a) + Batches(b)
  {
    if |a| > 0 {
      assert (a + b)[0] == a[0];
      assert (a + b)[1..] == a[1..] + b;
      ProjectionsAppend(a[1..], b);
    } else {
      assert a + b == b;
    }
  }

  /** Embedding calls are neither fetches nor upserts, and embed their texts in order. */
  lemma {:induction false} EmbedEffectsProject(texts: seq<string>)
    ensures Fetches(EmbedEffects(texts)) == [] && Batches(EmbedEffects(texts)) == []
    ensures Embedded(EmbedEffects(texts)) == texts
  {
    if |texts| > 0 {
      var es := EmbedEffects(texts);
      assert es[1..] == EmbedEffects(texts[1..]);
      EmbedEffectsProject(texts[1..]);
      assert [texts[0]] + texts[1..] == texts;
    }
  }

  /** The index after applying the batches, in order, to a starting index. */
  function Replay(index: Index, batches: seq<seq<VectorRecord>>): Index
    decreases |batches|
  {
    if |batches| == 0 then index else Replay(Upsert(index, batches[0]), batches[1..])
  }

  lemma {:induction false} ReplayAppend(index: Index, a: seq<seq<VectorRecord>>, b: seq<seq<VectorRecord>>)
    ensures Replay(index, a + b) == Replay(Replay(index, a), b)
    decreases |a|
  {
    if |a| > 0 {
      assert (a + b)[0] == a[0];
      assert (a + b)[1..] == a[1..] + b;
      ReplayAppend(Upsert(index, a[0]), a[1..], b);
    } else {
      assert a + b == b;
    }
  }

  /** The records, in order, of all the batches. */
  function Concat(batches: seq<seq<VectorRecord>>): seq<VectorRecord> {
    if |batches| == 0 then [] else batches[0] + Concat(batches[1..])
  }

  /** Replaying batches is one upsert of all their records. */
  lemma {:induction false} ReplayIsUpsert(index: Index, batches: seq<seq<VectorRecord>>)
    ensures Replay(index, batches) == Upsert(index, Concat(batches))
    decreases |batches|
  {
    if |batches| > 0 {
      ReplayIsUpsert(Upsert(index, batches[0]), batches[1..]);
      UpsertAppend(index, batches[0], Concat(batches[1..]));
    }
  }

  /** Replaying the same batches twice leaves the index as replaying them once. */
  lemma ReplayIdempotent(index: Index, batches: seq<seq<VectorRecord>>)
    ensures Replay(Replay(index, batches), batches) == Replay(index, batches)
  {
    ReplayIsUpsert(index, batches);
    ReplayIsUpsert(Replay(index, batches), batches);
    UpsertIdempotent(index, Concat(batches));
  }

  /** The handler's filter on change records: the key's extension is supported. */
  predicate Accepts(rec: ChangeRecord) {
    IsSupported(Extension(rec.key))
  }

  /** The change records a filter lets through, in order. */
  function Selected(accept: ChangeRecord -> bool, recs: seq<ChangeRecord>): seq<ChangeRecord> {
    if |recs| == 0 then []
    else (if accept(recs[0]) then [recs[0]] else []) + Selected(accept, recs[1..])
  }

  /** The change records the handler's filter lets through, in order. */
  function Supported(recs: seq<ChangeRecord>): seq<ChangeRecord> {
    Selected(Accepts, recs)
  }

  lemma {:induction false} SelectedAppend(accept: ChangeRecord -> bool, a: seq<ChangeRecord>, b: seq<ChangeRecord>)
    ensures Selected(accept, a + b) == Selected(accept, a) + Selected(accept, b)
  {
    if |a| > 0 {
      assert (a + b)[0] == a[0];
      assert (a + b)[1..] == a[1..] + b;
      SelectedAppend(accept, a[1..], b);
    } else {
      assert a + b == b;
    }
  }

  /** The change records of all messages, in order. */
  function Flatten(msgs: seq<Message>): seq<ChangeRecord> {
    if |msgs| == 0 then [] else msgs[0].records + Flatten(msgs[1..])
  }

  /** The index holds exactly the batches the trace shows upserted, one per processed file. */
  predicate Consistent(index0: Index, s: State) {
    && s.index == Replay(index0, Batches(s.trace))
    && s.processed == |Batches(s.trace)|
  }

  /**
   After an abort the index holds the batches the trace shows, except the
   last one when the index itself refused it.
   */
  predicate ConsistentAfterAbort(index0: Index, s: State, e: HandlerError) {
    var bs := Batches(s.trace);
    if e.IndexWriteFailed? then |bs| > 0 && s.index == Replay(index0, bs[..|bs| - 1])
    else s.index == Replay(index0, bs)
  }

  /**
   What every record outcome satisfies: a skipped record is one with an
   unsupported extension; otherwise exactly one fetch, of that record, and
   one upsert when written. A failure leaves no upsert in the calls, save
   the refused one when the index is what failed.
   */
  predicate Lawful(accept: ChangeRecord -> bool, rec: ChangeRecord, o: RecordOutcome) {
    match o
    case Skipped => !accept(rec)
    case Written(calls, vectors) =>
      accept(rec) && Fetches(calls) == [rec] && Batches(calls) == [vectors]
    case Failed(calls, e) =>
      accept(rec) && Fetches(calls) == [rec]
      && |Batches(calls)| == (if e.IndexWriteFailed? then 1 else 0)
  }

  /** An accepted upsert keeps the state consistent. */
  lemma WrittenStep(index0: Index, s: State, calls: seq<Effect>, vectors: seq<VectorRecord>)
    requires Consistent(index0, s) && Batches(calls) == [vectors]
    ensures Consistent(index0, State(s.trace + calls, Upsert(s.index, vectors), s.processed + 1))
  {
    ProjectionsAppend(s.trace, calls);
    ReplayAppend(index0, Batches(s.trace), [vectors]);
    assert Replay(s.index, [vectors]) == Upsert(s.index, vectors);
  }

  /** A failure after a consistent state leaves the index holding what the trace shows written. */
  lemma FailedStep(index0: Index, s: State, calls: seq<Effect>, e: HandlerError)
    requires Consistent(index0, s) && |Batches(calls)| == (if e.IndexWriteFailed? then 1 else 0)
    ensures ConsistentAfterAbort(index0, s.(trace := s.trace + calls), e)
  {
    ProjectionsAppend(s.trace, calls);
    var bs := Batches(s.trace + calls);
    if e.IndexWriteFailed? {
      assert bs[..|bs| - 1] == Batches(s.trace);
    } else {
      assert bs == Batches(s.trace);
    }
  }

  /** The projections of a single call. */
  lemma SingleEffect(e: Effect)
    ensures Fetches([e]) == (if e.FetchObject? then [ChangeRecord(e.bucket, e.key)] else [])
    ensures Embedded([e]) == (if e.EmbedText? then [e.text] else [])
    ensures Batches([e]) == (if e.UpsertVectors? then [e.vectors] else [])
  {
    assert [e][1..] == [];
  }

  /** The calls of a record whose embedding failed: the fetch, then the embedding calls made. */
  lemma EmbedFailureCalls(rec: ChangeRecord, texts: seq<string>)
    ensures var calls := [FetchObject(rec.bucket, rec.key)] + EmbedEffects(texts);
            Fetches(calls) == [rec] && Batches(calls) == []
  {
    var fetch := [FetchObject(rec.bucket, rec.key)];
    SingleEffect(FetchObject(rec.bucket, rec.key));
    EmbedEffectsProject(texts);
    ProjectionsAppend(fetch, EmbedEffects(texts));
  }

  /** The calls of a record that reached the upsert: the fetch, one embedding per chunk, the upsert. */
  lemma UpsertCalls(rec: ChangeRecord, texts: seq<string>, vectors: seq<VectorRecord>)
    ensures var calls := [FetchObject(rec.bucket, rec.key)] + EmbedEffects(texts) + [UpsertVectors(vectors)];
            && Fetches(calls) == [rec] && Batches(calls) == [vectors] && Embedded(calls) == texts
            && |calls| == |texts| + 2 && calls[0] == FetchObject(rec.bucket, rec.key)
            && calls[|calls| - 1] == UpsertVectors(vectors)
  {
    var fetch := [FetchObject(rec.bucket, rec.key)];
    var upsert := [UpsertVectors(vectors)];
    SingleEffect(FetchObject(rec.bucket, rec.key));
    SingleEffect(UpsertVectors(vectors));
    EmbedEffectsProject(texts);
    ProjectionsAppend(fetch, EmbedEffects(texts));
    ProjectionsAppend(fetch + EmbedEffects(texts), upsert);
  }

  /**
   The calls one record makes: none when its extension is unsupported;
   otherwise exactly one fetch, and one upsert when the record is written.
   A failure leaves no upsert in the calls, save the refused one when the
   index is what failed.
   */
  lemma RecordCalls(rec: ChangeRecord, svc: Services)
    ensures Lawful(Accepts, rec, HandleRecord(rec, svc))
  {
    var ext := Extension(rec.key);
    if IsSupported(ext) {
      var fetch := [FetchObject(rec.bucket, rec.key)];
      match FetchAndExtract(rec, ext, svc)
      case Failure(e) =>
        SingleEffect(FetchObject(rec.bucket, rec.key));
      case Success(text) =>
        var chunks := Chunks(text, ChunkSize, Overlap);
        match EmbedAll(svc.embed, chunks)
        case Failure(i) =>
          EmbedFailureCalls(rec, chunks[..i + 1]);
        case Success(embeddings) =>
          UpsertCalls(rec, chunks, BuildRecords(rec.bucket, rec.key, ext, chunks, embeddings));
    }
  }

  /**
   A written record made exactly: one fetch, one embedding call per chunk of
   its text in chunk order, and one upsert of a record per chunk, record i
   having id `key_chunk_i`, chunk index i, the chunk count as its total and
   the whole chunk as its text.
   */
  lemma WrittenRecord(rec: ChangeRecord, svc: Services)
    requires HandleRecord(rec, svc).Written?
    ensures var o := HandleRecord(rec, svc);
            var r := FetchAndExtract(rec, Extension(rec.key), svc);
            && r.Success?
            && var chunks := Chunks(r.value, ChunkSize, Overlap);
            && |o.calls| == |chunks| + 2
            && o.calls[0] == FetchObject(rec.bucket, rec.key)
            && Embedded(o.calls) == chunks
            && o.calls[|o.calls| - 1] == UpsertVectors(o.vectors)
            && |o.vectors| == |chunks|
            && (forall i :: 0 <= i < |o.vectors| ==>
                  && o.vectors[i].id == VectorId(rec.key, i) && o.vectors[i].metadata.chunkIndex == i
                  && o.vectors[i].metadata.totalChunks == |chunks| && o.vectors[i].metadata.text == chunks[i])
  {
    var ext := Extension(rec.key);
    var text := FetchAndExtract(rec, ext, svc).value;
    var chunks := Chunks(text, ChunkSize, Overlap);
    var embeddings := EmbedAll(svc.embed, chunks).value;
    UpsertCalls(rec, chunks, BuildRecords(rec.bucket, rec.key, ext, chunks, embeddings));
    MetadataHoldsWholeChunk(rec.bucket, rec.key, ext, text, embeddings);
  }

  /** One pass of the inner loop keeps the state consistent. */
  lemma StepConsistent(index0: Index, s: State, accept: ChangeRecord -> bool, rec: ChangeRecord, o: RecordOutcome)
    requires Consistent(index0, s) && Lawful(accept, rec, o)
    ensures match Apply(s, o)
            case Continue(t) => Consistent(index0, t)
            case Abort(t, e) => ConsistentAfterAbort(index0, t, e)
  {
    match o
    case Skipped =>
    case Written(calls, vectors) =>
      WrittenStep(index0, s, calls, vectors);
    case Failed(calls, e) =>
      FailedStep(index0, s, calls, e);
  }

  /** One pass of the inner loop fetches and counts the record exactly when it is supported. */
  lemma StepFetches(s: State, accept: ChangeRecord -> bool, rec: ChangeRecord, o: RecordOutcome)
    requires Lawful(accept, rec, o)
    ensures Apply(s, o).Continue? ==>
              && Fetches(Apply(s, o).state.trace) == Fetches(s.trace) + Selected(accept, [rec])
              && Apply(s, o).state.processed == s.processed + |Selected(accept, [rec])|
  {
    assert [rec][1..] == [];
    if o.Written? {
      ProjectionsAppend(s.trace, o.calls);
    }
  }

  /**
   The inner loop, started from a consistent state, ends in a consistent
   state when it completes; when it aborts, the index holds what the trace
   shows written.
   */
  lemma {:induction false} RunRecordsConsistent(index0: Index, s: State, recs: seq<ChangeRecord>,
                                                accept: ChangeRecord -> bool, body: ChangeRecord -> RecordOutcome)
    requires Consistent(index0, s)
    requires forall rec :: Lawful(accept, rec, body(rec))
    ensures match RunRecords(s, recs, body)
            case Continue(t) => Consistent(index0, t)
            case Abort(t, e) => ConsistentAfterAbort(index0, t, e)
    decreases |recs|
  {
    if |recs| > 0 {
      StepConsistent(index0, s, accept, recs[0], body(recs[0]));
      match Apply(s, body(recs[0]))
      case Abort(_, _) =>
      case Continue(t) => RunRecordsConsistent(index0, t, recs[1..], accept, body);
    }
  }

  /**
   When the inner loop completes, the supported records were fetched in
   order and nothing else was, and each supported record was counted once.
   */
  lemma {:induction false} RunRecordsFetches(s: State, recs: seq<ChangeRecord>,
                                             accept: ChangeRecord -> bool, body: ChangeRecord -> RecordOutcome)
    requires forall rec :: Lawful(accept, rec, body(rec))
    ensures RunRecords(s, recs, body).Continue? ==>
              && Fetches(RunRecords(s, recs, body).state.trace) == Fetches(s.trace) + Selected(accept, recs)
              && RunRecords(s, recs, body).state.processed == s.processed + |Selected(accept, recs)|
    decreases |recs|
  {
    if |recs| > 0 {
      var rec := recs[0];
      assert recs == [rec] + recs[1..];
      SelectedAppend(accept, [rec], recs[1..]);
      StepFetches(s, accept, rec, body(rec));
      match Apply(s, body(rec))
      case Abort(_, _) =>
      case Continue(t) =>
        RunRecordsFetches(t, recs[1..], accept, body);
        if RunRecords(t, recs[1..], body).Continue? {
          var u := RunRecords(t, recs[1..], body).state;
          assert Fetches(u.trace) == (Fetches(s.trace) + Selected(accept, [rec])) + Selected(accept, recs[1..]);
        }
    } else {
      assert Selected(accept, recs) == [];
    }
  }

  /** Running two record lists in turn is running their concatenation; an abort in the first ends both. */
  lemma {:induction false} RunRecordsAppend(s: State, a: seq<ChangeRecord>, b: seq<ChangeRecord>, body: ChangeRecord -> RecordOutcome)
    ensures RunRecords(s, a + b, body) ==
            match RunRecords(s, a, body)
            case Continue(t) => RunRecords(t, b, body)
            case Abort(t, e) => Abort(t, e)
    decreases |a|
  {
    if |a| > 0 {
      assert (a + b)[0] == a[0];
      assert (a + b)[1..] == a[1..] + b;
      match Apply(s, body(a[0]))
      case Abort(_, _) =>
      case Continue(t) => RunRecordsAppend(t, a[1..], b, body);
    } else {
      assert a + b == b;
    }
  }

  /** The nested loop over messages and their records is one loop over all the records. */
  lemma {:induction false} RunMessagesFlat(s: State, msgs: seq<Message>, body: ChangeRecord -> RecordOutcome)
    ensures RunMessages(s, msgs, body) == RunRecords(s, Flatten(msgs), body)
    decreases |msgs|
  {
    if |msgs| > 0 {
      RunRecordsAppend(s, msgs[0].records, Flatten(msgs[1..]), body);
      match RunRecords(s, msgs[0].records, body)
      case Abort(_, _) =>
      case Continue(t) => RunMessagesFlat(t, msgs[1..], body);
    }
  }

  /** Every outcome of the handler's loop body is lawful. */
  lemma BodyLawful(svc: Services)
    ensures forall rec :: Lawful(Accepts, rec, Body(svc)(rec))
  {
    forall rec
      ensures Lawful(Accepts, rec, Body(svc)(rec))
    {
      RecordCalls(rec, svc);
    }
  }

  /**
   `lambda_handler`: on success it answers 200 with the number of supported
   records, having fetched exactly those, upserted one batch for each, and
   left the index as those batches applied in order. On failure there is no
   response, and the index holds every batch written before the failure.
   */
  lemma HandlerLaw(msgs: seq<Message>, index0: Index, svc: Services)
    ensures var inv := LambdaHandler(msgs, index0, svc);
            var recs := Flatten(msgs);
            match inv.result
            case Success(response) =>
              && response == SuccessResponse(|Supported(recs)|) && response.statusCode == 200
              && Fetches(inv.trace) == Supported(recs)
              && |Batches(inv.trace)| == |Supported(recs)|
              && inv.index == Replay(index0, Batches(inv.trace))
            case Failure(e) =>
              ConsistentAfterAbort(index0, State(inv.trace, inv.index, 0), e)
  {
    var s0 := State([], index0, 0);
    BodyLawful(svc);
    RunMessagesFlat(s0, msgs, Body(svc));
    RunRecordsConsistent(index0, s0, Flatten(msgs), Accepts, Body(svc));
    RunRecordsFetches(s0, Flatten(msgs), Accepts, Body(svc));
  }

  /** An aborted record list leaves every later record untouched. */
  lemma FirstFailureStops(s: State, a: seq<ChangeRecord>, b: seq<ChangeRecord>, body: ChangeRecord -> RecordOutcome)
    requires RunRecords(s, a, body).Abort?
    ensures RunRecords(s, a + b, body) == RunRecords(s, a, body)
  {
    RunRecordsAppend(s, a, b, body);
  }

  /** The calls a step makes, the count and the outcome, without the index. */
  datatype Shape = Shape(continues: bool, trace: seq<Effect>, processed: nat)

  function ShapeOf(step: Step): Shape {
    Shape(step.Continue?, step.state.trace, step.state.processed)
  }

  /** Nothing the loop calls or counts depends on what the index held before. */
  lemma {:induction false} RunRecordsIgnoresIndex(trace: seq<Effect>, i1: Index, i2: Index, p: nat,
                                                  recs: seq<ChangeRecord>, body: ChangeRecord -> RecordOutcome)
    ensures ShapeOf(RunRecords(State(trace, i1, p), recs, body)) == ShapeOf(RunRecords(State(trace, i2, p), recs, body))
    decreases |recs|
  {
    if |recs| > 0 {
      match body(recs[0])
      case Skipped =>
        RunRecordsIgnoresIndex(trace, i1, i2, p, recs[1..], body);
      case Written(calls, vectors) =>
        RunRecordsIgnoresIndex(trace + calls, Upsert(i1, vectors), Upsert(i2, vectors), p + 1, recs[1..], body);
      case Failed(_, _) =>
    }
  }

  /**
   Redelivering the same messages to services that answer as before, after
   a run that succeeded, leaves the index as it was: the ids and records
   written are the same, and an upsert overwrites.
   */
  lemma RerunIsIdempotent(msgs: seq<Message>, index0: Index, svc: Services)
    requires LambdaHandler(msgs, index0, svc).result.Success?
    ensures var first := LambdaHandler(msgs, index0, svc);
            var second := LambdaHandler(msgs, first.index, svc);
            second.result == first.result && second.trace == first.trace && second.index == first.index
  {
    var first := LambdaHandler(msgs, index0, svc);
    var recs := Flatten(msgs);
    RunMessagesFlat(State([], index0, 0), msgs, Body(svc));
    RunMessagesFlat(State([], first.index, 0), msgs, Body(svc));
    RunRecordsIgnoresIndex([], index0, first.index, 0, recs, Body(svc));
    HandlerLaw(msgs, index0, svc);
    HandlerLaw(msgs, first.index, svc);
    ReplayIdempotent(index0, Batches(first.trace));
  }
}
