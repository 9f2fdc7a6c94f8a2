# s3-pinecone-processor ingestion pipeline, in Dafny

This project models the ingestion pipeline of `lambda_function.py`. A queue
delivers messages. Each message body holds object-store change records
(bucket and key). For every record, in order, `lambda_handler` does this:

1. It skips keys whose extension (from `os.path.splitext`, lowercased) is not
   `.txt`, `.md`, `.docx` or `.pdf`.
2. It fetches the object.
3. `extract_text` extracts the text:
   - `.txt` and `.md` are decoded as UTF-8, falling back to Latin-1;
   - `.docx` and `.pdf` keep their non-blank paragraphs or pages, joined with newlines.
4. `chunk_text` cuts the text into 1000-character windows that start every 800
   characters. Windows whose `strip()` is empty are dropped.
5. It embeds each chunk.
6. It builds one vector record per chunk. The id is `key_chunk_i`; the metadata
   holds the source URI, the chunk index, the first 1000 characters, the
   extension and the chunk count.
7. It upserts the records as one batch and counts the file.

The first exception aborts the whole invocation. Batches already upserted stay
written. On success the handler answers 200 with
`"Successfully processed N files"`.

Modules, one per component:

| file | module | what it holds |
|---|---|---|
| `wrappers.dfy` | `Wrappers` | `Option`, `Result` |
| `strings.dfy` | `Strings` | `isspace`/`strip` truthiness, the non-blank filter, `join`, `split`, `find`/`rfind`, ASCII `lower`, `str(n)` |
| `unicode.dfy` | `Unicode` | UTF-8 (RFC 3629) encode/decode, Latin-1 |
| `paths.dfy` | `Paths` | POSIX `os.path.splitext` |
| `chunking.dfy` | `Chunking` | `chunk_text`: its loop and its sliding-window specification |
| `extraction.dfy` | `Extraction` | the dispatch table and the three extractors |
| `vectors.dfy` | `Vectors` | ids, records, the index as a map and upsert as overwrite |
| `handler.dfy` | `Handler` | `lambda_handler` as a fold over the records, with a trace of service calls |
| `handler_laws.dfy` | `HandlerLaws` | what the handler promises, stated over that trace |

The object store, the document parsers, the embedding service and the index's
acceptance of a batch are fields of a `Services` value. Each is a
deterministic function of its arguments returning `Option` or `bool`: the
same arguments get the same answer throughout a run, and the index's
acceptance of a batch sees only the batch. Every call the handler
makes is recorded, in order, as a `FetchObject`, `EmbedText` or
`UpsertVectors` effect.

## Model

| member | source | states |
|---|---|---|
| Strings.IsWhitespace | lambda_function.py:43 | no contract: the exact set of characters CPython's `str.isspace` (and so `strip()`) treats as whitespace, U+0009–U+000D, U+001C–U+0020, U+0085, U+00A0, U+1680, U+2000–U+200A, U+2028, U+2029, U+202F, U+205F, U+3000; its meaning for the filters in `NonBlankIsStripTruthy` and `NonBlankIff` |
| Strings.NonBlankIsStripTruthy | lambda_function.py:88 | the filter the chunker, the Word extractor and the PDF extractor apply holds exactly when `strip()` of the string is non-empty |
| Strings.NonBlankIff | lambda_function.py:43 | a string is non-blank exactly when one of its characters is not whitespace |
| Strings.KeptIff | lambda_function.py:42-44 | the filter keeps part k exactly when that part is non-blank |
| Strings.KeptIncreasing | lambda_function.py:42-44 | the kept parts keep their original order |
| Strings.JoinPlacement | lambda_function.py:46 | in `sep.join(parts)` every part j sits at its offset, right after a separator when j > 0 |
| Strings.JoinOffsetValue | lambda_function.py:46 | part j of a join starts after the lengths of the parts before it plus j separators |
| Strings.AsciiLower | lambda_function.py:71 | no contract: ASCII lowercasing of an extension; its use by the filter (line 124) and dispatch (line 71) is stated in `Extraction.FilterMatchesDispatch` and `Extraction.DispatchTable` |
| Strings.SplitJoin | lambda_function.py:46 | splitting a `join` at a separator no part contains gives back the parts |
| Strings.NatToString | lambda_function.py:150 | `str(i)` is a canonical decimal numeral with no leading zero that parses back to i |
| Unicode.DecodeEncode | lambda_function.py:32 | every string round-trips through UTF-8 encoding and strict decoding |
| Unicode.DecodeIff | lambda_function.py:31-34 | strict UTF-8 decoding gives s exactly when s encodes to the bytes, so any other input raises |
| Unicode.Latin1RoundTrip | lambda_function.py:34 | Latin-1 decoding loses nothing: encoding the result gives the bytes back |
| Extraction.DecodePlainText | lambda_function.py:29-34 | the text of a `.txt`/`.md` file encodes back to its bytes, under UTF-8 when they are valid UTF-8 and under Latin-1 otherwise |
| Extraction.PlainTextUtf8 | lambda_function.py:31-32 | valid UTF-8 content yields the one string that encodes to it |
| Extraction.PlainTextLatin1 | lambda_function.py:33-34 | invalid UTF-8 yields one character per byte, character i having code point `content[i]` |
| Extraction.JoinNonBlankEmptyIff | lambda_function.py:37-46 | the assembled document text is empty exactly when every paragraph or page is blank |
| Extraction.JoinNonBlank | lambda_function.py:40-46 | no contract: the Word and PDF assembly, `'\n'.join` of the parts with non-empty `strip()`; its meaning in `JoinNonBlankPlacement`, `JoinNonBlankEmptyIff` and `Strings.KeptIff` |
| Extraction.JoinNonBlankPlacement | lambda_function.py:49-59 | for every list of parts: the assembled text is the non-blank parts end to end with one newline between neighbours; kept part j starts at the total length of the kept parts before it plus j, after a newline when j > 0, and the text's length is the kept parts' total plus the newlines between them |
| Extraction.JoinNonBlankSplits | lambda_function.py:49-59 | when no part contains a newline and at least one part is non-blank, splitting the assembled text at newlines gives exactly the non-blank parts, in order (for all-blank parts the text is empty and `split` gives `[""]`) |
| Extraction.FilterMatchesDispatch | lambda_function.py:64-73 | the handler's extension filter and the keys of the dispatch table are the same set, so an extension that passes the filter is never rejected by dispatch |
| Extraction.DispatchTable | lambda_function.py:64-73 | dispatch ignores letter case; `.txt` and `.md` select the plain-text extractor, `.docx` and `.pdf` the others; `.doc`, `.markdown` and the empty extension select none |
| Extraction.ExtractText | lambda_function.py:29-75 | the unsupported-type error is raised exactly for an unsupported extension; a `.txt`/`.md` extension in any letter case yields the plain-text decoding of the bytes; a `.docx`/`.pdf` extension yields the newline-join of the non-blank paragraphs or pages when the document parses and a malformed-document error of that format when it does not |
| Extraction.TxtAndMdAgree | lambda_function.py:65-66 | `.txt` and `.MD` content is extracted identically, by the plain-text decoder |
| Paths.SplitExt | lambda_function.py:122 | root plus extension is the key; the extension is empty or a dot followed by neither dots nor slashes |
| Paths.ExtensionOfName | lambda_function.py:122 | a name `stem + ext` whose stem ends in neither `/` nor `.` has extension `ext`, whatever directories it holds |
| Paths.HiddenFileHasNoExtension | lambda_function.py:122-126 | a file named like `.md`, with its only dot first, has no extension, so it is skipped |
| Paths.FolderMarkerHasNoExtension | lambda_function.py:122-126 | a key ending in `/` has no extension, so it is skipped |
| Paths.ExtensionExamples | lambda_function.py:122 | `.md` has no extension; `notes.tar.gz` has `.gz`; `docs/Report.PDF` has `.PDF` |
| Paths.ExtensionShape | lambda_function.py:122 | a non-empty extension starts at the last dot of the file name, after some non-dot character of that name |
| Chunking.Chunks | lambda_function.py:84-91 | no contract: the specification `ChunkText` meets, the non-blank windows at offsets k·(size − overlap) below the text length; its meaning in `ChunkText`, `ChunkIsWindow`, `WindowKeptIff`, `NonWhitespaceCovered` and `ChunksEmptyIff` |
| Chunking.ChunkText | lambda_function.py:78-93 | the loop terminates and returns exactly the non-blank windows of the sliding-window specification |
| Chunking.ChunkIsWindow | lambda_function.py:84-89 | chunk j is the slice `text[s:s+size]`, clamped at the end, for a start s = k·(size − overlap) inside the text |
| Chunking.ChunksInOrder | lambda_function.py:84-91 | every chunk is non-blank and at most `size` long, and chunk starts strictly increase |
| Chunking.WindowKeptIff | lambda_function.py:86-89 | the window at k·stride inside the text is returned exactly when it is non-blank |
| Chunking.LastWindowReachesEnd | lambda_function.py:84-91 | a non-empty text has ceil(len/stride) windows; the last one starts inside the text and reaches its end |
| Chunking.NonWhitespaceCovered | lambda_function.py:84-91 | every non-whitespace character of the text lies in some returned chunk, at its own position |
| Chunking.ChunksEmptyIff | lambda_function.py:78-93 | no chunk is returned exactly when the text is empty or all whitespace |
| Chunking.NoBlankWindowKeepsAll | lambda_function.py:84-91 | with no blank window, every window is a chunk, ceil(len/stride) of them |
| Chunking.DefaultParams2400 | lambda_function.py:144 | at 1000/200, a 2400-character text with no blank window gives chunks [0,1000), [800,1800), [1600,2400) |
| Chunking.DefaultParams1500 | lambda_function.py:144 | at 1000/200, a 1500-character text with no blank window gives chunks [0,1000), [800,1500) |
| Vectors.VectorId | lambda_function.py:150 | no contract: `f"{object_key}_chunk_{i}"`; its meaning in `ParseVectorIdInverse` and `VectorIdInjective` |
| Vectors.ParseVectorIdInverse | lambda_function.py:150 | the id `key_chunk_i` can be read back into key and i |
| Vectors.VectorIdInjective | lambda_function.py:150 | distinct (key, chunk index) pairs give distinct ids |
| Vectors.BuildRecords | lambda_function.py:148-165 | one record per chunk, record i carrying id `key_chunk_i` and the chunk count as its total, and the ids of one document pairwise distinct |
| Vectors.VectorIdsDistinct | lambda_function.py:149-150 | the ids `key_chunk_0`, `key_chunk_1`, ... of one key are pairwise distinct |
| Vectors.RecordFields | lambda_function.py:155-165 | record i has id `key_chunk_i`, its embedding, the source URI, chunk index i, the un-lowercased extension, the chunk count, and a metadata text that is the chunk's first at most 1000 characters |
| Vectors.MetadataHoldsWholeChunk | lambda_function.py:144-161 | at the handler's parameters, every record's metadata text is its whole chunk |
| Vectors.Upsert | lambda_function.py:169 | no contract: each record, in order, overwrites its id; its meaning in `UpsertLookup`, `UpsertIdempotent` and `UpsertAppend` |
| Vectors.UpsertLookup | lambda_function.py:169 | after an upsert an id holds the last record written under it, and an id not written keeps its old contents |
| Vectors.UpsertIdempotent | lambda_function.py:169 | upserting the same records twice leaves the index as upserting them once |
| Vectors.UpsertAppend | lambda_function.py:169 | upserting two batches in turn is upserting their concatenation |
| Vectors.UpsertStoresEach | lambda_function.py:169 | with distinct ids, every record of the batch is stored under its own id |
| Vectors.SameKeyAcrossBuckets | lambda_function.py:150-159 | ids do not mention the bucket: the same key written from a second bucket overwrites the first bucket's records chunk for chunk |
| Handler.EmbedAll | lambda_function.py:149-153 | chunks are embedded in order; success gives one embedding per chunk; failure names the first chunk refused, all earlier ones having been embedded |
| Handler.FetchAndExtract | lambda_function.py:129-139 | after the filter, only a failed fetch or a malformed Word or PDF document can fail; it succeeds exactly when the fetch and the extraction both do, with the extracted text of the fetched bytes |
| Handler.HandleRecord | lambda_function.py:122-132 | a record is skipped exactly when its extension is unsupported; otherwise its first call is the fetch of that object |
| HandlerLaws.RecordCalls | lambda_function.py:120-178 | a handled record makes exactly one fetch, of itself; written, it makes exactly one upsert, of its vectors; failed, it makes none, except the refused one when the index failed |
| HandlerLaws.WrittenRecord | lambda_function.py:144-169 | a written record makes the fetch, one embedding call per chunk in order, and one upsert of one record per chunk with id `key_chunk_i`, index i, the chunk count and the whole chunk |
| HandlerLaws.ReplayIdempotent | lambda_function.py:169 | replaying the same upserted batches twice leaves the index as replaying them once |
| HandlerLaws.RunRecordsConsistent | lambda_function.py:114-178 | the loop keeps the index equal to the batches the trace shows upserted, and after an abort it holds every batch written before the failure |
| HandlerLaws.RunRecordsFetches | lambda_function.py:114-172 | a completed loop fetched exactly the supported records, in order, and counted each once |
| HandlerLaws.RunMessagesFlat | lambda_function.py:111-114 | the nested loop over messages and records is one loop over all records in order |
| HandlerLaws.FirstFailureStops | lambda_function.py:174-178 | once a record fails, no later record is touched |
| HandlerLaws.RunRecordsIgnoresIndex | lambda_function.py:114-172 | given index answers that do not depend on its contents, the calls made, the count and the outcome do not depend on what the index held before |
| Handler.LambdaHandler | lambda_function.py:106-183 | no contract: the fold over all messages and records from an empty trace and a count of 0, answering 200 with the count or raising the first error; its meaning in `HandlerLaws.HandlerLaw` |
| HandlerLaws.HandlerLaw | lambda_function.py:106-183 | on success: status 200 with the count of supported records, exactly those fetched, one batch each, and the index is those batches applied in order; on failure: the index holds every batch written before it |
| HandlerLaws.RerunIsIdempotent | lambda_function.py:106-183 | given services whose answers do not depend on the index's contents or on earlier calls, redelivering a batch that succeeded gives the same response and calls and leaves the index unchanged |

## Left out

- Logging (`print`, `traceback`), import-time failures and environment variables are not modelled.
- Unpacking the event is not modelled. Messages arrive already parsed into change records, so `json.loads` of a body and missing-field `KeyError`s are out.
- The clients (object store, OpenAI, Pinecone) become the `Services` parameters. The embedding model name and 1024 dimensions are not modelled. Embeddings are `seq<real>`, never inspected.
- python-docx and pypdf are not part of this model. A document parses to a sequence of paragraph or page texts, or fails.
- The upsert is given one `bool` for whether the index accepts the batch. A refused batch is taken to write nothing, though Pinecone's partial writes are not modelled.
- `pc_namespace` is read at start-up but never passed to `upsert`, so the model has one index and no namespaces.
- Extensions are lowercased ASCII-only (`AsciiLower`). Full Unicode `lower()` maps non-ASCII letters too, but only U+212A (to `k`) and U+0130 (to `i` followed by U+0307) lower to ASCII letters, and neither `k` nor `i` occurs in `.txt`, `.md`, `.docx` or `.pdf`. So filtering and dispatch come out the same.
- `json.dumps` of the success message is written as the string in double quotes. The message contains nothing that needs escaping.
- Chunking.ChunkText: takes `size` and `overlap` as `nat` and requires `overlap < size`. The source also accepts a negative overlap; the stride then exceeds the window, characters between windows are never chunked, and the loop still ends. With `overlap >= size` the source returns `[]` at once for an empty text and loops forever on any other text. The handler always passes 1000/200, and the model states no configuration error for the other cases.
- The handler has no filter for deletion events, zero-length objects or empty extracted text, and neither has the model. A key ending in `/` is skipped only because it has no extension (`Paths.FolderMarkerHasNoExtension`).
- Vector ids are `key_chunk_i` with no bucket in them; `Vectors.SameKeyAcrossBuckets` states the consequence.
- HandlerLaws.RunRecordsIgnoresIndex: services are stateless: each answers the same for the same arguments throughout a run, and the index's acceptance ignores its contents; this lemma and `HandlerLaws.RerunIsIdempotent` rest on that. An index that refuses a batch because of what it already holds (a capacity or quota limit), or an embedding call that fails transiently on a text embedded earlier, cannot be expressed.
- Redelivery and retries by the queue are outside the handler. `HandlerLaws.RerunIsIdempotent` states what a redelivery of a successful batch does.
