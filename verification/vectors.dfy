/**
 Vector records for the index: one record per chunk, with id
 `key_chunk_i`, the chunk's embedding, and metadata naming the source
 object, the chunk's position, its first 1000 characters, the file type and
 the number of chunks. The index stores records by id and an upsert
 overwrites, so the last record written under an id wins.
 */
module Vectors {
  import opened Wrappers
  import opened Strings
  import Chunking

  /** An embedding vector; its floating-point values are not interpreted. */
  type Embedding = seq<real>

  /** How many characters of a chunk the metadata keeps. */
  const MetadataTextLimit: nat := 1000

  datatype Metadata = Metadata(
    source: string,
    chunkIndex: nat,
    text: string,
    fileType: string,
    totalChunks: nat)

  datatype VectorRecord = VectorRecord(id: string, values: Embedding, metadata: Metadata)

  /** The separator between the object key and the chunk number in an id. */
  const ChunkTag: string := "_chunk_"

  /** `f"{object_key}_chunk_{i}"`. */
  function VectorId(key: string, i: nat): string {
    key + ChunkTag + NatToString(i)
  }

  /** `f"s3://{bucket_name}/{object_key}"`. */
  function SourceUri(bucket: string, key: string): string {
    "s3://" + bucket + "/" + key
  }

  /**
   Reads an id back into its key and chunk number: the number is the digit
   run after the last `_`, and the key is what precedes `_chunk_`.
   */
  function ParseVectorId(id: string): Option<(string, nat)> {
    var u := LastIndexOf(id, '_');
    if u < |ChunkTag| - 1 || id[u - (|ChunkTag| - 1) .. u + 1] != ChunkTag then None
    else
      var digits := id[u + 1..];
      if |digits| > 0 && IsDecimal(digits) then Some((id[..u - (|ChunkTag| - 1)], ParseNat(digits)))
      else None
  }

  /** An id gives back the key and chunk number it was made from. */
  lemma ParseVectorIdInverse(key: string, i: nat)
    ensures ParseVectorId(VectorId(key, i)) == Some((key, i))
  {
    var id := VectorId(key, i);
    var digits := NatToString(i);
    var u := |key| + |ChunkTag| - 1;
    assert id[u] == '_';
    forall t | u < t < |id|
      ensures id[t] != '_'
    {
      assert id[t] == digits[t - u - 1];
      assert IsDigit(digits[t - u - 1]);
    }
    LastIndexOfLast(id, '_', u);
    assert id[u - (|ChunkTag| - 1) .. u + 1] == ChunkTag;
    assert id[u + 1..] == digits;
    assert id[..|key|] == key;
  }

  /** Distinct (key, chunk number) pairs give distinct ids, across all objects. */
  lemma VectorIdInjective(key: string, i: nat, key': string, i': nat)
    requires VectorId(key, i) == VectorId(key', i')
    ensures key == key' && i == i'
  {
    ParseVectorIdInverse(key, i);
    ParseVectorIdInverse(key', i');
  }

  /** The record for chunk i of n: `chunk[:1000]` in the metadata, the extension as written. */
  function MakeRecord(bucket: string, key: string, ext: string, chunks: seq<string>, i: nat, values: Embedding): (r: VectorRecord)
    requires i < |chunks|
  {
    VectorRecord(
      VectorId(key, i),
      values,
      Metadata(SourceUri(bucket, key), i, Prefix(chunks[i], MetadataTextLimit), ext, |chunks|))
  }

  /** The ids of one key's chunks are pairwise distinct. */
  lemma VectorIdsDistinct(key: string, n: nat)
    ensures forall i, j :: 0 <= i < j < n ==> VectorId(key, i) != VectorId(key, j)
  {
    forall i, j | 0 <= i < j < n
      ensures VectorId(key, i) != VectorId(key, j)
    {
      if VectorId(key, i) == VectorId(key, j) {
        VectorIdInjective(key, i, key, j);
      }
    }
  }

  /**
   The records for a document's chunks, in chunk order, from the embeddings
   obtained for them one by one.
   */
  function BuildRecords(bucket: string, key: string, ext: string, chunks: seq<string>, embeddings: seq<Embedding>): (rs: seq<VectorRecord>)
    requires |embeddings| == |chunks|
    ensures |rs| == |chunks|
    ensures forall i :: 0 <= i < |rs| ==> rs[i] == MakeRecord(bucket, key, ext, chunks, i, embeddings[i])
    ensures forall i :: 0 <= i < |rs| ==> rs[i].id == VectorId(key, i) && rs[i].metadata.totalChunks == |rs|
    ensures forall i, j :: 0 <= i < j < |rs| ==> rs[i].id != rs[j].id
  {
    VectorIdsDistinct(key, |chunks|);
    seq(|chunks|, i requires 0 <= i < |chunks| => MakeRecord(bucket, key, ext, chunks, i, embeddings[i]))
  }

  /**
   Record i carries id `key_chunk_i`, chunk index i, the same total in every
   record, the source URI, the un-lowercased extension and the chunk's
   embedding; its metadata text is a prefix of the chunk, all of it when the
   chunk has at most 1000 characters.
   */
  lemma RecordFields(bucket: string, key: string, ext: string, chunks: seq<string>, embeddings: seq<Embedding>, i: nat)
    requires |embeddings| == |chunks| && i < |chunks|
    ensures var r := BuildRecords(bucket, key, ext, chunks, embeddings)[i];
            && r.id == VectorId(key, i) && r.values == embeddings[i]
            && r.metadata.source == SourceUri(bucket, key) && r.metadata.chunkIndex == i
            && r.metadata.totalChunks == |chunks| && r.metadata.fileType == ext
            && |r.metadata.text| <= MetadataTextLimit && r.metadata.text == chunks[i][..|r.metadata.text|]
            && (|chunks[i]| <= MetadataTextLimit ==> r.metadata.text == chunks[i])
  {
  }

  /**
   The chunker's chunks at the handler's parameters are at most 1000
   characters, so every record's metadata holds its whole chunk.
   */
  lemma MetadataHoldsWholeChunk(bucket: string, key: string, ext: string, text: string, embeddings: seq<Embedding>)
    requires |embeddings| == |Chunking.Chunks(text, Chunking.ChunkSize, Chunking.Overlap)|
    ensures var chunks := Chunking.Chunks(text, Chunking.ChunkSize, Chunking.Overlap);
            var rs := BuildRecords(bucket, key, ext, chunks, embeddings);
            forall i :: 0 <= i < |rs| ==> rs[i].metadata.text == chunks[i]
  {
    Chunking.ChunksInOrder(text, Chunking.ChunkSize, Chunking.Overlap);
  }

  /** The vector index: records by id. */
  type Index = map<string, VectorRecord>

  /** `index.upsert(vectors)`: each record, in order, overwrites its id. */
  function Upsert(index: Index, rs: seq<VectorRecord>): Index {
    if |rs| == 0 then index
    else
      var n := |rs| - 1;
      Upsert(index, rs[..n])[rs[n].id := rs[n]]
  }

  /** The last record in `rs` with id `k`, if any. */
  function LastWriter(rs: seq<VectorRecord>, k: string): (w: Option<VectorRecord>)
    ensures w.Some? ==> w.value.id == k && w.value in rs
    ensures w.None? ==> forall j :: 0 <= j < |rs| ==> rs[j].id != k
  {
    if |rs| == 0 then None
    else if rs[|rs| - 1].id == k then Some(rs[|rs| - 1])
    else LastWriter(rs[..|rs| - 1], k)
  }

  /**
   After an upsert an id holds the last record written under it; an id not
   written keeps whatever it held before.
   */
  lemma {:induction false} UpsertLookup(index: Index, rs: seq<VectorRecord>, k: string)
    ensures var after := Upsert(index, rs);
            match LastWriter(rs, k)
            case Some(r) => k in after && after[k] == r
            case None => (k in after <==> k in index) && (k in index ==> after[k] == index[k])
  {
    if |rs| > 0 {
      UpsertLookup(index, rs[..|rs| - 1], k);
    }
  }

  /** Upserting the same records again changes nothing: a rerun is idempotent. */
  lemma UpsertIdempotent(index: Index, rs: seq<VectorRecord>)
    ensures Upsert(Upsert(index, rs), rs) == Upsert(index, rs)
  {
    var once := Upsert(index, rs);
    var twice := Upsert(once, rs);
    forall k | k in twice || k in once
      ensures k in twice && k in once && twice[k] == once[k]
    {
      UpsertLookup(index, rs, k);
      UpsertLookup(once, rs, k);
    }
  }

  /** Upserting two batches in turn is upserting their concatenation. */
  lemma {:induction false} UpsertAppend(index: Index, rs: seq<VectorRecord>, more: seq<VectorRecord>)
    ensures Upsert(Upsert(index, rs), more) == Upsert(index, rs + more)
  {
    if |more| > 0 {
      var n := |more| - 1;
      UpsertAppend(index, rs, more[..n]);
      var all := rs + more;
      assert all[..|rs| + n] == rs + more[..n];
      assert all[|rs| + n] == more[n];
      assert Upsert(index, all) == Upsert(index, all[..|rs| + n])[more[n].id := more[n]];
    } else {
      assert rs + more == rs;
    }
  }

  /** With distinct ids, every record of the batch is stored under its own id. */
  lemma UpsertStoresEach(index: Index, rs: seq<VectorRecord>, i: nat)
    requires i < |rs|
    requires forall a, b :: 0 <= a < b < |rs| ==> rs[a].id != rs[b].id
    ensures rs[i].id in Upsert(index, rs) && Upsert(index, rs)[rs[i].id] == rs[i]
  {
    UpsertLookup(index, rs, rs[i].id);
    var w := LastWriter(rs, rs[i].id).value;
    var j :| 0 <= j < |rs| && rs[j] == w;
    assert rs[j].id == rs[i].id;
  }

  /**
   Ids do not depend on the bucket: the same key written from a second bucket
   replaces, chunk for chunk, the records the first bucket wrote.
   */
  lemma SameKeyAcrossBuckets(index: Index, bucket1: string, bucket2: string, key: string, ext: string,
                             chunks: seq<string>, e1: seq<Embedding>, e2: seq<Embedding>, i: nat)
    requires |e1| == |chunks| && |e2| == |chunks| && i < |chunks|
    ensures var rs1 := BuildRecords(bucket1, key, ext, chunks, e1);
            var rs2 := BuildRecords(bucket2, key, ext, chunks, e2);
            var after := Upsert(Upsert(index, rs1), rs2);
            && rs1[i].id == rs2[i].id
            && VectorId(key, i) in after && after[VectorId(key, i)] == rs2[i]
            && after[VectorId(key, i)].metadata.source == SourceUri(bucket2, key)
  {
    var rs2 := BuildRecords(bucket2, key, ext, chunks, e2);
    UpsertStoresEach(Upsert(index, BuildRecords(bucket1, key, ext, chunks, e1)), rs2, i);
  }
}
