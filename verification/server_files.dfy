/**
 `ServerFileManager`: the relay server's store of offered files. An offer
 registers the file's metadata and an empty chunk map; chunks are collected
 until their number reaches the file's chunk count, and then the file is
 written to its path under the temporary directory and checked against the
 stored SHA-256 digest. The directory is a map from path to contents and
 SHA-256 is a parameter returning 64 hex digits.
 */
module ServerFiles {
  import opened Basics
  import opened TransferInfo

  /** A `hexdigest()`: 64 characters. */
  type Digest = s: string | |s| == 64
    witness "0000000000000000000000000000000000000000000000000000000000000000"

  type Sha256 = Bytes -> Digest

  /** `stored_files`, `file_chunks` and the temporary directory's files. */
  datatype Store = Store(
    stored: map<string, Info>,
    chunks: map<string, map<int, Bytes>>,
    disk: map<string, Bytes>)

  /** Every chunk map belongs to a stored file: offers create both, cleanup drops both. */
  predicate Inv(st: Store) {
    st.chunks.Keys <= st.stored.Keys
  }

  const Empty: Store := Store(map[], map[], map[])

  /** The file name `{file_id}_{filename}` under the temporary directory. */
  function PathOf(fileId: string, filename: string): string {
    fileId + "_" + filename
  }

  /** The stored file's path. */
  function PathOfStored(st: Store, fileId: string): string
    requires fileId in st.stored
  {
    PathOf(fileId, st.stored[fileId].filename)
  }

  /** `handle_file_offer`: (re)register the metadata and start an empty chunk map. */
  function Offer(st: Store, fileId: string, filename: string, fileSize: int,
                 checksum: string, uploader: string, now: real): (st': Store)
    requires Inv(st)
    ensures Inv(st')
    ensures st'.stored == st.stored[fileId := NewInfo(fileId, filename, fileSize, 0, checksum, uploader, 0.0, now)]
    ensures st'.chunks == st.chunks[fileId := map[]]
    ensures st'.disk == st.disk
  {
    st.(stored := st.stored[fileId := NewInfo(fileId, filename, fileSize, 0, checksum, uploader, 0.0, now)],
        chunks := st.chunks[fileId := map[]])
  }

  /**
   `_assemble_file`: write chunks `0 .. total - 1` in order. A missing chunk
   stops the write and leaves the partial file on disk; a digest mismatch
   deletes the file; only on success is the chunk map dropped.
   */
  function AssembleFile(st: Store, fileId: string, sha: Sha256): (r: (Store, bool))
    requires Inv(st) && fileId in st.chunks
    ensures Inv(r.0) && r.0.stored == st.stored
    ensures var info := st.stored[fileId];
            var (written, complete) := Gather(st.chunks[fileId], 0, info.totalChunks);
            && (r.1 <==> complete && sha(written) == info.checksum)
            && (r.1 ==> r.0.chunks == st.chunks - {fileId} && r.0.disk == st.disk[PathOfStored(st, fileId) := written])
            && (!complete ==> r.0.chunks == st.chunks && r.0.disk == st.disk[PathOfStored(st, fileId) := written])
            && (complete && !r.1 ==> r.0.chunks == st.chunks && r.0.disk == st.disk - {PathOfStored(st, fileId)})
  {
    var info := st.stored[fileId];
    var path := PathOfStored(st, fileId);
    var (written, complete) := Gather(st.chunks[fileId], 0, info.totalChunks);
    if !complete then (st.(disk := st.disk[path := written]), false)
    else if sha(written) != info.checksum then (st.(disk := st.disk - {path}), false)
    else (st.(disk := st.disk[path := written], chunks := st.chunks - {fileId}), true)
  }

  /**
   `handle_file_chunk` as written: `False` for a file with no chunk map;
   otherwise store the chunk, assemble once the number of distinct stored
   indices equals the chunk count, and answer `True` whatever the assembly
   gave.
   */
  function HandleChunk(st: Store, fileId: string, index: int, data: Bytes, sha: Sha256): (r: (Store, bool))
    requires Inv(st)
    ensures Inv(r.0) && r.0.stored == st.stored
    ensures r.1 <==> fileId in st.chunks
    ensures !r.1 ==> r.0 == st
    ensures r.1 ==>
      var cm := st.chunks[fileId][index := data];
      var st1 := st.(chunks := st.chunks[fileId := cm]);
      r.0 == (if |cm.Keys| == st.stored[fileId].totalChunks then AssembleFile(st1, fileId, sha).0 else st1)
  {
    if fileId !in st.chunks then (st, false)
    else
      var cm := st.chunks[fileId][index := data];
      var st1 := st.(chunks := st.chunks[fileId := cm]);
      if |cm.Keys| == st.stored[fileId].totalChunks then (AssembleFile(st1, fileId, sha).0, true)
      else (st1, true)
  }

  /**
   The evidently intended chunk handling: the digest carried by each
   `file_chunk` message (the uploader's SHA-256 of the whole file) replaces
   the placeholder recorded with the offer, then the chunk is stored as above.
   */
  function HandleChunkChecked(st: Store, fileId: string, index: int, data: Bytes,
                              checksum: Option<string>, sha: Sha256): (r: (Store, bool))
    requires Inv(st)
    ensures Inv(r.0)
    ensures r.1 <==> fileId in st.chunks
    ensures !r.1 ==> r.0 == st
    ensures r.1 && checksum.Some? ==> r.0.stored == st.stored[fileId := st.stored[fileId].(checksum := checksum.value)]
  {
    if fileId !in st.chunks then (st, false)
    else if checksum.Some? then
      HandleChunk(st.(stored := st.stored[fileId := st.stored[fileId].(checksum := checksum.value)]), fileId, index, data, sha)
    else HandleChunk(st, fileId, index, data, sha)
  }

  /** `get_file_path`: the stored file's path, if that file exists. */
  function FilePath(st: Store, fileId: string): (p: Option<string>)
    ensures p.Some? <==> fileId in st.stored && PathOfStored(st, fileId) in st.disk
    ensures p.Some? ==> p.value == PathOfStored(st, fileId)
  {
    if fileId in st.stored && PathOfStored(st, fileId) in st.disk then Some(PathOfStored(st, fileId)) else None
  }

  /** `get_available_files`: the stored files whose path exists. */
  function AvailableFiles(st: Store): (files: map<string, Info>)
    ensures forall id :: id in files <==> FilePath(st, id).Some?
    ensures forall id :: id in files ==> id in st.stored && files[id] == st.stored[id]
  {
    map id | id in st.stored && FilePath(st, id).Some? :: st.stored[id]
  }

  /** `cleanup_session_files`: delete every stored file's path and forget all files. */
  function Cleanup(st: Store): (st': Store)
    ensures st'.stored == map[] && st'.chunks == map[] && Inv(st')
    ensures forall p :: p in st'.disk <==> p in st.disk && forall id :: id in st.stored ==> p != PathOfStored(st, id)
    ensures forall p :: p in st'.disk ==> st'.disk[p] == st.disk[p]
  {
    Store(map[], map[], map p | p in st.disk && (forall id :: id in st.stored ==> p != PathOfStored(st, id)) :: st.disk[p])
  }

  /** After cleanup nothing is available for download. */
  lemma CleanupNothingAvailable(st: Store)
    ensures AvailableFiles(Cleanup(st)) == map[]
  {
  }

  // ---------------------------------------------------------------------------
  // Uploading a whole file
  // ---------------------------------------------------------------------------

  /** The uploader's chunks `i .. n - 1` of `data`, in order, through the as-written handler. */
  function Deliver(st: Store, fileId: string, data: Bytes, i: nat, sha: Sha256): (st': Store)
    requires Inv(st)
    ensures Inv(st')
    decreases CeilChunks(|data|) - i
  {
    if i >= CeilChunks(|data|) then st
    else Deliver(HandleChunk(st, fileId, i, ChunkOf(data, i), sha).0, fileId, data, i + 1, sha)
  }

  /** The same chunks through the corrected handler, each carrying the file's digest. */
  function DeliverChecked(st: Store, fileId: string, data: Bytes, i: nat, sha: Sha256): (st': Store)
    requires Inv(st)
    ensures Inv(st')
    decreases CeilChunks(|data|) - i
  {
    if i >= CeilChunks(|data|) then st
    else DeliverChecked(HandleChunkChecked(st, fileId, i, ChunkOf(data, i), Some(sha(data)), sha).0, fileId, data, i + 1, sha)
  }

  /** Adding chunk `i` to the map of chunks `0 .. i - 1` gives the map of chunks `0 .. i`. */
  lemma ChunkMapStep(data: Bytes, i: nat)
    ensures ChunkMap(data, i)[i := ChunkOf(data, i)] == ChunkMap(data, i + 1)
  {
  }

  /**
   As written: a file offered with the empty placeholder digest can never
   be assembled, because no SHA-256 hex digest is empty. Every complete
   assembly deletes the file again.
   */
  lemma {:induction false} EmptyDigestNeverAssembles(st: Store, fileId: string, sha: Sha256)
    requires Inv(st) && fileId in st.chunks && st.stored[fileId].checksum == ""
    ensures !AssembleFile(st, fileId, sha).1
  {
    var written := Gather(st.chunks[fileId], 0, st.stored[fileId].totalChunks).0;
    assert |sha(written)| == 64;
  }

  /**
   The uploader's chunks for a non-empty file after the server registered
   the offer with the placeholder digest, when the chunk map still holds
   chunks `0 .. i - 1`.
   */
  predicate Midway(st: Store, fileId: string, data: Bytes, i: nat) {
    && Inv(st) && fileId in st.chunks && fileId in st.stored
    && st.chunks[fileId] == ChunkMap(data, i)
    && st.stored[fileId].totalChunks == CeilChunks(|data|)
    && i < CeilChunks(|data|)
  }

  /**
   As written, uploading every chunk of a non-empty file leaves it
   unavailable: the final chunk triggers assembly, the digest comparison
   against the empty placeholder fails and the file is deleted.
   */
  lemma {:induction false} UploadNeverAvailable(st: Store, fileId: string, data: Bytes, i: nat, sha: Sha256)
    requires Midway(st, fileId, data, i) && st.stored[fileId].checksum == ""
    ensures FilePath(Deliver(st, fileId, data, i, sha), fileId).None?
    decreases CeilChunks(|data|) - i
  {
    var n := CeilChunks(|data|);
    var cm := st.chunks[fileId][i := ChunkOf(data, i)];
    var st1 := st.(chunks := st.chunks[fileId := cm]);
    ChunkMapStep(data, i);
    RangeSetSize(0, i + 1);
    var next := HandleChunk(st, fileId, i, ChunkOf(data, i), sha).0;
    if i + 1 < n {
      assert next == st1;
      UploadNeverAvailable(next, fileId, data, i + 1, sha);
    } else {
      assert next == AssembleFile(st1, fileId, sha).0;
      EmptyDigestNeverAssembles(st1, fileId, sha);
      GatherWholeFile(data);
      assert Deliver(next, fileId, data, i + 1, sha) == next;
      assert PathOfStored(st1, fileId) !in next.disk;
    }
  }

  /**
   Corrected: uploading every chunk of a non-empty file, each chunk message
   carrying the file's digest, leaves exactly the file's bytes on disk at its
   path and lists it among the available files.
   */
  lemma {:induction false} UploadAssembles(st: Store, fileId: string, data: Bytes, i: nat, sha: Sha256)
    requires Midway(st, fileId, data, i)
    requires i > 0 ==> st.stored[fileId].checksum == sha(data)
    ensures var st' := DeliverChecked(st, fileId, data, i, sha);
            && FilePath(st', fileId) == Some(PathOfStored(st, fileId))
            && st'.disk[PathOfStored(st, fileId)] == data
            && fileId in AvailableFiles(st')
    decreases CeilChunks(|data|) - i
  {
    var n := CeilChunks(|data|);
    var st0 := st.(stored := st.stored[fileId := st.stored[fileId].(checksum := sha(data))]);
    var cm := st0.chunks[fileId][i := ChunkOf(data, i)];
    var st1 := st0.(chunks := st0.chunks[fileId := cm]);
    ChunkMapStep(data, i);
    RangeSetSize(0, i + 1);
    var next := HandleChunkChecked(st, fileId, i, ChunkOf(data, i), Some(sha(data)), sha).0;
    assert next == HandleChunk(st0, fileId, i, ChunkOf(data, i), sha).0;
    if i + 1 < n {
      assert next == st1;
      UploadAssembles(next, fileId, data, i + 1, sha);
    } else {
      GatherWholeFile(data);
      assert next == AssembleFile(st1, fileId, sha).0;
      assert AssembleFile(st1, fileId, sha).1;
      assert DeliverChecked(next, fileId, data, i + 1, sha) == next;
    }
  }

  /**
   A file whose chunk count is reached with an index outside `0 .. total - 1`
   (for example chunks 0 and 5 of a two-chunk file) is only partly written,
   and the partial file stays on disk where downloads find it.
   */
  lemma PartialFileStaysAvailable(st: Store, fileId: string, sha: Sha256)
    requires Inv(st) && fileId in st.chunks && st.stored[fileId].totalChunks == 2
    requires st.chunks[fileId].Keys == {0, 5}
    ensures var st' := AssembleFile(st, fileId, sha).0;
            && !AssembleFile(st, fileId, sha).1
            && FilePath(st', fileId).Some?
            && st'.disk[PathOfStored(st, fileId)] == st.chunks[fileId][0]
  {
    assert 1 !in st.chunks[fileId];
  }
}
