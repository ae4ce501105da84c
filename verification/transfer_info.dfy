/**
 `FileTransferInfo` and the chunk arithmetic shared by the uploader, the
 server's file store and the downloader: a file of `file_size` bytes is
 cut into 64 KiB chunks, chunk `i` holding bytes `[i * 65536, (i + 1) * 65536)`.
 */
module TransferInfo {
  import opened Basics

  const ChunkSize: nat := 65536

  /** `FileTransferInfo` after `__post_init__`; `uploaded` is `uploaded_chunks`. */
  datatype Info = Info(
    fileId: string,
    filename: string,
    fileSize: int,
    totalChunks: int,
    uploaded: set<int>,
    checksum: string,
    uploader: string,
    createdAt: real)

  /** `(file_size + chunk_size - 1) // chunk_size`; Python's `//` by a positive divisor is Dafny's `/`. */
  function CeilChunks(size: int): (n: int)
    ensures size >= 0 ==> n >= 0
    ensures n * ChunkSize >= size && (n - 1) * ChunkSize < size
  {
    (size + ChunkSize - 1) / ChunkSize
  }

  /** The chunk count is the least count whose chunks cover the file. */
  lemma CeilChunksLeast(size: int, m: int)
    requires m * ChunkSize >= size
    ensures CeilChunks(size) <= m
  {
  }

  /**
   `FileTransferInfo(...)` with the default chunk size: a total of 0 (the
   default) is replaced by the computed count, a creation time of 0.0 (the
   default) by the current time, and the uploaded set starts empty.
   */
  function NewInfo(fileId: string, filename: string, fileSize: int, totalChunks: int,
                   checksum: string, uploader: string, createdAt: real, now: real): (i: Info)
    ensures i.totalChunks == (if totalChunks == 0 then CeilChunks(fileSize) else totalChunks)
    ensures i.createdAt == (if createdAt == 0.0 then now else createdAt)
    ensures i.uploaded == {}
    ensures i.fileId == fileId && i.filename == filename && i.fileSize == fileSize
    ensures i.checksum == checksum && i.uploader == uploader
  {
    Info(fileId, filename, fileSize,
         if totalChunks == 0 then CeilChunks(fileSize) else totalChunks,
         {}, checksum, uploader,
         if createdAt == 0.0 then now else createdAt)
  }

  /** An empty file has no chunks; any other file has at least one. */
  lemma EmptyFileNoChunks(size: nat)
    ensures CeilChunks(size) == 0 <==> size == 0
  {
  }

  /** Every chunk below the chunk count starts inside the file. */
  lemma ChunkStartsInside(size: int, i: nat)
    requires i < CeilChunks(size)
    ensures i * ChunkSize < size
  {
    var n := CeilChunks(size);
    assert i * ChunkSize <= (n - 1) * ChunkSize;
  }

  /** Chunk `i` of `data`: what `f.read(chunk_size)` returns at offset `i * chunk_size`. */
  function ChunkOf(data: Bytes, i: nat): (c: Bytes)
    ensures i * ChunkSize >= |data| ==> c == []
    ensures i * ChunkSize < |data| ==> 0 < |c| <= ChunkSize
  {
    if i * ChunkSize >= |data| then []
    else if (i + 1) * ChunkSize >= |data| then data[i * ChunkSize..]
    else data[i * ChunkSize..(i + 1) * ChunkSize]
  }

  /** The successive non-empty results of `f.read(chunk_size)` on a file holding `data`. */
  function Reads(data: Bytes): (rs: seq<Bytes>)
    ensures forall k :: 0 <= k < |rs| ==> 0 < |rs[k]| <= ChunkSize
    decreases |data|
  {
    if |data| == 0 then []
    else if |data| <= ChunkSize then [data]
    else
      var rest := Reads(data[ChunkSize..]);
      var rs := [data[..ChunkSize]] + rest;
      assert forall k {:trigger rs[k]} :: 0 < k < |rs| ==> rs[k] == rest[k - 1];
      rs
  }

  /** The reads written one after the other. */
  function Concat(rs: seq<Bytes>): Bytes
    decreases |rs|
  {
    if |rs| == 0 then [] else rs[0] + Concat(rs[1..])
  }

  /** Reading a file to its end in 64 KiB pieces returns the whole file, in order. */
  lemma {:induction false} ReadsConcat(data: Bytes)
    ensures Concat(Reads(data)) == data
    decreases |data|
  {
    if |data| > ChunkSize {
      ReadsConcat(data[ChunkSize..]);
      assert Reads(data)[1..] == Reads(data[ChunkSize..]);
      assert data[..ChunkSize] + data[ChunkSize..] == data;
    } else if |data| > 0 {
      assert Concat([data]) == data + Concat([]);
    }
  }

  /** Reading a file to its end takes exactly the chunk count of its size. */
  lemma {:induction false} ReadsCount(data: Bytes)
    ensures |Reads(data)| == CeilChunks(|data|)
    decreases |data|
  {
    if |data| > ChunkSize {
      ReadsCount(data[ChunkSize..]);
      CeilChunksStep(|data|);
    }
  }

  lemma CeilChunksStep(size: int)
    requires size > ChunkSize
    ensures CeilChunks(size) == 1 + CeilChunks(size - ChunkSize)
  {
  }

  /** Read `k` is chunk `k`: the reads and the chunk arithmetic agree. */
  lemma {:induction false} ReadsAreChunks(data: Bytes, k: nat)
    requires k < |Reads(data)|
    ensures Reads(data)[k] == ChunkOf(data, k)
    decreases |data|
  {
    if |data| > ChunkSize {
      if k > 0 {
        assert Reads(data)[k] == Reads(data[ChunkSize..])[k - 1];
        ReadsAreChunks(data[ChunkSize..], k - 1);
        ChunkOfShift(data, k);
      }
    }
  }

  /** Dropping the first chunk shifts every later chunk down by one. */
  lemma ChunkOfShift(data: Bytes, k: nat)
    requires k > 0 && |data| > ChunkSize
    ensures ChunkOf(data[ChunkSize..], k - 1) == ChunkOf(data, k)
  {
    var j := k - 1;
    assert j * ChunkSize + ChunkSize == k * ChunkSize;
    assert (j + 1) * ChunkSize + ChunkSize == (k + 1) * ChunkSize;
  }

  /** Everything from chunk `i` on. */
  function TailFrom(data: Bytes, i: nat): Bytes {
    if i * ChunkSize >= |data| then [] else data[i * ChunkSize..]
  }

  /**
   The loop of `_assemble_file`: write the chunks from index `i` up to
   `total - 1` in order, stopping at the first missing one. Returns what was
   written and whether every chunk was present.
   */
  function Gather(chunks: map<int, Bytes>, i: int, total: int): (r: (Bytes, bool))
    ensures r.1 <==> forall k :: i <= k < total ==> k in chunks
    decreases total - i
  {
    if i >= total then ([], true)
    else if i !in chunks then ([], false)
    else
      var (rest, complete) := Gather(chunks, i + 1, total);
      (chunks[i] + rest, complete)
  }

  /** The chunk map of the first `k` chunks of `data`. */
  function ChunkMap(data: Bytes, k: nat): (m: map<int, Bytes>)
    ensures m.Keys == RangeSet(0, k)
    ensures forall i :: 0 <= i < k ==> m[i] == ChunkOf(data, i)
  {
    map i | 0 <= i < k :: ChunkOf(data, i)
  }

  /** The indices `lo .. hi - 1`. */
  function RangeSet(lo: int, hi: int): (s: set<int>)
    ensures forall i :: i in s <==> lo <= i < hi
    decreases hi - lo
  {
    if lo >= hi then {} else {lo} + RangeSet(lo + 1, hi)
  }

  lemma {:induction false} RangeSetSize(lo: int, hi: int)
    requires lo <= hi
    ensures |RangeSet(lo, hi)| == hi - lo
    decreases hi - lo
  {
    if lo < hi {
      RangeSetSize(lo + 1, hi);
      assert lo !in RangeSet(lo + 1, hi);
    }
  }

  /** The next chunk followed by everything after it is everything from that chunk on. */
  lemma ChunkThenTail(data: Bytes, i: nat)
    ensures ChunkOf(data, i) + TailFrom(data, i + 1) == TailFrom(data, i)
  {
    if i * ChunkSize < |data| && (i + 1) * ChunkSize < |data| {
      assert data[i * ChunkSize..] == data[i * ChunkSize..(i + 1) * ChunkSize] + data[(i + 1) * ChunkSize..];
    }
  }

  /**
   Assembling the chunks of `data`, all present, writes `data` back: the
   chunks are a partition of the file in index order.
   */
  lemma {:induction false} GatherChunks(data: Bytes, i: nat)
    requires i <= CeilChunks(|data|)
    ensures Gather(ChunkMap(data, CeilChunks(|data|)), i, CeilChunks(|data|)) == (TailFrom(data, i), true)
    decreases CeilChunks(|data|) - i
  {
    var n := CeilChunks(|data|);
    if i < n {
      GatherChunks(data, i + 1);
      ChunkThenTail(data, i);
    }
  }

  lemma GatherWholeFile(data: Bytes)
    ensures Gather(ChunkMap(data, CeilChunks(|data|)), 0, CeilChunks(|data|)) == (data, true)
  {
    GatherChunks(data, 0);
  }
}
