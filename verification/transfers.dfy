/**
 The client's `FileTransferManager` bookkeeping for downloads, progress and
 cancellation. Progress callbacks are represented by the set of file ids
 that have one; what they are called with is not modelled.
 */
module Transfers {
  import opened Basics
  import opened TransferInfo
  import opened OrderedMaps

  /**
   A download entry: its `FileTransferInfo` plus the `chunks` attribute the
   first received chunk attaches (`None` until then).
   */
  datatype Download = Download(info: Info, chunks: Option<map<int, Bytes>>)

  /** `active_uploads`, `active_downloads` and the two callback maps. */
  datatype Manager = Manager(
    uploads: map<string, Info>,
    downloads: map<string, Download>,
    uploadCallbacks: set<string>,
    downloadCallbacks: set<string>)

  /** `download_file`: register a download of unknown size, named after the save path. */
  function StartDownload(m: Manager, fileId: string, saveName: string, now: real): (m': Manager)
    ensures m'.downloads == m.downloads[fileId := Download(NewInfo(fileId, saveName, 0, 0, "", "unknown", 0.0, now), None)]
    ensures m'.uploads == m.uploads && m'.uploadCallbacks == m.uploadCallbacks && m'.downloadCallbacks == m.downloadCallbacks
    ensures m'.downloads[fileId].info.totalChunks == 0
  {
    m.(downloads := m.downloads[fileId := Download(NewInfo(fileId, saveName, 0, 0, "", "unknown", 0.0, now), None)])
  }

  /** `handle_download_chunk`: ignore unknown ids; otherwise store the chunk and mark its index received. */
  function HandleDownloadChunk(m: Manager, fileId: string, index: int, data: Bytes): (m': Manager)
    ensures fileId !in m.downloads ==> m' == m
    ensures fileId in m.downloads ==>
      var d := m.downloads[fileId];
      var old_ := if d.chunks.Some? then d.chunks.value else map[];
      && m'.downloads == m.downloads[fileId := Download(d.info.(uploaded := d.info.uploaded + {index}), Some(old_[index := data]))]
      && m'.uploads == m.uploads && m'.uploadCallbacks == m.uploadCallbacks && m'.downloadCallbacks == m.downloadCallbacks
  {
    if fileId !in m.downloads then m
    else
      var d := m.downloads[fileId];
      var cs := if d.chunks.Some? then d.chunks.value else map[];
      m.(downloads := m.downloads[fileId := Download(d.info.(uploaded := d.info.uploaded + {index}), Some(cs[index := data]))])
  }

  /** Gather reads only the keys from `i` on. */
  lemma {:induction false} GatherFrom(a: map<int, Bytes>, b: map<int, Bytes>, i: int, total: int)
    requires forall k :: i <= k < total ==> (k in a <==> k in b)
    requires forall k :: i <= k < total && k in a ==> a[k] == b[k]
    ensures Gather(a, i, total) == Gather(b, i, total)
    decreases total - i
  {
    if i < total && i in a {
      GatherFrom(a, b, i + 1, total);
    }
  }

  /**
   Writing the chunks in ascending key order is writing chunks `lo .. hi - 1`
   in index order, when those are exactly the keys.
   */
  lemma {:induction false} SortedIsInOrder(chunks: map<int, Bytes>, lo: int, hi: int)
    requires chunks.Keys == RangeSet(lo, hi)
    ensures AssembleSorted(chunks) == Gather(chunks, lo, hi).0
    decreases hi - lo
  {
    if lo < hi {
      assert lo in chunks.Keys;
      var k := MinKey(chunks.Keys);
      assert k == lo;
      var rest := chunks - {lo};
      assert rest.Keys == RangeSet(lo + 1, hi);
      SortedIsInOrder(rest, lo + 1, hi);
      GatherFrom(rest, chunks, lo + 1, hi);
    } else {
      assert chunks == map[];
    }
  }

  /** A file written on completion: the path `download_{filename}` and its contents. */
  datatype Written = Written(path: string, contents: Bytes)

  /**
   `handle_download_complete`: a download that received chunks is written
   in ascending index order and dropped with its callback; an unknown id, or
   a download that never received a chunk, changes nothing.
   */
  function HandleDownloadComplete(m: Manager, fileId: string): (r: (Manager, Option<Written>))
    ensures r.1.None? <==> fileId !in m.downloads || m.downloads[fileId].chunks.None?
    ensures r.1.None? ==> r.0 == m
    ensures r.1.Some? ==>
      && r.1.value == Written("download_" + m.downloads[fileId].info.filename, AssembleSorted(m.downloads[fileId].chunks.value))
      && r.0 == m.(downloads := m.downloads - {fileId}, downloadCallbacks := m.downloadCallbacks - {fileId})
  {
    if fileId !in m.downloads || m.downloads[fileId].chunks.None? then (m, None)
    else
      var d := m.downloads[fileId];
      (m.(downloads := m.downloads - {fileId}, downloadCallbacks := m.downloadCallbacks - {fileId}),
       Some(Written("download_" + d.info.filename, AssembleSorted(d.chunks.value))))
  }

  /** The chunks `i .. n - 1` of `data` arriving in index order. */
  function ReceiveChunks(m: Manager, fileId: string, data: Bytes, i: nat): Manager
    decreases CeilChunks(|data|) - i
  {
    if i >= CeilChunks(|data|) then m
    else ReceiveChunks(HandleDownloadChunk(m, fileId, i, ChunkOf(data, i)), fileId, data, i + 1)
  }

  lemma {:induction false} ReceiveChunksFrom(m: Manager, fileId: string, data: Bytes, i: nat)
    requires fileId in m.downloads && i <= CeilChunks(|data|)
    requires i == 0 ==> m.downloads[fileId].chunks.None?
    requires i > 0 ==> m.downloads[fileId].chunks == Some(ChunkMap(data, i))
    ensures var m' := ReceiveChunks(m, fileId, data, i);
            && fileId in m'.downloads
            && (CeilChunks(|data|) > 0 ==> m'.downloads[fileId].chunks == Some(ChunkMap(data, CeilChunks(|data|))))
            && m'.downloads[fileId].info.filename == m.downloads[fileId].info.filename
    decreases CeilChunks(|data|) - i
  {
    if i < CeilChunks(|data|) {
      var next := HandleDownloadChunk(m, fileId, i, ChunkOf(data, i));
      assert i == 0 ==> map[][i := ChunkOf(data, i)] == ChunkMap(data, 1);
      assert i > 0 ==> ChunkMap(data, i)[i := ChunkOf(data, i)] == ChunkMap(data, i + 1);
      ReceiveChunksFrom(next, fileId, data, i + 1);
    }
  }

  /**
   A download of a non-empty file whose chunks all arrive is written with
   exactly the file's bytes when its completion arrives, and is then forgotten.
   */
  lemma DownloadRoundTrip(m: Manager, fileId: string, saveName: string, now: real, data: Bytes)
    requires |data| > 0
    ensures var m1 := ReceiveChunks(StartDownload(m, fileId, saveName, now), fileId, data, 0);
            && HandleDownloadComplete(m1, fileId).1 == Some(Written("download_" + saveName, data))
            && fileId !in HandleDownloadComplete(m1, fileId).0.downloads
            && fileId !in HandleDownloadComplete(m1, fileId).0.downloadCallbacks
  {
    var m0 := StartDownload(m, fileId, saveName, now);
    ReceiveChunksFrom(m0, fileId, data, 0);
    var n := CeilChunks(|data|);
    SortedIsInOrder(ChunkMap(data, n), 0, n);
    GatherWholeFile(data);
  }

  /** A download that never receives a chunk (an empty file) is never written nor dropped. */
  lemma EmptyDownloadNeverCompletes(m: Manager, fileId: string, saveName: string, now: real)
    ensures var m1 := StartDownload(m, fileId, saveName, now);
            HandleDownloadComplete(m1, fileId) == (m1, None)
  {
  }

  /** Python's `ZeroDivisionError`. */
  datatype ProgressError = ZeroDivision

  /** `len(uploaded_chunks) / total_chunks` of one entry. */
  function Ratio(info: Info): (r: Result<real, ProgressError>)
    ensures r.Err? <==> info.totalChunks == 0
    ensures r.Ok? ==> r.value * info.totalChunks as real == |info.uploaded| as real
  {
    if info.totalChunks == 0 then Err(ZeroDivision)
    else Ok(|info.uploaded| as real / info.totalChunks as real)
  }

  /** `get_transfer_progress` as written: uploads first, then downloads, else 0.0. */
  function Progress(m: Manager, fileId: string): (r: Result<real, ProgressError>)
    ensures fileId in m.uploads ==> r == Ratio(m.uploads[fileId])
    ensures fileId !in m.uploads && fileId in m.downloads ==> r == Ratio(m.downloads[fileId].info)
    ensures fileId !in m.uploads && fileId !in m.downloads ==> r == Ok(0.0)
  {
    if fileId in m.uploads then Ratio(m.uploads[fileId])
    else if fileId in m.downloads then Ratio(m.downloads[fileId].info)
    else Ok(0.0)
  }

  /** Asking for the progress of a download just started raises: its chunk count is 0. */
  lemma FreshDownloadProgressRaises(m: Manager, fileId: string, saveName: string, now: real)
    requires fileId !in m.uploads
    ensures Progress(StartDownload(m, fileId, saveName, now), fileId) == Err(ZeroDivision)
  {
  }

  /** Corrected progress: an entry with no known chunk count reports 0.0 (as the chunk callback already guards). */
  function ProgressGuarded(m: Manager, fileId: string): (p: real)
    ensures Progress(m, fileId).Ok? ==> p == Progress(m, fileId).value
    ensures Progress(m, fileId).Err? ==> p == 0.0
  {
    match Progress(m, fileId)
    case Ok(v) => v
    case Err(_) => 0.0
  }

  /** The corrected progress of an entry whose received indices all lie below its count is a fraction. */
  lemma ProgressGuardedBounded(m: Manager, fileId: string)
    requires fileId in m.uploads ==> m.uploads[fileId].uploaded <= RangeSet(0, m.uploads[fileId].totalChunks)
    requires fileId !in m.uploads && fileId in m.downloads ==>
      m.downloads[fileId].info.uploaded <= RangeSet(0, m.downloads[fileId].info.totalChunks)
    ensures 0.0 <= ProgressGuarded(m, fileId) <= 1.0
  {
    if fileId in m.uploads {
      FractionOfCount(m.uploads[fileId]);
    } else if fileId in m.downloads {
      FractionOfCount(m.downloads[fileId].info);
    }
  }

  lemma FractionOfCount(info: Info)
    requires info.uploaded <= RangeSet(0, info.totalChunks)
    ensures Ratio(info).Ok? ==> 0.0 <= Ratio(info).value <= 1.0
  {
    SubsetOfRange(info);
    if info.totalChunks != 0 {
      var a := |info.uploaded| as real;
      var b := info.totalChunks as real;
      if info.totalChunks > 0 {
        assert 0.0 <= a <= b && b > 0.0;
        assert a / b <= 1.0 by {
          assert a / b * b == a;
        }
      } else {
        assert a == 0.0;
      }
    }
  }

  lemma SubsetOfRange(info: Info)
    requires info.uploaded <= RangeSet(0, info.totalChunks)
    ensures 0 <= |info.uploaded| <= (if info.totalChunks < 0 then 0 else info.totalChunks)
  {
    if info.totalChunks >= 0 {
      RangeSetSize(0, info.totalChunks);
      assert |info.uploaded| <= |RangeSet(0, info.totalChunks)| by {
        SubsetSize(info.uploaded, RangeSet(0, info.totalChunks));
      }
    } else {
      assert RangeSet(0, info.totalChunks) == {};
    }
  }

  lemma SubsetSize(a: set<int>, b: set<int>)
    requires a <= b
    ensures |a| <= |b|
  {
    assert b == a + (b - a);
  }

  /** `cancel_transfer`: drop the id from all four maps. */
  function Cancel(m: Manager, fileId: string): (m': Manager)
    ensures fileId !in m'.uploads && fileId !in m'.downloads
    ensures fileId !in m'.uploadCallbacks && fileId !in m'.downloadCallbacks
    ensures forall id :: id != fileId ==>
      && (id in m'.uploads <==> id in m.uploads) && (id in m'.downloads <==> id in m.downloads)
      && (id in m'.uploadCallbacks <==> id in m.uploadCallbacks)
      && (id in m'.downloadCallbacks <==> id in m.downloadCallbacks)
    ensures forall id :: id in m'.uploads ==> m'.uploads[id] == m.uploads[id]
    ensures forall id :: id in m'.downloads ==> m'.downloads[id] == m.downloads[id]
  {
    Manager(m.uploads - {fileId}, m.downloads - {fileId},
            m.uploadCallbacks - {fileId}, m.downloadCallbacks - {fileId})
  }

  /** Cancelling twice is cancelling once. */
  lemma CancelIdempotent(m: Manager, fileId: string)
    ensures Cancel(Cancel(m, fileId), fileId) == Cancel(m, fileId)
  {
  }
}
