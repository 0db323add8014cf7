/** The frontend upload queue (`useUploadStore`): each action is a reducer from the store
    state to the next one. The random id `crypto.randomUUID()` gives each new entry is an
    input. */
module UploadStore {
  import opened Wrappers
  import opened Seqs

  datatype Status = Pending | Uploading | Completed | Error

  /** The browser `File` being uploaded; the queue only carries it along. */
  datatype File = File(name: string, size: nat, contentType: string)

  /** `UploadingFile`; the optional `error` and `mediaId` are `None` when undefined. */
  datatype UploadingFile = UploadingFile(id: string, file: File, progress: int, status: Status,
                                         error: Option<string>, mediaId: Option<string>)

  datatype UploadState = UploadState(uploadQueue: seq<UploadingFile>, isUploading: bool)

  /** The store's initial state. */
  const Initial: UploadState := UploadState([], false)

  /** The ids of the entries, in queue order. */
  function Ids(queue: seq<UploadingFile>): (ids: seq<string>)
    ensures |ids| == |queue| && forall i :: 0 <= i < |queue| ==> ids[i] == queue[i].id
  {
    Map(queue, (f: UploadingFile) => f.id)
  }

  /** No two entries share an id, as the random UUIDs make it. */
  predicate UniqueIds(queue: seq<UploadingFile>)
  {
    forall i, j :: 0 <= i < j < |queue| ==> queue[i].id != queue[j].id
  }

  /** The entries `addFiles` creates, one per file in order, each with its id. */
  function NewEntries(files: seq<File>, ids: seq<string>): (entries: seq<UploadingFile>)
    requires |ids| == |files|
    ensures |entries| == |files|
    ensures forall i :: 0 <= i < |files| ==>
      entries[i] == UploadingFile(ids[i], files[i], 0, Pending, None, None)
  {
    if files == [] then [] else [UploadingFile(ids[0], files[0], 0, Pending, None, None)] + NewEntries(files[1..], ids[1..])
  }

  /** `addFiles`: a pending entry with no progress for each file, after the queue. */
  function AddFiles(s: UploadState, files: seq<File>, ids: seq<string>): (r: UploadState)
    requires |ids| == |files|
    ensures |r.uploadQueue| == |s.uploadQueue| + |files|
    ensures r.uploadQueue[..|s.uploadQueue|] == s.uploadQueue
    ensures forall i :: 0 <= i < |files| ==>
      r.uploadQueue[|s.uploadQueue| + i] == UploadingFile(ids[i], files[i], 0, Pending, None, None)
    ensures r.isUploading == s.isUploading
  {
    s.(uploadQueue := s.uploadQueue + NewEntries(files, ids))
  }

  function WithProgress(id: string, progress: int): UploadingFile -> UploadingFile
  {
    (f: UploadingFile) => if f.id == id then f.(progress := progress) else f
  }

  /** `updateFileProgress`: the entries with `id` get the new progress; nothing else changes. */
  function UpdateFileProgress(s: UploadState, id: string, progress: int): (r: UploadState)
    ensures |r.uploadQueue| == |s.uploadQueue| && r.isUploading == s.isUploading
    ensures forall i :: 0 <= i < |s.uploadQueue| ==>
      r.uploadQueue[i] == if s.uploadQueue[i].id == id then s.uploadQueue[i].(progress := progress) else s.uploadQueue[i]
  {
    s.(uploadQueue := Map(s.uploadQueue, WithProgress(id, progress)))
  }

  function WithStatus(id: string, status: Status, error: Option<string>, mediaId: Option<string>): UploadingFile -> UploadingFile
  {
    (f: UploadingFile) => if f.id == id then f.(status := status, error := error, mediaId := mediaId) else f
  }

  /** `updateFileStatus`: the entries with `id` get the status, error and media id given, an
      omitted one overwriting the old with `None`; nothing else changes. */
  function UpdateFileStatus(s: UploadState, id: string, status: Status, error: Option<string>, mediaId: Option<string>): (r: UploadState)
    ensures |r.uploadQueue| == |s.uploadQueue| && r.isUploading == s.isUploading
    ensures forall i :: 0 <= i < |s.uploadQueue| ==>
      r.uploadQueue[i] == if s.uploadQueue[i].id == id
                          then s.uploadQueue[i].(status := status, error := error, mediaId := mediaId)
                          else s.uploadQueue[i]
  {
    s.(uploadQueue := Map(s.uploadQueue, WithStatus(id, status, error, mediaId)))
  }

  function NotId(id: string): UploadingFile -> bool
  {
    (f: UploadingFile) => f.id != id
  }

  /** `removeFile`: exactly the entries with `id` go. */
  function RemoveFile(s: UploadState, id: string): (r: UploadState)
    ensures forall f :: f in r.uploadQueue <==> f in s.uploadQueue && f.id != id
    ensures r.isUploading == s.isUploading
  {
    s.(uploadQueue := Filter(s.uploadQueue, NotId(id)))
  }

  function NotCompleted(): UploadingFile -> bool
  {
    (f: UploadingFile) => f.status != Completed
  }

  /** `clearCompleted`: exactly the completed entries go. */
  function ClearCompleted(s: UploadState): (r: UploadState)
    ensures forall f :: f in r.uploadQueue <==> f in s.uploadQueue && f.status != Completed
    ensures r.isUploading == s.isUploading
  {
    s.(uploadQueue := Filter(s.uploadQueue, NotCompleted()))
  }

  /** `clearAll`: the queue empties; the uploading flag stays. */
  function ClearAll(s: UploadState): (r: UploadState)
    ensures r.uploadQueue == [] && r.isUploading == s.isUploading
  {
    s.(uploadQueue := [])
  }

  /** `setIsUploading`: only the flag changes. */
  function SetIsUploading(s: UploadState, isUploading: bool): (r: UploadState)
    ensures r.uploadQueue == s.uploadQueue && r.isUploading == isUploading
  {
    s.(isUploading := isUploading)
  }

  /** Removing keeps the order of the rest: removing the entries of a queue of two parts
      removes them from each part. */
  lemma RemoveFileKeepsOrder(a: seq<UploadingFile>, b: seq<UploadingFile>, id: string, flag: bool)
    ensures RemoveFile(UploadState(a + b, flag), id).uploadQueue
         == RemoveFile(UploadState(a, flag), id).uploadQueue + RemoveFile(UploadState(b, flag), id).uploadQueue
  {
    FilterAppend(a, b, NotId(id));
  }

  /** A file added under a fresh id and removed again leaves the store as it was. */
  lemma RemoveAddedFile(s: UploadState, file: File, id: string)
    requires id !in Ids(s.uploadQueue)
    ensures RemoveFile(AddFiles(s, [file], [id]), id) == s
  {
    var q := s.uploadQueue;
    FilterAppend(q, NewEntries([file], [id]), NotId(id));
    assert forall f :: f in q ==> NotId(id)(f) by {
      forall f | f in q ensures f.id != id {
        var i :| 0 <= i < |q| && q[i] == f;
        assert Ids(q)[i] == f.id;
      }
    }
    FilterAll(q, NotId(id));
  }

  /** A second `clearCompleted` removes nothing. */
  lemma ClearCompletedIdempotent(s: UploadState)
    ensures ClearCompleted(ClearCompleted(s)) == ClearCompleted(s)
  {
    FilterAll(ClearCompleted(s).uploadQueue, NotCompleted());
  }

  /** Newly added files are pending, so clearing the completed entries after adding them is
      clearing before. */
  lemma AddedFilesSurviveClear(s: UploadState, files: seq<File>, ids: seq<string>)
    requires |ids| == |files|
    ensures ClearCompleted(AddFiles(s, files, ids)) == AddFiles(ClearCompleted(s), files, ids)
  {
    var entries := NewEntries(files, ids);
    FilterAppend(s.uploadQueue, entries, NotCompleted());
    FilterAll(entries, NotCompleted());
  }

  /** Progress on an entry that is then removed leaves no trace. */
  lemma {:induction false} RemoveAfterProgress(s: UploadState, id: string, progress: int)
    ensures RemoveFile(UpdateFileProgress(s, id, progress), id) == RemoveFile(s, id)
    decreases |s.uploadQueue|
  {
    var q := s.uploadQueue;
    if q != [] {
      var t := s.(uploadQueue := q[1..]);
      RemoveAfterProgress(t, id, progress);
      assert Map(q, WithProgress(id, progress))[1..] == Map(q[1..], WithProgress(id, progress));
    }
  }

  /** Marking an entry completed and clearing the completed entries removes it along with the
      entries completed before. */
  lemma {:induction false} CompletedThenCleared(s: UploadState, id: string, error: Option<string>, mediaId: Option<string>)
    ensures ClearCompleted(UpdateFileStatus(s, id, Completed, error, mediaId)) == ClearCompleted(RemoveFile(s, id))
    decreases |s.uploadQueue|
  {
    var q := s.uploadQueue;
    if q != [] {
      var t := s.(uploadQueue := q[1..]);
      CompletedThenCleared(t, id, error, mediaId);
      assert Map(q, WithStatus(id, Completed, error, mediaId))[1..] == Map(q[1..], WithStatus(id, Completed, error, mediaId));
    }
  }

  /** Filtering keeps ids unique. */
  lemma {:induction false} FilterUniqueIds(q: seq<UploadingFile>, p: UploadingFile -> bool)
    requires UniqueIds(q)
    ensures UniqueIds(Filter(q, p))
  {
    if q != [] {
      var rest := Filter(q[1..], p);
      assert UniqueIds(q[1..]) by {
        forall i, j | 0 <= i < j < |q[1..]| ensures q[1..][i].id != q[1..][j].id {
          assert q[1..][i] == q[i + 1] && q[1..][j] == q[j + 1];
        }
      }
      FilterUniqueIds(q[1..], p);
      if p(q[0]) {
        forall k | 0 <= k < |rest| ensures rest[k].id != q[0].id {
          assert rest[k] in q[1..];
          var j :| 0 <= j < |q[1..]| && q[1..][j] == rest[k];
          assert q[j + 1] == rest[k];
        }
        var r := [q[0]] + rest;
        forall i, j | 0 <= i < j < |r| ensures r[i].id != r[j].id {
          if i > 0 {
            assert r[i] == rest[i - 1] && r[j] == rest[j - 1];
          } else {
            assert r[j] == rest[j - 1];
          }
        }
      }
    }
  }

  /** Every action keeps the ids unique, given fresh, distinct ids for new files. */
  lemma ActionsKeepIdsUnique(s: UploadState, files: seq<File>, ids: seq<string>, id: string, progress: int,
                             status: Status, error: Option<string>, mediaId: Option<string>, flag: bool)
    requires UniqueIds(s.uploadQueue)
    requires |ids| == |files| && (forall i, j :: 0 <= i < j < |ids| ==> ids[i] != ids[j])
    requires forall i :: 0 <= i < |ids| ==> ids[i] !in Ids(s.uploadQueue)
    ensures UniqueIds(AddFiles(s, files, ids).uploadQueue)
    ensures UniqueIds(UpdateFileProgress(s, id, progress).uploadQueue)
    ensures UniqueIds(UpdateFileStatus(s, id, status, error, mediaId).uploadQueue)
    ensures UniqueIds(RemoveFile(s, id).uploadQueue)
    ensures UniqueIds(ClearCompleted(s).uploadQueue)
    ensures UniqueIds(ClearAll(s).uploadQueue)
    ensures UniqueIds(SetIsUploading(s, flag).uploadQueue)
  {
    AddFilesKeepsIdsUnique(s, files, ids);
    SameIdsKeepUnique(s.uploadQueue, UpdateFileProgress(s, id, progress).uploadQueue);
    SameIdsKeepUnique(s.uploadQueue, UpdateFileStatus(s, id, status, error, mediaId).uploadQueue);
    FilterUniqueIds(s.uploadQueue, NotId(id));
    FilterUniqueIds(s.uploadQueue, NotCompleted());
  }

  lemma SameIdsKeepUnique(q: seq<UploadingFile>, r: seq<UploadingFile>)
    requires UniqueIds(q) && |r| == |q| && forall i :: 0 <= i < |q| ==> r[i].id == q[i].id
    ensures UniqueIds(r)
  {
  }

  lemma AddFilesKeepsIdsUnique(s: UploadState, files: seq<File>, ids: seq<string>)
    requires UniqueIds(s.uploadQueue)
    requires |ids| == |files| && (forall i, j :: 0 <= i < j < |ids| ==> ids[i] != ids[j])
    requires forall i :: 0 <= i < |ids| ==> ids[i] !in Ids(s.uploadQueue)
    ensures UniqueIds(AddFiles(s, files, ids).uploadQueue)
  {
    var q := s.uploadQueue;
    var e := NewEntries(files, ids);
    var r := q + e;
    assert AddFiles(s, files, ids).uploadQueue == r;
    assert forall k :: 0 <= k < |e| ==> e[k].id == ids[k];
    forall i, j | 0 <= i < j < |r| ensures r[i].id != r[j].id {
      if j < |q| {
        assert r[i] == q[i] && r[j] == q[j];
      } else if i < |q| {
        assert r[i] == q[i] && r[j] == e[j - |q|];
        assert Ids(q)[i] == q[i].id;
      } else {
        assert r[i] == e[i - |q|] && r[j] == e[j - |q|];
      }
    }
  }
}
