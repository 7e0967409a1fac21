/** Chunked upload of a restore archive (the `uploadrestore` branch of the
    module's ajax handler). Chunk `i` of upload `uuid` is kept in its own file
    `<uploads>/<uuid>/<filename><i>`; when the chunk whose index is one less
    than the announced total arrives, chunks `0 .. total-1` are appended to
    `<uploads>/<filename>` in ascending order and each is removed right after
    it has been appended. */
module Upload {
  import opened Wrappers
  import opened PhpStrings
  import opened Files

  /** The most `fread` takes from one chunk file. */
  const ReadLimit: nat := 2097152

  /** What `fread($file, ReadLimit)` returns for a chunk file holding `b`. */
  function Head(b: Bytes): (r: Bytes)
    ensures |r| <= ReadLimit
    ensures r <= b
    ensures |b| <= ReadLimit ==> r == b
    ensures |b| > ReadLimit ==> |r| == ReadLimit
  {
    if |b| <= ReadLimit then b else b[..ReadLimit]
  }

  function UploadDir(spool: string): string
  {
    spool + "/backup/uploads"
  }

  /** The reassembled archive. */
  function FinalPath(spool: string, name: string): string
  {
    UploadDir(spool) + "/" + name
  }

  /** The file holding chunk `i` of upload `uuid`. */
  function ChunkPath(spool: string, uuid: string, name: string, i: int): string
  {
    UploadDir(spool) + "/" + uuid + "/" + name + IntToString(i)
  }

  /** Different chunk indices are kept in different files. */
  lemma ChunkPathInjective(spool: string, uuid: string, name: string, i: nat, j: nat)
    requires ChunkPath(spool, uuid, name, i) == ChunkPath(spool, uuid, name, j)
    ensures i == j
  {
    var p := UploadDir(spool) + "/" + uuid + "/" + name;
    var a, b := ChunkPath(spool, uuid, name, i), ChunkPath(spool, uuid, name, j);
    assert a[|p|..] == NatToString(i);
    assert b[|p|..] == NatToString(j);
    NatToStringInjective(i, j);
  }

  /** No chunk file is the archive itself. */
  lemma FinalIsNoChunk(spool: string, uuid: string, name: string, i: int)
    ensures FinalPath(spool, name) != ChunkPath(spool, uuid, name, i)
  {
    assert |FinalPath(spool, name)| < |ChunkPath(spool, uuid, name, i)|;
  }

  /** The chunk files of indices `0 .. n-1`, in ascending order. */
  function ChunkFiles(spool: string, uuid: string, name: string, n: nat): (paths: seq<string>)
    ensures |paths| == n
    ensures forall j :: 0 <= j < n ==> paths[j] == ChunkPath(spool, uuid, name, j)
  {
    seq(n, j requires 0 <= j => ChunkPath(spool, uuid, name, j))
  }

  /** The chunk list is free of repetitions and never names the archive. */
  lemma ChunkFilesStep(spool: string, uuid: string, name: string, i: nat)
    ensures ChunkFiles(spool, uuid, name, i + 1) == ChunkFiles(spool, uuid, name, i) + [ChunkPath(spool, uuid, name, i)]
    ensures ChunkPath(spool, uuid, name, i) !in ChunkFiles(spool, uuid, name, i)
    ensures FinalPath(spool, name) !in ChunkFiles(spool, uuid, name, i + 1)
  {
    ChunkFilesSnoc(spool, uuid, name, i);
    ChunkFilesFresh(spool, uuid, name, i);
    ChunkFilesNoFinal(spool, uuid, name, i + 1);
  }

  lemma ChunkFilesSnoc(spool: string, uuid: string, name: string, i: nat)
    ensures ChunkFiles(spool, uuid, name, i + 1) == ChunkFiles(spool, uuid, name, i) + [ChunkPath(spool, uuid, name, i)]
  {
    var a, before := ChunkFiles(spool, uuid, name, i + 1), ChunkFiles(spool, uuid, name, i);
    var b := before + [ChunkPath(spool, uuid, name, i)];
    forall j | 0 <= j < |a|
      ensures a[j] == b[j]
    {
      if j < i {
        assert b[j] == before[j];
      }
    }
  }

  lemma ChunkFilesFresh(spool: string, uuid: string, name: string, i: nat)
    ensures ChunkPath(spool, uuid, name, i) !in ChunkFiles(spool, uuid, name, i)
  {
    var paths := ChunkFiles(spool, uuid, name, i);
    if ChunkPath(spool, uuid, name, i) in paths {
      var j :| 0 <= j < i && paths[j] == ChunkPath(spool, uuid, name, i);
      ChunkPathInjective(spool, uuid, name, i, j);
    }
  }

  lemma ChunkFilesNoFinal(spool: string, uuid: string, name: string, n: nat)
    ensures FinalPath(spool, name) !in ChunkFiles(spool, uuid, name, n)
  {
    var paths := ChunkFiles(spool, uuid, name, n);
    forall j | 0 <= j < |paths|
      ensures paths[j] != FinalPath(spool, name)
    {
      FinalIsNoChunk(spool, uuid, name, j);
    }
  }

  /** The bytes reassembly appends for the chunk files `paths`, in order; a
      missing chunk file contributes nothing. */
  function Assembled(fs: FileSystem, paths: seq<string>): Bytes
    decreases |paths|
  {
    if |paths| == 0 then []
    else Assembled(fs, paths[..|paths| - 1]) + Head(Read(fs, paths[|paths| - 1]))
  }

  /** The files after reassembling the chunk files `paths` into `final`, one
      chunk at a time: append the chunk's first `ReadLimit` bytes to `final`
      (creating it when absent), then remove the chunk file. */
  function Reassembled(fs: FileSystem, final: string, paths: seq<string>): (r: FileSystem)
    ensures r.Keys <= fs.Keys + {final}
    decreases |paths|
  {
    if |paths| == 0 then fs
    else
      var prev := Reassembled(fs, final, paths[..|paths| - 1]);
      var chunk := paths[|paths| - 1];
      Unlink(prev[final := Read(prev, final) + Head(Read(fs, chunk))], chunk)
  }

  /** Reassembling one more chunk file appends it and removes it. */
  lemma ReassembledSnoc(fs: FileSystem, final: string, done: seq<string>, chunk: string)
    ensures var prev := Reassembled(fs, final, done);
            Reassembled(fs, final, done + [chunk]) == Unlink(prev[final := Read(prev, final) + Head(Read(fs, chunk))], chunk)
  {
    assert (done + [chunk])[..|done|] == done;
  }

  /** After reassembly the archive holds its previous content followed by the
      chunks' bytes in list order. */
  lemma {:induction false} ReassembledArchive(fs: FileSystem, final: string, paths: seq<string>)
    requires final !in paths && |paths| > 0
    ensures final in Reassembled(fs, final, paths)
    ensures Reassembled(fs, final, paths)[final] == Read(fs, final) + Assembled(fs, paths)
    decreases |paths|
  {
    var prefix := paths[..|paths| - 1];
    var head := Head(Read(fs, paths[|paths| - 1]));
    ReassembledArchiveStep(fs, final, paths);
    if |prefix| == 0 {
      assert Assembled(fs, paths) == [] + head;
    } else {
      assert prefix[0] in paths;
      ReassembledArchive(fs, final, prefix);
      assert Assembled(fs, paths) == Assembled(fs, prefix) + head;
      assert (Read(fs, final) + Assembled(fs, prefix)) + head == Read(fs, final) + (Assembled(fs, prefix) + head);
    }
  }

  /** The last chunk's bytes go to the end of the archive. */
  lemma ReassembledArchiveStep(fs: FileSystem, final: string, paths: seq<string>)
    requires |paths| > 0 && final != paths[|paths| - 1]
    ensures var r := Reassembled(fs, final, paths);
            final in r && r[final] == Read(Reassembled(fs, final, paths[..|paths| - 1]), final) + Head(Read(fs, paths[|paths| - 1]))
  {
  }

  /** After reassembly no chunk file is left. */
  lemma {:induction false} ReassembledRemovesChunks(fs: FileSystem, final: string, paths: seq<string>, p: string)
    requires p in paths && final !in paths
    ensures p !in Reassembled(fs, final, paths)
    decreases |paths|
  {
    var prefix := paths[..|paths| - 1];
    if p != paths[|paths| - 1] {
      var j :| 0 <= j < |paths| && paths[j] == p;
      assert prefix[j] == p;
      ReassembledRemovesChunks(fs, final, prefix, p);
    }
  }

  /** Reassembly leaves every file other than the archive and the chunks as it was. */
  lemma {:induction false} ReassembledKeepsOthers(fs: FileSystem, final: string, paths: seq<string>, p: string)
    requires p != final && p !in paths
    ensures p in Reassembled(fs, final, paths) <==> p in fs
    ensures p in fs ==> Reassembled(fs, final, paths)[p] == fs[p]
    decreases |paths|
  {
    if |paths| > 0 {
      var prefix := paths[..|paths| - 1];
      ReassembledKeepsOthers(fs, final, prefix, p);
    }
  }

  /** Until a chunk has been appended, its file is as it was at the start. */
  lemma {:induction false} ChunkUntouchedSoFar(fs: FileSystem, final: string, done: seq<string>, chunk: string)
    requires chunk !in done && chunk != final
    ensures Read(Reassembled(fs, final, done), chunk) == Read(fs, chunk)
    decreases |done|
  {
    if |done| > 0 {
      ChunkUntouchedSoFar(fs, final, done[..|done| - 1], chunk);
    }
  }

  /** One file operation of the reassembly loop. */
  datatype FsOp = Append(path: string, data: Bytes) | Remove(path: string)

  /** The operations of the reassembly loop over the chunk files `paths`. */
  function ReassemblyTrace(fs: FileSystem, final: string, paths: seq<string>): (t: seq<FsOp>)
    ensures |t| == 2 * |paths|
    decreases |paths|
  {
    if |paths| == 0 then []
    else
      var chunk := paths[|paths| - 1];
      ReassemblyTrace(fs, final, paths[..|paths| - 1]) + [Append(final, Head(Read(fs, chunk))), Remove(chunk)]
  }

  /** The reassembly loop: for each index from 0 to `total - 1`, read at most
      `ReadLimit` bytes of the chunk file, append them to the archive, then
      remove the chunk file. */
  method Reassemble(fs: FileSystem, spool: string, uuid: string, name: string, total: int)
    returns (result: FileSystem, trace: seq<FsOp>)
    ensures var chunks := ChunkFiles(spool, uuid, name, if total < 0 then 0 else total);
            && result == Reassembled(fs, FinalPath(spool, name), chunks)
            && trace == ReassemblyTrace(fs, FinalPath(spool, name), chunks)
  {
    var final := FinalPath(spool, name);
    result, trace := fs, [];
    var i: nat := 0;
    while i <= total - 1
      invariant total >= 0 ==> i <= total
      invariant total < 0 ==> i == 0
      invariant result == Reassembled(fs, final, ChunkFiles(spool, uuid, name, i))
      invariant trace == ReassemblyTrace(fs, final, ChunkFiles(spool, uuid, name, i))
    {
      var chunk := ChunkPath(spool, uuid, name, i);
      ghost var done := ChunkFiles(spool, uuid, name, i);
      ChunkFilesStep(spool, uuid, name, i);
      ChunkUntouchedSoFar(fs, final, done, chunk);
      ReassembledSnoc(fs, final, done, chunk);
      var buff := Head(Read(result, chunk));
      result := result[final := Read(result, final) + buff];
      result := Unlink(result, chunk);
      trace := trace + [Append(final, buff), Remove(chunk)];
      assert (done + [chunk])[..|done|] == done;
      i := i + 1;
    }
  }

  /** The loop appends the `j`-th chunk file as its `2j`-th operation and
      removes that file in the very next one: ascending order, one chunk at a time. */
  lemma {:induction false} TraceOrder(fs: FileSystem, final: string, paths: seq<string>, j: nat)
    requires j < |paths|
    ensures var t := ReassemblyTrace(fs, final, paths);
            && t[2 * j] == Append(final, Head(Read(fs, paths[j])))
            && t[2 * j + 1] == Remove(paths[j])
    decreases |paths|
  {
    var prefix := paths[..|paths| - 1];
    if j < |paths| - 1 {
      TraceOrder(fs, final, prefix, j);
      assert prefix[j] == paths[j];
    }
  }

  /** The bytes appended by a list of file operations, in order. */
  function AppendedData(t: seq<FsOp>): Bytes
  {
    if |t| == 0 then []
    else AppendedData(t[..|t| - 1]) + (if t[|t| - 1].Append? then t[|t| - 1].data else [])
  }

  lemma AppendedDataSnoc(t: seq<FsOp>, op: FsOp)
    ensures AppendedData(t + [op]) == AppendedData(t) + (if op.Append? then op.data else [])
  {
    assert (t + [op])[..|t|] == t;
  }

  /** The archive grows by exactly the data of the trace's appends, in trace order. */
  lemma {:induction false} AssembledFollowsTrace(fs: FileSystem, final: string, paths: seq<string>)
    ensures AppendedData(ReassemblyTrace(fs, final, paths)) == Assembled(fs, paths)
    decreases |paths|
  {
    if |paths| > 0 {
      var prefix := paths[..|paths| - 1];
      var prev := ReassemblyTrace(fs, final, prefix);
      var chunk := paths[|paths| - 1];
      var app := Append(final, Head(Read(fs, chunk)));
      assert ReassemblyTrace(fs, final, paths) == (prev + [app]) + [Remove(chunk)];
      AppendedDataSnoc(prev + [app], Remove(chunk));
      AppendedDataSnoc(prev, app);
      AssembledFollowsTrace(fs, final, prefix);
    }
  }

  // ---------------------------------------------------------------------
  // The request handler

  /** The uploaded part as PHP describes it in `$_FILES['file']`. */
  datatype UploadedFile = UploadedFile(name: string, tmpName: string, error: int)

  /** The request: the uploaded part (absent when none was sent) and the
      `dzchunkindex`, `dztotalchunkcount` and `dzuuid` fields. */
  datatype ChunkRequest = ChunkRequest(file: Option<UploadedFile>, index: int, total: int, uuid: string)

  datatype UploadResponse =
    | Rejected(errorCode: Option<int>)   // HTTP 400 with the upload error code (absent when no file was sent)
    | Completed(md5: string)             // HTTP 200 {status: true, md5}
    | ChunkStored                        // HTTP 201, more chunks expected
    | NoReply                            // index beyond the announced total: nothing is returned

  /** The files and the 'localfilepaths' group of the key/value store (file id -> path). */
  datatype UploadState = UploadState(fs: FileSystem, localFilePaths: map<string, string>)

  datatype UploadOutcome = UploadOutcome(response: UploadResponse, state: UploadState)

  /** `move_uploaded_file`: the temporary file moves to `dest`; nothing happens when it is missing. */
  function MoveUploaded(fs: FileSystem, tmp: string, dest: string): (r: FileSystem)
    ensures tmp in fs ==> dest in r && r[dest] == fs[tmp]
    ensures tmp in fs && tmp != dest ==> tmp !in r
    ensures forall p :: p != tmp && p != dest ==> (p in r <==> p in fs) && (p in r ==> r[p] == fs[p])
    ensures tmp !in fs ==> r == fs
  {
    if tmp in fs then (fs - {tmp})[dest := fs[tmp]] else fs
  }

  /** The id under which the key/value store remembers a local file (`pathFromId`). */
  function PathFromId(localFilePaths: map<string, string>, id: string): Option<string>
  {
    if id in localFilePaths then Some(localFilePaths[id]) else None
  }

  /** An id recorded for a path leads back to that path, and recording it
      leaves every other id's path alone. */
  lemma PathFromIdRecorded(localFilePaths: map<string, string>, id: string, path: string, other: string)
    requires other != id
    ensures PathFromId(localFilePaths[id := path], id) == Some(path)
    ensures PathFromId(localFilePaths[id := path], other) == PathFromId(localFilePaths, other)
  {
  }

  /** One chunk request. `md5` is PHP's `md5()` on strings. */
  function HandleUpload(st: UploadState, req: ChunkRequest, spool: string, md5: string -> string): (o: UploadOutcome)
    ensures o.response.Rejected? <==> req.file.None? || req.file.value.error != 0
    ensures o.response.Rejected? ==> o.state == st && o.response.errorCode == (if req.file.None? then None else Some(req.file.value.error))
    ensures o.response.Completed? <==> !o.response.Rejected? && req.index + 1 == req.total
    ensures o.response == ChunkStored <==> !o.response.Rejected? && req.index + 1 < req.total
    ensures o.response == NoReply <==> !o.response.Rejected? && req.index + 1 > req.total
    ensures o.response.Completed? ==>
              var final := FinalPath(spool, req.file.value.name);
              o.response.md5 == md5(final) && o.state.localFilePaths == st.localFilePaths[md5(final) := final]
    ensures !o.response.Completed? ==> o.state.localFilePaths == st.localFilePaths
  {
    match req.file
    case None => UploadOutcome(Rejected(None), st)
    case Some(f) =>
      if f.error != 0 then UploadOutcome(Rejected(Some(f.error)), st)
      else
        var finalname := FinalPath(spool, f.name);
        var stored := MoveUploaded(st.fs, f.tmpName, ChunkPath(spool, req.uuid, f.name, req.index));
        if req.index + 1 == req.total then
          var fs := Reassembled(stored, finalname, ChunkFiles(spool, req.uuid, f.name, if req.total < 0 then 0 else req.total));
          var filemd5 := md5(finalname);
          UploadOutcome(Completed(filemd5), UploadState(fs, st.localFilePaths[filemd5 := finalname]))
        else if req.index + 1 < req.total then
          UploadOutcome(ChunkStored, UploadState(stored, st.localFilePaths))
        else
          UploadOutcome(NoReply, UploadState(stored, st.localFilePaths))
  }

  /** A chunk that is not the last one is only stored under its index: the
      temporary file moves there, the archive is neither created nor changed,
      and every other file is as it was. */
  lemma NonFinalChunkOnlyStores(st: UploadState, req: ChunkRequest, spool: string, md5: string -> string)
    requires req.file.Some? && req.file.value.error == 0
    requires req.index + 1 < req.total
    requires req.file.value.tmpName in st.fs
    requires req.file.value.tmpName != FinalPath(spool, req.file.value.name)
    ensures var o := HandleUpload(st, req, spool, md5);
            var f := req.file.value;
            var final := FinalPath(spool, f.name);
            && o.response == ChunkStored
            && o.state.fs[ChunkPath(spool, req.uuid, f.name, req.index)] == st.fs[f.tmpName]
            && (final in o.state.fs <==> final in st.fs)
            && (final in st.fs ==> o.state.fs[final] == st.fs[final])
            && (forall p :: p != f.tmpName && p != ChunkPath(spool, req.uuid, f.name, req.index) ==>
                  (p in o.state.fs <==> p in st.fs) && (p in st.fs ==> o.state.fs[p] == st.fs[p]))
  {
    FinalIsNoChunk(spool, req.uuid, req.file.value.name, req.index);
  }

  /** The last chunk completes the upload: every chunk file is gone, the
      archive has chunks `0 .. total-1` appended in order, and the returned id
      leads back to the archive's path. The id is the md5 of the path text,
      not of the archive's contents. */
  lemma FinalChunkCompletes(st: UploadState, req: ChunkRequest, spool: string, md5: string -> string)
    requires req.file.Some? && req.file.value.error == 0
    requires req.index >= 0 && req.index + 1 == req.total
    ensures var o := HandleUpload(st, req, spool, md5);
            var f := req.file.value;
            var final := FinalPath(spool, f.name);
            var stored := MoveUploaded(st.fs, f.tmpName, ChunkPath(spool, req.uuid, f.name, req.index));
            && o.response == Completed(md5(final))
            && PathFromId(o.state.localFilePaths, o.response.md5) == Some(final)
            && (forall j :: 0 <= j < req.total ==> ChunkPath(spool, req.uuid, f.name, j) !in o.state.fs)
            && final in o.state.fs
            && o.state.fs[final] == Read(stored, final) + Assembled(stored, ChunkFiles(spool, req.uuid, f.name, req.total))
            && (forall p :: p != final && p !in ChunkFiles(spool, req.uuid, f.name, req.total) ==>
                  (p in o.state.fs <==> p in stored) && (p in stored ==> o.state.fs[p] == stored[p]))
  {
    var f := req.file.value;
    var stored := MoveUploaded(st.fs, f.tmpName, ChunkPath(spool, req.uuid, f.name, req.index));
    var o := HandleUpload(st, req, spool, md5);
    ChunkFilesStep(spool, req.uuid, f.name, req.index);
    ReassembledArchive(stored, FinalPath(spool, f.name), ChunkFiles(spool, req.uuid, f.name, req.total));
    forall j | 0 <= j < req.total
      ensures ChunkPath(spool, req.uuid, f.name, j) !in o.state.fs
    {
      assert ChunkPath(spool, req.uuid, f.name, j) == ChunkFiles(spool, req.uuid, f.name, req.total)[j];
      ReassembledRemovesChunks(stored, FinalPath(spool, f.name), ChunkFiles(spool, req.uuid, f.name, req.total), ChunkPath(spool, req.uuid, f.name, j));
    }
    forall p | p != FinalPath(spool, f.name) && p !in ChunkFiles(spool, req.uuid, f.name, req.total)
      ensures (p in o.state.fs <==> p in stored) && (p in stored ==> o.state.fs[p] == stored[p])
    {
      ReassembledKeepsOthers(stored, FinalPath(spool, f.name), ChunkFiles(spool, req.uuid, f.name, req.total), p);
    }
  }

  /** Chunks that are not the last one may arrive in any order: storing two of
      them (different indices, different temporary files) gives the same
      files either way. */
  lemma ChunkArrivalsCommute(fs: FileSystem, tmp1: string, dest1: string, tmp2: string, dest2: string)
    requires tmp1 != tmp2 && dest1 != dest2
    requires tmp1 != dest2 && tmp2 != dest1
    ensures MoveUploaded(MoveUploaded(fs, tmp1, dest1), tmp2, dest2)
         == MoveUploaded(MoveUploaded(fs, tmp2, dest2), tmp1, dest1)
  {
    var a := MoveUploaded(MoveUploaded(fs, tmp1, dest1), tmp2, dest2);
    var b := MoveUploaded(MoveUploaded(fs, tmp2, dest2), tmp1, dest1);
    assert a.Keys == b.Keys;
    forall p | p in a
      ensures a[p] == b[p]
    {
    }
  }

  /** The last chunk's signal is trusted: when chunk 2 of 3 arrives before
      chunks 0 and 1, reassembly runs at once, skips the missing chunk files
      without any error, and the archive holds chunk 2 alone. */
  lemma FinalSignalIsTrusted(fs: FileSystem, spool: string, uuid: string, name: string)
    requires ChunkPath(spool, uuid, name, 0) !in fs && ChunkPath(spool, uuid, name, 1) !in fs
    requires FinalPath(spool, name) !in fs
    requires ChunkPath(spool, uuid, name, 2) in fs && |fs[ChunkPath(spool, uuid, name, 2)]| <= ReadLimit
    ensures Reassembled(fs, FinalPath(spool, name), ChunkFiles(spool, uuid, name, 3))[FinalPath(spool, name)]
            == fs[ChunkPath(spool, uuid, name, 2)]
  {
    var paths := ChunkFiles(spool, uuid, name, 3);
    ChunkFilesStep(spool, uuid, name, 2);
    ReassembledArchive(fs, FinalPath(spool, name), paths);
    assert paths[..2][..1][..0] == [];
    assert Assembled(fs, paths[..2][..1]) == [] + [];
    assert Assembled(fs, paths[..2]) == [] + [];
    assert Assembled(fs, paths) == [] + fs[ChunkPath(spool, uuid, name, 2)];
  }

  /** Uploading a one-chunk file whose name is already taken extends the
      existing archive instead of replacing it (`fopen` in append mode). */
  lemma ReuploadAppends(st: UploadState, f: UploadedFile, uuid: string, spool: string, md5: string -> string)
    requires f.error == 0 && f.tmpName in st.fs
    requires FinalPath(spool, f.name) in st.fs
    requires f.tmpName != FinalPath(spool, f.name)
    requires |st.fs[f.tmpName]| <= ReadLimit
    ensures var o := HandleUpload(st, ChunkRequest(Some(f), 0, 1, uuid), spool, md5);
            o.state.fs[FinalPath(spool, f.name)] == st.fs[FinalPath(spool, f.name)] + st.fs[f.tmpName]
  {
    var final := FinalPath(spool, f.name);
    var chunk := ChunkPath(spool, uuid, f.name, 0);
    FinalIsNoChunk(spool, uuid, f.name, 0);
    var stored := MoveUploaded(st.fs, f.tmpName, chunk);
    assert Read(stored, final) == st.fs[final];
    var paths := ChunkFiles(spool, uuid, f.name, 1);
    ChunkFilesStep(spool, uuid, f.name, 0);
    ReassembledArchive(stored, final, paths);
    assert paths[..0] == [];
    assert Assembled(stored, paths) == [] + st.fs[f.tmpName];
  }
}
