/** Storage helpers: the filesystem types offered to the filestore
    (`getFSType`) and fetching a remote backup file into the local spool
    (`remoteToLocal`). */
module Storage {
  import opened Wrappers
  import opened PhpStrings

  // ---------------------------------------------------------------------
  // getFSType

  /** `getFSType()`'s result: the merged type lists, or the string 'backup'
      when they are empty. */
  datatype FsType = Types(types: seq<string>) | DefaultBackup

  /** One hook's answer: a list, or a value that is not an array (read as
      an empty list). */
  type HookAnswer = Option<seq<string>>

  function Merge(answers: seq<HookAnswer>): seq<string>
    decreases |answers|
  {
    if |answers| == 0 then []
    else
      var a := answers[|answers| - 1];
      Merge(answers[..|answers| - 1]) + (if a.Some? then a.value else [])
  }

  function GetFsType(answers: seq<HookAnswer>): (r: FsType)
    ensures r.Types? ==> r.types != [] && r.types == Merge(answers)
  {
    var merged := Merge(answers);
    if merged == [] then DefaultBackup else Types(merged)
  }

  /** The merged list holds exactly the types some hook listed. */
  lemma {:induction false} MergeMembers(answers: seq<HookAnswer>, t: string)
    ensures t in Merge(answers) <==> exists i :: 0 <= i < |answers| && answers[i].Some? && t in answers[i].value
    decreases |answers|
  {
    if |answers| > 0 {
      var prefix := answers[..|answers| - 1];
      MergeMembers(prefix, t);
      assert forall i :: 0 <= i < |prefix| ==> prefix[i] == answers[i];
    }
  }

  /** Merging works hook by hook: each hook's list follows the lists of the
      hooks before it, in hook order. */
  lemma {:induction false} MergeConcat(a: seq<HookAnswer>, b: seq<HookAnswer>)
    ensures Merge(a + b) == Merge(a) + Merge(b)
    decreases |b|
  {
    if |b| == 0 {
      assert a + b == a;
    } else {
      var prefix, h := b[..|b| - 1], b[|b| - 1];
      MergeConcat(a, prefix);
      assert (a + b)[..|a + b| - 1] == a + prefix;
      var tail := if h.Some? then h.value else [];
      assert Merge(a + b) == Merge(a + prefix) + tail;
      assert (Merge(a) + Merge(prefix)) + tail == Merge(a) + (Merge(prefix) + tail);
    }
  }

  /** A hook answering a list contributes that list, and any other answer
      contributes nothing. */
  lemma MergeOne(h: HookAnswer)
    ensures Merge([h]) == if h.Some? then h.value else []
  {
    assert [h][..0] == [];
  }

  /** 'backup' is offered exactly when no hook lists a type. */
  lemma GetFsTypeDefault(answers: seq<HookAnswer>)
    ensures GetFsType(answers) == DefaultBackup <==>
              forall i :: 0 <= i < |answers| && answers[i].Some? ==> answers[i].value == []
    ensures GetFsType(answers).Types? ==> forall t :: t in GetFsType(answers).types <==>
              exists i :: 0 <= i < |answers| && answers[i].Some? && t in answers[i].value
  {
    var merged := Merge(answers);
    if merged == [] {
      forall i | 0 <= i < |answers| && answers[i].Some?
        ensures answers[i].value == []
      {
        if answers[i].value != [] {
          MergeMembers(answers, answers[i].value[0]);
        }
      }
    } else {
      MergeMembers(answers, merged[0]);
    }
    forall t {
      MergeMembers(answers, t);
    }
  }

  // ---------------------------------------------------------------------
  // remoteToLocal

  /** The last two `/`-separated pieces of the remote path; the second is ""
      when the path has no `/` (PHP reads the missing index as null). */
  function LastTwo(file: string): (parts: (string, string))
  {
    var pieces := Explode(file, '/');
    if |pieces| == 1 then (pieces[0], "")
    else (pieces[|pieces| - 2], pieces[|pieces| - 1])
  }

  /** `sprintf('%s/backup/%s/%s', $spooldir, $fileparts[0], $fileparts[1])`. */
  function LocalPath(spool: string, file: string): string
  {
    var (dir, name) := LastTwo(file);
    spool + "/backup/" + dir + "/" + name
  }

  /** A remote path `<prefix>/<dir>/<name>` is stored as `<spool>/backup/<dir>/<name>`. */
  lemma LocalPathOfRemote(spool: string, prefix: string, dir: string, name: string)
    requires '/' !in dir && '/' !in name
    ensures LocalPath(spool, prefix + "/" + dir + "/" + name) == spool + "/backup/" + dir + "/" + name
  {
    var file := prefix + "/" + dir + "/" + name;
    assert file == prefix + ['/'] + (dir + ['/'] + name);
    ExplodeAround(prefix, dir + ['/'] + name, '/');
    ExplodeAround(dir, name, '/');
    ExplodeFree(dir, '/');
    ExplodeFree(name, '/');
  }

  /** The filestore download `Filestore->get($driver, $id, $file, $localpath)`. */
  datatype Fetch = Fetch(driver: string, storeId: Option<string>, remote: string, local: string)

  datatype LocalCopy = LocalCopy(path: string, fetch: Option<Fetch>, localFilePaths: map<string, string>)

  /** `remoteToLocal($location, $file)`. `present` says which local files
      exist before the call; `fetched` whether the download produced the
      local file. The location is `<driver>_<id>`. */
  function RemoteToLocal(location: string, file: string, spool: string, present: set<string>, fetched: bool,
                         localFilePaths: map<string, string>, md5: string -> string): (r: LocalCopy)
    ensures r.fetch.Some? <==> LocalPath(spool, file) !in present
    ensures r.path == "" <==> LocalPath(spool, file) !in present && !fetched
    ensures r.path != "" ==> r.path == LocalPath(spool, file) && r.localFilePaths == localFilePaths[md5(r.path) := r.path]
    ensures r.path == "" ==> r.localFilePaths == localFilePaths
  {
    var parts := Explode(location, '_');
    var localPath := LocalPath(spool, file);
    var fetch := if localPath in present then None
                 else Some(Fetch(parts[0], if |parts| > 1 then Some(parts[1]) else None, file, localPath));
    var available := localPath in present || fetched;
    if !available then LocalCopy("", fetch, localFilePaths)
    else LocalCopy(localPath, fetch, localFilePaths[md5(localPath) := localPath])
  }

  /** A remote path `<prefix>/<dir>/<name>` of a `<driver>_<id>` location
      missing locally is fetched from that driver and id into
      `<spool>/backup/<dir>/<name>`, and the returned path is found again
      under its md5. */
  lemma RemoteToLocalFetches(driver: string, storeId: string, prefix: string, dir: string, name: string, spool: string,
                             present: set<string>, localFilePaths: map<string, string>, md5: string -> string)
    requires '_' !in driver && '_' !in storeId
    requires '/' !in dir && '/' !in name
    requires spool + "/backup/" + dir + "/" + name !in present
    ensures var file := prefix + "/" + dir + "/" + name;
            var local := spool + "/backup/" + dir + "/" + name;
            var r := RemoteToLocal(driver + "_" + storeId, file, spool, present, true, localFilePaths, md5);
            && r.fetch == Some(Fetch(driver, Some(storeId), file, local))
            && r.path == local
            && md5(local) in r.localFilePaths && r.localFilePaths[md5(local)] == local
  {
    LocalPathOfRemote(spool, prefix, dir, name);
    ExplodeAround(driver, storeId, '_');
    ExplodeFree(driver, '_');
    ExplodeFree(storeId, '_');
  }
}
