/** Telling current backup archives from legacy ones
    (`determineBackupFileType`): a current archive has a `modulejson`
    directory entry. */
module Archive {

  /** One entry of the archive's table of contents. */
  datatype TarEntry = TarEntry(isDir: bool, path: string)

  datatype BackupFileType = Current | Legacy

  /** The entry that marks a current archive. */
  predicate IsModuleJsonDir(e: TarEntry)
  {
    e.isDir && e.path == "modulejson"
  }

  /** Scan the entries in order and stop at the first `modulejson` directory. */
  method DetermineBackupFileType(entries: seq<TarEntry>) returns (t: BackupFileType)
    ensures t == Current <==> exists i :: 0 <= i < |entries| && IsModuleJsonDir(entries[i])
  {
    var i := 0;
    while i < |entries|
      invariant 0 <= i <= |entries|
      invariant forall k :: 0 <= k < i ==> !IsModuleJsonDir(entries[k])
    {
      if entries[i].isDir && entries[i].path == "modulejson" {
        return Current;
      }
      i := i + 1;
    }
    return Legacy;
  }
}
