/** The part of the filesystem the backup module touches, as a map from path
    to contents. Directories are not modelled: a path either holds a file or
    does not exist. */
module Files {
  import opened Wrappers


  newtype byte = x: int | 0 <= x < 256

  type Bytes = seq<byte>

  type FileSystem = map<string, Bytes>

  /** `file_get_contents`: the contents, or `None` for the PHP `false` a
      missing file yields. */
  function ReadFile(fs: FileSystem, path: string): Option<Bytes>
  {
    if path in fs then Some(fs[path]) else None
  }

  /** The contents where PHP turns a missing file's `false` into the empty
      string: string concatenation, `empty()`, and `fread`/`fwrite` on a
      failed `fopen`. */
  function Read(fs: FileSystem, path: string): Bytes
  {
    ReadFile(fs, path).GetOr([])
  }

  /** `unlink`: the file is gone and every other file is as it was. */
  function Unlink(fs: FileSystem, path: string): (r: FileSystem)
    ensures path !in r
    ensures forall p :: p in r <==> p in fs && p != path
    ensures forall p :: p in r ==> r[p] == fs[p]
  {
    fs - {path}
  }

  /** PHP's `empty()` on file contents: true for "" and for "0". */
  predicate IsEmptyContents(b: Bytes)
  {
    b == [] || b == ['0' as byte]
  }
}
