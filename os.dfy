/**
 * The slice of the operating system that extraction writes through: regular
 * files addressed by path, each with permission bits and contents, and the
 * rules by which os.OpenFile refuses to open a file for writing.
 */
module Os {
  import opened Types

  datatype File = File(mode: FileMode, data: seq<byte>)

  type Files = map<string, File>

  /**
   * Who may write where. `unwritable` holds the paths at which no file can
   * be created or opened for writing whatever the files are (a missing or
   * read-only directory, a path that names a directory). Unless the process
   * runs as `root`, an existing file whose owner-write bit is clear cannot be
   * opened for writing either; the process owns the files it creates.
   */
  datatype Access = Access(unwritable: set<string>, root: bool)

  /** os.OpenFile for writing fails at `path`. */
  predicate Blocked(files: Files, access: Access, path: string) {
    path in access.unwritable || (!access.root && path in files && files[path].mode & OwnerWrite == 0)
  }

  class FileSystem {
    var files: Files
    const access: Access

    constructor (files: Files, access: Access)
      ensures this.files == files && this.access == access
    {
      this.files := files;
      this.access := access;
    }

    /**
     * os.OpenFile(path, O_WRONLY|O_CREATE|O_TRUNC, perm): fails where writing
     * is blocked; otherwise empties an existing file, keeping its mode, or
     * creates an empty file with mode `perm`.
     */
    method OpenTruncate(path: string, perm: FileMode) returns (err: Option<Error>)
      modifies this
      ensures err == (if Blocked(old(files), access, path) then Some(CreateFailed(path)) else None)
      ensures err.Some? ==> files == old(files)
      ensures err.None? ==> files == old(files)[path := File(if path in old(files) then old(files)[path].mode else perm, [])]
    {
      if path in access.unwritable || (!access.root && path in files && files[path].mode & OwnerWrite == 0) {
        return Some(CreateFailed(path));
      }
      var mode := if path in files then files[path].mode else perm;
      files := files[path := File(mode, [])];
      err := None;
    }

    /** Writing `data` to the file open at `path`: it is added at the end. */
    method Write(path: string, data: seq<byte>)
      requires path in files
      modifies this
      ensures files == old(files)[path := File(old(files)[path].mode, old(files)[path].data + data)]
    {
      files := files[path := File(files[path].mode, files[path].data + data)];
    }
  }
}
