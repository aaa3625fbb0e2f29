/**
 * Values shared by the archive, installer and shell components: bytes, Go's
 * os.FileMode, the optional and fallible results the Go functions return as
 * `(value, error)` pairs, and the errors themselves.
 */
module Types {

  type byte = bv8

  /** Go's os.FileMode: a 32-bit word whose low nine bits are the rwx permissions. */
  type FileMode = bv32

  /** The three execute bits (owner, group, other), octal 0111. */
  const ExecBits: FileMode := 0x49

  /** The owner-write bit, octal 0200. */
  const OwnerWrite: FileMode := 0x80

  /** The permission bits, octal 0777; FileMode.Perm() keeps exactly these. */
  const PermBits: FileMode := 0x1FF

  /** Octal 0644: the mode AddToPath creates a missing shell profile with. */
  const ProfileMode: FileMode := 0x1A4

  datatype Option<T> = None | Some(value: T)

  /** A Go `(value, error)` result in which exactly one side is meaningful. */
  datatype Result<T> = Ok(value: T) | Err(error: Error)

  /**
   * The errors the modelled code returns. Errors produced by library or
   * operating-system code that is not modelled (a corrupt ZIP directory, a
   * failed os.Open, an unreadable gzip header, ...) are carried opaquely as
   * `Io`, with a description chosen by whoever supplies the abstract archive
   * or file system.
   */
  datatype Error =
    | UnsupportedFormat(ext: string)       // "unsupported archive format: %s"
    | Io(detail: string)                   // an error passed up from the OS or a container reader
    | CreateFailed(path: string)           // os.OpenFile refused to create or open `path` for writing
    | ReadFailed(path: string)             // os.ReadFile failed with something other than "does not exist"
    | MkdirFailed(path: string)            // os.MkdirAll refused to create `path`
    | NoBinaries                           // "no binaries to install"
    | ExtractionFailed(cause: Error)       // "extraction failed: %w"
    | ShellNotSet                          // "SHELL environment variable not set"
    | UnsupportedShell(shell: string)      // "unsupported shell: %s"
}
