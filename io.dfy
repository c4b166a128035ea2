/** Errors the tool reports and the result type that carries them.
    Every failure of the program is fatal: the first error stops the phase
    that met it and is returned instead of a value. */
module Io {

  datatype Error =
    | ReadDirFailed(dir: string)        // os.ReadDir
    | ReadFileFailed(path: string)      // os.ReadFile
    | WriteFailed(path: string)         // os.WriteFile
    | RenameFailed(src: string, dst: string, why: RenameFault)  // os.Rename

  /** Why os.Rename (Unix) refuses: Go's own check that the new path is not
      an existing directory, then the rename(2) system call's errors. */
  datatype RenameFault =
    | SourceMissing             // ENOENT: nothing at the old path
    | TargetIsDirectory         // EEXIST: the new path is a directory
    | TargetParentMissing       // ENOENT: the new path's directory is missing
    | TargetParentNotDirectory  // ENOTDIR: the new path's directory is a file
    | IntoItself                // EINVAL: a directory moved inside itself
    | DirectoryOverFile         // ENOTDIR: a directory onto an existing file

  datatype Result<+T> = Ok(value: T) | Err(error: Error)

  datatype Option<+T> = None | Some(value: T)
}
