/** The records shared by the web client and the server: one `FileItem` per
    file or directory in the working batch, plus the small wrappers used for
    the optional fields of the TypeScript interface. */
module Types {

  /** An optional value; `None` stands for a field that is `undefined`. */
  datatype Option<+T> = None | Some(value: T) {
    function GetOr(default: T): T {
      match this
      case Some(v) => v
      case None => default
    }
  }

  /** The outcome shown in the status column after a rename pass. */
  datatype RenameStatus = Success | Warning | Error

  /** An opaque File System Access handle. `id` distinguishes handles; `hasMove`
      records whether the browser exposes `move()` on it. */
  datatype Handle = Handle(id: nat, hasMove: bool)

  /** One entry of the batch (the `FileItem` interface, together with the
      `isRetrying` flag that the file list adds to it). */
  datatype FileItem = FileItem(
    path: string,
    name: string,
    isDirectory: bool,
    originalName: string,
    suggestedName: Option<string>,
    handle: Option<Handle>,
    renameStatus: Option<RenameStatus>,
    renameError: Option<string>,
    isRetrying: bool)

  /** A freshly added entry: no suggestion, no status, not retrying. */
  function NewItem(path: string, name: string, isDirectory: bool, handle: Handle): (f: FileItem)
    ensures f.originalName == name && f.name == name && f.path == path
    ensures f.isDirectory == isDirectory && f.handle == Some(handle)
    ensures f.suggestedName.None? && f.renameStatus.None? && f.renameError.None? && !f.isRetrying
  {
    FileItem(path, name, isDirectory, name, None, Some(handle), None, None, false)
  }

  /** JavaScript's `file.suggestedName && file.suggestedName !== file.originalName`:
      the empty string is falsy, so it counts as "no suggestion". */
  predicate HasNewName(f: FileItem) {
    f.suggestedName.Some? && f.suggestedName.value != "" && f.suggestedName.value != f.originalName
  }

  /** The fields that identify an entry and that no suggestion or rename pass
      touches. */
  predicate SameIdentity(a: FileItem, b: FileItem) {
    a.path == b.path && a.name == b.name && a.isDirectory == b.isDirectory
    && a.originalName == b.originalName && a.handle == b.handle
  }
}
