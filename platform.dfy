/**
 * Values that the watchdog library and the filesystem hand to the viewer.
 * The viewer only reads them, so they are plain datatypes here; how they are
 * produced (inotify/FSEvents, `Path.iterdir`, `stat`) is not modelled.
 */
module Platform {
  /** A watchdog change notification: its kind ("created", "modified", ...),
      the path it concerns and whether that path is a directory. */
  datatype RawEvent = RawEvent(eventType: string, srcPath: string, isDirectory: bool)

  /** A running watchdog `Observer`, as an opaque token. */
  datatype Observer = Observer(id: nat)

  /** One entry of a directory listing: `Path.name`, `Path.suffix`, `str(path)`,
      `is_dir()`, `is_file()`, the modification time in whole seconds and the
      size in bytes. */
  datatype FileEntry = FileEntry(
    name: string,
    suffix: string,
    path: string,
    isDir: bool,
    isFile: bool,
    mtime: int,
    size: nat)
}
