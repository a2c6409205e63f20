/**
 * The storage the file utilities see, reduced to values: documents of a
 * Storage-Access-Framework tree, entries of the file system, and rows of the
 * MediaStore images table.
 */
module Folders {
  import opened Wrappers
  import opened Strings

  newtype byte = b: int | 0 <= b < 0x100

  /** A DocumentFile child of a tree: its name and MIME type may be null. */
  datatype Document = Document(
    name: Option<string>,
    isFile: bool,
    mimeType: Option<string>,
    readable: bool,   // openInputStream gives a stream rather than null
    deletable: bool,  // DocumentFile.delete() succeeds
    content: seq<byte>)

  /** What DocumentFile.fromTreeUri resolves a saved folder URI to. */
  datatype DocumentTree = DocumentTree(
    name: Option<string>,
    present: bool,      // exists()
    isDirectory: bool,
    children: seq<Document>)

  /** A java.io.File that exists: a regular file or a directory, at an absolute path. */
  datatype DiskEntry = DiskEntry(
    path: string,
    isFile: bool,
    readable: bool,   // canRead()
    deletable: bool,  // delete() succeeds
    content: seq<byte>)

  /** File.name: the last segment of the path. */
  function FileName(path: string): (r: string)
    ensures '/' !in r && EndsWith(path, r)
  {
    LastSegment(path)
  }

  /** A row of the MediaStore images table: _ID, DISPLAY_NAME (may be null) and DATA. */
  datatype MediaRow = MediaRow(id: int, displayName: Option<string>, data: string)
}
