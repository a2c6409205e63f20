/**
 * The effect of each way of deleting an image, on values: through the document tree
 * (lookup by name), through MediaStore, and through java.io.File.
 */
module Deletion {
  import opened Wrappers
  import opened Folders
  import opened ImageFilter
  import opened Selection

  /** The file system without the entries at the given path. */
  function RemovePath(disk: seq<DiskEntry>, path: string): (r: seq<DiskEntry>)
    ensures forall e :: e in r <==> e in disk && e.path != path
    ensures !Exists(r, path)
  {
    Filter((e: DiskEntry) => e.path != path, disk)
  }

  /** Removing a path that is already gone leaves the file system as it is. */
  lemma RemovePathAbsent(disk: seq<DiskEntry>, path: string)
    requires !Exists(disk, path)
    ensures RemovePath(disk, path) == disk
  {
    FilterKeepsAll((e: DiskEntry) => e.path != path, disk);
  }

  /** deleteFileLegacy: false and nothing changed when the file does not exist or delete() fails. */
  function LegacyDelete(disk: seq<DiskEntry>, path: string): (r: (bool, seq<DiskEntry>))
    ensures r.0 <==> Exists(disk, path) && Lookup(disk, path).value.deletable
    ensures !r.0 ==> r.1 == disk
    ensures r.0 ==> !Exists(r.1, path)
    ensures forall e :: e in r.1 <==> e in disk && (e.path != path || !r.0)
  {
    match Lookup(disk, path)
    case None => (false, disk)
    case Some(file) => if file.deletable then (true, RemovePath(disk, path)) else (false, disk)
  }

  /** `listFiles().find { it.name == fileName }`: the index of the first child with that name. */
  function FirstNamed(children: seq<Document>, fileName: string): (r: Option<nat>)
    ensures r.Some? ==> r.value < |children| && children[r.value].name == Some(fileName)
    ensures r.Some? ==> forall k | 0 <= k < r.value :: children[k].name != Some(fileName)
    ensures r.None? ==> forall k | 0 <= k < |children| :: children[k].name != Some(fileName)
  {
    if children == [] then None
    else if children[0].name == Some(fileName) then Some(0)
    else match FirstNamed(children[1..], fileName)
      case None => None
      case Some(k) => Some(k + 1)
  }

  /**
   * deleteFileFromUri: the tree must resolve, exist and be a directory; only the first
   * child named like the file is deleted, and only if its delete() succeeds.
   */
  function TreeDelete(trees: map<string, DocumentTree>, uri: string, fileName: string)
    : (r: (bool, map<string, DocumentTree>))
    ensures !r.0 ==> r.1 == trees
    ensures r.0 <==> uri in trees && trees[uri].present && trees[uri].isDirectory
                     && FirstNamed(trees[uri].children, fileName).Some?
                     && trees[uri].children[FirstNamed(trees[uri].children, fileName).value].deletable
    ensures r.0 ==> r.1.Keys == trees.Keys
    ensures r.0 ==> forall u | u in trees && u != uri :: r.1[u] == trees[u]
    ensures r.0 ==> var kids := trees[uri].children; var k := FirstNamed(kids, fileName).value;
      r.1[uri] == trees[uri].(children := kids[..k] + kids[k + 1..])
  {
    if uri !in trees || !trees[uri].present || !trees[uri].isDirectory then (false, trees)
    else
      var tree := trees[uri];
      match FirstNamed(tree.children, fileName)
      case None => (false, trees)
      case Some(k) =>
        if tree.children[k].deletable
        then (true, trees[uri := tree.(children := tree.children[..k] + tree.children[k + 1..])])
        else (false, trees)
  }

  /** The MediaStore images table without the rows whose DATA is the path. */
  function RemoveRows(media: seq<MediaRow>, path: string): (r: seq<MediaRow>)
    ensures forall row :: row in r <==> row in media && row.data != path
  {
    Filter((row: MediaRow) => row.data != path, media)
  }

  predicate HasRow(media: seq<MediaRow>, path: string) {
    exists row | row in media :: row.data == path
  }

  /**
   * deleteFileApi29: delete the rows whose DATA is the file's path (MediaStore removes
   * the file with them); failing that, java.io.File.delete() when FileProvider grants a
   * URI for the file; failing that, deleteFileLegacy. The result is (deleted, table, files).
   */
  function MediaDelete(media: seq<MediaRow>, disk: seq<DiskEntry>, path: string, providerGrants: bool)
    : (r: (bool, seq<MediaRow>, seq<DiskEntry>))
    ensures HasRow(media, path) ==> r == (true, RemoveRows(media, path), RemovePath(disk, path))
    ensures !HasRow(media, path) ==> r.1 == media && (r.0, r.2) == LegacyDelete(disk, path)
    ensures r.0 ==> !Exists(r.2, path) && !HasRow(r.1, path)
    ensures !r.0 ==> r.1 == media && r.2 == disk
  {
    if HasRow(media, path) then (true, RemoveRows(media, path), RemovePath(disk, path))
    else if providerGrants && Exists(disk, path) && Lookup(disk, path).value.deletable
    then (true, media, RemovePath(disk, path))
    else
      var (deleted, disk') := LegacyDelete(disk, path);
      (deleted, media, disk')
  }
}
