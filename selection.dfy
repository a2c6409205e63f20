/**
 * Picking one image at random from each of the three sources: a document tree, a
 * file-system folder, and the rows a MediaStore query returned.
 */
module Selection {
  import opened Wrappers
  import opened Folders
  import opened ImageFilter

  /**
   * `Random(seed).nextInt(n)` stands for an index source: for every positive bound
   * it gives some index below it. Which one is left open.
   */
  ghost predicate IsIndexSource(next: nat -> nat) {
    forall n: nat :: 0 < n ==> next(n) < n
  }

  /** The index source that always answers i when i is in range. */
  function FixedIndex(i: nat): nat -> nat {
    n => if i < n then i else 0
  }

  /** An empty list gives null; otherwise the element at the drawn index. */
  function PickRandom<T>(items: seq<T>, next: nat -> nat): (r: Option<T>)
    requires IsIndexSource(next)
    ensures r.None? <==> items == []
    ensures r.Some? ==> r.value in items
  {
    if items == [] then None else Some(items[next(|items|)])
  }

  /** Every element of a non-empty list is the pick of some index source. */
  lemma PickRandomReachesEvery<T>(items: seq<T>, i: nat)
    requires i < |items|
    ensures IsIndexSource(FixedIndex(i)) && PickRandom(items, FixedIndex(i)) == Some(items[i])
  {
    assert FixedIndex(i)(|items|) == i;
  }

  /** getRandomImageFileFromUri: the tree must resolve, exist and be a directory. */
  function PickFromTree(tree: Option<DocumentTree>, next: nat -> nat): (r: Option<Document>)
    requires IsIndexSource(next)
    ensures r.Some? <==> tree.Some? && tree.value.present && tree.value.isDirectory
                         && TreeImages(tree.value.children) != []
    ensures r.Some? ==> r.value in tree.value.children && IsTreeImage(r.value)
  {
    if tree.None? || !tree.value.present || !tree.value.isDirectory then None
    else PickRandom(TreeImages(tree.value.children), next)
  }

  /** The first entry of the file system at the given path, if any. */
  function Lookup(disk: seq<DiskEntry>, path: string): (r: Option<DiskEntry>)
    ensures r.Some? ==> r.value in disk && r.value.path == path
    ensures r.None? ==> forall e | e in disk :: e.path != path
  {
    if disk == [] then None
    else if disk[0].path == path then Some(disk[0])
    else Lookup(disk[1..], path)
  }

  /** File.exists(). */
  predicate Exists(disk: seq<DiskEntry>, path: string) {
    Lookup(disk, path).Some?
  }

  /** File.canRead(): false for a path that does not exist. */
  predicate CanRead(disk: seq<DiskEntry>, path: string) {
    Lookup(disk, path).Some? && Lookup(disk, path).value.readable
  }

  /** The entry's path is folder + "/" + its non-empty name. */
  predicate IsChildOf(folder: string, e: DiskEntry) {
    FileName(e.path) != "" && e.path == folder + "/" + FileName(e.path)
  }

  /** File(folder).listFiles(): the entries directly inside the folder, in file-system order. */
  function Listing(disk: seq<DiskEntry>, folder: string): (r: seq<DiskEntry>)
    ensures forall e :: e in r <==> e in disk && IsChildOf(folder, e)
  {
    Filter(e => IsChildOf(folder, e), disk)
  }

  /**
   * getRandomImageFileLegacy once the folder is known to be a directory: the drawn
   * image is handed out only if its path still exists, is readable and is not empty.
   * Like a java.io.File, the result is the path.
   */
  function PickFromFolder(disk: seq<DiskEntry>, folder: string, next: nat -> nat): (r: Option<string>)
    requires IsIndexSource(next)
    ensures r.Some? ==> exists e | e in LegacyImages(Listing(disk, folder)) :: e.path == r.value
    ensures r.Some? ==> CanRead(disk, r.value) && |Lookup(disk, r.value).value.content| > 0
    ensures LegacyImages(Listing(disk, folder)) == [] ==> r.None?
  {
    match PickRandom(LegacyImages(Listing(disk, folder)), next)
    case None => None
    case Some(selected) =>
      if !Exists(disk, selected.path) then None
      else if !CanRead(disk, selected.path) then None
      else if |Lookup(disk, selected.path).value.content| == 0 then None
      else Some(selected.path)
  }

  /** Every image of the folder that is readable and not empty can be the one picked. */
  lemma PickFromFolderReachesEvery(disk: seq<DiskEntry>, folder: string, i: nat)
    requires i < |LegacyImages(Listing(disk, folder))|
    requires CanRead(disk, LegacyImages(Listing(disk, folder))[i].path)
    requires |Lookup(disk, LegacyImages(Listing(disk, folder))[i].path).value.content| > 0
    ensures IsIndexSource(FixedIndex(i))
    ensures PickFromFolder(disk, folder, FixedIndex(i)) == Some(LegacyImages(Listing(disk, folder))[i].path)
  {
    var images := LegacyImages(Listing(disk, folder));
    PickRandomReachesEvery(images, i);
  }

  /** A MediaStore reference collected by the cursor loop: the content URI's id and the DATA path. */
  datatype ImageRef = ImageRef(id: int, data: string)

  predicate IsImageRow(row: MediaRow) {
    row.displayName.Some? && HasImageExtension(row.displayName.value)
  }

  /**
   * The rows the cursor loop gets through: lower-casing a null DISPLAY_NAME throws,
   * and the surrounding catch ends the loop there.
   */
  function RowsRead(rows: seq<MediaRow>): (r: seq<MediaRow>)
    ensures |r| <= |rows| && r == rows[..|r|]
    ensures forall k | 0 <= k < |r| :: rows[k].displayName.Some?
    ensures |r| < |rows| ==> rows[|r|].displayName.None?
  {
    if rows == [] || rows[0].displayName.None? then []
    else [rows[0]] + RowsRead(rows[1..])
  }

  /** The references of the image rows, in row order. */
  function ImagesOf(rows: seq<MediaRow>): (r: seq<ImageRef>)
    ensures |r| <= |rows|
    ensures forall row | row in rows && IsImageRow(row) :: ImageRef(row.id, row.data) in r
    ensures forall x | x in r :: exists row | row in rows :: IsImageRow(row) && x == ImageRef(row.id, row.data)
    decreases |rows|
  {
    if rows == [] then []
    else
      var init := rows[..|rows| - 1];
      var last := rows[|rows| - 1];
      assert rows == init + [last];
      ImagesOf(init) + if IsImageRow(last) then [ImageRef(last.id, last.data)] else []
  }

  /** The cursor loop of getRandomImageFileApi29: collect every image row until a null name. */
  method CollectImageRows(rows: seq<MediaRow>) returns (imageList: seq<ImageRef>)
    ensures imageList == ImagesOf(RowsRead(rows))
  {
    imageList := [];
    var i := 0;
    while i < |rows|
      invariant 0 <= i <= |rows|
      invariant forall k | 0 <= k < i :: rows[k].displayName.Some?
      invariant imageList == ImagesOf(rows[..i])
    {
      var row := rows[i];
      if row.displayName.None? {
        break;
      }
      if HasImageExtension(row.displayName.value) {
        imageList := imageList + [ImageRef(row.id, row.data)];
      }
      assert rows[..i + 1] == rows[..i] + [row];
      i := i + 1;
    }
    RowsReadStopsAt(rows, i);
  }

  lemma {:induction false} RowsReadStopsAt(rows: seq<MediaRow>, i: nat)
    requires i <= |rows|
    requires forall k | 0 <= k < i :: rows[k].displayName.Some?
    requires i == |rows| || rows[i].displayName.None?
    ensures RowsRead(rows) == rows[..i]
  {
    if i > 0 {
      RowsReadStopsAt(rows[1..], i - 1);
      assert rows[..i] == [rows[0]] + rows[1..][..i - 1];
    }
  }

  /**
   * getRandomImageFileApi29 from the rows its query returned: null when no image was
   * collected, otherwise the DATA path of an image row the loop reached.
   */
  method PickFromMediaStore(rows: seq<MediaRow>, next: nat -> nat) returns (file: Option<string>)
    requires IsIndexSource(next)
    ensures file.None? <==> ImagesOf(RowsRead(rows)) == []
    ensures file.Some? ==> exists row | row in RowsRead(rows) :: IsImageRow(row) && row.data == file.value
    ensures var images := ImagesOf(RowsRead(rows));
      images != [] ==> file == Some(images[next(|images|)].data)
  {
    var imageList := CollectImageRows(rows);
    if imageList == [] {
      return None;
    }
    var selectedImage := imageList[next(|imageList|)];
    assert selectedImage in ImagesOf(RowsRead(rows));
    return Some(selectedImage.data);
  }
}
