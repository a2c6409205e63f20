/**
 * FileUtils over an abstract device: the saved preferences, the document trees that
 * saved folder URIs resolve to, the file system and the MediaStore images table.
 */
module FileUtils {
  import opened Wrappers
  import opened Strings
  import opened Folders
  import opened ImageFilter
  import opened Selection
  import opened Streams
  import opened Preferences
  import opened Deletion

  /**
   * getRandomImageFileLegacy: a missing folder is created with mkdirs() (which may fail)
   * and then listed; a path that is not a directory gives null. The result is the
   * picked file and the file system afterwards.
   */
  function LegacyPick(disk: seq<DiskEntry>, folderPath: string, next: nat -> nat, mkdirsSucceeds: bool)
    : (r: (Option<string>, seq<DiskEntry>))
    requires IsIndexSource(next)
    ensures r.0.Some? ==> exists e | e in r.1 :: IsLegacyImage(e) && IsChildOf(folderPath, e) && e.path == r.0.value
    ensures r.0.Some? ==> CanRead(r.1, r.0.value) && |Lookup(r.1, r.0.value).value.content| > 0
    ensures Exists(disk, folderPath) ==> r.1 == disk
    ensures Exists(disk, folderPath) && Lookup(disk, folderPath).value.isFile ==> r.0.None?
    ensures !Exists(disk, folderPath) && !mkdirsSucceeds ==> r == (None, disk)
    ensures !Exists(disk, folderPath) && mkdirsSucceeds ==> r.1 == disk + [DiskEntry(folderPath, false, true, true, [])]
    ensures Exists(disk, folderPath) && !Lookup(disk, folderPath).value.isFile ==> r.0 == PickFromFolder(disk, folderPath, next)
    ensures !Exists(disk, folderPath) && mkdirsSucceeds ==> r.0 == PickFromFolder(r.1, folderPath, next)
  {
    if !Exists(disk, folderPath) then
      if mkdirsSucceeds then
        var created := disk + [DiskEntry(folderPath, false, true, true, [])];
        (PickFromFolder(created, folderPath, next), created)
      else (None, disk)
    else if Lookup(disk, folderPath).value.isFile then (None, disk)
    else (PickFromFolder(disk, folderPath, next), disk)
  }

  /** The document the tree branch of getRandomImageFile picks, if a saved URI leads to one. */
  function TreePick(prefs: map<string, string>, trees: map<string, DocumentTree>, next: nat -> nat)
    : (r: Option<Document>)
    requires IsIndexSource(next)
    ensures r.Some? ==> ImageFolderUri(prefs).Some? && ImageFolderUri(prefs).value in trees
    ensures r.Some? ==> r.value in trees[ImageFolderUri(prefs).value].children && IsTreeImage(r.value)
    ensures ImageFolderUri(prefs).None? ==> r.None?
    ensures r.Some? <==> var uri := ImageFolderUri(prefs);
      uri.Some? && uri.value in trees && trees[uri.value].present && trees[uri.value].isDirectory
      && TreeImages(trees[uri.value].children) != []
  {
    match ImageFolderUri(prefs)
    case None => None
    case Some(uri) => PickFromTree(TreeAt(trees, uri), next)
  }

  /** File(cacheDir, name): the document's name, or "temp_image_<millis>.jpg" when it has none. */
  function TempPath(cacheDir: string, doc: Document, nowMillis: nat): (p: string)
    ensures doc.name.Some? ==> p == cacheDir + "/" + doc.name.value
    ensures doc.name.None? ==> StartsWith(p, cacheDir + "/temp_image_") && EndsWith(p, ".jpg")
  {
    var fileName := doc.name.GetOr("temp_image_" + NatToString(nowMillis) + ".jpg");
    assert doc.name.None? ==> cacheDir + "/" + fileName == (cacheDir + "/temp_image_") + (NatToString(nowMillis) + ".jpg");
    cacheDir + "/" + fileName
  }

  class Context {
    /** Build.VERSION.SDK_INT. */
    const sdkInt: int
    /** Environment.getExternalStorageDirectory().path. */
    const externalStorageDirectory: string
    /** context.cacheDir. */
    const cacheDir: string

    var prefs: map<string, string>
    var trees: map<string, DocumentTree>
    var disk: seq<DiskEntry>
    var mediaStore: seq<MediaRow>

    constructor (sdkInt: int, externalStorageDirectory: string, cacheDir: string, prefs: map<string, string>,
                 trees: map<string, DocumentTree>, disk: seq<DiskEntry>, mediaStore: seq<MediaRow>)
      ensures this.sdkInt == sdkInt && this.externalStorageDirectory == externalStorageDirectory
      ensures this.cacheDir == cacheDir && this.prefs == prefs && this.trees == trees
      ensures this.disk == disk && this.mediaStore == mediaStore
    {
      this.sdkInt := sdkInt;
      this.externalStorageDirectory := externalStorageDirectory;
      this.cacheDir := cacheDir;
      this.prefs := prefs;
      this.trees := trees;
      this.disk := disk;
      this.mediaStore := mediaStore;
    }

    method SaveImageFolderPath(folderPath: string)
      modifies this`prefs
      ensures prefs == SaveFolderPath(old(prefs), folderPath)
      ensures ImageFolderPath(prefs, sdkInt, externalStorageDirectory) == folderPath
    {
      prefs := prefs[PrefFolderPath := folderPath];
    }

    method SaveImageFolderUri(folderUriString: string)
      modifies this`prefs
      ensures prefs == SaveFolderUri(old(prefs), trees, folderUriString)
      ensures ImageFolderUri(prefs) == Some(folderUriString)
      ensures folderUriString in trees ==>
        ImageFolderPath(prefs, sdkInt, externalStorageDirectory) == "DCIM/" + trees[folderUriString].name.GetOr("SelectedFolder")
    {
      prefs := prefs[PrefFolderUri := folderUriString];
      if folderUriString in trees {
        var displayName := trees[folderUriString].name.GetOr("SelectedFolder");
        SaveImageFolderPath("DCIM/" + displayName);
      }
    }

    method DeleteFileLegacy(path: string) returns (deleted: bool)
      modifies this`disk
      ensures (deleted, disk) == LegacyDelete(old(disk), path)
      ensures !Exists(old(disk), path) ==> !deleted && disk == old(disk)
    {
      var file := Lookup(disk, path);
      if file.Some? {
        deleted := file.value.deletable;
        if deleted {
          disk := RemovePath(disk, path);
        }
      } else {
        deleted := false;
      }
    }

    method DeleteFileFromUri(folderUri: string, path: string) returns (deleted: bool)
      modifies this`trees
      ensures (deleted, trees) == TreeDelete(old(trees), folderUri, FileName(path))
    {
      if folderUri !in trees || !trees[folderUri].present || !trees[folderUri].isDirectory {
        return false;
      }
      var documentFolder := trees[folderUri];
      var documentFile := FirstNamed(documentFolder.children, FileName(path));
      if documentFile.None? {
        return false;
      }
      var k := documentFile.value;
      if !documentFolder.children[k].deletable {
        return false;
      }
      var remaining := documentFolder.children[..k] + documentFolder.children[k + 1..];
      trees := trees[folderUri := documentFolder.(children := remaining)];
      return true;
    }

    method DeleteFileApi29(path: string, providerGrants: bool) returns (deleted: bool)
      modifies this`disk, this`mediaStore
      ensures (deleted, mediaStore, disk) == MediaDelete(old(mediaStore), old(disk), path, providerGrants)
    {
      if HasRow(mediaStore, path) {
        mediaStore := RemoveRows(mediaStore, path);
        disk := RemovePath(disk, path);
        return true;
      }
      if providerGrants {
        var file := Lookup(disk, path);
        if file.Some? && file.value.deletable {
          disk := RemovePath(disk, path);
          return true;
        }
      }
      deleted := DeleteFileLegacy(path);
    }

    /**
     * deleteFile: with a saved folder URI the tree is tried first, and its success ends
     * the call; otherwise MediaStore (from Q on) or java.io.File is used.
     */
    method DeleteFile(path: string, providerGrants: bool) returns (deleted: bool)
      modifies this`trees, this`disk, this`mediaStore
      ensures var uri := ImageFolderUri(prefs);
        uri.Some? && TreeDelete(old(trees), uri.value, FileName(path)).0 ==>
          deleted && trees == TreeDelete(old(trees), uri.value, FileName(path)).1
          && disk == old(disk) && mediaStore == old(mediaStore)
      ensures var uri := ImageFolderUri(prefs);
        !(uri.Some? && TreeDelete(old(trees), uri.value, FileName(path)).0) ==>
          trees == old(trees)
          && (sdkInt >= Q ==> (deleted, mediaStore, disk) == MediaDelete(old(mediaStore), old(disk), path, providerGrants))
          && (sdkInt < Q ==> (deleted, disk) == LegacyDelete(old(disk), path) && mediaStore == old(mediaStore))
    {
      var folderUri := ImageFolderUri(prefs);
      if folderUri.Some? {
        deleted := DeleteFileFromUri(folderUri.value, path);
        if deleted {
          return true;
        }
      }
      if sdkInt >= Q {
        deleted := DeleteFileApi29(path, providerGrants);
      } else {
        deleted := DeleteFileLegacy(path);
      }
    }

    method GetRandomImageFileLegacy(folderPath: string, next: nat -> nat, mkdirsSucceeds: bool)
      returns (file: Option<string>)
      requires IsIndexSource(next)
      modifies this`disk
      ensures (file, disk) == LegacyPick(old(disk), folderPath, next, mkdirsSucceeds)
    {
      if !Exists(disk, folderPath) {
        if mkdirsSucceeds {
          disk := disk + [DiskEntry(folderPath, false, true, true, [])];
        } else {
          return None;
        }
      } else if Lookup(disk, folderPath).value.isFile {
        return None;
      }
      file := PickFromFolder(disk, folderPath, next);
    }

    /**
     * The copy step of getRandomImageFile: any old file of the same name in the cache
     * directory is deleted, the document's bytes are copied into a new one, and the
     * copy is returned unless the document could not be opened or the copy is empty.
     */
    method CopyToCache(doc: Document, nowMillis: nat) returns (file: Option<string>)
      modifies this`disk
      ensures file.Some? <==> doc.readable && |doc.content| > 0
      ensures file.Some? ==> file.value == TempPath(cacheDir, doc, nowMillis)
      ensures doc.readable ==> var temp := TempPath(cacheDir, doc, nowMillis);
        Lookup(disk, temp) == Some(DiskEntry(temp, true, true, true, doc.content))
      ensures doc.readable ==> var temp := TempPath(cacheDir, doc, nowMillis);
        disk == RemovePath(old(disk), temp) + [DiskEntry(temp, true, true, true, doc.content)]
      ensures !doc.readable ==> disk == LegacyDelete(old(disk), TempPath(cacheDir, doc, nowMillis)).1
      ensures file.Some? ==> CanRead(disk, file.value)
    {
      var tempFile := TempPath(cacheDir, doc, nowMillis);
      if Exists(disk, tempFile) {
        var _ := DeleteFileLegacy(tempFile);
      }
      assert disk == LegacyDelete(old(disk), tempFile).1;
      if !doc.readable {
        // openInputStream gave null: the IOException is caught and null returned
        return None;
      }
      var inputStream := new InputStream(doc.content);
      var outputStream := new OutputStream();
      var totalBytes := Copy(inputStream, outputStream);
      assert outputStream.written == doc.content;
      var written := DiskEntry(tempFile, true, true, true, outputStream.written);
      LookupAppended(RemovePath(disk, tempFile), written);
      if disk != old(disk) {
        RemovePathAbsent(disk, tempFile);
      }
      disk := RemovePath(disk, tempFile) + [written];
      if !Exists(disk, tempFile) || !CanRead(disk, tempFile) {
        return None;
      }
      if totalBytes == 0 {
        // tempFile.length() == 0: the IOException is caught and null returned
        return None;
      }
      return Some(tempFile);
    }

    /**
     * The fallback of getRandomImageFile: MediaStore from Q on, the folder itself
     * before, and the file only if it exists and is readable. `mediaRows` are the
     * rows the MediaStore query for the folder returns, all of them rows of the table.
     */
    method PickFallback(folderPath: string, next: nat -> nat, mediaRows: seq<MediaRow>, mkdirsSucceeds: bool)
      returns (file: Option<string>)
      requires IsIndexSource(next)
      requires forall row | row in mediaRows :: row in mediaStore
      modifies this`disk
      ensures file.Some? ==> CanRead(disk, file.value)
      ensures sdkInt < Q ==> var (picked, disk') := LegacyPick(old(disk), folderPath, next, mkdirsSucceeds);
        disk == disk' && file == picked
      ensures sdkInt >= Q ==>
        disk == old(disk)
        && (ImagesOf(RowsRead(mediaRows)) == [] ==> file.None?)
        && (file.Some? ==> exists row | row in RowsRead(mediaRows) :: IsImageRow(row) && row.data == file.value)
        && (file.Some? ==> HasRow(mediaStore, file.value))
      ensures sdkInt >= Q ==> var images := ImagesOf(RowsRead(mediaRows));
        file == if images == [] then None
                else var path := images[next(|images|)].data;
                     if CanRead(old(disk), path) then Some(path) else None
    {
      if sdkInt >= Q {
        file := PickFromMediaStore(mediaRows, next);
      } else {
        file := GetRandomImageFileLegacy(folderPath, next, mkdirsSucceeds);
      }
      if file.None? || !Exists(disk, file.value) || !CanRead(disk, file.value) {
        return None;
      }
    }

    /**
     * getRandomImageFile. With a saved folder URI whose tree yields an image, that
     * document is copied into the cache directory and the copy is returned, or null
     * when it cannot be read or turns out empty; no other source is tried then.
     * Otherwise the fallback answers.
     */
    method GetRandomImageFile(folderPath: string, next: nat -> nat, nowMillis: nat,
                              mediaRows: seq<MediaRow>, mkdirsSucceeds: bool)
      returns (file: Option<string>)
      requires IsIndexSource(next)
      requires forall row | row in mediaRows :: row in mediaStore
      modifies this`disk
      ensures file.Some? ==> CanRead(disk, file.value)
      ensures var doc := TreePick(prefs, trees, next);
        doc.Some? ==> (file.Some? <==> doc.value.readable && |doc.value.content| > 0)
      ensures var doc := TreePick(prefs, trees, next);
        doc.Some? && doc.value.readable ==> var temp := TempPath(cacheDir, doc.value, nowMillis);
          Lookup(disk, temp) == Some(DiskEntry(temp, true, true, true, doc.value.content))
          && disk == RemovePath(old(disk), temp) + [DiskEntry(temp, true, true, true, doc.value.content)]
          && (file.Some? ==> file.value == temp)
      ensures var doc := TreePick(prefs, trees, next);
        doc.Some? && !doc.value.readable ==>
          disk == LegacyDelete(old(disk), TempPath(cacheDir, doc.value, nowMillis)).1
      ensures var doc := TreePick(prefs, trees, next);
        doc.None? && sdkInt < Q ==> var (picked, disk') := LegacyPick(old(disk), folderPath, next, mkdirsSucceeds);
          disk == disk' && file == picked
      ensures var doc := TreePick(prefs, trees, next);
        doc.None? && sdkInt >= Q ==>
          disk == old(disk)
          && (ImagesOf(RowsRead(mediaRows)) == [] ==> file.None?)
          && (file.Some? ==> exists row | row in RowsRead(mediaRows) :: IsImageRow(row) && row.data == file.value)
          && (file.Some? ==> HasRow(mediaStore, file.value))
      ensures var doc := TreePick(prefs, trees, next);
        doc.None? && sdkInt >= Q ==> var images := ImagesOf(RowsRead(mediaRows));
          file == if images == [] then None
                  else var path := images[next(|images|)].data;
                       if CanRead(old(disk), path) then Some(path) else None
    {
      var folderUri := ImageFolderUri(prefs);
      if folderUri.Some? {
        var documentFile := PickFromTree(TreeAt(trees, folderUri.value), next);
        if documentFile.Some? {
          file := CopyToCache(documentFile.value, nowMillis);
          return;
        }
      }
      file := PickFallback(folderPath, next, mediaRows, mkdirsSucceeds);
    }
  }

  /** Looking up the path of an entry appended after every entry with that path was removed. */
  lemma {:induction false} LookupAppended(disk: seq<DiskEntry>, e: DiskEntry)
    requires !Exists(disk, e.path)
    ensures Lookup(disk + [e], e.path) == Some(e)
    decreases |disk|
  {
    if disk != [] {
      assert (disk + [e])[1..] == disk[1..] + [e];
      LookupAppended(disk[1..], e);
    }
  }
}
