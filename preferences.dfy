/**
 * The saved folder path and folder URI (the "RandomImageViewerPrefs" preferences),
 * the default folder path, and the folder name shown to the user.
 */
module Preferences {
  import opened Wrappers
  import opened Strings
  import opened Folders

  /** Build.VERSION_CODES.Q. */
  const Q: int := 29
  const TestFolderName: string := "TestImages"
  const PrefFolderPath: string := "folderPath"
  const PrefFolderUri: string := "folderUri"

  /** getDefaultImageFolderPath: relative to MediaStore from Q on, under external storage before. */
  function DefaultImageFolderPath(sdkInt: int, externalStorageDirectory: string): (p: string)
    ensures sdkInt >= Q ==> p == "DCIM/" + TestFolderName
    ensures sdkInt < Q ==> p == externalStorageDirectory + "/DCIM/" + TestFolderName
  {
    if sdkInt >= Q then "DCIM/" + TestFolderName
    else externalStorageDirectory + "/DCIM/" + TestFolderName
  }

  /** getImageFolderPath: the saved path verbatim, or the default when none is saved. */
  function ImageFolderPath(prefs: map<string, string>, sdkInt: int, externalStorageDirectory: string): (p: string)
    ensures PrefFolderPath in prefs ==> p == prefs[PrefFolderPath]
    ensures PrefFolderPath !in prefs ==> p == DefaultImageFolderPath(sdkInt, externalStorageDirectory)
  {
    if PrefFolderPath in prefs then prefs[PrefFolderPath]
    else DefaultImageFolderPath(sdkInt, externalStorageDirectory)
  }

  /** getImageFolderUri: the saved URI string (Uri.parse does not fail on a string). */
  function ImageFolderUri(prefs: map<string, string>): (u: Option<string>)
    ensures u.Some? <==> PrefFolderUri in prefs
    ensures u.Some? ==> u.value == prefs[PrefFolderUri]
  {
    if PrefFolderUri in prefs then Some(prefs[PrefFolderUri]) else None
  }

  /**
   * DocumentFile.fromTreeUri for a saved URI: the trees map holds the URIs that resolve
   * to a tree; for any other URI the call fails and the caller's catch takes over.
   */
  function TreeAt(trees: map<string, DocumentTree>, uri: string): Option<DocumentTree> {
    if uri in trees then Some(trees[uri]) else None
  }

  /** saveImageFolderPath. */
  function SaveFolderPath(prefs: map<string, string>, folderPath: string): (r: map<string, string>)
    ensures r.Keys == prefs.Keys + {PrefFolderPath}
    ensures forall k | k in prefs && k != PrefFolderPath :: r[k] == prefs[k]
    ensures forall sdkInt: int, root: string :: ImageFolderPath(r, sdkInt, root) == folderPath
  {
    prefs[PrefFolderPath := folderPath]
  }

  /**
   * saveImageFolderUri: store the URI, and when it resolves to a tree also overwrite the
   * folder path with "DCIM/" and the tree's name, or "DCIM/SelectedFolder" without one.
   */
  function SaveFolderUri(prefs: map<string, string>, trees: map<string, DocumentTree>, uriString: string)
    : (r: map<string, string>)
    ensures ImageFolderUri(r) == Some(uriString)
    ensures r.Keys == prefs.Keys + {PrefFolderUri} + (if uriString in trees then {PrefFolderPath} else {})
    ensures forall k | k in prefs && k != PrefFolderPath && k != PrefFolderUri :: k in r && r[k] == prefs[k]
    ensures uriString in trees ==>
      PrefFolderPath in r && r[PrefFolderPath] == "DCIM/" + trees[uriString].name.GetOr("SelectedFolder")
    ensures uriString !in trees ==> (PrefFolderPath in r <==> PrefFolderPath in prefs)
    ensures uriString !in trees && PrefFolderPath in prefs ==> r[PrefFolderPath] == prefs[PrefFolderPath]
  {
    var withUri := prefs[PrefFolderUri := uriString];
    match TreeAt(trees, uriString)
    case Some(documentFile) => SaveFolderPath(withUri, "DCIM/" + documentFile.name.GetOr("SelectedFolder"))
    case None => withUri
  }

  /**
   * getFolderDisplayName: the name of the saved tree when it resolves and exists
   * ("Selected Folder" when it has none), otherwise the last segment of the folder path.
   */
  function FolderDisplayName(prefs: map<string, string>, trees: map<string, DocumentTree>,
                             sdkInt: int, externalStorageDirectory: string): (r: string)
    ensures var t := if ImageFolderUri(prefs).Some? then TreeAt(trees, ImageFolderUri(prefs).value) else None;
      t.Some? && t.value.present ==> r == t.value.name.GetOr("Selected Folder")
    ensures var t := if ImageFolderUri(prefs).Some? then TreeAt(trees, ImageFolderUri(prefs).value) else None;
      !(t.Some? && t.value.present) ==> var p := ImageFolderPath(prefs, sdkInt, externalStorageDirectory);
        '/' !in r && EndsWith(p, r) && (|r| < |p| ==> p[|p| - |r| - 1] == '/')
  {
    var folderUri := ImageFolderUri(prefs);
    var documentFile := if folderUri.Some? then TreeAt(trees, folderUri.value) else None;
    if documentFile.Some? && documentFile.value.present then documentFile.value.name.GetOr("Selected Folder")
    else LastSegment(ImageFolderPath(prefs, sdkInt, externalStorageDirectory))
  }

  /** With nothing saved, the folder shown is the default one, "TestImages", on every version. */
  lemma DefaultDisplayName(sdkInt: int, externalStorageDirectory: string)
    ensures FolderDisplayName(map[], map[], sdkInt, externalStorageDirectory) == TestFolderName
  {
    var p := DefaultImageFolderPath(sdkInt, externalStorageDirectory);
    if sdkInt >= Q {
      LastSegmentUnique(p, "DCIM/", TestFolderName);
    } else {
      LastSegmentUnique(p, externalStorageDirectory + "/DCIM/", TestFolderName);
    }
  }

  /**
   * After a tree URI is saved, the display name is the tree's own name whether the
   * tree is found to exist or the path fallback is used, provided that name has no '/'.
   * Without a name the two fallbacks differ: "Selected Folder" against "SelectedFolder".
   */
  lemma DisplayNameAfterSaveUri(prefs: map<string, string>, trees: map<string, DocumentTree>,
                                sdkInt: int, externalStorageDirectory: string, uriString: string)
    requires uriString in trees
    requires trees[uriString].name.Some? ==> '/' !in trees[uriString].name.value
    ensures var shown := FolderDisplayName(SaveFolderUri(prefs, trees, uriString), trees, sdkInt, externalStorageDirectory);
      var tree := trees[uriString];
      shown == if tree.present then tree.name.GetOr("Selected Folder") else tree.name.GetOr("SelectedFolder")
  {
    var saved := SaveFolderUri(prefs, trees, uriString);
    var tree := trees[uriString];
    if !tree.present {
      LastSegmentUnique(saved[PrefFolderPath], "DCIM/", tree.name.GetOr("SelectedFolder"));
    }
  }
}
