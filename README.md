# RandomImageSharer file utilities in Dafny

RandomImageSharer is an Android application that shows a randomly chosen image from a
folder the user picked, and lets the user share or delete it. All of its file logic sits
in the `FileUtils` object. This project models that object and proves what it promises:

- how the image folder is remembered (a saved folder path and a saved document-tree URI);
- which folder entries count as images;
- how one image is picked at random from whichever source is available: a
  Storage-Access-Framework document tree, the MediaStore images table, or the folder on
  the file system;
- how a picked document is copied into the cache directory through an 8192-byte buffer;
- how a file is deleted again, trying the document tree first;
- how metadata is read from file names of the form `NAME_YYYYMMDD_NUM`, and how the date
  is shown as `YYYY/MM/DD`.

The Android environment is replaced by values. A document tree is a sequence of
`Document`s, each with a nullable name, an isFile flag, a nullable MIME type, readable
and deletable flags, and its bytes. The file system is a sequence of `DiskEntry`s keyed
by absolute path. The MediaStore table is a sequence of rows. The preferences are a
`map<string, string>`. The time-seeded `Random(seed).nextInt(n)` is an *index source*:
any function that gives an index below every positive bound. `FileUtils.Context` holds
this state and updates it in place, as the Android calls do.

Files:

- `wrappers.dfy`: `Option`, standing in for Kotlin's nullable types (`GetOr` is `?:`).
- `strings.dfy`: ASCII character classes, lower-casing, prefix and suffix tests, and the
  last path segment.
- `filenames.dfy`: `parseMetadataFromFilename` and `formatDateString`.
- `folders.dfy`: the datatypes for documents, trees, file-system entries and MediaStore rows.
- `imagefilter.dfy`: the extension test, the MIME test, and both filters.
- `selection.dfy`: the random pick, the three per-source selections and the MediaStore
  cursor loop.
- `streams.dfy`: the input and output streams and the buffered copy loop.
- `preferences.dfy`: the saved folder path and URI, the default path and the display name.
- `deletion.dfy`: the effect of each way of deleting a file.
- `fileutils.dfy`: the class `Context`, whose methods are the operations of `FileUtils`
  that change state.

`FileUtils.Context.DeleteFile` is given the file that `GetRandomImageFile` returned. When
that file came from the tree branch, it is the copy in the cache directory. When a folder
URI is saved but the tree gave no image, the file came from the fallback (MediaStore or
the folder on disk) and is not a cache copy. Either way the tree is searched first, for a
document with the file's name. For a cache copy, if that tree deletion fails, the
fallback deletes the cache copy by its path and can report success while the document
stays in the tree. The contract of `DeleteFile` states this outcome as the code has it.

## Model

| member | source | states |
|---|---|---|
| `Strings.LastSegment` | app/src/main/java/com/randomimagesharer/utils/FileUtils.kt:796-802 | the result has no '/', is a suffix of the path, and is preceded by '/' unless it is the whole path |
| `Strings.LastSegmentUnique` | app/src/main/java/com/randomimagesharer/utils/FileUtils.kt:797-799 | for any split of a path into a part that is empty or ends in '/' and a slash-free rest, the last segment is that rest |
| `FileNames.FindMatch` | app/src/main/java/com/randomimagesharer/utils/FileUtils.kt:730-731 | `Regex.find` gives the leftmost start where the pattern matches, or None when it matches at no start |
| `FileNames.ParseMetadata` | app/src/main/java/com/randomimagesharer/utils/FileUtils.kt:729-735 | a parsed name is non-empty and ASCII alphanumeric, and a parsed date is exactly 8 digits |
| `FileNames.MatchesAtIff` | app/src/main/java/com/randomimagesharer/utils/FileUtils.kt:730 | the match test at a start agrees both ways with the declarative pattern `[A-Za-z0-9]+_\d{8}_\d+` on some substring from that start |
| `FileNames.ParseMetadataNoneIff` | app/src/main/java/com/randomimagesharer/utils/FileUtils.kt:729-731 | the parser gives null exactly when no substring of the file name matches the pattern |
| `FileNames.ParseMetadataSome` | app/src/main/java/com/randomimagesharer/utils/FileUtils.kt:729-735 | a result is taken from the leftmost match: name + "_" + date + "_" and then a digit occur at its start, and no substring starting earlier matches |
| `FileNames.FormatDate` | app/src/main/java/com/randomimagesharer/utils/FileUtils.kt:742-749 | an 8-character input gives 10 characters with '/' at positions 4 and 7, and dropping those two gives back the input; any other length is returned unchanged |
| `FileNames.ParsedDateFormats` | app/src/main/java/com/randomimagesharer/ImagePreviewActivity.kt:170-173 | the date of a parsed file name renders as digits everywhere except the two slashes |
| `FileNames.ParseExample` | app/src/main/java/com/randomimagesharer/utils/FileUtils.kt:724-735 | "IMG_20240102_3.jpg" parses to ("IMG", "20240102"); "photo.jpg" gives null |
| `ImageFilter.HasImageExtensionIff` | app/src/main/java/com/randomimagesharer/utils/FileUtils.kt:279-281 | the extension test holds exactly when the lower-cased name ends with ".jpg", ".jpeg" or ".png" |
| `ImageFilter.ExtensionExamples` | app/src/main/java/com/randomimagesharer/utils/FileUtils.kt:204-206 | "A.JPG" is accepted; "x.gif" and a bare "jpg" are rejected |
| `ImageFilter.Filter` | app/src/main/java/com/randomimagesharer/utils/FileUtils.kt:277-284 | `filter` keeps exactly the elements that satisfy the predicate, each as often as the input has it, and drops every other element; it is no longer than its input |
| `ImageFilter.FilterIsSubsequence` | app/src/main/java/com/randomimagesharer/utils/FileUtils.kt:277-284 | `filter` keeps the original order: its result is a subsequence of its input |
| `ImageFilter.TreeImages` | app/src/main/java/com/randomimagesharer/utils/FileUtils.kt:201-217 | the tree filter keeps exactly the files whose MIME type starts with "image/" or whose name has an image extension, never a directory, with their multiplicities, in order |
| `ImageFilter.LegacyImages` | app/src/main/java/com/randomimagesharer/utils/FileUtils.kt:277-284 | the legacy filter keeps exactly the files whose name has an image extension, with their multiplicities, in order |
| `ImageFilter.TreeRuleWidensLegacyRule` | app/src/main/java/com/randomimagesharer/utils/FileUtils.kt:201-217 | every file the legacy rule accepts the tree rule accepts, and the tree rule accepts more only through the MIME type |
| `Selection.PickRandom` | app/src/main/java/com/randomimagesharer/utils/FileUtils.kt:219-231 | an empty list gives null; otherwise the result is an element of the list |
| `Selection.PickRandomReachesEvery` | app/src/main/java/com/randomimagesharer/utils/FileUtils.kt:225-229 | every element of a non-empty list is the pick of some valid index source |
| `Selection.PickFromTree` | app/src/main/java/com/randomimagesharer/utils/FileUtils.kt:176-236 | a document is picked exactly when the tree resolves, exists, is a directory and has an image; the pick is an image child of the tree |
| `Selection.Listing` | app/src/main/java/com/randomimagesharer/utils/FileUtils.kt:268 | the listing holds exactly the entries whose path is the folder, '/', and a non-empty name |
| `Selection.PickFromFolder` | app/src/main/java/com/randomimagesharer/utils/FileUtils.kt:286-315 | a picked path belongs to an image of the folder, exists, is readable and is not empty; a folder without images gives null |
| `Selection.PickFromFolderReachesEvery` | app/src/main/java/com/randomimagesharer/utils/FileUtils.kt:291-315 | every readable, non-empty image of the folder can be the one picked |
| `Selection.RowsRead` | app/src/main/java/com/randomimagesharer/utils/FileUtils.kt:359-383 | the cursor loop gets through the longest prefix of rows with a non-null name; the row after it has a null name |
| `Selection.ImagesOf` | app/src/main/java/com/randomimagesharer/utils/FileUtils.kt:369-376 | every image row's reference is collected, and every collected reference comes from an image row |
| `Selection.CollectImageRows` | app/src/main/java/com/randomimagesharer/utils/FileUtils.kt:364-377 | the cursor loop collects the references of the image rows among the rows it gets through, in order |
| `Selection.PickFromMediaStore` | app/src/main/java/com/randomimagesharer/utils/FileUtils.kt:385-398 | null exactly when no image row was collected; otherwise the DATA path of the collected image at the index the index source gives for their number |
| `Streams.InputStream.Read` | app/src/main/java/com/randomimagesharer/utils/FileUtils.kt:81 | -1 at the end of the stream; otherwise between 1 and the buffer's length of the next bytes, placed at the front of the buffer |
| `Streams.OutputStream.Write` | app/src/main/java/com/randomimagesharer/utils/FileUtils.kt:82 | the written bytes are appended to what was written before |
| `Streams.Copy` | app/src/main/java/com/randomimagesharer/utils/FileUtils.kt:77-84 | after the loop the output holds exactly the input's bytes in order, the input is at its end, and the byte count equals their number |
| `Preferences.DefaultImageFolderPath` | app/src/main/java/com/randomimagesharer/utils/FileUtils.kt:513-521 | "DCIM/TestImages" from Q on; the external storage root and "/DCIM/TestImages" before |
| `Preferences.ImageFolderPath` | app/src/main/java/com/randomimagesharer/utils/FileUtils.kt:435-451 | the saved path verbatim when one is saved, otherwise the default path |
| `Preferences.ImageFolderUri` | app/src/main/java/com/randomimagesharer/utils/FileUtils.kt:469-483 | the saved URI exactly when one is saved |
| `Preferences.SaveFolderPath` | app/src/main/java/com/randomimagesharer/utils/FileUtils.kt:458-462 | after saving, the folder path read back is the saved one on every version; other keys are unchanged |
| `Preferences.SaveFolderUri` | app/src/main/java/com/randomimagesharer/utils/FileUtils.kt:490-507 | the URI is saved; when it resolves to a tree the folder path becomes "DCIM/" and the tree's name, or "DCIM/SelectedFolder"; otherwise the path is untouched; no key other than these two is added, and the others keep their values |
| `Preferences.FolderDisplayName` | app/src/main/java/com/randomimagesharer/utils/FileUtils.kt:781-803 | the tree's name (or "Selected Folder") when the saved tree exists; otherwise the folder path's last segment: a slash-free suffix that is the whole path or follows a '/' |
| `Preferences.DefaultDisplayName` | app/src/main/java/com/randomimagesharer/utils/FileUtils.kt:796-802 | with nothing saved the display name is "TestImages" on every version |
| `Preferences.DisplayNameAfterSaveUri` | app/src/main/java/com/randomimagesharer/utils/FileUtils.kt:490-501 | after saving a tree URI the display name is the tree's name either way; without a name it is "Selected Folder" or "SelectedFolder" depending on whether the tree exists |
| `Deletion.LegacyDelete` | app/src/main/java/com/randomimagesharer/utils/FileUtils.kt:638-651 | true exactly when the file exists and its delete succeeds; then the path is gone and every other entry remains; false leaves the file system unchanged |
| `Deletion.FirstNamed` | app/src/main/java/com/randomimagesharer/utils/FileUtils.kt:612 | `find` gives the first child whose name equals the file's name, or none when no child has it |
| `Deletion.TreeDelete` | app/src/main/java/com/randomimagesharer/utils/FileUtils.kt:602-631 | true exactly when the tree is a valid directory and the first child with the name is deletable; only that child is removed; false changes nothing |
| `Deletion.MediaDelete` | app/src/main/java/com/randomimagesharer/utils/FileUtils.kt:660-702 | MediaStore rows with the path are deleted first; without one the outcome is that of the legacy deletion; success leaves neither row nor file, failure changes nothing |
| `FileUtils.LegacyPick` | app/src/main/java/com/randomimagesharer/utils/FileUtils.kt:244-320 | a missing folder is created when mkdirs succeeds and gives null when it fails; a non-directory gives null; an existing or created directory is picked from by the folder pick; a picked path is a readable, non-empty image in the folder |
| `FileUtils.TreePick` | app/src/main/java/com/randomimagesharer/utils/FileUtils.kt:39-46 | a document is picked exactly when a URI is saved, resolves to a tree that exists and is a directory, and that tree has an image; a pick is an image child of that tree |
| `FileUtils.TempPath` | app/src/main/java/com/randomimagesharer/utils/FileUtils.kt:53-55 | the copy is named after the document, or "temp_image_<millis>.jpg" when it has no name, inside the cache directory |
| `FileUtils.Context.SaveImageFolderPath` | app/src/main/java/com/randomimagesharer/utils/FileUtils.kt:458-462 | the preferences become the saved path's update, and the folder path read back is the saved one |
| `FileUtils.Context.SaveImageFolderUri` | app/src/main/java/com/randomimagesharer/utils/FileUtils.kt:490-507 | the preferences become the URI's update, including the overwritten folder path |
| `FileUtils.Context.DeleteFileLegacy` | app/src/main/java/com/randomimagesharer/utils/FileUtils.kt:638-651 | the result and the new file system are those of the legacy deletion; a missing file gives false and no change |
| `FileUtils.Context.DeleteFileFromUri` | app/src/main/java/com/randomimagesharer/utils/FileUtils.kt:602-631 | the result and the new trees are those of the tree deletion, by the file's name |
| `FileUtils.Context.DeleteFileApi29` | app/src/main/java/com/randomimagesharer/utils/FileUtils.kt:660-702 | the result, the new table and the new file system are those of the MediaStore deletion |
| `FileUtils.Context.DeleteFile` | app/src/main/java/com/randomimagesharer/utils/FileUtils.kt:576-593 | a successful tree deletion gives true and runs neither the MediaStore nor the legacy deletion (`disk` and `mediaStore` unchanged); otherwise the trees are untouched and the MediaStore (from Q) or legacy deletion decides |
| `FileUtils.Context.GetRandomImageFileLegacy` | app/src/main/java/com/randomimagesharer/utils/FileUtils.kt:244-320 | the result and the new file system are those of the legacy pick |
| `FileUtils.Context.CopyToCache` | app/src/main/java/com/randomimagesharer/utils/FileUtils.kt:51-123 | a copy is returned exactly when the document is readable and not empty; a readable document replaces every entry at the temporary path with one file holding its bytes, and nothing else changes; an unreadable one leaves only the deletion of an old file at that path |
| `FileUtils.Context.PickFallback` | app/src/main/java/com/randomimagesharer/utils/FileUtils.kt:134-163 | before Q the legacy pick decides; from Q the file system is untouched and the result is the DATA path of the image at the index source's index if that file is readable, else null; a returned file exists, is readable, and from Q has a row in the MediaStore table |
| `FileUtils.Context.GetRandomImageFile` | app/src/main/java/com/randomimagesharer/utils/FileUtils.kt:35-168 | a document from the saved tree is copied and the fallback is not tried; a zero-length or unreadable document gives null; the file system changes exactly as the copy step says; otherwise the fallback answers, with the same outcome as the fallback alone; a returned file is readable |

## Left out

- The Android calls themselves (ContentResolver, DocumentFile, FileProvider, SharedPreferences persistence) are state or parameters: a tree URI resolves through the `trees` map, FileProvider's grant is the flag `providerGrants`, and `mkdirs()` success is the flag `mkdirsSucceeds`.
- The MediaStore query (its `LIKE '%/folder/%'` selection and the creation of the folder by `createFolderApi29`) is not modelled: `mediaRows` is the query's answer, and the model asks only that each of its rows is a row of the `mediaStore` table.
- `Random(seed).nextInt(n)` is any index source; the generator and its time seed are not modelled, and neither is the clock: `nowMillis` is a parameter.
- `Locale.getDefault()` lower-casing is ASCII lower-casing.
- FileNames.ParseMetadata: reads `\d` as the ASCII digits 0-9 and counts lengths in characters. On Android the regular expression engine also lets `\d` match other Unicode decimal digits, and Kotlin strings count UTF-16 code units, so names with non-ASCII digits or characters outside the Basic Multilingual Plane can parse differently.
- FileNames.FormatDate: counts the length in characters, not UTF-16 code units, for the same reason.
- Logging, `logSystemState` (both copies) and `getUriForFile` beyond its success flag are diagnostics or foreign calls.
- Exceptions are modelled where the code catches them and the outcome depends on it: a null MIME or name, an unreadable document, an empty copy, a null DISPLAY_NAME in the cursor loop. Other exceptions (a failed output stream, a security exception from MediaStore, `listFiles()` returning null on an I/O error, a null DATA column) are not modelled.
- File-system paths are looked up by their first entry; the model does not require paths to be unique, and `mkdirs()` adds one directory entry without its missing parents.
- MediaStore's deletion of a row is modelled as also deleting the file at its DATA path.
- The document trees, the file system and the MediaStore table are separate values: a document in a tree and the file it stands for are never the same object. A deletion through a tree removes neither the file nor its row, and a file deletion changes no tree; only a MediaStore row deletion also removes the file.
- `totalBytes` is a `nat`; the source's `Long` cannot overflow on any real file.
- The activities (`MainActivity.kt`, both `ImagePreviewActivity.kt` files) are UI code: views, permission dialogs, threads, image loading, sharing, and the floating-point zoom and size display.
