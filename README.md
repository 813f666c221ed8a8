# Photo Renamer: tags, rename log and directory tree in Dafny

Photo Renamer is a desktop program that renames image files by appending
tag markers (" @tag") to their names, and keeps a log of every name an
image has had. This project models its core and proves properties of the model:

- **The tag registry and tag renames** (`TagHandler.java`). `TagRegistry.TagHandler` is a class holding the list of tags. It covers find, create, delete, clear and `toString`, plus `addTag` and `removeTag`. Those two rename an image by building a new path from the old one, then re-key the log entry from the old path to the new one.
- **The path arithmetic of those renames** (module `NameCodec`). This is a pure model of the `substring`/`lastIndexOf`/`trim` computations, with their quirks:
  - whether a marker is present is decided against the name the image had on entry;
  - markers are found by substring search, so "@amir" matches inside "@amirite";
  - removal keeps the text before the first occurrence and after the last.
- **The rename log** (`History.java`). It maps each absolute path to the list of versions of that image.
  - Module `RenameLog` states every operation as a function on the map, including the `null` entries the Java `HashMap` can hold.
  - Class `RenameLog.History` performs the operations statement by statement, proved against those functions.
- **The directory tree** (`FileNode.java`). The file system arrives as an `Entry` value. `FileTree.BuildTree` builds the tree of `FileNode` values, keeping only files whose names pass the image-extension filter. `FileTree.FindChild` searches a tree. `FileTree.Selection` is the list of selected files that a tree is flattened into.
- **The apply button** (`ImageViewer.java:292-300`, module `Viewer`). It adds the checked tags, removes the unchecked ones, and records a version only when the file name changed.

Java exceptions are modelled as values (`Records.Outcome`): `NullPointerException`, `IndexOutOfBoundsException` and `StringIndexOutOfBoundsException`. Java `null` is modelled as `Records.Option`.

Where the system's documentation and its code differ, the model follows the code:
- The image filter is case-sensitive, and the list entry `"jpeg"` has no dot. So `x.jpeg` and `x.Jpg` are rejected, and the only files kept are those ending in `.JPG`, `.JPEG` or `.jpg`.
- `createTag` accepts the empty name. Only `null` is refused.

Files: `strings.dfy` (the Java `String` operations used), `records.dfy`,
`codec.dfy`, `codec_examples.dfy`, `history.dfy`, `tags.dfy`, `filetree.dfy`,
`viewer.dfy`.

## Model

Some functions are reference definitions with no contract of their own; the lemmas and methods in the table are stated and proved in their terms:
- `NameCodec.Markers` is the text the marking loop of `addTag` appends (TagHandler.java:134-138).
- `NameCodec.Cut` is the removal loop of `removeTag`, turn by turn (TagHandler.java:177-184).
- `Viewer.Recorded` and `Viewer.Applying` are the apply button's effect on the log and its result (ImageViewer.java:292-300).

| member | source | states |
|---|---|---|
| TagRegistry.TagHandler.FindTag | TagHandler.java:71-78 | The index of the first tag with that name, or -1 when none has it or the name is null. The result is in range, it names a match, and no earlier tag matches. |
| TagRegistry.TagHandler.CreateTag | TagHandler.java:86-98 | Answers true iff the name is non-null and absent. Then the tag is appended; otherwise the registry is unchanged. |
| TagRegistry.TagHandler.DeleteTag | TagHandler.java:105-112 | The first tag with that name is cut out, and the others keep their order. An absent or null name changes nothing. |
| TagRegistry.TagHandler.ClearTags | TagHandler.java:209-210 | The registry becomes empty. |
| TagRegistry.TagHandler.ToString | TagHandler.java:270-279 | The tags' texts joined by ", ", with no trailing separator; the empty registry prints "". |
| TagRegistry.ListingJoined | TagHandler.java:271-277 | The loop's text is the joined text followed by ", ", so dropping the last two characters joins the tags. |
| TagRegistry.CreateKeepsDistinct | TagHandler.java:88-94 | Appending only absent names keeps the names distinct. |
| TagRegistry.CreateThenFind | TagHandler.java:93-94 | A created tag is found at the end, so a second createTag of that name answers false. |
| TagRegistry.DeleteRemovesName | TagHandler.java:105-112 | With distinct names, no tag of the deleted name is left. |
| TagRegistry.DeleteKeepsDistinct | TagHandler.java:105-112 | deleteTag keeps the names distinct. |
| TagRegistry.DeleteCount | TagHandler.java:106-109 | Exactly one tag (the one findTag finds) leaves the multiset of tags when the name is present; none leaves otherwise. |
| TagRegistry.RegistryExamples | TagHandlerTest.java:101-170 | The unit-test cases: find in an empty list, of absent and present names, create twice, delete absent names and the first tag. |
| TagRegistry.TagHandler.AddTag | TagHandler.java:122-156 | No tags: the image itself and no change. File name without '.': StringIndexOutOfBounds, nothing changed. Otherwise the image renamed to `AddedPath`, keeping its icon, with the log entry moved from the old path to the new. |
| TagRegistry.TagHandler.MarkName | TagHandler.java:134-138 | The loop appends " @t" for every tag, in order, whose marker the entry name lacks. |
| TagRegistry.TagHandler.RemoveTag | TagHandler.java:165-203 | No tags: the image itself. StringIndexOutOfBounds with nothing changed when the name has no '.', or when a marker that is in the entry name is gone from the name being built. Otherwise the image renamed to `RemovedPath`, with the log entry moved. |
| TagRegistry.TagHandler.CutName | TagHandler.java:178-185 | The loop cuts each marker the entry name holds, in order. It yields None exactly where `substring` throws. |
| NameCodec.Split | TagHandler.java:129-132 | The three pieces rebuild the path. Base plus extension is the file name, the directory ends at a separator, and the extension starts at the last '.'. None iff the file name has no '.'. |
| NameCodec.SplitOf | TagHandler.java:130-132 | A path made of a directory, a separator-free base and a one-dot extension splits back into exactly those pieces. |
| NameCodec.AddedPath | TagHandler.java:122-141 | The unchanged path for no tags; None iff there are tags and the file name has no '.'. |
| NameCodec.AddedPathSplit | TagHandler.java:130-141 | addTag keeps the trimmed directory and the extension. The new base is the trimmed old one plus the markers, trimmed. |
| NameCodec.MarkersContain | TagHandler.java:134-138 | Every tag whose marker the name lacks leaves its marker in the appended text. |
| NameCodec.MarkersEmpty | TagHandler.java:134-138 | Nothing is appended when the name already carries every marker. |
| NameCodec.AddedMarksAll | TagHandler.java:134-141 | After addTag, the file name carries the marker of each requested tag. |
| NameCodec.AddedMarksEvery | TagHandler.java:134-141 | After addTag, the file name carries the markers of all requested tags. |
| NameCodec.AddedToMarked | TagHandler.java:134-141 | addTag leaves a trimmed path that already carries every marker unchanged. |
| NameCodec.AddIdempotent | TagHandler.java:134-141 | addTag twice with the same tags is addTag once. |
| NameCodec.CutMarker | TagHandler.java:179-182 | One turn of the removal loop. Unchanged when the entry name lacks the marker. None iff the name has it but the current text does not. No longer than before. |
| NameCodec.CutMarkerBetween | TagHandler.java:179-181 | Told by the marker's occurrences alone: given the first occurrence `i` and the last `j` in the current text, one turn keeps the trimmed text before `i` and the text after the marker at `j`, and `i <= j` with the tail in bounds. |
| NameCodec.CutMarkerAt | TagHandler.java:180-182 | The Java index arithmetic of one turn: first <= last, the end stays in bounds, and the result is the trimmed head plus the tail after the last marker. |
| NameCodec.CutStaysNone | TagHandler.java:178-185 | Once a turn throws, the whole loop throws. |
| NameCodec.RemovedPath | TagHandler.java:165-189 | The unchanged path for no tags; None when the file name has no '.'. |
| NameCodec.CutAbsent | TagHandler.java:178-185 | The removal loop leaves the base alone when the name holds no tag's marker. |
| NameCodec.RemoveAbsent | TagHandler.java:173-189 | removeTag of absent tags only trims the base name. |
| NameCodec.AddedOne | TagHandler.java:134-141 | addTag of one new tag appends " @t" to the trimmed base name. |
| NameCodec.RemovedOne | TagHandler.java:178-189 | removeTag of that tag cuts the marker back out. |
| NameCodec.AddThenRemove | TagHandler.java:122-203 | Round trip: adding a new tag and then removing it gives the trimmed directory, the trimmed base and the extension. |
| NameCodec.AddThenRemoveRestores | TagHandler.java:122-203 | On a path with no stray blanks, adding then removing a new tag restores the path exactly. |
| NameCodec.MarkerOnce | TagHandler.java:180-181 | A marker placed once, after '@'-free text, is what both indexOf and lastIndexOf find. |
| NameCodec.RemovedOnce | TagHandler.java:179-182 | Removing a marker that is only the start of a longer word ("@amir" in "@amirite") leaves the rest of the word behind. |
| CodecExamples.AddAmir | TagHandlerTest.java:184-186 | Tagging a.jpg with amir gives a @amir.jpg. |
| CodecExamples.AddAmirAlex | TagHandlerTest.java:211-215 | Tagging a.jpg with amir and alex gives a @amir @alex.jpg. |
| CodecExamples.RemoveAmirFromPlain | TagHandlerTest.java:205-208 | Removing amir from a.jpg leaves it as it is. |
| CodecExamples.RemoveAmirFromTwo | TagHandlerTest.java:217-220 | Removing amir from a @amir @alex.jpg gives a @alex.jpg. |
| CodecExamples.RemoveAmirFromAmirite | TagHandler.java:179-182 | Removing amir from a @amirite.jpg gives aite.jpg. |
| CodecExamples.RemoveAmirTwice | TagHandler.java:178-182 | Removing amir twice in one call throws, because the second turn no longer finds the marker. |
| RenameLog.WithEvent | History.java:169-178 | Throws NullPointer iff the path maps to null. Otherwise the path's entry becomes the old versions (or none) plus the image, the keys grow by exactly that path, and every other entry is unchanged. |
| RenameLog.EventKeepsValid | History.java:169-178 | addEvent keeps every version list non-empty. |
| RenameLog.EventAppends | History.java:170-171 | On a tracked path the list grows by one at the end. Earlier versions, the first included, stay as they were. |
| RenameLog.EventStarts | History.java:173-176 | On an untracked path a list holding just the image starts, and the image is the initial version. |
| RenameLog.EventOthers | History.java:169-178 | addEvent leaves every other path's versions and initial version alone. |
| RenameLog.Initial | History.java:102-107 | None iff the path is untracked. Throws NullPointer iff the entry is null, and IndexOutOfBounds iff the list is empty. Otherwise returns the first version. |
| RenameLog.InitialInBounds | History.java:102-107 | On a valid log, getInitial never indexes an empty list. |
| RenameLog.RotateMoves | TagHandler.java:152 | `putInLog(new, removeFromLog(old))`: the new path holds what the old one held (null when it was untracked), the old path is gone unless it is the new one, and every other path is unchanged. |
| RenameLog.RotateInPlace | TagHandler.java:152 | Re-keying a tracked path onto itself changes nothing. |
| RenameLog.RotateKeepsValid | TagHandler.java:152 | Re-keying keeps every version list non-empty. |
| RenameLog.RotateUntracked | TagHandler.java:152 | Re-keying an untracked path leaves null at the new path, so the next addEvent for it throws NullPointer. |
| RenameLog.Reverted | History.java:120-139 | Throws NullPointer iff the path is untracked or null, and IndexOutOfBounds iff i is out of range. |
| RenameLog.RevertGrows | History.java:120-139 | The versions move to version i's path and grow by one new last version there, with the image's icon. The returned image is that version. |
| RenameLog.RevertDropsOld | History.java:135 | The old path is dropped unless version i has that same path. |
| RenameLog.RevertOthers | History.java:135-136 | No other path changes. |
| RenameLog.RevertKeepsValid | History.java:120-139 | revertBackTo keeps every version list non-empty. |
| RenameLog.History.PutInLog | History.java:79-81 | Stores the value under the key and changes nothing else. |
| RenameLog.History.RemoveFromLog | History.java:98-100 | Returns what the key held (None when untracked) and drops the key. |
| RenameLog.History.GetImageHistory | History.java:148-161 | The versions of the path, or None when the path is untracked or null. |
| RenameLog.History.GetInitial | History.java:102-107 | The result is `Initial` of the log, errors included. |
| RenameLog.History.AddEvent | History.java:169-178 | The log becomes `WithEvent`'s, or stays unchanged when that throws. |
| RenameLog.History.RevertBackTo | History.java:120-139 | The log and the result are `Reverted`'s, value or exception. |
| RenameLog.History.ClearHistory | History.java:183-184 | The log becomes empty. |
| FileTree.Extension | FileNode.java:110 | The text from the last '.': it starts with that dot, holds no other, and is a suffix of the name. |
| FileTree.ImageNameIff | FileNode.java:24-25 | A file is kept iff its name ends with ".JPG", ".JPEG" or ".jpg", case-sensitively. "jpeg" never matches. |
| FileTree.ImageNameKept | FileNode.java:24-25 | IMG_01.jpg and a.b.JPEG are kept. |
| FileTree.ImageNameDropped | FileNode.java:24-25 | x.jpeg, x.Jpg and jpeg are not kept. |
| FileTree.AddChild | FileNode.java:202-204 | The child is stored under its key, the keys grow by that key only, the other children are unchanged, and the node's own fields are unchanged. |
| FileTree.AddChildReplaces | FileNode.java:202-204 | addChild with an existing key replaces that child without adding a key. |
| FileTree.Step | FileNode.java:103-113 | One listing entry adds children only: the node's name, file and type stay, and no key is lost. |
| FileTree.BuildTree | FileNode.java:101-119 | The loop builds exactly `Built`, recursing into each new DIRECTORY child it finds again with findChild. |
| FileTree.BuiltFilesAreImages | FileNode.java:105-113 | Scanning a directory adds only image files as FILE nodes, at every depth. |
| FileTree.DirectoryChild | FileNode.java:105-107 | Every sub-directory becomes a DIRECTORY child holding the tree of its own listing, whatever it contains. |
| FileTree.ImageChild | FileNode.java:110-111 | A file whose name passes the filter becomes a FILE child. |
| FileTree.SkippedFile | FileNode.java:110 | A file whose name fails the filter adds nothing. |
| FileTree.NonDirectoryRoot | FileNode.java:116-118 | A root that is not a directory gets exactly one FILE child, itself. |
| FileTree.NonDirectoryRootExample | FileNode.java:116-118 | That child is added with no filter: notes.txt is kept. |
| FileTree.FindChild | FileNode.java:76-89 | The direct child when the key is a child. Any node returned is the child under that key of some node below. Null iff no node below has that key. |
| FileTree.FilesUnderPick | FileNode.java:131-133 | The files collected do not depend on the order the children are visited in. |
| FileTree.FilesImages | FileNode.java:127-134 | A tree whose FILE nodes are images yields only image files. |
| FileTree.Selection.BuildDirectoryContents | FileNode.java:127-134 | Appends without clearing. The appended files are, as a multiset, exactly the files of the FILE nodes at or below the node, each once. |
| FileTree.Selection.ClearSelectedFiles | FileNode.java:64-66 | The list becomes empty. |
| FileTree.Selection.Open | DirectoryViewer.java:36-39 | Root, buildTree, clear, buildDirectoryContents. The list is exactly the tree's files, and for a directory every selected file is an image. |
| Viewer.Apply | ImageViewer.java:292-300 | addTag, removeTag, then addEvent only if the name changed. The log and outcome are `Applying`'s, including a failed removeTag after addTag had already moved the entry. |
| Viewer.ApplyTracked | ImageViewer.java:292-300 | For an image the log tracks, the button never throws NullPointer. Its versions end under the final path, one longer exactly when the name changed. |
| Viewer.ApplyUntracked | ImageViewer.java:296-298 | An untracked image that gets renamed throws NullPointer when its version is recorded. |
| Viewer.ApplyKeepsValid | ImageViewer.java:292-300 | The button keeps every version list non-empty. |
| Viewer.ApplyNothing | ImageViewer.java:296 | With nothing checked or unchecked, nothing is recorded and the log is unchanged. |

## Left out

- The Swing user interface (all of `PhotoRenamer.java`, `DirectoryViewer.java` and `ImageViewer.java` except the apply button and the opening of a directory at `DirectoryViewer.java:36-39`). It is event wiring and rendering.
- Persistence: the serialization in `TagHandler` and `History` (`readFromSerFile`, `saveToFile`, and the save attempted by `clearTags` and `clearHistory`). It is file I/O. The constructors take the loaded state as a parameter.
- The file system:
  - `File.renameTo` / `renameFile` are file I/O and are not modelled.
  - `File.listFiles` / `isDirectory` are replaced by the `FileTree.Entry` input value.
  - `java.io.File` path normalisation is not modelled: `new File(path).getAbsolutePath()` is taken to be `path`, and `getName` the text after the last `\`.
- Icons: `ImageIO.read`, scaling and `setIconDesc` are foreign library calls. An icon is an opaque number.
- Clocks: a tag's creation time is passed in as text, and the creation time of `Image` is not kept.
- The singletons `getInstance`: the registry and the log are objects the caller passes around.
- Aliasing: `addTag`, `removeTag` and `revertBackTo` also rename the `Image` object passed in (`addTag` and `removeTag` with `renameFile`, `setName` and `setFile` at TagHandler.java:147-149 and 195-197, `revertBackTo` with `setName` and `setFile` at History.java:132-133). Images are values here, so a caller still holding the old reference is not modelled. The returned image is.
- `FileNode` is a value, not a heap object. The `parent` field, the getters and `setName` are not modelled. A heap tree with footprints is beyond this model. `buildTree`'s in-place fill of the node that `findChild` returns is modelled as building that node and storing it back under its key.
- HashMap iteration order: `findChild` and `buildDirectoryContents` visit children in an unspecified order. The model chooses any order, and the contracts hold for every order.
- FindChild: the contract says that a non-null result is a match below the node. It does not say which of several matches the iteration order reaches first.
- Null elements inside the tag-name lists of `addTag` and `removeTag` are not modelled: the lists are of strings. Java would turn a null into the text "null".
- The lemmas about tag markers (`NameCodec.AddIdempotent`, `NameCodec.AddThenRemove` and their neighbours) assume tag names without blanks, separators or '.' (`NameCodec.TagWord`). The operations themselves are modelled for every name.
- `getTags` and `getSelectedFiles` only return a field, and are read directly.
