# glowyphp/filesystem in Dafny

A model of the three classes of the glowyphp/filesystem library:

- `Filesystem`, the facade whose methods take paths as arguments;
- `File`, a handle on one file path;
- `Directory`, a handle on one directory path.

They are modelled over an immutable tree of files, directories and symbolic
links. Paths are sequences of names. The host's primitives decide what the
tree alone cannot. These are `file_exists`, `is_dir`, `unlink`, `rmdir`,
`mkdir`, `file_get_contents`, `file_put_contents`, `copy`, `fileperms` and
`chmod`, and permissions and I/O errors are the undecided part. A failure
oracle `Host.Env` supplies it: a set of paths on which each primitive fails,
plus the process umask. Every operation returns an `Outcome`, which holds
the new tree and the value the PHP method returns.

Modules:

- `Wrappers`: `Option`.
- `Paths`: path strings and `Path` component sequences.
  - `isStream` as a substring search.
  - `isAbsolute` as the anchored pattern it matches, with a scanner proved equal to it.
- `Tree`: nodes, directory entries, `Lookup`, `Graft` (replace a subtree) and `Prune` (remove one).
  - Also the algebra relating these three.
- `Octal`: `sprintf('%o')`, octal parsing and `substr(…, -4)`.
- `Host`: the primitives above, each with the failure conditions and the frame it keeps.
- `DeleteWalk`: the recursive delete of `Directory::delete` as a structural walk.
  - Also the exact condition under which a directory disappears or ends up empty.
- `CopyWalk`: the recursive `Directory::copy`, in two variants.
  - As written, and with its destination step corrected.
  - A copy into a fresh destination builds an image of the source.
- `Size`: `Directory::size` as a worklist method.
  - It is proved equal to a recursive sum.
  - Includes the library's 44-byte example.
- `FileEntry`: the `File` class.
- `DirectoryEntry`: the `Directory` class.
- `Facade`: the `Filesystem` class.
  - Includes its own `deleteDirectory` loop, which threads the tree through every `unlink`, recursive call and `rmdir`.
  - That loop is proved equal to the structural walk `Directory::delete` uses.

## Model

| member | source | states |
|---|---|---|
| Paths.Strpos | src/Filesystem.php:92 | the position found is the first occurrence of the needle; nothing is found iff the needle occurs nowhere |
| Paths.IsStream | src/Filesystem.php:90-93 | a path is a stream path iff `://` occurs somewhere in it |
| Paths.MatchAbsolute | src/Filesystem.php:102-105 | the scanner accepts exactly the strings that start with an optional drive letter and colon followed by a slash or backslash, or with a scheme of a letter then letters, digits, `+`, `.`, `-` followed by `://`, letters in either case |
| Paths.AbsoluteExamples | tests/FilesystemTest.php:63-82 | the library's expected answers: `''`, `file`, `dir:/file`, `dir:\file` are relative; `\`, `//`, `c:/file`, `c:\file`, `C:\file`, `http://file`, `remote://file` are absolute; `file://1.txt` is a stream |
| Paths.SchemeIsStream | src/Filesystem.php:90-105 | every path that is absolute by its scheme is also a stream path |
| Paths.AbsoluteIsPrefixClosed | src/Filesystem.php:104 | the pattern is anchored at the start only, so anything appended to an absolute path leaves it absolute |
| Paths.ComponentsOfChild | src/Directory.php:131 | the string `destination.'/'.basename` splits back into the destination's components followed by the basename |
| Paths.ComponentsRender | src/Directory.php:131 | rendering a path of valid names and splitting it again gives the same path |
| Octal.ParseFormat | src/Filesystem.php:251 | `sprintf('%o')` is inverted by reading the digits back as octal |
| Octal.ParseFourDigits | src/Filesystem.php:251 | the four permission digits read back as the permission bits |
| Octal.Last4OfFormat | src/Filesystem.php:251 | `substr(…, -4)` of the octal form of a mode with type bits is the four octal digits of its low 12 bits |
| Host.Unlink | src/File.php:117-130 | unlink succeeds iff the path holds a file or link and the host allows it; on success the path is gone, on failure nothing changes, and disjoint paths are untouched |
| Host.Rmdir | src/Directory.php:60-62 | rmdir succeeds iff the path is an empty directory and the host allows it; on success it is gone, otherwise nothing changes |
| Host.Mkdir | src/Directory.php:87-90 | mkdir succeeds iff the path is free, its parent is a directory and the host allows it, and creates an empty directory with the requested mode minus the umask; every path outside it is untouched |
| Host.WriteFile | src/Filesystem.php:146-149 | a write succeeds iff the path is writable, returns the byte count, and leaves exactly the data in the file; nothing changes on failure |
| Host.AppendFile | src/Filesystem.php:230-233 | an append returns the count of the bytes added and leaves the old content followed by the data |
| Host.ReadFile | src/Filesystem.php:194-203 | a read yields the content of a readable regular file and the empty string for a readable directory, since the directory opens and only the read fails; it is false for anything else |
| Host.CopyFile | src/Filesystem.php:276-279 | a copy succeeds iff the source is a readable file, the destination is writable and is not the source itself, and the destination then holds the source's content |
| Host.Chmod | src/Filesystem.php:245-252 | with a non-zero mode the permission bits become the mode's low 12 bits; with none or 0 it reports four octal digits of the current permissions, and `0` for a missing path |
| Host.ChmodRoundTrip | src/File.php:310-317 | after a successful chmod, the getter reports the digits of the mode that was set, and they read back as that mode |
| Host.ChmodZeroIsGetter | src/Directory.php:216-223 | a mode of 0 is treated as no mode: it reads the permissions instead of setting them |
| DeleteWalk.DeleteTree | src/Directory.php:46-65 | the walk keeps the directory's mode, and a preserved directory always survives |
| DeleteWalk.EntryFate | src/Directory.php:52-58 | an entry is removed completely iff nothing at or below it refuses removal |
| DeleteWalk.TreeFate | src/Directory.php:46-65 | a directory's contents all go iff nothing below it refuses; the directory itself goes iff nothing at or below it refuses |
| DeleteWalk.ChildFate | src/Directory.php:52-58 | a child survives iff it is blocked, whatever its siblings do |
| DeleteWalk.DeleteAt | src/Directory.php:46-65 | delete returns true iff the path is a directory; otherwise nothing changes; a preserved directory stays a directory; paths outside it are untouched |
| DeleteWalk.DeleteRemovesIffUnblocked | src/Directory.php:46-65 | delete removes the directory iff nothing in it refuses removal |
| DeleteWalk.CleanEmptiesIffUnblocked | src/Directory.php:74-77 | clean keeps the directory and leaves it empty, with its mode, iff nothing below refuses removal |
| DeleteWalk.CleanLeavesNoDescendant | src/Directory.php:74-77 | after an unobstructed clean no path below the directory exists |
| DeleteWalk.LinkInTree | src/Directory.php:52-58 | a link anywhere below a directory is unlinked as a leaf: it is gone iff its own unlink is allowed, whatever else is refused, and a refused link keeps the directory from being removed |
| DeleteWalk.LinkUnlinkedAsLeaf | src/Directory.php:52-58 | after delete, a link below the directory is gone iff its unlink is allowed, and otherwise is still there unchanged |
| DeleteWalk.LinkTargetUntouched | src/Directory.php:53 | the walk never follows a link: what a link below the directory points at, outside it, is untouched |
| CopyWalk.PrepareDest | src/Directory.php:122-124 | as written the step always proceeds; the corrected step proceeds only with the destination a directory; paths disjoint from the destination are untouched, and every directory above it stays a directory (the parent may gain the new entry) |
| CopyWalk.CopyInto | src/Directory.php:114-147 | the copy writes only below the destination, keeps the directories above it, and a corrected success leaves a directory at the destination |
| CopyWalk.CopyDirectory | src/Directory.php:118-120 | copying from a path that is not a directory returns false and changes nothing |
| CopyWalk.CopyEntriesSplit | src/Directory.php:130-144 | the loop over a listing is the loop over its first part followed, on success, by the loop over the rest |
| CopyWalk.CopyStopsAtFailure | src/Directory.php:134-142 | the first failing entry ends the copy: nothing after it is attempted |
| CopyWalk.CopyKeepsEarlier | src/Directory.php:134-142 | when an entry fails after earlier entries succeeded, the earlier copies stay in place: every path below another name in the destination reads as before the failing entry |
| CopyWalk.CopyFresh | src/Directory.php:114-147 | copying into a free destination outside the source's own subtree, where nothing fails, places the image of the source there and returns true |
| CopyWalk.CopyDirectoryFresh | src/Directory.php:114-147 | after such a copy every path below the destination holds the image of the matching path below the source |
| CopyWalk.LookupImage | src/Directory.php:130-144 | the image has the source's shape: looking a path up in the image gives the image of the lookup |
| CopyWalk.CorrectedRefinesAsWritten | src/Directory.php:122-124 | whenever the corrected copy succeeds, the copy as written has the same result |
| CopyWalk.AsWrittenReportsMissingCopy | src/Directory.php:122-124 | as written, copying the empty directory `a` to `x/y` with `x` missing returns true although nothing was created; the corrected copy returns false |
| Size.DirectorySize | src/Directory.php:168-185 | the size is defined iff the path is a directory and is the total size of the regular files below it |
| Size.SizeOfImage | src/Directory.php:130-144 | a copy's image has the size of its source |
| Size.SizeAfterClean | src/Directory.php:74-77 | an unobstructed clean leaves a directory of size 0 |
| Size.SizeExample | tests/FilesystemTest.php:204-214 | two directories and four files of `hello world` built through the model's mkdir and put give 44 bytes |
| FileEntry.Put | src/File.php:63-66 | see Host.WriteFile, on the handle's path |
| FileEntry.Get | src/File.php:73-82 | get() yields the content of a readable regular file, the empty string for a readable directory, and false otherwise |
| FileEntry.Append | src/File.php:107-110 | see Host.AppendFile, on the handle's path |
| FileEntry.Prepend | src/File.php:91-98 | a missing file is simply written; when the old content could be read, the file ends with the data followed by it; a failed write changes nothing, and paths outside the file are untouched |
| FileEntry.PrependLosesUnreadableContent | src/File.php:91-98 | an existing file whose read fails is overwritten by the data alone, and the byte count is reported as success |
| FileEntry.PrependChecked | src/File.php:91-98 | the corrected prepend: a failed read fails the call and changes nothing; otherwise the file ends with the data followed by its old content, and paths outside it are untouched |
| FileEntry.PrependCheckedAgrees | src/File.php:91-98 | wherever the read succeeds or the file is missing, the corrected and the written prepend agree |
| FileEntry.PutGetRoundTrip | src/File.php:63-82 | after a successful put, a readable get returns the data put |
| FileEntry.AppendPrependGet | src/File.php:91-110 | on a readable, writable file, append leaves old + data and prepend leaves data + old |
| FileEntry.Delete | src/File.php:117-130 | delete returns true iff a file or link was there and its unlink is allowed; the file is then gone, nothing changes on failure, and paths outside it are untouched |
| FileEntry.ExistsAfterPutAndDelete | src/File.php:137-144 | exists is true after a successful put and false after a successful delete |
| FileEntry.Copy | src/File.php:234-237 | copy() succeeds iff the file is readable and the destination is writable and not the file itself, and the destination then holds the file's bytes |
| FileEntry.CopyGet | src/File.php:234-237 | after a successful copy, reading the destination gives what reading the source gave |
| DirectoryEntry.Delete | src/Directory.php:46-65 | delete returns true iff the handle is a directory, a preserved directory stays one, and paths outside are untouched |
| DirectoryEntry.Clean | src/Directory.php:74-77 | clean is delete with preserve, and keeps the directory |
| DirectoryEntry.Create | src/Directory.php:87-90 | create() succeeds iff the path is free, its parent is a directory and the host allows it; it makes an empty directory with the mode less the umask, changes nothing on failure, and leaves paths outside it untouched |
| DirectoryEntry.CreateDefault | src/Directory.php:87-90 | create() with no argument makes an empty directory with mode 0755 less the umask, under the same conditions as mkdir, and leaves paths outside it untouched |
| DirectoryEntry.Copy | src/Directory.php:114-147 | the corrected copy: false and no change when the source is not a directory; on success the destination is a directory |
| DirectoryEntry.CopyAsWritten | src/Directory.php:114-147 | the copy as written: false and no change when the source is not a directory; paths outside the destination untouched |
| DirectoryEntry.DirSize | src/Directory.php:168-185 | see Size.DirectorySize, on the handle's path |
| DirectoryEntry.CreateThenDelete | src/Directory.php:87-161 | a directory just created exists, and deleting it removes it again |
| Facade.AllExist | src/Filesystem.php:126-135 | the loop returns true iff every listed path exists |
| Facade.Exists | src/Filesystem.php:126-135 | exists of one path or of a list is true iff every listed path exists, vacuously for an empty list |
| Facade.DeleteAll | src/Filesystem.php:158-173 | a true result means every listed path is gone, the batch never creates a path, and a path outside every listed one is untouched |
| Facade.Delete | src/Filesystem.php:158-173 | `delete($paths)` casts one path to a list; a true result means every listed path is gone; paths outside every listed one are untouched |
| Facade.DeleteIffRemovable | src/Filesystem.php:158-173 | on distinct paths, `delete($paths)` returns true iff every listed path could be unlinked |
| Facade.DeleteAttemptsAll | src/Filesystem.php:158-173 | on distinct paths the batch returns true iff every path could be unlinked, and every such path is gone even when others fail |
| Facade.UnlinkKeepsOthers | src/Filesystem.php:162-170 | unlinking one path does not change whether another can be unlinked |
| Facade.Prepend | src/Filesystem.php:213-220 | as written: a missing file is simply written; when the old content could be read, the call returns the total length and the file holds the data followed by it; a failed write changes nothing, and paths outside the file are untouched |
| Facade.PrependAgrees | src/Filesystem.php:213-220 | the facade's prepend is the File class's |
| Facade.DeleteDirectory | src/Filesystem.php:289-308 | deleteDirectory returns true iff the path is a directory, and changes nothing otherwise |
| Facade.CleanDirectory | src/Filesystem.php:317-320 | cleanDirectory returns true iff the path is a directory and changes nothing otherwise; on a tree with distinct names in each directory the directory survives and nothing outside it changes |
| Facade.WalkDeleteIsDeleteAt | src/Filesystem.php:295-307 | the loop that unlinks, recurses and then calls rmdir gives exactly the tree of the structural walk |
| Facade.DeleteDirectoryAgrees | src/Filesystem.php:289-308 | the facade's deleteDirectory and Directory::delete agree on every tree with distinct names in each directory |
| Facade.CleanDirectoryEmpties | src/Filesystem.php:317-320 | cleanDirectory returns true, keeps the directory, and empties it iff nothing below refuses removal |
| Facade.LeafDecisionAgrees | src/Filesystem.php:296-300 | for a non-directory entry, the walk removes it iff delete() on its path returns true, which is File::delete's answer |

## Left out

- `hash`, `mimeType`, `type`, `lastModified`, `lastAccess`, `extension`, `basename`, `name` and `glob` are left out. They depend on MD5, libmagic, clocks or pattern expansion, and none of that is part of the tree model.
- `File::size` is left out. It needs the host's `filesize`, which is only stated for directories through `Size.TreeSize`.
- `isReadable`, `isWritable`, `isLink` and the `isFile` wrappers are left out. They are direct reads of host predicates. `Host.IsFile` and `Host.IsDirectory` model the two the core uses.
- `move` in both classes is left out. `rename` across the tree is not modelled.
- `path()` is left out. A handle is an immutable value whose path is its only field.
- src/helpers.php is not part of this model. It only constructs the classes.
- Symbolic links are never resolved: a link is neither read, written nor followed, and unlink removes the link itself.
  - As a result a read, write or copy at a link fails, a copy fails on a link entry, and a directory's size counts links as 0.
  - PHP would follow a link to its target in these cases, and a write through a dangling link would create the target.
- The `$lock` flag (`LOCK_EX`) of put is left out. The model has no concurrency.
- The `$recursive` flag of create is left out, and so is the `$flags` argument of `Directory::copy`. Only `SKIP_DOTS` listings are modelled.
- Size.DirectorySize: answers None for a path that is not a directory. The source's iterator throws `UnexpectedValueException` there, and the exception is not modelled.
- Listing failures are left out. A `FilesystemIterator` constructor that throws is not modelled, and every directory's listing is its entry sequence, in the order the tree holds.
- `.` and `..` components are left out, as is path normalisation. Paths are sequences of plain names.
- The copy walk reads the source tree as it was when the copy started. A copy into the source's own subtree is therefore not modelled as the host would run it, and CopyWalk.CopyFresh and CopyWalk.CopyDirectoryFresh assume the destination lies outside the source.
- The three identical `chmod` methods are modelled once, as `Host.Chmod`.
- `File::exists`, `Directory::exists` and `Directory::isDirectory` have no members of their own. They are `Host.Exists` and `Host.IsDirectory` applied to the handle's path.
- The `IOException` branches of the delete methods are covered by the unlink failure set. There is no separate exception path.
- Facade.Prepend: kept as written, so it still loses unreadable content. The corrected prepend is `FileEntry.PrependChecked`, listed under Findings.
- Facade.DeleteDirectoryAgrees: stated only for trees whose directories have distinct entry names. Every real directory has them.

## Findings

| source | as written | input that shows it | evidently intended | confidence | as-written member | corrected member |
|---|---|---|---|---|---|---|
| src/Directory.php:122-124 | the result of `create(0777)` is ignored, and the test is `exists()` rather than `isDirectory()`, so the copy goes on when the destination could not be made or is a file | copying the empty directory `a` to `x/y` where `x` does not exist returns true, and nothing is created | the copy returns false unless the destination is a directory after this step | not executed | CopyWalk.AsWrittenReportsMissingCopy | DirectoryEntry.Copy |
| src/File.php:91-98, src/Filesystem.php:213-220 | `get()` returning false is concatenated as an empty string, so an existing file whose read fails is overwritten by the prepended data alone, and the call reports success | an existing file in the read-failure set but not the write-failure set | the prepend fails and leaves the file unchanged when the old content cannot be read | not executed | FileEntry.PrependLosesUnreadableContent | FileEntry.PrependChecked |
