# iCloudLess synchronisation core in Dafny

iCloudLess moves the oldest photos of an iCloud library to the local disk. At start-up
it creates a run directory with `photos` and `favorites` directories below it. `run`
then walks the library's photos in the order the library returns them and stops before
the newest `num_files_to_keep_in_icloud` of them. For each photo it:

- builds a local file name from the display name and the remote record name;
- downloads the photo to the photos directory, or to a `duplicate-` path when a file of
  another size already holds that name, and checks the written file's size;
- copies a favorite photo to the favorites directory and checks the copy;
- deletes the photo from the library, when so configured.

Any failure logs a message and calls `exit()`, which ends the whole run.

The model has three modules:

- `Naming` (`naming.dfy`) holds the pure name handling. It writes out the Python
  operations the code relies on: `rfind`, negative slice bounds, `re.sub` with a
  character class, and `str.replace`.
- `Pipeline` (`pipeline.dfy`) describes each step as a function from the state before
  to an outcome (`Done` or `Abort(reason)`, one reason per `exit()`) and the state
  after. The state is a map of local files to sizes, a set of local directories, and the
  set of record names still in the library. What the network, the disk and the library
  answer (a download's size, whether `copyfile` or `photo.delete()` went through,
  whether `os.mkdir` is allowed) is a parameter. `run` is a left fold over the photos
  up to the break index. `file_is_favorite` (iCloudLess.py:224-225) is the predicate
  `Pipeline.IsFavorite`.
- `Sync` (`sync.dfy`) is the `iCloudLess` object as a class. Its fields are the local
  files, directories and library records, which its methods update in place. `run`'s
  loop is a `while` loop with the source's `break`. Each method is proved to end with
  exactly the outcome and state that the matching `Pipeline` function gives for the
  state it started from.

Each operation is therefore written twice on purpose: once as a `Sync` method that
updates the object in place, as the source does, and once as the `Pipeline` function
that specifies it and about which the properties are proved. Likewise `Sync.ICloudLess.Valid`
is `Pipeline.Valid` of the object's current state.

## Model

| member | source | states |
|---|---|---|
| Naming.Sanitize | iCloudLess.py:165 | the result holds only `[A-Za-z0-9_]` characters and is no longer than the input |
| Naming.SanitizeCounts | iCloudLess.py:165 | every allowed character keeps its number of occurrences; every other character is gone |
| Naming.SanitizeAppend | iCloudLess.py:165 | the kept characters stay in input order: sanitising a concatenation gives the concatenation of the sanitised parts |
| Naming.SanitizeKeepsCleanNames | iCloudLess.py:165 | a name made only of allowed characters is left unchanged |
| Naming.RFind | iCloudLess.py:164 | the result is -1 exactly when the character does not occur; otherwise it is the index of its last occurrence |
| Naming.SliceBound | iCloudLess.py:165 | a Python slice bound: a negative bound counts from the end, and every bound is clamped to the string |
| Naming.SplitName | iCloudLess.py:164-165 | the slices `filename[:i]` and `filename[i:]` at `i = filename.rfind('.')`, with Python's slice bounds; its properties are in `Naming.SplitNameCases` |
| Naming.SplitNameCases | iCloudLess.py:164-165 | the two slices at `rfind('.')` rebuild the name; with a dot the suffix starts at the last dot; without a dot the suffix is the last character; an empty name gives two empty parts |
| Naming.UniqueName | iCloudLess.py:163-165 | the unique name is longer than the record name it contains |
| Naming.UniqueNameShape | iCloudLess.py:163-165 | the unique name is a prefix of allowed characters, no longer than the base, followed by `-`, the record name and the unsanitised suffix |
| Naming.UniqueNameAtLastDot | iCloudLess.py:163-165 | with a dot in the name, the name is split at its last dot |
| Naming.UniqueNameWithoutDot | iCloudLess.py:163-165 | without a dot, the base loses its last character and that character becomes the suffix |
| Naming.UniqueNameSeparatesRecords | iCloudLess.py:162-165 | two photos with the same display name and different record names never get the same local name |
| Naming.Replace | iCloudLess.py:191 | `str.replace` with a non-empty pattern: each non-overlapping occurrence, found left to right, is replaced; its properties are in the three lemmas below |
| Naming.ReplaceWithoutPattern | iCloudLess.py:191 | a string in which the pattern does not occur is left as it is |
| Naming.ReplaceGrows | iCloudLess.py:191 | replacing with a longer string never shortens the path, and lengthens it when the pattern occurs |
| Naming.ReplaceSkipsPrefix | iCloudLess.py:191 | a prefix where no occurrence of the pattern starts is left as it is |
| Naming.DuplicatePath | iCloudLess.py:189-191 | the duplicate path is never the canonical path; when the name does not occur earlier in the path, it is the directory followed by `duplicate-` and the name |
| Pipeline.MakeDir | iCloudLess.py:82-92 | an existing directory is reused; otherwise the directory is created exactly when `mkdir` is allowed and no file has that path; a failure aborts and changes nothing |
| Pipeline.MakeDirs | iCloudLess.py:42-49 | on success all three directories exist; when each may be made or exists, the run directories are created; files and library are untouched |
| Pipeline.MakeDirsSucceeds | iCloudLess.py:42-49 | the calls all go through exactly when each path is a directory already (from before or from an earlier call) or `mkdir` is allowed and no file has that path |
| Pipeline.Check | iCloudLess.py:201-221 | the check passes exactly when the file exists with the expected size |
| Pipeline.Write | iCloudLess.py:175-179 | a write succeeds exactly when the path is not a directory and the download arrived; only that path changes |
| Pipeline.Collides | iCloudLess.py:175-191 | the canonical path holds a file whose size differs from the photo's: the case in which the `duplicate-` path is written |
| Pipeline.SavedPath | iCloudLess.py:170-191 | the path checked after saving is the canonical one exactly when there is no size collision |
| Pipeline.Save | iCloudLess.py:168-221 | only the saved path changes; an existing canonical file is never overwritten; a file of the right size means no download and no change; success means the saved file has the photo's size, and happens exactly when the canonical file matches or the download to the saved path arrived complete |
| Pipeline.IsFavorite | iCloudLess.py:224-225 | a photo is a favorite exactly when its `isFavorite` value is 1 |
| Pipeline.CopyFile | iCloudLess.py:237 | `copyfile` succeeds exactly when the source exists, differs from the target, the target is no directory and the copy went through; the target then has the source's size |
| Pipeline.Favorite | iCloudLess.py:228-257 | only the favorites path changes; success happens exactly when the canonical file has the photo's size, the copy went through, and then the favorite has the photo's size |
| Pipeline.Delete | iCloudLess.py:260-267 | the delete succeeds exactly when the library accepts it and then removes only this record; a refusal aborts and changes nothing |
| Pipeline.ProcessPhoto | iCloudLess.py:141-154 | directories are untouched; the library loses at most this photo's record, only on success and only when deleting is configured; with deleting configured, success removes it |
| Pipeline.DeleteOnlyAfterVerification | iCloudLess.py:146-154 | the library is asked to delete a photo only when deleting is configured, the save succeeded, and the saved file (and a favorite's copy) exists with the photo's size |
| Pipeline.ProcessPhotoFrame | iCloudLess.py:141-154 | the canonical file is never overwritten, and only the saved path and a favorite's path can change |
| Pipeline.FavoriteCollisionAborts | iCloudLess.py:146-150 | a favorite whose canonical name holds a file of another size always ends the run, because the copy reads the canonical file |
| Pipeline.StopIndex | iCloudLess.py:137-139 | the loop stops at `total - num` when that lies between 0 and the number of photos, and at the end otherwise |
| Pipeline.RunPhotos | iCloudLess.py:137-158 | the run succeeds exactly when it finished every photo; directories are untouched; the library only shrinks, not at all without deleting, and keeps every record no finished photo owns |
| Pipeline.RunStep | iCloudLess.py:141-158 | after an abort nothing happens; otherwise the count goes up exactly on success and the library loses at most the photo's record |
| Pipeline.RunAll | iCloudLess.py:124-158 | the run finishes at most the photos before the break index and succeeds exactly when it finishes all of them; the library keeps every record no finished photo owns |
| Pipeline.RunAppend | iCloudLess.py:137-158 | photos are processed strictly in order: running two lists one after the other equals running them joined, and an abort skips the rest |
| Pipeline.AbortEndsRun | iCloudLess.py:137-158 | after an abort at photo `k`, later photos up to the break index change nothing |
| Pipeline.KeptPhotosStay | iCloudLess.py:132-139 | with distinct record names, the photos from the break index on stay in the library |
| Pipeline.Session | iCloudLess.py:270-273 | a failed directory creation ends the program before any photo is touched; photos are only processed, and a run only succeeds, once the photos and favorites directories exist |
| Sync.ICloudLess.constructor | iCloudLess.py:35-40 | the settings are stored and the photos and favorites paths are the run directory followed by the configured names |
| Sync.ICloudLess.CreateDir | iCloudLess.py:82-92 | ends in the outcome and state that `Pipeline.MakeDir` gives |
| Sync.ICloudLess.CreateRunDirectories | iCloudLess.py:42-49 | ends in the outcome and state that `Pipeline.MakeDirs` gives for the run, photos and favorites directories |
| Sync.ICloudLess.WriteDownload | iCloudLess.py:176-179 | ends in the outcome and state that `Pipeline.Write` gives |
| Sync.ICloudLess.SaveFile | iCloudLess.py:168-221 | ends in the outcome and state that `Pipeline.Save` gives |
| Sync.ICloudLess.CopyToFavorites | iCloudLess.py:228-257 | ends in the outcome and state that `Pipeline.Favorite` gives |
| Sync.ICloudLess.DeleteInCloud | iCloudLess.py:260-267 | ends in the outcome and state that `Pipeline.Delete` gives |
| Sync.ICloudLess.ProcessOne | iCloudLess.py:141-154 | ends in the outcome and state that `Pipeline.ProcessPhoto` gives |
| Sync.ICloudLess.Run | iCloudLess.py:119-160 | the loop with its break ends in the outcome, count and state that `Pipeline.RunAll` gives |
| Sync.ICloudLess.RunSession | iCloudLess.py:270-273 | creates the directories and then runs, ending in the outcome, count and state that `Pipeline.Session` gives |

## Behaviour at the edges

The model follows the code in these cases:

- The start-up message (iCloudLess.py:132) announces that `total - num` photos will be
  downloaded and `num` kept. The loop only breaks when `index == total - num`. So when
  `num` is larger than the number of photos, or negative, the break never fires and
  every photo is processed (`Pipeline.StopIndex`).
- A display name without a dot makes `rfind` return -1. The slice `[:-1]` then drops the
  last character from the base and `[-1:]` makes it the suffix (`Naming.UniqueNameWithoutDot`).
  For a non-empty name the suffix is therefore not empty; the empty name gives an empty
  base and an empty suffix (`Naming.SplitNameCases`).
- Only the base is sanitised. The record name and the suffix are copied verbatim, so a
  `/` in either reaches the local path (`Naming.UniqueNameShape`).
- `copy_file_to_favorites` copies from the canonical path, even when the photo was
  saved to its `duplicate-` path. A favorite that collides therefore always aborts
  (`Pipeline.FavoriteCollisionAborts`).

## Left out

- Reading the configuration (`determine_config`, `configparser`), logging in to iCloud
  and two-factor authentication (iCloudLess.py:17-33, 52-79, 96-116): user interaction
  and network I/O. The settings are constructor parameters.
- The run directory's date-formatted name (iCloudLess.py:38): the clock. `targetDir` is
  given with that name already appended.
- `int(self.num_files_to_keep_in_icloud)` failing on a non-numeric setting
  (iCloudLess.py:130): the setting is an integer.
- Logging, `print` and the final messages: output only.
- Fetching the photo list and its `DESCENDING` order (iCloudLess.py:125-128): the photos
  are given as a sequence, in the order the library returns them. Any effect of deleting
  photos on a library listing that is still being iterated is not modelled.
- The bytes of a download and of a copy: only their sizes are modelled. The outcome of a
  download, of `copyfile` and of `photo.delete()` is a parameter.
- `exit()` is modelled as an `Abort` that ends the run, not as process termination.
- `photo.filename_unique` is not an attribute of the photo. `Run` computes the name
  and passes it to the per-photo methods as `name`.
- Other file system faults, and concurrent changes to the disk between the checks
  (`stat` failing after `is_file`, permissions on a write): the disk changes only
  through the modelled steps.
