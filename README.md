# FileBackupCheck reconciliation engine, in Dafny

FileBackupCheck compares a *preserve* folder with a *cleanup* folder by
SHA-256 content. Every file under the cleanup folder whose hash can be
computed ends up in exactly one of three plans; a file whose hash fails is
skipped and is in none. A file whose content already exists somewhere in the preserve
folder is an identical copy and is planned for deletion. A file whose
relative path exists in the preserve folder with different content is moved
into the preserve folder with a `'` added before its extension. Any other
file is moved into the preserve folder under the same relative path. The user
then carries out each plan with one button, and the tool compares the
folders again. The result table lists the files; clicking a column header
sorts it.

The project models this core:

- `logic.py` and its older twin `FileChecker.py`: the globals and
  `scan_files`; `prepare_comparison` with its preserve loop and cleanup
  loop; `add_prime_to_filename`; the three `execute_*` commands; `sort_by_column`.
- `sha256_tools.py`: parsing of the output of `certutil`, 7-Zip,
  `sha256sum` and `shasum`; the choice between those tools; the cached
  path of `7z.exe`.

Modules:

| module | what it holds |
|---|---|
| `Wrappers` | `Option` |
| `PyStrings` | the Python `str` operations the core uses (`strip`, `split('\n')`, `splitlines`, `split()[0]`, `replace(' ', '')`, ASCII `lower`, string `<=`) |
| `Paths` | `posixpath` `split`, `join`, `basename`, `splitext`, and `add_prime_to_filename` |
| `HashTools` | the tool-output parsers, the tool choice, and the class `SevenZipLocator` for the module-level 7-Zip cache |
| `Sorting` | Python's stable `list.sort(key=..., reverse=...)` as insertion sort on string keys |
| `Engine` | the comparison as functions: the preserve index (`preserve_hashes`, `preserve_path_to_hash`), the three plans, `file_hashes`, the table rows, and the fold the cleanup loop computes |
| `FileSystem` | a disk as a map from path to content, with `os.remove` and `shutil.move` that may fail |
| `Columns` | the sort state, the sort keys and the header arrows |
| `Comparator` | `scan_files`, plus the class `Session`: the module globals of `logic.py` as fields, and the commands as methods with loops |

Each loop of the source is a method. Its invariant ties the state of the
loop to a function of the prefix processed so far. Lemmas prove what the
source promises about those functions: the partition into three plans, the
exact content of each plan, the rename rule, and stability of the sort.

## Model

| member | source | states |
|---|---|---|
| PyStrings.SplitOn | FileChecker.py:21 | `str.split(sep)`: joining the parts with the separator gives back the string, and no part contains the separator |
| PyStrings.Strip | sha256_tools.py:46 | `str.strip()`: the result neither starts nor ends with white space |
| PyStrings.StripTrims | sha256_tools.py:46 | `str.strip()` removes only white space: the result occurs in the string at some position, and everything before and after that occurrence is white space |
| PyStrings.SplitLines | sha256_tools.py:45 | `str.splitlines()` gives no lines exactly when the text is empty |
| PyStrings.SplitLinesRejoin | sha256_tools.py:45 | `str.splitlines()` loses nothing: each line followed by the boundary that ended it, all concatenated, gives back the text |
| PyStrings.LinesHaveNoBreaks | sha256_tools.py:45 | no line contains a line boundary |
| PyStrings.LineBreaksAreBreaks | sha256_tools.py:45 | every line is ended by one boundary character or by `\r\n`, except that the last line may end at the end of the text when it is not empty |
| PyStrings.CrLfIsOneBreak | sha256_tools.py:45 | `\r\n` is one boundary: no line ends at `\r` followed by an empty line ended by `\n` |
| PyStrings.FirstToken | sha256_tools.py:66 | `split()[0]`: present exactly when the string is not all white space; then it is the first white-space separated word: non-empty, without white space, preceded only by white space, and followed by white space or the end |
| PyStrings.FirstWordUnique | sha256_tools.py:66 | a string has only one first word, so `FirstToken` returns the one `split()[0]` names |
| PyStrings.Lower | logic.py:262-266 | `str.lower()` on ASCII: the same length, each upper-case ASCII letter replaced by its lower-case letter and every other character kept |
| PyStrings.StrLeTotal | logic.py:261-266 | any two sort keys are comparable under Python's string order |
| PyStrings.StrLeTransitive | logic.py:261-266 | Python's string order is transitive |
| PyStrings.StrLeAntisymmetric | logic.py:261-266 | two keys that are each `<=` the other are equal |
| Paths.Split | logic.py:148 | `os.path.split`: the file-name half contains no `/` |
| Paths.Basename | logic.py:262 | `os.path.basename`: the longest suffix of the path without `/`: it contains no `/`, and the character before it, if any, is `/` |
| Paths.SplitExt | logic.py:150 | `os.path.splitext`: root followed by extension gives back the path |
| Paths.ExtensionShape | logic.py:150 | when a file name has an extension, it starts with a dot, contains no other dot, and some character before it is not a dot |
| Paths.NoExtensionShape | logic.py:150 | when a file name has no extension, every character before its last dot is a dot |
| Paths.PrimeNamePosition | logic.py:149-153 | the `'` goes just before the extension, or at the end when there is no extension; the rest of the name is kept |
| Paths.HiddenFileNoExtension | logic.py:149-153 | a dot file such as `.bashrc` gets the `'` at its end |
| Paths.SplitJoin | logic.py:148-154 | joining a directory from `split` and a name without `/` splits back into that directory and name |
| Paths.AddPrimeKeepsDirectory | logic.py:146-154 | after `add_prime_to_filename`, `split` gives the same directory and the primed file name |
| Paths.AddPrimeOnName | logic.py:146-154 | on a relative path without `//`, only the file name changes, and it is replaced by its primed form |
| Paths.AddPrimeInsertsOne | logic.py:146-154 | on a relative path without `//`, `add_prime_to_filename` inserts exactly one `'` and keeps every other character |
| Paths.AddPrimeRemovePrime | FileChecker.py:186-194 | on a relative path without `//`, deleting the inserted `'` gives back the original path, so the rename loses nothing |
| HashTools.CertutilDigest | FileChecker.py:16-31 | a digest exactly when certutil succeeded and its stripped output has a second line; the digest has no spaces or newlines |
| PyStrings.Without | FileChecker.py:24 | `str.replace(' ', '')`: the character is gone, every other character keeps its count, and a string without it is returned unchanged |
| PyStrings.WithoutConcat | FileChecker.py:24 | removal works part by part and keeps the parts in order; with the contract of `Without` on one-character strings this makes the result the other characters in their original order |
| HashTools.CertutilReadsMiddleLine | FileChecker.py:17-26 | on a header/digest/footer report with exit status 0, the parser returns the stripped digest line without its spaces |
| HashTools.LowerDigest | sha256_tools.py:47-48 | lower-casing a line of 64 hex digits gives 64 lower-case hex digits |
| HashTools.FirstDigest | sha256_tools.py:45-51 | there is a result exactly when some stripped line is 64 hex digits, and the result is 64 lower-case hex digits |
| HashTools.FirstDigestIsFirstMatch | sha256_tools.py:45-48 | the digest comes from the first matching line: no earlier line matches |
| HashTools.FindDigest | sha256_tools.py:45-51 | the line loop returns what `FirstDigest` specifies |
| HashTools.SevenZipDigestCases | sha256_tools.py:28-51 | a 7-Zip digest exists exactly when an executable was found, it succeeded and some line is a digest; then the digest is lower-case hex |
| HashTools.TokenDigest | sha256_tools.py:57-90 | `sha256sum` and `shasum -a 256` share the parser: a digest exactly when the exit status is 0 and the output is not blank; then the first white-space separated word of the output |
| HashTools.TokenDigestOfReport | sha256_tools.py:65-66 | on the `<digest>  <file>` line both tools print, the parser returns the digest |
| HashTools.SelectBackendOrder | sha256_tools.py:93-109 | 7-Zip exactly on Windows; `sha256sum` exactly when not on Windows and it is found; `shasum` only when `sha256sum` is missing; none when neither is found |
| HashTools.SevenZipLocator.constructor | sha256_tools.py:10 | the cache starts empty |
| HashTools.SevenZipLocator.Locate | sha256_tools.py:13-25 | a cached path that is still a file is reused without asking; otherwise the dialog is shown, and only a non-empty answer replaces the cache |
| HashTools.SevenZipLocator.CalculateWith7z | sha256_tools.py:28-54 | the new cache as `Locate` sets it, and the result `SevenZipDigest` specifies |
| HashTools.SevenZipLocator.CalculateSha256 | sha256_tools.py:93-109 | the parser of the tool `SelectBackend` chooses; on Windows the 7-Zip cache is kept when it still names a file or the dialog answer is empty, and otherwise becomes the answer; off Windows it is untouched |
| Sorting.SortBy | logic.py:261-266 | the sorted rows are a permutation of the rows |
| Sorting.SortBySorted | logic.py:261-266 | the result is ordered by key, descending when `reverse` is set |
| Sorting.SortByStable | logic.py:261-266 | rows with equal keys keep their relative order, in both directions |
| Engine.Record | logic.py:96-99 | recording a digest appends the path to that digest's list, keeps the other lists, and maps the path to the digest |
| Engine.BuildIndex | logic.py:85-99 | every digest list of the preserve index is non-empty |
| Engine.RelsWithHashConcat | logic.py:96-98 | the paths with a digest, taken from a concatenation of scans, are those of the first part followed by those of the second, so the lists keep scan order |
| Engine.IndexLists | logic.py:96-98 | `preserve_hashes[h]` lists, in scan order, exactly the preserve paths whose digest is `h` |
| Engine.PathToHashSound | logic.py:99 | a path in `preserve_path_to_hash` is a preserve file whose content hashed to that digest |
| Engine.PathToHashComplete | logic.py:99 | every preserve file that hashed is in `preserve_path_to_hash`, under its own digest |
| Engine.IndexAgreement | logic.py:96-99 | a path maps to digest `h` exactly when it is listed under `h` |
| Engine.IndexListFirst | logic.py:118-119 | the path a duplicate row names is the first hashed preserve file with that content |
| Engine.ReferenceRows | logic.py:101 | one row per hashed preserve file, each with the action `Reference Copy` |
| Engine.HashedEntries | logic.py:93-95 | the files a loop keeps past `if not hash_value: continue` are exactly the hashed files, in scan order, as many as `CountHashed` counts |
| Engine.HashedEntriesConcat | logic.py:93-95 | the hashed entries of a concatenation of scans are those of the first part followed by those of the second, so the kept files stay in scan order |
| Engine.ReferenceRowsListHashed | logic.py:93-101 | the k-th `Reference Copy` row names the k-th hashed preserve file and its digest, so a preserve file whose hash fails has no row |
| Engine.RecordHashesKeys | logic.py:114 | `file_hashes` gains exactly the hashed paths of the folder |
| Engine.RecordHashesValue | logic.py:100 | with distinct relative paths, a hashed entry's path maps to that entry's digest, whatever the map held before; so a cleanup digest overwrites a preserve digest for the same path (logic.py:114) |
| Engine.PlansPartition | logic.py:111-127 | the lengths of the three plans add up to the number of hashed cleanup files |
| Engine.EachFileOnePlan | logic.py:111-127 | file by file: a cleanup file is in the delete plan exactly when it hashed to content the preserve folder has, the source of a rename exactly when it hashed to new content at a taken path, and the source of a new-file move exactly when it hashed to new content at a free path; so a hashed file is in exactly one plan and an unhashed one in none |
| Engine.MovedFrom | logic.py:120-127 | a cleanup file is the source of a move of a kind exactly when it hashed and is of that kind |
| Engine.DeletesExactly | logic.py:116-117 | a path is planned for deletion exactly when it is a cleanup file whose digest occurs in the preserve folder |
| Engine.DeletedSource | logic.py:116-117 | every path in the delete plan is a hashed cleanup file whose content some preserve file has |
| Engine.MovesExactly | logic.py:120-127 | a planned move is exactly a hashed cleanup file of the right kind, sent to its target |
| Engine.MovePlanned | logic.py:120-127 | for any destination rule, a hashed cleanup file of a kind has its move, to its own destination, in that kind's plan |
| Engine.MovedSource | logic.py:120-127 | for any destination rule, every planned move takes a hashed cleanup file of that kind, and goes to that file's destination |
| Engine.RenamesExactly | logic.py:121-124 | a rename is exactly a cleanup file with new content at a relative path the preserve folder has, sent to the primed path under the preserve folder |
| Engine.NewsExactly | logic.py:125-126 | a new-file move is exactly a cleanup file with new content at a path the preserve folder does not have, sent to the same relative path under the preserve folder |
| Engine.ContentTakesPrecedence | logic.py:116-119 | a cleanup file whose content occurs in the preserve folder is planned for deletion and is in neither move plan, whatever its own path holds in the preserve folder |
| Engine.PlansDisjoint | logic.py:116-127 | no source file is both deleted and moved, or moved by both move plans |
| Engine.CleanupRow | logic.py:116-127 | the row shows the cleanup file's own relative path and digest |
| Engine.CleanupRows | logic.py:111-127 | one row per hashed cleanup file |
| Engine.CleanupRowsListHashed | logic.py:111-127 | the k-th cleanup row is the row of the k-th hashed cleanup file, with its own relative path and digest |
| Engine.CleanupLoopDeletes | logic.py:103-127 | the cleanup loop appends exactly `Deletes` to the delete plan |
| Engine.CleanupLoopRenames | logic.py:103-127 | whatever the rename destinations, the cleanup loop appends exactly the planned renames to the mismatch plan; with the primed targets these are `Renames` |
| Engine.CleanupLoopNews | logic.py:103-127 | whatever the new-file destinations, the cleanup loop appends exactly the planned new-file moves to that plan; with the plain targets these are `News` |
| Engine.CleanupLoopHashes | logic.py:103-127 | the cleanup loop records the cleanup digests into `file_hashes` |
| Engine.CleanupLoopRows | logic.py:103-127 | the cleanup loop appends exactly `CleanupRows` to the table |
| Engine.FailedPreserveHashMovesOntoIt | logic.py:93-95 | a preserve file whose hash failed is skipped, so a cleanup file at the same relative path is planned as new, onto that preserve file's own path |
| FileSystem.Disk.Remove | logic.py:170 | `os.remove`: on success the path existed and is gone; on failure nothing changes |
| FileSystem.Disk.Move | logic.py:200 | `shutil.move`: on success the destination holds the source's content and the source is gone; on failure nothing changes |
| FileSystem.Removed | logic.py:170 | only the removed path leaves the disk, and the other contents are kept |
| FileSystem.Moved | logic.py:200 | the destination gets the source's content, an existing destination is replaced, and every other path is kept |
| FileSystem.RemovesOnlyPlanned | logic.py:163-173 | a delete run touches no path outside the plan, and every path whose removal succeeded is gone |
| FileSystem.MovesOnlyPlanned | logic.py:190-203 | a move run touches no path that is not a source or destination of the plan |
| FileSystem.MissingRemovalFails | logic.py:164-172 | in a delete run, a removal whose path is no longer on the disk when its turn comes is counted as an error |
| FileSystem.AbsentRemovalFails | logic.py:164-172 | in a delete run, removing a path that was not on the disk at the start is counted as an error |
| FileSystem.MissingSourceFails | logic.py:191-202 | in a move run, a move whose source is no longer on the disk when its turn comes is counted as an error |
| FileSystem.FailuresCount | logic.py:176 | the error count is the plan length minus the successes, so `len(plan) - errors` counts the files handled |
| Columns.Click | logic.py:248-252 | the clicked column becomes current; the order is descending exactly when the same column was current and ascending |
| Columns.ClickTwice | logic.py:248-249 | two clicks on the current column restore the sort state |
| Columns.FirstClick | FileChecker.py:422-423 | from the initial state, the first click sorts descending only for `Path` |
| Columns.SortRowsSpec | logic.py:261-266 | the sorted table is a permutation, ordered by the column's key, and stable for equal keys |
| Columns.HeadingMarksClicked | logic.py:271-276 | only the clicked column's header changes, and its arrow is ▼ exactly when the order is descending |
| Comparator.Put | logic.py:55 | assigning a key keeps keys distinct, holds the new pair, and keeps every pair under another key |
| Comparator.Scan | logic.py:48-56 | the scanned entries have distinct relative paths and all come from the walk |
| Comparator.ScanFiles | logic.py:48-56 | the walk loop builds the dictionary `Scan` specifies |
| Comparator.ScanKeys | logic.py:55 | the last pair walked for a relative path is the one kept |
| Comparator.ScanCovers | logic.py:51-55 | every walked relative path appears in the scan |
| Comparator.ScanFullsDistinct | logic.py:53-55 | distinct full paths in the walk stay distinct in the scan |
| Comparator.Session.constructor | logic.py:20-29 | no folders, empty plans, `file_hashes` and rows, sort by `Path` ascending, plain headers |
| Comparator.Session.SelectPreserveFolder | logic.py:32-37 | the dialog's answer becomes the preserve folder, and nothing else changes |
| Comparator.Session.SelectCleanupFolder | logic.py:40-45 | the dialog's answer becomes the cleanup folder, and nothing else changes |
| Comparator.Session.PrepareComparison | logic.py:59-127 | without both folders nothing changes; otherwise the plans, `file_hashes` and rows are rebuilt from scratch from the two scans, and the folders and sort state are kept |
| Comparator.Session.CompareFolders | logic.py:72-127 | starting from empty plans, scanning, indexing and classifying yield exactly the plans, digests and rows the two walks determine |
| Comparator.Session.HashPreserveFiles | logic.py:85-101 | the preserve loop builds `BuildIndex`, records the preserve digests and appends the `Reference Copy` rows |
| Comparator.Session.HashPreserveFile | logic.py:93-101 | one pass of the preserve loop: a hashed file is recorded in both indexes (`Record`), in `file_hashes` and as a `Reference Copy` row; an unhashed one changes nothing |
| Comparator.Session.ClassifyCleanupFiles | logic.py:103-127 | the cleanup loop yields exactly `Deletes`, `Renames`, `News`, the recorded digests and the cleanup rows |
| Comparator.Session.ClassifyCleanupFile | logic.py:111-127 | one pass of the cleanup loop is `CleanupStep`: content first, then path, then new, each branch to its own plan and row |
| Comparator.Session.PlanRename | logic.py:121-123 | the rename branch appends exactly one move, from the cleanup file to the primed relative path under the preserve folder |
| Comparator.Session.ExecuteDelete | logic.py:157-181 | an empty plan changes nothing; otherwise every planned file is removed in order, failures are counted without stopping, a removal counts as done only when its path was still on the disk, deleted plus errors is the plan length, and the comparison is rebuilt |
| Comparator.Session.ExecuteMoveMismatch | logic.py:184-211 | the same for the mismatch plan, with `shutil.move`: a move counts as done only when its source was still on the disk |
| Comparator.Session.ExecuteMoveNew | logic.py:214-241 | the same for the new-file plan, with the same rule for a missing source |
| Comparator.CarryOutRemoves | logic.py:163-173 | every planned path is removed in order; the error count is the number of failures, the disk is the result of the successful removals, and each success found its path on the disk |
| Comparator.CarryOutMoves | logic.py:190-203 | every planned move is tried in order; the error count is the number of failures, the disk is the result of the successful moves, and each success found its source on the disk |
| Comparator.Session.SortByColumn | logic.py:244-276 | the sort state follows `Click`, the rows are `SortRows` of the old rows, only the clicked header carries the arrow, and the plans are untouched |
| Comparator.Session.MarkHeadings | logic.py:272-277 | the header loop gives every column its `Heading`: the clicked one with the arrow of the current direction, the others plain |
| Comparator.ReconciledCounts | logic.py:103-127 | after a comparison, the three plans together have one entry per hashed cleanup file, and the table has one row per hashed file of either folder |

## Left out

- The Tkinter window: widgets, message boxes, labels, enabling buttons, the progress bar and the `root.update()` pacing are not modelled. The result tree is kept as a sequence of rows, and the reported messages as the counts they print.
- `os.walk` and `os.path.relpath`: a folder's walk is a parameter, a sequence of (relative path, full path) pairs. The order of the walk is not derived from the disk, and the re-scan after an `execute_*` command receives the new walks.
- Comparator.Session.ExecuteDelete, ExecuteMoveMismatch, ExecuteMoveNew: the walks and the digest function of the re-scan are parameters. Nothing ties them to the disk after the removals or moves, so the model does not state that the rebuilt plans reflect the new disk contents.
- Computing SHA-256 itself: `calculate_sha256` enters the engine as a function from full path to an optional digest. A digest of `None` or `""` counts as a failure, as the source's `if not hash_value` does.
- `subprocess.run`, `platform.system()`, `shutil.which` and `os.path.isfile` are parameters (`run`, `system`, `hasSha256sum`, `hasShasum`, `isFile`). A raised exception is `None`. The file dialog becomes its answer.
- `os.makedirs` of a move destination's directory is not modelled, because the disk has no directories. Paths are `/`-separated only.
- `os.remove` and `shutil.move` may fail for reasons outside the model. Their success is a nondeterministic choice, reported back in the ghost `ok` sequences. A missing file always fails.
- `print` and the error text of failed operations are not modelled.
- PyStrings.Lower: ASCII only, unlike Python's Unicode `lower()`. That is enough for hex digests and for the fixed action texts, but path sort keys with non-ASCII letters compare differently.
- Only preserve files whose hashing succeeds get a `Reference Copy` row (logic.py:93-101); a preserve file whose hash fails gets no row and is not in either index.
- `FileChecker.py` is an older copy of `logic.py` plus the GUI in one file. It differs in using certutil directly (FileChecker.py:7-34), which `HashTools.CertutilDigest` models. Its comparison and sorting match `logic.py` line for line, so both are modelled once.
- Comparator.Scan: `dict` insertion order is modelled by `Put`, but no lemma states it separately; the lemmas state which pairs are kept.
- Sorting.SortBy: modelled as insertion sort, not Timsort. Only the result is specified (ordered, a permutation, stable), and any stable sort gives the same result.
