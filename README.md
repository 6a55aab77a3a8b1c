# folder_sync, modelled in Dafny

folder_sync compares a local folder with a Mega cloud account. It builds two
inventories of `UploadedFile` records keyed by a normalised relative path:
one from the disk and one from the Mega node table. It then merges them into
one report that gives a synchronisation status for every path. This project
models the parts of that pipeline that compute something, and proves what
they promise.

- `Slashes` (`wrappers.dfy`, `strings.dfy`, `slashes.dfy`): the key normaliser
  `remove_unnecessary_slashes`. The method `RemoveUnnecessarySlashes` keeps the
  source's three `while` loops. It is proved equal to the function `Normalize`,
  whose result has no backslash, no slash at either end and no `//`. `Normalize`
  is shown to be idempotent. It is also shown equal to an independent
  description: the non-empty pieces between separators, joined with single
  slashes.
- `MegaPaths` (`mega_path.dfy`): `get_path`, which walks parent links through
  the Mega node table. The method `GetPath` keeps the source's loop and is
  proved equal to a recursive walk. Lemmas describe the result in terms of the
  chain of ancestors:
  - `""` exactly when the chain reaches the rubbish bin (node type 4);
  - otherwise `/` and the ancestors' names, root first;
  - `/???/???` at the front when the chain meets an id missing from the table.
- `MegaEntries` (`mega_entry.dfy`): what `list_mega_files_and_directories`
  does with one node:
  - the leading-separator strip of the configured subtree;
  - the skip rules (type above 1, rubbish bin, outside the subtree, the
    subtree root itself);
  - the key;
  - the fields of the record.
- `Merge` (`merge.dfy`): `merge_local_and_mega_files`. The method keeps the
  source's loop over the union of keys and the field-by-field filling of each
  record, then sorts by name. It is proved to return the one list that:
  - has one row per key of either inventory;
  - has each row equal to the expected record for its key;
  - is strictly ascending by name.

  Because that list is unique, the order in which the set of keys is visited
  does not matter. Separate lemmas pin down the status rules.
- `UploadedFiles` (`uploaded_file.dfy`): the `PathType` and `SharedStatus`
  enumerations with their values and `__str__`, the `UploadedFile` dataclass
  with its defaults, and `get_fields`.

The status of a key that is on both sides is decided in source order:
"Synced", then "Different size" if the sizes differ, then "Different type" if
the kinds differ. Lines 169-172 assign "Different size" and then "Different
type", and the later assignment wins, so a kind difference is reported as
"Different type" even when the sizes differ too (`Merge.KindDifferenceWins`,
`Merge.KindOverSizeExample`).

The subtree filter compares lower-cased string prefixes, not path segments.
With the subtree `Photos`, a file `x` in a sibling folder `PhotosOld` is listed
under the key `Old/x`. `MegaEntries.SubtreeIsStringPrefix` states this
behaviour as written.

## Model

| member | source | states |
|---|---|---|
| Slashes.RemoveUnnecessarySlashes | src/folder_sync/my_tools.py:19-28 | the three loops leave exactly `Normalize(path)`, which has no backslash, no leading or trailing slash and no `//` |
| Slashes.ReplaceBackslashes | src/folder_sync/my_tools.py:20 | same length; each backslash becomes `/`, every other character is kept |
| Slashes.StripLeadingSlashes | src/folder_sync/my_tools.py:21-22 | the result is a suffix of the input; only slashes were removed; it does not start with `/` |
| Slashes.StripTrailingSlashes | src/folder_sync/my_tools.py:23-24 | the result is a prefix of the input; only slashes were removed; it does not end with `/` |
| Slashes.ReplaceDoubleSlashes | src/folder_sync/my_tools.py:26 | one `replace("//", "/")` never lengthens the string and shortens it whenever it holds `//` (so the loop ends) |
| Slashes.ReplaceKeepsText | src/folder_sync/my_tools.py:26 | one replacement removes slashes only: every other character keeps its count |
| Slashes.ReplaceKeepsLast | src/folder_sync/my_tools.py:26 | one replacement keeps a last character that is not a slash |
| Slashes.CollapseSlashes | src/folder_sync/my_tools.py:25-26 | repeated replacement leaves no `//`, keeps every other character's count, and keeps a first or last character that is not a slash |
| Slashes.Normalize | src/folder_sync/my_tools.py:19-28 | the result is normal: no backslash, no slash at either end, no `//` |
| Slashes.NormalIsFixpoint | src/folder_sync/my_tools.py:19-28 | a key that is already normal is returned unchanged |
| Slashes.NormalizeIdempotent | src/folder_sync/my_tools.py:19-28 | normalising twice gives the same key as normalising once |
| Slashes.OnlySeparatorsNormalizeToEmpty | src/folder_sync/my_tools.py:19-28 | a path made only of `/` and `\` (the root) normalises to the empty key |
| Slashes.NormalizeJoinsWords | src/folder_sync/my_tools.py:19-28 | the result is the non-empty pieces between separators (either slash), in order, joined with single slashes |
| Slashes.MixedSeparatorsExample | src/folder_sync/my_tools.py:19-28 | `\a//b\c/` normalises to `a/b/c` |
| Slashes.BackslashExample | src/folder_sync/my_tools.py:20 | `\a//b\c/` becomes `/a//b/c/` after the backslash replacement |
| Slashes.TrimExample | src/folder_sync/my_tools.py:21-24 | stripping `/a//b/c/` at both ends leaves `a//b/c` |
| Slashes.CollapseExample | src/folder_sync/my_tools.py:25-26 | collapsing `a//b/c` gives `a/b/c` |
| MegaPaths.WalkFrom | src/folder_sync/my_tools.py:76-84 | the walk the loop makes, one parent link per step; no contract of its own: `MegaPaths.WalkInBinIff` and `MegaPaths.WalkNames` describe it |
| MegaPaths.Resolve | src/folder_sync/my_tools.py:76-84 | the walk from an id whose chain has no cycle; no contract of its own: `MegaPaths.ResolveIsWalk` ties it to `WalkFrom` for every step bound |
| MegaPaths.ResolveIsWalk | src/folder_sync/my_tools.py:76-84 | a chain that stops within some bound has no cycle, and its walk is the walk for that bound |
| MegaPaths.Render | src/folder_sync/my_tools.py:82-85 | `""` from the bin, otherwise `/` and the names reversed and joined with `/`; no contract of its own: `MegaPaths.PathOutsideBin` and `MegaPaths.RenderDangling` describe it |
| MegaPaths.GetPath | src/folder_sync/my_tools.py:73-85 | the loop returns the rendering of the recursive parent walk from `file_id` |
| MegaPaths.WalkBoundIrrelevant | src/folder_sync/my_tools.py:76-84 | the walk's result does not depend on the step bound used to define it |
| MegaPaths.WalkInBinIff | src/folder_sync/my_tools.py:80-82 | the walk ends in the rubbish bin exactly when some ancestor is the rubbish bin |
| MegaPaths.WalkNames | src/folder_sync/my_tools.py:76-84 | outside the bin, the `k`-th collected name is the `k`-th ancestor's name (or `???` past a missing id), and the walk stops at the empty id or two placeholders after a missing id |
| MegaPaths.PathEmptyIffInBin | src/folder_sync/my_tools.py:80-82 | `get_path` returns `""` exactly when the parent chain reaches the rubbish bin |
| MegaPaths.PathOutsideBin | src/folder_sync/my_tools.py:83-85 | outside the bin, the result is `/` and the ancestors' names joined root first with `/` |
| MegaPaths.PathDangling | src/folder_sync/my_tools.py:77-79 | a chain that meets an id missing from the table gives a path that starts `/???/???` |
| MegaPaths.DanglingNames | src/folder_sync/my_tools.py:77-79 | a chain with a missing id is not in the bin and its collected names end with two `???` |
| MegaPaths.RenderDangling | src/folder_sync/my_tools.py:85 | names ending in two `???` render, reversed, as a path that starts `/???/???` |
| MegaPaths.NeverRootAfterMissing | src/folder_sync/my_tools.py:77-79 | past a missing id the walk never reaches the empty id |
| MegaPaths.AncestorAfterMissing | src/folder_sync/my_tools.py:77-79 | the walk goes no further than a missing id |
| MegaPaths.MissingUnique | src/folder_sync/my_tools.py:77-79 | a chain holds at most one missing id |
| MegaPaths.MissingMeansNoBin | src/folder_sync/my_tools.py:77-82 | a chain with a missing id never reaches the rubbish bin |
| MegaPaths.PathOfEmptyId | src/folder_sync/my_tools.py:76-85 | the empty id gives the path `/` |
| MegaEntries.TrimSubtree | src/folder_sync/my_tools.py:89-90 | the result is a suffix of the configured subtree; only `/` and `\` were removed; it does not start with either |
| MegaEntries.StripSubtree | src/folder_sync/my_tools.py:89-90 | the loop leaves exactly `TrimSubtree(path)` |
| MegaEntries.BelowTop | src/folder_sync/my_tools.py:107 | the full path without its leading `/` and top-level node; no contract of its own: `MegaEntries.KeyOfNodeUnderTop` describes it |
| MegaEntries.StartsWith | src/folder_sync/my_tools.py:108 | `str.startswith`; no contract of its own: used by the contract of `MegaEntries.MegaEntry` and in `MegaEntries.SubtreeIsStringPrefix` |
| MegaEntries.DropPrefix | src/folder_sync/my_tools.py:110 | `name[len(path):]`: the prefix of length `len(path)` and the result make up the name; the result is empty when the subtree is longer |
| MegaEntries.MegaEntry | src/folder_sync/my_tools.py:104-136 | a node is kept exactly when its type is at most 1 (anything but 0 becomes a folder), its path is not empty, its lower-cased path below the top node starts with the lower-cased subtree, and the normalised rest is not empty; the key is that normalised rest and the record carries the Mega fields (size 0 for folders, link only for shared files, SHARED or NOT_SHARED) and local defaults |
| MegaEntries.KeyOfNodeUnderTop | src/folder_sync/my_tools.py:107 | joining the split path without its first two pieces turns `/top/rest` into `rest` |
| MegaEntries.FileUnderTopKept | src/folder_sync/my_tools.py:104-136 | with no subtree, a file `/top/rest` whose `rest` is not a root is kept under the key `remove_unnecessary_slashes(rest)` with its size |
| MegaEntries.SubtreeIsStringPrefix | src/folder_sync/my_tools.py:108-113 | a file whose path below the top node is the subtree followed by a normal `tail` is kept under the key `tail`, even when `tail` does not start a new path segment |
| Merge.Classify | src/folder_sync/my_tools.py:155-172 | the status of a key; no contract of its own: `Merge.StatusValues`, `Merge.SyncedIff`, `Merge.DifferentSizeIff`, `Merge.KindDifferenceWins` and `Merge.StatusIgnoresOtherFields` describe it |
| Merge.Expected | src/folder_sync/my_tools.py:147-172 | the row for a key; no contract of its own: `Merge.ExpectedSides` describes it and `Merge.BuildEntry` is proved equal to it |
| Merge.BuildEntry | src/folder_sync/my_tools.py:147-172 | the record built field by field is the expected one: the key, the local side if any, the Mega side if any, defaults otherwise, and the status |
| Merge.MergeLocalAndMegaFiles | src/folder_sync/my_tools.py:141-177 | the result has one row per key of either inventory, each row the expected record for its name, strictly ascending by name, and as many rows as keys |
| Merge.Insert | src/folder_sync/my_tools.py:176 | insertion adds the row to the multiset of rows and keeps them sorted by name |
| Merge.SortByName | src/folder_sync/my_tools.py:176 | the sorted list is a permutation of the rows, ordered by name |
| Merge.SortedRowsAreMerge | src/folder_sync/my_tools.py:174-176 | sorting distinct expected rows whose names are the keys gives expected rows, the same names, strictly ascending |
| Merge.AppendExpected | src/folder_sync/my_tools.py:147-174 | appending the row built for a key keeps every row the expected one for its name |
| Merge.AppendDistinct | src/folder_sync/my_tools.py:146-174 | appending a row under a name not yet visited keeps the names distinct |
| Merge.CollectOne | src/folder_sync/my_tools.py:146-174 | each iteration appends the expected row of one more key and keeps the names distinct |
| Merge.DistinctNamesCount | src/folder_sync/my_tools.py:146-174 | rows with distinct names are as many as their names |
| Merge.RowCount | src/folder_sync/my_tools.py:144-176 | the report has exactly one row per key |
| Merge.MergeIsUnique | src/folder_sync/my_tools.py:144-176 | two lists that both keep the promise are equal, so the set's iteration order does not change the result |
| Merge.AscendingUnique | src/folder_sync/my_tools.py:176 | two strictly ascending lists of the same names are the same list |
| Merge.ExpectedSides | src/folder_sync/my_tools.py:147-165 | a row carries the local side exactly when the key is local and the Mega side exactly when it is on Mega, defaults otherwise |
| Merge.StatusValues | src/folder_sync/my_tools.py:155-172 | every key of either inventory gets one of the five statuses |
| Merge.SyncedIff | src/folder_sync/my_tools.py:167-172 | "Synced" exactly when the key is on both sides with equal kind and equal size |
| Merge.DifferentSizeIff | src/folder_sync/my_tools.py:167-172 | "Different size" exactly when the key is on both sides, the kinds agree and the sizes differ |
| Merge.KindDifferenceWins | src/folder_sync/my_tools.py:169-172 | on both sides with different kinds, the status is "Different type" whatever the sizes |
| Merge.StatusIgnoresOtherFields | src/folder_sync/my_tools.py:167-172 | only presence, kind and size decide the status |
| Merge.SingleKey | src/folder_sync/my_tools.py:141-177 | one key gives one row; on one side only, the status is that side's and that side is copied |
| Merge.LocalOnlyExample | src/folder_sync/my_tools.py:149-155 | a lone local file `a/b.txt` of 10 bytes gives one "Local only" row with size 10 |
| Merge.KindExample | src/folder_sync/my_tools.py:171-172 | a local folder of size 0 against a Mega file of size 0 is "Different type" |
| Merge.KindOverSizeExample | src/folder_sync/my_tools.py:169-172 | a local folder of size 0 against a Mega file of 7 bytes is "Different type", not "Different size" |
| UploadedFiles.PathTypeOf | src/folder_sync/uploaded_file.py:7-10 | `PathType(v)` exists exactly for -1, 0 and 1 and has value `v` |
| UploadedFiles.PathTypeValueRoundTrip | src/folder_sync/uploaded_file.py:7-10 | looking a member up by its value gives the member back |
| UploadedFiles.PathTypeStr | src/folder_sync/uploaded_file.py:12-13 | UNKNOWN renders as `""`, FILE as `FILE`, FOLDER as `FOLDER` |
| UploadedFiles.PathTypeStrInjective | src/folder_sync/uploaded_file.py:12-13 | different members render differently |
| UploadedFiles.SharedStatusOf | src/folder_sync/uploaded_file.py:16-19 | `SharedStatus(v)` exists exactly for -1, 0 and 1 and has value `v` |
| UploadedFiles.SharedStatusValueRoundTrip | src/folder_sync/uploaded_file.py:16-19 | looking a member up by its value gives the member back |
| UploadedFiles.SharedStatusStr | src/folder_sync/uploaded_file.py:21-22 | UNKNOWN renders as `""`, the others as their names |
| UploadedFiles.SharedStatusStrInjective | src/folder_sync/uploaded_file.py:21-22 | different members render differently |
| UploadedFiles.Default | src/folder_sync/uploaded_file.py:26-41 | `UploadedFile()`; no contract of its own: `UploadedFiles.DefaultIsBlank` describes it |
| UploadedFiles.DefaultIsBlank | src/folder_sync/uploaded_file.py:25-41 | every field of `UploadedFile()` is an empty string, an UNKNOWN member or `None` |
| UploadedFiles.Fields | src/folder_sync/uploaded_file.py:43-45 | 14 distinct names, `name` first and `status` last, no `mega_id`, `mega_shared` before `mega_link` |
| UploadedFiles.Field | src/folder_sync/uploaded_file.py:26-41 | a field exists exactly when its name is among `get_fields()` |
| UploadedFiles.Assemble | src/folder_sync/uploaded_file.py:26-41 | the record holds the name, the status, the given sides and the defaults for an absent side |
| Strings.Join | src/folder_sync/my_tools.py:85 | `sep.join(xs)`; no contract of its own: `Strings.JoinCons` and `Strings.JoinSplit` describe it |
| Strings.JoinCons | src/folder_sync/my_tools.py:85 | joining a string in front of a non-empty list adds exactly one separator |
| Strings.Split | src/folder_sync/my_tools.py:107 | `s.split(sep)` gives at least one piece; `Strings.SplitPiecesFree` and `Strings.JoinSplit` describe the pieces |
| Strings.Reverse | src/folder_sync/my_tools.py:85 | `reversed(xs)`: same length, the `i`-th element is the `i`-th from the end |
| Strings.Less | src/folder_sync/my_tools.py:176 | `a < b` on strings; no contract of its own: `Strings.LessIrreflexive`, `Strings.LessTransitive`, `Strings.LessTotal` and `Strings.LessAsymmetric` describe it |
| Strings.LessAsymmetric | src/folder_sync/my_tools.py:176 | no two names are each before the other |
| Strings.JoinSplit | src/folder_sync/my_tools.py:107 | `"/".join(s.split("/"))` gives `s` back |
| Strings.SplitPiecesFree | src/folder_sync/my_tools.py:107 | no piece of `s.split("/")` holds a `/` |
| Strings.LessTransitive | src/folder_sync/my_tools.py:176 | the string order the sort uses is transitive |
| Strings.LessTotal | src/folder_sync/my_tools.py:176 | any two different names are ordered one way or the other |
| Strings.LessIrreflexive | src/folder_sync/my_tools.py:176 | no name is before itself |

## Left out

- `list_local_files_and_directories` walks the file system (`os.walk`, sizes, modification times). It is I/O, and only its use of `remove_unnecessary_slashes` is covered, through `Slashes`.
- The Mega login, `get_files`, key decryption and the building of the public link are network and cryptography. A node reaches `MegaEntries.MegaEntry` as its type, size, timestamp, whether it is shared, and the link already built.
- The `latin1`/`utf-8` re-decoding of the full path is left out: strings are sequences of characters with no encoding.
- `str.lower` is a parameter of `MegaEntries.MegaEntry`; Unicode case mapping is not modelled.
- A `datetime` stands for the whole seconds it was built from. It is only copied, never compared.
- The collection loop of `list_mega_files_and_directories` is not modelled; only its per-node rule is. When two nodes give the same key, the later one overwrites the earlier one in the dictionary, and the model does not capture which one survives.
- `files_to_csv`, `convert_csv_to_excel` and the command-line entry point, including its accumulation of several inventories with `|=`, are output formatting and orchestration.
- MegaPaths.GetPath: requires the parent chain to have no cycle. On a cycle the source loops for ever, and a non-terminating walk is not modelled.
- Merge.MergeLocalAndMegaFiles: the set of keys is visited in an unspecified order (`:|`), so the order of appends is not modelled. The sorted result is the same whatever that order (`Merge.MergeIsUnique`).
- Merge.SortByName: insertion sort stands for `list.sort`. Its stability is not stated, because the names in the merged list are distinct, so stability cannot change the result.
- `UploadedFile` is a value (a datatype). `merge_local_and_mega_files` mutates only a record it has just created and appended nowhere else yet, so `Merge.BuildEntry` models each field assignment as a record update, with no aliasing to capture.
