# zip-extractor: the archive browser's logic in Dafny

The zip-extractor page loads a ZIP archive in the browser. It lists the archive's entries as a flat list. It previews image and JSON entries and saves single entries or a selection of them under an optional file-name prefix. A tree view in the same component folder builds a folder tree of the same entry paths; none of the page's files mounts it. This project models the page, the flat list's helpers and that tree view. The model uses pure functions over strings, sequences, sets and maps, and proves what they promise.

- **The tree view's `fileTree`** (`TreeView.tsx`). The builder sorts the entry paths, then walks each path segment by segment. It creates a record in a path-keyed scratch object the first time it meets a path, and attaches that record to its parent. Last, it sorts every child list with directories first and then by name. The model does the same in stages:
  - `TreeArena`: the walk (`Walk`) and the create-if-absent visit (`Visit`), run over a `map<string, Entry>` arena.
  - `TreeView`: orders the children, then freezes the arena into a recursive `Node` (`Freeze`).
  - `Walks` and `TreeCanon`: describe the keys and fields the walk produces.
  - `TreeProofs`: states what the finished tree contains.
  - Also modelled: the expansion set with its per-directory toggle, and the root's no-op toggle.
- **The session** (`ZipExtractor.tsx`, module `ZipExtractor`). It covers loading an archive, toggling the selection, saving one entry, previewing an entry, saving the whole selection and closing the preview. Each is a transition over a `State` record holding `files`, `selected`, `prefix`, `zip`, `preview` and an object-URL counter. Each transition returns the new state and the browser effects it performs, in order: alert, create URL, save, revoke URL. `ZipExtractor.Apply` and `ZipExtractor.Run` put the handlers together as one state machine.
- **The flat list's helpers** (`FileList.tsx`, modules `FileList` and `Extensions`): `splitPath` and the two extension classifiers.

Collaborators the page does not implement are parameters:
- The JSZip reader is a `ReadResult`: an `Archive` (names in `Object.keys` order and entries by name) or `Unreadable`.
- `JSON.parse` is a `validJson: string -> bool` argument.
- The object-URL allocator is a counter, so every created URL is fresh.

Behaviour worth noting:
- A download is saved as `prefix + path`, with the whole entry path (`ZipExtractor.tsx:58`).
- A batch walks the selection in insertion order (`ZipExtractor.tsx:103`).
- The selection toggle accepts any path, whether or not it names a file (`ZipExtractor.tsx:36-46`).
- An image preview's object URL is never revoked, on close, on replacement by another preview or by any later event (`ZipExtractor.tsx:79`, `ZipExtractor.tsx:132`; `ZipExtractor.PreviewUrlNeverRevokedLater`).
- Loading an archive does not clear the open preview. The expansion set is kept by the tree view, not by the session, so a load does not reset it either.
- A tree record's kind is fixed when the record is first created and is never changed. Entries are visited in sorted order, so an entry `a` comes before `a/x`. Its node is then a file, and the tree still holds `a/x` as a child of that file node; the rendered view never displays it, because only expanded directories render their children. `TreeProofs.NodeFields` states the code's rule: a node is a directory exactly when its path is not an entry.
- Empty path segments are accepted and produce nodes with empty names.

## Model

| member | source | states |
|---|---|---|
| Sorting.Sort | zip-extractor-astro/src/components/ZipExtractor/TreeView.tsx:142 | the result is ordered by the given total preorder and is a permutation of the input |
| Sorting.SortedUnique | zip-extractor-astro/src/components/ZipExtractor/TreeView.tsx:142 | two sorted permutations of the same list under an antisymmetric order are equal, so sorting decides the processing order alone |
| TreeView.SortedFiles | zip-extractor-astro/src/components/ZipExtractor/TreeView.tsx:142 | the copy of the entry list is sorted by code-point order and holds the same entries |
| Paths.Split | zip-extractor-astro/src/components/ZipExtractor/TreeView.tsx:146 | `split('/')` yields at least one part and no part contains the separator |
| Paths.JoinSplit | zip-extractor-astro/src/components/ZipExtractor/FileList.tsx:27-29 | joining the parts of a split with the separator gives back the original string |
| Paths.SplitJoin | zip-extractor-astro/src/components/ZipExtractor/TreeView.tsx:146-152 | splitting the join of separator-free parts gives back those parts |
| Paths.ParentOfChildKey | zip-extractor-astro/src/components/ZipExtractor/TreeView.tsx:151-152 | the parent key is recovered from a child key: a first segment's parent is `/`, a deeper key's parent is everything before its last separator |
| TreeArena.WalkOk | zip-extractor-astro/src/components/ZipExtractor/TreeView.tsx:145-152 | every step of a path's walk has a separator-free name, a key that is its parent key extended by that name, and the previous step's key (or `/`) as parent |
| TreeArena.VisitFacts | zip-extractor-astro/src/components/ZipExtractor/TreeView.tsx:154-184 | a visit creates a record only for a key that is absent; it leaves every existing record's fields alone, and a new record is a directory exactly when its segment is not the path's last |
| TreeArena.BuildKeepsRecords | zip-extractor-astro/src/components/ZipExtractor/TreeView.tsx:154-158 | once created, a record's name, path, kind, level and flags are never changed by later paths, so the first visit fixes a node's kind |
| TreeArena.PopulateFacts | zip-extractor-astro/src/components/ZipExtractor/TreeView.tsx:126-187 | the scratch object holds the root plus exactly the keys the walks visit that are not inherited names; every child list names records under their parent, and without inherited names each key sits exactly once in its parent's list |
| Walks.WalkShape | zip-extractor-astro/src/components/ZipExtractor/TreeView.tsx:146-152 | for a path without a leading separator, step `i` carries the first `i + 1` segments joined, the `i`-th segment as name, level `i`, and is last exactly at the final segment |
| Walks.WalkKeys | zip-extractor-astro/src/components/ZipExtractor/TreeView.tsx:145-152 | for a path without a leading separator, the keys it visits are the path itself and the path cut before each of its separators |
| Walks.LeadingSepKeys | zip-extractor-astro/src/components/ZipExtractor/TreeView.tsx:146-152 | an entry with a leading separator visits the empty key and then exactly the keys of the rest of its path walked alone; no key starts with the separator, so the entry's own path is never visited |
| Walks.PathKeysMeaning | zip-extractor-astro/src/components/ZipExtractor/TreeView.tsx:145-187 | for entries without a leading separator, a key is visited for an entry list exactly when it is an entry or a cut of an entry |
| TreeCanon.PopulateCanon | zip-extractor-astro/src/components/ZipExtractor/TreeView.tsx:141-187 | for entries without a leading separator, on sorted input, each record's fields depend only on its key and the entry set: name is the last segment, level the segment count less one, directory exactly when the key is not an entry, flags by membership |
| TreeView.OrderChildren | zip-extractor-astro/src/components/ZipExtractor/TreeView.tsx:190-201 | every record keeps its fields, and its children become a permutation of the old list sorted directories first and then by name |
| TreeView.OrderChildrenKeeps | zip-extractor-astro/src/components/ZipExtractor/TreeView.tsx:190-201 | sorting the child lists keeps every key under its parent, exactly once |
| TreeView.ChildOrderTotal | zip-extractor-astro/src/components/ZipExtractor/TreeView.tsx:192-199 | the sibling comparator is total and transitive, so sorting with it is well defined |
| TreeView.Freeze | zip-extractor-astro/src/components/ZipExtractor/TreeView.tsx:203 | the returned node carries its record's fields and one child per entry of its child list |
| TreeView.FileTreeWith | zip-extractor-astro/src/components/ZipExtractor/TreeView.tsx:129-139 | the root has path `/`, name `Root`, is a directory at level 0, is expanded exactly when `/` is in the expansion set and is never selected |
| TreeView.FileTree | zip-extractor-astro/src/components/ZipExtractor/TreeView.tsx:125-204 | the builder with presence checked on own keys; its root has the fields above |
| TreeView.FileTreeAsWritten | zip-extractor-astro/src/components/ZipExtractor/TreeView.tsx:126 | the builder with presence checked on a plain object, which answers the `Object.prototype` names; its root has the fields above |
| TreeView.ToggleExpanded | zip-extractor-astro/src/components/ZipExtractor/TreeView.tsx:162-171 | the toggled path changes membership and every other path keeps it |
| TreeProofs.TreeHoldsEachKeyOnce | zip-extractor-astro/src/components/ZipExtractor/TreeView.tsx:145-187 | the tree contains the root and every visited key exactly once, and nothing else |
| TreeProofs.EntryHeldOnce | zip-extractor-astro/src/components/ZipExtractor/TreeView.tsx:181-184 | every entry without a leading separator is reachable from the root exactly once |
| TreeProofs.TreeHoldsEntriesAndFolders | zip-extractor-astro/src/components/ZipExtractor/TreeView.tsx:145-187 | a path is contained in the tree, once, exactly when it is the root, an entry, or an entry cut before one of its separators |
| TreeProofs.NodeFields | zip-extractor-astro/src/components/ZipExtractor/TreeView.tsx:150-174 | every node of the tree is named after its path's last segment, has its segment index as level, is a directory exactly when its path is not an entry, and is expanded or selected exactly when its path is in the corresponding set |
| TreeProofs.SiblingsOrdered | zip-extractor-astro/src/components/ZipExtractor/TreeView.tsx:190-201 | in every node, directories precede files and names do not decrease within each group, and each child's path is the node's path extended by the child's name |
| TreeProofs.TreeIgnoresListOrder | zip-extractor-astro/src/components/ZipExtractor/TreeView.tsx:142 | any two orderings of the same entries give the same tree |
| TreeProofs.NodeNameIsFileName | zip-extractor-astro/src/components/ZipExtractor/FileList.tsx:26-31 | a tree node's name is the file name the flat list shows for the same path |
| TreeProofs.NodeClassifiedLikePath | zip-extractor-astro/src/components/ZipExtractor/TreeView.tsx:32-33 | classifying a node by its name and classifying its whole path give the same image and JSON answers |
| TreeProofs.InheritedNotInTree | zip-extractor-astro/src/components/ZipExtractor/TreeView.tsx:154 | a key the scratch object already answers through its prototype never appears in the tree |
| TreeProofs.PrototypeEntryHidden | zip-extractor-astro/src/components/ZipExtractor/TreeView.tsx:154 | an entry named after an `Object.prototype` member is missing from the tree as written and contained once with own-key lookup |
| TreeProofs.TreeWithoutInherited | zip-extractor-astro/src/components/ZipExtractor/TreeView.tsx:154 | when no visited key is an inherited name, the builder with inherited lookup gives the same tree as the own-key builder, so every fact about the latter holds for the former |
| TreeProofs.AsWrittenHoldsEachKeyOnce | zip-extractor-astro/src/components/ZipExtractor/TreeView.tsx:145-187 | when no visited key is an `Object.prototype` name, the tree as written contains the root and every visited key exactly once, and nothing else |
| TreeProofs.OrdinaryArchiveKeys | zip-extractor-astro/src/components/ZipExtractor/TreeView.tsx:146-154 | if no entry's first segment is an `Object.prototype` name, the walks visit none of those names |
| TreeProofs.AsWrittenHoldsOrdinaryArchive | zip-extractor-astro/src/components/ZipExtractor/TreeView.tsx:125-204 | for an archive whose entries' first segments are not `Object.prototype` names, the tree as written contains every visited key once and every entry exactly once |
| TreeProofs.ConstructorEntryExample | zip-extractor-astro/src/components/ZipExtractor/TreeView.tsx:126 | an archive with the single file `constructor` has no node for it in the tree as written, and one node with own-key lookup |
| TreeProofs.RootStaysExpanded | zip-extractor-astro/src/components/ZipExtractor/TreeView.tsx:44 | no sequence of row clicks collapses the root once it is expanded: a click toggles a directory row's path or selects a file row's path, and the root row's toggle (line 136) is empty |
| TreeProofs.ToggleTwice | zip-extractor-astro/src/components/ZipExtractor/TreeView.tsx:162-171 | toggling the same directory twice restores the expansion set |
| FileList.SplitPath | zip-extractor-astro/src/components/ZipExtractor/FileList.tsx:26-31 | folder part and file name concatenate to the path; the file name has no separator; the folder part is empty exactly when the path has no separator and otherwise ends with one |
| FileList.SplitPathUnique | zip-extractor-astro/src/components/ZipExtractor/FileList.tsx:26-31 | any split of that shape is the one `splitPath` returns |
| Extensions.ImageMeaning | zip-extractor-astro/src/components/ZipExtractor/FileList.tsx:23 | a name is an image exactly when its text after some dot is, ignoring ASCII case, one of jpg, jpeg, png, gif, webp |
| Extensions.JsonMeaning | zip-extractor-astro/src/components/ZipExtractor/FileList.tsx:24 | a name is JSON exactly when its text after some dot is `json` ignoring ASCII case |
| Extensions.ImageAndJsonExclusive | zip-extractor-astro/src/components/ZipExtractor/FileList.tsx:23-24 | no name is both an image and JSON |
| Extensions.ClassifiersSeeTail | zip-extractor-astro/src/components/ZipExtractor/FileList.tsx:23-24 | a folder part in front of a separator-free file name changes neither classifier's answer |
| FileList.ClassifyByFileName | zip-extractor-astro/src/components/ZipExtractor/FileList.tsx:54-66 | the list's whole-path classification equals classification of the file name alone |
| ZipExtractor.FileNames | zip-extractor-astro/src/components/ZipExtractor/ZipExtractor.tsx:24-26 | a name is listed exactly when the reader has it and it is not a directory; a duplicate-free key list gives a duplicate-free file list |
| ZipExtractor.FileNamesAppend | zip-extractor-astro/src/components/ZipExtractor/ZipExtractor.tsx:24-26 | the file list keeps the reader's key order: the files of earlier keys come before those of later keys |
| ZipExtractor.StripZip | zip-extractor-astro/src/components/ZipExtractor/ZipExtractor.tsx:30 | a name ending in `.zip` loses exactly that suffix; any other name is kept |
| ZipExtractor.StripZipOnce | zip-extractor-astro/src/components/ZipExtractor/ZipExtractor.tsx:30 | only one trailing `.zip` is removed, whatever comes before it |
| ZipExtractor.StripZipKeepsOtherExtensions | zip-extractor-astro/src/components/ZipExtractor/ZipExtractor.tsx:30 | the suffix test is exact and case-sensitive: a name ending in a dot and any three-letter extension other than lower-case `zip` (such as `.ZIP`) is kept whole |
| ZipExtractor.HandleFileSelect | zip-extractor-astro/src/components/ZipExtractor/ZipExtractor.tsx:20-34 | a readable archive sets the file list to its non-directory names, empties the selection, installs the archive and sets a prefix ending in `_`; an unreadable one leaves the whole state as it was and alerts |
| ZipExtractor.Remove | zip-extractor-astro/src/components/ZipExtractor/ZipExtractor.tsx:40 | deleting from the selection removes exactly that path and keeps the rest duplicate-free |
| ZipExtractor.RemoveAt | zip-extractor-astro/src/components/ZipExtractor/ZipExtractor.tsx:40 | when the deleted path occurs once, its place closes up and the others keep their order |
| ZipExtractor.ToggleFileSelection | zip-extractor-astro/src/components/ZipExtractor/ZipExtractor.tsx:36-46 | the path flips membership, every other path keeps it, nothing else in the session changes, a new path goes last and a removed one leaves the others in order |
| ZipExtractor.ToggleTwice | zip-extractor-astro/src/components/ZipExtractor/ZipExtractor.tsx:36-46 | toggling twice restores the members; an unselected path leaves the selection exactly as it was, a selected one moves to the end of the batch order |
| ZipExtractor.SaveName | zip-extractor-astro/src/components/ZipExtractor/ZipExtractor.tsx:58 | the saved name is always the prefix followed by the whole path, and the bare path when the prefix is empty |
| ZipExtractor.DownloadFile | zip-extractor-astro/src/components/ZipExtractor/ZipExtractor.tsx:48-63 | with no archive or no such file nothing happens; otherwise a fresh URL is created, the entry's bytes are saved as `prefix + path`, the URL is revoked, and only the URL counter moves |
| ZipExtractor.DownloadFileTransfers | zip-extractor-astro/src/components/ZipExtractor/ZipExtractor.tsx:55-62 | a single download is one create-save-revoke transfer that releases its URL, and saves exactly `prefix + path` when the file exists |
| ZipExtractor.TransfersReleased | zip-extractor-astro/src/components/ZipExtractor/ZipExtractor.tsx:55-62 | in any run of whole transfers every created URL is revoked later |
| ZipExtractor.DownloadAllFacts | zip-extractor-astro/src/components/ZipExtractor/ZipExtractor.tsx:100-106 | a batch is a run of whole transfers saving the selected files under their prefixed paths in list order; only the URL counter moves, by the number of files saved |
| ZipExtractor.DownloadAllSnoc | zip-extractor-astro/src/components/ZipExtractor/ZipExtractor.tsx:103-105 | downloading a list and then one more path is the same as downloading the longer list |
| ZipExtractor.NoArchiveNoDownloads | zip-extractor-astro/src/components/ZipExtractor/ZipExtractor.tsx:101 | without an archive a batch changes nothing and has no effect |
| ZipExtractor.DownloadSelectedFiles | zip-extractor-astro/src/components/ZipExtractor/ZipExtractor.tsx:100-106 | the loop downloads each selected path in insertion order, one after another; every URL is released, each selected file is saved once under its prefixed path, and only the URL counter moves |
| ZipExtractor.PreviewFileContent | zip-extractor-astro/src/components/ZipExtractor/ZipExtractor.tsx:65-98 | only the preview and the URL counter can change, and nothing is saved or revoked; a changed preview names an existing file; a JSON preview holds that file's text, which parses; an image preview holds a fresh URL |
| ZipExtractor.PreviewOutcomes | zip-extractor-astro/src/components/ZipExtractor/ZipExtractor.tsx:65-98 | case by case: no archive, no such file or an unknown kind change nothing; an image is installed; JSON is installed when it parses and otherwise only alerts with the state unchanged |
| ZipExtractor.ImagePreviewUrlNeverRevoked | zip-extractor-astro/src/components/ZipExtractor/ZipExtractor.tsx:79-132 | opening an image preview creates a URL (lines 79-84) and closing it (line 132) only drops the preview, so that URL is never revoked |
| ZipExtractor.PreviewUrlNeverRevokedLater | zip-extractor-astro/src/components/ZipExtractor/ZipExtractor.tsx:76-84 | an image preview creates one URL, and no later run of events (closing, another preview, downloads, loads) ever revokes it |
| ZipExtractor.EarlierUrlsNeverRevoked | zip-extractor-astro/src/components/ZipExtractor/ZipExtractor.tsx:55-62 | handlers revoke only URLs they created themselves, so a URL that exists before a run of events is never revoked during it |
| ZipExtractor.InitialSelectionStaysDistinct | zip-extractor-astro/src/components/ZipExtractor/ZipExtractor.tsx:10-18 | the page starts with no files, an empty selection, an empty prefix, no archive and no preview, and from there the selection never holds a path twice |
| ZipExtractor.SelectionStaysDistinct | zip-extractor-astro/src/components/ZipExtractor/ZipExtractor.tsx:36-46 | every handler keeps the selection free of duplicates, so it behaves as a set along any run |
| ZipExtractor.EmptyPrefixSavesBarePath | zip-extractor-astro/src/components/ZipExtractor/ZipExtractor.tsx:58 | with the prefix emptied, a file is saved under its bare path |
| ZipExtractor.LoadThenBatchNames | zip-extractor-astro/src/components/ZipExtractor/ZipExtractor.tsx:30-58 | after a load, a batch saves each selected file as the dropped file's name without `.zip`, then `_`, then the entry path |

## Left out

- JSZip itself (`loadAsync`, `file()`, `async('blob' | 'text')`) is not part of this model. The reader's result is an input, and a blob or text read is assumed to succeed. A rejected read inside a batch would stop the loop; the model does not cover that.
- `Object.keys` puts integer-like keys first in ascending order. That ordering is folded into the reader's key order, which the model takes as given.
- `JSON.parse` is the `validJson` parameter. The modal's pretty-printing is presentational.
- `localeCompare` and the default `sort()` are replaced by code-point order on strings. The default sort compares UTF-16 code units and `localeCompare` follows the locale, so both can order names differently from the model.
- `TreeView.FileTreeAsWritten`: it treats the twelve `Object.prototype` member names as present. Writing `children` onto an inherited parent is not tracked. For a `__proto__/…` entry, that write puts a `children` array on `Object.prototype`, which would make `children` an inherited name as well.
- Browser I/O is effects only: anchor creation and click, the object URLs themselves, and alerts. The number of live URLs is not tracked beyond the create and revoke effects.
- Async interleaving of overlapping loads or previews is left out. React hook and memo mechanics are left out too. Each handler runs to completion.
- The rendered indentation is not modelled. `TreeNode` renders each child with `level + 1` of its parent (`TreeView.tsx:102`), not with the builder's level. The model states the builder's level.
- Entries with a leading separator are described by `Walks.LeadingSepKeys` and are outside the lemmas below, which require entries without one, as archives list them. The builder treats the empty first segment of such an entry as "no parent yet", which shifts every later key: `/a` visits the empty key and `a`, and never the key `/a`.
- `Walks.WalkShape`: requires a path without a leading separator.
- `Walks.WalkKeys`: requires a path without a leading separator.
- `Walks.PathKeysMeaning`: requires entries without a leading separator.
- `TreeCanon.PopulateCanon`: requires entries without a leading separator.
- `TreeProofs.NodeFields`: requires entries without a leading separator.
- `TreeProofs.EntryHeldOnce`: requires an entry without a leading separator.
- `TreeProofs.TreeHoldsEntriesAndFolders`: requires entries without a leading separator.
- `TreeProofs.OrdinaryArchiveKeys`: requires entries without a leading separator.
- `TreeProofs.AsWrittenHoldsOrdinaryArchive`: requires entries without a leading separator.
- Rendering is not modelled. `TreeNode` renders a node's children only when it is an expanded directory (`TreeView.tsx:99`), so children of file nodes (such as `a/x` under an entry `a`) and of collapsed directories are held in the tree but not displayed. The tree lemmas state what the built tree contains, not what is on screen.
- The tree lemmas other than those naming `FileTreeAsWritten` are stated for `TreeView.FileTree`. They carry over to the tree as written through `TreeProofs.TreeWithoutInherited` whenever no visited key is an `Object.prototype` name; for an archive that visits such a name, the as-written tree lacks those nodes and their descendants.
- DropZone, FilePreviewModal, PrefixInput, GitHubLink and the build configuration are presentational. `ZipExtractor.SetPrefix` stands for the prefix box.

## Findings

| source | as written | input that shows it | evidently intended | confidence | as-written member | corrected member |
|---|---|---|---|---|---|---|
| zip-extractor-astro/src/components/ZipExtractor/TreeView.tsx:154 | presence is checked with `!tree[currentPath]` on a plain object literal, so a key named like an `Object.prototype` member already looks present and no node is created | an archive whose only file is `constructor` (also `toString`, `valueOf`, `__proto__`, …) | every entry gets a node: presence checked on own keys only | medium, not executed | TreeView.FileTreeAsWritten (TreeProofs.ConstructorEntryExample) | TreeView.FileTree (TreeProofs.PrototypeEntryHidden) |
