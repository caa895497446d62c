# RelinkViewer directory tree, modelled in Dafny

RelinkViewer is a WPF browser for the file list of a game's data archive.
It downloads a manifest (one archive path per line, segments separated by
'/'). It then builds a tree of `DirectoryNode` objects under a root named
"data" and shows that tree in a lazily expanded `TreeView`. A search box
lists every node whose name contains the search text, ignoring case. Each
node gets one of three icons, chosen from its name.

This project models that core and proves what it promises:

- `strings.dfy` (module `Strings`): the .NET string operations the core
  relies on, as functions on `seq<char>`. These are `String.Split` with and
  without `RemoveEmptyEntries`, the cumulative '/' join, ASCII `ToLower`,
  `String.Contains` and `Path.GetExtension`. They come with split/join
  round trips.
- `tree_shape.dfy` (module `TreeShapes`): the tree as a value (`Shape`).
  It also holds an independent reference definition of the tree that a
  list of paths describes: the routes are all prefixes of all paths, and a
  node's Children are the segments that follow its route, in order of first
  appearance. Lemmas show that the builder's steps keep the tree well formed
  and that they build exactly the reference tree.
- `directory_tree.dfy` (module `DirectoryTrees`): `BuildDirectoryTree` as
  imperative code. The class `DirectoryTree` holds every `DirectoryNode` in
  one arena. Node `n` stands for an object reference, so appending to
  `children[n]` is the in-place `Children.Add`. The outer loop, the inner
  loop and `FirstOrDefault` are each a method or function proved against
  the reference definition.
- `progress.dfy` (module `Progress`): the progress throttle, as written and
  corrected, and the sequence of line indices that get reported.
- `search.dfy` (module `Search`): `SearchDirectoryTree` and the recursive
  `SearchDirectoryNode`. The results list is shared and updated in place.
  The search is proved equal to a pre-order filter, and each matching node
  is listed exactly once.
- `icons.dfy` (module `Icons`): `GetIconPathForNode`.
- `tree_view.dfy` (module `TreeView`): `CreateTreeViewItem` with its null
  placeholder, and `TreeViewItem_Expanded`, which replaces the placeholder
  with the child items.
- `wrappers.dfy` (module `Wrappers`): `Option` and `Result`.

`DirectoryNode.cs` declares only `Name` and `Children`. `MainWindow.xaml.cs`
also uses a `FullPath` property, an `IsDirectory` property and a
`(name, fullPath)` constructor, so the model follows `MainWindow.xaml.cs`:
a node has a Name, a FullPath and an ordered Children list, and new nodes
start with no children.

The progress value reported last is `(totalLines - 1) / totalLines`,
because the code reports `i / totalLines` for the final index
`i == totalLines - 1`. A run therefore never reports 1.0, and the model
follows the code.

## Model

| member | source | states |
|---|---|---|
| DirectoryTrees.BuildDirectoryTree | RelinkViewer/MainWindow.xaml.cs:251-289 | The returned root is a fresh tree built from exactly the non-empty manifest lines: its routes are the prefixes of the lines' segment lists and every node's Children are in first-seen order. The progress reports are the throttle's schedule over all lines. |
| DirectoryTrees.DirectoryTree.constructor | RelinkViewer/MainWindow.xaml.cs:255 | The root is `DirectoryNode("data", "")` with no children: the tree built from no lines. |
| DirectoryTrees.DirectoryTree.AddLine | RelinkViewer/MainWindow.xaml.cs:259-280 | One outer-loop pass turns the tree built from `done` into the tree built from `done + [line]`. Existing nodes keep their names, paths and routes, and their Children only grow at the end. |
| DirectoryTrees.DirectoryTree.AddPath | RelinkViewer/MainWindow.xaml.cs:262-280 | The inner loop ends at the node whose route is the line's segments and whose FullPath is those segments joined by '/'. The walk creates only missing nodes. |
| DirectoryTrees.DirectoryTree.Descend | RelinkViewer/MainWindow.xaml.cs:267-279 | One inner-loop step yields the child named `part`, reusing an existing one or appending a new node with the cumulative path. The walk invariant is kept. |
| DirectoryTrees.DirectoryTree.AddChild | RelinkViewer/MainWindow.xaml.cs:274-278 | A new node with the given Name and FullPath is appended at the end of the parent's Children. No other node changes, and the tree stays well formed. |
| DirectoryTrees.DirectoryTree.FindChild | RelinkViewer/MainWindow.xaml.cs:272 | `FirstOrDefault(c => c.Name == part)` returns a child of that name, and returns none exactly when no child has that name. |
| DirectoryTrees.DirectoryTree.FindChildFrom | RelinkViewer/MainWindow.xaml.cs:272 | A scan from position `k` finds a child of that name among the remaining children, or none when no remaining child has it. |
| DirectoryTrees.CumulativePath | RelinkViewer/MainWindow.xaml.cs:270 | `j == 0 ? part : currentPath + "/" + part` equals the first `j + 1` segments joined by '/'. |
| DirectoryTrees.DirectoryTree.LookupFindsLines | RelinkViewer/MainWindow.xaml.cs:259-280 | In a built tree, walking from the root along each line's segments reaches a node whose FullPath is that line. |
| DirectoryTrees.DirectoryTree.LookupFindsRoute | RelinkViewer/MainWindow.xaml.cs:265-279 | Every route in the tree leads, child name by child name, to its own node. |
| DirectoryTrees.DirectoryTree.BlankManifestGivesRoot | RelinkViewer/MainWindow.xaml.cs:253-258 | Empty or CR/LF-only text gives the root alone, with no children. |
| DirectoryTrees.PathsOf | RelinkViewer/MainWindow.xaml.cs:262 | Each line's segment list is `line.Split('/')`, one per line, in order. |
| TreeShapes.BuildStep | RelinkViewer/MainWindow.xaml.cs:259-280 | Walking one more path through the tree built from `paths` gives the tree built from `paths + [parts]`. |
| TreeShapes.AppendKeepsWellFormed | RelinkViewer/MainWindow.xaml.cs:276-277 | Appending a child of a fresh name keeps the tree well formed: parent and child links agree, routes are unique, and no two siblings share a name. |
| TreeShapes.FirstSeenMembers | RelinkViewer/MainWindow.xaml.cs:272-278 | A node's Children are named by exactly the segments that follow its route in some line. |
| TreeShapes.FirstSeenDistinct | RelinkViewer/MainWindow.xaml.cs:272-278 | No name appears twice among a node's Children. |
| TreeShapes.FirstSeenAppendOnly | RelinkViewer/MainWindow.xaml.cs:277 | Adding a line never removes or reorders Children: the old list is a prefix of the new one. |
| TreeShapes.AllPrefixesMembers | RelinkViewer/MainWindow.xaml.cs:262-280 | The tree's routes are the empty route and every prefix of every line's segments, and nothing else. |
| TreeShapes.BuiltDeterministic | RelinkViewer/MainWindow.xaml.cs:251-289 | Two trees built from the same lines have the same routes, and at each route the same FullPath and the same Children names in the same order. |
| TreeShapes.BuiltFromNothing | RelinkViewer/MainWindow.xaml.cs:255-258 | The tree built from no lines is the root alone. |
| Progress.UpdateFrequency | RelinkViewer/MainWindow.xaml.cs:257 | `totalLines / 100` is 0 exactly for fewer than 100 lines, and otherwise the largest frequency with 100 times it not above `totalLines`. |
| Progress.ReportFrequency | RelinkViewer/MainWindow.xaml.cs:257 | The corrected frequency is at least 1 and is `totalLines / 100` rounded up: 100 times it reaches `totalLines`, and 100 times one less stays below it. |
| Progress.ReportDue | RelinkViewer/MainWindow.xaml.cs:282 | The corrected test that the builder runs: the first line, the last line and, below 100 lines, every line is due. |
| Progress.ProgressDue | RelinkViewer/MainWindow.xaml.cs:257-282 | The throttle as written: `i % (totalLines / 100)` raises DivideByZero when the frequency is 0. |
| Progress.SmallManifestFails | RelinkViewer/MainWindow.xaml.cs:257-282 | As written, a manifest of 1 to 99 lines fails on the first progress check. |
| Progress.ReportDueRefinesProgressDue | RelinkViewer/MainWindow.xaml.cs:257-282 | The source raises exactly when `totalLines < 100`, and there the corrected throttle reports every line. When `totalLines` is a multiple of 100 the two frequencies are equal and the corrected throttle decides as the source does. |
| Progress.ReportIfDue | RelinkViewer/MainWindow.xaml.cs:282-286 | The throttled report after line `i` extends the schedule of lines `0..i-1` to lines `0..i`. |
| Progress.ReportsAreDueIndices | RelinkViewer/MainWindow.xaml.cs:282-286 | For any frequency, the reported indices are exactly the due indices, strictly increasing, so the reported fractions never decrease. |
| Progress.ScheduleBounds | RelinkViewer/MainWindow.xaml.cs:282-286 | A run over a non-empty manifest reports the first and the last line. Every report is below `totalLines`, so each fraction lies in [0, 1). |
| Progress.ReportsBeforeLast | RelinkViewer/MainWindow.xaml.cs:282 | Before the last line, the number of reports is the number of multiples of the frequency. |
| Progress.ReportsOfRun | RelinkViewer/MainWindow.xaml.cs:259-287 | A whole run reports at most the multiples of the frequency below the last line, plus the last line. |
| Progress.MultiplesBelowBounds | RelinkViewer/MainWindow.xaml.cs:282 | The count of multiples of `f` below `k` is `k / f` rounded up: that count times `f` lies in `[k, k + f)`. |
| Progress.ScheduleAtMost101 | RelinkViewer/MainWindow.xaml.cs:257 | With the corrected frequency a run makes at most 101 reports, whatever the line count: at most 100 multiples plus the last line. |
| Progress.WrittenScheduleAtMost199 | RelinkViewer/MainWindow.xaml.cs:257 | As written, a run of at least 100 lines makes at most 199 reports. This is the bound the code meets, not the 100 its comment promises. |
| Progress.WrittenEveryLine | RelinkViewer/MainWindow.xaml.cs:257-286 | As written, between 100 and 199 lines the frequency is 1, so every line processed so far has been reported. |
| Progress.TooManyReports | RelinkViewer/MainWindow.xaml.cs:257 | As written, a manifest of 150 lines gets 150 reports. |
| Strings.Segments | RelinkViewer/MainWindow.xaml.cs:262 | `line.Split('/')` yields at least one field, and no field holds a '/'. |
| Strings.JoinSplit | RelinkViewer/MainWindow.xaml.cs:262-270 | Joining a line's fields with the separator gives the line back. |
| Strings.SplitJoin | RelinkViewer/MainWindow.xaml.cs:262 | Splitting separator-free parts joined by a separator gives the parts back. |
| Strings.SplitLines | RelinkViewer/MainWindow.xaml.cs:253 | Every manifest line is non-empty and holds no CR or LF. |
| Strings.LinesRoundTrip | RelinkViewer/MainWindow.xaml.cs:253 | Non-empty lines without line breaks, joined by "\n", split back into exactly those lines. |
| Strings.BlankTextHasNoLines | RelinkViewer/MainWindow.xaml.cs:253 | Empty or CR/LF-only text has no lines. |
| Strings.Lower | RelinkViewer/MainWindow.xaml.cs:336-343 | `ToLower` keeps the length and lower-cases each character. |
| Strings.LowerIdempotent | RelinkViewer/MainWindow.xaml.cs:336-343 | Lower-casing twice is lower-casing once, so the lower-cased query compares with lower-cased names consistently. |
| Strings.LowerChangesOnlyCapitals | RelinkViewer/MainWindow.xaml.cs:206 | Only the letters 'A' to 'Z' change, each into its lower-case letter. |
| Strings.Contains | RelinkViewer/MainWindow.xaml.cs:343 | `Contains` holds exactly when the query occurs at some offset. |
| Strings.ExtensionOfSuffix | RelinkViewer/MainWindow.xaml.cs:206 | A final ".x", with `x` non-empty and free of dots and separators, is the name's extension. |
| Strings.GetExtension | RelinkViewer/MainWindow.xaml.cs:206 | A non-empty extension starts with '.', has at least two characters and is a suffix of the name. |
| Search.SearchDirectoryNode | RelinkViewer/MainWindow.xaml.cs:340-352 | The recursive walk appends to the shared results exactly the matching nodes of the subtree, in pre-order, and leaves the tree unchanged. |
| Search.SearchDirectoryTree | RelinkViewer/MainWindow.xaml.cs:333-338 | With a built root, the fresh results list is exactly the nodes whose lower-cased Name contains the lower-cased search text, in pre-order, and the tree is unchanged. With a null root the search fails with a null reference. |
| Search.Hit | RelinkViewer/MainWindow.xaml.cs:343 | A node matches exactly when the query occurs at some offset of its lower-cased Name. |
| Search.NodeList.constructor | RelinkViewer/MainWindow.xaml.cs:335 | `new List<DirectoryNode>()` starts empty. |
| Search.NodeList.Add | RelinkViewer/MainWindow.xaml.cs:345 | `results.Add(node)` appends the node at the end and keeps the earlier entries. |
| Search.SearchFindsEachMatchOnce | RelinkViewer/MainWindow.xaml.cs:333-352 | On a built tree, every node is listed exactly when its name matches, and none is listed twice. |
| Search.EmptySearchListsTree | RelinkViewer/MainWindow.xaml.cs:333-352 | The empty query lists every node of the tree. |
| Search.MatchingMembers | RelinkViewer/MainWindow.xaml.cs:343-346 | A node is in the filtered order exactly when it is in the order and its name matches. |
| Search.PreOrderCoversTree | RelinkViewer/MainWindow.xaml.cs:348-351 | The walk from the root visits every node of a well-formed tree. |
| Search.PreOrderMembers | RelinkViewer/MainWindow.xaml.cs:340-352 | The walk from any node `x` visits exactly `x` and the nodes below it: the nodes whose parent links lead up to `x`. |
| Search.PreOrderNoRepeats | RelinkViewer/MainWindow.xaml.cs:348-351 | The pre-order walk visits no node twice. |
| Search.MatchingAppend | RelinkViewer/MainWindow.xaml.cs:340-352 | Filtering distributes over concatenation, as appending to the shared list does. |
| Icons.GetIconPathForNode | RelinkViewer/MainWindow.xaml.cs:194-216 | The icon is always one of the three resource paths. |
| Icons.IsFile | RelinkViewer/MainWindow.xaml.cs:197 | `Name.Contains('.')` holds exactly when some character of the name is a '.'. |
| Icons.IconChoice | RelinkViewer/MainWindow.xaml.cs:197-214 | The three branches as a case table: the folder icon exactly for names without a '.', the text-file icon exactly for names with a '.' whose extension lower-cases to ".txt", and the generic icon for the other names with a '.'. |
| Icons.TxtSuffixGetsTextIcon | RelinkViewer/MainWindow.xaml.cs:206-211 | A name ending in "." plus any case of "txt" gets the text-file icon. |
| Icons.TextIconOnlyForTxtSuffix | RelinkViewer/MainWindow.xaml.cs:206-211 | Conversely, a name gets the text-file icon only if it ends in "." followed by three characters that lower-case to "txt". |
| Icons.TrailingDotGetsFileIcon | RelinkViewer/MainWindow.xaml.cs:206-214 | A name whose only '.' is its last character has no extension and gets the generic file icon. |
| TreeView.TreeItem.constructor | RelinkViewer/MainWindow.xaml.cs:130-143 | The item shows the node's Name and icon. It holds the null placeholder exactly when the node has children, and otherwise no items. |
| TreeView.TreeItem.Expanded | RelinkViewer/MainWindow.xaml.cs:174-192 | A placeholder-only item gets one fresh item per child, in Children order. Each new item shows the child's Name and the icon GetIconPathForNode gives for it, and holds a placeholder exactly when the child has children. Any other item is unchanged. |
| TreeView.LoadedIsNotUnloaded | RelinkViewer/MainWindow.xaml.cs:177 | A loaded item no longer passes the placeholder test, so expanding it again changes nothing. |

## Left out

- DownloadFileListAsync, LoadFileListAsync and MainWindow_Loaded: network and file I/O. The manifest text is a parameter of BuildDirectoryTree.
- UpdateUI, UpdateProgressBar, UpdateStatusText and CreateItemHeader: Dispatcher marshalling and WPF rendering. The progress reports are returned as a sequence of line indices `i`, each standing for the value `i / totalLines` (floating point is not modelled).
- Task.Run and any concurrency: the build is modelled as sequential code.
- The search box handler: `Trim`, the three-character threshold, the timer and the visibility toggles are UI logic around SearchDirectoryTree.
- The context menu, ExtractFile, FileNode_DoubleClick and ExtractMenuItem_Click: these are event wiring around FileOperations. FileOperations.cs and ConfigurationManager.cs are not part of this model.
- TreeView.TreeItem.Expanded: requires every child number to name a node. This is a consequence of node numbers standing for object references, and every built tree meets it.
- Strings.Lower: lower-cases ASCII letters only, not the culture-sensitive full Unicode mapping of `String.ToLower`.
- Strings.GetExtension: follows the .NET Core behaviour on Windows, where '\\' and '/' end the last component and invalid path characters do not throw.
- Search.SearchDirectoryTree: the window's root stays null until a build succeeds, and every failed build leaves it null, including each manifest of 1 to 99 lines. A search then passes the null root on, and `node.Name` throws NullReferenceException. The model takes the root as an Option and returns Failure(NullReference) for None. It does not model when the search box can fire, because the window's XAML is not part of this model.
- Search.SearchDirectoryNode: results are node numbers, and `List<DirectoryNode>` is a NodeList object whose sequence the method extends.
- DirectoryTrees.BuildDirectoryTree: uses the corrected throttle Progress.ReportDue, with the frequency `totalLines / 100` rounded up and never 0 (see Findings). As written, a manifest of 1 to 99 lines raises instead of returning a tree, and a manifest of 100 to 199 lines reports every line.

## Findings

| source | as written | input that shows it | evidently intended | confidence | as-written member | corrected member |
|---|---|---|---|---|---|---|
| RelinkViewer/MainWindow.xaml.cs:257-282 | `updateFrequency = totalLines / 100` is 0 for fewer than 100 lines, and `i % updateFrequency` then throws DivideByZeroException on the first line, so no tree is built | a manifest of one line, "a/b" | a report frequency of at least one line, so small manifests are built and every line is reported | not executed | Progress.SmallManifestFails | Progress.ReportDueRefinesProgressDue |
| RelinkViewer/MainWindow.xaml.cs:257 | the comment promises progress updates "at most 100 times", but `totalLines / 100` rounds down: from 100 to 199 lines the frequency is 1 and every line is reported, and in general a run can make up to 199 reports | a manifest of 150 lines gets 150 reports | a frequency of `totalLines / 100` rounded up, so a run makes at most 100 reports on multiples of the frequency plus the last line | not executed | Progress.TooManyReports | Progress.ScheduleAtMost101 |
