# disk-scout, modelled in Dafny

disk-scout is a desktop disk-usage viewer. It has three parts:

- **The tree builder** (`build_tree`) walks the file system from a path. It produces an owned tree of `FileSystemNode`s, in which each directory's size is the sum of the nodes it kept.
- **The layout engine** (`generate_treemap` and `calculate_layout`) turns the tree into a flat, pre-order list of `TreemapNode`s. It uses the slice-and-dice algorithm: a sibling group's bounds are cut into strips proportional to size, and the cut runs vertically and horizontally at alternate levels.
- **The application** (`DiskScannerApp::update`) does four things each frame: it picks up a finished background scan, starts a new scan when the Scan button is clicked, recomputes the layout when it is stale, and colours rectangles by depth.

This project models those three parts and proves properties of the model.

| file | module | models |
|---|---|---|
| `wrappers.dfy` | `Wrappers` | `Option` and `Result` |
| `scanner.dfy` | `Scanner` | `src/scanner.rs` |
| `treemap.dfy` | `Treemap` | `src/treemap.rs` |
| `app.dfy` | `App` | `color_for_depth` and the state transitions of `update` in `src/main.rs` |

### The tree builder

The file system is a finite datatype, `FsObject`. For one path it records what happened:

- the metadata call failed (`MetadataFailure`);
- or the path is not a directory (a file, a device, a socket or a resolved link) and has a length (`RegularFile`);
- or it is a directory whose listing could not be opened (`ListingFailure`);
- or it is a directory with a listing (`Directory`).

A listing is a sequence of `DirEntry` steps. Each step is either an entry, with its file name and its own `FsObject`, or an iteration error.

- `Build` and `Scan` specify the builder as recursive functions.
- `BuildTree` is the source's loop. It pushes kept children and accumulates `total_size`, and it is proved equal to `Build`.
- Paths are Unix-style strings:
  - `Join` models `entry.path()`;
  - `FileName` models `Path::file_name`: trailing `/` and `.` components are ignored, and a path ending in `..`, a bare root and the empty path have no name;
  - `NodeName` falls back to the whole path.

### The layout engine

The layout is specified by three mutually recursive functions:

- `Layout(nodes, bounds, vertical, depth)` is one sibling group: nothing for an empty or zero-size group.
- `Siblings(nodes, n, ...)` is the first `n` siblings of the group.
- `Subtree(nodes, k, ...)` is sibling `k`, followed by its children's layout inside its strip, on the other axis, one level deeper.

Sibling `k` gets the strip `Strip(nodes, k, ...)`:

- along the slicing axis, it starts at the share of the sizes before it and is as long as the share of its own size;
- across the slicing axis, it spans the whole of `bounds`;
- a share is computed as the source computes it: `length * (size / total)`.

`CalculateLayout` is the source's method. It has the `for` loop over the siblings, the mutable cursors `current_x` and `current_y`, the push onto the accumulator and the recursive call. It is proved to append exactly `Layout(...)` to the accumulator it is given.

### The application

`App.DiskScannerApp` is a class with the four fields that `update` changes:

- `scanResult`
- `scanReceiver`
- `layout`
- `lastFrameSize`

It also has `pathInput`. One frame (`Update`) runs four transition methods in the source's order:

- `Poll` takes in a finished scan;
- `EditPath` applies the text field;
- `ClickScan` is the Scan button;
- `RefreshLayout` applies the staleness test and recomputes the layout.

The background thread is represented by the file-system snapshot it saw: `Poll(Some(fs))` delivers `Build(path, fs)` for the path captured when the scan was started.

Every method keeps the class invariant `Valid()`: when a layout exists, it is exactly the treemap of the current tree filling the last recorded frame size.

Consequences of the code as written, proved in `RefreshLayout` and `Update`:

- After a frame, the layout is stale again exactly when the last result is an error. In that case the staleness test fires on every following frame, and each time it only records the frame size.
- Starting a scan does not clear `scan_result` or `layout`, although the field's comment says `None` also means "a scan is in progress". While the scan runs the old layout is kept; the code only hides it behind "Scanning...". The model follows the code.

### Sibling order

Neither part of the code reorders siblings:

- `build_tree` does no sorting: children stay in the order the listing yields them (src/scanner.rs:45-57).
- The doc comment on `calculate_layout` says that it sorts children by size (src/treemap.rs:46).
- `calculate_layout` does build a copy of the siblings sorted by decreasing size (src/treemap.rs:59-60), but never reads it. The loop runs over the original `nodes` (src/treemap.rs:72).

The model follows the code:

- `Scanner.ScanKeepsSuccesses` and `Scanner.ScanKeepsListingOrder` prove that kept children keep the listing's order.
- The layout visits siblings in their stored order.
- The unused sorted copy has no effect on the output, so it is not modelled.

## Model

| member | source | states |
|---|---|---|
| Scanner.SegmentStart | src/scanner.rs:38-40 | the last path segment starts right after a separator (or at 0) and contains no separator |
| Scanner.FileName | src/scanner.rs:38-40 | a final path component, when there is one, is a valid entry name: non-empty, separator-free, neither "." nor ".." |
| Scanner.NodeName | src/scanner.rs:38-42 | defines a node's name: the final path component, or the whole path when there is none |
| Scanner.TrailingComponentsIgnored | src/scanner.rs:38-40 | a trailing separator or a trailing "." component does not change a path's final component |
| Scanner.Join | src/scanner.rs:51 | defines the path of an entry, `entry.path()`: the directory, a separator unless it already ends in one, then the entry's name |
| Scanner.JoinShape | src/scanner.rs:51 | an entry's path starts with its directory, ends with its name, and puts at most one separator between them |
| Scanner.Build | src/scanner.rs:34-80 | a built node is named after its path, and a directory's size is the total of the children it kept |
| Scanner.TotalSize | src/scanner.rs:46-56 | defines the sum of a sequence of nodes' sizes, the value `total_size` accumulates (and `sum::<u64>()` computes at src/treemap.rs:63) |
| Scanner.Scan | src/scanner.rs:49-65 | defines the loop over a listing as a fold: the children kept so far, or the first iteration error |
| Scanner.ScanNext | src/scanner.rs:50-64 | defines one iteration: an iteration error fails the listing, a child whose build succeeds is pushed, one whose build fails is left out |
| Scanner.ScanNextExtends | src/scanner.rs:50-64 | one iteration keeps every child kept so far and adds at most one; an iteration error fails the listing with that error, and an earlier failure stays |
| Scanner.ScanOutcome | src/scanner.rs:49-65 | a listing keeps at most one child per entry, and when it fails, its error is one of its own iteration errors |
| Scanner.BuildTree | src/scanner.rs:34-80 | the loop that pushes kept children and accumulates their sizes returns exactly `Build`, including the error returned by a failed metadata call, a failed listing or an iteration error |
| Scanner.ScanErrPrefix | src/scanner.rs:49-50 | once a prefix of a listing has failed, the whole listing fails with that same error |
| Scanner.ChildNamedAfterEntry | src/scanner.rs:38-51 | a child built from `dir.join(name)` is named `name` |
| Scanner.KeptIndices | src/scanner.rs:45-65 | the positions of the entries whose own build succeeds, strictly increasing |
| Scanner.KeptIndicesComplete | src/scanner.rs:54-64 | every entry whose own build succeeds has its position listed |
| Scanner.ScanKeepsSuccesses | src/scanner.rs:45-65 | a listing without iteration errors keeps exactly the children that build successfully, in listing order; failed children are skipped and later siblings are still visited |
| Scanner.ScanFirstFailure | src/scanner.rs:49-50 | the first iteration error of a listing is the error of the whole directory |
| Scanner.ScanSkipsFailedChild | src/scanner.rs:54-64 | a child whose build fails changes nothing: the listing scans as if that entry were absent |
| Scanner.BuildMeasuresReadableBytes | src/scanner.rs:44-79 | a build succeeds exactly when the scan reaches the root without a fatal error, and its size is then the bytes of every file reached without error |
| Scanner.ScanMeasuresReadableSum | src/scanner.rs:45-70 | a listing scans successfully exactly when it has no iteration error, and the kept children's sizes add up to the bytes readable below it |
| Scanner.BuiltTreesAreConsistent | src/scanner.rs:14-16 | in every built tree, each node with children is as large as the sum of their sizes |
| Scanner.ScannedTreesAreConsistent | src/scanner.rs:56-57 | every child kept from a listing is itself a consistent tree |
| Scanner.ConsistentSizeIsLeafBytes | src/scanner.rs:67-70 | in a consistent tree the root's size is the sum of its childless nodes' sizes |
| Scanner.ConsistentTotalIsLeafBytes | src/scanner.rs:56 | the sizes of consistent siblings add up to the sum of their childless nodes' sizes |
| Scanner.RootFailuresReachCaller | src/scanner.rs:34-50 | a failed root metadata call, a failed root listing, and a root listing whose only step is an iteration error all return that error to the caller |
| Scanner.RootIterationErrorReachesCaller | src/scanner.rs:49-50 | an iteration error at the root, after any number of readable entries, returns that error to the caller |
| Scanner.DirectoryOfOneFile | src/scanner.rs:44-78 | a directory holding one file is a node of that file's size with the file as its only, childless child |
| Scanner.SubdirectoryOfOneFile | src/scanner.rs:51-57 | a sub-directory holding one file becomes a child named after its entry, as large as the file |
| Scanner.ScanOfFileBesideSubdirectory | src/scanner.rs:44-78 | a file beside a sub-directory holding a file makes a root of the two files' combined size, with both children in listing order |
| Scanner.ScanKeepsListingOrder | src/scanner.rs:45-57 | two files are kept in the order the listing yields them, whatever their names: nothing sorts them |
| Scanner.ScanDropsUnreadableEntry | src/scanner.rs:54-64 | an entry whose metadata fails, between two files, is dropped and its size not counted, and the later file is still kept |
| Scanner.RootNamedByWholePath | src/scanner.rs:38-42 | "/" and "." have no final component and are named by the whole path; "/home/user/" is named "user" |
| Treemap.SliceAtOffset | src/treemap.rs:78-98 | a slice starts where the sizes before it end, spans the bounds across the axis, and ends where the next slice starts |
| Treemap.SizeBeforeStep | src/treemap.rs:87-97 | the sizes before sibling k + 1 are those before sibling k plus sibling k's size, both as naturals and as reals |
| Treemap.Share | src/treemap.rs:74-90 | defines the length a part gets, `length * (size / total)`, as `proportion` and `bounds.width * proportion` (or `bounds.height * proportion`) compute it |
| Treemap.Slice | src/treemap.rs:80-96 | defines the `child_bounds` rectangle: the share of the sizes before and of the size along the slicing axis, the full bounds across it |
| Treemap.Cursor | src/treemap.rs:69-97 | defines where `current_x` (slicing vertically) or `current_y` (slicing horizontally) stands before sibling k: the start of the bounds plus the share of the sizes before k |
| Treemap.Strip | src/treemap.rs:74-98 | defines sibling k's strip: along the slicing axis it starts at the share of the sizes before k and is as long as the share of k's size; across the axis it spans the bounds |
| Treemap.Emit | src/treemap.rs:100-105 | defines the item pushed for sibling k: its strip, name and size, at the group's depth |
| Treemap.Layout | src/treemap.rs:55-111 | defines the output for one sibling group: nothing for an empty or zero-size group, else every sibling's subtree in order |
| Treemap.Siblings | src/treemap.rs:72-111 | defines what the first n iterations of the loop append |
| Treemap.Subtree | src/treemap.rs:100-110 | defines what one iteration appends: the sibling's item, then its children's layout in its strip, on the other axis, one level deeper |
| Treemap.LayoutEmpty | src/treemap.rs:55-66 | a group emits nothing exactly when it is empty or its total size is 0 |
| Treemap.StripAtCursor | src/treemap.rs:69-98 | sibling k's strip starts at the cursor after k siblings, spans the bounds across the axis, and moves the cursor to where sibling k + 1 starts |
| Treemap.CalculateLayout | src/treemap.rs:48-112 | the method with the cursor loop, the push and the recursive call appends exactly the layout of the group to the accumulator; an empty or zero-size group appends nothing |
| Treemap.GenerateTreemap | src/treemap.rs:37-42 | the treemap of a tree is the layout of the root's children, sliced vertically first, at depth 1 |
| Treemap.LayoutDepths | src/treemap.rs:100-110 | every item of a group's layout is at least as deep as the group |
| Treemap.SiblingsDepths | src/treemap.rs:72-111 | every item the first n siblings emit is at least as deep as the group |
| Treemap.SubtreeDepths | src/treemap.rs:100-110 | a sibling's item is at the group's depth and its children's items are deeper |
| Treemap.TopItemsIndex | src/treemap.rs:72-105 | the group's own items are one per sibling, in sibling order |
| Treemap.LayoutTopLevel | src/treemap.rs:72-105 | a group of positive total size emits exactly one item per sibling at its own depth, in sibling order, each with the sibling's name, size and strip |
| Treemap.SiblingsTopLevel | src/treemap.rs:72-111 | the items at the group's depth among those the first n siblings emit are those n siblings' own items |
| Treemap.SubtreeTopLevel | src/treemap.rs:100-110 | a sibling's subtree holds exactly one item at the group's depth, its own |
| Treemap.PrefixBelowTotal | src/treemap.rs:63-74 | the sizes up to and including a sibling never exceed the group's total |
| Treemap.StripsTile | src/treemap.rs:69-98 | the strips of a group of positive total size tile its bounds: the first starts at the bounds' start, each ends where the next begins, the last ends at the bounds' end, and each spans the bounds across the axis |
| Treemap.SliceInside | src/treemap.rs:78-98 | a slice of bounds of non-negative size lies within them and has non-negative size |
| Treemap.LayoutInside | src/treemap.rs:48-112 | every rectangle of a layout, at every depth, lies within the bounds it was given and has non-negative size |
| Treemap.SiblingsInside | src/treemap.rs:72-111 | every rectangle the first n siblings emit lies within the group's bounds |
| Treemap.SubtreeInside | src/treemap.rs:100-110 | every rectangle of a sibling's subtree lies within the group's bounds |
| Treemap.SiblingsPrefix | src/treemap.rs:72-111 | what the first m siblings emit is a prefix of what the first n emit, for m <= n |
| Treemap.LayoutPreOrder | src/treemap.rs:100-110 | the output is pre-order: right after the items of the siblings before it come sibling k's item and then its children's whole layout |
| Treemap.ThreeSiblingsSideBySide | src/treemap.rs:119-186 | siblings of sizes 30, 20 and 10 in a 100×100 square at depth 1 get the strips x = 0, 50, 50 + 100/3 of widths 50, 100/3, 100/6 and full height |
| App.ColorForDepth | src/main.rs:49-59 | the colour is always a palette entry; depth 0 takes the first entry, like depth 1, and depths 1 to 6 take entries 0 to 5 in order |
| App.Palette | src/main.rs:50-57 | the six colours of `colors`, darkest first, no two alike |
| App.SaturatingSub | src/main.rs:58 | defines `saturating_sub`: the difference, or 0 when it would be negative |
| App.ColorRepeatsEverySixLevels | src/main.rs:50-58 | from depth 1 on, the colour repeats every six levels |
| App.AdjacentLevelsDiffer | src/main.rs:50-58 | from depth 1 on, rectangles one level apart never get the same colour |
| App.FrameBounds | src/main.rs:102-107 | defines the bounds of a layout: the available size, from the origin |
| App.DiskScannerApp.ScanEnabled | src/main.rs:79-80 | defines when the Scan button is enabled: no scan is running |
| App.DiskScannerApp.IsLayoutStale | src/main.rs:96-97 | defines the staleness test: the frame size changed, or a result exists without a layout |
| App.DiskScannerApp.constructor | src/main.rs:32-46 | the start-up state: the given path, no result, no scan running, no layout, a zero frame size |
| App.DiskScannerApp.Poll | src/main.rs:65-71 | a delivered result becomes the current result (the build of the path captured at the click), the channel is dropped and the layout discarded; with nothing delivered or no scan running nothing changes |
| App.DiskScannerApp.EditPath | src/main.rs:76 | the text field changes the typed path and nothing else |
| App.DiskScannerApp.ClickScan | src/main.rs:78-84 | the button starts a scan of the path typed now only when none is running; a click while one runs changes nothing; afterwards a scan is running |
| App.DiskScannerApp.RefreshLayout | src/main.rs:94-111 | a stale layout is recomputed for the current frame only when the result is a tree, and kept otherwise; the frame size is always recorded; afterwards the layout is stale exactly when the result is an error; the invariant is kept |
| App.DiskScannerApp.Update | src/main.rs:63-111 | one frame keeps the invariant and records the typed path and the frame size. A delivered result becomes the build of the path captured at the click; otherwise the result is unchanged. A running scan is never replaced before its result arrives. A click installs a scan of the newly typed path when none is left running. Afterwards a layout exists exactly when the result is a tree, and it is that tree's treemap for this frame's size. The layout is stale exactly when the result is an error |

## Left out

- File-system access (`fs::metadata`, `fs::read_dir`, the directory iterator) is replaced by the finite `FsObject` datatype. Symbolic-link cycles, which could make the real walk run forever, cannot be expressed.
- `to_string_lossy` is left out: names are already strings and no lossy conversion happens.
- Paths are Unix-style strings. Windows prefixes and separators are not modelled.
- Sizes are unbounded naturals. Two `u64` sums can overflow in the source: `total_size += child_node.size` in `build_tree` (src/scanner.rs:56) and `sum::<u64>()` in `calculate_layout` (src/treemap.rs:63). The model does not capture either overflow.
- Coordinates are exact reals, and the `u64`-to-`f64` and `f32`-to-`f64` casts are exact. The model does not capture `f64` rounding, so the strips tile their bounds exactly, where the source's own example compares with a 1e-9 tolerance.
- The model folds the source's `proportion` local into `Share`, which still computes `length * (size / total)`. The total is compared with zero as a natural number, which is equivalent to the source's comparison of the `f64` sum.
- The unused size-sorted copy in `calculate_layout` (src/treemap.rs:59-60) is left out because it does not affect the output.
- Diagnostic output is left out: `eprintln!` for a failed child and `println!` for a started scan and a recomputed layout.
- The background thread and the `mpsc` channel are left out. A running scan is a `PendingScan` holding the path captured at the click. `try_recv` is represented by the `arrived` argument: nothing yet, or the file-system snapshot the thread saw.
- A sender that disconnects without sending behaves like a scan that never arrives. The `expect` on a failed send is left out.
- `Default` reads the current directory, or falls back to ".". That I/O is left out: the constructor takes the path as a parameter.
- All egui and eframe work is left out: panels, the text-edit widget itself, the button's rendering, painting, the `< 1.0` visibility filter, hover and tooltips, `request_repaint`, the "Scanning..." and error screens, and `main`.
