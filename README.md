# gomics core in Dafny

gomics is a comic-book viewer. It opens a zip/cbz archive, or a directory, of
images and pages through it one or two pages at a time. It can jump to the
next "scene", the first page whose difference hash is far from the hash of
the page shown. It can move seamlessly to the neighbouring archive of the
same directory, and it keeps a list of bookmarks.

This project models the non-GUI core of the viewer:

- **Natural order and name handling.**
  - natural-order comparison of file names;
  - extension matching, and the listing of the archives of a directory;
  - the `strcmp` and `File.Ext` helpers.
- **Archive backends.** The two backends (zip members and directory files), and the `NewArchive` dispatch between them.
- **Difference hash.**
  - conversion to grayscale with the BT.601 fixed-point luma;
  - the 64-bit difference hash and its Hamming distance.
- **Viewer state machine** (`GUI`):
  - page setting and clamping;
  - single- and double-page stepping;
  - the stride-then-refine scene search;
  - switching between sibling archives;
  - `Close` and `LoadArchive`;
  - the double-page layout rules;
  - the bookmark upsert.

Files:

| file | module | content |
|---|---|---|
| `strings.dfy` | `Strings` | bytes; `filepath.Ext`/`Split`/`Base`/`Join`, ASCII lower-casing, byte order |
| `errors.dfy` | `Errors` | error values, `Result`, `Option` |
| `natsort.dfy` | `NatSort` | `Less`: digit runs by value, then by run length, other bytes raw |
| `natsort_table.dfy` | `NatSortTable` | every row of the `TestLess` table, in both directions |
| `sorting.dfy` | `Sorting` | in-place insertion sort by a comparison, sortedness and permutation |
| `archive_util.dfy` | `ArchiveUtil` | `ExtensionMatch`, `ListArchives`, `strcmp`, the two `Less` orders, `File.Ext` |
| `zip.dfy`, `dir.dfy` | `ZipBackend`, `DirBackend` | the backend classes and their constructors |
| `archive.dfy` | `Archives` | the `Archive` interface and `NewArchive` |
| `imgdiff.dfy` | `ImgDiff` | `Distance`, grayscale conversion, `DHash` |
| `util.dfy` | `Util` | `min`, `max`, `wrap`, Go's truncating `%` |
| `scenes.dfy` | `Scenes` | the scene search as functions over a per-page probe, and its properties |
| `viewer.dfy` | `Viewer` | configuration, layout predicates, bookmarks, and the `GUI` class |

The file system, the working directory, zip member lists, page decoding and
the rescale inside `DHash` are outside the model. They enter as values of
the `Viewer.Env` datatype:

- `cwd` is the working directory;
- `zipMembers` gives the member names of a zip file;
- `listing` gives a directory listing with per-entry stat results;
- `openMember` and `openFile` are the decoders;
- `dhash` hashes a decoded page;
- `imageExtensions` is the dot-prefixed extension list.

The float threshold `distance / 64 > 0.4` is the integer threshold `distance > 25`.

## Model

| member | source | states |
|---|---|---|
| NatSort.DigitRun | natsort/sort_test.go:31-36 | the run length covers exactly the leading digits |
| NatSort.LessRuns | natsort/sort_test.go:31-40 | two leading digit runs compare by value, then the longer run (more leading zeros) is less, and only then does the rest decide |
| NatSort.LessBytes | natsort/sort_test.go:37-38 | outside digit pairs, bytes compare by raw value, including UTF-8 bytes |
| NatSort.LessIrreflexive | natsort/sort_test.go:28 | no name is less than itself |
| NatSort.LessAsymmetric | natsort/sort_test.go:60-63 | `Less(s,t)` and `Less(t,s)` never both hold |
| NatSort.LessTrichotomous | natsort/sort_test.go:60-63 | distinct names are ordered one way or the other |
| NatSort.LessTransitive | natsort/sort_test.go:45 | the order is transitive, as the chain a < a0 < a1 < … presumes |
| NatSort.PrefixLess | natsort/sort_test.go:29 | a proper prefix is less, unless the extension lengthens its final digit run |
| NatSort.LessCommonPrefix | natsort/sort_test.go:42 | a shared prefix that ends outside a digit run does not affect the comparison |
| NatSortTable.Compare | natsort/sort_test.go:60-63 | the harness encoding: never both directions, equal exactly on equal strings |
| NatSortTable.Row28 | natsort/sort_test.go:28 | "" eq "" |
| NatSortTable.Row29 | natsort/sort_test.go:29 | "a" gt "" |
| NatSortTable.Row30 | natsort/sort_test.go:30 | "a" eq "a" |
| NatSortTable.Row31 | natsort/sort_test.go:31 | "1" lt "10" |
| NatSortTable.Row32 | natsort/sort_test.go:32 | "20" gt "3" |
| NatSortTable.Row33 | natsort/sort_test.go:33 | "a1" lt "a10" |
| NatSortTable.Row34 | natsort/sort_test.go:34 | "a2" lt "a10" |
| NatSortTable.Row35 | natsort/sort_test.go:35 | "a5b2" lt "a5b7" |
| NatSortTable.Row36 | natsort/sort_test.go:36 | "a50b2" gt "a6b7" |
| NatSortTable.Row37 | natsort/sort_test.go:37 | "世20" lt "世界3" in UTF-8 bytes |
| NatSortTable.Row38 | natsort/sort_test.go:38 | "50a" lt "50b" |
| NatSortTable.Row39 | natsort/sort_test.go:39 | "a50" gt "a050" |
| NatSortTable.Row40 | natsort/sort_test.go:40 | "a01b3" lt "a1b2": leading zeros decide before later bytes |
| NatSortTable.Row41 | natsort/sort_test.go:41 | "thx1138" eq "thx1138" |
| NatSortTable.Row42 | natsort/sort_test.go:42 | "thx1138a" lt "thx1138b" |
| NatSortTable.Row43 | natsort/sort_test.go:43 | "thx1138a" gt "thx1138" |
| NatSortTable.Row46 | natsort/sort_test.go:46 | "a" lt "a0" |
| NatSortTable.Row47 | natsort/sort_test.go:47 | "a0" lt "a1" |
| NatSortTable.Row48 | natsort/sort_test.go:48 | "a1" lt "a1a" |
| NatSortTable.Row49 | natsort/sort_test.go:49 | "a1a" lt "a1b" |
| NatSortTable.Row50 | natsort/sort_test.go:50 | "a2" lt "a10" |
| NatSortTable.Row51 | natsort/sort_test.go:51 | "a10" lt "a20" |
| NatSortTable.Row54 | natsort/sort_test.go:54 | "1.001" lt "1.002" |
| NatSortTable.Row55 | natsort/sort_test.go:55 | "1.002" lt "1.010" |
| NatSortTable.Row56 | natsort/sort_test.go:56 | "1.010" gt "1.02": digits after a dot are whole numbers |
| NatSortTable.Row57 | natsort/sort_test.go:57 | "1.02" gt "1.1" |
| NatSortTable.Row58 | natsort/sort_test.go:58 | "1.1" lt "1.3" |
| Strings.ToLower | archive/util.go:55 | lower-casing keeps the length and maps each byte on its own |
| Strings.Ext | archive/util.go:55 | the extension is a suffix that starts with its only dot and has no slash, and is empty exactly when the last element has no dot |
| Strings.ByteLessTrichotomy | archive/util.go:89 | Go's string `<` is a strict total order |
| Sorting.Sort | archive/util.go:129 | after the in-place sort, no element is less than its predecessor, and the array is a permutation of the input |
| Sorting.SortedAll | archive/zip.go:62 | a sorted sequence is in order between any two positions, not only neighbours |
| ArchiveUtil.ExtensionMatch | archive/util.go:54-62 | true exactly when the lower-cased extension equals an entry; the entries are not lower-cased |
| ArchiveUtil.DotPrefix | archive/util.go:49-51 | every extension entry gets a leading dot, in place |
| ArchiveUtil.NoDotNoMatch | archive/util.go:49-55 | with dot-prefixed entries, a name whose last element has no dot never matches |
| ArchiveUtil.FileExt | archive/util.go:174-181 | the extension without its dot, or "" when there is none or it is just "." |
| ArchiveUtil.StrcmpStrictTotal | archive/util.go:203-208 | both the natural and the byte order of `strcmp` are strict total orders |
| ArchiveUtil.FilenamesLessOrder | archive/util.go:213 | `filenames.Less` (natural order) meets what sorting needs |
| ArchiveUtil.LowerLessOrder | archive/util.go:89 | `stringArray.Less` (lower-cased byte order) meets what sorting needs |
| ArchiveUtil.FilterCount | archive/zip.go:51-56 | filtering keeps each matching name as often as it occurs and drops the rest |
| ArchiveUtil.FilterNames | archive/zip.go:51-56 | the append loop builds exactly the filtered list, in order |
| ArchiveUtil.SortNames | archive/zip.go:62 | sorting a list gives a permutation of it, sorted by the given order |
| ArchiveUtil.FirstFailureIsFirst | archive/util.go:115-120 | the reported failure is that of the first entry whose stat failed |
| ArchiveUtil.KeptNamesExactly | archive/util.go:122-126 | a name is kept exactly when it has an archive extension or is a directory |
| ArchiveUtil.ListedOk | archive/util.go:92-131 | a successful listing comes from a readable directory whose entries all stat, and holds exactly the kept names |
| ArchiveUtil.ListArchives | archive/util.go:92-131 | open/stat errors pass through; a non-directory is an error; the first stat failure aborts; otherwise the kept names, permuted and sorted by lower-cased byte order |
| ArchiveUtil.KeepArchives | archive/util.go:114-127 | the loop returns the first stat failure, or the kept names in listing order |
| ZipBackend.Zip.CheckBounds | archive/zip.go:67-72 | `ErrBounds` exactly for indexes outside the member list |
| ZipBackend.Zip.Name | archive/zip.go:88-94 | member `i` after the bounds check, else `ErrBounds` |
| ZipBackend.Zip.Len | archive/zip.go:96-98 | the member count, at least 1 for an opened zip |
| ZipBackend.Zip.Load | archive/zip.go:74-86 | out of range is `ErrBounds`; otherwise the member is decoded through the reader |
| ZipBackend.NewZip | archive/zip.go:39-65 | a reader error passes through; no image members is "no images in the zip file" under the base name; otherwise the image members, permuted and in natural order |
| DirBackend.Dir.CheckBounds | archive/dir.go:63-68 | `ErrBounds` exactly for indexes outside the file list |
| DirBackend.Dir.Name | archive/dir.go:85-91 | the bare file name after the bounds check |
| DirBackend.Dir.Len | archive/dir.go:93-95 | the file count, at least 1 for an opened directory |
| DirBackend.Dir.Load | archive/dir.go:70-83 | out of range is `ErrBounds`; otherwise the joined path is decoded |
| DirBackend.Dir.Close | archive/dir.go:97-99 | always succeeds |
| DirBackend.NewDir | archive/dir.go:34-61 | a read error passes through; no image files is "no images in the directory"; otherwise the image files, permuted and in natural order |
| Archives.Archive.Len | archive/archive.go:32 | the entry count of either backend, at least 1 once opened |
| Archives.Archive.Name | archive/archive.go:31 | entry `i`, or the single `ErrBounds` |
| Archives.Archive.Load | archive/archive.go:30 | out of range is `ErrBounds` in both backends |
| Archives.NamesInOrder | archive/zip.go:62 | entries of an opened archive are in natural order between any two positions |
| Archives.NewArchive | archive/archive.go:40-54 | .zip/.cbz in any case open with `NewZip`; every other path, a directory included, is "Unknown archive type"; the directory backend is never chosen |
| Archives.NoExtensionUnknown | archive/archive.go:40-53 | a path whose last element has no dot is an unknown archive type |
| ImgDiff.Distance | imgdiff/imgdiff.go:34-36 | the popcount of the XOR, at most 64 |
| ImgDiff.DistanceMetric | imgdiff/imgdiff.go:34-36 | symmetric, and 0 exactly on equal hashes |
| ImgDiff.OnesZero | imgdiff/imgdiff.go:35 | the popcount is 0 exactly for 0 |
| ImgDiff.Luma | imgdiff/imgdiff.go:78 | the 32-bit fixed-point sum never overflows |
| ImgDiff.LumaGray | imgdiff/imgdiff.go:78 | a gray pixel keeps its value |
| ImgDiff.LumaMonotone | imgdiff/imgdiff.go:78 | brighter channels never give a darker luma |
| ImgDiff.AlphaIgnored | imgdiff/imgdiff.go:75-77 | the alpha byte of a 4-channel pixel does not affect its gray value |
| ImgDiff.ToGrayscale | imgdiff/imgdiff.go:58-87 | 1-channel pixels are copied and 3/4-channel pixels take the luma; any other depth is the panic path |
| ImgDiff.OrBit | imgdiff/imgdiff.go:115 | setting bit `j` sets only that bit |
| ImgDiff.HashBitsBit | imgdiff/imgdiff.go:111-118 | after `n` comparisons, bit `k` is set exactly when `k < n` and its pixel pair rises |
| ImgDiff.DHashBits | imgdiff/imgdiff.go:109-118 | bit `8*iy+ix` is set exactly when gray[iy][ix+1] > gray[iy][ix] |
| ImgDiff.PositionsDistinct | imgdiff/imgdiff.go:38-42 | the 64 bit positions are distinct |
| ImgDiff.UniformHashZero | imgdiff/imgdiff.go:114 | a picture of one uniform gray hashes to 0, the comparison being strict |
| ImgDiff.GridRises | imgdiff/imgdiff.go:102-114 | a pair rises in the 9x8 buffer exactly when it rises in the gray picture |
| ImgDiff.DHash | imgdiff/imgdiff.go:90-121 | after the rescale, the hash the model defines: `None` for the gray-conversion panic, otherwise the bits of the rising pairs |
| ImgDiff.GrayData | imgdiff/imgdiff.go:102-107 | the 9x8 buffer holds gray[iy][ix] at `9*iy+ix` |
| ImgDiff.HashData | imgdiff/imgdiff.go:109-118 | the nested loops OR in exactly the rising pairs |
| ImgDiff.HashRow | imgdiff/imgdiff.go:112-117 | one row of comparisons sets the row's 8 bits |
| ImgDiff.HashStep | imgdiff/imgdiff.go:114-116 | one comparison sets its bit exactly when the pair rises |
| Util.Min | util.go:25-30 | at most both arguments and equal to one |
| Util.Max | util.go:32-37 | at least both arguments and equal to one |
| Util.GoRem | util.go:40 | Go's `%`: truncated quotient, remainder smaller than the divisor, sign of the dividend |
| Util.WrapCongruent | util.go:39-45 | `wrap` stays congruent to `val` |
| Util.WrapRange | util.go:39-45 | with low 0 and a positive modulus, `wrap` is in [0, mod), also for a negative `val` |
| Util.WrapIdentity | util.go:39-45 | a value already in [low, mod) is unchanged |
| Util.WrapNegative | util.go:40 | Go's -1 % 3 is -1, which `wrap` lifts to 2 |
| Scenes.Classify | navigation.go:151-157 | a page is far exactly when its hash loads and is more than the threshold away |
| Scenes.Stride | navigation.go:145-148 | the configured skip of any sign, or 1 once no more than that many pages remain; at least 1 for a positive skip |
| Scenes.FirstStopFacts | navigation.go:150-157 | the grid walk stops at the first grid page that is not near, or at the end |
| Scenes.LastNotFarFacts | navigation.go:164-173 | the walk back stops at the last page that is not far |
| Scenes.FirstStopDownFacts | navigation.go:195-202 | the downward grid walk stops at the first grid page that is not near |
| Scenes.FirstNotFarFacts | navigation.go:209-218 | the walk forward stops at the first page that is not far |
| Scenes.ForwardTargetFar | navigation.go:150-176 | a move lands in (pos, len) on a far page right after a near one or the current page, within one stride below the first far grid page, past only near grid pages |
| Scenes.ForwardTargetNone | navigation.go:150-177 | with every page loading, no move exactly when every grid page up to the end is near |
| Scenes.BackwardTargetFar | navigation.go:195-221 | a move lands in [0, pos) on a far page right before a near one or the current page, within one stride of the first far grid page |
| Scenes.BackwardTargetNone | navigation.go:195-222 | with every page loading, no move exactly when every grid page down to 0 is near |
| Scenes.ForwardSearchLands | navigation.go:145-177 | under any skip, a move lands in (pos, len) on a far page right after a near one or the current page; the search spins exactly when the stride is 0 and the next page is near |
| Scenes.BackwardSearchLands | navigation.go:190-222 | the mirror: a move lands in [0, pos) on a far page right before a near one or the current page; spins exactly under a stride of 0 with a near previous page |
| Viewer.DefaultThreshold | config.go:94 | `d/64 > 0.4` holds exactly when `d > 25` |
| Viewer.PageOf | main.go:137-149 | no page outside the archive |
| Viewer.HashAt | navigation.go:120-133 | the cached hash when present; nothing exactly when uncached and the page fails to load |
| Viewer.LayoutFacts | image.go:27-45 | loaded means a left page; the size is (0,0) unloaded, the left page's size single, and (wL+wR, max height) double |
| Viewer.OneWideRule | image.go:151-157 | with both pages and OneWide, single exactly when either page is wider than tall |
| Viewer.DisplayIndices | image.go:65-75 | the two 1-based indices are pos+1 and pos+2, swapped exactly in manga mode |
| Viewer.ScalingRules | image.go:130-149 | fit-to-width and best-fit enlarge only under Enlarge, shrink only under Shrink, and leave a screen-sized picture alone |
| Viewer.FullPath | main.go:102-109 | a loadable path gives a non-empty absolute path |
| Viewer.LastIndexSpec | navigation.go:263-271 | the index of the last equal name, -1 exactly when absent |
| Viewer.FindLast | navigation.go:263-268 | the `which` loop finds the last equal name |
| Viewer.CurArchiveFound | navigation.go:250-273 | a found index is the last listing entry with the open archive's name |
| Viewer.CurArchiveMissing | navigation.go:269-271 | a readable directory without that name gives `ErrCurrentNotFound` |
| Viewer.NameRelListed | navigation.go:278-304 | a non-empty sibling name is a kept archive of the listed directory joined to it |
| Viewer.UpsertExisting | bookmark.go:37-45 | only the first bookmark of the path is replaced |
| Viewer.UpsertNew | bookmark.go:47-52 | without one, exactly one bookmark is appended and nothing else changes |
| Viewer.UpsertUnique | bookmark.go:34-53 | unique paths stay unique, and the new bookmark is present |
| Viewer.FirstWithPath | bookmark.go:37-39 | the loop meets the first bookmark of the path |
| Viewer.UpsertPages | bookmark.go:40-50 | page numbers stay within their page counts |
| Viewer.Clamp | main.go:156-162 | the nearest page in [0, len) |
| Viewer.GUI.constructor | main.go:36-52 | nothing open, on page 0, under any configuration |
| Viewer.GUI.Close | main.go:69-93 | a no-op when nothing is loaded; otherwise archive, name, path, position, hash cache and pictures are reset |
| Viewer.GUI.ShowPage | main.go:171-198 | `setPage`: position `n`, left picture page `n`, right picture page `n+1` only in double-page mode when it exists |
| Viewer.GUI.SetPage | main.go:151-169 | a no-op unloaded; otherwise the clamped target, and nothing changes when that is the current page |
| Viewer.GUI.FirstPage | navigation.go:101-107 | page 0 |
| Viewer.GUI.LastPage | navigation.go:109-118 | the last page, also in double-page mode |
| Viewer.GUI.SkipForward | navigation.go:306-308 | `nSkip` pages on, clamped |
| Viewer.GUI.SkipBackward | navigation.go:310-312 | `nSkip` pages back, clamped |
| Viewer.GUI.RandomPage | navigation.go:36-42 | the given random number modulo the page count |
| Viewer.GUI.NextStep | navigation.go:88-91 | 1 or 2, and 2 only in double-page mode, not forced single, with pos+2 < Len |
| Viewer.GUI.PrevStep | navigation.go:57-60 | 1 or 2, and 2 only in double-page mode past page 1 |
| Viewer.GUI.NextPage | navigation.go:75-99 | unloaded: next archive if seamless; random mode: random page; at the end in seamless mode: next archive; otherwise min(pos+step, Len-1). A seamless switch leaves the viewer unchanged only when `archiveNameRel(1)` fails, and otherwise loads the archive it names |
| Viewer.GUI.PreviousPage | navigation.go:44-73 | the mirror, with one page forward again when the page reached must be shown alone in double-page mode; a seamless switch loads the archive `archiveNameRel(-1)` names, shown from its last page, unless that call fails |
| Viewer.GUI.StepBack | navigation.go:67-72 | the ordinary backward move lands on max(pos-n, 0), or on the page after it when that page must be shown alone and is not the last |
| Viewer.GUI.SettleSingle | navigation.go:69-72 | one page on exactly when double-page mode forces the page shown to stand alone and it is not the last; nothing else but the pictures changes |
| Viewer.GUI.LoadArchive | main.go:95-135 | blank or unresolvable paths change nothing; otherwise the old archive is closed, the path and base name are recorded with an empty hash cache, and a successful open shows page 0 |
| Viewer.GUI.OpenPath | main.go:111-126 | open fails exactly as `NewArchive` fails; an open archive is the one `NewArchive` promises, on page 0 |
| Viewer.GUI.Install | main.go:111-126 | the close, the recorded path and name, the fresh cache, and page 0 of a successful open |
| Viewer.GUI.NextArchive | navigation.go:225-234 | false with nothing changed when `archiveNameRel(1)` fails; otherwise loads the name it gave |
| Viewer.GUI.PreviousArchive | navigation.go:236-246 | the same for `archiveNameRel(-1)`, then the last page |
| Viewer.GUI.CurArchive | navigation.go:250-273 | working-directory and listing errors pass through; otherwise the last index of the open name, or `ErrCurrentNotFound` |
| Viewer.GUI.ArchiveNameRel | navigation.go:278-304 | "" without error when the open archive is not found; "No more archives" outside the listing; otherwise the joined name `i` places away |
| Scenes.ScanForward | navigation.go:145-177 | the walk returns exactly `ForwardSearch`: `ForwardTarget` under a positive stride; under a stride of 0 or less, the next page when it is far, `Spins` under 0 when it is near, otherwise no move |
| Scenes.WalkBack | navigation.go:163-175 | the walk back returns the page after the last near page, or nothing on a load failure |
| Scenes.ScanBackward | navigation.go:190-222 | the walk returns exactly `BackwardSearch`, the mirror of `ForwardSearch` |
| Scenes.WalkUp | navigation.go:208-220 | the walk forward returns the page before the first near page, or nothing on a load failure |
| Viewer.GUI.NextScene | navigation.go:135-178 | no-op without a left picture; otherwise moves to the page `ForwardSearch` lands on, a later page whose hash is beyond the threshold, or stays |
| Viewer.GUI.ProbesOutside | navigation.go:120-131 | no page before 0 or from `Len` on yields a hash, so a walk under a negative stride ends |
| Viewer.GUI.PreviousScene | navigation.go:180-223 | the mirror, to an earlier far page |
| Viewer.GUI.AddBookmark | bookmark.go:34-53 | the bookmark list becomes the upsert of (path, pos+1, Len, now), nothing else changes |

## Left out

- ui.go, the GTK wiring, dialogs, key bindings, status and title strings, `ShowError`, scrolling, `Blit`, cursor hiding, `gc`, `os.Chdir` and the recent-files manager are not part of this model. They are user interface or I/O.
- config.go `Load`/`Save` are JSON I/O. Only the defaults of `Defaults` are kept (`DefaultConfig`), with the float threshold 0.4 as the integer 25.
- Floating point is not modelled:
  - `fit`;
  - the scale factors of `scaledSize`. Only which rule applies is modelled (`ScalingOf`).
- Decoding, the zip reader, `ReadDir`, `os.Stat`, `gdk.PixbufGetFormats` and the `ScaleSimple` rescale in `DHash` are not modelled. They are the functions of `Env`, or parameters.
- `Zip.Close` only forwards to the zip reader and is not modelled. The `Buffer` and `File` size helpers are thin wrappers over the byte and file libraries.
- Viewer.GUI.ImageHash: the two-argument call at main.go:147 does not match the one-argument, read-only `ImageHash` of navigation.go. The navigation.go version is modelled, so the cache is never filled.
- Scenes.ScanForward and Scenes.ScanBackward: under a `SceneScanSkip` of 0, with the neighbouring page near the reference, the source probes that page forever. The model returns `Spins` instead of looping, and `NextScene` and `PreviousScene` then leave the viewer unchanged; the hang itself is not modelled.
- Viewer.GUI.ShowPage requires an existing page. Every caller passes one.
- Viewer.GUI.AddBookmark requires an open archive. The source dereferences the archive and would panic without one.
- Viewer.ForceSingle treats a missing left page next to a present right page as "not wide". The source would dereference a nil picture there.
- ArchiveUtil.ListArchives returns an error alone. On a stat failure the source also returns the names gathered so far, which every caller discards.
- ArchiveUtil.ListArchives sorts the archives by lower-cased byte order, as archive/util.go:89,129 does, not by natural order.
  - Names that differ only in case are tied under this order, so their relative order is not fixed.
  - `CurArchiveResult` and `NameRelResult` therefore allow any listing `ListArchives` may return.
- Viewer.GUI.ArchiveNameRel lists the directory twice, once directly and once inside `curArchive`, as the source does. Both listings are taken from the same `Env`, so a directory changing between the two reads is not modelled.
- Strings.Join concatenates with one separator. It does not apply `filepath.Clean` (no `..` or duplicate-slash removal).
- Strings.ToLower and Strings.IsBlank handle ASCII only. Unicode case folding and Unicode white space are not modelled.
- The bookmarks live on `GUI` rather than on the configuration object. Saving them is I/O.
- Viewer.GUI.OpenPath opens the archive before closing the old one. The source does it the other way round; opening reads nothing of the viewer state, so the outcome is the same.
- Scenes.ScanForward and Scenes.ScanBackward take the per-page comparison (`ImageHash(k)` against the reference and the threshold) as a probe function built by `Prober`. `NextScene` and `PreviousScene` pass it in.
