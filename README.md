# Nexus asset browser: scan and preview cache

Nexus is a small desktop asset browser. At start-up it walks one asset
directory and keeps the image files (extension `.png` or `.jpg`). Each frame,
the left pane lists those files and lets the user select one; the right pane
shows the selected file's name, format and size and a texture preview. Previews
are loaded lazily: the first time a row is shown its file is decoded and
uploaded to a GL texture, and the result is cached under the row's index for
the rest of the run.

This model covers that logic in `src/main.cpp`:

- `asset_scan.dfy` (module `AssetScan`): directory entries, the extension
  test, the scan loop `ScanAssets`, and the filter `ImageFiles` that specifies
  it, with lemmas on membership, order and length.
- `textures.dfy` (module `Textures`): texture previews and the loader
  `LoadTextureFromFile`. The image decoder and the GL name generator are
  parameters: `decode: string -> Option<Image>` gives the decode result for a
  path, and `generated` is the name GL hands out. The loader's three
  out-pointers are given as their values before the call and after it.
- `browser.dfy` (module `Nexus`): class `Browser` holds the scanned `files`,
  the `selected` row and the `previews` cache. A ghost log `loads` records
  every row that was loaded. `Valid()` says four things: the selection is row 0
  or a real row, the list holds only images, the cache is keyed by real rows,
  and each cached row was loaded exactly once. `SelectFromList` models the list
  loop. `ShowSelected` models the item view and its cache step. `Run` models
  the frame loop, and is proved equal to `RunFrames`. That function folds
  `FrameStep`, one frame on values, over the frames. The lemmas about frames
  across a whole run are stated about `RunFrames`.

The directory walk becomes an input sequence of entries. `ImGui::Selectable`'s
answers become a set of clicked rows per frame. `ImGui::Begin`'s answer becomes
a flag per frame. Closing the window ends the sequence of frames.

The cache is keyed by list position (`selected`), as the code keys it, and
not by file path. The list never changes after the scan, so a position always
names the same file.

A failed load hits `IM_ASSERT(ret)`. The model treats this as an abort: it
returns `LoadFailed`, caches nothing and stops `Run`.

## Model

| member | source | states |
|---|---|---|
| AssetScan.ScanAssets | src/main.cpp:137-159 | The scan returns exactly the image entries in walk order (`ImageFiles`). Every kept entry has extension `.png` or `.jpg`. The list never grows beyond the walk. |
| AssetScan.ImageFilesOnlyImages | src/main.cpp:152-155 | Every kept entry has extension exactly `.png` or `.jpg`. |
| AssetScan.ImageFilesKeepsOrder | src/main.cpp:146-158 | The k-th kept entry is the walk's entry at the k-th image position. These positions increase strictly, so walk order is kept. A position is kept iff its entry is an image. |
| AssetScan.ImageFilesMembership | src/main.cpp:146-158 | An entry is in the scanned list iff it is in the walk and has an image extension. |
| AssetScan.ImageFilesLength | src/main.cpp:146-158 | The list is at most as long as the walk. It is exactly as long iff every walked entry is an image. |
| AssetScan.AllImagesKept | src/main.cpp:152-155 | A walk that reports only images is kept whole, in order. |
| AssetScan.ImageFilesIdempotent | src/main.cpp:152-155 | Scanning an already scanned list changes nothing. |
| AssetScan.ImageExtIsExact | src/main.cpp:152-153 | The extension test is exact and case-sensitive, and it includes the dot: `.PNG`, `png`, `.jpeg` and the empty extension are rejected. |
| Textures.LoadTextureFromFile | src/main.cpp:29-61 | The loader returns true iff decoding succeeds. On failure it writes none of the three outputs. On success it writes the new texture name and the decoded width and height. |
| Nexus.AfterSelectionPassSpec | src/main.cpp:193-202 | After the list loop, the selection is unchanged if no row was clicked. Otherwise it is the last clicked row, which is a real row. |
| Nexus.Browser.constructor | src/main.cpp:137-159 | Start-up state: `files` is the scan result, the selection is row 0, and the cache and the load log are empty. The invariant holds. |
| Nexus.Browser.SelectFromList | src/main.cpp:193-202 | The list loop sets the selection to `AfterSelectionPass` of the old selection. The invariant is kept, so the selection stays row 0 or a real row. |
| Nexus.Browser.ShowSelected | src/main.cpp:213-226 | On a cache hit, the cache and the load log are unchanged and the cached preview is shown. On a miss with a decode, the cache gains that one row with the loaded preview. On a miss with a failed decode, the program stops with the cache untouched. Other rows' entries are never changed. When the view is shown, the row is in the cache. |
| Nexus.Browser.Run | src/main.cpp:162-226 | The final selection, cache and views are exactly those of `RunFrames`, and the load log grows by exactly `RunFrames`' loaded rows. It follows that cached previews are never changed or evicted, the run stops at the first failed load, and there are at most as many loads as files. |
| Nexus.FrameStep | src/main.cpp:180-226 | One frame adds exactly one view. It either leaves the cache and loads as they were, or it loads the selected row, which must be a real row missing from the cache, and adds only that key. Entries already cached are never changed. The selection stays row 0 or a real row. |
| Nexus.RunFramesKeepsCache | src/main.cpp:218-226 | No entry cached before a run is changed or evicted by it. |
| Nexus.RunFramesPrefixKeepsCache | src/main.cpp:218-226 | Every entry cached after the first m frames is still cached, unchanged, after any later frame. |
| Nexus.RunFramesLoadsMissingRows | src/main.cpp:218-226 | The rows loaded during a run are real rows, are pairwise distinct, and were not cached before the run. The final cache holds exactly the old rows plus the loaded ones, so each row is loaded at most once. |
| Nexus.RunFramesLoadsBounded | src/main.cpp:218-226 | A run performs at most as many loads as there are files. |
| Nexus.RunFramesStopsAtFirstFailure | src/main.cpp:162-226 | There is at most one view per frame, and only the last view can be a failed load. A run that shows fewer views than it has frames ended on a failed load (`IM_ASSERT`). |
| Nexus.RunFramesStoppedIsFinal | src/main.cpp:221-225 | After a failed load, later frames change nothing. |
| Nexus.RevisitUsesCachedPreview | src/main.cpp:218-226 | From start-up, after one list loop, a second frame showing the same row exists exactly when the first load did not fail. That frame gives the same view as the first, and the preview keeps the first frame's texture name, so there is no second load. This is an instance of `ShowSelected`'s cache-hit case. |
| Nexus.ItemViewFile | src/main.cpp:213 | The item view reads `files[selected]`, which needs `selected` to be a valid row. `ShowSelected` and `FrameStep` read the file through it. |
| Nexus.EmptyScanLeavesNoSelectableFile | src/main.cpp:193-213 | If no walked entry is an image, the initial selection 0 is not a valid row of the scanned list. So `ItemViewFile`'s precondition fails in the start-up state. |

## Findings

| source | as written | input that shows it | evidently intended | confidence | as-written member | corrected member |
|---|---|---|---|---|---|---|
| src/main.cpp:213 | `files[selected]` is read in every frame without checking that `files` is non-empty | an asset directory with no `.png` or `.jpg` entry (or a directory that cannot be opened): `files` is empty, `selected` is 0, and `files[0]` reads past the end of an empty vector | the item view shows nothing when there is no file | not executed; high | Nexus.ItemViewFile, Nexus.EmptyScanLeavesNoSelectableFile | Nexus.Browser.ShowSelected (returns `NoFiles` on an empty list) |

## Left out

- SDL, window and GL context set-up, event polling, ImGui frame and render calls, and the buffer swap (src/main.cpp:65-135, 161-191, 227-298) are UI and I/O plumbing. The model keeps only two per-frame inputs: whether the browser window is drawn and which rows were clicked.
- The `printf` of each walked path (line 150) is I/O.
- The cute_files primitives `cf_dir_open`, `cf_read_file`, `cf_dir_next` and `cf_dir_close` are replaced by an input sequence of entries. The entry's `is_dir`/`is_reg` flags are not modelled because the scan never reads them. A directory named `x.png` would therefore be kept too.
- The GL texture creation and pixel upload in `LoadTextureFromFile` (lines 39-54) and the stb_image decode are foreign calls. Only their results are modelled: the decode result per path and the GL name handed out.
- The aspect-ratio display sizing (lines 234-256) is floating-point UI layout. The `texturePreviewMap[selected]` lookup at line 233 is modelled as the preview in `Shown`.
- The "Details" tab and the Revert/Save buttons are empty UI stubs.
- Nexus.Browser.ShowSelected: models `IM_ASSERT` as enabled. With assertions compiled out, a failed load would cache a `TexturePreview` with uninitialised fields. That build is not modelled.
- Nexus.Browser.SelectFromList: does not model the `int` loop counter overflowing beyond 2^31 - 1 files.
- The unused constants `png` and `jpg` (lines 143-144) have no effect.
- `sqlite3_config.h` holds only build macros. `src/external/headerlibs.cpp` holds only third-party implementation includes. Neither contains logic.
