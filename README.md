# XPhoto gallery scripts in Dafny

This project models the three Node scripts behind the XPhoto photo site:

- **update-gallery.js**, the gallery generator. It walks `dist/assets` recursively. It keeps the files whose lower-cased extension is `.jpg`, `.jpeg`, `.png`, `.gif` or `.webp`, and skips the directories `__MACOSX`, `.DS_Store` and `node_modules`. It splits the images into pages of 16:
  - It deletes the `gallery_page_*.html` files an earlier run left in `dist`.
  - It splices page 1 into `index.html`, between the grid's start marker and the footer marker.
  - It writes pages 2..t as `dist/gallery_page_<p>.html`, each with previous and next links.
  - It writes `dist/gallery-info.json`.
- **watch-raw-images.js**, the before/after builder. It pairs each `<title>_before.jpg` in `dist/assets/raw` with its `<title>_after.jpg` and numbers the pairs from 1. It keeps the pan link an earlier `raw-config.json` held for the same title. It rebuilds on every `.jpg` change notification.
- **watch-gallery.js**, the gallery watcher. A directory watcher forwards changes to image files. A 1000 ms debounce timer runs the generator as a child process. A busy flag keeps two runs from overlapping, and SIGINT/SIGTERM stop everything.

The file system, the clock, timers and child processes are inputs or events:
- A directory is a `Listing` of entries, each classified the way `statSync` reports it.
- A failing `readdirSync`, `statSync` or `unlinkSync` is part of the input.
- Deletions and written files are returned as values.
- Timer expiry, a child's `close`/`error` and signals are events of a state machine.

Modules, one per concern:

- `text.dfy`:
  - `Wrappers` holds `Option`.
  - `Text` holds the JavaScript string and array operations the scripts use: `indexOf`, `replace` with a string pattern, a global one-character replace, `toLowerCase`, `join`, number formatting and `filter`.
- `paths.dfy` (`Paths`): Node's `path.extname` and `path.basename`, alt text, and the relative path with backslashes turned into slashes.
- `scanner.dfy` (`Scanner`): `scanImages`, as a specification function and as the loop that implements it.
- `pagination.dfy` (`Pagination`): page count and page slices.
- `render.dfy` (`Render`): the page value (title, navigation, image blocks), page file names and link targets, and the printed HTML.
- `splice.dfy` (`Splice`): the two-marker rewrite of `index.html`.
- `gallery.dfy` (`Gallery`): `cleanOldGalleryPages`, `generateGalleryInfo`, the page-writing loop and the generator's `main`.
- `rawpairs.dfy` (`RawPairs`): `updateConfig` and the raw watcher's event filter.
- `watcher.dfy` (`Watcher`): the watcher state machine, with two classes following it.
  - The class `GalleryWatcher` holds the script's module-level variables.
  - The class `SimpleWatcher` is the directory-watcher object.

## Model

| member | source | states |
|---|---|---|
| Text.IndexOf | update-gallery.js:275-276 | `indexOf`: -1 exactly when the marker does not occur; otherwise the marker occurs at the result and at no earlier position |
| Text.ReplaceChar | update-gallery.js:41 | the global replace of one character: same length, each position replaced or kept, and no backslash left |
| Text.ToLower | update-gallery.js:36 | lower-casing keeps the length, leaves no upper-case letter, turns each upper-case letter into its lower-case partner and keeps every other character |
| Text.ToLowerIdempotent | update-gallery.js:36 | lower-casing twice is lower-casing once |
| Text.NatToString | update-gallery.js:377 | the decimal form of the page number: non-empty, all digits, one digit exactly below 10 |
| Text.NatToStringInjective | update-gallery.js:377 | different page numbers print differently |
| Text.Filter | update-gallery.js:300 | `filter` never returns more names than it was given |
| Text.FilterMembership | update-gallery.js:300 | a name survives the filter exactly when it was listed and satisfies the test |
| Text.FilterAppend | watch-raw-images.js:16 | filtering distributes over concatenation, so listing order is kept |
| Paths.LastIndexOfIsLast | update-gallery.js:36 | `lastIndexOf`: the position of the last occurrence, or -1 exactly when there is none |
| Paths.BaseNameIsLastSegment | update-gallery.js:65 | the last path segment: no slash in it, and it ends the path |
| Paths.ExtnameShape | update-gallery.js:36 | `path.extname`: empty, or a dot followed by no other dot and shorter than the last segment; it ends the name and holds no slash |
| Paths.ExtnameOfDotted | update-gallery.js:36 | a plain name made of a stem without dots and a dot-led suffix has that suffix as its extension |
| Paths.LastIndexBeforeLowered | update-gallery.js:36 | lower-casing moves no `/` or `.`, so their last positions are unchanged |
| Paths.LoweredSuffix | update-gallery.js:36 | lower-casing commutes with taking a suffix |
| Paths.BaseNameLowered | update-gallery.js:36 | the last segment of the lowered path is the lowered last segment |
| Paths.ExtOfNameLowered | update-gallery.js:36 | the extension of a lowered name is the lowered extension |
| Paths.ExtnameLowered | update-gallery.js:36 | `path.extname` commutes with `toLowerCase` |
| Paths.AltText | update-gallery.js:65 | the alt text followed by the extension is the file name; non-empty when there is an extension |
| Paths.RelativePath | update-gallery.js:38-41 | the relative path with the platform separator holds no backslash |
| Paths.PathIndependentOfSeparator | update-gallery.js:41 | on POSIX and on Windows separators the stored path is the same slash-joined path |
| Scanner.ScanImages | update-gallery.js:18-54 | the recursive scan returns exactly the records of the specification scan; an unreadable directory gives none |
| Scanner.ScanListing | update-gallery.js:24-48 | the loop over one listing returns exactly the records the listing contributes, stopping at the first stat error |
| Scanner.ScanEntry | update-gallery.js:28-46 | one entry adds the records of its sub-directory, itself as an image, or nothing |
| Scanner.ScanEntriesCons | update-gallery.js:24-48 | a listing contributes its first entry's records ahead of the rest |
| Scanner.FileBecomesRecordIff | update-gallery.js:35-46 | a file becomes one record exactly when its lower-cased extension is allowed |
| Scanner.ImageTestIgnoresCase | update-gallery.js:36-37 | a name is an image exactly when its lower-cased spelling is |
| Scanner.UpperCaseSpellingsSupported | update-gallery.js:36-37 | `.JPG` and `.Jpeg` lower to supported extensions |
| Scanner.UpperCaseExtensionIsImage | update-gallery.js:36-37 | `stem.JPG` and `stem.Jpeg` are images for any plain stem |
| Scanner.ExcludedDirContributesNothing | update-gallery.js:28-32 | an excluded directory adds nothing, whatever it contains |
| Scanner.StatFailureKeepsCollected | update-gallery.js:21-53 | a stat error keeps the records collected before it in that directory and ends that directory's scan without failing |
| Scanner.ScanEntriesAppend | update-gallery.js:24-48 | entries contribute their records in listing order |
| Scanner.ScanEntriesStep | update-gallery.js:24-48 | one more successfully stat-ed entry appends its own contribution |
| Scanner.ScanWellFormed | update-gallery.js:18-54 | every record has an allowed extension, a backslash-free path that spells its location below the root, and no excluded directory on the way |
| Scanner.ScanEntriesWellFormed | update-gallery.js:24-48 | the same for the records of one listing |
| Scanner.ContributionWellFormed | update-gallery.js:28-46 | the same for the records one entry contributes |
| Scanner.DeeperWellFormed | update-gallery.js:30-34 | a record found below a non-excluded directory is well formed one level up |
| Scanner.RecordAtStep | update-gallery.js:34-39 | descending into a directory moves its name from the path to the directories above without changing the record |
| Scanner.ContributionInScan | update-gallery.js:24-48 | an entry reached before any stat error contributes its records between those of the entries around it |
| Scanner.PresentIsFound | update-gallery.js:18-54 | every image present in the tree (reached before a stat error, below no excluded directory, with an allowed extension) is a record of the scan |
| Scanner.FoundInReachedEntry | update-gallery.js:24-48 | every record of a listing comes from one entry reached before any stat error |
| Scanner.FoundIsPresent | update-gallery.js:18-54 | every record of the scan is an image present in the tree at the record's location |
| Scanner.FoundInEntryIsPresent | update-gallery.js:28-46 | every record one entry contributes is present in that entry |
| Scanner.ScanIsExactlyPresent | update-gallery.js:18-54 | a path gives a record of the scan if and only if that image is present, and every record is such a record |
| Pagination.TotalPages | update-gallery.js:361 | `Math.ceil(n / k)`: the fewest pages of k that hold n images; zero exactly for no images |
| Pagination.FirstPagesArePrefix | update-gallery.js:371-374 | the first j pages in order are the first min(j*k, n) images |
| Pagination.PagesCoverImages | update-gallery.js:371-374 | all pages in order are exactly the image list |
| Pagination.FlattenCons | update-gallery.js:371-374 | joining pages in front of a page list is the page followed by the joined list |
| Pagination.FlattenSliceSnoc | update-gallery.js:371-374 | joining a run of pages is the run without its last page followed by that page |
| Pagination.LaterPagesJoin | update-gallery.js:371-374 | pages 2..j joined in order are the images from k up to min(j*k, n) |
| Pagination.LaterPagesAreTheRest | update-gallery.js:366-374 | pages 2..t joined in order are every image after the first page |
| Pagination.PageSizes | update-gallery.js:372-374 | every page holds 1..k images; the last holds what is left |
| Pagination.ThirtyThreeImages | update-gallery.js:361 | 33 images make 3 pages, the last with one image |
| Render.NavRules | update-gallery.js:81-90 | no navigation for one page; a previous link exactly from page 2 on (the root document from page 2); a next link exactly before the last page |
| Render.PageFileNameInjective | update-gallery.js:377 | distinct pages get distinct file names |
| Render.PageTargetInjective | update-gallery.js:85-87 | every link target names one page only |
| Render.NextThenPrevReturns | update-gallery.js:85-87 | the page linked as next links back as previous |
| Render.GalleryBlocksFollowImages | update-gallery.js:60-77 | block i links to `assets/<path>` of image i with its alt text; the title is the page's |
| Render.IndexRegionShape | update-gallery.js:244-269 | the root document gets the first min(16, n) images under `dist/assets/` and, beyond one page, a next link to `dist/gallery_page_2.html` only |
| Splice.Region | update-gallery.js:282 | the inserted region starts and ends with a newline |
| Splice.SpliceBetween | update-gallery.js:275-288 | written exactly when both markers occur; the result is the head through the first start marker, the region, and the tail from the first end marker |
| Splice.SpliceReplacesOnlyTheRegion | update-gallery.js:278-282 | with the markers in order, only the text between them changes |
| Splice.StartMarkerStays | update-gallery.js:275-279 | after the rewrite the first start marker is where it was |
| Splice.EndMarkerFollowsRegion | update-gallery.js:276-282 | after the rewrite the first end marker is the one opening the kept tail |
| Splice.SpliceBetweenIdempotent | update-gallery.js:275-284 | for any markers in order, rewriting the rewritten document with the same region gives it back unchanged |
| Splice.SpliceIdempotent | update-gallery.js:272-288 | when the start marker comes before the first footer marker and the region holds no footer marker, rewriting the root document again with the same region changes nothing |
| Gallery.StalePagesExactly | update-gallery.js:300 | exactly the listed `gallery_page_*.html` names are selected |
| Gallery.GeneratedPagesAreStale | update-gallery.js:377 | every page file a run writes is selected for deletion by the next run |
| Gallery.CleanOldGalleryPages | update-gallery.js:297-310 | deletes the selected names in order up to the first failing one; nothing when the listing fails; all of them when no deletion fails |
| Gallery.GenerateGalleryInfo | update-gallery.js:315-326 | the manifest counts the images and lists each one, in order, as name, path and size |
| Gallery.ManifestOfScan | update-gallery.js:316-325 | the manifest of a scan has ceil(n/16) pages and only allowed, backslash-free images |
| Gallery.PlannedPages | update-gallery.js:371-380 | pages 2..n-1 in order, page p named `gallery_page_<p>.html` and holding the page built from its slice for p of t |
| Gallery.PlannedPageNamesDistinct | update-gallery.js:377-380 | no two written pages share a file name |
| Gallery.GeneratePages | update-gallery.js:369-383 | the page loop writes exactly the planned pages 2..t |
| Gallery.RunUpdate | update-gallery.js:336-392 | exit code 1 exactly when assets are missing; nothing written exactly when there are no images; otherwise clean, root document, pages and manifest as specified for the scan |
| Gallery.WriteOutputs | update-gallery.js:355-389 | for a non-empty scan: the stale pages deleted, the root document rewritten with page 1, pages 2..t written and the manifest generated |
| Gallery.GalleryBlocksAppend | update-gallery.js:58-78 | the blocks of two image lists are the blocks of the first followed by those of the second |
| Gallery.PlannedBlocks | update-gallery.js:369-383 | the blocks of pages 2..n-1 in order are the blocks of the images those pages slice out |
| Gallery.IndexShowsFirstImages | update-gallery.js:244-258 | the root document's blocks are the first min(16, n) images, in order |
| Gallery.PageFilesShowTheRest | update-gallery.js:369-383 | the blocks of the written pages, in order, are those of every image after the first 16 |
| Gallery.RunShowsEveryImageOnce | update-gallery.js:360-383 | the root document shows the first min(16, n) images and the written pages show the rest, each once and in scan order |
| RawPairs.BuildPanLookup | watch-raw-images.js:17-28 | the loop that fills `oldConfig` gives the specified title-to-pan table |
| RawPairs.NoPriorManifestNoPanLinks | watch-raw-images.js:17-28 | a missing, unparsable or array-less manifest gives every pan link as empty |
| RawPairs.NullItemStopsFold | watch-raw-images.js:19-27 | an item that throws ends the fill; what was filled before it stays |
| RawPairs.FoldAppend | watch-raw-images.js:23-25 | the fill over two parts is the fill over the first, continued over the second |
| RawPairs.FoldKeepsOtherTitles | watch-raw-images.js:23-25 | items with other titles leave a title's entry alone |
| RawPairs.FoldKeepsOtherTitlesOrSets | watch-raw-images.js:23-25 | a title in the table stays in it |
| RawPairs.FoldConsistent | watch-raw-images.js:23-25 | items whose pan link depends only on the title give a table with exactly those links |
| RawPairs.LastTitleWins | watch-raw-images.js:23-25 | with repeated titles the last item decides the pan link |
| RawPairs.Entries | watch-raw-images.js:35-42 | one entry per pair, entry k numbered k+1, with its title, paths, empty description and carried pan link |
| RawPairs.EntriesSnoc | watch-raw-images.js:35-42 | one more pair appends its entry with the next id |
| RawPairs.UpdateConfig | watch-raw-images.js:14-44 | the loop with its id counter writes exactly the specified entries |
| RawPairs.ConfigEntriesArePairs | watch-raw-images.js:29-44 | entry k has id k+1 and is built from a listed before-image whose partner is listed; there are no more entries than before-images |
| RawPairs.EveryPairListed | watch-raw-images.js:31-34 | every listed before-image with a listed partner gets an entry |
| RawPairs.PanLinkKept | watch-raw-images.js:41 | an entry's pan link is the one the earlier manifest recorded last for its title |
| RawPairs.NewPairHasNoPanLink | watch-raw-images.js:17-41 | a pair whose title no earlier item had gets an empty pan link |
| RawPairs.TitleStripsSuffix | watch-raw-images.js:32-33 | when the suffix occurs only at the end, the title is the name without it and the partner is title + `_after.jpg` |
| RawPairs.PlainTitleStripsSuffix | watch-raw-images.js:32-33 | the same for titles without an underscore |
| RawPairs.FirstOccurrenceIsRemoved | watch-raw-images.js:32 | `replace` removes the first occurrence, so a second one stays in the title |
| RawPairs.AfterIsNotBefore | watch-raw-images.js:16 | an after-image is never taken for a before-image |
| RawPairs.UnpairedBeforeIsSkipped | watch-raw-images.js:31-44 | with x_before, x_after and y_before listed, only x is written, as entry 1 |
| RawPairs.RebuildIsStable | watch-raw-images.js:14-45 | rerunning with the manifest just written writes the same manifest, so pan links survive |
| RawPairs.PairFilesTrigger | watch-raw-images.js:53-58 | both halves of a pair trigger a rebuild; writing `raw-config.json` does not |
| Text.IncludesIsMembership | watch-gallery.js:55 | `includes` is list membership |
| Watcher.ForwardsExactlyImages | watch-gallery.js:49-57 | the callback forwards exactly the names the generator keeps as images; a missing name is ignored |
| Watcher.NoExtensionNotImage | watch-gallery.js:49-55 | an empty name is never an image |
| Watcher.ForwardedChange | watch-gallery.js:104-114 | a forwarded change re-arms the timer and changes nothing else |
| Watcher.Launch | watch-gallery.js:119-146 | exit code 1 exactly when a required file is missing; otherwise one update running and no timer pending |
| Watcher.StepPreservesInv | watch-gallery.js:71-99 | every event keeps the busy flag equal to "one update live" and never two live |
| Watcher.RunPreservesInv | watch-gallery.js:71-114 | over any trace, at most one update process runs at a time |
| Watcher.BurstCoalesces | watch-gallery.js:104-114 | a burst of changes leaves one timer, due one delay after the last change, and starts nothing |
| Watcher.EarlyTickIgnored | watch-gallery.js:111-113 | before its due time the timer does nothing |
| Watcher.DueTickStartsOrDrops | watch-gallery.js:71-83 | a due timer is consumed and either starts one update or, while one runs, is skipped with no other change |
| Watcher.StoppedStaysStopped | watch-gallery.js:149-166 | after a signal nothing changes any more |
| Watcher.UpdatesNeedTicks | watch-gallery.js:71-114 | every started or skipped update is caused by a timer firing |
| Watcher.CloseChangesRegenerateOnce | watch-gallery.js:104-114 | two image changes 200 ms apart regenerate once |
| Watcher.FarChangesRegenerateTwice | watch-gallery.js:71-114 | two image changes 1500 ms apart, the first run finishing in between, regenerate twice |
| Watcher.BusyTriggerIsLost | watch-gallery.js:72-75 | a trigger while an update runs is dropped and not retried |
| Watcher.GalleryWatcher.Launched | watch-gallery.js:140-146 | the watcher starts with the initial update running and a fresh directory watcher started on `./dist/assets` |
| Watcher.GalleryWatcher.HandleFileChange | watch-gallery.js:104-114 | the fields change as the debounce step says |
| Watcher.GalleryWatcher.ExecuteUpdate | watch-gallery.js:71-83 | the fields change as the single-flight step says |
| Watcher.GalleryWatcher.OnChildExit | watch-gallery.js:85-98 | the fields change as the close/error step says |
| Watcher.GalleryWatcher.OnTick | watch-gallery.js:111-113 | the fields change as the timer step says |
| Watcher.GalleryWatcher.OnSignal | watch-gallery.js:149-166 | the fields change as the shutdown step says and the directory watcher is stopped |
| Watcher.GalleryWatcher.Deliver | watch-gallery.js:71-166 | one event changes the fields as the state machine says; the directory watcher is stopped exactly when the event stops the script |
| Watcher.GalleryWatcher.DeliverAll | watch-gallery.js:71-166 | a trace of events changes the fields as the state machine's run says; the directory watcher is stopped exactly when the trace stops the script |
| Watcher.WatchOperationsKeepHandlesValid | watch-gallery.js:28-65 | open handles stay distinct, fresh and unclosed under every watcher operation |
| Watcher.WatchDirRegistersOnSuccess | watch-gallery.js:44-65 | a fresh handle is registered exactly when the directory exists and the watch succeeds; otherwise nothing changes |
| Watcher.StartIsIdempotent | watch-gallery.js:28-33 | starting twice is starting once |
| Watcher.FreshStartWatchesDirectory | watch-gallery.js:28-33 | a fresh start watches its directory with one handle exactly when the watch succeeds |
| Watcher.StopClosesEverything | watch-gallery.js:35-42 | after stop nothing is open, the watching flag is down and every open handle is closed |
| Watcher.SimpleWatcher.constructor | watch-gallery.js:21-26 | a new watcher has no handles and is not watching |
| Watcher.SimpleWatcher.WatchDirectory | watch-gallery.js:44-65 | the fields change as the watchDirectory step says |
| Watcher.SimpleWatcher.Start | watch-gallery.js:28-33 | the fields change as the start step says |
| Watcher.SimpleWatcher.Stop | watch-gallery.js:35-42 | closing the handles one at a time gives the stop step's state |

## Left out

- File system, clock, processes and console output. Listings, stat results, failing calls, the manifest timestamp and the existence checks are inputs. Writes and deletions are returned values. Log messages are not modelled.
- Splice.SpliceIdempotent: assumes the region holds no footer marker. An image whose name holds `  <!-- Footer -->` puts that marker into the region, and a second run then cuts the document at the copy inside the region, so the source's rewrite is not idempotent for such names either.
- Render.RenderGalleryPage and Render.IndexImageHtml: they stand in for the HTML template text and carry no contract. What the pages show is stated on the page values they print.
- The verbatim HTML template text of the generated pages and of the root document's image blocks. Short constants stand in for it. The pieces that depend on the data are spelled out: title, navigation, hrefs and alt text.
- JSON text. The manifests are modelled as values. JSON parsing and pretty printing are not modelled, and neither are non-string JSON values for `title` or `panUrl`.
- `stat.mtime` and the `fullPath` field's platform prefix. `fullPath` is kept as the list of names below the scan root.
- Platform path rules. Paths are POSIX-style: `path.extname` on the last `/` segment, and a relative path is the names joined by the platform separator, then slash-normalised. Drive letters, `..` segments and symbolic-link cycles are not modelled.
- The writes of `index.html`, page files, `gallery-info.json` and `raw-config.json` are taken to succeed. A failing write is not modelled: in the source it is either caught and logged, or it ends the process.
- `readdirSync` failing on the raw directory. It ends watch-raw-images.js, and the model takes the listing as given.
- Object-prototype keys such as `constructor` or `__proto__` used as titles. For such a title `oldConfig[prefix]` is an inherited value, not a missing one.
- Non-ASCII case folding. `toLowerCase` is ASCII lowering. This cannot change which names are images: the only non-ASCII character that lowers to an ASCII letter is the Kelvin sign, which lowers to `k`, and no allowed extension contains `k`.
- Watcher.Exited: a `close` or `error` from a child that is not live is ignored. A child that fails to spawn reports both `error` and `close`; the source clears the busy flag on each, and since the flag is already down the second report changes nothing, which is what ignoring it gives. A report that arrives after a later child has started is not modelled: the model ignores it, while the source would clear the flag of the running child.
- Watcher.WatchState: `dropped` counts skipped triggers. It is an observation the source does not store, and the source's fields are unchanged by a skipped trigger. After a timer fires, `watchTimeout` still holds the fired timer in the source, but the model holds None. Both behave the same, because clearing a fired timer does nothing.
- Watcher.GalleryWatcher.OnSignal: `process.exit(0)` is modelled as a stopped state that ignores all later events. Children still running are not followed further.
- Watcher.GalleryWatcher: the directory watcher's change callback is not wired to the watcher object. File changes reach the state machine as events of the trace, so the callback and the `handleFileChange` it calls are modelled separately.
- Real time. Timer expiry is an event carrying the clock reading, and the trace decides when ticks happen.
