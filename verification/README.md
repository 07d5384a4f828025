# Photo gallery core, modelled in Dafny

This project models the server-side core of a single-file PHP photo gallery
(`index.php`). The core takes a raw listing of the media directory. It keeps
the image files and orders them in case-insensitive natural order to form the
catalog. It then cuts one page of 20 out of the catalog, builds a metadata
record for each file on that page, and lays out the bar of page links. On
`?download=all` it instead adds every catalog file that is still a regular
file to a zip archive.

Everything is stated over immutable sequences and pure functions. The outside
world is passed in as parameters:

- `scandir` is a `listing: seq<string>`;
- `is_file`, the size text, the date text and `exif_read_data` are fields of
  `Metadata.FileSystem`;
- whether the zip writer opens is a `zipOpens: bool`;
- whether the directory check passes is a `readable: bool`.

Modules:

- `Text`: ASCII case mapping, digit runs, `basename`, and the extension part of `pathinfo`.
- `NatOrder`: the natural order on names, with its order properties.
- `Scanner`: the extension filter, the sort, and the catalog.
- `Paginator`: the page count, the `(int)` cast of `?page=`, clamping, and the page slice.
- `Metadata`: `buildMeta` and the per-page loop.
- `Archive`: which files go into the zip, and what happens to the temporary file.
- `Links`: the page-link bar, in whole-number semantics.
- `PhpNumbers`: the same bar with PHP's int/float distinction, showing the lost current-page marker.
- `Gallery`: one request end to end.
- `Basics`: `Option`, `Min`, `Max`.

## Model

| member | source | states |
|---|---|---|
| `Text.Extension` | index.php:22 | the extension is the text after the last `.` of the base name, contains no `.` or `/`, and is empty when the base name has no `.` |
| `Text.ExtensionOfName` | index.php:22 | the extension of `stem.ext` is `ext` when `ext` holds no `.` and neither part holds `/` |
| `Text.Lower` | index.php:22 | `strtolower` on ASCII: same length, each character lower-cased at the same position |
| `Text.Basename` | index.php:46 | the base name contains no `/`, and a path without `/` is its own base name |
| `Text.BasenameOfJoin` | index.php:46 | a name without `/` appended to a directory ending in `/` has itself as base name |
| `Scanner.Keep` | index.php:21-23 | the entry test: a name is kept iff it is neither `.` nor `..` and the strict scan finds its lower-cased extension among jpg, jpeg, png, gif, webp (a predicate without a contract; `KeptByExtension` and `InArrayIsMembership` state its meaning) |
| `Scanner.Filter` | index.php:19-26 | a name is kept iff it is not `.`/`..` and its lower-cased extension is jpg, jpeg, png, gif or webp; each kept name occurs exactly as often as in the listing, dropped names not at all, so nothing is added |
| `Scanner.FilterByAppend` | index.php:20-25 | filtering a listing split in two is filtering each part, for any test and so for the extension test: kept names keep their listing order |
| `Scanner.InArrayIsMembership` | index.php:23 | the strict `in_array` scan succeeds exactly for members of the list |
| `Scanner.KeptByExtension` | index.php:21-23 | whether `stem.ext` is kept depends on the lower-cased `ext` alone |
| `Scanner.UpperCaseExtensionKept` | index.php:22-23 | `A.JPG` is kept because the extension is lower-cased before the test |
| `Scanner.DropNotes` | index.php:22-23 | `notes.txt` is dropped |
| `Scanner.InsertCounts` | index.php:28 | inserting one name adds exactly that name, once, and the result starts with it or with the old first name |
| `Scanner.InsertKeepsSorted` | index.php:28 | inserting into a naturally ordered sequence leaves it ordered |
| `Scanner.Sort` | index.php:28 | the stable insertion sort standing for `natcasesort`; its own contract keeps the length, and `SortCorrect` and `SortStable` state permutation, order and stability |
| `Scanner.SortCorrect` | index.php:28-29 | the sorted catalog is a permutation of its input and each name is in natural order with the next |
| `Scanner.InsertAfterTies` | index.php:28 | an inserted name lands after every name already present that ties with it |
| `Scanner.SortStable` | index.php:28-29 | the sort is stable: for any name `y`, the names tying with `y` (such as `a.jpg` and `A.jpg`) appear in the sorted catalog in listing order |
| `Scanner.Catalog` | index.php:19-29 | the catalog holds exactly the kept names, with their listing multiplicities, in natural order |
| `Scanner.SortedIsSortedAll` | index.php:28 | neighbour order extends to every earlier/later pair, by transitivity of the order |
| `Scanner.CatalogDistinct` | index.php:19-29 | a listing without repeated names gives a catalog without repeats, and the catalog never holds `.` or `..` |
| `Scanner.SortExample` | index.php:28-29 | `b.png, a.jpg, c10.gif, c2.gif` sorts to `a.jpg, b.png, c2.gif, c10.gif` |
| `NatOrder.CompareTokens` | index.php:28 | comparison of token sequences yields -1, 0 or 1 and yields 0 exactly for equal sequences |
| `NatOrder.Compare` | index.php:28 | the comparator `natcasesort` uses: it returns -1, 0 or 1, and 0 exactly when the two names read as the same digit-run/case-folded-character tokens |
| `NatOrder.NatLeTotal` | index.php:28 | any two names are comparable, and a name that does not sort before another sorts strictly after it |
| `NatOrder.NatLeTransitive` | index.php:28 | the natural order is transitive |
| `NatOrder.NatTieIffSameTokens` | index.php:28 | two names tie exactly when they read as the same digit-run/character tokens |
| `NatOrder.TokensIgnoreCase` | index.php:28 | lower-casing a name does not change its place in the order |
| `NatOrder.NumericRunsExample` | index.php:28 | `c2.gif` sorts before `c10.gif`: digit runs compare by value |
| `NatOrder.CaseInsensitiveExample` | index.php:28 | `a.jpg` sorts before `B.png`: letters compare without case |
| `Paginator.TotalPages` | index.php:33-34 | the page count is at least 1 and is the least such count whose pages hold all `n` items |
| `Paginator.IntCast` | index.php:36 | a query value with no leading sign or digit (after whitespace) casts to 0 |
| `Paginator.IntCastRoundTrip` | index.php:36 | casting the decimal spelling of a number, with or without a minus sign, gives the number back |
| `Paginator.RequestedPage` | index.php:36 | a missing `page` parameter reads as page 1; a present one reads as its integer cast |
| `Paginator.RequestedPageMeaning` | index.php:36-37 | once clamped: no `page` parameter, or one without a leading number, shows page 1; the decimal spelling of an existing page shows that page; a negative number shows page 1 |
| `Paginator.ClampPage` | index.php:37 | the clamped page lies in `[1, total]`; an in-range request is kept, a low one becomes 1, a high one becomes `total` |
| `Paginator.ArraySlice` | index.php:40 | the slice starts at the offset, holds `min(len, n - offset)` items (none past the end) and copies them in order |
| `Paginator.Offset` | index.php:39 | the offset of a page is a multiple of 20 with exactly `page - 1` pages of 20 before it |
| `Paginator.PageFiles` | index.php:39-40 | a page holds at most 20 files, `min(20, n - offset)` of them, is empty iff the catalog is, and is the catalog read from `(page-1)*20` |
| `Paginator.AllPagesRebuildCatalog` | index.php:33-40 | pages 1 to the last, concatenated in order, are exactly the catalog |
| `Paginator.PositionOnPage` | index.php:39-40 | catalog item `i` is item `i mod 20` of page `i div 20 + 1`, and that page exists |
| `Paginator.PaginationExamples` | index.php:33-40 | 45 items: 3 pages, page 3 holds 5 items from offset 40; an empty catalog has one empty page |
| `Paginator.DefaultPageExamples` | index.php:36-37 | no `page` parameter, or `page=abc`, shows page 1 |
| `Paginator.PageNinetyNineExample` | index.php:36-37 | `?page=99` on 45 items shows page 3 |
| `Metadata.FieldOr` | index.php:55-56 | the `?? ''` default: the value under the key when present, the empty string otherwise |
| `Metadata.ReadCapture` | index.php:51-59 | capture data is produced iff the reader exists and returns a non-empty array |
| `Metadata.BuildMeta` | index.php:44-62 | filename is the base name; size and time are `-` exactly when the path is not a regular file, and otherwise the size text with ` KB` and the date text; `camera`/`taken` are present iff the reader succeeds, and are then `Make + " " + Model` and `DateTimeOriginal`, each missing value being empty |
| `Metadata.CaptureIsIsolated` | index.php:44-61 | two worlds that agree on the file's regularity, size and date give records equal in every field but the capture data |
| `Metadata.MakeOnlyExample` | index.php:55-56 | metadata naming only the maker gives camera `"Canon "` and taken `""` |
| `Metadata.BuildPageMeta` | index.php:64-67 | one record per page file, in page order: record `i` is the `buildMeta` record of `dir + files[i]` (so size and date are `-` exactly for non-regular files, and capture data is present exactly when the reader succeeds); its filename is file `i` |
| `Archive.Selected` | index.php:83-88 | every archive entry is a regular file added from `dir + name` under its bare name |
| `Archive.SelectedNames` | index.php:83-88 | the archive names are exactly the catalog names that are regular files, never more often than in the catalog |
| `Archive.SelectedInCatalogOrder` | index.php:83-88 | the archive names are the catalog filtered front to back by the `is_file` test: regular files only, in catalog order |
| `Archive.SelectedDistinct` | index.php:83-88 | a catalog without repeats gives an archive without duplicate entries |
| `Archive.AddRegularFiles` | index.php:83-88 | the loop skips non-regular files without stopping and yields the reference selection in catalog order |
| `Archive.ExportAsWritten` | index.php:73-98 | a failed open ends with status 500 and leaves the temporary file; otherwise the archive holds the selection and the file is removed |
| `Archive.Export` | index.php:73-98 | as above, with the temporary file removed on both exits; the download is `application/zip` named `gallery-images.zip` |
| `Links.Slots` | index.php:340-343 | the loop yields pages `p..hi` in order and marks exactly the slot equal to the current page |
| `Links.LinkWindow` | index.php:333-348 | Prev is a link to `cur-1` iff `cur > 1`; Next is a link to `cur+1` iff `cur < total`; the `1 …` jump appears iff `cur > 3`; the `… total` jump appears iff `cur < total-2`; the numbered run is `max(1,cur-2)..min(total,cur+2)`, at most 5 items, marking only `cur` |
| `Links.LinkWindowPages` | index.php:338-345 | the page numbers shown increase strictly, are exactly 1, `total` and the run, and pages 1 and `total` each appear exactly once |
| `Links.CurrentMarkedOnce` | index.php:340-343 | exactly one numbered item is marked current, and it is `cur` |
| `PhpNumbers.PhpMax` | index.php:34 | PHP's `max` of two numbers: the larger value, returned as one of the two arguments with its int/float kind; on equal values the first argument |
| `PhpNumbers.PhpMin` | index.php:37 | PHP's `min`: the smaller value, returned as one of the arguments with its kind; on equal values the first argument |
| `PhpNumbers.Add` | index.php:338-340 | adding a whole number (`$p++`, `$currentPage - $range`) changes the value by that amount and keeps the int/float kind |
| `PhpNumbers.TotalPagesAsWritten` | index.php:34 | PHP's page count has the whole-number value and is a float exactly when there are more than 20 items |
| `PhpNumbers.CurrentPageAsWritten` | index.php:36-37 | PHP's current page has the value of the whole-number clamp |
| `PhpNumbers.WindowAsWritten` | index.php:338-343 | PHP renders the pages from `max(1, c-2)` to `min(total, c+2)` around the clamped page `c`, and a marked slot can only be page `c` |
| `PhpNumbers.SlotsAsWritten` | index.php:340-343 | a slot is marked only when the loop counter has the same int/float kind as the current page and the same value |
| `PhpNumbers.MarkerLostExample` | index.php:34-37 | 45 items and `?page=99`: three page links and no current marker |
| `PhpNumbers.MarkerLostExactly` | index.php:34-37 | the marker is missing exactly when the request exceeds the page count and there are 2 or 3 pages |
| `PhpNumbers.AsWrittenAgreesOnNumbers` | index.php:333-343 | apart from the marker, PHP renders the same numbered pages as the whole-number model |
| `Gallery.ServePage` | index.php:33-67 | the view carries the item count, the page count, the clamped page in range, that page's files, the `buildMeta` record of each of those files (at most 20), and the link bar |
| `Gallery.Handle` | index.php:12-98 | an unreadable directory is a 500 and nothing else; `download=all` answers 500 exactly when the zip cannot be opened, removes the temporary file exactly when it could, and otherwise exports the catalog's regular files; any other request gets the page view of the catalog with one `buildMeta` record per page file |
| `Gallery.HandleIntended` | index.php:73-98 | the same request with the corrected export: the temporary file is removed on every exit |

## Left out

- Markup, `htmlspecialchars` and `json_encode` (index.php:102-379) are presentation only.
- The client-side lightbox, slideshow, fullscreen and key handling (index.php:378-464) run in the browser and only consume the record list.
- The `ini_set`/`error_reporting` setup (index.php:2-4) is configuration. The directory check (index.php:12-15) is reduced to the `readable` flag.
- `ZipArchive` itself, compression, `tempnam`, the response headers, `Content-Length`, `readfile` and `unlink` (index.php:73-98) are I/O. They appear only as the entry list, the response kind, the content type (`application/zip`), the offered file name (`gallery-images.zip`) and the `tempRemoved` flag. A client that disconnects during `readfile` can end the script before `unlink`; that is not modelled.
- `filesize`, `filemtime`, `is_file` and `exif_read_data` are fields of `FileSystem`. The KB rounding and the `date` format are opaque text. `Valid` assumes only that a formatted date is never the single character `-`.
- Metadata.BuildMeta: `is_file` is called twice in the source (index.php:47-48). The model reads one snapshot, so it does not show a file vanishing between the two calls. Warnings from `exif_read_data`, non-string EXIF values and `Error`s that `catch (Exception)` would not catch are not modelled. A failed read is `None`.
- NatOrder.Compare: a simplified `strnatcasecmp`. Digit runs compare by value. Other characters compare by ASCII upper-case code. Leading-zero runs (which PHP compares digit by digit) and whitespace skipping are not modelled.
- Scanner.Sort: an insertion sort stands for PHP's hybrid sort. Only the result is modelled, not the comparisons made; both are stable (`Scanner.SortStable`), so they give the same order.
- Paginator.IntCast: only whitespace, sign and leading decimal digits are modelled. Exponent forms (`"1e3"` casts to 1000 in PHP), hexadecimal, array-valued parameters and 64-bit saturation are left out. Saturation keeps the sign, so it would not change the clamped page.
- Text.Basename: PHP's stripping of trailing `/` and locale handling are not modelled. `scandir` names never contain `/`.
- Links.LinkWindow: requires `1 <= cur <= total`. The clamp always establishes this (`Gallery.ServePage`). PHP's int/float behaviour is modelled separately in `PhpNumbers`.
- A sub-directory named `x.jpg` passes the extension test and is kept in the catalog, since only the extension is tested (index.php:21-23). The archive loop's `is_file` test skips it.
- The temporary archive is not removed when the zip cannot be opened (index.php:78-81); `Gallery.Handle` models that, and `Gallery.HandleIntended` the corrected export. See Findings.

## Findings

| source | as written | input that shows it | evidently intended | confidence | as-written member | corrected member |
|---|---|---|---|---|---|---|
| index.php:34-37, index.php:341 | `ceil` makes `$totalPages` a float, and `min`/`max` pass that float on to `$currentPage` when the request is too large. The loop counter `$p` starts as the int `1`, so `$p === $currentPage` never holds | 45 images and `?page=99` (any request beyond a 2- or 3-page catalog) | the current page is marked in the link bar | not executed; high, from PHP's documented `max`/`min`/`===` semantics | `PhpNumbers.MarkerLostExactly` | `Links.CurrentMarkedOnce` |
| index.php:76-80 | when `$zip->open` fails, the script exits with 500 without unlinking the file `tempnam` created | the archive writer cannot open the temporary file | the temporary file is removed on every exit | not executed; high | `Archive.ExportAsWritten` | `Archive.Export` |
