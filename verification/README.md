# Meme report: extraction and layout model

Two Python scripts make a PDF of a Twitter account's image posts.

`extract_memes_from_twitter_data.py` reads the account archive and works through its first 100 tweets. For every tweet that is not a retweet and has media, it:
- downloads the first media image;
- saves it under a file name made from the tweet's formatted date;
- inserts a `(date, local_file, likes_count)` row into the `memes` table.

`generate_meme_report.py` runs two queries on that table: the 99 most-liked rows and the 99 least-liked rows, counting only rows with a positive like count. Each list becomes a section of the report:
- pages of nine entries;
- on each page, groups of three entries;
- each group becomes four table rows: images, captions `"{rank}. {date}"`, `"Likes: {n}"` labels, and a blank spacer row;
- the rank advances only for entries whose image file exists; a missing image becomes three blank cells;
- the like-count rows are coloured orange.

The Dafny model is split into modules:
- `Records`: the table row.
- `Wrappers`: `Option`.
- `Strings`: `str(int)`, `str.replace`, `os.path.join` and `os.path.basename`.
- `Seqs`: `CeilDiv`, `Chunk`, `Concat`, `Interleave` and `FilterMap`.
- `Ranking`: what the two queries may return. Ties in the like count may come back in any order.
- `Layout`: `process_meme_data`, both as declarative functions and as the source's nested loops (`ProcessMemeData`). The loops are proved to build exactly the declarative layout.
- `LayoutProofs`: the properties of that layout.
- `Extraction`: `process_tweet`, the `main` loop and the prefix strip.
- `Report`: the report's main block, and facts that join the two scripts.

File existence is modelled as a parameter `fileExists`. The date conversion, the HTTP request and the file write are fields of an `Env` parameter.

Some consequences of the code that the model keeps:
- **A tweet without `created_at` stops the whole run.** `process_tweet` binds `date` as the first statement of its `try` (extract_memes_from_twitter_data.py:61). When `created_at` is missing, that lookup raises `KeyError` before `date` is bound. The `except` handler at line 86 formats its message with `date`, so the handler itself raises `UnboundLocalError`. Nothing in `main` catches it: the loop at lines 97-98 stops and the `commit` at line 100 is never reached. An aborted run therefore commits no rows. The image files written before the abort stay on disk (`Extraction.Extract`).
- **A tweet without the `tweet` key also stops the run.** The lookup at line 57 is outside the `try`.
- **The section titles say "Top 100 Memes" and "Bottom 100 Memes", but both queries use `LIMIT 99`.** The model uses 99. `Report.SectionEntry` proves that no rank above 99 is printed.
- **One table style is shared by every table in a section.** It is created once per section and gets more orange rows on every page. When the Nth page's table is styled, the style holds the orange rows of pages 1 to N. This is the `orangeRows` of `Table`; see `LayoutProofs.SharedStyle`.

## Model

| member | source | states |
|---|---|---|
| Ranking.Select | generate_meme_report.py:35-36 | The result is a possible answer of either query. Every row has a positive like count, and the rows are ordered by like count in the query's direction. There are min(99, number of positive rows) of them, each drawn from the table as often as it occurs there at most. No positive row left out ranks ahead of one that was kept. |
| Ranking.TopMemes | generate_meme_report.py:35 | The answer used for the top section is a possible answer of the descending query. |
| Ranking.BottomMemes | generate_meme_report.py:36 | The answer used for the bottom section is a possible answer of the ascending query. |
| Ranking.Sort | generate_meme_report.py:35-36 | The `ORDER BY`: the result is ordered in the requested direction and is a permutation of its input. |
| Ranking.Positive | generate_meme_report.py:35-36 | The `WHERE likes_count > 0` filter: every kept row is positive, and the result is a sub-multiset of the table. |
| Ranking.PositiveKeepsExactly | generate_meme_report.py:35-36 | The filter keeps each positive row as often as the table holds it, and no other row. |
| Ranking.RankedPrefixIsSelection | generate_meme_report.py:35-36 | The first 99 rows of any ordering of the positive rows by like count, in the query's direction, answer the query. |
| Seqs.ChunkConcat | generate_meme_report.py:66 | Concatenating the pages gives back the section. |
| Seqs.ChunkSlice | generate_meme_report.py:66 | Page k is the slice `[9k : 9k + 9]`, clipped at the end of the section. |
| Seqs.ChunkSizes | generate_meme_report.py:66 | Every page but the last has exactly nine entries; the last has between one and nine. |
| Seqs.CeilDivIsCeiling | generate_meme_report.py:66 | The number of pages is ceil(K / 9), equal to (K + 8) / 9. |
| Seqs.CeilDivBound | generate_meme_report.py:82 | Index j of `range(0, k, n)` exists exactly when j·n < k. |
| Layout.SectionLayout | generate_meme_report.py:58-103 | `process_meme_data` returns a list that opens with the spacer, the title and a page break. |
| Layout.EntryCells | generate_meme_report.py:84-93 | An entry adds one caption and one likes label exactly when its image exists, and otherwise none. It adds one image cell when present and three blanks when missing. The rank advances by the number of captions added. |
| Layout.GroupCells | generate_meme_report.py:83-93 | A group adds one caption and one likes label per present entry, and one image cell per present entry plus three per missing one. |
| Layout.PageTable | generate_meme_report.py:81-94 | A page's `table_data`: the four rows of each group of three entries in turn. Its length is stated by `LayoutProofs.PageTableLength` and its rows by `LayoutProofs.PageGroup`. |
| Layout.RangeStep | generate_meme_report.py:97 | Every number of `range(lo, hi, step)` lies in [lo, hi) and is a multiple of `step` above `lo`. |
| Layout.LikesRows | generate_meme_report.py:97 | Every row coloured orange on a page lies inside the table and has index 2 mod 4. |
| LayoutProofs.SectionPages | generate_meme_report.py:66-91 | A section has ceil(K / 9) pages. They concatenate back to the section. Page p is the slice starting at 9p and holds 1 to 9 entries (exactly 9 unless it is last). Page p starts at `starting_rank` plus the number of present entries before it. |
| LayoutProofs.GroupSizes | generate_meme_report.py:82-84 | The groups on a page hold at most three entries each, and exactly three except possibly the last. |
| LayoutProofs.PageTableLength | generate_meme_report.py:82-94 | A page's table has 4·ceil(n / 3) rows. |
| LayoutProofs.PageGroup | generate_meme_report.py:82-94 | The four rows of group j sit at rows 4j to 4j + 3 of the page's table. |
| LayoutProofs.GroupStart | generate_meme_report.py:79-91 | The rank at the start of group j counts every present entry before it on the page. |
| LayoutProofs.EntryCellsContents | generate_meme_report.py:86-93 | A present entry adds its image path, its caption and its likes label, and advances the rank by one. A missing entry adds three blank image cells and nothing else, and keeps the rank. |
| LayoutProofs.GroupCellsContents | generate_meme_report.py:82-94 | A group's caption row numbers its present entries consecutively from the group's rank. Its likes row lists their like counts. Its image row shows their images and three blanks per missing entry. |
| LayoutProofs.PresentEntriesAreFiltered | generate_meme_report.py:87 | The entries that get a rank are exactly the entries whose image exists. |
| LayoutProofs.SectionContents | generate_meme_report.py:79-102 | Across all tables of a section, the captions number the present entries `starting_rank, starting_rank + 1, …` with no gap. The likes labels give those entries' counts in the same order. The images are theirs. There are three blanks per missing entry. |
| LayoutProofs.FinalRank | generate_meme_report.py:79-91 | After the last page, the rank equals `starting_rank` plus the number of present entries. |
| LayoutProofs.PagesContentLength | generate_meme_report.py:80-102 | Each page contributes exactly two flowables. |
| LayoutProofs.PagesContentAt | generate_meme_report.py:80-102 | Flowable 2q of the page part is page q's table, styled with the orange rows of pages 0 to q. Flowable 2q + 1 is a page break. |
| LayoutProofs.SectionShape | generate_meme_report.py:63-102 | A section opens with a spacer, its title and a page break. After that, each page's table is followed by exactly one page break, and nothing else. |
| LayoutProofs.EmptySection | generate_meme_report.py:63-66 | An empty list gives the section header alone. |
| LayoutProofs.LikesRowIsOrange | generate_meme_report.py:94-98 | The likes row of every group (row 4j + 2) is among the orange rows. |
| LayoutProofs.OrangeRowIsLikesRow | generate_meme_report.py:94-98 | Every orange row index is below the table length and is the likes row 4j + 2 of group j. |
| LayoutProofs.LikesRowsExactly | generate_meme_report.py:97-98 | The rows coloured orange on a page are exactly the x below `len(table_data)` with x mod 4 = 2, that is rows 2, 6, 10, …. |
| LayoutProofs.RangeStepMembers | generate_meme_report.py:97 | `range(lo, hi, step)` holds exactly the x with lo ≤ x < hi and x ≡ lo (mod step). |
| LayoutProofs.TableAtLength | generate_meme_report.py:80-94 | Page q's table has 4·ceil(|page q| / 3) rows, and no later table is longer than the first. |
| LayoutProofs.SharedStyle | generate_meme_report.py:67-101 | The shared style, when page p's table is styled, colours exactly the rows x below the first table's length with x mod 4 = 2. |
| LayoutProofs.CaptionRoundTrip | generate_meme_report.py:89 | A caption `"{rank}. {date}"` reads back as that rank and date. |
| LayoutProofs.LikesRoundTrip | generate_meme_report.py:90 | A label `"Likes: {n}"` reads back as n. |
| LayoutProofs.SectionReadsBack | generate_meme_report.py:79-91 | The i-th caption of a section reads back as rank `starting_rank + i` and the date of the i-th present entry. The i-th likes label reads back as that entry's count. |
| Strings.IntToDecimalRoundTrip | generate_meme_report.py:89-90 | The decimal text of an integer reads back as that integer. |
| Layout.FillGroup | generate_meme_report.py:83-93 | The innermost loop builds the group's three rows. It returns the rank advanced by the number of present entries in the group. |
| Layout.FillPage | generate_meme_report.py:81-94 | The middle loop builds the page's table and returns the rank after the page. |
| Layout.AddLikesRows | generate_meme_report.py:97-98 | The orange loop appends `range(2, len(table_data), 4)` to the style. |
| Layout.ProcessMemeData | generate_meme_report.py:58-103 | The source's loops produce exactly the declarative section layout, so every `LayoutProofs` property holds of what `process_meme_data` returns. |
| Report.Section | generate_meme_report.py:111-112 | One report section, laid out from rank 1 for the rows the query returned. Its shape is stated by `Report.ReportShape` and its contents by `Report.SectionEntry` and `Report.SectionCaptions`. |
| Report.MemeReport | generate_meme_report.py:110-112 | The top section followed by the bottom section. Its shape is stated by `Report.ReportShape`. |
| Report.SectionPageCount | generate_meme_report.py:35-36 | A section lists at most 99 rows on at most eleven pages. |
| Report.ReportShape | generate_meme_report.py:110-112 | For any two query answers, the report after the title page is the top section, titled "Top 100 Memes", then the bottom section, titled "Bottom 100 Memes". Each section is its header plus two flowables per page. |
| Report.PresentEntriesRanked | generate_meme_report.py:87-91 | Skipping entries whose image is missing keeps the query's order among the ranked entries. |
| Report.SectionEntry | generate_meme_report.py:105-112 | For every answer the query may return, whatever order it gives rows with equal like counts: the entry printed with rank 1 + i has i < 99. It is a row of the table with a positive like count and an existing image. In the query's order, it ranks ahead of every entry printed after it. |
| Report.SectionCaptions | generate_meme_report.py:111-112 | For any answer, the i-th caption of a report section reads back as rank 1 + i and its entry's date. The i-th likes label reads back as that entry's count. |
| Report.ImagePathIsWrittenFile | generate_meme_report.py:86 | For a stored row whose date has no `/`, the path the report checks is the path the extraction wrote. |
| Report.CommittedRowIsPresent | generate_meme_report.py:86-87 | Every committed row whose date has no `/` finds its image on disk after the run. |
| Extraction.StripPrefix | extract_memes_from_twitter_data.py:53 | Removing the archive prefix never lengthens the text. |
| Strings.ReplaceAll | extract_memes_from_twitter_data.py:53 | `str.replace` never lengthens the text when the replacement is no longer than the pattern. It keeps the length when both have the same length. |
| Extraction.StripLeadingPrefix | extract_memes_from_twitter_data.py:53 | Stripping an archive made of the prefix plus JSON text leaves exactly the JSON text. |
| Extraction.StripEveryOccurrence | extract_memes_from_twitter_data.py:53 | Every occurrence of the prefix is removed, not only a leading one. The text before the first occurrence is kept, and stripping continues after it. |
| Strings.ReplaceAllAtOccurrence | extract_memes_from_twitter_data.py:53 | `str.replace` replaces the first occurrence and resumes right after it. |
| Strings.ReplaceCharIsPointwise | extract_memes_from_twitter_data.py:72 | Replacing one character by one character substitutes position by position. |
| Extraction.Sanitise | extract_memes_from_twitter_data.py:72 | Sanitising keeps the length, turns every `:` and space into `_`, and keeps every other character in place. |
| Strings.PathJoin | extract_memes_from_twitter_data.py:73 | `os.path.join(dir, name)` is at least as long as the name and at most one character longer than the directory and the name together. |
| Strings.PathJoinParts | extract_memes_from_twitter_data.py:73 | The joined path ends with the whole name. An absolute name is the whole path. A relative name follows the whole directory: exactly one `/` is added between them when the directory is non-empty and does not end in `/`, and none otherwise. |
| Strings.Basename | extract_memes_from_twitter_data.py:81 | `os.path.basename` returns the part of the path after its last `/`: a suffix with no `/`, preceded by `/` when it is not the whole path. |
| Extraction.ImageFile | extract_memes_from_twitter_data.py:73 | When the formatted date has no `/`, the base name of the image path is the sanitised date plus `.png`. |
| Strings.BasenameOfJoin | extract_memes_from_twitter_data.py:73-81 | The base name of `os.path.join(dir, name)` is `name` when `name` has no `/`. |
| Extraction.Decide | extract_memes_from_twitter_data.py:57-71 | A tweet is skipped without a request when it is a retweet, or when it has a date but no media. It raises out of the run exactly when the `tweet` key is missing, or when a non-retweet has no `created_at`. It leads to a request exactly when its date converts and its first media entry has `media_url_https`. That request is for the first media URL, with the formatted date and `favorite_count`, defaulting to 0. |
| Extraction.RowOf | extract_memes_from_twitter_data.py:79-81 | The inserted row holds the formatted date and the like count. When the date has no `/`, its `local_file` is the sanitised date plus `.png`. |
| Extraction.Inserted | extract_memes_from_twitter_data.py:65-82 | The row a tweet stores, if any. When exactly a row is stored is stated by `Extraction.InsertedExactly`, and the row's contents by `Extraction.InsertedRowContents`. |
| Extraction.InsertedExactly | extract_memes_from_twitter_data.py:65-86 | A tweet stores a row exactly when it leads to a request, the request returns and the image file can be written. A failed request or write stores nothing. The stored row is the attempt's row. |
| Extraction.StoredTweet | extract_memes_from_twitter_data.py:71-82 | A tweet that stores a row requests its first media URL, writes the response under the path built from its date, and appends the row. |
| Extraction.InsertedRowContents | extract_memes_from_twitter_data.py:63-81 | A stored row's `date` is the unsanitised formatted date, and its like count is `favorite_count`, or 0 when absent. When the date has no `/`, its `local_file` is the sanitised date plus `.png`. |
| Extraction.ProcessTweet | extract_memes_from_twitter_data.py:56-86 | Retweets and skipped tweets change nothing: no row, no request, no file. Only a `Decide` abort escapes. A request is recorded for the first media URL. The file is written, and the row appended, exactly when the request returns and the file can be written. After a failed request or write the state still continues. |
| Extraction.SameDayCollision | extract_memes_from_twitter_data.py:69-81 | Two stored tweets with the same formatted date get the same `local_file`. Both rows are inserted, and the second download overwrites the first image. |
| Extraction.ProcessTweetFiles | extract_memes_from_twitter_data.py:73-82 | One tweet keeps the files on disk matched with the inserted rows: a file is written exactly when a row naming it is inserted. |
| Extraction.Run | extract_memes_from_twitter_data.py:97-98 | A run requests at most one image per item, and inserts at most one row per request. |
| Extraction.RunFiles | extract_memes_from_twitter_data.py:97-98 | After any run, the files on disk are exactly the files named by the inserted rows. |
| Extraction.Prefix | extract_memes_from_twitter_data.py:95 | `tweets[:100]` is the first min(100, n) items of a list of n, so it is the whole list when the list is no longer than 100. |
| Extraction.RunRows | extract_memes_from_twitter_data.py:97-98 | A run aborts exactly when some item raises out of `process_tweet`. Otherwise it has inserted, in item order, the row of every item that stores one. |
| Extraction.ExtractedRows | extract_memes_from_twitter_data.py:95-100 | An aborted run commits no rows. Otherwise the committed rows, at most 100, come one each from distinct items among the first 100, in increasing item order. Each is the row that item stores. |
| Extraction.Extract | extract_memes_from_twitter_data.py:89-100 | `main` requests at most 100 images and commits at most one row per request. |
| Extraction.ExtractIgnoresTail | extract_memes_from_twitter_data.py:95 | Items after the hundredth change nothing. |
| Extraction.AbortedStaysAborted | extract_memes_from_twitter_data.py:97-100 | After an exception escapes, later items change nothing. |
| Extraction.ExtractMemes | extract_memes_from_twitter_data.py:89-100 | `main`'s loop over the first 100 items commits what `Extract` describes: the inserted rows, or none after an abort. |

## Left out

- ReportLab: fonts, paragraph and table styles other than the orange like-count rows, `Image` sizes, the background and `doc.build`. The report is modelled as the list of flowables it is built from.
- The title page (`create_main_title_page`). It is constant apart from an optional logo, and no property depends on it.
- `hex_to_color`. It uses floating-point division.
- SQLite itself: connection, SQL parsing and storage. Only the meaning of the two `SELECT`s is modelled, and the order of rows with equal like counts is left open.
- The order in which SQLite returns the rows the extraction inserted. The model keeps them as a list in insertion order.
- `favorite_count` is modelled as an integer. Archives store it as a string. The column's integer affinity turns a numeric string into an integer on insert; this conversion is not modelled.
- HTTP (`requests.get`). A request either returns a body or raises. A body is stored whatever the status code, as the code does; an error page is saved as an image too.
- Partial writes. Opening and writing a file either succeeds entirely or raises before anything is stored.
- Extraction.RunFiles: assumes the `INSERT` never raises once the image is written. A SQLite error, or a like count too large for a 64-bit integer, would leave a file on disk with no row.
- Extraction.RunFiles: assumes `Env.fetch` and `Env.writable` give one fixed outcome per URL and per path for the whole run. A server or file system whose answers change during the run is not modelled.
- Zip extraction, `json.loads`, directory removal and creation. The archive is given as parsed items and every run starts from an empty table and directory.
- `datetime.strptime`, the US/Mountain time zone and `strftime`. These are one opaque conversion `fmt` that may fail.
- Every `print`. It only logs.
- Paths follow POSIX `os.path` (`posixpath`): `/` is the only separator. Windows path rules are not modelled.
- Strings.ReplaceAll: requires a non-empty pattern. The scripts only replace the constant patterns `":"`, `" "` and the archive prefix.
- Report.CommittedRowIsPresent: requires that the formatted date contains no `/`. `"%B %d, %Y"` never produces one, but `fmt` is opaque. A date with a `/` would make `os.path.basename` cut it, and the report would look for a different file.
