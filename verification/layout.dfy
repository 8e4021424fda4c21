/** `process_meme_data`: one report section laid out as pages of nine
    entries, each page a table whose rows come in groups of four (images,
    captions, like counts, spacer) for every three entries, with a running
    rank that only advances on entries whose image file exists.

    The functions give the layout declaratively; `ProcessMemeData` follows
    the source's nested loops and is proved to produce the same content. */
module Layout {

  import opened Wrappers
  import opened Records
  import opened Seqs
  import opened Strings

  const EntriesPerPage: nat := 9
  const GridWidth: nat := 3
  /** Blank cells that stand in for an entry whose image file is missing. */
  const MissingWidth: nat := 3
  /** Every group of up to three entries becomes this many table rows. */
  const RowsPerGroup: nat := 4
  /** Index, within a group of rows, of the like-count row coloured orange. */
  const LikesRowOffset: nat := 2
  const ImageDirectory: string := PathJoin("twitter_data", "memes")

  /** A table cell: an image, or a text (the empty text is a blank cell). */
  datatype Cell = Picture(path: string) | Label(text: string)

  /** The flowables `process_meme_data` emits. A table keeps the row indices
      its style colours orange. */
  datatype Flowable =
    | SectionSpacer
    | Heading(title: string)
    | PageBreak
    | Table(data: seq<seq<Cell>>, orangeRows: seq<nat>)

  function Blanks(n: nat): (r: seq<Cell>)
    ensures |r| == n
  {
    seq(n, _ => Label(""))
  }

  function ImagePath(localFile: string): string {
    PathJoin(ImageDirectory, localFile)
  }

  /** `f"{current_rank}. {date}"` */
  function CaptionText(rank: int, date: string): string {
    IntToDecimal(rank) + ". " + date
  }

  /** `f'Likes: {likes_count}'` */
  function LikesText(likes: int): string {
    "Likes: " + IntToDecimal(likes)
  }

  /** Reads a caption back into its rank and date. */
  function ParseCaption(t: string): Option<(int, string)> {
    var sign := if 0 < |t| && t[0] == '-' then 1 else 0;
    var k := sign + DigitRun(t[sign..]);
    if k + 2 <= |t| && t[k..k + 2] == ". " then
      match ParseInt(t[..k])
      case Some(n) => Some((n, t[k + 2..]))
      case None => None
    else None
  }

  /** Reads a like-count label back into the count. */
  function ParseLikes(t: string): Option<int> {
    if 7 <= |t| && t[..7] == "Likes: " then ParseInt(t[7..]) else None
  }

  /** The entry's image file exists (`os.path.exists(image_file)`). */
  predicate Present(e: MemeRecord, fileExists: string -> bool) {
    fileExists(ImagePath(e.localFile))
  }

  /** The entries whose image exists, in order: the ones that receive a rank. */
  function PresentEntries(s: seq<MemeRecord>, fileExists: string -> bool): (r: seq<MemeRecord>)
    ensures |r| <= |s|
    decreases |s|
  {
    if |s| == 0 then []
    else if Present(s[0], fileExists) then [s[0]] + PresentEntries(s[1..], fileExists)
    else PresentEntries(s[1..], fileExists)
  }

  function CountPresent(s: seq<MemeRecord>, fileExists: string -> bool): nat {
    |PresentEntries(s, fileExists)|
  }

  /** The three rows an entry list fills: image cells, captions, like counts. */
  datatype GridRows = GridRows(images: seq<Cell>, captions: seq<Cell>, likes: seq<Cell>) {

    /** The rows of `this` followed, row by row, by those of `next`. */
    function Append(next: GridRows): GridRows {
      GridRows(images + next.images, captions + next.captions, likes + next.likes)
    }

    /** The four table rows these cells make, the last a spacer row. */
    function TableRows(): seq<seq<Cell>> {
      [images, captions, likes, Blanks(GridWidth)]
    }
  }

  const NoCells := GridRows([], [], [])

  /** What one entry adds: its image, its caption and its like count when the
      image exists; three blank image cells and nothing else otherwise. */
  function EntryCells(e: MemeRecord, rank: int, fileExists: string -> bool): (c: GridRows)
    ensures |c.likes| == |c.captions| <= 1
    ensures |c.captions| == 1 <==> Present(e, fileExists)
    ensures |c.images| == if Present(e, fileExists) then 1 else MissingWidth
    ensures NextRank(e, rank, fileExists) == rank + |c.captions|
  {
    if Present(e, fileExists) then
      GridRows([Picture(ImagePath(e.localFile))], [Label(CaptionText(rank, e.date))], [Label(LikesText(e.likesCount))])
    else
      GridRows(Blanks(MissingWidth), [], [])
  }

  /** The rank that follows entry `e` laid out at `rank`. */
  function NextRank(e: MemeRecord, rank: int, fileExists: string -> bool): int {
    if Present(e, fileExists) then rank + 1 else rank
  }

  /** The cells the inner loop appends for the entries `g`, ranks starting
      at `rank`. */
  function GroupCells(g: seq<MemeRecord>, rank: int, fileExists: string -> bool): (c: GridRows)
    ensures |c.captions| == CountPresent(g, fileExists)
    ensures |c.likes| == CountPresent(g, fileExists)
    ensures |c.images| == CountPresent(g, fileExists) + MissingWidth * (|g| - CountPresent(g, fileExists))
    decreases |g|
  {
    if |g| == 0 then NoCells
    else EntryCells(g[0], rank, fileExists).Append(GroupCells(g[1..], NextRank(g[0], rank, fileExists), fileExists))
  }

  /** The four table rows of one group of entries. */
  function GroupTableRows(g: seq<MemeRecord>, rank: int, fileExists: string -> bool): seq<seq<Cell>> {
    GroupCells(g, rank, fileExists).TableRows()
  }

  lemma {:induction false} PresentAppend(a: seq<MemeRecord>, b: seq<MemeRecord>, fileExists: string -> bool)
    ensures PresentEntries(a + b, fileExists) == PresentEntries(a, fileExists) + PresentEntries(b, fileExists)
    decreases |a|
  {
    if |a| == 0 {
      assert a + b == b;
    } else {
      assert (a + b)[0] == a[0];
      assert (a + b)[1..] == a[1..] + b;
      PresentAppend(a[1..], b, fileExists);
    }
  }

  // ---------------------------------------------------------------------
  // One page: `table_data` and the rank after it
  // ---------------------------------------------------------------------

  /** The page's entries three at a time: `page_data[i:i + 3]` for `i` in
      `range(0, len(page_data), 3)`. */
  function Groups(page: seq<MemeRecord>): seq<seq<MemeRecord>> {
    Chunk(page, GridWidth)
  }

  /** The rank of the first entry of group `k`: the page's first rank plus
      the number of entries before the group whose image exists. */
  function GroupRank(page: seq<MemeRecord>, rank: int, k: nat, fileExists: string -> bool): int
    requires k <= |Groups(page)|
  {
    rank + CountPresent(Concat(Groups(page)[..k]), fileExists)
  }

  /** The table rows of the first `k` groups: four per group. */
  function PageRows(page: seq<MemeRecord>, rank: int, k: nat, fileExists: string -> bool): seq<seq<Cell>>
    requires k <= |Groups(page)|
    decreases k
  {
    if k == 0 then []
    else PageRows(page, rank, k - 1, fileExists)
         + GroupTableRows(Groups(page)[k - 1], GroupRank(page, rank, k - 1, fileExists), fileExists)
  }

  /** `table_data` of a page whose first entry would get `rank`. */
  function PageTable(page: seq<MemeRecord>, rank: int, fileExists: string -> bool): seq<seq<Cell>> {
    PageRows(page, rank, |Groups(page)|, fileExists)
  }

  /** `range(lo, hi, step)`: numbers from `lo` below `hi`, each a multiple
      of `step` above `lo`. */
  function RangeStep(lo: nat, hi: nat, step: nat): (r: seq<nat>)
    requires 0 < step
    ensures forall k :: 0 <= k < |r| ==> lo <= r[k] < hi && (r[k] - lo) % step == 0
    decreases hi - lo
  {
    if hi <= lo then []
    else
      var rest := RangeStep(lo + step, hi, step);
      assert forall k :: 0 <= k < |rest| ==> (rest[k] - lo) % step == 0 by {
        forall k | 0 <= k < |rest| ensures (rest[k] - lo) % step == 0 {
          ModShift(rest[k] - lo, step);
        }
      }
      [lo] + rest
  }

  /** The rows `range(2, len(table_data), 4)` coloured orange on a page. */
  function LikesRows(tableLength: nat): (rows: seq<nat>)
    ensures forall k :: 0 <= k < |rows| ==> rows[k] < tableLength && rows[k] % RowsPerGroup == LikesRowOffset
  {
    RangeStep(LikesRowOffset, tableLength, RowsPerGroup)
  }

  // ---------------------------------------------------------------------
  // One section: what `process_meme_data` returns
  // ---------------------------------------------------------------------

  /** `pages`: the section's entries nine at a time. */
  function Pages(section: seq<MemeRecord>): seq<seq<MemeRecord>> {
    Chunk(section, EntriesPerPage)
  }

  /** `current_rank` when page `p` starts: the starting rank plus the
      entries of earlier pages whose image exists. */
  function PageStartRank(section: seq<MemeRecord>, startingRank: int, p: nat, fileExists: string -> bool): int
    requires p <= |Pages(section)|
  {
    startingRank + CountPresent(Concat(Pages(section)[..p]), fileExists)
  }

  /** The table data of page `p`. */
  function TableAt(section: seq<MemeRecord>, startingRank: int, p: nat, fileExists: string -> bool): seq<seq<Cell>>
    requires p < |Pages(section)|
  {
    PageTable(Pages(section)[p], PageStartRank(section, startingRank, p, fileExists), fileExists)
  }

  /** The orange rows the section's one shared table style holds once the
      first `p` pages are done: each page adds the like-count rows of its
      own table. */
  function StyleRows(section: seq<MemeRecord>, startingRank: int, p: nat, fileExists: string -> bool): seq<nat>
    requires p <= |Pages(section)|
    decreases p
  {
    if p == 0 then []
    else StyleRows(section, startingRank, p - 1, fileExists)
         + LikesRows(|TableAt(section, startingRank, p - 1, fileExists)|)
  }

  /** A table and a page break for each of the first `p` pages. The table
      of page `p - 1` is styled when the style holds the rows of pages
      `0 .. p - 1`. */
  function PagesContent(section: seq<MemeRecord>, startingRank: int, p: nat, fileExists: string -> bool): seq<Flowable>
    requires p <= |Pages(section)|
    decreases p
  {
    if p == 0 then []
    else PagesContent(section, startingRank, p - 1, fileExists)
         + [Table(TableAt(section, startingRank, p - 1, fileExists), StyleRows(section, startingRank, p, fileExists)), PageBreak]
  }

  const SectionHeaderLength: nat := 3

  /** The spacer, the title paragraph and the page break opening a section. */
  function SectionHeader(title: string): seq<Flowable> {
    [SectionSpacer, Heading(title), PageBreak]
  }

  /** What `process_meme_data(section, title, starting_rank)` returns: the
      header, then a table and a page break for every page. */
  function SectionLayout(section: seq<MemeRecord>, title: string, startingRank: int, fileExists: string -> bool): (fs: seq<Flowable>)
    ensures |fs| >= SectionHeaderLength && fs[..SectionHeaderLength] == [SectionSpacer, Heading(title), PageBreak]
  {
    SectionHeader(title) + PagesContent(section, startingRank, |Pages(section)|, fileExists)
  }

  // ---------------------------------------------------------------------
  // The source's loops
  // ---------------------------------------------------------------------

  /** The loop invariant of `FillGroup`: entries `lo..j` are done. */
  ghost predicate FillGroupInvariant(page: seq<MemeRecord>, lo: nat, j: nat, hi: nat, rank: int, nextRank: int,
                                     acc: GridRows, fileExists: string -> bool)
    requires lo <= j <= hi <= |page|
  {
    && nextRank + CountPresent(page[j..hi], fileExists) == rank + CountPresent(page[lo..hi], fileExists)
    && GroupCells(page[lo..hi], rank, fileExists) == acc.Append(GroupCells(page[j..hi], nextRank, fileExists))
  }

  lemma AppendAssoc(a: GridRows, b: GridRows, c: GridRows)
    ensures a.Append(b.Append(c)) == a.Append(b).Append(c)
  {
  }

  /** One step of the entry loop keeps its invariant. */
  lemma FillGroupStep(page: seq<MemeRecord>, lo: nat, j: nat, hi: nat, rank: int, nextRank: int,
                      acc: GridRows, nextRank': int, acc': GridRows, fileExists: string -> bool)
    requires lo <= j < hi <= |page|
    requires FillGroupInvariant(page, lo, j, hi, rank, nextRank, acc, fileExists)
    requires nextRank' == NextRank(page[j], nextRank, fileExists)
    requires acc' == acc.Append(EntryCells(page[j], nextRank, fileExists))
    ensures FillGroupInvariant(page, lo, j + 1, hi, rank, nextRank', acc', fileExists)
  {
    assert page[j..hi][0] == page[j] && page[j..hi][1..] == page[j + 1..hi];
    AppendAssoc(acc, EntryCells(page[j], nextRank, fileExists),
                GroupCells(page[j + 1..hi], NextRank(page[j], nextRank, fileExists), fileExists));
  }

  lemma FillGroupDone(page: seq<MemeRecord>, lo: nat, hi: nat, rank: int, nextRank: int,
                      acc: GridRows, fileExists: string -> bool)
    requires lo <= hi <= |page|
    requires FillGroupInvariant(page, lo, hi, hi, rank, nextRank, acc, fileExists)
    ensures acc == GroupCells(page[lo..hi], rank, fileExists)
    ensures nextRank == rank + CountPresent(page[lo..hi], fileExists)
  {
    assert acc.Append(NoCells) == acc by {
      assert acc.images + [] == acc.images && acc.captions + [] == acc.captions && acc.likes + [] == acc.likes;
    }
  }

  /** The body of the innermost loop for entry `e`: its image, caption and
      like count when the image file exists, three blank image cells
      otherwise. */
  method PlaceEntry(e: MemeRecord, imgRow: seq<Cell>, dateRow: seq<Cell>, likesRow: seq<Cell>, rank: int,
                    fileExists: string -> bool)
    returns (imgRow': seq<Cell>, dateRow': seq<Cell>, likesRow': seq<Cell>, rank': int)
    ensures GridRows(imgRow', dateRow', likesRow') == GridRows(imgRow, dateRow, likesRow).Append(EntryCells(e, rank, fileExists))
    ensures rank' == NextRank(e, rank, fileExists)
  {
    var imageFile := ImagePath(e.localFile);
    if fileExists(imageFile) {
      imgRow' := imgRow + [Picture(imageFile)];
      dateRow' := dateRow + [Label(CaptionText(rank, e.date))];
      likesRow' := likesRow + [Label(LikesText(e.likesCount))];
      rank' := rank + 1;
    } else {
      imgRow', dateRow', likesRow' := imgRow + Blanks(MissingWidth), dateRow, likesRow;
      assert dateRow + [] == dateRow && likesRow + [] == likesRow;
      rank' := rank;
    }
  }

  /** The innermost loop: `for j in range(i, min(i + 3, len(page_data)))`. */
  method FillGroup(page: seq<MemeRecord>, lo: nat, hi: nat, rank: int, fileExists: string -> bool)
    returns (imgRow: seq<Cell>, dateRow: seq<Cell>, likesRow: seq<Cell>, nextRank: int)
    requires lo <= hi <= |page|
    ensures GridRows(imgRow, dateRow, likesRow) == GroupCells(page[lo..hi], rank, fileExists)
    ensures nextRank == rank + CountPresent(page[lo..hi], fileExists)
  {
    imgRow, dateRow, likesRow := [], [], [];
    nextRank := rank;
    var j := lo;
    while j < hi
      invariant lo <= j <= hi
      invariant FillGroupInvariant(page, lo, j, hi, rank, nextRank, GridRows(imgRow, dateRow, likesRow), fileExists)
    {
      var imgRow', dateRow', likesRow', rank' := PlaceEntry(page[j], imgRow, dateRow, likesRow, nextRank, fileExists);
      FillGroupStep(page, lo, j, hi, rank, nextRank, GridRows(imgRow, dateRow, likesRow), rank',
                    GridRows(imgRow', dateRow', likesRow'), fileExists);
      imgRow, dateRow, likesRow, nextRank := imgRow', dateRow', likesRow', rank';
      j := j + 1;
    }
    FillGroupDone(page, lo, hi, rank, nextRank, GridRows(imgRow, dateRow, likesRow), fileExists);
  }

  /** Group `k` starts at entry `i = 3k`; while `i` is inside the page it is
      the slice `page[i : min(i + 3, len(page))]`, and the rank moves past
      it by its entries whose image exists. */
  lemma FillPageStep(page: seq<MemeRecord>, rank: int, k: nat, i: nat, fileExists: string -> bool)
    requires i == GridWidth * k && i < |page|
    ensures k < |Groups(page)|
    ensures Groups(page)[k] == page[i..Min(i + GridWidth, |page|)]
    ensures GroupRank(page, rank, k + 1, fileExists)
         == GroupRank(page, rank, k, fileExists) + CountPresent(Groups(page)[k], fileExists)
  {
    var groups := Groups(page);
    CeilDivBound(k, |page|, GridWidth);
    ChunkSlice(page, GridWidth, k);
    ConcatSnoc(groups, k);
    PresentAppend(Concat(groups[..k]), groups[k], fileExists);
  }

  /** Once `i = 3k` has left the page, every group is done and the rank has
      moved past every entry whose image exists. */
  lemma FillPageDone(page: seq<MemeRecord>, rank: int, k: nat, i: nat, fileExists: string -> bool)
    requires i == GridWidth * k && |page| <= i && k <= |Groups(page)|
    ensures k == |Groups(page)|
    ensures GroupRank(page, rank, k, fileExists) == rank + CountPresent(page, fileExists)
  {
    CeilDivBound(k, |page|, GridWidth);
    ChunkConcat(page, GridWidth);
    assert Groups(page)[..k] == Groups(page);
  }

  /** The loop over `range(0, len(page_data), 3)` building `table_data`. */
  method FillPage(page: seq<MemeRecord>, rank: int, fileExists: string -> bool)
    returns (tableData: seq<seq<Cell>>, nextRank: int)
    ensures tableData == PageTable(page, rank, fileExists)
    ensures nextRank == rank + CountPresent(page, fileExists)
  {
    tableData := [];
    nextRank := rank;
    ghost var k := 0;
    var i := 0;
    while i < |page|
      invariant i == GridWidth * k && k <= |Groups(page)|
      invariant tableData == PageRows(page, rank, k, fileExists)
      invariant nextRank == GroupRank(page, rank, k, fileExists)
      decreases |page| - i
    {
      FillPageStep(page, rank, k, i, fileExists);
      var imgRow, dateRow, likesRow, r' := FillGroup(page, i, Min(i + GridWidth, |page|), nextRank, fileExists);
      tableData := tableData + [imgRow, dateRow, likesRow, Blanks(GridWidth)];
      nextRank := r';
      i := i + GridWidth;
      k := k + 1;
    }
    FillPageDone(page, rank, k, i, fileExists);
  }

  /** The loop colouring `range(2, len(table_data), 4)` orange. */
  method AddLikesRows(style: seq<nat>, tableLength: nat) returns (style': seq<nat>)
    ensures style' == style + LikesRows(tableLength)
  {
    style' := style;
    var rowNum := LikesRowOffset;
    while rowNum < tableLength
      invariant LikesRowOffset <= rowNum
      invariant style' + RangeStep(rowNum, tableLength, RowsPerGroup) == style + LikesRows(tableLength)
      decreases tableLength - rowNum
    {
      style' := style' + [rowNum];
      rowNum := rowNum + RowsPerGroup;
    }
    assert style' + [] == style';
  }

  /** The rank after page `p` is the rank page `p + 1` starts with. */
  lemma SectionStep(section: seq<MemeRecord>, startingRank: int, p: nat, fileExists: string -> bool)
    requires p < |Pages(section)|
    ensures PageStartRank(section, startingRank, p + 1, fileExists)
         == PageStartRank(section, startingRank, p, fileExists) + CountPresent(Pages(section)[p], fileExists)
  {
    var pages := Pages(section);
    ConcatSnoc(pages, p);
    PresentAppend(Concat(pages[..p]), pages[p], fileExists);
  }

  /** Appending page `p`'s table and page break to the content of the pages
      before it gives the content of the pages up to `p`. */
  lemma SectionContentStep(section: seq<MemeRecord>, title: string, startingRank: int, p: nat,
                           content: seq<Flowable>, tableData: seq<seq<Cell>>, style: seq<nat>, style': seq<nat>,
                           fileExists: string -> bool)
    requires p < |Pages(section)|
    requires content == SectionHeader(title) + PagesContent(section, startingRank, p, fileExists)
    requires tableData == TableAt(section, startingRank, p, fileExists)
    requires style == StyleRows(section, startingRank, p, fileExists)
    requires style' == style + LikesRows(|tableData|)
    ensures style' == StyleRows(section, startingRank, p + 1, fileExists)
    ensures content + [Table(tableData, style'), PageBreak]
         == SectionHeader(title) + PagesContent(section, startingRank, p + 1, fileExists)
  {
  }

  /** `process_meme_data`, loop for loop. */
  method ProcessMemeData(section: seq<MemeRecord>, title: string, startingRank: int, fileExists: string -> bool)
    returns (content: seq<Flowable>)
    ensures content == SectionLayout(section, title, startingRank, fileExists)
  {
    content := SectionHeader(title);
    var pages := Chunk(section, EntriesPerPage);
    var style: seq<nat> := [];
    var currentRank := startingRank;
    var p := 0;
    while p < |pages|
      invariant p <= |pages|
      invariant content == SectionHeader(title) + PagesContent(section, startingRank, p, fileExists)
      invariant style == StyleRows(section, startingRank, p, fileExists)
      invariant currentRank == PageStartRank(section, startingRank, p, fileExists)
    {
      var tableData, nextRank := FillPage(pages[p], currentRank, fileExists);
      var style' := AddLikesRows(style, |tableData|);
      SectionContentStep(section, title, startingRank, p, content, tableData, style, style', fileExists);
      SectionStep(section, startingRank, p, fileExists);
      style := style';
      content := content + [Table(tableData, style), PageBreak];
      currentRank := nextRank;
      p := p + 1;
    }
  }
}
