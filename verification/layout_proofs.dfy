/** What the layout of `process_meme_data` guarantees: groups of three
    entries laid out as four table rows, page tables of `4 * ceil(n / 3)`
    rows, ranks that number the entries whose image exists consecutively
    across the whole section, captions and like counts that read back, and
    the orange like-count rows. */
module LayoutProofs {

  import opened Wrappers
  import opened Records
  import opened Seqs
  import opened Strings
  import opened Layout

  // ---------------------------------------------------------------------
  // Entries whose image exists
  // ---------------------------------------------------------------------

  /** `PresentEntries` keeps exactly the entries whose image exists. */
  lemma {:induction false} PresentEntriesAreFiltered(s: seq<MemeRecord>, fileExists: string -> bool)
    ensures forall e :: e in PresentEntries(s, fileExists) <==> e in s && Present(e, fileExists)
    decreases |s|
  {
    if |s| > 0 {
      PresentEntriesAreFiltered(s[1..], fileExists);
      assert s == [s[0]] + s[1..];
    }
  }

  // ---------------------------------------------------------------------
  // Reference numbering: what the captions and like labels should be
  // ---------------------------------------------------------------------

  /** The captions of the entries `es`, numbered from `rank` on. */
  function NumberedCaptions(es: seq<MemeRecord>, rank: int): (r: seq<Cell>)
    ensures |r| == |es|
  {
    seq(|es|, i requires 0 <= i < |es| => Label(CaptionText(rank + i, es[i].date)))
  }

  /** The like-count labels of the entries `es`. */
  function LikesLabels(es: seq<MemeRecord>): (r: seq<Cell>)
    ensures |r| == |es|
  {
    seq(|es|, i requires 0 <= i < |es| => Label(LikesText(es[i].likesCount)))
  }

  lemma NumberedCaptionsAppend(a: seq<MemeRecord>, b: seq<MemeRecord>, rank: int)
    ensures NumberedCaptions(a + b, rank) == NumberedCaptions(a, rank) + NumberedCaptions(b, rank + |a|)
  {
  }

  lemma LikesLabelsAppend(a: seq<MemeRecord>, b: seq<MemeRecord>)
    ensures LikesLabels(a + b) == LikesLabels(a) + LikesLabels(b)
  {
  }

  /** The image paths of the pictures in a row of cells, in order. */
  function Pictures(cells: seq<Cell>): seq<string>
    decreases |cells|
  {
    if |cells| == 0 then []
    else Pictures(cells[..|cells| - 1]) + (if cells[|cells| - 1].Picture? then [cells[|cells| - 1].path] else [])
  }

  /** The number of blank cells in a row. */
  function BlankCount(cells: seq<Cell>): nat
    decreases |cells|
  {
    if |cells| == 0 then 0
    else BlankCount(cells[..|cells| - 1]) + (if cells[|cells| - 1] == Label("") then 1 else 0)
  }

  lemma {:induction false} PicturesAppend(a: seq<Cell>, b: seq<Cell>)
    ensures Pictures(a + b) == Pictures(a) + Pictures(b)
    ensures BlankCount(a + b) == BlankCount(a) + BlankCount(b)
    decreases |b|
  {
    if |b| == 0 {
      assert a + b == a;
    } else {
      assert (a + b)[..|a + b| - 1] == a + b[..|b| - 1];
      PicturesAppend(a, b[..|b| - 1]);
    }
  }

  lemma {:induction false} BlanksAreBlank(n: nat)
    ensures Pictures(Blanks(n)) == []
    ensures BlankCount(Blanks(n)) == n
    decreases n
  {
    if n > 0 {
      assert Blanks(n)[..n - 1] == Blanks(n - 1);
      BlanksAreBlank(n - 1);
    }
  }

  /** The image paths of the entries `es`. */
  function ImagePaths(es: seq<MemeRecord>): (r: seq<string>)
    ensures |r| == |es|
  {
    seq(|es|, i requires 0 <= i < |es| => ImagePath(es[i].localFile))
  }

  lemma ImagePathsAppend(a: seq<MemeRecord>, b: seq<MemeRecord>)
    ensures ImagePaths(a + b) == ImagePaths(a) + ImagePaths(b)
  {
  }

  // ---------------------------------------------------------------------
  // One group of three
  // ---------------------------------------------------------------------

  /** What one entry contributes, stated against the one-entry list of
      entries whose image exists. */
  lemma EntryCellsContents(e: MemeRecord, rank: int, fileExists: string -> bool)
    ensures EntryCells(e, rank, fileExists).captions == NumberedCaptions(PresentEntries([e], fileExists), rank)
    ensures EntryCells(e, rank, fileExists).likes == LikesLabels(PresentEntries([e], fileExists))
    ensures Pictures(EntryCells(e, rank, fileExists).images) == ImagePaths(PresentEntries([e], fileExists))
    ensures BlankCount(EntryCells(e, rank, fileExists).images) == MissingWidth * (1 - CountPresent([e], fileExists))
    ensures NextRank(e, rank, fileExists) == rank + CountPresent([e], fileExists)
  {
    assert [e][1..] == [];
    var c := EntryCells(e, rank, fileExists);
    if Present(e, fileExists) {
      assert c.images[..0] == [];
    } else {
      BlanksAreBlank(MissingWidth);
    }
  }

  /** The cells of a group: one picture, caption and like count per entry
      whose image exists, numbered on from `rank` in order, and three blank
      image cells per entry whose image is missing. */
  lemma {:induction false} GroupCellsContents(g: seq<MemeRecord>, rank: int, fileExists: string -> bool)
    ensures GroupCells(g, rank, fileExists).captions == NumberedCaptions(PresentEntries(g, fileExists), rank)
    ensures GroupCells(g, rank, fileExists).likes == LikesLabels(PresentEntries(g, fileExists))
    ensures Pictures(GroupCells(g, rank, fileExists).images) == ImagePaths(PresentEntries(g, fileExists))
    ensures BlankCount(GroupCells(g, rank, fileExists).images)
         == MissingWidth * (|g| - CountPresent(g, fileExists))
    decreases |g|
  {
    if |g| > 0 {
      var head := PresentEntries([g[0]], fileExists);
      var tail := PresentEntries(g[1..], fileExists);
      var rank' := NextRank(g[0], rank, fileExists);
      var c := EntryCells(g[0], rank, fileExists);
      var rest := GroupCells(g[1..], rank', fileExists);
      var cells := GroupCells(g, rank, fileExists);
      assert cells == c.Append(rest);
      assert PresentEntries(g, fileExists) == head + tail by {
        assert g == [g[0]] + g[1..];
        PresentAppend([g[0]], g[1..], fileExists);
      }
      EntryCellsContents(g[0], rank, fileExists);
      GroupCellsContents(g[1..], rank', fileExists);
      assert cells.captions == NumberedCaptions(head + tail, rank) by {
        assert rank' == rank + |head|;
        NumberedCaptionsAppend(head, tail, rank);
      }
      assert cells.likes == LikesLabels(head + tail) by {
        LikesLabelsAppend(head, tail);
      }
      assert Pictures(cells.images) == ImagePaths(head + tail) by {
        PicturesAppend(c.images, rest.images);
        ImagePathsAppend(head, tail);
      }
      assert BlankCount(cells.images) == MissingWidth * (|g| - CountPresent(g, fileExists)) by {
        PicturesAppend(c.images, rest.images);
      }
    }
  }

  // ---------------------------------------------------------------------
  // One page
  // ---------------------------------------------------------------------

  /** Every group adds four rows. */
  lemma {:induction false} PageRowsLength(page: seq<MemeRecord>, rank: int, k: nat, fileExists: string -> bool)
    requires k <= |Groups(page)|
    ensures |PageRows(page, rank, k, fileExists)| == RowsPerGroup * k
    decreases k
  {
    if k > 0 {
      PageRowsLength(page, rank, k - 1, fileExists);
    }
  }

  /** A page of `n` entries has `4 * ceil(n / 3)` table rows. */
  lemma PageTableLength(page: seq<MemeRecord>, rank: int, fileExists: string -> bool)
    ensures |PageTable(page, rank, fileExists)| == RowsPerGroup * CeilDiv(|page|, GridWidth)
  {
    PageRowsLength(page, rank, |Groups(page)|, fileExists);
  }

  lemma PrefixWindow<T>(whole: seq<T>, a: seq<T>, b: seq<T>, lo: nat, hi: nat, x: seq<T>)
    requires whole == a + b && lo <= hi <= |a| && a[lo..hi] == x
    ensures hi <= |whole| && whole[lo..hi] == x
  {
    assert whole[lo..hi] == a[lo..hi];
  }

  lemma SuffixWindow<T>(whole: seq<T>, a: seq<T>, b: seq<T>, lo: nat, w: nat)
    requires whole == a + b && lo == |a| && |b| == w
    ensures lo + w <= |whole| && whole[lo..lo + w] == b
  {
  }

  /** Rows `4j .. 4j + 4` of the first `k` groups' rows are group `j`'s
      image, caption, like-count and spacer rows. */
  lemma {:induction false} PageRowsWindow(page: seq<MemeRecord>, rank: int, k: nat, j: nat, fileExists: string -> bool)
    requires j < k <= |Groups(page)|
    ensures RowsPerGroup * j + RowsPerGroup <= |PageRows(page, rank, k, fileExists)|
    ensures PageRows(page, rank, k, fileExists)[RowsPerGroup * j..RowsPerGroup * j + RowsPerGroup]
         == GroupTableRows(Groups(page)[j], GroupRank(page, rank, j, fileExists), fileExists)
    decreases k
  {
    var before := PageRows(page, rank, k - 1, fileExists);
    var last := GroupTableRows(Groups(page)[k - 1], GroupRank(page, rank, k - 1, fileExists), fileExists);
    var whole := PageRows(page, rank, k, fileExists);
    assert whole == before + last;
    PageRowsLength(page, rank, k - 1, fileExists);
    if j == k - 1 {
      SuffixWindow(whole, before, last, RowsPerGroup * j, RowsPerGroup);
    } else {
      PageRowsWindow(page, rank, k - 1, j, fileExists);
      PrefixWindow(whole, before, last, RowsPerGroup * j, RowsPerGroup * j + RowsPerGroup,
                   GroupTableRows(Groups(page)[j], GroupRank(page, rank, j, fileExists), fileExists));
    }
  }

  /** The four rows of group `j` are rows `4j .. 4j + 4` of the page
      table; `GroupStart` says which entries the group holds and its rank. */
  lemma PageGroup(page: seq<MemeRecord>, rank: int, j: nat, fileExists: string -> bool)
    requires GridWidth * j < |page|
    ensures j < |Groups(page)|
    ensures RowsPerGroup * j + RowsPerGroup <= |PageTable(page, rank, fileExists)|
    ensures PageTable(page, rank, fileExists)[RowsPerGroup * j..RowsPerGroup * j + RowsPerGroup]
         == GroupTableRows(Groups(page)[j], GroupRank(page, rank, j, fileExists), fileExists)
  {
    GroupStart(page, rank, j, fileExists);
    PageRowsWindow(page, rank, |Groups(page)|, j, fileExists);
  }

  /** Group `j` is ranked from the page's rank plus the entries before
      entry `3j` whose image exists. */
  lemma GroupStart(page: seq<MemeRecord>, rank: int, j: nat, fileExists: string -> bool)
    requires GridWidth * j < |page|
    ensures j < |Groups(page)|
    ensures Groups(page)[j] == page[GridWidth * j..Min(GridWidth * j + GridWidth, |page|)]
    ensures GroupRank(page, rank, j, fileExists) == rank + CountPresent(page[..GridWidth * j], fileExists)
  {
    FillPageStep(page, rank, j, GridWidth * j, fileExists);
    ChunkPrefix(page, GridWidth, j);
    assert Min(j * GridWidth, |page|) == GridWidth * j;
  }

  // ---------------------------------------------------------------------
  // Reading the cells back out of the tables
  // ---------------------------------------------------------------------

  /** The image, caption and like-count cells of a table, read group by
      group: rows `4j`, `4j + 1` and `4j + 2` of every group of four rows. */
  function TableCells(t: seq<seq<Cell>>): GridRows
    decreases |t|
  {
    if |t| < RowsPerGroup then NoCells
    else TableCells(t[..|t| - RowsPerGroup]).Append(GridRows(t[|t| - 4], t[|t| - 3], t[|t| - 2]))
  }

  /** The cells of all the tables of a list of flowables, in order. */
  function FlowCells(fs: seq<Flowable>): GridRows
    decreases |fs|
  {
    if |fs| == 0 then NoCells
    else if fs[|fs| - 1].Table? then FlowCells(fs[..|fs| - 1]).Append(TableCells(fs[|fs| - 1].data))
    else FlowCells(fs[..|fs| - 1])
  }

  lemma AppendNoCells(c: GridRows)
    ensures NoCells.Append(c) == c && c.Append(NoCells) == c
  {
    assert [] + c.images == c.images && c.images + [] == c.images;
    assert [] + c.captions == c.captions && c.captions + [] == c.captions;
    assert [] + c.likes == c.likes && c.likes + [] == c.likes;
  }

  /** Laying out `a + b` in one go is laying out `a`, then `b` from the rank
      `a` ends on. */
  lemma {:induction false} GroupCellsAppend(a: seq<MemeRecord>, b: seq<MemeRecord>, rank: int, rankB: int,
                                            fileExists: string -> bool)
    requires rankB == rank + CountPresent(a, fileExists)
    ensures GroupCells(a + b, rank, fileExists) == GroupCells(a, rank, fileExists).Append(GroupCells(b, rankB, fileExists))
    decreases |a|
  {
    if |a| == 0 {
      assert a + b == b;
      AppendNoCells(GroupCells(b, rank, fileExists));
    } else {
      var e := a[0];
      var rank' := NextRank(e, rank, fileExists);
      var ab := a + b;
      assert ab[0] == e && ab[1..] == a[1..] + b;
      EntryCellsContents(e, rank, fileExists);
      assert a == [e] + a[1..];
      PresentAppend([e], a[1..], fileExists);
      GroupCellsAppend(a[1..], b, rank', rankB, fileExists);
      Regroup(GroupCells(ab, rank, fileExists), EntryCells(e, rank, fileExists),
              GroupCells(a[1..] + b, rank', fileExists), GroupCells(a[1..], rank', fileExists),
              GroupCells(b, rankB, fileExists), GroupCells(a, rank, fileExists));
    }
  }

  lemma Regroup(whole: GridRows, first: GridRows, tail: GridRows, middle: GridRows, last: GridRows, front: GridRows)
    requires whole == first.Append(tail) && tail == middle.Append(last) && front == first.Append(middle)
    ensures whole == front.Append(last)
  {
    AppendAssoc(first, middle, last);
  }

  /** Four more rows add one more group's cells. */
  lemma TableCellsSnoc(whole: seq<seq<Cell>>, before: seq<seq<Cell>>, last: seq<seq<Cell>>)
    requires whole == before + last && |last| == RowsPerGroup
    ensures TableCells(whole) == TableCells(before).Append(GridRows(last[0], last[1], last[2]))
  {
    assert whole[..|whole| - RowsPerGroup] == before;
  }

  /** The cells of a group's four rows are the group's cells. */
  lemma GroupTableCells(c: GridRows)
    ensures TableCells(c.TableRows()) == c
  {
    var t := c.TableRows();
    assert t[..|t| - RowsPerGroup] == [];
    AppendNoCells(c);
  }

  /** The first `k` groups' rows hold the cells of the entries of those
      groups laid out in one run from the page's rank. */
  lemma {:induction false} PageRowsCells(page: seq<MemeRecord>, rank: int, k: nat, fileExists: string -> bool)
    requires k <= |Groups(page)|
    ensures TableCells(PageRows(page, rank, k, fileExists)) == GroupCells(Concat(Groups(page)[..k]), rank, fileExists)
    decreases k
  {
    var groups := Groups(page);
    if k == 0 {
      assert groups[..0] == [];
    } else {
      var before := PageRows(page, rank, k - 1, fileExists);
      var c := GroupCells(groups[k - 1], GroupRank(page, rank, k - 1, fileExists), fileExists);
      PageRowsCells(page, rank, k - 1, fileExists);
      TableCellsSnoc(PageRows(page, rank, k, fileExists), before, c.TableRows());
      ConcatSnoc(groups, k - 1);
      GroupCellsAppend(Concat(groups[..k - 1]), groups[k - 1], rank, GroupRank(page, rank, k - 1, fileExists), fileExists);
    }
  }

  /** A page's table holds the cells of the page's entries laid out in one
      run from the page's rank. */
  lemma PageTableCells(page: seq<MemeRecord>, rank: int, fileExists: string -> bool)
    ensures TableCells(PageTable(page, rank, fileExists)) == GroupCells(page, rank, fileExists)
  {
    var groups := Groups(page);
    PageRowsCells(page, rank, |groups|, fileExists);
    assert groups[..|groups|] == groups;
    ChunkConcat(page, GridWidth);
  }

  // ---------------------------------------------------------------------
  // One section: ranks run on across pages
  // ---------------------------------------------------------------------

  /** A table and its page break add the table's cells. */
  lemma FlowCellsPageStep(whole: seq<Flowable>, before: seq<Flowable>, t: seq<seq<Cell>>, style: seq<nat>)
    requires whole == before + [Table(t, style), PageBreak]
    ensures FlowCells(whole) == FlowCells(before).Append(TableCells(t))
  {
    var withTable := before + [Table(t, style)];
    assert whole[..|whole| - 1] == withTable;
    assert withTable[..|withTable| - 1] == before;
  }

  lemma HeaderCells(title: string)
    ensures FlowCells(SectionHeader(title)) == NoCells
  {
    var h := SectionHeader(title);
    var h2 := [SectionSpacer, Heading(title)];
    assert h[..|h| - 1] == h2 && h2[..1] == [SectionSpacer] && [SectionSpacer][..0] == [];
    assert FlowCells([SectionSpacer]) == NoCells;
    assert FlowCells(h2) == NoCells;
  }

  /** The tables of the first `p` pages hold the cells of those pages'
      entries laid out in one run from the starting rank. */
  lemma {:induction false} SectionPagesCells(section: seq<MemeRecord>, title: string, startingRank: int, p: nat,
                                             fileExists: string -> bool)
    requires p <= |Pages(section)|
    ensures FlowCells(SectionHeader(title) + PagesContent(section, startingRank, p, fileExists))
         == GroupCells(Concat(Pages(section)[..p]), startingRank, fileExists)
    decreases p
  {
    var pages := Pages(section);
    if p == 0 {
      assert SectionHeader(title) + [] == SectionHeader(title);
      assert pages[..0] == [];
      HeaderCells(title);
    } else {
      var before := SectionHeader(title) + PagesContent(section, startingRank, p - 1, fileExists);
      var t := TableAt(section, startingRank, p - 1, fileExists);
      var rank := PageStartRank(section, startingRank, p - 1, fileExists);
      SectionPagesCells(section, title, startingRank, p - 1, fileExists);
      FlowCellsPageStep(SectionHeader(title) + PagesContent(section, startingRank, p, fileExists), before, t,
                        StyleRows(section, startingRank, p, fileExists));
      PageTableCells(pages[p - 1], rank, fileExists);
      ConcatSnoc(pages, p - 1);
      GroupCellsAppend(Concat(pages[..p - 1]), pages[p - 1], startingRank, rank, fileExists);
    }
  }

  /** The section's tables, read page by page and group by group, hold
      exactly the cells of its entries laid out one after another with a
      single running rank: the rank carries over from page to page. */
  lemma SectionCells(section: seq<MemeRecord>, title: string, startingRank: int, fileExists: string -> bool)
    ensures FlowCells(SectionLayout(section, title, startingRank, fileExists)) == GroupCells(section, startingRank, fileExists)
  {
    var pages := Pages(section);
    SectionPagesCells(section, title, startingRank, |pages|, fileExists);
    assert pages[..|pages|] == pages;
    ChunkConcat(section, EntriesPerPage);
  }

  /** Across the whole section the captions number the entries whose image
      exists `startingRank, startingRank + 1, ...` in order, every such entry
      has its picture and like count, and every missing one leaves three
      blank image cells. */
  lemma SectionContents(section: seq<MemeRecord>, title: string, startingRank: int, fileExists: string -> bool)
    ensures FlowCells(SectionLayout(section, title, startingRank, fileExists)).captions
         == NumberedCaptions(PresentEntries(section, fileExists), startingRank)
    ensures FlowCells(SectionLayout(section, title, startingRank, fileExists)).likes
         == LikesLabels(PresentEntries(section, fileExists))
    ensures Pictures(FlowCells(SectionLayout(section, title, startingRank, fileExists)).images)
         == ImagePaths(PresentEntries(section, fileExists))
    ensures BlankCount(FlowCells(SectionLayout(section, title, startingRank, fileExists)).images)
         == MissingWidth * (|section| - CountPresent(section, fileExists))
  {
    SectionCells(section, title, startingRank, fileExists);
    GroupCellsContents(section, startingRank, fileExists);
  }

  /** After the last page the rank has moved past every entry whose image
      exists. */
  lemma FinalRank(section: seq<MemeRecord>, startingRank: int, fileExists: string -> bool)
    ensures PageStartRank(section, startingRank, |Pages(section)|, fileExists)
         == startingRank + CountPresent(section, fileExists)
  {
    var pages := Pages(section);
    assert pages[..|pages|] == pages;
    ChunkConcat(section, EntriesPerPage);
  }

  // ---------------------------------------------------------------------
  // Pages and the section's shape
  // ---------------------------------------------------------------------

  /** The section's pages are its consecutive slices of nine entries (the
      last may be shorter), there are ceil(K / 9) of them, together they give
      back the section, and page `p` starts at the rank after the entries of
      earlier pages whose image exists. */
  lemma SectionPages(section: seq<MemeRecord>, startingRank: int, p: nat, fileExists: string -> bool)
    requires EntriesPerPage * p < |section|
    ensures |Pages(section)| == CeilDiv(|section|, EntriesPerPage)
    ensures Concat(Pages(section)) == section
    ensures p < |Pages(section)|
    ensures Pages(section)[p] == section[EntriesPerPage * p..Min(EntriesPerPage * p + EntriesPerPage, |section|)]
    ensures 0 < |Pages(section)[p]| <= EntriesPerPage
    ensures p < |Pages(section)| - 1 ==> |Pages(section)[p]| == EntriesPerPage
    ensures PageStartRank(section, startingRank, p, fileExists)
         == startingRank + CountPresent(section[..EntriesPerPage * p], fileExists)
  {
    ChunkConcat(section, EntriesPerPage);
    CeilDivBound(p, |section|, EntriesPerPage);
    ChunkSlice(section, EntriesPerPage, p);
    ChunkSizes(section, EntriesPerPage, p);
    ChunkPrefix(section, EntriesPerPage, p);
    assert Min(p * EntriesPerPage, |section|) == EntriesPerPage * p;
  }

  /** Groups hold three entries, the last of a page between one and three. */
  lemma GroupSizes(page: seq<MemeRecord>, j: nat)
    requires j < |Groups(page)|
    ensures 0 < |Groups(page)[j]| <= GridWidth
    ensures j < |Groups(page)| - 1 ==> |Groups(page)[j]| == GridWidth
  {
    ChunkSizes(page, GridWidth, j);
  }

  /** The first `p` pages contribute a table and a page break each. */
  lemma {:induction false} PagesContentLength(section: seq<MemeRecord>, startingRank: int, p: nat, fileExists: string -> bool)
    requires p <= |Pages(section)|
    ensures |PagesContent(section, startingRank, p, fileExists)| == 2 * p
    decreases p
  {
    if p > 0 {
      PagesContentLength(section, startingRank, p - 1, fileExists);
    }
  }

  /** The tables of the first `p` pages, each styled as it is when its page
      is laid out. */
  function PageTables(section: seq<MemeRecord>, startingRank: int, p: nat, fileExists: string -> bool): (ts: seq<Flowable>)
    requires p <= |Pages(section)|
  {
    seq(p, q requires 0 <= q < p =>
      Table(TableAt(section, startingRank, q, fileExists), StyleRows(section, startingRank, q + 1, fileExists)))
  }

  /** The pages' content is their tables, each followed by a page break. */
  lemma {:induction false} PagesContentInterleaves(section: seq<MemeRecord>, startingRank: int, p: nat,
                                                   fileExists: string -> bool)
    requires p <= |Pages(section)|
    ensures PagesContent(section, startingRank, p, fileExists)
         == Interleave(PageTables(section, startingRank, p, fileExists), PageBreak)
    decreases p
  {
    if p > 0 {
      PagesContentInterleaves(section, startingRank, p - 1, fileExists);
      var before := PageTables(section, startingRank, p - 1, fileExists);
      var whole := PageTables(section, startingRank, p, fileExists);
      SeqSnoc(whole, before);
      InterleaveSnoc(whole, before, whole[p - 1], PageBreak);
    }
  }

  /** Page `q` of the first `p` is its table, styled with the rows of pages
      `0 .. q`, followed by one page break. */
  lemma PagesContentAt(section: seq<MemeRecord>, startingRank: int, p: nat, q: nat, fileExists: string -> bool)
    requires q < p <= |Pages(section)|
    ensures 2 * q + 1 < |PagesContent(section, startingRank, p, fileExists)|
    ensures PagesContent(section, startingRank, p, fileExists)[2 * q]
         == Table(TableAt(section, startingRank, q, fileExists), StyleRows(section, startingRank, q + 1, fileExists))
    ensures PagesContent(section, startingRank, p, fileExists)[2 * q + 1] == PageBreak
  {
    PagesContentInterleaves(section, startingRank, p, fileExists);
    InterleaveItem(PagesContent(section, startingRank, p, fileExists), PageTables(section, startingRank, p, fileExists),
                   PageBreak, q,
                   Table(TableAt(section, startingRank, q, fileExists), StyleRows(section, startingRank, q + 1, fileExists)));
  }

  /** A section opens with a spacer, its title and a page break, and then
      has, for each page, its table followed by exactly one page break. */
  lemma SectionShape(section: seq<MemeRecord>, title: string, startingRank: int, q: nat, fileExists: string -> bool)
    requires q < |Pages(section)|
    ensures |SectionLayout(section, title, startingRank, fileExists)| == SectionHeaderLength + 2 * |Pages(section)|
    ensures SectionLayout(section, title, startingRank, fileExists)[..SectionHeaderLength]
         == [SectionSpacer, Heading(title), PageBreak]
    ensures SectionLayout(section, title, startingRank, fileExists)[SectionHeaderLength + 2 * q]
         == Table(TableAt(section, startingRank, q, fileExists), StyleRows(section, startingRank, q + 1, fileExists))
    ensures SectionLayout(section, title, startingRank, fileExists)[SectionHeaderLength + 2 * q + 1] == PageBreak
  {
    PagesContentLength(section, startingRank, |Pages(section)|, fileExists);
    PagesContentAt(section, startingRank, |Pages(section)|, q, fileExists);
  }

  /** An empty section is its header alone. */
  lemma EmptySection(title: string, startingRank: int, fileExists: string -> bool)
    ensures SectionLayout([], title, startingRank, fileExists) == [SectionSpacer, Heading(title), PageBreak]
  {
    assert Pages([]) == [];
  }

  // ---------------------------------------------------------------------
  // Orange like-count rows
  // ---------------------------------------------------------------------

  lemma ModBelow(d: nat, step: nat)
    requires 0 < d < step
    ensures d % step != 0
  {
  }

  /** `range(lo, hi, step)` holds exactly the numbers from `lo` up to but
      not including `hi` that lie a multiple of `step` above `lo`. */
  lemma {:induction false} RangeStepMembers(lo: nat, hi: nat, step: nat, x: nat)
    requires 0 < step
    ensures x in RangeStep(lo, hi, step) <==> lo <= x < hi && (x - lo) % step == 0
    decreases hi - lo
  {
    if lo < hi {
      RangeStepMembers(lo + step, hi, step, x);
      if lo < x < lo + step {
        ModBelow(x - lo, step);
      } else if lo + step <= x {
        ModShift(x - lo, step);
      }
    }
  }

  /** The rows coloured orange on a table of `n` rows are exactly the rows
      2, 6, 10, ... below `n`. */
  lemma LikesRowsExactly(n: nat, x: nat)
    ensures x in LikesRows(n) <==> x < n && x % RowsPerGroup == LikesRowOffset
  {
    RangeStepMembers(LikesRowOffset, n, RowsPerGroup, x);
    if LikesRowOffset <= x {
      ModShift(x + RowsPerGroup - LikesRowOffset, RowsPerGroup);
    }
  }

  lemma WindowElement<T>(whole: seq<T>, lo: nat, w: nat, window: seq<T>, k: nat, x: T)
    requires lo + w <= |whole| && whole[lo..lo + w] == window && k < w && window[k] == x
    ensures lo + k < |whole| && whole[lo + k] == x
  {
    assert whole[lo + k] == whole[lo..lo + w][k];
  }

  /** Row `4j + 2` is row 2 of group `j`. */
  lemma LikesRowOfGroup(j: nat)
    ensures (RowsPerGroup * j + LikesRowOffset) / RowsPerGroup == j
    ensures (RowsPerGroup * j + LikesRowOffset) % RowsPerGroup == LikesRowOffset
  {
    DivIsQuotient(RowsPerGroup * j + LikesRowOffset, RowsPerGroup, j);
  }

  /** Row `4j + 2` of a page table is group `j`'s like-count row. */
  lemma LikesRowOfTable(page: seq<MemeRecord>, rank: int, j: nat, fileExists: string -> bool)
    requires j < |Groups(page)|
    ensures RowsPerGroup * j + LikesRowOffset < |PageTable(page, rank, fileExists)|
    ensures PageTable(page, rank, fileExists)[RowsPerGroup * j + LikesRowOffset]
         == GroupCells(Groups(page)[j], GroupRank(page, rank, j, fileExists), fileExists).likes
  {
    var g, r := Groups(page)[j], GroupRank(page, rank, j, fileExists);
    var rows := GroupTableRows(g, r, fileExists);
    var t := PageTable(page, rank, fileExists);
    var lo := RowsPerGroup * j;
    assert lo + RowsPerGroup <= |t| && t[lo..lo + RowsPerGroup] == rows by {
      PageRowsWindow(page, rank, |Groups(page)|, j, fileExists);
    }
    assert rows[LikesRowOffset] == GroupCells(g, r, fileExists).likes;
    WindowElement(t, lo, RowsPerGroup, rows, LikesRowOffset, rows[LikesRowOffset]);
  }

  /** Row `4j + 2` of a page table, group `j`'s like-count row, is coloured
      orange. */
  lemma LikesRowIsOrange(page: seq<MemeRecord>, rank: int, j: nat, fileExists: string -> bool)
    requires j < |Groups(page)|
    ensures RowsPerGroup * j + LikesRowOffset < |PageTable(page, rank, fileExists)|
    ensures RowsPerGroup * j + LikesRowOffset in LikesRows(|PageTable(page, rank, fileExists)|)
    ensures PageTable(page, rank, fileExists)[RowsPerGroup * j + LikesRowOffset]
         == GroupCells(Groups(page)[j], GroupRank(page, rank, j, fileExists), fileExists).likes
  {
    LikesRowOfTable(page, rank, j, fileExists);
    LikesRowOfGroup(j);
    LikesRowsExactly(|PageTable(page, rank, fileExists)|, RowsPerGroup * j + LikesRowOffset);
  }

  /** Every row coloured orange on a page table is the like-count row of a
      group: row `x` belongs to group `x / 4`. */
  lemma OrangeRowIsLikesRow(page: seq<MemeRecord>, rank: int, x: nat, fileExists: string -> bool)
    requires x in LikesRows(|PageTable(page, rank, fileExists)|)
    ensures x < |PageTable(page, rank, fileExists)|
    ensures x / RowsPerGroup < |Groups(page)|
    ensures x == RowsPerGroup * (x / RowsPerGroup) + LikesRowOffset
    ensures PageTable(page, rank, fileExists)[x]
         == GroupCells(Groups(page)[x / RowsPerGroup], GroupRank(page, rank, x / RowsPerGroup, fileExists), fileExists).likes
  {
    var t := PageTable(page, rank, fileExists);
    LikesRowsExactly(|t|, x);
    PageTableLength(page, rank, fileExists);
    var j := x / RowsPerGroup;
    assert x == RowsPerGroup * j + LikesRowOffset;
    assert j < CeilDiv(|page|, GridWidth);
    LikesRowIsOrange(page, rank, j, fileExists);
  }

  /** No page's table is longer than the first page's. */
  lemma TableAtLength(section: seq<MemeRecord>, startingRank: int, q: nat, fileExists: string -> bool)
    requires q < |Pages(section)|
    ensures |TableAt(section, startingRank, q, fileExists)| == RowsPerGroup * CeilDiv(|Pages(section)[q]|, GridWidth)
    ensures |TableAt(section, startingRank, q, fileExists)| <= |TableAt(section, startingRank, 0, fileExists)|
  {
    var pages := Pages(section);
    PageTableLength(pages[q], PageStartRank(section, startingRank, q, fileExists), fileExists);
    PageTableLength(pages[0], PageStartRank(section, startingRank, 0, fileExists), fileExists);
    ChunkSizes(section, EntriesPerPage, q);
    ChunkSizes(section, EntriesPerPage, 0);
    if q > 0 {
      CeilDivMonotone(|pages[q]|, |pages[0]|, GridWidth);
    }
  }

  /** The section shares one table style that every page adds its orange
      rows to, and a table is styled with what the style holds at that
      point. So every page's table is coloured on the rows 2, 6, 10, ...
      below the length of the FIRST page's table, the longest one; on a
      shorter last page some of those rows lie past its end. */
  lemma {:induction false} SharedStyle(section: seq<MemeRecord>, startingRank: int, p: nat, x: nat,
                                       fileExists: string -> bool)
    requires p < |Pages(section)|
    ensures x in StyleRows(section, startingRank, p + 1, fileExists)
        <==> x < |TableAt(section, startingRank, 0, fileExists)| && x % RowsPerGroup == LikesRowOffset
    decreases p
  {
    var t := TableAt(section, startingRank, p, fileExists);
    LikesRowsExactly(|t|, x);
    TableAtLength(section, startingRank, p, fileExists);
    if p > 0 {
      SharedStyle(section, startingRank, p - 1, x, fileExists);
    }
  }

  // ---------------------------------------------------------------------
  // Captions and like counts read back
  // ---------------------------------------------------------------------

  /** A caption made of an integer's text, `. ` and a date reads back as
      that integer and that date. */
  lemma ParseCaptionOf(d: string, date: string, n: int)
    requires ParseInt(d) == Some(n)
    ensures ParseCaption(d + ". " + date) == Some((n, date))
  {
    var t := d + ". " + date;
    var sign := if d[0] == '-' then 1 else 0;
    assert t == d + (". " + date);
    assert t[0] == d[0];
    var digits := d[sign..];
    assert AllDigits(digits);
    assert t[sign..] == digits + (". " + date);
    DigitRunOfDigits(digits, ". " + date);
    assert t[..|d|] == d;
    assert t[|d|..|d| + 2] == ". ";
    assert t[|d| + 2..] == date;
  }

  /** A caption determines its rank and date. */
  lemma CaptionRoundTrip(rank: int, date: string)
    ensures ParseCaption(CaptionText(rank, date)) == Some((rank, date))
  {
    IntToDecimalRoundTrip(rank);
    ParseCaptionOf(IntToDecimal(rank), date, rank);
  }

  /** A like-count label determines the count. */
  lemma LikesRoundTrip(likes: int)
    ensures ParseLikes(LikesText(likes)) == Some(likes)
  {
    var t := LikesText(likes);
    assert t[..7] == "Likes: " && t[7..] == IntToDecimal(likes);
    IntToDecimalRoundTrip(likes);
  }

  /** Cells numbered from `rank` read back as the entries' ranks, dates
      and like counts. */
  lemma CellsReadBack(c: GridRows, es: seq<MemeRecord>, rank: int, i: nat)
    requires c.captions == NumberedCaptions(es, rank)
    requires c.likes == LikesLabels(es)
    requires i < |es|
    ensures i < |c.captions| && c.captions[i].Label?
    ensures ParseCaption(c.captions[i].text) == Some((rank + i, es[i].date))
    ensures i < |c.likes| && c.likes[i].Label?
    ensures ParseLikes(c.likes[i].text) == Some(es[i].likesCount)
  {
    CaptionRoundTrip(rank + i, es[i].date);
    LikesRoundTrip(es[i].likesCount);
  }

  /** Reading a section's captions and like counts back: the `i`-th caption
      names rank `startingRank + i` and the date of the `i`-th entry whose
      image exists, and the `i`-th like-count label names its like count. */
  lemma SectionReadsBack(section: seq<MemeRecord>, title: string, startingRank: int, i: nat, fileExists: string -> bool)
    requires i < CountPresent(section, fileExists)
    ensures i < |FlowCells(SectionLayout(section, title, startingRank, fileExists)).captions|
    ensures i < |FlowCells(SectionLayout(section, title, startingRank, fileExists)).likes|
    ensures FlowCells(SectionLayout(section, title, startingRank, fileExists)).captions[i].Label?
    ensures ParseCaption(FlowCells(SectionLayout(section, title, startingRank, fileExists)).captions[i].text)
         == Some((startingRank + i, PresentEntries(section, fileExists)[i].date))
    ensures FlowCells(SectionLayout(section, title, startingRank, fileExists)).likes[i].Label?
    ensures ParseLikes(FlowCells(SectionLayout(section, title, startingRank, fileExists)).likes[i].text)
         == Some(PresentEntries(section, fileExists)[i].likesCount)
  {
    SectionContents(section, title, startingRank, fileExists);
    CellsReadBack(FlowCells(SectionLayout(section, title, startingRank, fileExists)),
                  PresentEntries(section, fileExists), startingRank, i);
  }
}
