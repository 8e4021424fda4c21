/** The main block of `generate_meme_report.py`: both queries on the `memes`
    table, each laid out as a section from rank 1, and how the report finds
    the images the extraction wrote. The title page is not modelled. */
module Report {

  import opened Wrappers
  import opened Records
  import opened Seqs
  import opened Ranking
  import opened Layout
  import LayoutProofs
  import Extraction

  const TopTitle: string := "Top 100 Memes"
  const BottomTitle: string := "Bottom 100 Memes"
  /** `process_meme_data`'s default `starting_rank`, used by both calls. */
  const StartingRank: int := 1

  function Title(dir: Direction): string {
    match dir
    case Descending => TopTitle
    case Ascending => BottomTitle
  }

  /** `process_meme_data(top_100_memes, "Top 100 Memes")`, or the bottom
      section likewise, for the rows `answer` the query returned. */
  function Section(answer: seq<MemeRecord>, dir: Direction, fileExists: string -> bool): seq<Flowable> {
    SectionLayout(answer, Title(dir), StartingRank, fileExists)
  }

  /** The report after its title page, for the answers `top` and `bottom`
      of the two queries: the top section, then the bottom one. The
      database may break ties in the like count either way, so the facts
      below hold for every pair of answers the queries allow. */
  function MemeReport(top: seq<MemeRecord>, bottom: seq<MemeRecord>, fileExists: string -> bool): seq<Flowable> {
    Section(top, Descending, fileExists) + Section(bottom, Ascending, fileExists)
  }

  /** A query returns at most 99 rows, so a section has at most eleven
      pages. */
  lemma SectionPageCount(table: seq<MemeRecord>, dir: Direction, answer: seq<MemeRecord>)
    requires IsSelection(table, dir, answer)
    ensures |answer| <= QueryLimit
    ensures |Pages(answer)| <= 11
  {
    CeilDivMonotone(|answer|, QueryLimit, EntriesPerPage);
    CeilDivIsCeiling(QueryLimit, EntriesPerPage);
  }

  /** A section is its three-flowable header followed by two flowables a
      page. */
  lemma SectionHeaderAndLength(section: seq<MemeRecord>, title: string, fileExists: string -> bool)
    ensures |SectionLayout(section, title, StartingRank, fileExists)| == SectionHeaderLength + 2 * |Pages(section)|
    ensures SectionLayout(section, title, StartingRank, fileExists)[..SectionHeaderLength]
         == [SectionSpacer, Heading(title), PageBreak]
  {
    LayoutProofs.PagesContentLength(section, StartingRank, |Pages(section)|, fileExists);
  }

  lemma JoinAt<T>(whole: seq<T>, a: seq<T>, b: seq<T>, n: nat)
    requires whole == a + b && n <= |a| && n <= |b|
    ensures whole[..n] == a[..n] && whole[|a|..|a| + n] == b[..n]
  {
  }

  /** The report is the top section's header and pages, then the bottom
      section's header and pages, each page a table and a page break. */
  lemma ReportShape(top: seq<MemeRecord>, bottom: seq<MemeRecord>, fileExists: string -> bool)
    ensures var n := SectionHeaderLength + 2 * |Pages(top)|;
      && |MemeReport(top, bottom, fileExists)| == n + SectionHeaderLength + 2 * |Pages(bottom)|
      && MemeReport(top, bottom, fileExists)[..SectionHeaderLength] == [SectionSpacer, Heading(TopTitle), PageBreak]
      && MemeReport(top, bottom, fileExists)[n..n + SectionHeaderLength]
         == [SectionSpacer, Heading(BottomTitle), PageBreak]
  {
    SectionHeaderAndLength(top, TopTitle, fileExists);
    SectionHeaderAndLength(bottom, BottomTitle, fileExists);
    JoinAt(MemeReport(top, bottom, fileExists), Section(top, Descending, fileExists),
           Section(bottom, Ascending, fileExists), SectionHeaderLength);
  }

  /** The entries that receive a rank keep the query's order. */
  lemma {:induction false} PresentEntriesRanked(s: seq<MemeRecord>, dir: Direction, fileExists: string -> bool)
    requires Ranked(s, dir)
    ensures Ranked(PresentEntries(s, fileExists), dir)
    decreases |s|
  {
    if |s| > 0 {
      var rest := s[1..];
      assert Ranked(rest, dir) by {
        forall i, j | 0 <= i < j < |rest| ensures InOrder(rest[i], rest[j], dir) {
          assert rest[i] == s[i + 1] && rest[j] == s[j + 1];
        }
      }
      PresentEntriesRanked(rest, dir, fileExists);
      if Present(s[0], fileExists) {
        LayoutProofs.PresentEntriesAreFiltered(rest, fileExists);
        forall y | y in PresentEntries(rest, fileExists) ensures InOrder(s[0], y, dir) {
          var j :| 0 <= j < |rest| && rest[j] == y;
          assert s[j + 1] == y;
        }
        RankedCons(s[0], PresentEntries(rest, fileExists), dir);
      }
    }
  }

  /** The `i`-th entry of a ranked list that receives a rank is one of
      the list's entries, its image exists, and it ranks ahead of every
      later ranked entry. */
  lemma RankedEntry(s: seq<MemeRecord>, dir: Direction, fileExists: string -> bool, i: nat)
    requires Ranked(s, dir)
    requires i < CountPresent(s, fileExists)
    ensures PresentEntries(s, fileExists)[i] in s
    ensures Present(PresentEntries(s, fileExists)[i], fileExists)
    ensures forall j :: i < j < CountPresent(s, fileExists) ==>
      InOrder(PresentEntries(s, fileExists)[i], PresentEntries(s, fileExists)[j], dir)
  {
    LayoutProofs.PresentEntriesAreFiltered(s, fileExists);
    assert PresentEntries(s, fileExists)[i] in PresentEntries(s, fileExists);
    PresentEntriesRanked(s, dir, fileExists);
  }

  /** The `i`-th ranked entry of a section carries rank `1 + i`, which stays
      below 100 whatever the title says; it is a row of the table with a
      positive like count whose image exists, and it ranks, in the query's
      order, ahead of every later ranked entry. This holds for every answer
      the query allows, whatever order it gives rows with equal counts. */
  lemma SectionEntry(table: seq<MemeRecord>, dir: Direction, answer: seq<MemeRecord>, fileExists: string -> bool, i: nat)
    requires IsSelection(table, dir, answer)
    requires i < CountPresent(answer, fileExists)
    ensures i < QueryLimit
    ensures var e := PresentEntries(answer, fileExists)[i];
      && e in table && e.likesCount > 0 && Present(e, fileExists)
      && (forall j :: i < j < CountPresent(answer, fileExists) ==>
            InOrder(e, PresentEntries(answer, fileExists)[j], dir))
  {
    RankedEntry(answer, dir, fileExists, i);
    var e := PresentEntries(answer, fileExists)[i];
    var k :| 0 <= k < |answer| && answer[k] == e;
    assert e in multiset(answer);
  }

  /** The section's `i`-th caption and like label read back as rank `1 + i`
      and the date and like count of its `i`-th ranked entry. */
  lemma SectionCaptions(answer: seq<MemeRecord>, dir: Direction, fileExists: string -> bool, i: nat)
    requires i < CountPresent(answer, fileExists)
    ensures var cells := LayoutProofs.FlowCells(Section(answer, dir, fileExists));
      && i < |cells.captions| && i < |cells.likes|
      && cells.captions[i].Label? && cells.likes[i].Label?
      && ParseCaption(cells.captions[i].text)
         == Some((StartingRank + i, PresentEntries(answer, fileExists)[i].date))
      && ParseLikes(cells.likes[i].text) == Some(PresentEntries(answer, fileExists)[i].likesCount)
  {
    LayoutProofs.SectionReadsBack(answer, Title(dir), StartingRank, i, fileExists);
  }

  // ---------------------------------------------------------------------
  // The two scripts together
  // ---------------------------------------------------------------------

  /** `os.path.exists` after an extraction run: the files it wrote. */
  function OnDisk(o: Extraction.Outcome): string -> bool {
    path => path in o.files
  }

  /** The report looks for a row's image exactly where the extraction wrote
      it, provided the formatted date has no `/`. */
  lemma ImagePathIsWrittenFile(item: Extraction.ArchiveItem, env: Extraction.Env)
    requires Extraction.Inserted(item, env).Some?
    requires '/' !in Extraction.Inserted(item, env).value.date
    ensures ImagePath(Extraction.Inserted(item, env).value.localFile)
         == Extraction.ImageFile(Extraction.Inserted(item, env).value.date)
  {
    Extraction.InsertedRowContents(item, env);
  }

  /** Every committed row whose date has no `/` has its image on disk after
      the run, so the report ranks it rather than leaving blank cells. */
  lemma CommittedRowIsPresent(items: seq<Extraction.ArchiveItem>, env: Extraction.Env, row: MemeRecord)
    requires row in Extraction.Extract(items, env).committed
    requires '/' !in row.date
    ensures Present(row, OnDisk(Extraction.Extract(items, env)))
  {
    var p := Extraction.Prefix(items);
    var st := Extraction.Run(p, env);
    Extraction.ExtractedRows(items, env);
    Extraction.RunFiles(p, env);
    var committed := Extraction.Extract(items, env).committed;
    var k :| 0 <= k < |committed| && committed[k] == row;
    var idx := FilterMapIndices(p, Extraction.InsertedBy(env));
    ImagePathIsWrittenFile(items[idx[k]], env);
    assert row in st.store.rows;
    assert Extraction.ImageFile(row.date) in Extraction.FilesOf(st.store.rows);
  }
}
