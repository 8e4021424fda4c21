/** What the report's two queries select from the `memes` table:
    `WHERE likes_count > 0 ORDER BY likes_count DESC|ASC LIMIT 99`.
    The relative order of rows with equal like counts is left to the
    database; `IsSelection` admits every such order and `Select` is one of
    them. */
module Ranking {

  import opened Records
  import opened Seqs

  const QueryLimit: nat := 99

  datatype Direction = Descending | Ascending

  /** `a` may come before `b` in the query's ORDER BY. */
  predicate InOrder(a: MemeRecord, b: MemeRecord, dir: Direction) {
    match dir
    case Descending => a.likesCount >= b.likesCount
    case Ascending => a.likesCount <= b.likesCount
  }

  predicate Ranked(s: seq<MemeRecord>, dir: Direction) {
    forall i, j :: 0 <= i < j < |s| ==> InOrder(s[i], s[j], dir)
  }

  /** The rows the WHERE clause keeps, in table order. */
  function Positive(table: seq<MemeRecord>): (r: seq<MemeRecord>)
    ensures forall i :: 0 <= i < |r| ==> r[i].likesCount > 0
    ensures multiset(r) <= multiset(table)
    decreases |table|
  {
    if |table| == 0 then []
    else
      assert table == [table[0]] + table[1..];
      if table[0].likesCount > 0 then [table[0]] + Positive(table[1..]) else Positive(table[1..])
  }

  lemma RankedCons(h: MemeRecord, t: seq<MemeRecord>, dir: Direction)
    requires Ranked(t, dir)
    requires forall y :: y in t ==> InOrder(h, y, dir)
    ensures Ranked([h] + t, dir)
  {
    var r := [h] + t;
    forall i, j | 0 <= i < j < |r|
      ensures InOrder(r[i], r[j], dir)
    {
      assert r[j] == t[j - 1];
      if i > 0 {
        assert r[i] == t[i - 1];
      } else {
        assert t[j - 1] in t;
      }
    }
  }

  /** The recursive step of `Insert`: `x` goes behind the head `s[0]`. */
  lemma InsertBehindHead(x: MemeRecord, s: seq<MemeRecord>, dir: Direction, tail: seq<MemeRecord>)
    requires Ranked(s, dir) && 0 < |s| && !InOrder(x, s[0], dir)
    requires Ranked(tail, dir) && multiset(tail) == multiset(s[1..]) + multiset{x}
    ensures Ranked([s[0]] + tail, dir)
    ensures multiset([s[0]] + tail) == multiset(s) + multiset{x}
  {
    assert s == [s[0]] + s[1..];
    forall y | y in tail
      ensures InOrder(s[0], y, dir)
    {
      assert y in multiset(tail);
      if y != x {
        assert y in multiset(s[1..]);
        var j :| 0 <= j < |s[1..]| && s[1..][j] == y;
        assert s[j + 1] == y;
      }
    }
    RankedCons(s[0], tail, dir);
  }

  function Insert(x: MemeRecord, s: seq<MemeRecord>, dir: Direction): (r: seq<MemeRecord>)
    requires Ranked(s, dir)
    ensures Ranked(r, dir)
    ensures multiset(r) == multiset(s) + multiset{x}
    decreases |s|
  {
    if |s| == 0 || InOrder(x, s[0], dir) then
      RankedCons(x, s, dir);
      [x] + s
    else
      var tail := Insert(x, s[1..], dir);
      InsertBehindHead(x, s, dir, tail);
      [s[0]] + tail
  }

  function Sort(s: seq<MemeRecord>, dir: Direction): (r: seq<MemeRecord>)
    ensures Ranked(r, dir)
    ensures multiset(r) == multiset(s)
    decreases |s|
  {
    if |s| == 0 then []
    else
      assert s == [s[0]] + s[1..];
      Insert(s[0], Sort(s[1..], dir), dir)
  }

  /** `r` is a possible answer of the query on `table`: only rows with a
      positive like count, in the requested order, as many as the limit
      allows, taken from the table, and no row left out ranks ahead of a row
      taken. */
  ghost predicate IsSelection(table: seq<MemeRecord>, dir: Direction, r: seq<MemeRecord>) {
    && (forall i :: 0 <= i < |r| ==> r[i].likesCount > 0)
    && Ranked(r, dir)
    && |r| == Min(QueryLimit, |Positive(table)|)
    && multiset(r) <= multiset(table)
    && (forall x, i :: x in multiset(Positive(table)) - multiset(r) && 0 <= i < |r| ==> InOrder(r[i], x, dir))
  }

  /** The WHERE clause keeps every row with a positive like count, as often
      as it occurs, and nothing else. */
  lemma {:induction false} PositiveKeepsExactly(table: seq<MemeRecord>, x: MemeRecord)
    ensures multiset(Positive(table))[x] == if x.likesCount > 0 then multiset(table)[x] else 0
    decreases |table|
  {
    if |table| > 0 {
      assert table == [table[0]] + table[1..];
      PositiveKeepsExactly(table[1..], x);
    }
  }

  lemma PositiveRowsArePositive(table: seq<MemeRecord>)
    ensures forall x :: x in multiset(Positive(table)) ==> x.likesCount > 0
  {
    forall x | x in multiset(Positive(table))
      ensures x.likesCount > 0
    {
      PositiveKeepsExactly(table, x);
    }
  }

  /** Every row a ranked list leaves out after position `k` ranks no
      better than each row it keeps. */
  lemma RankedSplit(sorted: seq<MemeRecord>, dir: Direction, k: nat)
    requires Ranked(sorted, dir) && k <= |sorted|
    ensures forall x, i :: x in multiset(sorted) - multiset(sorted[..k]) && 0 <= i < k ==> InOrder(sorted[i], x, dir)
  {
    var r := sorted[..k];
    assert sorted == r + sorted[k..];
    assert multiset(sorted) == multiset(r) + multiset(sorted[k..]);
    forall x, i | x in multiset(sorted) - multiset(r) && 0 <= i < k
      ensures InOrder(sorted[i], x, dir)
    {
      assert x in multiset(sorted[k..]);
      var j :| 0 <= j < |sorted[k..]| && sorted[k..][j] == x;
      assert sorted[k + j] == x;
    }
  }

  lemma RankedPrefix(sorted: seq<MemeRecord>, dir: Direction, k: nat)
    requires Ranked(sorted, dir) && k <= |sorted|
    ensures Ranked(sorted[..k], dir)
  {
    var r := sorted[..k];
    forall i, j | 0 <= i < j < |r|
      ensures InOrder(r[i], r[j], dir)
    {
      assert r[i] == sorted[i] && r[j] == sorted[j];
    }
  }

  /** A prefix of a reordering of the eligible rows holds eligible rows of
      the table only. */
  lemma PrefixOfEligible(table: seq<MemeRecord>, sorted: seq<MemeRecord>, k: nat)
    requires multiset(sorted) == multiset(Positive(table)) && k <= |sorted|
    ensures forall i :: 0 <= i < k ==> sorted[i].likesCount > 0
    ensures multiset(sorted[..k]) <= multiset(table)
  {
    PositiveRowsArePositive(table);
    forall i | 0 <= i < k
      ensures sorted[i].likesCount > 0
    {
      assert sorted[i] in multiset(sorted);
    }
    assert sorted == sorted[..k] + sorted[k..];
    assert multiset(sorted[..k]) <= multiset(sorted);
  }

  /** Keeping the first rows of the ranked eligible rows answers the query. */
  lemma RankedPrefixIsSelection(table: seq<MemeRecord>, dir: Direction, sorted: seq<MemeRecord>)
    requires Ranked(sorted, dir)
    requires multiset(sorted) == multiset(Positive(table))
    ensures IsSelection(table, dir, sorted[..Min(QueryLimit, |sorted|)])
  {
    var k := Min(QueryLimit, |sorted|);
    assert |Positive(table)| == |sorted| by {
      assert |multiset(Positive(table))| == |multiset(sorted)|;
    }
    RankedPrefix(sorted, dir, k);
    PrefixOfEligible(table, sorted, k);
    RankedSplit(sorted, dir, k);
  }

  /** One answer of the query: sort the eligible rows and keep the first 99. */
  function Select(table: seq<MemeRecord>, dir: Direction): (r: seq<MemeRecord>)
    ensures IsSelection(table, dir, r)
  {
    var sorted := Sort(Positive(table), dir);
    RankedPrefixIsSelection(table, dir, sorted);
    sorted[..Min(QueryLimit, |sorted|)]
  }

  /** `top_100_memes` */
  function TopMemes(table: seq<MemeRecord>): (r: seq<MemeRecord>)
    ensures IsSelection(table, Descending, r)
  {
    Select(table, Descending)
  }

  /** `bottom_100_memes` */
  function BottomMemes(table: seq<MemeRecord>): (r: seq<MemeRecord>)
    ensures IsSelection(table, Ascending, r)
  {
    Select(table, Ascending)
  }
}
