/** List operations both scripts rest on: slicing into consecutive chunks,
    as the report does with `[xs[i:i + n] for i in range(0, len(xs), n)]`;
    flattening; interleaving with a separator; and keeping the results of a
    partial function, as the extraction keeps the rows its tweets insert. */
module Seqs {

  import opened Wrappers

  function Min(a: int, b: int): int {
    if a < b then a else b
  }

  /** ceil(k / n), counted out one step of `n` at a time. */
  function CeilDiv(k: nat, n: nat): nat
    requires 0 < n
    decreases k
  {
    if k == 0 then 0 else if k <= n then 1 else 1 + CeilDiv(k - n, n)
  }

  lemma MulMonotone(a: int, b: int, n: nat)
    requires a <= b
    ensures a * n <= b * n
  {
  }

  /** Division is characterised by its quotient bracketing the dividend. */
  lemma DivIsQuotient(x: nat, n: nat, q: int)
    requires 0 < n
    requires q * n <= x < q * n + n
    ensures x / n == q
  {
    var d := x / n;
    assert d * n <= x < d * n + n;
    if d < q {
      MulMonotone(d + 1, q, n);
    } else if d > q {
      MulMonotone(q + 1, d, n);
    }
  }

  /** Taking `step` away from `d` keeps its remainder. */
  lemma ModShift(d: nat, step: nat)
    requires 0 < step <= d
    ensures (d - step) % step == d % step
  {
    var q := (d - step) / step;
    var r := (d - step) % step;
    assert d == (q + 1) * step + r;
    DivIsQuotient(d, step, q + 1);
  }

  /** `CeilDiv` is the ceiling of the quotient: the least number of steps
      of `n` that reach `k`. */
  lemma {:induction false} CeilDivIsCeiling(k: nat, n: nat)
    requires 0 < n
    ensures CeilDiv(k, n) * n - n < k <= CeilDiv(k, n) * n
    ensures CeilDiv(k, n) == (k + n - 1) / n
    decreases k
  {
    var q := CeilDiv(k, n);
    if k == 0 {
    } else if k <= n {
      assert q == 1;
    } else {
      CeilDivIsCeiling(k - n, n);
      assert q * n == CeilDiv(k - n, n) * n + n;
    }
    DivIsQuotient(k + n - 1, n, q);
  }

  /** The index `j` of `range(0, k, n)` is still inside the range exactly when
      fewer than ceil(k / n) steps have been taken. */
  lemma {:induction false} CeilDivBound(j: nat, k: nat, n: nat)
    requires 0 < n
    ensures j < CeilDiv(k, n) <==> j * n < k
    decreases k
  {
    if 0 < j && n < k {
      CeilDivBound(j - 1, k - n, n);
      assert j * n == (j - 1) * n + n;
    } else if j == 0 {
    } else {
      assert n <= j * n by { MulMonotone(1, j, n); }
    }
  }

  lemma {:induction false} CeilDivMonotone(a: nat, b: nat, n: nat)
    requires 0 < n && a <= b
    ensures CeilDiv(a, n) <= CeilDiv(b, n)
    decreases b
  {
    if n < a {
      CeilDivMonotone(a - n, b - n, n);
    }
  }

  /** Flattens a list of lists. */
  function Concat<T>(ss: seq<seq<T>>): seq<T>
    decreases |ss|
  {
    if |ss| == 0 then [] else ss[0] + Concat(ss[1..])
  }

  lemma {:induction false} ConcatAppend<T>(a: seq<seq<T>>, b: seq<seq<T>>)
    ensures Concat(a + b) == Concat(a) + Concat(b)
    decreases |a|
  {
    if |a| == 0 {
      assert a + b == b;
    } else {
      assert (a + b)[1..] == a[1..] + b;
      ConcatAppend(a[1..], b);
    }
  }

  /** Flattening one more list appends it. */
  lemma ConcatSnoc<T>(ss: seq<seq<T>>, k: nat)
    requires k < |ss|
    ensures Concat(ss[..k + 1]) == Concat(ss[..k]) + ss[k]
  {
    assert ss[..k + 1] == ss[..k] + [ss[k]];
    ConcatAppend(ss[..k], [ss[k]]);
    assert Concat([ss[k]]) == ss[k] + Concat([]);
  }

  /** The consecutive slices of length `n` of `s`; the last may be shorter. */
  function Chunk<T>(s: seq<T>, n: nat): (chunks: seq<seq<T>>)
    requires 0 < n
    ensures |chunks| == CeilDiv(|s|, n)
    decreases |s|
  {
    if |s| == 0 then []
    else if |s| <= n then [s]
    else [s[..n]] + Chunk(s[n..], n)
  }

  /** Every chunk but the last holds `n` elements; the last holds between
      one and `n`. */
  lemma {:induction false} ChunkSizes<T>(s: seq<T>, n: nat, k: nat)
    requires 0 < n
    requires k < |Chunk(s, n)|
    ensures 0 < |Chunk(s, n)[k]| <= n
    ensures k < |Chunk(s, n)| - 1 ==> |Chunk(s, n)[k]| == n
    decreases |s|
  {
    if |s| <= n {
      assert Chunk(s, n) == [s];
    } else {
      var t := s[n..];
      assert Chunk(s, n) == [s[..n]] + Chunk(t, n);
      assert 0 < |Chunk(t, n)| by {
        if |t| <= n { assert Chunk(t, n) == [t]; }
      }
      if 0 < k {
        ChunkSizes(t, n, k - 1);
      }
    }
  }

  /** Putting the chunks back together gives the original list. */
  lemma {:induction false} ChunkConcat<T>(s: seq<T>, n: nat)
    requires 0 < n
    ensures Concat(Chunk(s, n)) == s
    decreases |s|
  {
    if |s| == 0 {
    } else if |s| <= n {
      assert Concat(Chunk(s, n)) == s + Concat([]);
    } else {
      var cs := Chunk(s, n);
      var rest := Chunk(s[n..], n);
      assert cs[0] == s[..n] && cs[1..] == rest;
      ChunkConcat(s[n..], n);
      assert Concat(cs) == s[..n] + s[n..];
      assert s == s[..n] + s[n..];
    }
  }

  /** Chunk `k` is the slice `s[k*n : k*n + n]`, i.e. the comprehension form. */
  lemma ChunkSlice<T>(s: seq<T>, n: nat, k: nat)
    requires 0 < n
    requires k < |Chunk(s, n)|
    ensures k * n < |s|
    ensures Chunk(s, n)[k] == s[k * n..Min(k * n + n, |s|)]
  {
    var cs := Chunk(s, n);
    CeilDivBound(k, |s|, n);
    ChunkPrefix(s, n, k);
    ChunkPrefix(s, n, k + 1);
    ConcatSnoc(cs, k);
    var lo := k * n;
    assert (k + 1) * n == lo + n;
    var hi := Min(lo + n, |s|);
    DropPrefix(s[..hi], s[..lo], cs[k]);
    assert s[..hi][lo..] == s[lo..hi];
  }

  lemma DropPrefix<T>(whole: seq<T>, a: seq<T>, x: seq<T>)
    requires whole == a + x
    ensures whole[|a|..] == x
  {
  }

  /** The first `k` chunks hold exactly the first `k * n` elements. */
  lemma {:induction false} ChunkPrefix<T>(s: seq<T>, n: nat, k: nat)
    requires 0 < n
    requires k <= |Chunk(s, n)|
    ensures Concat(Chunk(s, n)[..k]) == s[..Min(k * n, |s|)]
    decreases |s|
  {
    if k == 0 {
    } else if |s| <= n {
      assert Chunk(s, n)[..k] == [s];
      assert Concat([s]) == s + Concat([]);
      MulMonotone(1, k, n);
    } else {
      var cs := Chunk(s, n);
      var rest := Chunk(s[n..], n);
      assert Concat(cs[..k]) == s[..n] + Concat(rest[..k - 1]) by {
        assert cs == [s[..n]] + rest;
        assert cs[..k] == [s[..n]] + rest[..k - 1];
      }
      ChunkPrefix(s[n..], n, k - 1);
      var m := Min((k - 1) * n, |s| - n);
      assert n + m == Min(k * n, |s|) by {
        assert (k - 1) * n + n == k * n;
      }
      assert s[..n] + s[n..][..m] == s[..n + m];
    }
  }

  /** Each item followed by one separator. */
  function Interleave<T>(items: seq<T>, sep: T): (r: seq<T>)
    ensures |r| == 2 * |items|
    decreases |items|
  {
    if |items| == 0 then [] else Interleave(items[..|items| - 1], sep) + [items[|items| - 1], sep]
  }

  /** One more item adds itself and a separator at the end. */
  lemma InterleaveSnoc<T>(whole: seq<T>, items: seq<T>, x: T, sep: T)
    requires whole == items + [x]
    ensures Interleave(whole, sep) == Interleave(items, sep) + [x, sep]
  {
    assert whole[..|whole| - 1] == items;
  }

  /** Item `q` sits at position `2q`, its separator right after it. */
  lemma {:induction false} InterleaveAt<T>(items: seq<T>, sep: T, q: nat)
    requires q < |items|
    ensures Interleave(items, sep)[2 * q] == items[q]
    ensures Interleave(items, sep)[2 * q + 1] == sep
    decreases |items|
  {
    var n := |items| - 1;
    if q < n {
      InterleaveAt(items[..n], sep, q);
    }
  }

  /** The same, read off a list known to be the interleaving. */
  lemma InterleaveItem<T>(s: seq<T>, items: seq<T>, sep: T, q: nat, x: T)
    requires s == Interleave(items, sep) && q < |items| && items[q] == x
    ensures 2 * q + 1 < |s| && s[2 * q] == x && s[2 * q + 1] == sep
  {
    InterleaveAt(items, sep, q);
  }

  /** A list that agrees with `before` on its first `|before|` places and
      has one more is `before` plus its last element. */
  lemma SeqSnoc<T>(whole: seq<T>, before: seq<T>)
    requires |whole| == |before| + 1
    requires forall i :: 0 <= i < |before| ==> whole[i] == before[i]
    ensures whole == before + [whole[|before|]]
  {
  }

  /** Appending two elements one at a time appends the pair. */
  lemma AppendTwo<T>(xs: seq<T>, a: T, b: T)
    ensures xs + [a] + [b] == xs + [a, b]
  {
  }

  /** The results `f` gives, in order, skipping the elements it gives none
      for. */
  function FilterMap<T, U>(xs: seq<T>, f: T -> Option<U>): (ys: seq<U>)
    ensures |ys| <= |xs|
    decreases |xs|
  {
    if |xs| == 0 then [] else FilterMap(xs[..|xs| - 1], f) + f(xs[|xs| - 1]).ToSeq()
  }

  /** The positions of the elements `FilterMap` keeps: increasing, and each
      element's result is the kept value in that place. */
  function FilterMapIndices<T, U>(xs: seq<T>, f: T -> Option<U>): (idx: seq<nat>)
    ensures |idx| == |FilterMap(xs, f)|
    ensures forall k :: 0 <= k < |idx| ==> idx[k] < |xs| && f(xs[idx[k]]) == Some(FilterMap(xs, f)[k])
    ensures forall k, l :: 0 <= k < l < |idx| ==> idx[k] < idx[l]
    decreases |xs|
  {
    if |xs| == 0 then []
    else
      var n := |xs| - 1;
      var before := FilterMapIndices(xs[..n], f);
      assert forall k :: 0 <= k < |before| ==> xs[before[k]] == xs[..n][before[k]];
      if f(xs[n]).Some? then before + [n] else before
  }
}
