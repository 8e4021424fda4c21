/** Text operations the two scripts rely on: `str(int)`, `str.replace`,
    `os.path.join` and `os.path.basename`. */
module Strings {

  import opened Wrappers

  // ---------------------------------------------------------------------
  // Decimal rendering of integers (what an f-string does with an int)
  // ---------------------------------------------------------------------

  predicate IsDigit(c: char) {
    '0' <= c <= '9'
  }

  predicate AllDigits(s: string) {
    forall i :: 0 <= i < |s| ==> IsDigit(s[i])
  }

  function DigitChar(d: nat): (c: char)
    requires d < 10
    ensures IsDigit(c)
    ensures c as int - '0' as int == d
  {
    ('0' as int + d) as char
  }

  function DigitValue(c: char): (d: nat)
    requires IsDigit(c)
    ensures d < 10
    ensures DigitChar(d) == c
  {
    c as int - '0' as int
  }

  /** `str(n)` for a non-negative integer: digits, most significant first,
      without leading zeros. */
  function NatToDecimal(n: nat): (r: string)
    ensures 0 < |r| && AllDigits(r)
    ensures r[0] == '0' ==> n == 0
    decreases n
  {
    if n < 10 then [DigitChar(n)] else NatToDecimal(n / 10) + [DigitChar(n % 10)]
  }

  /** The value of a string of decimal digits. */
  function DigitsValue(s: string): nat
    requires AllDigits(s)
    decreases |s|
  {
    if |s| == 0 then 0 else 10 * DigitsValue(s[..|s| - 1]) + DigitValue(s[|s| - 1])
  }

  lemma {:induction false} NatToDecimalRoundTrip(n: nat)
    ensures DigitsValue(NatToDecimal(n)) == n
    decreases n
  {
    if n >= 10 {
      var r := NatToDecimal(n);
      NatToDecimalRoundTrip(n / 10);
      assert r[..|r| - 1] == NatToDecimal(n / 10);
    }
  }

  /** `str(n)` for any integer: a `-` in front of negative numbers. */
  function IntToDecimal(n: int): (r: string)
    ensures 0 < |r|
    ensures r[0] == '-' <==> n < 0
  {
    if n < 0 then "-" + NatToDecimal(-n) else NatToDecimal(n)
  }

  /** Reads back an optional `-` followed by at least one digit. */
  function ParseInt(s: string): Option<int> {
    if 0 < |s| && s[0] == '-' then
      if 1 < |s| && AllDigits(s[1..]) then Some(0 - DigitsValue(s[1..])) else None
    else if 0 < |s| && AllDigits(s) then Some(DigitsValue(s))
    else None
  }

  /** Rendering an integer and reading it back gives the integer: the text
      determines the number. */
  lemma IntToDecimalRoundTrip(n: int)
    ensures ParseInt(IntToDecimal(n)) == Some(n)
  {
    if n < 0 {
      NatToDecimalRoundTrip(-n);
      assert IntToDecimal(n)[1..] == NatToDecimal(-n);
    } else {
      NatToDecimalRoundTrip(n);
    }
  }

  /** The length of the longest prefix of `s` made of digits. */
  function DigitRun(s: string): (k: nat)
    ensures k <= |s|
    ensures AllDigits(s[..k])
    ensures k < |s| ==> !IsDigit(s[k])
    decreases |s|
  {
    if |s| == 0 || !IsDigit(s[0]) then 0 else 1 + DigitRun(s[1..])
  }

  lemma {:induction false} DigitRunOfDigits(d: string, rest: string)
    requires AllDigits(d)
    requires 0 < |rest| && !IsDigit(rest[0])
    ensures DigitRun(d + rest) == |d|
    decreases |d|
  {
    if |d| == 0 {
      assert d + rest == rest;
    } else {
      assert (d + rest)[0] == d[0];
      assert (d + rest)[1..] == d[1..] + rest;
      DigitRunOfDigits(d[1..], rest);
    }
  }

  // ---------------------------------------------------------------------
  // str.replace
  // ---------------------------------------------------------------------

  /** `pat` occurs in `s` starting at index `i`. */
  predicate OccursAt(s: string, pat: string, i: nat) {
    i + |pat| <= |s| && s[i..i + |pat|] == pat
  }

  /** No occurrence of `pat` starts before index `k` of `s`. */
  predicate NoOccurrenceBefore(s: string, pat: string, k: nat) {
    forall i: nat :: i < k ==> !OccursAt(s, pat, i)
  }

  /** Python's `s.replace(pat, rep)` for a non-empty `pat`: a left-to-right
      scan that replaces each occurrence and resumes after it, so that
      occurrences are replaced without overlapping. */
  function ReplaceAll(s: string, pat: string, rep: string): (r: string)
    requires 0 < |pat|
    ensures |rep| <= |pat| ==> |r| <= |s|
    ensures |rep| == |pat| ==> |r| == |s|
    decreases |s|
  {
    if |s| < |pat| then s
    else if s[..|pat|] == pat then rep + ReplaceAll(s[|pat|..], pat, rep)
    else [s[0]] + ReplaceAll(s[1..], pat, rep)
  }

  lemma OccursAtShift(s: string, pat: string, i: nat)
    requires 0 < |s|
    ensures OccursAt(s[1..], pat, i) <==> OccursAt(s, pat, i + 1)
  {
    if i + 1 + |pat| <= |s| {
      assert s[1..][i..i + |pat|] == s[i + 1..i + 1 + |pat|];
    }
  }

  /** Text in which no occurrence of `pat` starts is copied through, and the
      scan resumes right after it. */
  lemma {:induction false} ReplaceAllSkipsCleanPrefix(a: string, rest: string, pat: string, rep: string)
    requires 0 < |pat|
    requires NoOccurrenceBefore(a + rest, pat, |a|)
    ensures ReplaceAll(a + rest, pat, rep) == a + ReplaceAll(rest, pat, rep)
    decreases |a|
  {
    if |a| > 0 {
      var s := a + rest;
      assert !OccursAt(s, pat, 0);
      assert s[1..] == a[1..] + rest;
      assert s[0] == a[0];
      assert NoOccurrenceBefore(a[1..] + rest, pat, |a| - 1) by {
        forall i: nat | i < |a| - 1
          ensures !OccursAt(a[1..] + rest, pat, i)
        {
          assert !OccursAt(s, pat, i + 1);
          OccursAtShift(s, pat, i);
        }
      }
      ReplaceAllSkipsCleanPrefix(a[1..], rest, pat, rep);
      if |s| < |pat| {
        assert ReplaceAll(rest, pat, rep) == rest;
        assert ReplaceAll(s, pat, rep) == s;
      } else {
        assert s[..|pat|] == s[0..0 + |pat|];
        assert s[..|pat|] != pat;
        assert ReplaceAll(s, pat, rep) == [a[0]] + ReplaceAll(a[1..] + rest, pat, rep);
        assert ReplaceAll(s, pat, rep) == [a[0]] + (a[1..] + ReplaceAll(rest, pat, rep));
      }
      assert a + ReplaceAll(rest, pat, rep) == [a[0]] + (a[1..] + ReplaceAll(rest, pat, rep));
    } else {
      assert a + rest == rest;
    }
  }

  /** Text containing no occurrence of `pat` is left unchanged. */
  lemma ReplaceAllWithoutOccurrence(s: string, pat: string, rep: string)
    requires 0 < |pat|
    requires NoOccurrenceBefore(s, pat, |s|)
    ensures ReplaceAll(s, pat, rep) == s
  {
    assert s + "" == s;
    ReplaceAllSkipsCleanPrefix(s, "", pat, rep);
  }

  /** The first occurrence of `pat` is replaced, and the scan goes on
      right after it: every occurrence is replaced, not only a leading one. */
  lemma ReplaceAllAtOccurrence(a: string, b: string, pat: string, rep: string)
    requires 0 < |pat|
    requires NoOccurrenceBefore(a + pat + b, pat, |a|)
    ensures ReplaceAll(a + pat + b, pat, rep) == a + rep + ReplaceAll(b, pat, rep)
  {
    assert a + pat + b == a + (pat + b);
    ReplaceAllSkipsCleanPrefix(a, pat + b, pat, rep);
    var t := pat + b;
    assert t[..|pat|] == pat && t[|pat|..] == b;
    assert a + (rep + ReplaceAll(b, pat, rep)) == a + rep + ReplaceAll(b, pat, rep);
  }

  /** Replacing a one-character pattern by a one-character text is a
      character-by-character substitution. */
  lemma {:induction false} ReplaceCharIsPointwise(s: string, c: char, d: char)
    ensures ReplaceAll(s, [c], [d]) == SubstituteChar(s, c, d)
    decreases |s|
  {
    if |s| > 0 {
      ReplaceCharIsPointwise(s[1..], c, d);
      assert SubstituteChar(s, c, d) == [if s[0] == c then d else s[0]] + SubstituteChar(s[1..], c, d);
      if s[0] == c {
        assert s[..1] == [c];
      } else {
        assert s[..1] != [c];
      }
    }
  }

  function SubstituteChar(s: string, c: char, d: char): (r: string)
  {
    seq(|s|, i requires 0 <= i < |s| => if s[i] == c then d else s[i])
  }

  // ---------------------------------------------------------------------
  // os.path
  // ---------------------------------------------------------------------

  /** `os.path.join(dir, name)` on a POSIX system: an absolute `name` wins,
      otherwise exactly one `/` separates the parts. */
  function PathJoin(dir: string, name: string): (path: string)
    ensures |name| <= |path| <= |dir| + 1 + |name|
  {
    if 0 < |name| && name[0] == '/' then name
    else if |dir| == 0 || dir[|dir| - 1] == '/' then dir + name
    else dir + "/" + name
  }

  /** The joined path ends with the whole name. A relative name follows
      the whole directory, with exactly one `/` added between them when the
      directory is non-empty and does not end in `/`, and none otherwise; an
      absolute name replaces the directory. */
  lemma PathJoinParts(dir: string, name: string)
    ensures var path := PathJoin(dir, name);
      && |name| <= |path| && path[|path| - |name|..] == name
      && (0 < |name| && name[0] == '/' ==> path == name)
      && (|name| == 0 || name[0] != '/' ==>
            |dir| <= |path| && path[..|dir|] == dir
            && |path| == |dir| + |name| + (if 0 < |dir| && dir[|dir| - 1] != '/' then 1 else 0)
            && (0 < |dir| && dir[|dir| - 1] != '/' ==> path[|dir|] == '/'))
  {
  }

  /** `os.path.basename(p)`: the text after the last `/`. */
  function Basename(p: string): (b: string)
    ensures '/' !in b
    ensures |b| <= |p| && b == p[|p| - |b|..]
    ensures |b| < |p| ==> p[|p| - |b| - 1] == '/'
    decreases |p|
  {
    if |p| == 0 || p[|p| - 1] == '/' then ""
    else
      var init := p[..|p| - 1];
      var b := Basename(init);
      assert init[|init| - |b|..] + [p[|p| - 1]] == p[|init| - |b|..];
      b + [p[|p| - 1]]
  }

  /** Past a `/`, the base name is the `/`-free text that follows it. */
  lemma {:induction false} BasenameAfterSeparator(x: string, name: string)
    requires |x| == 0 || x[|x| - 1] == '/'
    requires '/' !in name
    ensures Basename(x + name) == name
    decreases |name|
  {
    var p := x + name;
    if |name| == 0 {
      assert p == x;
    } else {
      var last := name[|name| - 1];
      assert last in name;
      assert p[|p| - 1] == last;
      assert p[..|p| - 1] == x + name[..|name| - 1];
      assert '/' !in name[..|name| - 1] by {
        forall c | c in name[..|name| - 1] ensures c in name { }
      }
      BasenameAfterSeparator(x, name[..|name| - 1]);
      assert last != '/';
      assert Basename(p) == Basename(p[..|p| - 1]) + [last];
      assert name[..|name| - 1] + [last] == name;
    }
  }

  /** The base name of a joined path is the name that was joined, provided
      that name has no `/` of its own. */
  lemma BasenameOfJoin(dir: string, name: string)
    requires '/' !in name
    ensures Basename(PathJoin(dir, name)) == name
  {
    if 0 < |name| && name[0] == '/' {
      assert false;
    } else if |dir| == 0 || dir[|dir| - 1] == '/' {
      BasenameAfterSeparator(dir, name);
    } else {
      assert dir + "/" + name == (dir + "/") + name;
      BasenameAfterSeparator(dir + "/", name);
    }
  }
}
