/**
 * Python's list indexing, string slicing and the few `str` methods the commit analyser uses,
 * with CPython's treatment of negative and out-of-range positions.
 */
module PyText {
  import opened Wrappers

  /** `xs[i]`: a negative index counts from the end; an index outside the list raises
      IndexError, which is None here. */
  function At<T>(xs: seq<T>, i: int): Option<T> {
    if 0 <= i < |xs| then Some(xs[i])
    else if -|xs| <= i < 0 then Some(xs[|xs| + i])
    else None
  }

  /** The position a slice bound `i` denotes in a sequence of length `n`. */
  function Bound(i: int, n: nat): (b: nat)
    ensures b <= n
  {
    if i < 0 then (if i + n < 0 then 0 else i + n)
    else if i > n then n
    else i
  }

  /** `s[lo:hi]` */
  function Slice<T>(s: seq<T>, lo: int, hi: int): seq<T> {
    var a, b := Bound(lo, |s|), Bound(hi, |s|);
    if a < b then s[a..b] else []
  }

  lemma {:induction false} SliceInRange<T>(s: seq<T>, lo: int, hi: int)
    requires 0 <= lo <= hi <= |s|
    ensures Slice(s, lo, hi) == s[lo..hi]
  {
  }

  /** `pat` occurs in `s` at offset `i`. */
  predicate OccursAt(s: string, pat: string, i: int) {
    0 <= i && i + |pat| <= |s| && s[i..i + |pat|] == pat
  }

  predicate StartsWith(s: string, pat: string) {
    OccursAt(s, pat, 0)
  }

  predicate EndsWith(s: string, pat: string) {
    |pat| <= |s| && s[|s| - |pat|..] == pat
  }

  /** No occurrence of `pat` starts at an offset in [lo, hi). */
  predicate GapFree(s: string, pat: string, lo: int, hi: int) {
    forall j :: lo <= j < hi ==> !OccursAt(s, pat, j)
  }

  /** Every character of s[lo..hi] differs from `c`. */
  predicate Avoids(s: string, c: char, lo: int, hi: int)
    requires 0 <= lo && hi <= |s|
  {
    forall j :: lo <= j < hi ==> s[j] != c
  }

  lemma {:induction false} OccursNewline(s: string, i: int)
    ensures OccursAt(s, "\n", i) <==> 0 <= i < |s| && s[i] == '\n'
  {
    if 0 <= i < |s| && s[i] == '\n' {
      assert s[i..i + 1] == [s[i]];
    }
  }

  lemma {:induction false} OccursTwoNewlines(s: string, i: int)
    ensures OccursAt(s, "\n\n", i) <==> 0 <= i && i + 1 < |s| && s[i] == '\n' && s[i + 1] == '\n'
  {
    if 0 <= i && i + 1 < |s| && s[i] == '\n' && s[i + 1] == '\n' {
      assert s[i..i + 2] == [s[i], s[i + 1]];
    }
    if OccursAt(s, "\n\n", i) {
      assert s[i] == s[i..i + 2][0] && s[i + 1] == s[i..i + 2][1];
    }
  }

  /** `s.find(pat)`: the first offset at which `pat` occurs, or -1. */
  function Find(s: string, pat: string): (r: int)
    ensures -1 <= r <= |s|
    ensures r >= 0 ==> OccursAt(s, pat, r) && GapFree(s, pat, 0, r)
    ensures r == -1 ==> GapFree(s, pat, 0, |s| + 1)
  {
    FindFrom(s, pat, 0)
  }

  function FindFrom(s: string, pat: string, i: nat): (r: int)
    requires i <= |s| + 1
    ensures -1 <= r <= |s|
    ensures r >= 0 ==> i <= r && OccursAt(s, pat, r) && GapFree(s, pat, i, r)
    ensures r == -1 ==> GapFree(s, pat, i, |s| + 1)
    decreases |s| + 1 - i
  {
    if i + |pat| > |s| then -1
    else if OccursAt(s, pat, i) then i
    else FindFrom(s, pat, i + 1)
  }

  /** The k-th entry of `ends` is the end of an occurrence of `pat`. */
  predicate EndsOccurrence(s: string, pat: string, ends: seq<int>, k: int)
    requires 0 <= k < |ends|
  {
    OccursAt(s, pat, ends[k] - |pat|)
  }

  /** The occurrences ending at ends[k-1] and ends[k] do not overlap and have none between them. */
  predicate Consecutive(s: string, pat: string, ends: seq<int>, k: int)
    requires 0 < k < |ends|
  {
    ends[k - 1] <= ends[k] - |pat| && GapFree(s, pat, ends[k - 1], ends[k] - |pat|)
  }

  /** `[m.end() for m in re.finditer(pat, s[from:])]`, shifted to offsets of s, for a literal,
      non-empty pattern: each match is the first occurrence at or after the end of the one
      before it. */
  function MatchEnds(s: string, pat: string, from: nat): seq<int>
    requires |pat| > 0 && from <= |s|
    decreases |s| - from
  {
    var j := FindFrom(s, pat, from);
    if j < 0 then [] else [j + |pat|] + MatchEnds(s, pat, j + |pat|)
  }

  /** `ends` lists, in increasing order and without overlap, the ends of occurrences of `pat`
      in s[from..], each the first occurrence at or after the end of the one before it. */
  predicate Scan(s: string, pat: string, from: int, ends: seq<int>) {
    && (forall k :: 0 <= k < |ends| ==> EndsOccurrence(s, pat, ends, k))
    && (forall k :: 0 < k < |ends| ==> Consecutive(s, pat, ends, k))
    && (ends == [] ==> GapFree(s, pat, from, |s| + 1))
    && (ends != [] ==> from <= ends[0] - |pat| && GapFree(s, pat, from, ends[0] - |pat|))
    && (ends != [] ==> ends[|ends| - 1] <= |s| && GapFree(s, pat, ends[|ends| - 1], |s| + 1))
  }

  /** The matches of `re.finditer` are exactly the scan of the pattern. */
  lemma {:induction false} MatchEndsSpec(s: string, pat: string, from: nat)
    requires |pat| > 0 && from <= |s|
    ensures Scan(s, pat, from, MatchEnds(s, pat, from))
  {
    ScanOfMatches(s, pat, from, MatchEnds(s, pat, from));
  }

  /** The induction behind `MatchEndsSpec`, over the list of ends. */
  lemma {:induction false} ScanOfMatches(s: string, pat: string, from: nat, ends: seq<int>)
    requires |pat| > 0 && from <= |s| && ends == MatchEnds(s, pat, from)
    ensures Scan(s, pat, from, ends)
    decreases |s| - from
  {
    var j := FindFrom(s, pat, from);
    if j >= 0 {
      var rest := MatchEnds(s, pat, j + |pat|);
      ScanOfMatches(s, pat, j + |pat|, rest);
      assert ends == [j + |pat|] + rest;
      ScanCons(s, pat, from, j, rest);
    } else {
      assert ends == [];
    }
  }

  /** A first occurrence at j followed by a scan from its end is a scan from `from`. */
  lemma {:induction false} ScanCons(s: string, pat: string, from: int, j: int, rest: seq<int>)
    requires from <= j && OccursAt(s, pat, j) && GapFree(s, pat, from, j)
    requires Scan(s, pat, j + |pat|, rest)
    ensures Scan(s, pat, from, [j + |pat|] + rest)
  {
    var ends := [j + |pat|] + rest;
    assert EndsOccurrence(s, pat, ends, 0);
    forall k | 0 < k < |ends|
      ensures EndsOccurrence(s, pat, ends, k)
    {
      assert EndsOccurrence(s, pat, rest, k - 1);
    }
    forall k | 1 < k < |ends|
      ensures Consecutive(s, pat, ends, k)
    {
      assert Consecutive(s, pat, rest, k - 1);
    }
  }

  /** No occurrence of '\n' in s[lo..hi] means no newline character there. */
  lemma {:induction false} GapFreeNewline(s: string, lo: int, hi: int)
    requires 0 <= lo <= hi <= |s| && GapFree(s, "\n", lo, hi)
    ensures '\n' !in s[lo..hi]
  {
    forall j | 0 <= j < hi - lo
      ensures s[lo..hi][j] != '\n'
    {
      OccursNewline(s, lo + j);
    }
  }

  /** No occurrence of `pat` starts in [lo, hi - |pat|] means `pat` does not occur in s[lo..hi]. */
  lemma {:induction false} GapFreeSlice(s: string, pat: string, lo: int, hi: int)
    requires 0 <= lo <= hi <= |s| && GapFree(s, pat, lo, hi - |pat| + 1)
    ensures GapFree(s[lo..hi], pat, 0, hi - lo + 1)
  {
    forall j | 0 <= j < hi - lo + 1
      ensures !OccursAt(s[lo..hi], pat, j)
    {
      if OccursAt(s[lo..hi], pat, j) {
        var t := s[lo..hi];
        assert j + |pat| <= |t|;
        var a, b := t[j..j + |pat|], s[lo + j..lo + j + |pat|];
        forall i | 0 <= i < |pat|
          ensures a[i] == b[i]
        {
          assert a[i] == t[j + i] == s[lo + j + i];
        }
        assert a == b;
        assert OccursAt(s, pat, lo + j);
      }
    }
  }

  /** `pat` occurs nowhere in `s`. */
  predicate Lacks(s: string, pat: string) {
    GapFree(s, pat, 0, |s| + 1)
  }

  /** A slice of `s` that no occurrence of `pat` starts in lacks `pat`. */
  lemma {:induction false} LacksSlice(s: string, pat: string, lo: int, hi: int, bound: int)
    requires |pat| > 0 && 0 <= lo && 0 <= hi && GapFree(s, pat, lo, bound) && hi - |pat| + 1 <= bound
    ensures Lacks(Slice(s, lo, hi), pat)
  {
    var a, b := Bound(lo, |s|), Bound(hi, |s|);
    if a < b {
      assert a == lo && b <= hi;
      GapFreeSlice(s, pat, lo, b);
    }
  }

  /** The scan the rest of `ends` is, from the end of its first match. */
  lemma {:induction false} ScanTail(s: string, pat: string, from: int, ends: seq<int>)
    requires Scan(s, pat, from, ends) && ends != []
    ensures Scan(s, pat, ends[0], ends[1..])
  {
    var rest := ends[1..];
    forall k | 0 <= k < |rest|
      ensures EndsOccurrence(s, pat, rest, k)
    {
      assert EndsOccurrence(s, pat, ends, k + 1);
    }
    forall k | 0 < k < |rest|
      ensures Consecutive(s, pat, rest, k)
    {
      assert Consecutive(s, pat, ends, k + 1);
    }
    if rest != [] {
      assert Consecutive(s, pat, ends, 1);
    }
  }

  /** A one-character pattern cannot overlap itself, so the scan lists every occurrence. */
  lemma {:induction false} ScanListsAll(s: string, pat: string, from: int, ends: seq<int>, j: int)
    requires |pat| == 1 && Scan(s, pat, from, ends)
    requires from <= j && OccursAt(s, pat, j)
    ensures exists i :: 0 <= i < |ends| && ends[i] == j + 1
    decreases |ends|
  {
    if ends != [] && j + 1 != ends[0] {
      assert EndsOccurrence(s, pat, ends, 0);
      if j >= ends[0] - 1 {
        ScanTail(s, pat, from, ends);
        ScanListsAll(s, pat, ends[0], ends[1..], j);
        var i :| 0 <= i < |ends[1..]| && ends[1..][i] == j + 1;
        assert ends[i + 1] == j + 1;
      }
    }
  }

  /** `s.count(c)` for a one-character `c`. */
  function Count(s: string, c: char): nat {
    if s == [] then 0 else (if s[0] == c then 1 else 0) + Count(s[1..], c)
  }

  lemma {:induction false} CountAppend(a: string, b: string, c: char)
    ensures Count(a + b, c) == Count(a, c) + Count(b, c)
  {
    if a == [] {
      assert a + b == b;
    } else {
      assert (a + b)[0] == a[0] && (a + b)[1..] == a[1..] + b;
      CountAppend(a[1..], b, c);
    }
  }

  lemma {:induction false} CountAvoided(s: string, c: char)
    requires forall j :: 0 <= j < |s| ==> s[j] != c
    ensures Count(s, c) == 0
  {
    if s != [] {
      CountAvoided(s[1..], c);
    }
  }

  /** Before the end of the i-th newline match after `from` there are i + 1 more newlines
      than before `from`. */
  lemma {:induction false} CountToNewlines(s: string, from: int, ends: seq<int>)
    requires 0 <= from <= |s| && Scan(s, "\n", from, ends)
    ensures forall i :: 0 <= i < |ends| ==> 0 <= ends[i] <= |s| && Count(s[..ends[i]], '\n') == Count(s[..from], '\n') + i + 1
    decreases |ends|
  {
    if ends != [] {
      var e := ends[0];
      assert EndsOccurrence(s, "\n", ends, 0);
      OccursNewline(s, e - 1);
      forall j | from <= j < e - 1
        ensures s[j] != '\n'
      {
        OccursNewline(s, j);
      }
      var gap := s[from..e - 1];
      assert s[..e] == s[..from] + gap + ['\n'];
      CountAppend(s[..from] + gap, ['\n'], '\n');
      CountAppend(s[..from], gap, '\n');
      CountAvoided(gap, '\n');
      assert Count(['\n'], '\n') == 1;
      ScanTail(s, "\n", from, ends);
      CountToNewlines(s, e, ends[1..]);
      forall i | 0 < i < |ends|
        ensures 0 <= ends[i] <= |s| && Count(s[..ends[i]], '\n') == Count(s[..from], '\n') + i + 1
      {
        assert ends[1..][i - 1] == ends[i];
      }
    }
  }

  /** `sep.join(items)` */
  function Join(items: seq<string>, sep: string): string {
    if |items| == 0 then []
    else if |items| == 1 then items[0]
    else items[0] + sep + Join(items[1..], sep)
  }

  /** The string without its final newline, if it has one. */
  function DropFinalNewline(s: string): string {
    if |s| > 0 && s[|s| - 1] == '\n' then s[..|s| - 1] else s
  }
}
