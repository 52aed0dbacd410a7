/**
 * `ConventionalCommit.footer_re` and `_ConventionalFooterList`: the footers of a message are
 * the non-overlapping matches of a newline, a token and a `: ` or ` #` separator; a footer's
 * value runs from its separator to the next footer, less trailing newlines.
 */
module Footers {
  import opened Wrappers
  import opened PyText
  import opened Chars

  /** An entry of `_footer_index`: the token group, the start of the match (its newline) and
      the end of the match (just past the separator). */
  datatype FooterEntry = FooterEntry(token: string, start: nat, end: nat)

  /** `_Footer(token, value)` */
  datatype Footer = Footer(token: string, value: string)

  /*** The expression ***/

  /** s[lo..hi] matches `\w+(?:-\w+)*`: words joined by single hyphens. */
  predicate TokenSpan(s: string, lo: int, hi: int) {
    && 0 <= lo < hi <= |s|
    && IsWord(s[lo]) && IsWord(s[hi - 1])
    && (forall i :: lo <= i < hi ==> IsWord(s[i]) || s[i] == '-')
    && (forall i :: lo <= i < hi - 1 ==> s[i] == '-' ==> IsWord(s[i + 1]))
  }

  predicate IsToken(x: string) {
    TokenSpan(x, 0, |x|)
  }

  /** A token could go on at offset j of `s`: a word character, or a hyphen and one. */
  predicate TokenGoesOn(s: string, j: int) {
    0 <= j < |s| && (IsWord(s[j]) || (s[j] == '-' && j + 1 < |s| && IsWord(s[j + 1])))
  }

  /** The end of the run of word characters at offset p. */
  function WordEnd(s: string, p: nat): (q: nat)
    requires p <= |s|
    ensures p <= q <= |s|
    ensures forall i :: p <= i < q ==> IsWord(s[i])
    ensures q < |s| ==> !IsWord(s[q])
    decreases |s| - p
  {
    if p < |s| && IsWord(s[p]) then WordEnd(s, p + 1) else p
  }

  /** The end of the longest token starting at offset p, p itself for none: `\w+` and each
      `-\w+` group take as many characters as they can. */
  function TokenEnd(s: string, p: nat): nat
    requires p <= |s|
    decreases |s| - p
  {
    var q := WordEnd(s, p);
    if q == p then p
    else if q + 1 < |s| && s[q] == '-' && IsWord(s[q + 1]) then TokenEnd(s, q + 1)
    else q
  }

  /** `(?::[ ]|[ ][#])` */
  predicate SeparatorAt(s: string, j: int) {
    OccursAt(s, ": ", j) || OccursAt(s, " #", j)
  }

  /** The match of `footer_re` at offset i, if any. A shorter token than the longest one
      cannot be followed by a separator, so backtracking into the token never helps; the
      second alternative is `BREAKING CHANGE`. */
  function FooterAt(s: string, i: nat): (r: Option<FooterEntry>)
    requires i <= |s|
    ensures r.Some? ==> r.value.start == i < r.value.end <= |s|
  {
    if !(i < |s| && s[i] == '\n') then None
    else
      var e := TokenEnd(s, i + 1);
      if e > i + 1 && SeparatorAt(s, e) then Some(FooterEntry(s[i + 1..e], i, e + 2))
      else if OccursAt(s, "BREAKING CHANGE", i + 1) && SeparatorAt(s, i + 16) then
        Some(FooterEntry("BREAKING CHANGE", i, i + 18))
      else None
  }

  /** Offset i of `s` starts a footer with entry f: a newline, a token or `BREAKING CHANGE`,
      and a separator. */
  predicate FooterMatch(s: string, i: int, f: FooterEntry) {
    && f.start == i
    && 0 <= i < |s| && s[i] == '\n'
    && OccursAt(s, f.token, i + 1)
    && (TokenSpan(s, i + 1, i + 1 + |f.token|) || f.token == "BREAKING CHANGE")
    && SeparatorAt(s, i + 1 + |f.token|)
    && f.end == i + 1 + |f.token| + 2
  }

  /** `finditer` from offset i: the first match at or after i, then the matches from its end. */
  function FooterScan(s: string, i: nat): seq<FooterEntry>
    requires i <= |s|
    decreases |s| - i
  {
    if i == |s| then []
    else match FooterAt(s, i)
      case None => FooterScan(s, i + 1)
      case Some(f) => [f] + FooterScan(s, f.end)
  }

  /*** The scanner finds exactly the matches of the expression ***/

  /** The longest token: none when no word character starts it, otherwise a token that cannot
      be extended. */
  lemma {:induction false} TokenEndSpec(s: string, p: nat)
    requires p <= |s|
    ensures var e := TokenEnd(s, p);
      && p <= e <= |s|
      && (e == p <==> !(p < |s| && IsWord(s[p])))
      && (e > p ==> TokenSpan(s, p, e) && !TokenGoesOn(s, e))
    decreases |s| - p
  {
    var q := WordEnd(s, p);
    if q > p && q + 1 < |s| && s[q] == '-' && IsWord(s[q + 1]) {
      TokenEndSpec(s, q + 1);
    }
  }

  /** A token that cannot be extended is the longest one at its offset. */
  lemma {:induction false} TokenIsLongest(s: string, p: nat, e: nat)
    requires TokenSpan(s, p, e) && !TokenGoesOn(s, e)
    ensures TokenEnd(s, p) == e
  {
    TokenEndSpec(s, p);
  }

  /** FooterAt yields exactly the entries of the matches at i. */
  lemma {:induction false} FooterAtSound(s: string, i: nat)
    requires i <= |s| && FooterAt(s, i).Some?
    ensures FooterMatch(s, i, FooterAt(s, i).value)
  {
    var e := TokenEnd(s, i + 1);
    TokenEndSpec(s, i + 1);
    if e > i + 1 && SeparatorAt(s, e) {
      var f := FooterEntry(s[i + 1..e], i, e + 2);
      assert FooterAt(s, i) == Some(f);
      TokenFooterMatches(s, i, e, f);
    } else {
      assert FooterAt(s, i) == Some(FooterEntry("BREAKING CHANGE", i, i + 18));
    }
  }

  /** A newline, a token and a separator after it make a footer match. */
  lemma {:induction false} TokenFooterMatches(s: string, i: nat, e: int, f: FooterEntry)
    requires i < |s| && s[i] == '\n' && i + 1 < e <= |s| && TokenSpan(s, i + 1, e) && SeparatorAt(s, e)
    requires f == FooterEntry(s[i + 1..e], i, e + 2)
    ensures FooterMatch(s, i, f)
  {
    assert |f.token| == e - (i + 1) && OccursAt(s, f.token, i + 1);
  }

  lemma {:induction false} FooterAtComplete(s: string, i: nat, f: FooterEntry)
    requires i <= |s| && FooterMatch(s, i, f)
    ensures FooterAt(s, i) == Some(f)
  {
    if TokenSpan(s, i + 1, i + 1 + |f.token|) {
      CompleteWithToken(s, i, f);
    } else {
      BreakingChangeIsNoToken(s, i + 1);
    }
  }

  /** A footer whose token is a run of words and dashes: that run is the longest token. */
  lemma {:induction false} CompleteWithToken(s: string, i: nat, f: FooterEntry)
    requires i <= |s| && FooterMatch(s, i, f) && TokenSpan(s, i + 1, i + 1 + |f.token|)
    ensures FooterAt(s, i) == Some(f)
  {
    var e := i + 1 + |f.token|;
    TokenOfFooter(s, i + 1, f.token);
    FooterAtToken(s, i, e);
    assert f == FooterEntry(s[i + 1..e], i, e + 2);
  }

  /** A newline, then a longest token that a separator follows. */
  lemma {:induction false} FooterAtToken(s: string, i: nat, e: nat)
    requires i < |s| && s[i] == '\n' && i + 1 < e <= |s| && TokenEnd(s, i + 1) == e && SeparatorAt(s, e)
    ensures FooterAt(s, i) == Some(FooterEntry(s[i + 1..e], i, e + 2))
  {
  }

  /** A token followed by a separator is the longest token at its offset. */
  lemma {:induction false} TokenOfFooter(s: string, p: nat, token: string)
    requires OccursAt(s, token, p) && TokenSpan(s, p, p + |token|) && SeparatorAt(s, p + |token|)
    ensures TokenEnd(s, p) == p + |token| && s[p..p + |token|] == token
  {
    var sep := p + |token|;
    assert s[sep] == ':' || s[sep] == ' ' by {
      assert s[sep] == s[sep..sep + 2][0];
    }
    TokenIsLongest(s, p, sep);
  }

  /** At `BREAKING CHANGE` the longest token is `BREAKING`, which no separator follows. */
  lemma {:induction false} BreakingChangeIsNoToken(s: string, p: nat)
    requires p <= |s| && OccursAt(s, "BREAKING CHANGE", p)
    ensures TokenEnd(s, p) == p + 8 && !SeparatorAt(s, p + 8)
  {
    var x := s[p..p + 15];
    assert x == "BREAKING CHANGE";
    forall i | p <= i < p + 8
      ensures IsWord(s[i])
    {
      assert s[i] == x[i - p];
    }
    assert s[p + 8] == x[8] == ' ' && s[p + 9] == x[9] == 'C';
    assert s[p + 8..p + 10][1] == 'C';
    TokenIsLongest(s, p, p + 8);
  }

  /** The match at a footer offset is unique. */
  lemma {:induction false} FooterAtIff(s: string, i: nat, f: FooterEntry)
    requires i <= |s|
    ensures FooterAt(s, i) == Some(f) <==> FooterMatch(s, i, f)
  {
    if FooterAt(s, i) == Some(f) {
      FooterAtSound(s, i);
    }
    if FooterMatch(s, i, f) {
      FooterAtComplete(s, i, f);
    }
  }

  /** No footer match starts at an offset in [lo, hi). */
  predicate NoFooter(s: string, lo: int, hi: int) {
    forall j :: lo <= j < hi && 0 <= j <= |s| ==> FooterAt(s, j).None?
  }

  /** `fs` are the matches `finditer` reports from offset i: each is a match, each starts at
      or after the end of the one before, and no match starts in the gaps between them. */
  predicate FootersFrom(s: string, i: int, fs: seq<FooterEntry>) {
    && (forall k :: 0 <= k < |fs| ==> FooterMatch(s, fs[k].start, fs[k]))
    && (forall k :: 0 < k < |fs| ==> fs[k - 1].end <= fs[k].start && NoFooter(s, fs[k - 1].end, fs[k].start))
    && (fs == [] ==> NoFooter(s, i, |s| + 1))
    && (fs != [] ==> i <= fs[0].start && NoFooter(s, i, fs[0].start))
    && (fs != [] ==> NoFooter(s, fs[|fs| - 1].end, |s| + 1))
  }

  lemma {:induction false} FooterScanSpec(s: string, i: nat)
    requires i <= |s|
    ensures FootersFrom(s, i, FooterScan(s, i))
    decreases |s| - i
  {
    if i < |s| {
      match FooterAt(s, i)
      case None =>
        FooterScanSpec(s, i + 1);
        NoFooterGrows(s, i, FooterScan(s, i + 1));
      case Some(f) =>
        FooterAtSound(s, i);
        FooterScanSpec(s, f.end);
        FooterCons(s, i, f, FooterScan(s, f.end));
    }
  }

  lemma {:induction false} NoFooterGrows(s: string, i: nat, fs: seq<FooterEntry>)
    requires i < |s| && FooterAt(s, i).None? && FootersFrom(s, i + 1, fs)
    ensures FootersFrom(s, i, fs)
  {
  }

  lemma {:induction false} FooterCons(s: string, i: nat, f: FooterEntry, fs: seq<FooterEntry>)
    requires i < |s| && FooterMatch(s, i, f) && f.end <= |s| && FootersFrom(s, f.end, fs)
    ensures FootersFrom(s, i, [f] + fs)
  {
    var all := [f] + fs;
    forall k | 0 < k < |all|
      ensures all[k - 1].end <= all[k].start && NoFooter(s, all[k - 1].end, all[k].start)
    {
      if k > 1 {
        assert all[k - 1] == fs[k - 2] && all[k] == fs[k - 1];
      }
    }
    if fs != [] {
      assert all[|all| - 1] == fs[|fs| - 1];
    }
  }

  /*** `_ConventionalFooterList` ***/

  /** `BREAKING-CHANGE` is reported as `BREAKING CHANGE`. */
  function Reported(token: string): string {
    if token == "BREAKING-CHANGE" then "BREAKING CHANGE" else token
  }

  /** The end of a value: newlines before `hi` are dropped while the value is not empty;
      a read past the end of the message is an IndexError (None). */
  function TrimNewlines(m: string, lo: nat, hi: int): Option<int>
    decreases hi - lo
  {
    if hi <= lo then Some(hi)
    else if hi - 1 >= |m| then None
    else if m[hi - 1] == '\n' then TrimNewlines(m, lo, hi - 1)
    else Some(hi)
  }

  datatype FooterList = FooterList(message: string, index: seq<FooterEntry>)
  {
    /** `__len__` */
    function Len(): int {
      |index|
    }

    /** Where the value of entry i ends before trimming: the start of the next footer, or the
        end of the message for the last one. */
    function RawEnd(i: int): int {
      if i + 1 < Len() then
        match At(index, i + 1)
        case Some(next) => next.start
        case None => |message|
      else |message|
    }

    /** `__getitem__`: a negative position counts back from `Len()` once; a missing entry or a
        read past the end of the message is an IndexError (None). */
    function Get(idx: int): Option<Footer> {
      var i := if idx < 0 then idx + Len() else idx;
      match At(index, i)
      case None => None
      case Some(e) =>
        match TrimNewlines(message, e.end, RawEnd(i))
        case None => None
        case Some(hi) => Some(Footer(Reported(e.token), Slice(message, e.end, hi)))
    }

    /** What iterating over the list yields: `__getitem__` with 0, 1, 2, ... until the first
        IndexError. */
    function Items(): seq<Footer> {
      ItemsFrom(0)
    }

    function ItemsFrom(k: nat): seq<Footer>
      decreases |index| - k
    {
      if k >= |index| then []
      else match Get(k)
        case None => []
        case Some(f) => [f] + ItemsFrom(k + 1)
    }

    /** `__getitem__`, with the trimming loop of the source. */
    method GetItem(idx: int) returns (r: Option<Footer>)
      ensures r == Get(idx)
    {
      var i := if idx < 0 then idx + Len() else idx;
      var entry := At(index, i);
      if entry.None? {
        return None;
      }
      var contentStart := entry.value.end;
      var contentEnd := RawEnd(i);
      while contentEnd > contentStart && (contentEnd - 1 >= |message| || message[contentEnd - 1] == '\n')
        invariant TrimNewlines(message, contentStart, contentEnd) == TrimNewlines(message, contentStart, RawEnd(i))
        decreases contentEnd - contentStart
      {
        if contentEnd - 1 >= |message| {
          return None;
        }
        contentEnd := contentEnd - 1;
      }
      var token := entry.value.token;
      if token == "BREAKING-CHANGE" {
        token := "BREAKING CHANGE";
      }
      r := Some(Footer(token, Slice(message, contentStart, contentEnd)));
    }
  }

  /*** What the list promises ***/

  /** v is the text m[lo..hi] less its trailing newlines. */
  predicate TrimmedValue(m: string, lo: int, hi: int, v: string) {
    && 0 <= lo && lo + |v| <= hi <= |m|
    && m[lo..lo + |v|] == v
    && (forall j :: lo + |v| <= j < hi ==> m[j] == '\n')
    && !EndsWith(v, "\n")
  }

  /** Where the value of entry k ends before trimming: the next footer's newline or the end
      of the message. */
  function ValueEnd(m: string, fs: seq<FooterEntry>, k: int): int
    requires 0 <= k < |fs|
  {
    if k + 1 < |fs| then fs[k + 1].start else |m|
  }

  /** `item` is what entry k of `fs` reads as: its token as reported, and its value. */
  predicate ItemOf(m: string, fs: seq<FooterEntry>, k: int, item: Footer)
    requires 0 <= k < |fs|
  {
    item.token == Reported(fs[k].token) && TrimmedValue(m, fs[k].end, ValueEnd(m, fs, k), item.value)
  }

  /** The entries lie in the message in increasing order without overlapping. */
  predicate Ordered(m: string, index: seq<FooterEntry>) {
    && (forall k :: 0 <= k < |index| ==> index[k].start < index[k].end <= |m|)
    && (forall k :: 0 < k < |index| ==> index[k - 1].end <= index[k].start)
  }

  /** The footers `finditer` reports are in increasing order of offset. */
  lemma {:induction false} ScannedOrdered(m: string, index: seq<FooterEntry>)
    requires FootersFrom(m, 0, index)
    ensures Ordered(m, index)
  {
    forall k | 0 <= k < |index|
      ensures index[k].start < index[k].end <= |m|
    {
      assert FooterMatch(m, index[k].start, index[k]);
    }
  }

  /** Within the message, trimming stops at the last character other than a newline. */
  lemma {:induction false} TrimNewlinesSpec(m: string, lo: nat, hi: int)
    requires lo <= hi <= |m|
    ensures TrimNewlines(m, lo, hi).Some?
    ensures var e := TrimNewlines(m, lo, hi).value;
      && lo <= e <= hi
      && (forall j :: e <= j < hi ==> m[j] == '\n')
      && (e > lo ==> m[e - 1] != '\n')
    decreases hi - lo
  {
    if hi > lo && m[hi - 1] == '\n' {
      TrimNewlinesSpec(m, lo, hi - 1);
    }
  }

  /** Each footer of a scanned message: its token as reported, and its value, which runs from
      just past its separator up to the next footer's newline or the end of the message, less
      trailing newlines. A position from the back reads the same footer. */
  lemma {:induction false} FooterValue(l: FooterList, k: int)
    requires Ordered(l.message, l.index) && 0 <= k < l.Len()
    ensures l.Get(k).Some? && ItemOf(l.message, l.index, k, l.Get(k).value)
    ensures l.Get(k - l.Len()) == l.Get(k)
  {
    var m, e := l.message, l.index[k];
    var next := if k + 1 < l.Len() then l.index[k + 1].start else |m|;
    if k + 1 < l.Len() {
      assert l.index[k].end <= l.index[k + 1].start;
    }
    assert l.RawEnd(k) == next;
    TrimNewlinesSpec(m, e.end, next);
    var hi := TrimNewlines(m, e.end, next).value;
    var v := m[e.end..hi];
    assert Slice(m, e.end, hi) == v;
    if |v| > 0 {
      assert v[|v| - 1] == m[hi - 1];
    }
  }

  lemma {:induction false} FooterPresent(l: FooterList, k: int)
    requires Ordered(l.message, l.index) && 0 <= k < l.Len()
    ensures l.Get(k).Some?
  {
    FooterValue(l, k);
  }

  /** Iterating over the footers of a scanned message yields one footer per entry. */
  lemma {:induction false} FooterItems(l: FooterList, k: nat)
    requires Ordered(l.message, l.index) && k <= l.Len()
    ensures |l.ItemsFrom(k)| == l.Len() - k
    ensures forall j :: k <= j < l.Len() ==> l.Get(j) == Some(l.ItemsFrom(k)[j - k])
  {
    FooterCount(l, k);
    forall j | k <= j < l.Len()
      ensures l.Get(j) == Some(l.ItemsFrom(k)[j - k])
    {
      FooterItemAt(l, k, j);
    }
  }

  lemma {:induction false} FooterCount(l: FooterList, k: nat)
    requires Ordered(l.message, l.index) && k <= l.Len()
    ensures |l.ItemsFrom(k)| == l.Len() - k
    decreases l.Len() - k
  {
    if k < l.Len() {
      FooterPresent(l, k);
      FooterCount(l, k + 1);
    }
  }

  /** Iteration from k yields at position j - k the footer at j. */
  lemma {:induction false} FooterItemAt(l: FooterList, k: nat, j: int)
    requires Ordered(l.message, l.index) && k <= j < l.Len()
    ensures |l.ItemsFrom(k)| > j - k && l.Get(j) == Some(l.ItemsFrom(k)[j - k])
    decreases j - k
  {
    FooterPresent(l, k);
    var f := l.Get(k).value;
    var all, rest := l.ItemsFrom(k), l.ItemsFrom(k + 1);
    assert all == [f] + rest;
    if j > k {
      FooterItemAt(l, k + 1, j);
      assert all[j - k] == rest[j - (k + 1)];
    }
  }

  /** Iteration over footers in increasing order yields one item per entry: its token as
      reported, and its value running from just past its separator up to the next footer's
      newline or the end of the message, with no trailing newline. */
  lemma {:induction false} OrderedFooters(m: string, fs: seq<FooterEntry>)
    requires Ordered(m, fs)
    ensures |FooterList(m, fs).Items()| == |fs|
    ensures forall k :: 0 <= k < |fs| ==> ItemOf(m, fs, k, FooterList(m, fs).Items()[k])
  {
    var l := FooterList(m, fs);
    FooterItems(l, 0);
    forall k | 0 <= k < |fs|
      ensures ItemOf(m, fs, k, l.Items()[k])
    {
      FooterValue(l, k);
    }
  }

  /** No footer starts inside a value: matching resumes at each separator's end and finds
      nothing before the next footer's newline or the end of the message. */
  lemma {:induction false} ValuesHoldNoFooter(m: string, fs: seq<FooterEntry>)
    requires FootersFrom(m, 0, fs)
    ensures forall k :: 0 <= k < |fs| ==> NoFooter(m, fs[k].end, ValueEnd(m, fs, k))
  {
    forall k | 0 <= k < |fs|
      ensures NoFooter(m, fs[k].end, ValueEnd(m, fs, k))
    {
      if k + 1 < |fs| {
        assert NoFooter(m, fs[k + 1 - 1].end, fs[k + 1].start);
      } else {
        assert NoFooter(m, fs[|fs| - 1].end, |m| + 1);
      }
    }
  }

  /** A token is reported as `BREAKING CHANGE` exactly when it is that or `BREAKING-CHANGE`. */
  lemma {:induction false} ReportedBreaking(m: string, items: seq<Footer>, fs: seq<FooterEntry>)
    requires |items| == |fs| && forall k :: 0 <= k < |fs| ==> ItemOf(m, fs, k, items[k])
    ensures (exists i :: 0 <= i < |items| && items[i].token == "BREAKING CHANGE") <==>
      exists k :: 0 <= k < |fs| && (fs[k].token == "BREAKING CHANGE" || fs[k].token == "BREAKING-CHANGE")
  {
    if exists i :: 0 <= i < |items| && items[i].token == "BREAKING CHANGE" {
      var i :| 0 <= i < |items| && items[i].token == "BREAKING CHANGE";
      assert fs[i].token == "BREAKING CHANGE" || fs[i].token == "BREAKING-CHANGE";
    }
    if exists k :: 0 <= k < |fs| && (fs[k].token == "BREAKING CHANGE" || fs[k].token == "BREAKING-CHANGE") {
      var k :| 0 <= k < |fs| && (fs[k].token == "BREAKING CHANGE" || fs[k].token == "BREAKING-CHANGE");
      assert items[k].token == "BREAKING CHANGE";
    }
  }
}
