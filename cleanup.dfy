/**
 * The normalisation a raw commit message goes through before it is analysed, in the manner of
 * `git commit --cleanup=scissors`: cut at the scissors line, drop `#` comment lines, drop blanks
 * at line ends, squeeze runs of empty lines, and trim newlines at both ends.
 */
module Cleanup {
  import opened PyText
  import opened Chars

  /** The scissors line; everything from it on is dropped. */
  const Scissors: string := "# ------------------------ >8 ------------------------\n"

  /** Step 1: cut at the first occurrence of the scissors line, provided that occurrence
      starts a line. */
  function CutScissors(s: string): string {
    var cut := Find(s, Scissors);
    if cut >= 0 && (cut == 0 || s[cut - 1] == '\n') then s[..cut] else s
  }

  /** A `#` directly after a newline, at offset i. */
  predicate HashAfterNewline(s: string, i: int) {
    0 < i < |s| && s[i - 1] == '\n' && s[i] == '#'
  }

  /** No `#` directly after a newline. */
  predicate HashFreeAfterNewlines(s: string) {
    forall i :: 0 <= i < |s| ==> !HashAfterNewline(s, i)
  }

  /** No line of `s` starts with `#`. */
  predicate NoCommentLines(s: string) {
    (s == [] || s[0] != '#') && HashFreeAfterNewlines(s)
  }

  /** Where the comment scanner stands: at the start of a line, inside a line that is kept, or
      inside a comment line that is dropped up to and including its newline. */
  datatype LineState = AtLineStart | InLine | InComment

  /** The scan behind `re.sub(r'^#[^\n]*\n?', '', s, flags=re.MULTILINE)`. */
  function DropComments(s: string, st: LineState): (r: string)
    ensures st != InLine && r != [] ==> r[0] != '#'
    ensures HashFreeAfterNewlines(r)
    ensures (st != InComment && HashFreeAfterNewlines(s) && (st == AtLineStart && s != [] ==> s[0] != '#'))
            ==> r == s
    decreases |s|
  {
    if s == [] then []
    else if st == InComment then DropComments(s[1..], if s[0] == '\n' then AtLineStart else InComment)
    else if st == AtLineStart && s[0] == '#' then DropComments(s[1..], if s[0] == '\n' then AtLineStart else InComment)
    else
      var rest := DropComments(s[1..], if s[0] == '\n' then AtLineStart else InLine);
      HashFreeCons(s[0], rest);
      HashFreeCons(s[0], s[1..]);
      assert s == [s[0]] + s[1..];
      [s[0]] + rest
  }

  lemma {:induction false} HashFreeCons(c: char, t: string)
    ensures HashFreeAfterNewlines([c] + t) <==> HashFreeAfterNewlines(t) && !(c == '\n' && t != [] && t[0] == '#')
  {
    var s := [c] + t;
    assert forall i :: 0 <= i < |t| ==> s[i + 1] == t[i];
    if HashFreeAfterNewlines(s) {
      forall i | 0 <= i < |t|
        ensures !HashAfterNewline(t, i)
      {
        assert !HashAfterNewline(s, i + 1);
      }
      if t != [] {
        assert !HashAfterNewline(s, 1);
      }
    }
    if HashFreeAfterNewlines(t) && !(c == '\n' && t != [] && t[0] == '#') {
      forall i | 0 <= i < |s|
        ensures !HashAfterNewline(s, i)
      {
        if i >= 2 {
          assert !HashAfterNewline(t, i - 1);
        }
      }
    }
  }

  /** Step 2: drop every line that starts with `#`, newline included. */
  function StripComments(s: string): (r: string)
    ensures NoCommentLines(r)
    ensures NoCommentLines(s) ==> r == s
  {
    DropComments(s, AtLineStart)
  }

  /** The length of the first line of `s`, its newline included. */
  function LineLength(s: string): (n: nat)
    ensures n <= |s| && (s != [] ==> n >= 1)
    decreases |s|
  {
    if s == [] then 0 else if s[0] == '\n' then 1 else 1 + LineLength(s[1..])
  }

  /** The lines of `s` that do not start with `#`, each with its newline, in order. */
  function KeptLines(s: string): string
    decreases |s|
  {
    if s == [] then []
    else
      var n := LineLength(s);
      (if s[0] == '#' then [] else s[..n]) + KeptLines(s[n..])
  }

  /** Inside a line the scanner drops, or copies, the rest of that line and its newline. */
  lemma {:induction false} RestOfLine(s: string)
    ensures DropComments(s, InComment) == DropComments(s[LineLength(s)..], AtLineStart)
    ensures DropComments(s, InLine) == s[..LineLength(s)] + DropComments(s[LineLength(s)..], AtLineStart)
    decreases |s|
  {
    if s != [] && s[0] != '\n' {
      var n, t := LineLength(s), s[1..];
      RestOfLine(t);
      assert t[LineLength(t)..] == s[n..];
      assert s[..n] == [s[0]] + t[..LineLength(t)];
    }
  }

  /** Removing the comment lines keeps every other line, newline included, verbatim and in
      order. */
  lemma {:induction false} CommentLinesDropped(s: string)
    ensures StripComments(s) == KeptLines(s)
    decreases |s|
  {
    if s != [] {
      var n := LineLength(s);
      CommentLinesDropped(s[n..]);
      CommentLineStep(s);
    }
  }

  /** The scan takes the text line by line: the first line goes when it starts with `#`. */
  lemma {:induction false} CommentLineStep(s: string)
    requires s != []
    ensures StripComments(s) == (if s[0] == '#' then [] else s[..LineLength(s)]) + StripComments(s[LineLength(s)..])
  {
    var n, t := LineLength(s), s[1..];
    if s[0] == '\n' {
      assert s[..n] == [s[0]] && t == s[n..];
    } else if s[0] == '#' {
      CommentLineDropped(s);
    } else {
      LineKept(s);
    }
  }

  lemma {:induction false} CommentLineDropped(s: string)
    requires s != [] && s[0] == '#'
    ensures StripComments(s) == StripComments(s[LineLength(s)..])
  {
    var t := s[1..];
    RestOfLine(t);
    assert t[LineLength(t)..] == s[LineLength(s)..];
  }

  lemma {:induction false} LineKept(s: string)
    requires s != [] && s[0] != '#' && s[0] != '\n'
    ensures StripComments(s) == s[..LineLength(s)] + StripComments(s[LineLength(s)..])
  {
    var n, t := LineLength(s), s[1..];
    RestOfLine(t);
    assert t[LineLength(t)..] == s[n..];
    assert s[..n] == [s[0]] + t[..LineLength(t)];
  }

  /** The blank at offset i stands last on its line. */
  predicate BlankAtLineEnd(s: string, i: int) {
    0 <= i < |s| && IsBlank(s[i]) && (i + 1 == |s| || s[i + 1] == '\n')
  }

  /** No blank stands last on a line. */
  predicate NoTrailingBlanks(s: string) {
    forall i :: 0 <= i < |s| ==> !BlankAtLineEnd(s, i)
  }

  /** The characters of `s` that are not blanks, in order. */
  function NonBlank(s: string): string {
    if s == [] then [] else (if IsBlank(s[0]) then [] else [s[0]]) + NonBlank(s[1..])
  }

  lemma {:induction false} NonBlankAllBlank(s: string, t: string)
    requires forall i :: 0 <= i < |s| ==> IsBlank(s[i])
    ensures NonBlank(s + t) == NonBlank(t)
  {
    if s == [] {
      assert s + t == t;
    } else {
      assert (s + t)[0] == s[0] && (s + t)[1..] == s[1..] + t;
      NonBlankAllBlank(s[1..], t);
    }
  }

  /** The length of the run of blanks that `s` starts with. */
  function BlankRun(s: string): (n: nat)
    ensures n <= |s|
    ensures forall i :: 0 <= i < n ==> IsBlank(s[i])
    ensures n < |s| ==> !IsBlank(s[n])
  {
    if s != [] && IsBlank(s[0]) then 1 + BlankRun(s[1..]) else 0
  }

  /** Step 3, the scan behind `re.sub(r'[ \t]+$', '', s, flags=re.MULTILINE)`: a run of blanks
      goes when a newline or the end of the text follows it. */
  function StripTrailingBlanks(s: string): (r: string)
    ensures NoTrailingBlanks(r)
    ensures NoTrailingBlanks(s) ==> r == s
    ensures NonBlank(r) == NonBlank(s)
    decreases |s|
  {
    if s == [] then []
    else if IsBlank(s[0]) then
      var n := BlankRun(s);
      var rest := StripTrailingBlanks(s[n..]);
      NonBlankAllBlank(s[..n], s[n..]);
      assert s == s[..n] + s[n..];
      NoTrailingBlanksSuffix(s, n);
      if n == |s| || s[n] == '\n' then
        assert BlankAtLineEnd(s, n - 1);
        rest
      else
        assert rest[0] == s[n];
        NonBlankAllBlank(s[..n], rest);
        BlanksThenNoTrailingBlanks(s[..n], rest);
        s[..n] + rest
    else
      var rest := StripTrailingBlanks(s[1..]);
      assert s == [s[0]] + s[1..];
      NoTrailingBlanksCons(s[0], rest);
      NoTrailingBlanksCons(s[0], s[1..]);
      [s[0]] + rest
  }

  lemma {:induction false} NoTrailingBlanksCons(c: char, t: string)
    ensures NoTrailingBlanks([c] + t) <==> NoTrailingBlanks(t) && !(IsBlank(c) && (t == [] || t[0] == '\n'))
  {
    var s := [c] + t;
    assert forall i :: 0 <= i < |t| ==> s[i + 1] == t[i];
    if NoTrailingBlanks(s) {
      forall i | 0 <= i < |t|
        ensures !BlankAtLineEnd(t, i)
      {
        assert !BlankAtLineEnd(s, i + 1);
      }
      assert !BlankAtLineEnd(s, 0);
    }
    if NoTrailingBlanks(t) && !(IsBlank(c) && (t == [] || t[0] == '\n')) {
      forall i | 0 <= i < |s|
        ensures !BlankAtLineEnd(s, i)
      {
        if i >= 1 {
          assert !BlankAtLineEnd(t, i - 1);
        }
      }
    }
  }

  lemma {:induction false} NoTrailingBlanksSuffix(s: string, k: nat)
    requires k <= |s|
    ensures NoTrailingBlanks(s) ==> NoTrailingBlanks(s[k..])
    decreases k
  {
    if k > 0 && NoTrailingBlanks(s) {
      assert s == [s[0]] + s[1..];
      NoTrailingBlanksCons(s[0], s[1..]);
      NoTrailingBlanksSuffix(s[1..], k - 1);
      assert s[1..][k - 1..] == s[k..];
    }
  }

  lemma {:induction false} BlanksThenNoTrailingBlanks(b: string, t: string)
    requires forall i :: 0 <= i < |b| ==> IsBlank(b[i])
    requires NoTrailingBlanks(t)
    requires b != [] ==> t != [] && t[0] != '\n'
    ensures NoTrailingBlanks(b + t)
  {
    if b == [] {
      assert b + t == t;
    } else {
      BlanksThenNoTrailingBlanks(b[1..], t);
      assert b + t == [b[0]] + (b[1..] + t);
      NoTrailingBlanksCons(b[0], b[1..] + t);
    }
  }

  /** From the start of `t` to the end of its line there are only blanks. */
  predicate BlanksToLineEnd(t: string)
    decreases |t|
  {
    t == [] || t[0] == '\n' || (IsBlank(t[0]) && BlanksToLineEnd(t[1..]))
  }

  /** The characters of `t` in order, less every blank that only blanks follow up to the
      end of its line. */
  function KeptBeforeLineEnds(t: string): string
    decreases |t|
  {
    if t == [] then []
    else (if IsBlank(t[0]) && BlanksToLineEnd(t[1..]) then [] else [t[0]]) + KeptBeforeLineEnds(t[1..])
  }

  /** A run of blanks in front of `t` goes exactly when only blanks follow up to the line end. */
  lemma {:induction false} BlankPrefixKept(b: string, t: string)
    requires forall i :: 0 <= i < |b| ==> IsBlank(b[i])
    ensures BlanksToLineEnd(b + t) == BlanksToLineEnd(t)
    ensures KeptBeforeLineEnds(b + t) == if BlanksToLineEnd(t) then KeptBeforeLineEnds(t) else b + KeptBeforeLineEnds(t)
    decreases |b|
  {
    if b == [] {
      assert b + t == t;
    } else {
      BlankPrefixKept(b[1..], t);
      assert (b + t)[0] == b[0] && (b + t)[1..] == b[1..] + t;
      assert b == [b[0]] + b[1..];
    }
  }

  /** The scan removes exactly the blanks that only blanks follow up to the end of their
      line; every other character, blanks inside a line included, stays in order. */
  lemma {:induction false} TrailingBlanksDropped(s: string)
    ensures StripTrailingBlanks(s) == KeptBeforeLineEnds(s)
    decreases |s|
  {
    if s != [] {
      if IsBlank(s[0]) {
        var n := BlankRun(s);
        var t := s[n..];
        TrailingBlanksDropped(t);
        assert s == s[..n] + t;
        BlankPrefixKept(s[..n], t);
        assert BlanksToLineEnd(t) <==> n == |s| || s[n] == '\n';
      } else {
        TrailingBlanksDropped(s[1..]);
      }
    }
  }

  /** Three newlines in a row start at offset i. */
  predicate TripleAt(s: string, i: int) {
    0 <= i && i + 2 < |s| && s[i] == '\n' && s[i + 1] == '\n' && s[i + 2] == '\n'
  }

  /** No three newlines in a row. */
  predicate NoTripleNewline(s: string) {
    forall i :: 0 <= i < |s| ==> !TripleAt(s, i)
  }

  /** The scan behind `re.sub(r'(?<=\n\n)\n+', '', s)`: a newline goes when the two characters
      before it in the original text are newlines; `run` counts those, up to two. */
  function CollapseFrom(s: string, run: nat): (r: string)
    requires run <= 2
    ensures NoTripleNewline(r)
    ensures run == 2 ==> r == [] || r[0] != '\n'
    ensures run == 1 ==> !(|r| >= 2 && r[0] == '\n' && r[1] == '\n')
    ensures (NoTripleNewline(s) && (run == 2 ==> s == [] || s[0] != '\n')
             && (run == 1 ==> !(|s| >= 2 && s[0] == '\n' && s[1] == '\n'))) ==> r == s
    decreases |s|
  {
    if s == [] then []
    else if s[0] == '\n' && run == 2 then CollapseFrom(s[1..], 2)
    else
      var rest := CollapseFrom(s[1..], if s[0] == '\n' then run + 1 else 0);
      assert s == [s[0]] + s[1..];
      NoTripleCons(s[0], rest);
      NoTripleCons(s[0], s[1..]);
      [s[0]] + rest
  }

  lemma {:induction false} NoTripleCons(c: char, t: string)
    ensures NoTripleNewline([c] + t) <==> NoTripleNewline(t) && !(c == '\n' && |t| >= 2 && t[0] == '\n' && t[1] == '\n')
  {
    var s := [c] + t;
    assert forall i :: 0 <= i < |t| ==> s[i + 1] == t[i];
    if NoTripleNewline(s) {
      forall i | 0 <= i < |t|
        ensures !TripleAt(t, i)
      {
        assert !TripleAt(s, i + 1);
      }
      assert !TripleAt(s, 0);
    }
    if NoTripleNewline(t) && !(c == '\n' && |t| >= 2 && t[0] == '\n' && t[1] == '\n') {
      forall i | 0 <= i < |s|
        ensures !TripleAt(s, i)
      {
        if i >= 1 {
          assert !TripleAt(t, i - 1);
        }
      }
    }
  }

  /** Step 4: squeeze every run of empty lines to a single empty line. */
  function CollapseBlankLines(s: string): (r: string)
    ensures NoTripleNewline(r)
    ensures NoTripleNewline(s) ==> r == s
  {
    CollapseFrom(s, 0)
  }

  /** Offset i of `s` holds a newline with two newlines before it: the lookbehind and one
      newline of `(?<=\n\n)\n+`. */
  predicate SurplusNewline(s: string, i: int) {
    2 <= i < |s| && s[i] == '\n' && s[i - 1] == '\n' && s[i - 2] == '\n'
  }

  /** The characters of s[i..] that are not surplus newlines of `s`, in order. */
  function KeptFrom(s: string, i: nat): string
    decreases |s| - i
  {
    if i >= |s| then [] else (if SurplusNewline(s, i) then [] else [s[i]]) + KeptFrom(s, i + 1)
  }

  /** How many newlines, up to two, come just before offset i. */
  function NewlinesBefore(s: string, i: int): nat {
    if 1 <= i <= |s| && s[i - 1] == '\n' then (if i >= 2 && s[i - 2] == '\n' then 2 else 1) else 0
  }

  /** From any offset, the scan keeps exactly the characters that are not surplus newlines. */
  lemma {:induction false} CollapseKeeps(s: string, i: nat)
    requires i <= |s|
    ensures CollapseFrom(s[i..], NewlinesBefore(s, i)) == KeptFrom(s, i)
    decreases |s| - i
  {
    if i < |s| {
      CollapseKeeps(s, i + 1);
      assert s[i..][1..] == s[i + 1..];
    }
  }

  /** Collapsing removes exactly the newlines that two newlines precede in the text, so a run
      of n >= 2 newlines becomes two and nothing else goes. */
  lemma {:induction false} CollapseKeepsAllElse(s: string)
    ensures CollapseBlankLines(s) == KeptFrom(s, 0)
  {
    CollapseKeeps(s, 0);
    assert s[0..] == s;
  }

  lemma {:induction false} CollapseKeepsNoTrailingBlanks(s: string, run: nat)
    requires run <= 2
    requires NoTrailingBlanks(s)
    ensures NoTrailingBlanks(CollapseFrom(s, run))
    decreases |s|
  {
    if s != [] {
      assert s == [s[0]] + s[1..];
      NoTrailingBlanksCons(s[0], s[1..]);
      var next := if s[0] == '\n' then (if run == 2 then 2 else run + 1) else 0;
      CollapseKeepsNoTrailingBlanks(s[1..], next);
      var rest := CollapseFrom(s[1..], next);
      if IsBlank(s[0]) {
        assert s[1..][0] == s[1];
        assert rest[0] == s[1];
      }
      if !(s[0] == '\n' && run == 2) {
        NoTrailingBlanksCons(s[0], rest);
      }
    }
  }

  /** Step 5: newlines are dropped from the front until the text no longer starts with one. */
  function TrimLeadingNewlines(s: string): (r: string)
    ensures |r| <= |s| && r == s[|s| - |r|..]
    ensures forall i :: 0 <= i < |s| - |r| ==> s[i] == '\n'
    ensures r == [] || r[0] != '\n'
    decreases |s|
  {
    if |s| > 0 && s[0] == '\n' then TrimLeadingNewlines(s[1..]) else s
  }

  /** Step 6: the last character is dropped for as long as the text ends in two newlines. */
  function TrimSurplusNewlines(s: string): (r: string)
    ensures |r| <= |s| && r == s[..|r|]
    ensures forall i :: |r| <= i < |s| ==> s[i] == '\n'
    ensures !EndsWith(r, "\n\n")
    ensures |r| < |s| ==> |r| > 0 && r[|r| - 1] == '\n'
    decreases |s|
  {
    EndsWithTwoNewlines(s);
    if |s| >= 2 && s[|s| - 2] == '\n' && s[|s| - 1] == '\n' then TrimSurplusNewlines(s[..|s| - 1]) else s
  }

  lemma {:induction false} EndsWithTwoNewlines(s: string)
    ensures EndsWith(s, "\n\n") <==> |s| >= 2 && s[|s| - 2] == '\n' && s[|s| - 1] == '\n'
  {
    if |s| >= 2 {
      assert s[|s| - 2..] == [s[|s| - 2], s[|s| - 1]];
    }
  }

  /** Steps 2 to 6. */
  function CleanedAfterCut(s: string): string {
    TrimSurplusNewlines(TrimLeadingNewlines(CollapseBlankLines(StripTrailingBlanks(StripComments(s)))))
  }

  /** The whole of `_strip_message`, as a function. */
  function Cleaned(raw: string): string {
    CleanedAfterCut(CutScissors(raw))
  }

  /** What a cleaned message looks like. */
  predicate IsClean(m: string) {
    && (m == [] || m[0] != '\n') && !EndsWith(m, "\n\n") && NoTripleNewline(m) && NoTrailingBlanks(m)
    && NoCommentLines(m)
  }

  /** A suffix of a text with no `#` after a newline has none either. */
  lemma {:induction false} HashFreeSuffix(s: string, k: nat)
    requires k <= |s| && HashFreeAfterNewlines(s)
    ensures HashFreeAfterNewlines(s[k..])
  {
    var r := s[k..];
    forall i | 0 <= i < |r|
      ensures !HashAfterNewline(r, i)
    {
      assert !HashAfterNewline(s, k + i);
      if i > 0 {
        assert r[i - 1] == s[k + i - 1] && r[i] == s[k + i];
      }
    }
  }

  /** Blanks in front of a text put no `#` after a newline. */
  lemma {:induction false} BlanksThenHashFree(b: string, t: string)
    requires forall i :: 0 <= i < |b| ==> IsBlank(b[i])
    requires HashFreeAfterNewlines(t)
    ensures HashFreeAfterNewlines(b + t)
    decreases |b|
  {
    if b == [] {
      assert b + t == t;
    } else {
      BlanksThenHashFree(b[1..], t);
      assert b + t == [b[0]] + (b[1..] + t);
      HashFreeCons(b[0], b[1..] + t);
    }
  }

  /** Dropping trailing blanks brings no `#` to a line start: the blanks dropped are never
      followed on their line by a `#`. */
  lemma {:induction false} TrailingKeepsCommentFree(s: string)
    requires HashFreeAfterNewlines(s)
    ensures HashFreeAfterNewlines(StripTrailingBlanks(s))
    ensures StripTrailingBlanks(s) != [] && StripTrailingBlanks(s)[0] == '#' ==> s[0] == '#'
    decreases |s|
  {
    if s != [] {
      if IsBlank(s[0]) {
        var n := BlankRun(s);
        HashFreeSuffix(s, n);
        TrailingKeepsCommentFree(s[n..]);
        if !(n == |s| || s[n] == '\n') {
          BlanksThenHashFree(s[..n], StripTrailingBlanks(s[n..]));
        }
      } else {
        assert s == [s[0]] + s[1..];
        HashFreeCons(s[0], s[1..]);
        TrailingKeepsCommentFree(s[1..]);
        assert s[1..] != [] ==> s[1..][0] == s[1];
        HashFreeCons(s[0], StripTrailingBlanks(s[1..]));
      }
    }
  }

  /** Collapsing empty lines brings no `#` to a line start: a newline goes only where the
      one before it stays. */
  lemma {:induction false} CollapseKeepsCommentFree(s: string, run: nat)
    requires run <= 2 && HashFreeAfterNewlines(s)
    ensures HashFreeAfterNewlines(CollapseFrom(s, run))
    ensures CollapseFrom(s, run) != [] && CollapseFrom(s, run)[0] == '#' ==> s[0] == '#'
    decreases |s|
  {
    if s != [] {
      assert s == [s[0]] + s[1..];
      HashFreeCons(s[0], s[1..]);
      var next := if s[0] == '\n' then (if run == 2 then 2 else run + 1) else 0;
      CollapseKeepsCommentFree(s[1..], next);
      assert s[1..] != [] ==> s[1..][0] == s[1];
      if !(s[0] == '\n' && run == 2) {
        HashFreeCons(s[0], CollapseFrom(s[1..], next));
      }
    }
  }

  /** A prefix of a text with no `#` after a newline has none either. */
  lemma {:induction false} HashFreePrefix(s: string, k: nat)
    requires k <= |s| && HashFreeAfterNewlines(s)
    ensures HashFreeAfterNewlines(s[..k])
  {
    var r := s[..k];
    forall i | 0 <= i < |r|
      ensures !HashAfterNewline(r, i)
    {
      assert !HashAfterNewline(s, i);
      if i > 0 {
        assert r[i - 1] == s[i - 1] && r[i] == s[i];
      }
    }
  }

  /** Dropping newlines from the front brings no `#` to a line start. */
  lemma {:induction false} TrimLeadingKeepsCommentFree(s: string)
    requires NoCommentLines(s)
    ensures NoCommentLines(TrimLeadingNewlines(s))
  {
    var r := TrimLeadingNewlines(s);
    var k := |s| - |r|;
    HashFreeSuffix(s, k);
    if k > 0 && r != [] {
      assert s[k - 1] == '\n' && s[k] == r[0];
      assert !HashAfterNewline(s, k);
    }
  }

  /** Dropping newlines from the back brings no `#` to a line start. */
  lemma {:induction false} TrimSurplusKeepsCommentFree(s: string)
    requires NoCommentLines(s)
    ensures NoCommentLines(TrimSurplusNewlines(s))
  {
    var r := TrimSurplusNewlines(s);
    HashFreePrefix(s, |r|);
    if r != [] {
      assert r[0] == s[0];
    }
  }

  lemma {:induction false} TrimLeadingKeepsShape(s: string)
    requires NoTripleNewline(s) && NoTrailingBlanks(s)
    ensures NoTripleNewline(TrimLeadingNewlines(s)) && NoTrailingBlanks(TrimLeadingNewlines(s))
  {
    var r := TrimLeadingNewlines(s);
    SuffixNoTriple(s, |s| - |r|);
    SuffixNoTrailingBlanks(s, |s| - |r|);
  }

  lemma {:induction false} SuffixNoTriple(s: string, k: nat)
    requires k <= |s| && NoTripleNewline(s)
    ensures NoTripleNewline(s[k..])
  {
    var r := s[k..];
    forall i | 0 <= i && i + 2 < |r|
      ensures !TripleAt(r, i)
    {
      assert r[i] == s[k + i] && r[i + 1] == s[k + i + 1] && r[i + 2] == s[k + i + 2];
      assert !TripleAt(s, k + i);
    }
  }

  lemma {:induction false} SuffixNoTrailingBlanks(s: string, k: nat)
    requires k <= |s| && NoTrailingBlanks(s)
    ensures NoTrailingBlanks(s[k..])
  {
    var r := s[k..];
    forall i | 0 <= i < |r|
      ensures !BlankAtLineEnd(r, i)
    {
      assert r[i] == s[k + i];
      assert !BlankAtLineEnd(s, k + i);
      if i + 1 < |r| {
        assert r[i + 1] == s[k + i + 1];
      }
    }
  }

  lemma {:induction false} TrimSurplusKeepsShape(s: string)
    requires NoTripleNewline(s) && NoTrailingBlanks(s) && (s == [] || s[0] != '\n')
    ensures var r := TrimSurplusNewlines(s);
      NoTripleNewline(r) && NoTrailingBlanks(r) && (r == [] || r[0] != '\n')
  {
    var r := TrimSurplusNewlines(s);
    forall i | 0 <= i && i + 2 < |r|
      ensures !TripleAt(r, i)
    {
      assert r[i] == s[i] && r[i + 1] == s[i + 1] && r[i + 2] == s[i + 2];
      assert !TripleAt(s, i);
    }
    forall i | 0 <= i < |r|
      ensures !BlankAtLineEnd(r, i)
    {
      assert r[i] == s[i];
      assert !BlankAtLineEnd(s, i);
      if i + 1 < |r| {
        assert r[i + 1] == s[i + 1];
      }
    }
  }

  lemma {:induction false} CleanedIsClean(raw: string)
    ensures IsClean(Cleaned(raw))
  {
    var s2 := StripComments(CutScissors(raw));
    var s3 := StripTrailingBlanks(s2);
    TrailingKeepsCommentFree(s2);
    CollapseKeepsNoTrailingBlanks(s3, 0);
    CollapseKeepsCommentFree(s3, 0);
    var s4 := CollapseBlankLines(s3);
    TrimLeadingKeepsShape(s4);
    TrimSurplusKeepsShape(TrimLeadingNewlines(s4));
    TrimLeadingKeepsCommentFree(s4);
    TrimSurplusKeepsCommentFree(TrimLeadingNewlines(s4));
  }

  /** `_strip_message`: the successive substitutions, then the two trimming loops. */
  method StripMessage(raw: string) returns (message: string)
    ensures message == Cleaned(raw)
    ensures IsClean(message)
  {
    message := raw;
    var cutLine := Find(message, Scissors);
    if cutLine >= 0 && (cutLine == 0 || message[cutLine - 1] == '\n') {
      message := message[..cutLine];
    }
    assert message == CutScissors(raw);
    message := StripComments(message);
    message := StripTrailingBlanks(message);
    message := CollapseBlankLines(message);
    message := DropLeadingNewlines(message);
    message := DropSurplusNewlines(message);
    CleanedIsClean(raw);
  }

  /** The first loop at the end of the cleanup: drop every leading newline. */
  method DropLeadingNewlines(s: string) returns (message: string)
    ensures message == TrimLeadingNewlines(s)
  {
    message := s;
    while |message| >= 1 && message[0] == '\n'
      invariant TrimLeadingNewlines(message) == TrimLeadingNewlines(s)
      decreases |message|
    {
      message := message[1..];
    }
  }

  /** The second loop: drop the last character while the text ends in two newlines. */
  method DropSurplusNewlines(s: string) returns (message: string)
    ensures message == TrimSurplusNewlines(s)
  {
    message := s;
    while |message| >= 2 && message[|message| - 2..] == "\n\n"
      invariant TrimSurplusNewlines(message) == TrimSurplusNewlines(s)
      decreases |message|
    {
      EndsWithTwoNewlines(message);
      message := message[..|message| - 1];
    }
    EndsWithTwoNewlines(message);
  }

  /** The scissors line, when it is the first occurrence of the marker and starts a line,
      hides everything after it: the result is that of the text before it alone. */
  lemma {:induction false} ScissorsCutsRest(before: string, after: string)
    requires before == [] || before[|before| - 1] == '\n'
    requires GapFree(before + Scissors, Scissors, 0, |before|)
    ensures Cleaned(before + Scissors + after) == Cleaned(before)
  {
    CutAtScissors(before, after);
  }

  lemma {:induction false} CutAtScissors(before: string, after: string)
    requires before == [] || before[|before| - 1] == '\n'
    requires GapFree(before + Scissors, Scissors, 0, |before|)
    ensures CutScissors(before + Scissors + after) == before == CutScissors(before)
  {
    CutAtFirstScissors(before, after);
    NoScissorsInBefore(before);
  }

  /** The first marker of `before + Scissors + after` is the one just after `before`. */
  lemma {:induction false} CutAtFirstScissors(before: string, after: string)
    requires before == [] || before[|before| - 1] == '\n'
    requires GapFree(before + Scissors, Scissors, 0, |before|)
    ensures CutScissors(before + Scissors + after) == before
  {
    var head := before + Scissors;
    var s := head + after;
    var n := |Scissors|;
    assert s[..|head|] == head;
    assert s[|before|..|before| + n] == head[|before|..|before| + n] == Scissors;
    forall j | 0 <= j < |before|
      ensures !OccursAt(s, Scissors, j)
    {
      assert !OccursAt(head, Scissors, j);
      assert s[j..j + n] == head[j..j + n];
    }
    assert OccursAt(s, Scissors, |before|);
    assert GapFree(s, Scissors, 0, |before|);
    assert Find(s, Scissors) == |before|;
    assert s[..|before|] == before;
  }

  /** Text before the first marker holds none, so the cut leaves it alone. */
  lemma {:induction false} NoScissorsInBefore(before: string)
    requires GapFree(before + Scissors, Scissors, 0, |before|)
    ensures CutScissors(before) == before
  {
    var head := before + Scissors;
    var n := |Scissors|;
    forall j | 0 <= j < |before| + 1
      ensures !OccursAt(before, Scissors, j)
    {
      if j + n <= |before| {
        assert !OccursAt(head, Scissors, j);
        assert head[j..j + n] == before[j..j + n];
      }
    }
    assert CutScissors(before) == before;
  }

  /** Only the first occurrence of the marker is looked at: when it does not start a line, a
      scissors line further on is not honoured by the cut. */
  lemma {:induction false} ScissorsOnlyFirstOccurrence(before: string, after: string)
    requires var c := Find(before, Scissors); c > 0 && before[c - 1] != '\n'
    ensures CutScissors(before + after) == before + after
  {
    var c := Find(before, Scissors);
    var n := |Scissors|;
    var s := before + after;
    assert s[..|before|] == before;
    assert s[c..c + n] == before[c..c + n];
    forall j | 0 <= j < c
      ensures !OccursAt(s, Scissors, j)
    {
      assert !OccursAt(before, Scissors, j);
      assert s[j..j + n] == before[j..j + n];
    }
    assert OccursAt(s, Scissors, c);
    assert GapFree(s, Scissors, 0, c);
    assert Find(s, Scissors) == c;
  }
}
