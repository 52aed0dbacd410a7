/**
 * `CommitMessage`: a cleaned commit message together with the offsets its accessors slice by,
 * namely line starts, paragraph starts, and the ends of a `fixup!`/`squash!` prefix and of a
 * `Merge ...:` prefix.
 */
module CommitMessages {
  import opened Wrappers
  import opened PyText
  import opened Chars
  import opened Cleanup
  import opened IndexedList

  const LineSeparator: string := "\n"
  const ParagraphSeparator: string := "\n\n"

  /*** Line starts ***/

  /** `_line_index`: 0, the end of every newline, and one past the end of the text (plus the
      separator) when the text does not itself end in a newline. */
  function LineIndex(m: string): seq<int> {
    [0] + MatchEnds(m, "\n", 0) + LineTail(m)
  }

  /** The piece of `m` between line offsets k and k+1 has no newline. */
  predicate LineFree(m: string, index: seq<int>, k: int)
    requires 0 <= k < |index| - 1
  {
    '\n' !in Slice(m, index[k], index[k + 1] - 1)
  }

  lemma {:induction false} EndsWithNewline(m: string)
    ensures EndsWith(m, "\n") <==> |m| > 0 && m[|m| - 1] == '\n'
  {
    if |m| > 0 {
      assert m[|m| - 1..] == [m[|m| - 1]];
    }
  }

  /** The offsets appended after the newline matches: one past the end of the text (plus the
      separator) unless the text ends in a newline. */
  function LineTail(m: string): seq<int> {
    if EndsWith(m, "\n") then [] else [|m| + 1]
  }

  /** The last newline match ends at the end of the text exactly when the text ends in a
      newline: the condition of the source's `append` is "does not end in a newline". */
  lemma {:induction false} LastNewline(m: string, ends: seq<int>)
    requires Scan(m, "\n", 0, ends)
    ensures (|[0] + ends| < 2 || ([0] + ends)[|ends|] < |m|) <==> !EndsWith(m, "\n")
    ensures EndsWith(m, "\n") ==> ends != [] && ends[|ends| - 1] == |m|
  {
    EndsWithNewline(m);
    if |m| > 0 && m[|m| - 1] == '\n' {
      OccursNewline(m, |m| - 1);
      if ends != [] {
        assert !OccursAt(m, "\n", |m| - 1) || |m| - 1 < ends[|ends| - 1];
        assert EndsOccurrence(m, "\n", ends, |ends| - 1);
      }
    } else if ends != [] {
      assert EndsOccurrence(m, "\n", ends, |ends| - 1);
      OccursNewline(m, ends[|ends| - 1] - 1);
    }
  }

  /** The line index chains the message's lines: it starts at 0, its inner offsets follow
      newlines, no line holds a newline, and the lines reach to the end of the text, save for
      a final newline. */
  lemma {:induction false} LineIndexShape(m: string)
    ensures var index := LineIndex(m);
      && |index| >= 2 && index[0] == 0
      && Chained(m, index, "\n")
      && (forall k :: 0 <= k < |index| - 1 ==> LineFree(m, index, k))
      && index[|index| - 1] - 1 == |DropFinalNewline(m)|
  {
    var ends := MatchEnds(m, "\n", 0);
    MatchEndsSpec(m, "\n", 0);
    assert LineIndex(m) == [0] + ends + LineTail(m);
    LastNewline(m, ends);
    EndsWithNewline(m);
    LinesChained(m, ends);
    LinesFree(m, ends);
  }

  lemma {:induction false} LinesChained(m: string, ends: seq<int>)
    requires Scan(m, "\n", 0, ends)
    ensures Chained(m, [0] + ends + LineTail(m), "\n")
  {
    var index := [0] + ends + LineTail(m);
    var n := |ends|;
    LastNewline(m, ends);
    forall k | 0 < k < |index| - 1
      ensures Link(m, index, "\n", k)
    {
      LineLinkAt(m, ends, k);
    }
    if n > 0 {
      if |index| > 2 {
        if LineTail(m) == [] {
          assert Consecutive(m, "\n", ends, n - 1);
        } else {
          assert EndsOccurrence(m, "\n", ends, n - 1);
        }
      }
    } else {
      assert index == [0, |m| + 1];
    }
  }

  /** Each newline match links the line before it to the line after it. */
  lemma {:induction false} LineLinkAt(m: string, ends: seq<int>, k: int)
    requires Scan(m, "\n", 0, ends) && 0 < k <= |ends|
    ensures Link(m, [0] + ends + LineTail(m), "\n", k)
  {
    var index := [0] + ends + LineTail(m);
    assert index[k] == ends[k - 1];
    assert EndsOccurrence(m, "\n", ends, k - 1);
    if k > 1 {
      assert index[k - 1] == ends[k - 2];
      assert Consecutive(m, "\n", ends, k - 1);
    }
  }

  lemma {:induction false} LinesFree(m: string, ends: seq<int>)
    requires Scan(m, "\n", 0, ends)
    ensures var index := [0] + ends + LineTail(m);
      forall k :: 0 <= k < |index| - 1 ==> LineFree(m, index, k)
  {
    var index := [0] + ends + LineTail(m);
    forall k | 0 <= k < |index| - 1
      ensures LineFree(m, index, k)
    {
      LineFreeAt(m, ends, k);
    }
  }

  lemma {:induction false} LineFreeAt(m: string, ends: seq<int>, k: int)
    requires Scan(m, "\n", 0, ends)
    requires 0 <= k < |[0] + ends + LineTail(m)| - 1
    ensures LineFree(m, [0] + ends + LineTail(m), k)
  {
    LastNewline(m, ends);
    if ends == [] {
      LineFreeOnly(m);
    } else if k == 0 {
      LineFreeFirst(m, ends);
    } else if k < |ends| {
      LineFreeInner(m, ends, k);
    } else {
      LineFreeLast(m, ends);
    }
  }

  lemma {:induction false} LineFreeOnly(m: string)
    requires Scan(m, "\n", 0, [])
    ensures LineTail(m) == [|m| + 1]
    ensures LineFree(m, [0] + [] + LineTail(m), 0)
  {
    LastNewline(m, []);
    assert [0] + [] + LineTail(m) == [0, |m| + 1];
    NewlineFree(m, 0, |m|);
  }

  lemma {:induction false} LineFreeFirst(m: string, ends: seq<int>)
    requires Scan(m, "\n", 0, ends) && ends != []
    ensures LineFree(m, [0] + ends + LineTail(m), 0)
  {
    var index := [0] + ends + LineTail(m);
    assert index[0] == 0 && index[1] == ends[0];
    assert EndsOccurrence(m, "\n", ends, 0);
    NewlineFree(m, 0, ends[0] - 1);
  }

  lemma {:induction false} LineFreeLast(m: string, ends: seq<int>)
    requires Scan(m, "\n", 0, ends) && ends != [] && !EndsWith(m, "\n")
    ensures LineFree(m, [0] + ends + LineTail(m), |ends|)
  {
    var index := [0] + ends + [|m| + 1];
    var k := |ends|;
    assert [0] + ends + LineTail(m) == index;
    assert index[k] == ends[k - 1] && index[k + 1] == |m| + 1;
    assert EndsOccurrence(m, "\n", ends, k - 1);
    NewlineFree(m, ends[k - 1], |m|);
  }

  lemma {:induction false} LineFreeInner(m: string, ends: seq<int>, k: int)
    requires Scan(m, "\n", 0, ends)
    requires 0 < k < |ends|
    ensures LineFree(m, [0] + ends + LineTail(m), k)
  {
    var index := [0] + ends + LineTail(m);
    assert index[k] == ends[k - 1] && index[k + 1] == ends[k];
    assert EndsOccurrence(m, "\n", ends, k - 1);
    assert EndsOccurrence(m, "\n", ends, k);
    assert Consecutive(m, "\n", ends, k);
    NewlineFree(m, ends[k - 1], ends[k] - 1);
  }

  lemma {:induction false} NewlineFree(m: string, lo: int, hi: int)
    requires 0 <= lo <= hi <= |m| && GapFree(m, "\n", lo, hi)
    ensures '\n' !in Slice(m, lo, hi)
  {
    assert Slice(m, lo, hi) == m[lo..hi];
    GapFreeNewline(m, lo, hi);
  }

  /*** Subject prefixes ***/

  /** The message starts with `fixup!` or `squash!` and at least one `\s` character. */
  predicate HasAutosquashPrefix(m: string) {
    || (StartsWith(m, "fixup!") && 6 < |m| && IsSpace(m[6]))
    || (StartsWith(m, "squash!") && 7 < |m| && IsSpace(m[7]))
  }

  /** The end of a non-empty run of `\s` characters starting at p, or 0 if there is none. */
  function SpacesAfter(m: string, p: nat): (e: nat)
    requires p <= |m|
    ensures e == 0 || (p < e <= |m| && (forall i :: p <= i < e ==> IsSpace(m[i])) && (e < |m| ==> !IsSpace(m[e])))
    ensures e == 0 <==> !(p < |m| && IsSpace(m[p]))
  {
    var n := SpaceRun(m[p..]);
    assert forall i :: p <= i < p + n ==> m[i] == m[p..][i - p];
    if n > 0 then p + n else 0
  }

  /** `autosquash_re.match(message).end()`, or 0 when it does not match: `(fixup|squash)!`
      then the longest run of `\s`, which must not be empty and may cross newlines. */
  function AutosquashEnd(m: string): (e: nat)
    ensures e <= |m|
    ensures e > 0 <==> HasAutosquashPrefix(m)
    ensures e > 0 ==> var p := if StartsWith(m, "fixup!") then 6 else 7;
      && p < e
      && (forall i :: p <= i < e ==> IsSpace(m[i]))
      && (e < |m| ==> !IsSpace(m[e]))
  {
    assert StartsWith(m, "fixup!") ==> m[0] == 'f';
    assert StartsWith(m, "squash!") ==> m[0] == 's';
    if StartsWith(m, "fixup!") then SpacesAfter(m, 6)
    else if StartsWith(m, "squash!") then SpacesAfter(m, 7)
    else 0
  }

  /** A `:` at offset k of the first line, after `Merge`: where `Merge.*?:` can stop. */
  predicate ColonAt(t: string, k: int) {
    5 <= k < |t| && t[k] == ':' && Avoids(t, '\n', 5, k)
  }

  /** The first `:` at or after i, provided no newline comes before it. */
  function ColonFrom(t: string, i: nat): (r: Option<nat>)
    requires 5 <= i <= |t| && Avoids(t, '\n', 5, i) && Avoids(t, ':', 5, i)
    ensures r.Some? ==> ColonAt(t, r.value) && forall k :: ColonAt(t, k) ==> r.value <= k
    ensures r.None? ==> forall k :: !ColonAt(t, k)
    decreases |t| - i
  {
    if i == |t| then None
    else if t[i] == '\n' then None
    else if t[i] == ':' then Some(i)
    else ColonFrom(t, i + 1)
  }

  /** The message text after `autosquash_end` starts with `Merge` and holds a `:` on its
      first line. */
  predicate HasMergePrefix(t: string) {
    StartsWith(t, "Merge") && exists k :: 5 <= k < |t| && ColonAt(t, k)
  }

  /** `merge_re.match(t).end()`, or 0 when it does not match: `Merge`, the shortest run of
      non-newline characters up to a `:`, then the longest run of blanks. */
  function MergeEnd(t: string): (e: nat)
    ensures e <= |t|
    ensures e > 0 <==> HasMergePrefix(t)
    ensures e > 0 ==> exists k :: && ColonAt(t, k) && (forall j :: ColonAt(t, j) ==> k <= j)
                                  && k < e && (forall i :: k < i < e ==> IsBlank(t[i]))
                                  && (e < |t| ==> !IsBlank(t[e]))
  {
    if !StartsWith(t, "Merge") then 0
    else
      match ColonFrom(t, 5)
      case None => 0
      case Some(k) =>
        var n := BlankRun(t[k + 1..]);
        assert forall i :: k < i < k + 1 + n ==> t[i] == t[k + 1..][i - k - 1];
        k + 1 + n
  }

  /*** Paragraph starts ***/

  /** The first paragraph starts on the second line, unless an empty line follows the
      subject, in which case the first `\n\n` match already marks it. */
  function ParagraphHead(m: string, l1: int): seq<int> {
    if OccursAt(m, "\n\n", l1 - 1) then [] else [l1]
  }

  /** The closing offset: one past the end plus the separator, less one for a final newline. */
  function ParagraphEnd(m: string): int {
    if EndsWith(m, "\n") then |m| + 1 else |m| + 2
  }

  /** `_paragraph_index`, given the start `l1` of the second line. */
  function ParagraphIndex(m: string, l1: int): seq<int> {
    ParagraphHead(m, l1) + MatchEnds(m, "\n\n", 0) + [ParagraphEnd(m)]
  }

  /** The subject line of `m` ends at l1 - 1: there is no newline before it, and a newline
      at it unless it lies past the end. */
  predicate FirstLineEnd(m: string, l1: int) {
    1 <= l1 <= |m| + 1 && '\n' !in m[..l1 - 1] && (l1 <= |m| ==> m[l1 - 1] == '\n')
  }

  lemma {:induction false} FirstLineOfIndex(m: string)
    ensures |LineIndex(m)| >= 2 && FirstLineEnd(m, LineIndex(m)[1])
  {
    LineIndexShape(m);
    var index := LineIndex(m);
    assert LineFree(m, index, 0);
    if |index| > 2 {
      assert Link(m, index, "\n", 1);
    }
    FirstLineOfShape(m, index);
  }

  lemma {:induction false} FirstLineOfShape(m: string, index: seq<int>)
    requires |index| >= 2 && index[0] == 0 && LineFree(m, index, 0)
    requires |index| > 2 ==> Link(m, index, "\n", 1)
    requires |index| == 2 ==> index[1] - 1 == |DropFinalNewline(m)|
    ensures FirstLineEnd(m, index[1])
  {
    var l1 := index[1];
    if |index| > 2 {
      OccursNewline(m, l1 - 1);
    } else {
      EndsWithNewline(m);
    }
    assert Slice(m, 0, l1 - 1) == m[..l1 - 1];
  }

  /** The source's test `message[l1 - 1:].startswith('\n\n')` is an occurrence at l1 - 1. */
  lemma {:induction false} HeadCondition(m: string, l1: int)
    requires 1 <= l1 <= |m| + 1
    ensures StartsWith(Slice(m, l1 - 1, |m|), "\n\n") <==> OccursAt(m, "\n\n", l1 - 1)
  {
    var t := Slice(m, l1 - 1, |m|);
    assert t == m[l1 - 1..];
    if OccursAt(m, "\n\n", l1 - 1) {
      assert t[..2] == m[l1 - 1..l1 + 1];
    }
    if StartsWith(t, "\n\n") {
      assert t[..2] == m[l1 - 1..l1 + 1];
    }
  }

  /** The piece of `m` between paragraph offsets k and k+1 holds no empty line. */
  predicate ParagraphFree(m: string, index: seq<int>, k: int)
    requires 0 <= k < |index| - 1
  {
    Lacks(Slice(m, index[k], index[k + 1] - 2), "\n\n")
  }

  /** A `\n\n` match cannot start before the end of the subject line, nor at it when the head
      offset is kept. */
  lemma {:induction false} FirstBreakAfterHead(m: string, l1: int, j: int)
    requires FirstLineEnd(m, l1) && OccursAt(m, "\n\n", j)
    ensures l1 - 1 <= j
  {
    OccursTwoNewlines(m, j);
  }

  lemma {:induction false} ParagraphsChained(m: string, l1: int, ends: seq<int>)
    requires Scan(m, "\n\n", 0, ends) && FirstLineEnd(m, l1) && !EndsWith(m, "\n\n")
    ensures Chained(m, ParagraphHead(m, l1) + ends + [ParagraphEnd(m)], "\n\n")
  {
    var head := ParagraphHead(m, l1);
    var index := head + ends + [ParagraphEnd(m)];
    forall k | 0 < k < |index| - 1
      ensures Link(m, index, "\n\n", k)
    {
      ParagraphLink(m, l1, ends, k);
    }
    if ends != [] {
      var last := ends[|ends| - 1];
      assert EndsOccurrence(m, "\n\n", ends, |ends| - 1);
      assert index[|index| - 2] == last;
      EndsWithNewline(m);
      BreakAtEnd(m);
    } else if head == [] {
      assert !OccursAt(m, "\n\n", l1 - 1);
    }
  }

  lemma {:induction false} ParagraphLink(m: string, l1: int, ends: seq<int>, k: int)
    requires Scan(m, "\n\n", 0, ends) && FirstLineEnd(m, l1)
    requires 0 < k < |ParagraphHead(m, l1) + ends|
    ensures Link(m, ParagraphHead(m, l1) + ends + [ParagraphEnd(m)], "\n\n", k)
  {
    var head := ParagraphHead(m, l1);
    var index := head + ends + [ParagraphEnd(m)];
    var h := |head|;
    assert index[k] == ends[k - h];
    assert EndsOccurrence(m, "\n\n", ends, k - h);
    if k - h > 0 {
      assert index[k - 1] == ends[k - h - 1];
      assert Consecutive(m, "\n\n", ends, k - h);
    } else {
      FirstBreakAfterHead(m, l1, ends[0] - 2);
    }
  }

  lemma {:induction false} ParagraphsFree(m: string, l1: int, ends: seq<int>)
    requires Scan(m, "\n\n", 0, ends) && FirstLineEnd(m, l1)
    ensures var index := ParagraphHead(m, l1) + ends + [ParagraphEnd(m)];
      forall k :: 0 <= k < |index| - 1 ==> ParagraphFree(m, index, k)
  {
    var index := ParagraphHead(m, l1) + ends + [ParagraphEnd(m)];
    ParagraphFreeHead(m, l1, ends);
    if ends != [] {
      ParagraphFreeLast(m, ends);
    }
    forall i | 0 <= i && i + 1 < |ends|
      ensures Lacks(Slice(m, ends[i], ends[i + 1] - 2), "\n\n")
    {
      ParagraphFreeInner(m, ends, i);
    }
    forall k | 0 <= k < |index| - 1
      ensures ParagraphFree(m, index, k)
    {
      ParagraphFreeAt(m, l1, ends, k);
    }
  }

  /** The k-th paragraph of the index is free of empty lines, given that the pieces before,
      between and after the empty-line matches are. */
  lemma {:induction false} ParagraphFreeAt(m: string, l1: int, ends: seq<int>, k: int)
    requires 0 <= k < |ParagraphHead(m, l1) + ends|
    requires Lacks(Slice(m, l1, (if ends == [] then ParagraphEnd(m) else ends[0]) - 2), "\n\n")
    requires forall i :: 0 <= i && i + 1 < |ends| ==> Lacks(Slice(m, ends[i], ends[i + 1] - 2), "\n\n")
    requires ends != [] ==> Lacks(Slice(m, ends[|ends| - 1], ParagraphEnd(m) - 2), "\n\n")
    ensures ParagraphFree(m, ParagraphHead(m, l1) + ends + [ParagraphEnd(m)], k)
  {
    var head := ParagraphHead(m, l1);
    var index := head + ends + [ParagraphEnd(m)];
    var h := |head|;
    if k < h {
      assert index[0] == l1 && index[1] == (if ends == [] then ParagraphEnd(m) else ends[0]);
    } else if k - h + 1 < |ends| {
      assert index[k] == ends[k - h] && index[k + 1] == ends[k - h + 1];
    } else {
      assert index[k] == ends[k - h] && index[k + 1] == ParagraphEnd(m);
    }
  }

  lemma {:induction false} ParagraphFreeHead(m: string, l1: int, ends: seq<int>)
    requires Scan(m, "\n\n", 0, ends) && FirstLineEnd(m, l1)
    ensures Lacks(Slice(m, l1, (if ends == [] then ParagraphEnd(m) else ends[0]) - 2), "\n\n")
  {
    if ends == [] {
      EndsWithNewline(m);
      LacksSlice(m, "\n\n", l1, ParagraphEnd(m) - 2, |m| + 1);
    } else {
      assert EndsOccurrence(m, "\n\n", ends, 0);
      LacksSlice(m, "\n\n", l1, ends[0] - 2, ends[0] - 2);
    }
  }

  lemma {:induction false} ParagraphFreeInner(m: string, ends: seq<int>, i: int)
    requires Scan(m, "\n\n", 0, ends) && 0 <= i && i + 1 < |ends|
    ensures Lacks(Slice(m, ends[i], ends[i + 1] - 2), "\n\n")
  {
    assert EndsOccurrence(m, "\n\n", ends, i);
    assert EndsOccurrence(m, "\n\n", ends, i + 1);
    assert Consecutive(m, "\n\n", ends, i + 1);
    LacksSlice(m, "\n\n", ends[i], ends[i + 1] - 2, ends[i + 1] - 2);
  }

  lemma {:induction false} ParagraphFreeLast(m: string, ends: seq<int>)
    requires Scan(m, "\n\n", 0, ends) && ends != []
    ensures Lacks(Slice(m, ends[|ends| - 1], ParagraphEnd(m) - 2), "\n\n")
  {
    EndsWithNewline(m);
    assert EndsOccurrence(m, "\n\n", ends, |ends| - 1);
    LacksSlice(m, "\n\n", ends[|ends| - 1], ParagraphEnd(m) - 2, |m| + 1);
  }

  lemma {:induction false} BreakAtEnd(m: string)
    ensures OccursAt(m, "\n\n", |m| - 2) <==> EndsWith(m, "\n\n")
  {
  }

  /*** The analysed message ***/

  /** What `CommitMessage(...)` is given: a message string, or an object with a `message`
      and perhaps a `hexsha` attribute. */
  datatype Source = Text(text: string) | Commit(message: string, hexsha: Option<string>)

  function SourceText(src: Source): string {
    match src
    case Text(t) => t
    case Commit(m, _) => m
  }

  /** The `hexsha` attribute the object ends up with: none for a string, else the argument
      or, failing that, the object's own. */
  function HexshaOf(src: Source, hexsha: Option<string>): Option<string> {
    match src
    case Text(_) => None
    case Commit(_, own) => if hexsha.Some? then hexsha else own
  }

  datatype CommitMessage = CommitMessage(
    message: string,
    hexsha: Option<string>,
    lineIndex: seq<int>,
    autosquashEnd: nat,
    subjectStart: nat,
    paragraphIndex: seq<int>)
  {
    /** The fields are those `__init__` computes from a cleaned message. */
    predicate Valid() {
      && IsClean(message)
      && lineIndex == LineIndex(message)
      && |lineIndex| >= 2
      && autosquashEnd == AutosquashEnd(message)
      && subjectStart == autosquashEnd + MergeEnd(message[autosquashEnd..])
      && paragraphIndex == ParagraphIndex(message, lineIndex[1])
    }

    /** `lines` */
    function Lines(): IndexedList {
      IndexedList(message, lineIndex, LineSeparator)
    }

    /** `full_subject` */
    function FullSubject(): string
      requires |lineIndex| >= 2
    {
      Slice(message, 0, lineIndex[1] - 1)
    }

    /** `subject` */
    function Subject(): string
      requires |lineIndex| >= 2
    {
      Slice(FullSubject(), subjectStart, |FullSubject()|)
    }

    /** `needs_autosquash()` */
    predicate NeedsAutosquash() {
      autosquashEnd > 0
    }

    /** `autosquashed_subject` */
    function AutosquashedSubject(): string
      requires |lineIndex| >= 2
    {
      Slice(FullSubject(), autosquashEnd, |FullSubject()|)
    }

    /** `body` */
    function Body(): string
      requires |paragraphIndex| >= 1
    {
      Slice(message, paragraphIndex[0], |message|)
    }

    /** `paragraphs` */
    function Paragraphs(): IndexedList {
      IndexedList(message, paragraphIndex, ParagraphSeparator)
    }

    /** `paragraph_line(idx)`: the number of newlines before the start of paragraph idx,
        a negative idx counting back from the last paragraph; None is the IndexError. */
    function ParagraphLine(idx: int): Option<nat> {
      var i := if idx < 0 then idx + |paragraphIndex| - 1 else idx;
      match At(paragraphIndex, i)
      case None => None
      case Some(p) => Some(Count(Slice(message, 0, p), '\n'))
    }
  }

  /** `CommitMessage(message, hexsha)`, as a function of its arguments. */
  function CommitMessageOf(src: Source, hexsha: Option<string>): (c: CommitMessage)
    ensures c.Valid()
  {
    var m := Cleaned(SourceText(src));
    CleanedIsClean(SourceText(src));
    FirstLineOfIndex(m);
    var lineIndex := LineIndex(m);
    var autosquashEnd := AutosquashEnd(m);
    CommitMessage(m, HexshaOf(src, hexsha), lineIndex, autosquashEnd,
                  autosquashEnd + MergeEnd(m[autosquashEnd..]), ParagraphIndex(m, lineIndex[1]))
  }

  /** `CommitMessage.__init__`: clean the message, then build the line index, the two prefix
      ends and the paragraph index. */
  method NewCommitMessage(src: Source, hexsha: Option<string>) returns (c: CommitMessage)
    ensures c == CommitMessageOf(src, hexsha)
  {
    var message := StripMessage(SourceText(src));
    var lineIndex := BuildLineIndex(message);
    var autosquashEnd := AutosquashEnd(message);
    var subjectStart := autosquashEnd + MergeEnd(message[autosquashEnd..]);
    var paragraphIndex := BuildParagraphIndex(message, lineIndex);
    c := CommitMessage(message, HexshaOf(src, hexsha), lineIndex, autosquashEnd, subjectStart, paragraphIndex);
    AnalysedFields(src, hexsha, c);
  }

  /** A commit message whose fields are those the analysis computes from the cleaned text
      is the one `CommitMessageOf` gives. */
  lemma {:induction false} AnalysedFields(src: Source, hexsha: Option<string>, c: CommitMessage)
    requires c.message == Cleaned(SourceText(src)) && c.hexsha == HexshaOf(src, hexsha)
    requires c.lineIndex == LineIndex(c.message) && |c.lineIndex| >= 2
    requires c.autosquashEnd == AutosquashEnd(c.message)
    requires c.subjectStart == c.autosquashEnd + MergeEnd(c.message[c.autosquashEnd..])
    requires c.paragraphIndex == ParagraphIndex(c.message, c.lineIndex[1])
    ensures c == CommitMessageOf(src, hexsha)
  {
  }

  /** Lines 43-46: the ends of the newline matches, with 0 inserted in front and, when the
      last offset is short of the end of the text, one past its end appended. */
  method BuildLineIndex(message: string) returns (lineIndex: seq<int>)
    ensures lineIndex == LineIndex(message)
    ensures |lineIndex| >= 2
  {
    lineIndex := MatchEnds(message, LineSeparator, 0);
    MatchEndsSpec(message, LineSeparator, 0);
    LastNewline(message, lineIndex);
    lineIndex := [0] + lineIndex;
    if |lineIndex| < 2 || lineIndex[|lineIndex| - 1] < |message| {
      lineIndex := lineIndex + [|message| + 1];
    }
    FirstLineOfIndex(message);
  }

  /** Lines 55-62: the ends of the empty-line matches, with the second line's start inserted
      in front unless an empty line follows the subject, the end appended, and that end
      pulled back by one when the text ends in a newline. */
  method BuildParagraphIndex(message: string, lineIndex: seq<int>) returns (paragraphIndex: seq<int>)
    requires lineIndex == LineIndex(message) && |lineIndex| >= 2
    ensures paragraphIndex == ParagraphIndex(message, lineIndex[1])
  {
    HeadTest(message, lineIndex[1]);
    ghost var ends, head := MatchEnds(message, ParagraphSeparator, 0), ParagraphHead(message, lineIndex[1]);
    paragraphIndex := MatchEnds(message, ParagraphSeparator, 0);
    if !StartsWith(Slice(message, lineIndex[1] - |LineSeparator|, |message|), ParagraphSeparator) {
      paragraphIndex := [lineIndex[1]] + paragraphIndex;
    }
    assert paragraphIndex == head + ends;
    paragraphIndex := paragraphIndex + [|message| + |ParagraphSeparator|];
    EndsWithNewline(message);
    if |message| > 0 && message[|message| - 1] == '\n' {
      paragraphIndex := paragraphIndex[|paragraphIndex| - 1 := paragraphIndex[|paragraphIndex| - 1] - 1];
      LastLowered(head + ends, |message| + 2);
    }
    assert ParagraphIndex(message, lineIndex[1]) == head + ends + [ParagraphEnd(message)];
  }

  /** The source's test for inserting the second line's start decides the head of the
      paragraph index. */
  lemma {:induction false} HeadTest(m: string, l1: int)
    requires |LineIndex(m)| >= 2 && l1 == LineIndex(m)[1]
    ensures 1 <= l1 <= |m| + 1
    ensures ParagraphHead(m, l1) == if StartsWith(Slice(m, l1 - 1, |m|), "\n\n") then [] else [l1]
  {
    FirstLineOfIndex(m);
    HeadCondition(m, l1);
  }

  /** Lowering the last entry of x + [v] by one gives x + [v - 1]. */
  lemma {:induction false} LastLowered(x: seq<int>, v: int)
    ensures (x + [v])[|x| := v - 1] == x + [v - 1]
  {
    var a, b := (x + [v])[|x| := v - 1], x + [v - 1];
    assert forall i :: 0 <= i < |x| ==> a[i] == x[i] == b[i];
  }

  /*** What the accessors promise ***/

  /** `lines` splits the message at its newlines: no line holds one, joining them with
      newlines gives the message back without its final newline, there is one line fewer
      than line offsets and at least one, and the first is `full_subject`. */
  lemma {:induction false} LinesRoundTrip(c: CommitMessage)
    requires c.Valid()
    ensures var lines := c.Lines().Items();
      && |lines| == |c.lineIndex| - 1 >= 1
      && (forall k :: 0 <= k < |lines| ==> '\n' !in lines[k])
      && Join(lines, "\n") == DropFinalNewline(c.message)
      && lines[0] == c.FullSubject()
  {
    var m, l := c.message, c.Lines();
    LineIndexShape(m);
    assert l.index == LineIndex(m) && l.message == m && l.separator == "\n";
    LinePieces(l);
  }

  /** The same, for any list whose offsets have the shape of a line index. */
  lemma {:induction false} LinePieces(l: IndexedList)
    requires l.separator == "\n" && Chained(l.message, l.index, "\n") && l.index[0] == 0
    requires forall k :: 0 <= k < |l.index| - 1 ==> LineFree(l.message, l.index, k)
    requires l.index[|l.index| - 1] - 1 == |DropFinalNewline(l.message)|
    ensures var lines := l.Items();
      && |lines| == |l.index| - 1 >= 1
      && (forall k :: 0 <= k < |lines| ==> '\n' !in lines[k])
      && Join(lines, "\n") == DropFinalNewline(l.message)
      && lines[0] == Slice(l.message, 0, l.index[1] - 1)
  {
    var m, index := l.message, l.index;
    ItemsArePieces(l);
    LinesHaveNoNewline(m, index);
    LineJoin(m, index);
    PiecesSpec(m, index, "\n");
  }

  lemma {:induction false} LinesHaveNoNewline(m: string, index: seq<int>)
    requires |index| >= 1 && forall k :: 0 <= k < |index| - 1 ==> LineFree(m, index, k)
    ensures forall k :: 0 <= k < |Pieces(m, index, "\n")| ==> '\n' !in Pieces(m, index, "\n")[k]
  {
    PiecesSpec(m, index, "\n");
    forall k | 0 <= k < |Pieces(m, index, "\n")|
      ensures '\n' !in Pieces(m, index, "\n")[k]
    {
      assert LineFree(m, index, k);
    }
  }

  /** Joining the lines with `\n` gives back the message less a final newline. */
  lemma {:induction false} LineJoin(m: string, index: seq<int>)
    requires Chained(m, index, "\n") && index[0] == 0
    requires index[|index| - 1] - 1 == |DropFinalNewline(m)|
    ensures Join(Pieces(m, index, "\n"), "\n") == DropFinalNewline(m)
  {
    JoinPieces(m, index, "\n");
    var d := DropFinalNewline(m);
    assert Slice(m, 0, index[|index| - 1] - 1) == m[..|d|];
  }

  /** The subject prefixes: the autosquash prefix ends no later than the subject starts;
      `needs_autosquash()` holds exactly when the message starts with `fixup!` or `squash!` and
      whitespace; and the subject starts later than the autosquash prefix ends exactly when a
      `Merge ...:` prefix follows it. */
  lemma {:induction false} SubjectPrefixes(c: CommitMessage)
    requires c.Valid()
    ensures 0 <= c.autosquashEnd <= c.subjectStart
    ensures c.NeedsAutosquash() <==> HasAutosquashPrefix(c.message)
    ensures c.subjectStart > c.autosquashEnd <==> HasMergePrefix(c.message[c.autosquashEnd..])
  {
  }

  /** `autosquashed_subject` and `subject` are what is left of `full_subject` after dropping
      `autosquash_end` and `subject_start` leading characters, and the subject is a suffix of
      the autosquashed subject. */
  lemma {:induction false} SubjectSlices(c: CommitMessage)
    requires |c.lineIndex| >= 2 && c.autosquashEnd <= c.subjectStart
    ensures var full := c.FullSubject();
      && c.AutosquashedSubject() == (if c.autosquashEnd <= |full| then full[c.autosquashEnd..] else [])
      && c.Subject() == (if c.subjectStart <= |full| then full[c.subjectStart..] else [])
      && EndsWith(c.AutosquashedSubject(), c.Subject())
  {
    var full := c.FullSubject();
    if c.subjectStart <= |full| {
      assert c.AutosquashedSubject()[|c.AutosquashedSubject()| - |c.Subject()|..] == full[c.subjectStart..];
    }
  }

  /** `\s+` runs across a newline: when the message starts with `fixup!` and a newline, the
      subject line is `fixup!` alone, the autosquash prefix ends past it, and both the
      autosquashed subject and the subject are empty. */
  lemma {:induction false} AutosquashAcrossNewline(c: CommitMessage)
    requires c.Valid() && StartsWith(c.message, "fixup!\n")
    ensures c.NeedsAutosquash() && c.autosquashEnd > |c.FullSubject()|
    ensures c.FullSubject() == "fixup!" && c.AutosquashedSubject() == "" && c.Subject() == ""
  {
    FixupNewlineLayout(c.message);
    assert c.FullSubject() == c.message[..6];
  }

  /** In a message starting `fixup!` and a newline, the first line ends at that newline and
      the autosquash prefix runs past it. */
  lemma {:induction false} FixupNewlineLayout(m: string)
    requires StartsWith(m, "fixup!\n")
    ensures |LineIndex(m)| >= 2 && LineIndex(m)[1] == 7 && m[..6] == "fixup!"
    ensures AutosquashEnd(m) > 6
  {
    assert m[..7] == "fixup!\n";
    assert m[..6] == "fixup!" && m[6] == '\n';
    FirstLineOfIndex(m);
    var l1 := LineIndex(m)[1];
    FirstNewline(m, l1, 6);
    assert m[l1 - 1] == m[..7][l1 - 1];
  }

  /** l1 - 1 is the first newline of the text. */
  lemma {:induction false} FirstNewline(m: string, l1: int, i: int)
    requires FirstLineEnd(m, l1) && 0 <= i < |m| && m[i] == '\n'
    ensures l1 - 1 <= i
  {
    assert forall j :: 0 <= j < l1 - 1 ==> m[..l1 - 1][j] == m[j];
  }

  /** `paragraphs` splits the body at its empty lines: no paragraph holds one, joining them
      with `\n\n` gives the body back without its final newline, there is one paragraph fewer
      than paragraph offsets and at least one, and a position from the back reads the same
      paragraph as the matching position from the front. */
  lemma {:induction false} ParagraphsRoundTrip(c: CommitMessage)
    requires c.Valid()
    ensures c.Paragraphs().SplitsInto(DropFinalNewline(c.Body()))
  {
    ParagraphListShape(c);
    ParagraphPieces(c.Paragraphs());
  }

  /** The paragraph list of a valid message has the shape `ParagraphPieces` needs. */
  lemma {:induction false} ParagraphListShape(c: CommitMessage)
    requires c.Valid()
    ensures var l := c.Paragraphs();
      && l.separator == "\n\n" && Chained(l.message, l.index, "\n\n")
      && (forall k :: 0 <= k < |l.index| - 1 ==> ParagraphFree(l.message, l.index, k))
      && l.index[|l.index| - 1] == ParagraphEnd(l.message)
  {
    var m, l := c.message, c.Paragraphs();
    FirstLineOfIndex(m);
    ParagraphIndexShape(m, c.lineIndex[1]);
    assert l.index == ParagraphIndex(m, c.lineIndex[1]) && l.message == m;
  }

  /** The same, for any list whose offsets have the shape of a paragraph index. */
  lemma {:induction false} ParagraphPieces(l: IndexedList)
    requires l.separator == "\n\n" && Chained(l.message, l.index, "\n\n")
    requires forall k :: 0 <= k < |l.index| - 1 ==> ParagraphFree(l.message, l.index, k)
    requires l.index[|l.index| - 1] == ParagraphEnd(l.message)
    ensures l.SplitsInto(DropFinalNewline(Slice(l.message, l.index[0], |l.message|)))
  {
    var m, index := l.message, l.index;
    ItemsArePieces(l);
    ParagraphsHaveNoBreak(m, index);
    ParagraphJoin(m, index);
    var ps := l.Items();
    forall k | 0 <= k < |ps|
      ensures l.Get(k - |ps|) == Some(ps[k])
    {
      assert l.Get((k - |ps|)) == Some(l.Items()[k - |ps| + l.Len()]);
    }
  }

  lemma {:induction false} ParagraphsHaveNoBreak(m: string, index: seq<int>)
    requires |index| >= 1 && forall k :: 0 <= k < |index| - 1 ==> ParagraphFree(m, index, k)
    ensures forall k :: 0 <= k < |Pieces(m, index, "\n\n")| ==> Lacks(Pieces(m, index, "\n\n")[k], "\n\n")
  {
    PiecesSpec(m, index, "\n\n");
    forall k | 0 <= k < |Pieces(m, index, "\n\n")|
      ensures Lacks(Pieces(m, index, "\n\n")[k], "\n\n")
    {
      assert ParagraphFree(m, index, k);
    }
  }

  /** Joining the paragraphs with `\n\n` gives back the text from the first offset, less a
      final newline. */
  lemma {:induction false} ParagraphJoin(m: string, index: seq<int>)
    requires Chained(m, index, "\n\n") && index[|index| - 1] == ParagraphEnd(m)
    ensures Join(Pieces(m, index, "\n\n"), "\n\n") == DropFinalNewline(Slice(m, index[0], |m|))
  {
    JoinPieces(m, index, "\n\n");
    BodyWithoutFinalNewline(m, index[0]);
  }

  /** The paragraph offsets chain the message's empty lines, leave none inside a paragraph
      and close at `ParagraphEnd`. */
  lemma {:induction false} ParagraphIndexShape(m: string, l1: int)
    requires FirstLineEnd(m, l1) && !EndsWith(m, "\n\n")
    ensures var index := ParagraphIndex(m, l1);
      && Chained(m, index, "\n\n")
      && (forall k :: 0 <= k < |index| - 1 ==> ParagraphFree(m, index, k))
      && index[|index| - 1] == ParagraphEnd(m)
  {
    var ends := MatchEnds(m, "\n\n", 0);
    MatchEndsSpec(m, "\n\n", 0);
    assert ParagraphIndex(m, l1) == ParagraphHead(m, l1) + ends + [ParagraphEnd(m)];
    ParagraphsChained(m, l1, ends);
    ParagraphsFree(m, l1, ends);
  }

  /** Cutting at the closing paragraph offset drops exactly the final newline. */
  lemma {:induction false} BodyWithoutFinalNewline(m: string, p: int)
    requires 0 <= p
    ensures Slice(m, p, ParagraphEnd(m) - 2) == DropFinalNewline(Slice(m, p, |m|))
  {
    EndsWithNewline(m);
    if EndsWith(m, "\n") && p < |m| {
      assert Slice(m, p, |m|) == m[p..];
      assert m[p..][..|m| - p - 1] == m[p..|m| - 1];
    }
  }

  /** `paragraph_line(k)` is the number of the line a paragraph starts on: that line's offset
      is the paragraph's offset, and counting back from the last paragraph gives the same
      line. */
  lemma {:induction false} ParagraphLineStartsParagraph(c: CommitMessage, k: int)
    requires c.Valid() && 0 <= k < |c.paragraphIndex| - 1 && c.paragraphIndex[k] <= |c.message|
    ensures c.ParagraphLine(k).Some?
    ensures var n := c.ParagraphLine(k).value;
      n < |c.lineIndex| && c.lineIndex[n] == c.paragraphIndex[k]
    ensures c.ParagraphLine(k - (|c.paragraphIndex| - 1)) == c.ParagraphLine(k)
  {
    var m, p := c.message, c.paragraphIndex[k];
    FirstLineOfIndex(m);
    ParagraphOnLine(m, c.lineIndex[1], k);
    var n :| 0 <= n < |c.lineIndex| && c.lineIndex[n] == p;
    LineCounts(m);
    assert Slice(m, 0, p) == m[..p];
    assert At(c.paragraphIndex, k) == Some(p);
  }

  /** Before the n-th line offset there are n newlines. */
  lemma {:induction false} LineCounts(m: string)
    ensures var index := LineIndex(m);
      forall n :: 0 <= n < |index| && 0 <= index[n] <= |m| ==> Count(m[..index[n]], '\n') == n
  {
    var ends := MatchEnds(m, "\n", 0);
    MatchEndsSpec(m, "\n", 0);
    var index := LineIndex(m);
    assert index == [0] + ends + LineTail(m);
    CountToNewlines(m, 0, ends);
    assert m[..0] == [];
    assert forall n :: |ends| < n < |index| ==> index[n] == |m| + 1;
    forall n | 0 < n <= |ends|
      ensures index[n] == ends[n - 1]
    {
    }
  }

  /** Every paragraph offset within the message is a line offset. */
  lemma {:induction false} ParagraphOnLine(m: string, l1: int, k: int)
    requires |LineIndex(m)| >= 2 && l1 == LineIndex(m)[1] && FirstLineEnd(m, l1)
    requires 0 <= k < |ParagraphIndex(m, l1)| - 1 && ParagraphIndex(m, l1)[k] <= |m|
    ensures 0 <= ParagraphIndex(m, l1)[k]
    ensures exists n :: 0 <= n < |LineIndex(m)| && LineIndex(m)[n] == ParagraphIndex(m, l1)[k]
  {
    var index := ParagraphIndex(m, l1);
    var ends := MatchEnds(m, "\n\n", 0);
    MatchEndsSpec(m, "\n\n", 0);
    var head := ParagraphHead(m, l1);
    assert index == head + ends + [ParagraphEnd(m)];
    if k < |head| {
      assert index[k] == LineIndex(m)[1];
    } else {
      assert index[k] == ends[k - |head|];
      assert EndsOccurrence(m, "\n\n", ends, k - |head|);
      BreakEndStartsLine(m, index[k]);
    }
  }

  /** The end of an empty line is the start of a line. */
  lemma {:induction false} BreakEndStartsLine(m: string, e: int)
    requires OccursAt(m, "\n\n", e - 2)
    ensures exists n :: 0 <= n < |LineIndex(m)| && LineIndex(m)[n] == e
  {
    OccursTwoNewlines(m, e - 2);
    OccursNewline(m, e - 1);
    var lines := MatchEnds(m, "\n", 0);
    MatchEndsSpec(m, "\n", 0);
    ScanListsAll(m, "\n", 0, lines, e - 1);
    var i :| 0 <= i < |lines| && lines[i] == e;
    assert LineIndex(m) == [0] + lines + LineTail(m);
    assert LineIndex(m)[i + 1] == e;
  }
}
