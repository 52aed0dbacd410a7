# Commit-message analysis of hopic, in Dafny

This project models the commit-message analyser of hopic's CI driver
(`cidriver/commit.py`) and proves what its parts promise. The analyser has these parts:

- `_strip_message` cleans a raw git message the way git's scissors/strip cleanup does. It:
  - cuts at the scissors line;
  - drops `#` comment lines;
  - strips trailing blanks;
  - collapses runs of empty lines;
  - trims newlines at both ends.
- `CommitMessage` indexes the cleaned text. It holds the line starts, the end of a
  `fixup!`/`squash!` prefix, the end of a `Merge ...:` prefix and the paragraph starts. Its
  accessors are slices over those offsets: lines, full subject, subject, autosquashed subject,
  body, paragraphs and paragraph line numbers.
- `_IndexedList` and `_ConventionalFooterList` turn an offset index into a sequence of
  substrings, in Python's `__getitem__` protocol.
- `ConventionalCommit` matches the subject against the Conventional Commits 1.0.0 grammar
  (rules 1, 4 and 5 of its specification list) and scans the footers by rules 8, 9, 10 and 16.
  It derives the breaking-change, feature and fix flags.
- `parse_commit_message` chooses between the two classes according to the policy and
  `strict`.

Modules, in dependency order:

| file | module | what it holds |
|---|---|---|
| `wrappers.dfy` | `Wrappers` | `Option`, `Result` |
| `chars.dfy` | `Chars` | ASCII `\w`, `\s`, `[ \t]`, `str.lower` |
| `pytext.dfy` | `PyText` | Python indexing, clamped slices, `str.find`, `re.finditer` over a literal, `str.count`, `str.join` |
| `cleanup.dfy` | `Cleanup` | `_strip_message`: one scanner per substitution, the two trimming loops as methods |
| `indexed_list.dfy` | `IndexedList` | `_IndexedList` |
| `commit_message.dfy` | `CommitMessages` | `CommitMessage`: the index-building constructor as a method, the accessors as functions |
| `subject_grammar.dfy` | `SubjectGrammar` | `strict_subject_re` as a parser, proved equal to "there is a decomposition" |
| `footers.dfy` | `Footers` | `footer_re`, its `finditer`, `_ConventionalFooterList` and its trimming loop |
| `conventional_commit.dfy` | `ConventionalCommits` | `ConventionalCommit` |
| `policy.dfy` | `Policy` | `parse_commit_message` and the flags of either class |

How the source maps onto Dafny:

- Objects that are never changed after construction (`CommitMessage`, `ConventionalCommit`,
  the two list views) are datatypes. A `Valid()` predicate says that the fields are what
  `__init__` computes.
- Constructors that build lists step by step are methods. `NewCommitMessage`,
  `BuildLineIndex` and `BuildParagraphIndex` make the `insert`/`append`/decrement steps of
  lines 42-62, and `NewConventionalCommit` builds a `ConventionalCommit`. Each is proved
  equal to a specification function (`CommitMessageOf`, `ConventionalOf`). The pure code uses
  those functions.
- The loops of the source are `while` loops with invariants:
  - the two trimming loops of `_strip_message`;
  - the `content_end` loop of the footer list;
  - the footer loop of `has_breaking_change`.
- Python's negative indexes and out-of-range slices are modelled exactly. `At` returns `None`
  on an IndexError, and `Slice` clamps its bounds the way CPython does. So `__getitem__` needs
  no precondition, and an IndexError is a `None` result.
- Each regular expression is an explicit scanner, proved against a declarative predicate:
  - `autosquash_re` and `merge_re` become `AutosquashEnd` and `MergeEnd`;
  - `strict_subject_re` becomes `ParseSubject` against `Decomposes`;
  - `footer_re` becomes `FooterAt` against `FooterMatch`;
  - the substitutions of lines 254, 256 and 258 become `StripComments`, `StripTrailingBlanks`
    and `CollapseBlankLines`.

Behaviour of the code that the model keeps and proves:

- **Scissors.** `_strip_message` looks only at the FIRST occurrence of the scissors line
  (`str.find`). If that occurrence does not start a line, nothing is cut, even when a later
  occurrence does start one (`Cleanup.ScissorsOnlyFirstOccurrence`).
- **Autosquash across a newline.** The `\s+` of `autosquash_re` also matches a newline. A
  message `fixup!\n...` therefore needs autosquash, and its autosquashed subject and subject
  are both empty (`CommitMessages.AutosquashAcrossNewline`).
- **Scope backtracking.** The lazy scope `\S+?` can run past a `)`. For example, `fix(a)b): c`
  has the scope `a)b` (`SubjectGrammar.ScopeBacktracksPastParen`). The decomposition of a
  subject is nevertheless unique (`SubjectGrammar.DecompositionUnique`).
- **`BREAKING CHANGE` as a token.** It is matched only when the longest `\w+(-\w+)*` token at
  that place is not followed by a separator. `BREAKING` alone never is, since a space and `C`
  follow it. A `BREAKING-CHANGE` token is reported as `BREAKING CHANGE`.

The repository's configuration reader is not part of this model. It is exercised by
`hopic/test/test_examples.py`; its own source is not among the files modelled.

## Model

| member | source | states |
|---|---|---|
| Chars.Lower | cidriver/commit.py:193-197 | `str.lower` keeps the length and lower-cases each character on its own |
| Chars.SpaceRun | cidriver/commit.py:26 | the run matched by `\s+` at the start: all whitespace, newlines included, and maximal |
| Chars.WordRun | cidriver/commit.py:125 | the run matched by `\w+` at the start: all word characters, and maximal |
| PyText.Find | cidriver/commit.py:249 | `str.find` gives the first occurrence, or -1 when there is none |
| PyText.MatchEndsSpec | cidriver/commit.py:43 | `finditer` over a literal reports the ends of non-overlapping occurrences, in order, with none skipped |
| PyText.CountToNewlines | cidriver/commit.py:103 | before the end of the i-th newline match there are i+1 more newlines than at the start |
| Cleanup.StripComments | cidriver/commit.py:254 | the result has no comment line, and a text without one is left unchanged |
| Cleanup.DropComments | cidriver/commit.py:254 | the line-by-line scanner for `^#[^\n]*\n?` leaves no `#` at a line start |
| Cleanup.StripTrailingBlanks | cidriver/commit.py:256 | no line ends with a space or tab; only blanks are removed; a text without trailing blanks is unchanged |
| Cleanup.CollapseBlankLines | cidriver/commit.py:258 | the result has no three newlines in a row, and such a text is unchanged |
| Cleanup.CommentLinesDropped | cidriver/commit.py:254 | the substitution removes exactly the lines that start with `#`, each with its newline, and keeps every other line whole and in order |
| Cleanup.CommentLineStep | cidriver/commit.py:254 | the first line, newline included, is dropped whole when it starts with `#` and kept whole otherwise, and the scan then goes on at the next line |
| Cleanup.TrailingBlanksDropped | cidriver/commit.py:256 | a character is removed exactly when it is a space or tab that only spaces and tabs follow up to the end of its line; the rest are kept in order |
| Cleanup.BlankPrefixKept | cidriver/commit.py:256 | a run of blanks in front of a text is removed exactly when only blanks follow it up to the line end |
| Cleanup.CollapseKeepsAllElse | cidriver/commit.py:258 | a character is removed exactly when it is a newline with two newlines before it in the original text; the rest are kept in order |
| Cleanup.CollapseKeeps | cidriver/commit.py:258 | the same from any offset, the scan starting with the count of newlines just before it |
| Cleanup.TrailingKeepsCommentFree | cidriver/commit.py:254-256 | stripping trailing blanks puts no `#` at a line start |
| Cleanup.CollapseKeepsCommentFree | cidriver/commit.py:256-258 | collapsing empty lines puts no `#` at a line start |
| Cleanup.TrimLeadingKeepsCommentFree | cidriver/commit.py:260-261 | trimming leading newlines leaves no line starting with `#` |
| Cleanup.TrimSurplusKeepsCommentFree | cidriver/commit.py:262-263 | trimming trailing newlines leaves no line starting with `#` |
| Cleanup.CollapseKeepsNoTrailingBlanks | cidriver/commit.py:256-258 | collapsing empty lines creates no trailing blank |
| Cleanup.TrimLeadingNewlines | cidriver/commit.py:260-261 | drops exactly the leading newlines: the result is a suffix that does not start with a newline |
| Cleanup.TrimSurplusNewlines | cidriver/commit.py:262-263 | drops only newlines from the end, and just enough that the text no longer ends in two |
| Cleanup.DropLeadingNewlines | cidriver/commit.py:260-261 | the first trimming loop computes `TrimLeadingNewlines` |
| Cleanup.DropSurplusNewlines | cidriver/commit.py:262-263 | the second trimming loop computes `TrimSurplusNewlines` |
| Cleanup.TrimLeadingKeepsShape | cidriver/commit.py:260-261 | trimming leading newlines keeps "no triple newline" and "no trailing blanks" |
| Cleanup.TrimSurplusKeepsShape | cidriver/commit.py:262-263 | trimming trailing newlines keeps "no triple newline", "no trailing blanks" and "no leading newline" |
| Cleanup.CleanedIsClean | cidriver/commit.py:248-265 | a cleaned message never starts with a newline, never ends in two, has no triple newline, no comment line and no line ending in a blank |
| Cleanup.StripMessage | cidriver/commit.py:248-265 | `_strip_message` computes `Cleaned` and returns a clean message |
| Cleanup.ScissorsCutsRest | cidriver/commit.py:249-251 | a scissors line at a line start, first in the text, cuts it and everything after it away |
| Cleanup.CutAtScissors | cidriver/commit.py:249-251 | the cut keeps exactly the text before such a scissors line |
| Cleanup.ScissorsOnlyFirstOccurrence | cidriver/commit.py:249-250 | when the first scissors occurrence is not at a line start, nothing is cut |
| IndexedList.PiecesSpec | cidriver/commit.py:222 | one piece per consecutive pair of offsets, each ending one separator before the next offset |
| IndexedList.ItemsArePieces | cidriver/commit.py:216-222 | iteration yields `__len__` pieces; a position from the back reads the same piece; the position `__len__` is the IndexError that stops iteration |
| IndexedList.JoinPieces | cidriver/commit.py:222 | joining the pieces of a separator-chained index with the separator gives back the text they were cut from |
| CommitMessages.LastNewline | cidriver/commit.py:45-46 | the end offset is appended exactly when the message does not end in a newline |
| CommitMessages.LineIndexShape | cidriver/commit.py:43-46 | the line offsets chain the newlines, and no line holds one |
| CommitMessages.FirstLineOfIndex | cidriver/commit.py:43-46 | there are at least two line offsets, and the second lies just past the first newline or at the end plus one |
| CommitMessages.SpacesAfter | cidriver/commit.py:26 | the end of the `\s+` run after the prefix word, 0 when there is none |
| CommitMessages.AutosquashEnd | cidriver/commit.py:48-49 | `autosquash_end` is positive exactly when the message starts with `fixup!` or `squash!` and whitespace, and then it ends that whitespace run |
| CommitMessages.ColonFrom | cidriver/commit.py:27 | the lazy `.*?:` stops at the first colon of the first line |
| CommitMessages.MergeEnd | cidriver/commit.py:51-52 | the `Merge ...:` match is non-empty exactly when the text starts with `Merge` and has a colon on its first line, and then it ends past the first colon and the blanks after it |
| CommitMessages.HeadCondition | cidriver/commit.py:56 | the test of line 56 is "an empty line follows the subject" |
| CommitMessages.ParagraphIndexShape | cidriver/commit.py:55-62 | the paragraph offsets chain the empty lines, none lies inside a paragraph, and the last one is the end less a final newline |
| CommitMessages.CommitMessageOf | cidriver/commit.py:29-62 | the object built from any input is valid: a clean message and at least two line offsets |
| CommitMessages.NewCommitMessage | cidriver/commit.py:29-62 | `__init__` computes `CommitMessageOf` |
| CommitMessages.BuildLineIndex | cidriver/commit.py:42-46 | the insert/append steps compute `LineIndex`, which has at least two offsets |
| CommitMessages.BuildParagraphIndex | cidriver/commit.py:54-62 | the insert/append/decrement steps compute `ParagraphIndex` |
| CommitMessages.LinesRoundTrip | cidriver/commit.py:64-70 | no line holds a newline; joining the lines with `\n` gives the message less a final newline; `len(lines) == len(_line_index) - 1 >= 1`; the first line is `full_subject` |
| CommitMessages.SubjectPrefixes | cidriver/commit.py:48-52 | `0 <= autosquash_end <= subject_start`; `needs_autosquash()` exactly when the message has the `fixup!`/`squash!` prefix; the subject starts later exactly when a `Merge ...:` prefix follows |
| CommitMessages.SubjectSlices | cidriver/commit.py:68-89 | `subject` and `autosquashed_subject` are `full_subject` less its first `subject_start` and `autosquash_end` characters, and the subject is a suffix of the autosquashed subject |
| CommitMessages.AutosquashAcrossNewline | cidriver/commit.py:26 | a message `fixup!\n...` needs autosquash, and its autosquashed subject and subject are empty |
| CommitMessages.ParagraphsRoundTrip | cidriver/commit.py:91-97 | no paragraph holds an empty line; joining them with `\n\n` gives the body less a final newline; there is at least one; positions from the back read the same paragraphs |
| CommitMessages.ParagraphPieces | cidriver/commit.py:54-62 | the same, for any list whose offsets have the shape of a paragraph index |
| CommitMessages.BodyWithoutFinalNewline | cidriver/commit.py:60-62 | the decremented closing offset cuts off exactly the final newline |
| CommitMessages.ParagraphLineStartsParagraph | cidriver/commit.py:99-103 | `paragraph_line(k)` is the number of the line whose offset is paragraph k's offset, and `k - len` gives the same number |
| CommitMessages.LineCounts | cidriver/commit.py:103 | before the n-th line offset there are n newlines |
| CommitMessages.ParagraphOnLine | cidriver/commit.py:55-57 | every paragraph offset within the message is a line offset |
| SubjectGrammar.TailSound | cidriver/commit.py:131-141 | what follows the type and scope, read as `!`, `: ` and a description |
| SubjectGrammar.TailComplete | cidriver/commit.py:131-141 | every such tail is read back with its breaking mark and description |
| SubjectGrammar.DescriptionOf | cidriver/commit.py:141-142 | `.+$` takes a non-empty line, ignoring one final newline |
| SubjectGrammar.ParseSound | cidriver/commit.py:121-142 | a subject the parser accepts is type, optional `(scope)`, optional `!`, `: ` and description |
| SubjectGrammar.ScopeSound | cidriver/commit.py:127-129 | a scope found by the lazy search is non-empty, holds no whitespace, and is followed by a valid tail |
| SubjectGrammar.ParseComplete | cidriver/commit.py:121-142 | every decomposition of a subject is what the parser returns |
| SubjectGrammar.ScopeFinds | cidriver/commit.py:129 | the lazy scope search reaches the closing `)` of any decomposition |
| SubjectGrammar.NoEarlierClose | cidriver/commit.py:129 | no earlier `)` inside a decomposition's scope is followed by a valid tail |
| SubjectGrammar.ParseSubjectIff | cidriver/commit.py:121-142 | the match succeeds with parts s exactly when the subject decomposes as s |
| SubjectGrammar.DecompositionUnique | cidriver/commit.py:121-142 | a subject has at most one decomposition |
| SubjectGrammar.ScopeBacktracksPastParen | cidriver/commit.py:129 | `fix(a)b): c` has type `fix`, scope `a)b` and description `c` |
| Footers.WordEnd | cidriver/commit.py:153 | the end of the `\w+` run at an offset |
| Footers.TokenEndSpec | cidriver/commit.py:153 | the greedy `\w+(?:-\w+)*` matches a token that cannot be extended, or nothing when no word character starts it |
| Footers.TokenIsLongest | cidriver/commit.py:153 | a token that cannot be extended is the one the scanner finds |
| Footers.FooterAt | cidriver/commit.py:144-163 | a match at offset i starts there and ends within the message |
| Footers.FooterAtSound | cidriver/commit.py:144-163 | a match found is a newline, a token or `BREAKING CHANGE`, and a `: ` or ` #` separator |
| Footers.FooterAtComplete | cidriver/commit.py:144-163 | every such footer at offset i is the match found there |
| Footers.BreakingChangeIsNoToken | cidriver/commit.py:157 | at `BREAKING CHANGE` the token alternative matches only `BREAKING`, which no separator follows |
| Footers.FooterAtIff | cidriver/commit.py:144-163 | the match at i is f exactly when f is a footer at i |
| Footers.FooterScanSpec | cidriver/commit.py:177 | `finditer` reports footer matches in order, each starting at or after the previous end, with none starting in the gaps |
| Footers.NoFooterGrows | cidriver/commit.py:177 | skipping an offset without a match keeps the scan's description |
| Footers.FooterCons | cidriver/commit.py:177 | a match followed by the scan from its end is the scan from its start |
| Footers.ScannedOrdered | cidriver/commit.py:177 | the scanned entries lie in the message, in increasing order, without overlapping |
| Footers.FooterList.GetItem | cidriver/commit.py:233-245 | `__getitem__` with its trimming loop computes `Get`, an IndexError included |
| Footers.TrimNewlinesSpec | cidriver/commit.py:238-239 | within the message the loop stops after the last character that is not a newline, removing only newlines |
| Footers.FooterValue | cidriver/commit.py:233-245 | footer k reads with its token as reported and its value from its separator to the next footer's newline or the end, with no trailing newline; `k - len` reads the same footer |
| Footers.FooterItems | cidriver/commit.py:225-245 | iteration over ordered footers yields one item per entry, each the footer at that position |
| Footers.OrderedFooters | cidriver/commit.py:233-245 | every item of the iteration is its entry's token and trimmed value |
| Footers.ValuesHoldNoFooter | cidriver/commit.py:175-177 | no footer match starts inside a footer's value |
| Footers.ReportedBreaking | cidriver/commit.py:241-243 | an item reports `BREAKING CHANGE` exactly when its entry's token is `BREAKING CHANGE` or `BREAKING-CHANGE` |
| ConventionalCommits.ConventionalCommit.HasBreakingChange | cidriver/commit.py:183-191 | the loop answers the `!` mark or a `BREAKING CHANGE` item of the iteration |
| ConventionalCommits.BreakingInCons | cidriver/commit.py:187-189 | the loop's step: a `BREAKING CHANGE` item is the head or is in the rest |
| ConventionalCommits.ConventionalOf | cidriver/commit.py:165-177 | construction succeeds exactly when the subject of the cleaned message parses, and then the commit is valid and built on `CommitMessage(message)` |
| ConventionalCommits.NewConventionalCommit | cidriver/commit.py:165-177 | `__init__` computes `ConventionalOf` |
| ConventionalCommits.ConstructionConforms | cidriver/commit.py:165-173 | construction succeeds exactly when the subject conforms, and the commit then holds that subject's decomposition |
| ConventionalCommits.FlagsFromSubject | cidriver/commit.py:193-197 | `has_new_feature()` and `has_fix()` read the subject's type in any case, never both hold, and the `!` flag is the subject's |
| ConventionalCommits.FootersOfCommit | cidriver/commit.py:175-177 | the footers are the matches in order; each value runs from its separator to the next footer's newline or the end, has no trailing newline and holds no footer |
| ConventionalCommits.BreakingChangeIff | cidriver/commit.py:183-191 | `has_breaking_change()` holds exactly when the subject has `!` or some footer's token is `BREAKING CHANGE` or `BREAKING-CHANGE` |
| Policy.ParseCommitMessage | cidriver/commit.py:200-207 | an error only under the Conventional Commits policy with `strict`; a plain result is `CommitMessage(message)`; a Conventional Commit only under that policy, and valid |
| Policy.HasBreakingChange | cidriver/commit.py:105-106 | None exactly for a plain `CommitMessage` |
| Policy.HasNewFeature | cidriver/commit.py:108-109 | None exactly for a plain `CommitMessage` |
| Policy.HasFix | cidriver/commit.py:111-112 | None exactly for a plain `CommitMessage` |
| Policy.Dispatch | cidriver/commit.py:200-207 | a conforming subject under the policy gives the Conventional Commit; a non-conforming one gives an error exactly when strict and a plain message otherwise; any other policy gives a plain message |
| Policy.FlagsOfParsed | cidriver/commit.py:105-112 | a plain message answers None to all three questions; a Conventional Commit answers from its type and its breaking-change marks |

## Left out

- Unicode character classes: `\w` and `\s` are ASCII only. A non-ASCII character counts as
  neither a word character nor whitespace, so the model differs from Python's `re` on such
  text.
- The regular-expression engine itself: each expression is an explicit scanner, proved
  equal to a declarative description of its matches.
- Duck typing: the input is either a string or an object with a `message` and perhaps a
  `hexsha` (the `Source` datatype). The `six.string_types` test and the `AttributeError`
  fallback of lines 30-40 become that choice. An unset `hexsha` attribute is `None`.
- Exception types and messages: the `RuntimeError` of line 169 is an `Err` with a fixed text.
  The pattern is not formatted into it.
- `except Exception` on line 204 catches any error of the constructor. In the model, a
  non-conforming subject is the only error that construction can raise.
- `__repr__` (lines 114-118): string formatting only.
- Class attributes (`line_separator`, `paragraph_separator`, the compiled expressions) are
  constants. Overriding them in a subclass is not modelled.
- `_IndexedList` and `_ConventionalFooterList` over arbitrary index lists: `Get` and the loop
  follow the source for any index. The proved properties need the shape the constructors
  build: a chained index, or ordered footer entries.
- CommitMessages.ParagraphLineStartsParagraph: the property holds only for a paragraph that
  starts within the message. The empty paragraph of a message without a body starts one past
  its end, and there `paragraph_line` counts all newlines of the message.
- `hopic/test/test_examples.py` and the configuration reader it calls are not part of this
  model. The test only reads configuration files.
