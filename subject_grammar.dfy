/**
 * `ConventionalCommit.strict_subject_re`: `type(scope)!: description`, matched at the start of
 * the subject and written as a scanner that retries the lazy scope the way the expression
 * backtracks.
 */
module SubjectGrammar {
  import opened Wrappers
  import opened PyText
  import opened Chars

  /** The groups `type_tag`, `scope`, `breaking` and `description` of a match. */
  datatype SubjectParts = SubjectParts(typeTag: string, scope: Option<string>, breaking: bool, description: string)

  /** What follows the type and scope: the optional `!` and the description. */
  datatype Tail = Tail(breaking: bool, description: string)

  function Mark(breaking: bool): string {
    if breaking then "!" else ""
  }

  function ScopeText(scope: Option<string>): string {
    if scope.Some? then "(" + scope.value + ")" else ""
  }

  /** `.` matches every character of `x`. */
  predicate NoNewline(x: string) {
    forall i :: 0 <= i < |x| ==> x[i] != '\n'
  }

  /** The type and the scope in parentheses. */
  function Head(s: SubjectParts): string {
    s.typeTag + ScopeText(s.scope)
  }

  /** The text the groups of `s` stand for. */
  function Render(s: SubjectParts): string {
    Head(s) + TailText(Tail(s.breaking, s.description))
  }

  /** `\w+` for the type, `\S+` for a scope, and `.+` for the description. */
  predicate WellFormed(s: SubjectParts) {
    && |s.typeTag| >= 1
    && (forall i :: 0 <= i < |s.typeTag| ==> IsWord(s.typeTag[i]))
    && (s.scope.Some? ==> |s.scope.value| >= 1 && forall i :: 0 <= i < |s.scope.value| ==> !IsSpace(s.scope.value[i]))
    && |s.description| >= 1
    && NoNewline(s.description)
  }

  /** The expression accepts `t` with groups `s`; its `$` also matches before a final newline. */
  predicate Decomposes(t: string, s: SubjectParts) {
    WellFormed(s) && (t == Render(s) || t == Render(s) + "\n")
  }

  ghost predicate Conforms(t: string) {
    exists s :: Decomposes(t, s)
  }

  /** `(?P<description>.+)$`: characters other than newline, then the end or a final newline. */
  function Description(x: string): Option<string> {
    var y := DropFinalNewline(x);
    if |y| >= 1 && NoNewline(y) then Some(y) else None
  }

  /** `(?P<breaking>!)?:[ ](?P<description>.+)$` */
  function TailOf(r: string): Option<Tail> {
    var breaking := |r| >= 1 && r[0] == '!';
    var p := if breaking then 1 else 0;
    if !OccursAt(r, ": ", p) then None
    else match Description(r[p + 2..])
      case None => None
      case Some(d) => Some(Tail(breaking, d))
  }

  /** `strict_subject_re.match(t)`: the longest run of word characters as the type; if a `(`
      follows, the shortest scope of non-space characters that is closed by a `)` after which
      the rest matches; otherwise no scope. */
  function ParseSubject(t: string): Option<SubjectParts> {
    var n := WordRun(t);
    if n == 0 then None
    else
      var scoped := if n < |t| && t[n] == '(' then ScopeFrom(t, n, n + 2) else None;
      if scoped.Some? then scoped
      else match TailOf(t[n..])
        case None => None
        case Some(tail) => Some(SubjectParts(t[..n], None, tail.breaking, tail.description))
  }

  /** Tries the scope t[n+1..k], then longer ones, until one is closed by a `)` with a matching
      rest or the scope would take in a space. */
  function ScopeFrom(t: string, n: nat, k: nat): Option<SubjectParts>
    requires n < |t| && n + 2 <= k
    decreases |t| - k
  {
    if k >= |t| || IsSpace(t[k - 1]) then None
    else if t[k] == ')' && TailOf(t[k + 1..]).Some? then
      var tail := TailOf(t[k + 1..]).value;
      Some(SubjectParts(t[..n], Some(t[n + 1..k]), tail.breaking, tail.description))
    else ScopeFrom(t, n, k + 1)
  }

  /*** The scanner accepts exactly the subjects of the grammar ***/

  function TailText(tail: Tail): string {
    Mark(tail.breaking) + ": " + tail.description
  }

  function Final(newline: bool): string {
    if newline then "\n" else ""
  }

  /** What `TailOf` accepts is a tail's text, perhaps with a final newline. */
  lemma {:induction false} TailSound(r: string)
    requires TailOf(r).Some?
    ensures var tail := TailOf(r).value;
      && |tail.description| >= 1 && NoNewline(tail.description)
      && (r == TailText(tail) || r == TailText(tail) + "\n")
  {
    var tail := TailOf(r).value;
    var p := if tail.breaking then 1 else 0;
    var x := r[p + 2..];
    assert r == r[..p] + r[p..p + 2] + x;
    assert r[..p] == Mark(tail.breaking);
    if |x| > 0 && x[|x| - 1] == '\n' {
      assert x == tail.description + "\n";
    }
  }

  lemma {:induction false} TailComplete(r: string, tail: Tail, newline: bool)
    requires |tail.description| >= 1 && NoNewline(tail.description)
    requires r == TailText(tail) + Final(newline)
    ensures TailOf(r) == Some(tail)
  {
    var d := tail.description;
    var p := |Mark(tail.breaking)|;
    var x := d + Final(newline);
    assert r == Mark(tail.breaking) + ": " + x;
    assert r[p..p + 2] == ": " && r[p + 2..] == x;
    assert (|r| >= 1 && r[0] == '!') == tail.breaking;
    DescriptionOf(d, newline);
  }

  lemma {:induction false} DescriptionOf(d: string, newline: bool)
    requires |d| >= 1 && NoNewline(d)
    ensures Description(d + Final(newline)) == Some(d)
  {
    var x := d + Final(newline);
    if newline {
      assert x[..|x| - 1] == d;
    } else {
      assert x == d;
    }
  }

  /** Every subject the scanner yields is one the grammar describes. */
  lemma {:induction false} ParseSound(t: string)
    requires ParseSubject(t).Some?
    ensures Decomposes(t, ParseSubject(t).value)
  {
    var n := WordRun(t);
    if n < |t| && t[n] == '(' && ScopeFrom(t, n, n + 2).Some? {
      ScopeSound(t, n, n + 2);
    } else {
      NoScopeSound(t, n);
    }
  }

  lemma {:induction false} NoScopeSound(t: string, n: nat)
    requires 1 <= n <= |t| && forall i :: 0 <= i < n ==> IsWord(t[i])
    requires TailOf(t[n..]).Some?
    ensures var tail := TailOf(t[n..]).value;
      Decomposes(t, SubjectParts(t[..n], None, tail.breaking, tail.description))
  {
    TailSound(t[n..]);
    WithoutScope(t, n, TailOf(t[n..]).value);
  }

  lemma {:induction false} WithoutScope(t: string, n: nat, tail: Tail)
    requires 1 <= n <= |t| && forall i :: 0 <= i < n ==> IsWord(t[i])
    requires |tail.description| >= 1 && NoNewline(tail.description)
    requires t[n..] == TailText(tail) || t[n..] == TailText(tail) + "\n"
    ensures Decomposes(t, SubjectParts(t[..n], None, tail.breaking, tail.description))
  {
    var s := SubjectParts(t[..n], None, tail.breaking, tail.description);
    assert Head(s) == t[..n] by {
      assert ScopeText(s.scope) == [];
    }
    assert t == t[..n] + t[n..];
    AppendTail(t, t[..n], t[n..], TailText(tail));
  }

  /** t is a head, then a tail that is x perhaps with a final newline. */
  lemma {:induction false} AppendTail(t: string, head: string, r: string, x: string)
    requires t == head + r && (r == x || r == x + "\n")
    ensures t == head + x || t == head + x + "\n"
  {
    if r != x {
      assert t == (head + x) + "\n";
    }
  }

  lemma {:induction false} ScopeSound(t: string, n: nat, k: nat)
    requires n < |t| && n + 2 <= k <= |t| && t[n] == '('
    requires 1 <= n && forall i :: 0 <= i < n ==> IsWord(t[i])
    requires forall i :: n + 1 <= i < k - 1 ==> !IsSpace(t[i])
    requires ScopeFrom(t, n, k).Some?
    ensures Decomposes(t, ScopeFrom(t, n, k).value)
    decreases |t| - k
  {
    if t[k] == ')' && TailOf(t[k + 1..]).Some? {
      ScopeCloseSound(t, n, k);
    } else {
      ScopeSound(t, n, k + 1);
    }
  }

  lemma {:induction false} ScopeCloseSound(t: string, n: nat, k: nat)
    requires n < |t| && n + 2 <= k < |t| && t[n] == '(' && t[k] == ')'
    requires 1 <= n && forall i :: 0 <= i < n ==> IsWord(t[i])
    requires forall i :: n + 1 <= i < k ==> !IsSpace(t[i])
    requires TailOf(t[k + 1..]).Some?
    ensures var tail := TailOf(t[k + 1..]).value;
      Decomposes(t, SubjectParts(t[..n], Some(t[n + 1..k]), tail.breaking, tail.description))
  {
    var r := t[k + 1..];
    TailSound(r);
    var tail := TailOf(r).value;
    var s := SubjectParts(t[..n], Some(t[n + 1..k]), tail.breaking, tail.description);
    SliceWords(t, n);
    SliceNonSpace(t, n + 1, k);
    assert WellFormed(s);
    Around(t, n, k);
    AppendTail(t, Head(s), r, TailText(tail));
  }

  lemma {:induction false} SliceWords(t: string, n: nat)
    requires n <= |t| && forall i :: 0 <= i < n ==> IsWord(t[i])
    ensures forall i :: 0 <= i < |t[..n]| ==> IsWord(t[..n][i])
  {
    forall i | 0 <= i < |t[..n]|
      ensures IsWord(t[..n][i])
    {
      assert t[..n][i] == t[i];
    }
  }

  lemma {:induction false} SliceNonSpace(t: string, a: nat, b: nat)
    requires a <= b <= |t| && forall i :: a <= i < b ==> !IsSpace(t[i])
    ensures forall i :: 0 <= i < |t[a..b]| ==> !IsSpace(t[a..b][i])
  {
    forall i | 0 <= i < |t[a..b]|
      ensures !IsSpace(t[a..b][i])
    {
      assert t[a..b][i] == t[a + i];
    }
  }

  /** `t` cut around the characters at n and k. */
  lemma {:induction false} Around(t: string, n: nat, k: nat)
    requires n < k < |t|
    ensures t == t[..n] + ([t[n]] + t[n + 1..k] + [t[k]]) + t[k + 1..]
  {
    assert t[n..k + 1] == [t[n]] + t[n + 1..k] + [t[k]];
    assert t == t[..n] + t[n..k + 1] + t[k + 1..];
  }

  /** Every subject the grammar describes is the one the scanner yields. */
  lemma {:induction false} ParseComplete(t: string, s: SubjectParts)
    requires Decomposes(t, s)
    ensures ParseSubject(t) == Some(s)
  {
    var tail := Tail(s.breaking, s.description);
    var newline := t != Render(s);
    var r := TailText(tail) + Final(newline);
    assert t == s.typeTag + (ScopeText(s.scope) + r);
    if s.scope.Some? {
      CompleteWithScope(t, s, newline);
    } else {
      CompleteWithoutScope(t, s, newline);
    }
  }

  lemma {:induction false} CompleteWithScope(t: string, s: SubjectParts, newline: bool)
    requires WellFormed(s) && s.scope.Some?
    requires t == s.typeTag + (ScopeText(s.scope) + (TailText(Tail(s.breaking, s.description)) + Final(newline)))
    ensures ParseSubject(t) == Some(s)
  {
    var n, c := |s.typeTag|, |s.typeTag| + 1 + |s.scope.value|;
    var tail := Tail(s.breaking, s.description);
    ScopedLayout(t, s, TailText(tail) + Final(newline), n, c);
    TypeIsWordRun(t, n);
    TailComplete(t[c + 1..], tail, newline);
    ScopeFinds(t, n, n + 2, c, s);
    ParseWithScope(t, n, s);
  }

  /** Where the type, the parentheses and the scope lie in `type(scope)` followed by r. */
  lemma {:induction false} ScopedLayout(t: string, s: SubjectParts, r: string, n: nat, c: nat)
    requires WellFormed(s) && s.scope.Some?
    requires t == s.typeTag + (ScopeText(s.scope) + r)
    requires n == |s.typeTag| && c == n + 1 + |s.scope.value|
    ensures 1 <= n && n + 2 <= c < |t|
    ensures t[..n] == s.typeTag && t[n] == '(' && s.scope == Some(t[n + 1..c]) && t[c] == ')' && t[c + 1..] == r
    ensures forall i :: 0 <= i < n ==> IsWord(t[i])
    ensures forall i :: n + 1 <= i < c ==> !IsSpace(t[i])
  {
    var sc := s.scope.value;
    Cut(t, s.typeTag, ScopeText(s.scope) + r);
    assert ScopeText(s.scope) + r == "(" + sc + ")" + r;
    ScopeLayout(t, n, sc, r);
    WordsKept(t, s.typeTag);
    NonSpaceKept(t, n + 1, sc);
  }

  lemma {:induction false} WordsKept(t: string, a: string)
    requires |a| <= |t| && t[..|a|] == a && forall i :: 0 <= i < |a| ==> IsWord(a[i])
    ensures forall i :: 0 <= i < |a| ==> IsWord(t[i])
  {
    forall i | 0 <= i < |a|
      ensures IsWord(t[i])
    {
      assert t[i] == t[..|a|][i];
    }
  }

  lemma {:induction false} NonSpaceKept(t: string, j: nat, sc: string)
    requires j + |sc| <= |t| && t[j..j + |sc|] == sc && forall i :: 0 <= i < |sc| ==> !IsSpace(sc[i])
    ensures forall i :: j <= i < j + |sc| ==> !IsSpace(t[i])
  {
    forall i | j <= i < j + |sc|
      ensures !IsSpace(t[i])
    {
      assert t[i] == t[j..j + |sc|][i - j];
    }
  }

  lemma {:induction false} CompleteWithoutScope(t: string, s: SubjectParts, newline: bool)
    requires WellFormed(s) && s.scope.None?
    requires t == s.typeTag + (ScopeText(s.scope) + (TailText(Tail(s.breaking, s.description)) + Final(newline)))
    ensures ParseSubject(t) == Some(s)
  {
    var n := |s.typeTag|;
    var tail := Tail(s.breaking, s.description);
    var r := TailText(tail) + Final(newline);
    assert ScopeText(s.scope) + r == r;
    Cut(t, s.typeTag, r);
    TailStart(tail, newline);
    TypeIsWordRun(t, n);
    TailComplete(t[n..], tail, newline);
    ParseWithoutScope(t, n, tail);
  }

  lemma {:induction false} Cut(t: string, a: string, u: string)
    requires t == a + u
    ensures t[..|a|] == a && t[|a|..] == u
  {
  }

  /** A tail starts with `!` or `:`. */
  lemma {:induction false} TailStart(tail: Tail, newline: bool)
    ensures |TailText(tail) + Final(newline)| >= 2
    ensures (TailText(tail) + Final(newline))[0] == if tail.breaking then '!' else ':'
  {
  }

  /** Where a scope and its parentheses lie when the text after the type is `(sc)` and r. */
  lemma {:induction false} ScopeLayout(t: string, n: nat, sc: string, r: string)
    requires n <= |t| && t[n..] == "(" + sc + ")" + r
    ensures var c := n + 1 + |sc|;
      && c < |t| && t[n] == '(' && t[n + 1..c] == sc && t[c] == ')' && t[c + 1..] == r
  {
    var u := t[n..];
    var c := n + 1 + |sc|;
    assert u[0] == '(' && u[1..1 + |sc|] == sc && u[1 + |sc|] == ')' && u[2 + |sc|..] == r;
    assert t[n + 1..c] == u[1..1 + |sc|];
    assert t[c + 1..] == u[2 + |sc|..];
  }

  lemma {:induction false} ParseWithScope(t: string, n: nat, s: SubjectParts)
    requires 1 <= n < |t| && WordRun(t) == n && t[n] == '(' && ScopeFrom(t, n, n + 2) == Some(s)
    ensures ParseSubject(t) == Some(s)
  {
  }

  lemma {:induction false} ParseWithoutScope(t: string, n: nat, tail: Tail)
    requires 1 <= n <= |t| && WordRun(t) == n && (n < |t| ==> t[n] != '(') && TailOf(t[n..]) == Some(tail)
    ensures ParseSubject(t) == Some(SubjectParts(t[..n], None, tail.breaking, tail.description))
  {
  }

  lemma {:induction false} TypeIsWordRun(t: string, n: nat)
    requires n <= |t| && (forall i :: 0 <= i < n ==> IsWord(t[i])) && (n < |t| ==> !IsWord(t[n]))
    ensures WordRun(t) == n
  {
  }

  /** Scanning for the scope from any k up to its closing `)` at c finds it. */
  lemma {:induction false} ScopeFinds(t: string, n: nat, k: nat, c: nat, s: SubjectParts)
    requires n < |t| && t[n] == '(' && n + 2 <= k <= c < |t|
    requires s.scope == Some(t[n + 1..c]) && t[..n] == s.typeTag
    requires forall i :: n + 1 <= i < c ==> !IsSpace(t[i])
    requires t[c] == ')' && TailOf(t[c + 1..]) == Some(Tail(s.breaking, s.description))
    ensures ScopeFrom(t, n, k) == Some(s)
    decreases c - k
  {
    if k < c {
      NoEarlierClose(t, k, c);
      ScopeFinds(t, n, k + 1, c, s);
    }
  }

  /** No rest matches after an offset k inside a scope without spaces that a later `)`
      closes: the rest would start with `: ` or `!: `, and neither fits before that `)`. */
  lemma {:induction false} NoEarlierClose(t: string, k: nat, c: nat)
    requires k < c < |t| && t[c] == ')'
    requires forall i :: k < i < c ==> !IsSpace(t[i])
    ensures TailOf(t[k + 1..]).None?
  {
    TailShape(t, k + 1);
  }

  /** A rest that matches starts with `: ` or `!: `. */
  lemma {:induction false} TailShape(t: string, j: nat)
    requires j <= |t|
    ensures TailOf(t[j..]).Some? ==>
      || (j + 1 < |t| && t[j] == ':' && t[j + 1] == ' ')
      || (j + 2 < |t| && t[j] == '!' && t[j + 1] == ':' && t[j + 2] == ' ')
  {
    var r := t[j..];
    if TailOf(r).Some? {
      var p := if r[0] == '!' then 1 else 0;
      assert r[p..p + 2] == ": ";
      assert r[p] == r[p..p + 2][0] && r[p + 1] == r[p..p + 2][1];
      assert r[0] == t[j] && r[p] == t[j + p] && r[p + 1] == t[j + p + 1];
    }
  }

  /** `ConventionalCommit(...)` accepts a subject exactly when it has the Conventional Commits
      form, and the groups it records are that form's parts. */
  lemma {:induction false} ParseSubjectIff(t: string, s: SubjectParts)
    ensures ParseSubject(t) == Some(s) <==> Decomposes(t, s)
  {
    if ParseSubject(t) == Some(s) {
      ParseSound(t);
    }
    if Decomposes(t, s) {
      ParseComplete(t, s);
    }
  }

  /** At most one decomposition exists, so the laziness of the scope never decides between
      two readings of a subject. */
  lemma {:induction false} DecompositionUnique(t: string, s1: SubjectParts, s2: SubjectParts)
    requires Decomposes(t, s1) && Decomposes(t, s2)
    ensures s1 == s2
  {
    ParseSubjectIff(t, s1);
    ParseSubjectIff(t, s2);
  }

  /** The scope may contain `)`: the first `)` of `fix(a)b): c` is followed by `b`, so the
      expression backtracks and takes `a)b` as the scope. */
  lemma {:induction false} ScopeBacktracksPastParen()
    ensures ParseSubject("fix(a)b): c") == Some(SubjectParts("fix", Some("a)b"), false, "c"))
  {
    var s := SubjectParts("fix", Some("a)b"), false, "c");
    assert Render(s) == "fix(a)b): c";
    ParseComplete("fix(a)b): c", s);
  }
}
