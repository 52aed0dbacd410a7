/**
 * `ConventionalCommit`: a commit message whose subject follows the Conventional Commits 1.0.0
 * grammar, with the subject's parts, its footers and the flags derived from them.
 */
module ConventionalCommits {
  import opened Wrappers
  import opened PyText
  import opened Chars
  import opened CommitMessages
  import opened SubjectGrammar
  import opened Footers

  datatype ConventionalCommit = ConventionalCommit(
    base: CommitMessage,
    typeTag: string,
    scope: Option<string>,
    isBreaking: bool,
    description: string,
    footerIndex: seq<FooterEntry>)
  {
    /** The fields are those `__init__` computes: the analysed message, the groups of the
        subject's match and the footer matches of the whole message. */
    predicate Valid() {
      && base.Valid()
      && ParseSubject(base.Subject()) == Some(SubjectParts(typeTag, scope, isBreaking, description))
      && footerIndex == FooterScan(base.message, 0)
    }

    /** `footers` */
    function Footers(): FooterList {
      FooterList(base.message, footerIndex)
    }

    /** `has_new_feature()` */
    predicate HasNewFeature() {
      Lower(typeTag) == "feat"
    }

    /** `has_fix()` */
    predicate HasFix() {
      Lower(typeTag) == "fix"
    }

    /** What `has_breaking_change()` answers: the subject's `!`, or a footer that iteration
        yields with the token `BREAKING CHANGE`. */
    predicate BreakingChange() {
      isBreaking || BreakingIn(Footers().Items())
    }

    /** `has_breaking_change()`: the `!` first, then the footers one by one until the first
        IndexError ends the iteration. */
    method HasBreakingChange() returns (b: bool)
      ensures b == BreakingChange()
    {
      if isBreaking {
        return true;
      }
      var footers := Footers();
      var k := 0;
      var item := footers.GetItem(k);
      while item.Some?
        invariant k <= |footerIndex|
        invariant item == footers.Get(k)
        invariant BreakingIn(footers.Items()) == BreakingIn(footers.ItemsFrom(k))
        decreases |footerIndex| - k
      {
        assert k < |footerIndex|;
        assert footers.ItemsFrom(k) == [item.value] + footers.ItemsFrom(k + 1);
        BreakingInCons(item.value, footers.ItemsFrom(k + 1));
        if item.value.token == "BREAKING CHANGE" {
          return true;
        }
        k := k + 1;
        item := footers.GetItem(k);
      }
      return false;
    }
  }

  /** Some footer in `items` has the token `BREAKING CHANGE`. */
  predicate BreakingIn(items: seq<Footer>) {
    exists i :: 0 <= i < |items| && items[i].token == "BREAKING CHANGE"
  }

  lemma {:induction false} BreakingInCons(f: Footer, items: seq<Footer>)
    ensures BreakingIn([f] + items) <==> f.token == "BREAKING CHANGE" || BreakingIn(items)
  {
    var all := [f] + items;
    assert all[0] == f;
    assert forall i :: 0 <= i < |items| ==> all[i + 1] == items[i];
    if BreakingIn(all) {
      var i :| 0 <= i < |all| && all[i].token == "BREAKING CHANGE";
      if i > 0 {
        assert items[i - 1].token == "BREAKING CHANGE";
      }
    }
  }

  /** Some footer entry has the token `BREAKING CHANGE` or its synonym `BREAKING-CHANGE`. */
  predicate BreakingFooter(fs: seq<FooterEntry>) {
    exists k :: 0 <= k < |fs| && (fs[k].token == "BREAKING CHANGE" || fs[k].token == "BREAKING-CHANGE")
  }

  /** `ConventionalCommit(message)`: the message is analysed as a plain commit message (the
      constructor passes no hexsha), then the subject must match the strict expression. */
  function ConventionalOf(src: Source): (r: Result<ConventionalCommit, string>)
    ensures r.Ok? ==> r.value.Valid() && r.value.base == CommitMessageOf(src, None)
    ensures r.Ok? <==> ParseSubject(CommitMessageOf(src, None).Subject()).Some?
  {
    var base := CommitMessageOf(src, None);
    match ParseSubject(base.Subject())
    case None => Err("commit message's subject not formatted according to Conventional Commits")
    case Some(p) =>
      Ok(ConventionalCommit(base, p.typeTag, p.scope, p.breaking, p.description, FooterScan(base.message, 0)))
  }

  /** `ConventionalCommit.__init__` */
  method NewConventionalCommit(src: Source) returns (r: Result<ConventionalCommit, string>)
    ensures r == ConventionalOf(src)
  {
    var base := NewCommitMessage(src, None);
    var parts := ParseSubject(base.Subject());
    if parts.None? {
      return Err("commit message's subject not formatted according to Conventional Commits");
    }
    var footerIndex := FooterScan(base.message, 0);
    var c := ConventionalCommit(base, parts.value.typeTag, parts.value.scope, parts.value.breaking,
                                parts.value.description, footerIndex);
    ParsedFields(src, c);
    r := Ok(c);
  }

  /** A commit whose fields are the analysed message, the subject's groups and the footer
      matches is the one `ConventionalOf` gives. */
  lemma {:induction false} ParsedFields(src: Source, c: ConventionalCommit)
    requires c.base == CommitMessageOf(src, None)
    requires ParseSubject(c.base.Subject()) == Some(SubjectParts(c.typeTag, c.scope, c.isBreaking, c.description))
    requires c.footerIndex == FooterScan(c.base.message, 0)
    ensures ConventionalOf(src) == Ok(c)
  {
  }

  /*** What the constructor and the flags promise ***/

  /** Construction succeeds exactly when the subject of the cleaned message has the form
      type, optional `(scope)`, optional `!`, `: ` and a description, and the commit then
      holds exactly those parts. */
  lemma {:induction false} ConstructionConforms(src: Source)
    ensures ConventionalOf(src).Ok? <==> Conforms(CommitMessageOf(src, None).Subject())
    ensures ConventionalOf(src).Ok? ==>
      var c := ConventionalOf(src).value;
      Decomposes(c.base.Subject(), SubjectParts(c.typeTag, c.scope, c.isBreaking, c.description))
  {
    var t := CommitMessageOf(src, None).Subject();
    if ParseSubject(t).Some? {
      ParseSound(t);
    }
    if Conforms(t) {
      var s :| Decomposes(t, s);
      ParseComplete(t, s);
    }
  }

  /** The flags of a commit read off any decomposition of its subject: the type (in any case)
      decides feature and fix, and the `!` is the subject's breaking mark. */
  lemma {:induction false} FlagsFromSubject(c: ConventionalCommit, s: SubjectParts)
    requires c.Valid() && Decomposes(c.base.Subject(), s)
    ensures c.HasNewFeature() <==> Lower(s.typeTag) == "feat"
    ensures c.HasFix() <==> Lower(s.typeTag) == "fix"
    ensures c.isBreaking <==> s.breaking
    ensures !(c.HasNewFeature() && c.HasFix())
  {
    ParseComplete(c.base.Subject(), s);
  }

  /** The footers of a commit are the matches of the footer expression in order: each value
      runs from just past its separator up to the next footer's newline or the end of the
      message, has no trailing newline, and no footer starts inside it. */
  lemma {:induction false} FootersOfCommit(c: ConventionalCommit)
    requires c.footerIndex == FooterScan(c.base.message, 0)
    ensures var m, fs := c.base.message, c.footerIndex;
      && |c.Footers().Items()| == |fs|
      && (forall k :: 0 <= k < |fs| ==> FooterMatch(m, fs[k].start, fs[k]))
      && (forall k :: 0 < k < |fs| ==> fs[k - 1].end <= fs[k].start)
      && (forall k :: 0 <= k < |fs| ==> ItemOf(m, fs, k, c.Footers().Items()[k]))
      && (forall k :: 0 <= k < |fs| ==> NoFooter(m, fs[k].end, ValueEnd(m, fs, k)))
  {
    var m, fs := c.base.message, c.footerIndex;
    FooterScanSpec(m, 0);
    ScannedOrdered(m, fs);
    OrderedFooters(m, fs);
    ValuesHoldNoFooter(m, fs);
  }

  /** A commit announces a breaking change exactly when its subject has the `!` mark or the
      message has a footer whose token is `BREAKING CHANGE` or its synonym `BREAKING-CHANGE`. */
  lemma {:induction false} BreakingChangeIff(c: ConventionalCommit)
    requires c.footerIndex == FooterScan(c.base.message, 0)
    ensures c.BreakingChange() <==> c.isBreaking || BreakingFooter(c.footerIndex)
  {
    var m, fs := c.base.message, c.footerIndex;
    FooterScanSpec(m, 0);
    ScannedOrdered(m, fs);
    OrderedFooters(m, fs);
    ReportedBreaking(m, c.Footers().Items(), fs);
  }
}
