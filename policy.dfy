/**
 * `parse_commit_message`: the policy decides whether a message is read as a Conventional
 * Commit; a plain `CommitMessage` answers None to every change-kind question.
 */
module Policy {
  import opened Wrappers
  import opened Chars
  import opened CommitMessages
  import opened SubjectGrammar
  import opened ConventionalCommits

  const ConventionalPolicy := "conventional-commits"

  /** What `parse_commit_message` returns: an object of either class. */
  datatype Parsed = Plain(commit: CommitMessage) | Conventional(conventional: ConventionalCommit)

  /** `parse_commit_message(message, policy, strict)`: under the Conventional Commits policy a
      non-conforming subject is an error when strict and a plain message otherwise; any other
      policy gives a plain message. */
  function ParseCommitMessage(src: Source, policy: Option<string>, strict: bool): (r: Result<Parsed, string>)
    ensures r.Err? ==> policy == Some(ConventionalPolicy) && strict
    ensures r.Ok? && r.value.Plain? ==> r.value.commit == CommitMessageOf(src, None)
    ensures r.Ok? && r.value.Conventional? ==> r.value.conventional.Valid() && policy == Some(ConventionalPolicy)
  {
    if policy == Some(ConventionalPolicy) then
      match ConventionalOf(src)
      case Ok(c) => Ok(Conventional(c))
      case Err(e) => if strict then Err(e) else Ok(Plain(CommitMessageOf(src, None)))
    else Ok(Plain(CommitMessageOf(src, None)))
  }

  /** `has_breaking_change()` of either class. */
  function HasBreakingChange(p: Parsed): (r: Option<bool>)
    ensures r.None? <==> p.Plain?
  {
    match p
    case Plain(_) => None
    case Conventional(c) => Some(c.BreakingChange())
  }

  /** `has_new_feature()` of either class. */
  function HasNewFeature(p: Parsed): (r: Option<bool>)
    ensures r.None? <==> p.Plain?
  {
    match p
    case Plain(_) => None
    case Conventional(c) => Some(c.HasNewFeature())
  }

  /** `has_fix()` of either class. */
  function HasFix(p: Parsed): (r: Option<bool>)
    ensures r.None? <==> p.Plain?
  {
    match p
    case Plain(_) => None
    case Conventional(c) => Some(c.HasFix())
  }

  /** The outcome of parsing is decided by the policy, the subject and `strict`: a conforming
      subject under the Conventional Commits policy gives the Conventional Commit, a
      non-conforming one an error exactly when strict, and everything else a plain message. */
  lemma {:induction false} Dispatch(src: Source, policy: Option<string>, strict: bool)
    ensures var r, subject := ParseCommitMessage(src, policy, strict), CommitMessageOf(src, None).Subject();
      && (policy == Some(ConventionalPolicy) && Conforms(subject) ==>
            ConventionalOf(src).Ok? && r == Ok(Conventional(ConventionalOf(src).value)))
      && (policy == Some(ConventionalPolicy) && !Conforms(subject) ==>
            (r.Err? <==> strict) && (!strict ==> r == Ok(Plain(CommitMessageOf(src, None)))))
      && (policy != Some(ConventionalPolicy) ==> r == Ok(Plain(CommitMessageOf(src, None))))
      && (r.Err? <==> policy == Some(ConventionalPolicy) && strict && !Conforms(subject))
  {
    ConstructionConforms(src);
  }

  /** A plain message answers None to all three questions; a Conventional Commit answers
      from its type and its breaking-change marks. */
  lemma {:induction false} FlagsOfParsed(p: Parsed)
    requires p.Conventional? ==> p.conventional.Valid()
    ensures p.Plain? ==> HasBreakingChange(p) == None && HasNewFeature(p) == None && HasFix(p) == None
    ensures p.Conventional? ==>
      var c := p.conventional;
      && HasNewFeature(p) == Some(Lower(c.typeTag) == "feat")
      && HasFix(p) == Some(Lower(c.typeTag) == "fix")
      && HasBreakingChange(p) == Some(c.isBreaking || BreakingFooter(c.footerIndex))
  {
    if p.Conventional? {
      BreakingChangeIff(p.conventional);
    }
  }
}
