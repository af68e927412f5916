/** What the reconciliation's verdict says of each candidate, by its tags, its history, the declarations and the issues. */
module OrphanLaws {
  import opened Texts
  import opened Sequences
  import opened Declarations
  import opened StableOrphans
  import opened Trackers
  import ST = SpecTree
  import SA = StableAgreement

  /* ---- what is known of a candidate ---- */

  /** The removal was dated to a commit. */
  predicate Dated(input: ReconcileInput, test: DeclaredTest)
  {
    KeyOf(test) in input.history && input.history[KeyOf(test)].Removed?
  }

  /** The history cannot say whether the test ever had the tag. */
  predicate Undated(input: ReconcileInput, test: DeclaredTest)
  {
    KeyOf(test) in input.history ==> input.history[KeyOf(test)].Unknown?
  }

  predicate Exempted(input: ReconcileInput, test: DeclaredTest)
  {
    exists e <- input.exemptions :: HistoryKey(e.spec, e.title) == KeyOf(test)
  }

  predicate Tracked(input: ReconcileInput, test: DeclaredTest)
  {
    KeyOf(test) in input.trackers && |input.trackers[KeyOf(test)]| > 0
  }

  /** The issue lookup answered, as far as its error message tells. */
  predicate Answered(input: ReconcileInput)
  {
    input.trackerLookupError.None? || input.trackerLookupError.value == ""
  }

  predicate NamesTest(r: ReconcileRow, test: DeclaredTest)
  {
    r.relativePath == test.relativePath && r.title == test.title
  }

  ghost predicate Lists(rows: seq<ReconcileRow>, test: DeclaredTest)
  {
    exists r <- rows :: NamesTest(r, test)
  }

  /* ---- the declarations ---- */

  lemma {:induction false} ExemptionAtMeaning(exemptions: seq<ExemptionDecl>, key: string)
    ensures var found := ExemptionAt(exemptions, key);
            if found.Some? then exists i | 0 <= i < |exemptions| :: LastWithKey(exemptions, key, found.value, i)
            else forall e <- exemptions :: HistoryKey(e.spec, e.title) != key
  {
    if exemptions != [] {
      var n := |exemptions| - 1;
      ExemptionAtMeaning(exemptions[..n], key);
      assert exemptions == exemptions[..n] + [exemptions[n]];
      if HistoryKey(exemptions[n].spec, exemptions[n].title) == key {
        assert LastWithKey(exemptions, key, exemptions[n], n);
      } else if ExemptionAt(exemptions, key).Some? {
        var i :| 0 <= i < n && LastWithKey(exemptions[..n], key, ExemptionAt(exemptions, key).value, i);
        assert LastWithKey(exemptions, key, ExemptionAt(exemptions, key).value, i);
      }
    }
  }

  /** The declaration at `i` is the last one with its key. */
  ghost predicate LastWithKey(exemptions: seq<ExemptionDecl>, key: string, e: ExemptionDecl, i: int)
  {
    && 0 <= i < |exemptions| && exemptions[i] == e && HistoryKey(e.spec, e.title) == key
    && forall j | i < j < |exemptions| :: HistoryKey(exemptions[j].spec, exemptions[j].title) != key
  }

  lemma ExemptedIff(input: ReconcileInput, test: DeclaredTest)
    ensures ExemptionAt(input.exemptions, KeyOf(test)).Some? <==> Exempted(input, test)
  {
    ExemptionAtMeaning(input.exemptions, KeyOf(test));
  }

  /* ---- the bucket of each candidate ---- */

  /** The bucket a row belongs on, by what is known of its test. */
  ghost predicate BelongsOn(input: ReconcileInput, test: DeclaredTest, state: RowState)
  {
    match state
    case Owned => Dated(input, test) && !Exempted(input, test) && Answered(input) && Tracked(input, test)
    case Orphaned => Dated(input, test) && !Exempted(input, test) && Answered(input) && !Tracked(input, test)
    case Exempt => Dated(input, test) && Exempted(input, test)
    case Undecided => Undated(input, test) || (Dated(input, test) && !Exempted(input, test) && !Answered(input))
  }

  lemma DecideIff(input: ReconcileInput, test: DeclaredTest, state: RowState)
    requires !test.unparseableTags
    ensures (Decide(input, test).Some? && Decide(input, test).value.state == state) <==> BelongsOn(input, test, state)
    ensures Decide(input, test).Some? ==> NamesTest(Decide(input, test).value, test)
  {
    ExemptedIff(input, test);
  }

  lemma UnreadableIsUndecided(input: ReconcileInput, test: DeclaredTest)
    requires test.unparseableTags
    ensures Decide(input, test).Some? && Decide(input, test).value.state == Undecided
    ensures NamesTest(Decide(input, test).value, test) && Decide(input, test).value.reason == Some(TagsUnparseable)
  {
  }

  function BucketOf(v: Verdict, state: RowState): seq<ReconcileRow>
  {
    match state case Owned => v.owned case Orphaned => v.orphaned case Exempt => v.exempt case Undecided => v.unknown
  }

  lemma RowInBucket(v: Verdict, input: ReconcileInput, r: ReconcileRow, state: RowState)
    requires IsVerdictOf(v, input)
    ensures r in BucketOf(v, state) <==> r in AllRows(input) && r.state == state
  {
    FilterMembers(AllRows(input), (row: ReconcileRow) => row.state == state);
    FilterAgrees(AllRows(input), (row: ReconcileRow) => row.state == state, (row: ReconcileRow) => row.state == state);
  }

  /** Two tests of one path and title are judged alike, but for what is readable of each. */
  lemma SameNameSameBucket(input: ReconcileInput, a: DeclaredTest, b: DeclaredTest, state: RowState)
    requires a.relativePath == b.relativePath && a.title == b.title
    ensures BelongsOn(input, a, state) <==> BelongsOn(input, b, state)
  {
    assert KeyOf(a) == KeyOf(b);
  }

  /** A candidate of the same path and title whose tags could not be read. */
  predicate HasUnreadableTwin(input: ReconcileInput, test: DeclaredTest)
  {
    exists t <- input.tests :: IsCandidate(t) && t.unparseableTags && t.relativePath == test.relativePath && t.title == test.title
  }

  /**
   * The verdict, bucket by bucket: a candidate with readable tags is listed as owned, orphaned,
   * exempt or unknown exactly when its history, the declarations, the lookup and the trackers say so.
   */
  lemma BucketIff(v: Verdict, input: ReconcileInput, test: DeclaredTest, state: RowState)
    requires IsVerdictOf(v, input) && test in input.tests && IsCandidate(test) && !test.unparseableTags
    ensures Lists(BucketOf(v, state), test)
       <==> BelongsOn(input, test, state) || (state == Undecided && HasUnreadableTwin(input, test))
  {
    if BelongsOn(input, test, state) {
      ListedWhereItBelongs(v, input, test, state);
    }
    if state == Undecided && HasUnreadableTwin(input, test) {
      var t :| t in input.tests && IsCandidate(t) && t.unparseableTags && t.relativePath == test.relativePath && t.title == test.title;
      UnreadableTagsAreUnknown(v, input, t);
    }
    forall r <- BucketOf(v, state) | NamesTest(r, test)
      ensures BelongsOn(input, test, state) || (state == Undecided && HasUnreadableTwin(input, test))
    {
      RowBelongs(v, input, r, state, test);
    }
  }

  lemma RowBelongs(v: Verdict, input: ReconcileInput, r: ReconcileRow, state: RowState, test: DeclaredTest)
    requires IsVerdictOf(v, input) && r in BucketOf(v, state) && NamesTest(r, test)
    ensures BelongsOn(input, test, state) || (state == Undecided && HasUnreadableTwin(input, test))
  {
    RowInBucket(v, input, r, state);
    var t := ListedCandidate(input, r);
    if t.unparseableTags {
      UnreadableIsUndecided(input, t);
    } else {
      DecideIff(input, t, state);
      SameNameSameBucket(input, t, test, state);
    }
  }

  lemma ListedCandidate(input: ReconcileInput, r: ReconcileRow) returns (t: DeclaredTest)
    requires r in AllRows(input)
    ensures t in input.tests && IsCandidate(t) && Decide(input, t) == Some(r) && NamesTest(r, t)
  {
    FilterMembers(input.tests, IsCandidate);
    RowsFromMembers(input, SelectCandidates(input.tests));
    t :| t in SelectCandidates(input.tests) && Decide(input, t) == Some(r);
    DecidedNamesTest(input, t, r);
  }

  lemma DecidedNamesTest(input: ReconcileInput, t: DeclaredTest, r: ReconcileRow)
    requires Decide(input, t) == Some(r)
    ensures NamesTest(r, t)
  {
  }

  lemma ListedWhereItBelongs(v: Verdict, input: ReconcileInput, test: DeclaredTest, state: RowState)
    requires IsVerdictOf(v, input) && test in input.tests && IsCandidate(test) && !test.unparseableTags
    requires BelongsOn(input, test, state)
    ensures Lists(BucketOf(v, state), test)
  {
    DecideIff(input, test, state);
    DecidedRowIsListed(input, test);
    RowInBucket(v, input, Decide(input, test).value, state);
    assert Decide(input, test).value in BucketOf(v, state);
  }

  /** A candidate whose tags could not be read is always undecided, and says why. */
  lemma UnreadableTagsAreUnknown(v: Verdict, input: ReconcileInput, test: DeclaredTest)
    requires IsVerdictOf(v, input) && test in input.tests && IsCandidate(test) && test.unparseableTags
    ensures exists r <- v.unknown :: NamesTest(r, test) && r.reason == Some(TagsUnparseable)
  {
    UnreadableIsUndecided(input, test);
    DecidedRowIsListed(input, test);
    RowInBucket(v, input, Decide(input, test).value, Undecided);
    assert Decide(input, test).value in v.unknown;
  }

  /** From the tree: an unreadable tag option on a titled test, or on any suite around it, leaves that candidate undecided. */
  lemma UnreadableOptionIsUnknown(v: Verdict, input: ReconcileInput, rel: string, source: ST.Node, o: ST.Occurrence)
    requires IsVerdictOf(v, input) && forall t <- ST.DeclaredIn(rel, source) :: t in input.tests
    requires o in ST.Occurrences([], source) && ST.Titled(o) && SA.UnreadableReaches(o) && IsCandidate(ST.RowFor(rel, o))
    ensures exists r <- v.unknown ::
              r.relativePath == rel && Some(r.title) == o.test.title && r.reason == Some(TagsUnparseable)
  {
    SA.UnparseableIff(rel, o);
    SA.RowIsDeclared(rel, source, o);
    UnreadableTagsAreUnknown(v, input, ST.RowFor(rel, o));
  }

  /* ---- what a row says ---- */

  /** Everything a row carries: where its test stands, the evidence, the issues and the declaration beside it. */
  ghost predicate Reports(input: ReconcileInput, test: DeclaredTest, r: ReconcileRow)
  {
    && NamesTest(r, test) && r.line == test.line && r.fixme == test.fixme
    && r.trackers == (if Tracked(input, test) then input.trackers[KeyOf(test)] else [])
    && (if Exempted(input, test)
        then exists i, e :: r.exemption == Some(e) && LastWithKey(input.exemptions, KeyOf(test), e, i)
        else r.exemption == None)
    && r.removal == (if Dated(input, test) && !test.unparseableTags then Some(input.history[KeyOf(test)].removal) else None)
    && ReasonIs(input, test, r)
  }

  /** A reason stands on undecided rows alone, and names the first thing that left them undecided. */
  ghost predicate ReasonIs(input: ReconcileInput, test: DeclaredTest, r: ReconcileRow)
  {
    if r.state != Undecided then r.reason == None
    else if test.unparseableTags then r.reason == Some(TagsUnparseable)
    else if KeyOf(test) !in input.history then r.reason == Some(NoVerdictProduced)
    else if input.history[KeyOf(test)].Unknown? then r.reason == Some(HistoryUndecided(input.history[KeyOf(test)].cause))
    else input.trackerLookupError.Some? && r.reason == Some(TrackerLookupFailed(input.trackerLookupError.value))
  }

  lemma RowReports(input: ReconcileInput, test: DeclaredTest, r: ReconcileRow)
    requires Decide(input, test) == Some(r)
    ensures Reports(input, test, r)
  {
    ExemptedIff(input, test);
    ExemptionAtMeaning(input.exemptions, KeyOf(test));
    if Exempted(input, test) {
      var e := ExemptionAt(input.exemptions, KeyOf(test)).value;
      var i :| 0 <= i < |input.exemptions| && LastWithKey(input.exemptions, KeyOf(test), e, i);
      assert r.exemption == Some(e) && LastWithKey(input.exemptions, KeyOf(test), e, i);
    }
  }

  /** Every row of the verdict stands on the bucket of its state and reports on a candidate of the tree. */
  lemma RowsReport(v: Verdict, input: ReconcileInput, state: RowState, r: ReconcileRow)
    requires IsVerdictOf(v, input) && r in BucketOf(v, state)
    ensures r.state == state && exists t <- input.tests :: !t.stable && !LaneGated(t) && Reports(input, t, r)
  {
    RowInBucket(v, input, r, state);
    var t := ListedCandidate(input, r);
    RowReports(input, t, r);
  }

  /* ---- from the issues to the verdict ---- */

  lemma IndexEntry(index: map<string, seq<TrackerRef>>, issues: seq<RawIssue>, candidates: seq<DeclaredTest>, ownTitle: string,
                   test: DeclaredTest)
    requires IsIndexOf(index, issues, candidates, ownTitle)
    requires test in candidates && forall c <- candidates :: '\0' !in c.relativePath
    ensures (KeyOf(test) in index && |index[KeyOf(test)]| > 0)
            <==> exists i <- issues :: IsReal(ownTitle)(i) && NamesFile(Haystack(i), test.relativePath)
  {
    OwnedIff(index, issues, candidates, ownTitle, test);
    EntryOfCandidate(issues, candidates, ownTitle, test);
  }

  /** An open issue that can own a file: no pull request, no report of the checks, and it names the file. */
  predicate CanOwn(i: RawIssue, path: string)
  {
    && !i.isPullRequest && i.title != ORPHAN_ISSUE_TITLE && i.title != OWNERSHIP_ISSUE_TITLE
    && NamesFile(Haystack(i), path)
  }

  /**
   * From the open issues to the verdict: a dated, undeclared removal is owned if and only if
   * some open issue that is no pull request and no report names its file, and orphaned otherwise.
   */
  lemma OwnedByIssueIff(v: Verdict, input: ReconcileInput, issues: seq<RawIssue>, test: DeclaredTest)
    requires IsVerdictOf(v, input) && test in input.tests && IsCandidate(test) && !test.unparseableTags
    requires forall t <- input.tests :: '\0' !in t.relativePath
    requires IsIndexOf(input.trackers, WithoutReportIssues(issues), SelectCandidates(input.tests), ORPHAN_ISSUE_TITLE)
    requires Answered(input)
    ensures Lists(v.owned, test) <==> Dated(input, test) && !Exempted(input, test) && exists i <- issues :: CanOwn(i, test.relativePath)
    ensures Lists(v.orphaned, test) <==> Dated(input, test) && !Exempted(input, test) && forall i <- issues :: !CanOwn(i, test.relativePath)
  {
    FilterMembers(input.tests, IsCandidate);
    FilterMembers(issues, NotReport);
    IndexEntry(input.trackers, WithoutReportIssues(issues), SelectCandidates(input.tests), ORPHAN_ISSUE_TITLE, test);
    OwnersAmongReal(issues, test);
    BucketIff(v, input, test, Owned);
    BucketIff(v, input, test, Orphaned);
  }

  lemma OwnersAmongReal(issues: seq<RawIssue>, test: DeclaredTest)
    ensures (exists i <- WithoutReportIssues(issues) :: IsReal(ORPHAN_ISSUE_TITLE)(i) && NamesFile(Haystack(i), test.relativePath))
       <==> exists i <- issues :: CanOwn(i, test.relativePath)
  {
    FilterMembers(issues, NotReport);
    forall i <- issues | CanOwn(i, test.relativePath) ensures i in WithoutReportIssues(issues) && IsReal(ORPHAN_ISSUE_TITLE)(i) {}
    forall i <- WithoutReportIssues(issues) | IsReal(ORPHAN_ISSUE_TITLE)(i) && NamesFile(Haystack(i), test.relativePath)
      ensures CanOwn(i, test.relativePath) {}
  }

  /* ---- the declarations, judged ---- */

  /** The first test declared under a declaration's spec and title. */
  ghost predicate FirstDeclared(input: ReconcileInput, e: ExemptionDecl, t: DeclaredTest, i: int)
  {
    && 0 <= i < |input.tests| && input.tests[i] == t && t.relativePath == e.spec && t.title == e.title
    && forall j | 0 <= j < i :: !(input.tests[j].relativePath == e.spec && input.tests[j].title == e.title)
  }

  lemma {:induction false} FoundFirst(tests: seq<DeclaredTest>, spec: string, title: string) returns (i: int)
    requires FindDeclared(tests, spec, title).Some?
    ensures 0 <= i < |tests| && tests[i] == FindDeclared(tests, spec, title).value
    ensures tests[i].relativePath == spec && tests[i].title == title
    ensures forall j | 0 <= j < i :: !(tests[j].relativePath == spec && tests[j].title == title)
  {
    if tests[0].relativePath == spec && tests[0].title == title {
      i := 0;
    } else {
      i := FoundFirst(tests[1..], spec, title);
      i := i + 1;
    }
  }

  /** What is wrong with a declaration, in the order it is asked; nothing when its removal is dated. */
  ghost predicate FaultIs(input: ReconcileInput, e: ExemptionDecl, fault: Option<ExemptionFault>)
  {
    var key := HistoryKey(e.spec, e.title);
    if forall t <- input.tests :: !(t.relativePath == e.spec && t.title == e.title) then fault == Some(NoSuchTest)
    else
      exists t, i | FirstDeclared(input, e, t, i) ::
        if t.stable then fault == Some(StableAgain)
        else if LaneGated(t) then fault == Some(NowLaneGated(LaneTagsOf(t)))
        else if key !in input.history then fault == Some(Unverifiable(NoVerdictProduced))
        else match input.history[key]
          case Unknown(cause) => fault == Some(Unverifiable(HistoryUndecided(cause)))
          case Never => fault == Some(NeverCarried)
          case Removed(_) => fault == None
  }

  lemma JudgeIs(input: ReconcileInput, e: ExemptionDecl)
    ensures FaultIs(input, e, Judge(input, e))
  {
    FoundIsDeclared(input.tests, e.spec, e.title);
    var found := FindDeclared(input.tests, e.spec, e.title);
    if found.Some? {
      var i := FoundFirst(input.tests, e.spec, e.title);
      assert FirstDeclared(input, e, found.value, i);
    }
  }

  lemma {:induction false} ProblemListed(input: ReconcileInput, exemptions: seq<ExemptionDecl>, unverified: bool, e: ExemptionDecl)
    requires e in exemptions && Judge(input, e).Some? && Judge(input, e).value.Unverifiable? == unverified
    ensures ExemptionProblem(e, Judge(input, e).value) in Problems(input, exemptions, unverified)
  {
    var n := |exemptions| - 1;
    assert exemptions == exemptions[..n] + [exemptions[n]];
    if e != exemptions[n] {
      ProblemListed(input, exemptions[..n], unverified, e);
    }
  }

  /** A declaration is listed with a fault if and only if that is its fault: as unverified when the history cannot say, else as stale. */
  lemma DeclarationIff(v: Verdict, input: ReconcileInput, e: ExemptionDecl) returns (fault: Option<ExemptionFault>)
    requires IsVerdictOf(v, input) && e in input.exemptions
    ensures FaultIs(input, e, fault)
    ensures forall f :: ExemptionProblem(e, f) in v.staleExemptions <==> fault == Some(f) && !f.Unverifiable?
    ensures forall f :: ExemptionProblem(e, f) in v.unverifiedExemptions <==> fault == Some(f) && f.Unverifiable?
  {
    fault := Judge(input, e);
    JudgeIs(input, e);
    ProblemsMembers(input, input.exemptions, false);
    ProblemsMembers(input, input.exemptions, true);
    if fault.Some? {
      ProblemListed(input, input.exemptions, fault.value.Unverifiable?, e);
    }
  }
}
