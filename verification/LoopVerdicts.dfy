/** What the scheduled runs report of a tree and its open issues, from what they read to what stands in their reports. */
module LoopVerdicts {
  import opened Texts
  import opened Sequences
  import opened Declarations
  import SO = StableOrphans
  import OL = OrphanLaws
  import GJ = GateJustifications
  import GL = GateLaws
  import GV = GateVerdicts
  import OW = Ownership
  import opened Trackers
  import opened WeeklyLoop

  /* ---- when a report has something to say ---- */

  /** A removal that nobody owns or that cannot be judged, or a declaration with a fault. */
  ghost predicate OrphanFinding(input: SO.ReconcileInput)
  {
    || (exists t <- input.tests :: IsCandidate(t) && NeedsAttention(input, t))
    || exists e <- input.exemptions :: !OL.FaultIs(input, e, None)
  }

  ghost predicate NeedsAttention(input: SO.ReconcileInput, t: DeclaredTest)
  {
    t.unparseableTags || OL.BelongsOn(input, t, SO.Orphaned) || OL.BelongsOn(input, t, SO.Undecided)
  }

  lemma FaultIsFound(input: SO.ReconcileInput, e: SO.ExemptionDecl)
    ensures OL.FaultIs(input, e, None) <==> SO.Judge(input, e).None?
  {
    OL.JudgeIs(input, e);
  }

  lemma AttentionIsListed(v: SO.Verdict, input: SO.ReconcileInput, t: DeclaredTest)
    requires SO.IsVerdictOf(v, input) && t in input.tests && IsCandidate(t) && NeedsAttention(input, t)
    ensures v.orphaned != [] || v.unknown != []
  {
    if t.unparseableTags {
      OL.UnreadableTagsAreUnknown(v, input, t);
    } else {
      OL.BucketIff(v, input, t, SO.Orphaned);
      OL.BucketIff(v, input, t, SO.Undecided);
    }
  }

  lemma ListedNeedsAttention(v: SO.Verdict, input: SO.ReconcileInput, r: SO.ReconcileRow)
    requires SO.IsVerdictOf(v, input) && (r in v.orphaned || r in v.unknown)
    ensures exists t <- input.tests :: IsCandidate(t) && NeedsAttention(input, t)
  {
    var state := if r in v.orphaned then SO.Orphaned else SO.Undecided;
    OL.RowsReport(v, input, state, r);
    var t :| t in input.tests && !t.stable && !LaneGated(t) && OL.Reports(input, t, r);
    if !t.unparseableTags {
      OL.BucketIff(v, input, t, state);
      assert r in OL.BucketOf(v, state) && OL.NamesTest(r, t);
    }
  }

  lemma FaultIsListed(v: SO.Verdict, input: SO.ReconcileInput, e: SO.ExemptionDecl)
    requires SO.IsVerdictOf(v, input) && e in input.exemptions && !OL.FaultIs(input, e, None)
    ensures v.staleExemptions != [] || v.unverifiedExemptions != []
  {
    var fault := OL.DeclarationIff(v, input, e);
    assert SO.ExemptionProblem(e, fault.value) in v.staleExemptions || SO.ExemptionProblem(e, fault.value) in v.unverifiedExemptions;
  }

  lemma ListedFault(v: SO.Verdict, input: SO.ReconcileInput)
    requires SO.IsVerdictOf(v, input) && v.staleExemptions != []
    ensures exists e <- input.exemptions :: !OL.FaultIs(input, e, None)
  {
    var p := v.staleExemptions[0];
    assert p in v.staleExemptions;
    SO.ProblemsMembers(input, input.exemptions, false);
    FaultIsFound(input, p.exemption);
  }

  /** The reconciliation has findings exactly when some candidate needs attention or some declaration has a fault. */
  lemma OrphanFindingsIff(v: SO.Verdict, input: SO.ReconcileInput)
    requires SO.IsVerdictOf(v, input)
    ensures SO.HasFindings(v) <==> OrphanFinding(input)
  {
    SO.UnverifiedClauseIsRedundant(v, input);
    if v.orphaned != [] { ListedNeedsAttention(v, input, v.orphaned[0]); }
    if v.unknown != [] { ListedNeedsAttention(v, input, v.unknown[0]); }
    if v.staleExemptions != [] { ListedFault(v, input); }
    if t :| t in input.tests && IsCandidate(t) && NeedsAttention(input, t) { AttentionIsListed(v, input, t); }
    if e :| e in input.exemptions && !OL.FaultIs(input, e, None) { FaultIsListed(v, input, e); }
  }

  /** A spec whose reason has expired or cannot be judged, or a declaration with a fault. */
  ghost predicate GateFinding(input: GJ.GateInput)
  {
    || (exists spec :: GV.MustExplain(input.tests, spec) && ReasonFails(input, spec))
    || exists d <- input.declarations :: !GV.FaultIs(input, d, None)
  }

  ghost predicate ReasonFails(input: GJ.GateInput, spec: string)
  {
    GV.BelongsOn(input, spec, GJ.Expired) || GV.BelongsOn(input, spec, GJ.Undecided)
  }

  lemma RowFails(v: GJ.GateVerdict, input: GJ.GateInput, row: GJ.GateRow)
    requires GJ.IsVerdictOf(v, input) && (row in v.expired || row in v.unknown)
    ensures exists spec :: GV.MustExplain(input.tests, spec) && ReasonFails(input, spec)
  {
    var state := if row in v.expired then GJ.Expired else GJ.Undecided;
    GV.SpecBucketIff(v, input, row.spec, state);
    assert row in GV.BucketOf(v, state);
    assert GV.MustExplain(input.tests, row.spec) && ReasonFails(input, row.spec);
  }

  lemma GateFault(input: GJ.GateInput, d: GJ.GateDecl)
    ensures GV.FaultIs(input, d, None) <==> GJ.Judge(input, d).None?
  {
    GV.JudgeIs(input, d);
  }

  lemma StaleIff(v: GJ.GateVerdict, input: GJ.GateInput)
    requires GJ.IsVerdictOf(v, input)
    ensures v.staleDeclarations != [] <==> exists d <- input.declarations :: !GV.FaultIs(input, d, None)
  {
    forall d ensures GV.FaultIs(input, d, None) <==> GJ.Judge(input, d).None? {
      GateFault(input, d);
    }
    SomeMapped(input.declarations, GJ.ProblemOf(input));
  }

  lemma {:induction false} SomeMapped<T, U>(xs: seq<T>, f: T -> Option<U>)
    ensures FilterMap(xs, f) != [] <==> exists x <- xs :: f(x).Some?
  {
    if xs != [] {
      var n := |xs| - 1;
      SomeMapped(xs[..n], f);
      assert xs == xs[..n] + [xs[n]];
    }
  }

  lemma SpecFails(v: GJ.GateVerdict, input: GJ.GateInput, spec: string)
    requires GJ.IsVerdictOf(v, input) && GV.MustExplain(input.tests, spec) && ReasonFails(input, spec)
    ensures v.expired != [] || v.unknown != []
  {
    GV.SpecBucketIff(v, input, spec, GJ.Expired);
    GV.SpecBucketIff(v, input, spec, GJ.Undecided);
  }

  /** The gate check has findings exactly when some spec's reason fails or some declaration has a fault. */
  lemma GateFindingsIff(v: GJ.GateVerdict, input: GJ.GateInput)
    requires GJ.IsVerdictOf(v, input)
    ensures GJ.HasGateFindings(v) <==> GateFinding(input)
  {
    if v.expired != [] { RowFails(v, input, v.expired[0]); }
    if v.unknown != [] { RowFails(v, input, v.unknown[0]); }
    if spec :| GV.MustExplain(input.tests, spec) && ReasonFails(input, spec) { SpecFails(v, input, spec); }
    StaleIff(v, input);
  }

  /** From what a weekly run reads to its report: once it publishes, the report stands exactly when either check has a finding. */
  lemma WeeklyReportIff(render: Renderer, world: World, e: Event)
    requires e.Weekly? && Publishes(e)
    ensures var sweep := SweepOf(e, e.others);
            Step(render, world, e).orphanReport.Some?
            <==> OrphanFinding(OrphanInput(e.tree, sweep)) || GateFinding(GateInputOf(e.tree, e.refStates, sweep))
  {
    var sweep := SweepOf(e, e.others);
    var orphans, gates := OrphanInput(e.tree, sweep), GateInputOf(e.tree, e.refStates, sweep);
    WeeklyStep(render, world, e);
    VerdictIs(OrphanVerdict(orphans), orphans);
    GateVerdictIs(GateVerdict(gates), gates);
    OrphanFindingsIff(OrphanVerdict(orphans), orphans);
    GateFindingsIff(GateVerdict(gates), gates);
  }

  /* ---- who owns what, by the open issues ---- */

  /** A weekly run, from the issues it fetched: a dated, undeclared removal is owned exactly when one of them names its file. */
  lemma WeeklyOwnedIff(tree: Tree, refStates: map<string, GJ.RefState>, issues: seq<RawIssue>, t: DeclaredTest)
    requires t in tree.tests && !t.stable && !LaneGated(t) && !t.unparseableTags
    requires forall t <- tree.tests :: '\0' !in t.relativePath
    ensures var v := Reconcile(tree, refStates, Ok(issues)).orphans;
            var dated := SO.KeyOf(t) in tree.history && tree.history[SO.KeyOf(t)].Removed?
                         && forall e <- tree.exemptions :: HistoryKey(e.spec, e.title) != SO.KeyOf(t);
            && (OL.Lists(v.owned, t) <==> dated && exists i <- issues :: OL.CanOwn(i, t.relativePath))
            && (OL.Lists(v.orphaned, t) <==> dated && forall i <- issues :: !OL.CanOwn(i, t.relativePath))
  {
    var input := OrphanInput(tree, Ok(issues));
    VerdictIs(OrphanVerdict(input), input);
    IndexOfIssues(WithoutReportIssues(issues), SelectCandidates(tree.tests));
    OL.OwnedByIssueIff(OrphanVerdict(input), input, issues, t);
  }

  lemma IndexOfIssues(issues: seq<RawIssue>, candidates: seq<DeclaredTest>)
    ensures IsIndexOf(TrackerIndex(issues, candidates, ORPHAN_ISSUE_TITLE), issues, candidates, ORPHAN_ISSUE_TITLE)
  {
    forall key | EntryAt(issues, candidates, ORPHAN_ISSUE_TITLE, key).Some? ensures exists c <- candidates :: SO.KeyOf(c) == key {
      EntriesAreKeys(issues, candidates, ORPHAN_ISSUE_TITLE, key);
    }
  }

  /** A weekly run whose sweep failed with something to say decides no ownership and no reason. */
  lemma WeeklyOutage(tree: Tree, refStates: map<string, GJ.RefState>, message: string, t: DeclaredTest)
    requires Split(message, '\n')[0] != ""
    requires t in tree.tests && !t.stable && !LaneGated(t) && !t.unparseableTags
    requires SO.KeyOf(t) in tree.history && tree.history[SO.KeyOf(t)].Removed?
    requires forall e <- tree.exemptions :: HistoryKey(e.spec, e.title) != SO.KeyOf(t)
    ensures var v := Reconcile(tree, refStates, Err(message)).orphans;
            OL.Lists(v.unknown, t) && !OL.Lists(v.owned, t) && !OL.Lists(v.orphaned, t)
    ensures var gates := Reconcile(tree, refStates, Err(message)).gates;
            gates.expired == [] && gates.live == [] && gates.declared == []
  {
    WeeklyOrphanOutage(tree, message, t);
    WeeklyGateOutage(tree, refStates, message);
  }

  /** And it says why: every row that a failed lookup left undecided carries the first line of what the sweep said. */
  lemma OutageIsNamed(tree: Tree, refStates: map<string, GJ.RefState>, message: string)
    requires Split(message, '\n')[0] != ""
    ensures forall r <- Reconcile(tree, refStates, Err(message)).orphans.unknown, text ::
              r.reason == Some(SO.TrackerLookupFailed(text)) ==> text == Split(message, '\n')[0]
    ensures forall r <- Reconcile(tree, refStates, Err(message)).gates.unknown, text ::
              r.reason == Some(GJ.AskingFailed(text)) ==> Contains(text, Split(message, '\n')[0])
  {
    OrphanOutageIsNamed(tree, message);
    GateOutageIsNamed(tree, refStates, message);
  }

  lemma OrphanOutageIsNamed(tree: Tree, message: string)
    ensures forall r <- OrphanVerdict(OrphanInput(tree, Err(message))).unknown, text ::
              r.reason == Some(SO.TrackerLookupFailed(text)) ==> text == Split(message, '\n')[0]
  {
    var input := OrphanInput(tree, Err(message));
    var v := OrphanVerdict(input);
    VerdictIs(v, input);
    forall r <- v.unknown, text | r.reason == Some(SO.TrackerLookupFailed(text)) ensures text == Split(message, '\n')[0] {
      OL.RowsReport(v, input, SO.Undecided, r);
    }
  }

  lemma GateOutageIsNamed(tree: Tree, refStates: map<string, GJ.RefState>, message: string)
    requires Split(message, '\n')[0] != ""
    ensures forall r <- GateVerdict(GateInputOf(tree, refStates, Err(message))).unknown, text ::
              r.reason == Some(GJ.AskingFailed(text)) ==> Contains(text, Split(message, '\n')[0])
  {
    var input := GateInputOf(tree, refStates, Err(message));
    var v := GateVerdict(input);
    GateVerdictIs(v, input);
    FailedSweepIsSaid(SweepError(Err(message)));
    forall r <- v.unknown, text | r.reason == Some(GJ.AskingFailed(text)) ensures Contains(text, Split(message, '\n')[0]) {
      AskedOf(v, input, r, text);
    }
  }

  lemma AskedOf(v: GJ.GateVerdict, input: GJ.GateInput, r: GJ.GateRow, text: string)
    requires GJ.IsVerdictOf(v, input) && r in v.unknown && r.reason == Some(GJ.AskingFailed(text))
    ensures input.lookupError == Some(text)
  {
    GV.RowsReport(v, input, GJ.Undecided, r);
  }

  lemma FailedSweepIsSaid(sweepError: Option<string>)
    requires Truthy(sweepError)
    ensures Truthy(GateError(sweepError)) && Contains(GateError(sweepError).value, sweepError.value)
  {
    Within("the open-issue lookup failed (", sweepError.value,
           "), so the context this check reads alongside the citations is undecided");
  }

  lemma Within(before: string, s: string, after: string)
    ensures Contains(before + s + after, s)
  {
    ContainsEnd("", s);
    assert "" + s == s;
    ContainsWithin(before, s, after, s);
  }

  lemma WeeklyGateOutage(tree: Tree, refStates: map<string, GJ.RefState>, message: string)
    requires Split(message, '\n')[0] != ""
    ensures var v := GateVerdict(GateInputOf(tree, refStates, Err(message)));
            v.expired == [] && v.live == [] && v.declared == []
  {
    var gates := GateInputOf(tree, refStates, Err(message));
    FailedSweepIsSaid(SweepError(Err(message)));
    GateVerdictIs(GateVerdict(gates), gates);
    GL.OutageDecidesNothing(GateVerdict(gates), gates);
  }

  lemma WeeklyOrphanOutage(tree: Tree, message: string, t: DeclaredTest)
    requires Split(message, '\n')[0] != ""
    requires t in tree.tests && !t.stable && !LaneGated(t) && !t.unparseableTags
    requires SO.KeyOf(t) in tree.history && tree.history[SO.KeyOf(t)].Removed?
    requires forall e <- tree.exemptions :: HistoryKey(e.spec, e.title) != SO.KeyOf(t)
    ensures var v := OrphanVerdict(OrphanInput(tree, Err(message)));
            OL.Lists(v.unknown, t) && !OL.Lists(v.owned, t) && !OL.Lists(v.orphaned, t)
  {
    var input := OrphanInput(tree, Err(message));
    VerdictIs(OrphanVerdict(input), input);
    OL.BucketIff(OrphanVerdict(input), input, t, SO.Undecided);
    OL.BucketIff(OrphanVerdict(input), input, t, SO.Owned);
    OL.BucketIff(OrphanVerdict(input), input, t, SO.Orphaned);
  }

  /** The issues beside a gate row are those of the sweep that name its spec. */
  lemma WeeklyTrackersSay(tree: Tree, refStates: map<string, GJ.RefState>, issues: seq<RawIssue>, state: GJ.GateState, row: GJ.GateRow)
    requires row in GV.BucketOf(Reconcile(tree, refStates, Ok(issues)).gates, state)
    ensures forall x :: x in row.trackedBy <==> Owns(x, issues, row.spec)
  {
    var input := GateInputOf(tree, refStates, Ok(issues));
    var specs := GJ.CandidateSpecs(tree.tests);
    GateVerdictIs(GateVerdict(input), input);
    GV.RowsReport(GateVerdict(input), input, state, row);
    GV.SpecBucketIff(GateVerdict(input), input, row.spec, state);
    GV.CandidateIff(tree.tests, row.spec);
    TrackersOfSpec(input.trackedSpecs, issues, specs, row.spec);
  }

  /** What an index of these issues holds for a spec. */
  predicate Owns(x: GJ.TrackedBy, issues: seq<RawIssue>, spec: string)
  {
    exists i <- issues :: OL.CanOwn(i, spec) && x == GJ.TrackedBy(i.number, i.url, i.repo)
  }

  lemma OwnsIff(x: GJ.TrackedBy, issues: seq<RawIssue>, spec: string)
    ensures OwnsSpec(x, WithoutReportIssues(issues), ORPHAN_ISSUE_TITLE, spec) <==> Owns(x, issues, spec)
  {
    FilterMembers(issues, NotReport);
    if i :| i in issues && OL.CanOwn(i, spec) && x == GJ.TrackedBy(i.number, i.url, i.repo) {
      assert i in WithoutReportIssues(issues);
    }
  }

  lemma TrackersOfSpec(index: map<string, seq<GJ.TrackedBy>>, issues: seq<RawIssue>, specs: seq<string>, spec: string)
    requires index == SpecTrackerIndex(WithoutReportIssues(issues), specs, ORPHAN_ISSUE_TITLE) && spec in specs
    ensures forall x: GJ.TrackedBy :: (spec in index && x in index[spec]) <==> Owns(x, issues, spec)
  {
    SpecTrackersSay(index, WithoutReportIssues(issues), specs, ORPHAN_ISSUE_TITLE, spec);
    forall x: GJ.TrackedBy ensures (spec in index && x in index[spec]) <==> Owns(x, issues, spec) {
      OwnsIff(x, issues, spec);
    }
  }

  /** A daily run, from the issues it fetched: an undeclared spec is unowned exactly when none of them names it. */
  lemma DailyUnownedIff(tree: Tree, issues: seq<RawIssue>, spec: string)
    requires spec in tree.backlogSpecs && spec !in tree.exemptSpecs
    ensures (exists row <- OW.ReportOf(OwnershipInput(tree, Ok(issues))).rows ::
               row.spec == spec && (row.detail == OW.InBaseline || row.detail == OW.OutsideBaseline(false)))
            <==> forall i <- issues :: !OL.CanOwn(i, spec)
  {
    var input := OwnershipInput(tree, Ok(issues));
    NoOwners(tree, issues, spec);
    OW.EverySpecOnce(input);
    OW.RowsIff(input, OW.Decide(input, spec));
    forall row <- OW.ReportOf(input).rows | row.spec == spec ensures row == OW.Decide(input, spec) {
      OW.RowsAreDecisions(input, row);
    }
  }

  lemma NoOwners(tree: Tree, issues: seq<RawIssue>, spec: string)
    requires spec in tree.backlogSpecs
    ensures OW.OwnersOf(OwnershipInput(tree, Ok(issues)), spec) == [] <==> forall i <- issues :: !OL.CanOwn(i, spec)
  {
    var index := SpecTrackerIndex(WithoutReportIssues(issues), tree.backlogSpecs, ORPHAN_ISSUE_TITLE);
    TrackersOfSpec(index, issues, tree.backlogSpecs, spec);
    if i :| i in issues && OL.CanOwn(i, spec) {
      var x := GJ.TrackedBy(i.number, i.url, i.repo);
      assert Owns(x, issues, spec);
    }
    if spec in index && index[spec] != [] {
      assert index[spec][0] in index[spec];
      assert Owns(index[spec][0], issues, spec);
    }
  }
}
