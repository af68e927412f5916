/**
 * The scheduled loop: the weekly reconciliation and the daily ownership check read the open
 * issues, decide, and open, refresh or close their report issues — which the next run of either
 * then finds among the open issues.
 */
module WeeklyLoop {
  import opened Texts
  import opened Sequences
  import opened Declarations
  import HW = HistoryWalk
  import SO = StableOrphans
  import GJ = GateJustifications
  import GL = GateLaws
  import OW = Ownership
  import opened Trackers

  /** The bodies of the two report issues, while they are open. */
  datatype World = World(orphanReport: Option<string>, ownershipReport: Option<string>)

  /** What the runs read from the checkout. */
  datatype Tree = Tree(
    tests: seq<DeclaredTest>,
    history: map<string, HW.HistoryVerdict>,
    exemptions: seq<SO.ExemptionDecl>,
    justifications: map<string, GJ.SpecJustification>,
    declarations: seq<GJ.GateDecl>,
    backlogSpecs: seq<string>,
    baselineSpecs: seq<string>,
    exemptSpecs: map<string, string>)

  /** What the reconciliation decides: the removals, and the written reasons. */
  datatype Reconciliation = Reconciliation(orphans: SO.Verdict, gates: GJ.GateVerdict)

  /** The open issues, or the message of the call that could not fetch them. */
  type Sweep = Result<seq<RawIssue>, string>

  /* ---- the verdicts as values ---- */

  function OrphanVerdict(input: SO.ReconcileInput): SO.Verdict
  {
    var rows := SO.AllRows(input);
    SO.Verdict(
      SO.Bucket(rows, SO.Orphaned), SO.Bucket(rows, SO.Owned), SO.Bucket(rows, SO.Exempt), SO.Bucket(rows, SO.Undecided),
      SO.Problems(input, input.exemptions, false), SO.Problems(input, input.exemptions, true),
      SO.Counts(|input.tests|, |Filter(input.tests, (t: DeclaredTest) => t.stable)|,
                |Filter(input.tests, (t: DeclaredTest) => !t.stable && LaneGated(t))|,
                NeverStable(input)))
  }

  function NeverStable(input: SO.ReconcileInput): nat
  {
    FewerRows(input, SelectCandidates(input.tests));
    |SelectCandidates(input.tests)| - |SO.AllRows(input)|
  }

  lemma {:induction false} FewerRows(input: SO.ReconcileInput, candidates: seq<DeclaredTest>)
    ensures |SO.RowsFrom(input, candidates)| <= |candidates|
  {
    if candidates != [] {
      FewerRows(input, candidates[..|candidates| - 1]);
    }
  }

  /** The loop's verdict is that value, and the only one. */
  lemma VerdictIs(v: SO.Verdict, input: SO.ReconcileInput)
    ensures SO.IsVerdictOf(v, input) <==> v == OrphanVerdict(input)
  {
    FewerRows(input, SelectCandidates(input.tests));
  }

  function GateVerdict(input: GJ.GateInput): GJ.GateVerdict
  {
    var rows, specs := GJ.AllRows(input), GJ.CandidateSpecs(input.tests);
    GJ.GateVerdict(
      GJ.Bucket(rows, GJ.Expired), GJ.Bucket(rows, GJ.Undecided), GJ.Bucket(rows, GJ.Live), GJ.Bucket(rows, GJ.Declared),
      FilterMap(input.declarations, GJ.ProblemOf(input)), |specs|, |Filter(specs, GJ.Citing(input))|,
      |GJ.CitedKeys(input, specs)|)
  }

  lemma GateVerdictIs(v: GJ.GateVerdict, input: GJ.GateInput)
    ensures GJ.IsVerdictOf(v, input) <==> v == GateVerdict(input)
  {
  }

  /* ---- one run of each script ---- */

  /** The first line of a failed sweep's message. */
  function SweepError(sweep: Sweep): Option<string>
  {
    match sweep
    case Ok(_) => None
    case Err(message) => Some(Split(message, '\n')[0])
  }

  /** The fetch drops both report issues; what could not be fetched counts as no issue. */
  function Swept(sweep: Sweep): seq<RawIssue>
  {
    if sweep.Ok? then WithoutReportIssues(sweep.value) else []
  }

  /** What the gate check says of a failed sweep. */
  function GateError(sweepError: Option<string>): Option<string>
  {
    if Truthy(sweepError)
    then Some("the open-issue lookup failed (" + sweepError.value
              + "), so the context this check reads alongside the citations is undecided")
    else None
  }

  function OrphanInput(tree: Tree, sweep: Sweep): SO.ReconcileInput
  {
    SO.ReconcileInput(tree.tests, tree.history,
                      TrackerIndex(Swept(sweep), SelectCandidates(tree.tests), ORPHAN_ISSUE_TITLE),
                      tree.exemptions, SweepError(sweep))
  }

  function GateInputOf(tree: Tree, refStates: map<string, GJ.RefState>, sweep: Sweep): GJ.GateInput
  {
    GJ.GateInput(tree.tests, tree.justifications, refStates,
                 SpecTrackerIndex(Swept(sweep), GJ.CandidateSpecs(tree.tests), ORPHAN_ISSUE_TITLE),
                 tree.declarations, GateError(SweepError(sweep)))
  }

  function Reconcile(tree: Tree, refStates: map<string, GJ.RefState>, sweep: Sweep): Reconciliation
  {
    Reconciliation(OrphanVerdict(OrphanInput(tree, sweep)), GateVerdict(GateInputOf(tree, refStates, sweep)))
  }

  function OwnershipInput(tree: Tree, sweep: Sweep): OW.Input
  {
    OW.Input(tree.backlogSpecs, tree.baselineSpecs, tree.exemptSpecs,
             if sweep.Ok? then Some(SpecTrackerIndex(Swept(sweep), tree.backlogSpecs, ORPHAN_ISSUE_TITLE)) else None,
             SweepError(sweep), None)
  }

  /** The reconciliation, as its script performs it: one sweep serves both of its checks. */
  method RunReconciliation(tree: Tree, refStates: map<string, GJ.RefState>, sweep: Sweep) returns (r: Reconciliation)
    ensures r == Reconcile(tree, refStates, sweep)
  {
    var open := Swept(sweep);
    var candidates := SelectCandidates(tree.tests);
    var trackers := BuildTrackerIndex(open, candidates, ORPHAN_ISSUE_TITLE);
    IndexIs(trackers, open, candidates, ORPHAN_ISSUE_TITLE);
    var orphanInput := SO.ReconcileInput(tree.tests, tree.history, trackers, tree.exemptions, SweepError(sweep));
    var orphans := SO.Reconcile(orphanInput);
    VerdictIs(orphans, orphanInput);
    var specs := GJ.SelectSpecs(tree.tests);
    var tracked := BuildSpecTrackerIndex(open, specs, ORPHAN_ISSUE_TITLE);
    SpecIndexIs(tracked, open, specs, ORPHAN_ISSUE_TITLE);
    var gateInput := GJ.GateInput(tree.tests, tree.justifications, refStates, tracked, tree.declarations,
                                  GateError(SweepError(sweep)));
    var gates := GJ.ClassifyGates(gateInput);
    GateVerdictIs(gates, gateInput);
    r := Reconciliation(orphans, gates);
  }

  /** The ownership check of the daily run, as its script performs it. */
  method RunOwnership(tree: Tree, sweep: Sweep) returns (report: OW.Report)
    ensures report == OW.ReportOf(OwnershipInput(tree, sweep))
  {
    var trackers: Option<map<string, seq<GJ.TrackedBy>>> := None;
    if sweep.Ok? {
      var owners := BuildSpecTrackerIndex(Swept(sweep), tree.backlogSpecs, ORPHAN_ISSUE_TITLE);
      SpecIndexIs(owners, Swept(sweep), tree.backlogSpecs, ORPHAN_ISSUE_TITLE);
      trackers := Some(owners);
    }
    report := OW.OwnershipReport(
      OW.Input(tree.backlogSpecs, tree.baselineSpecs, tree.exemptSpecs, trackers, SweepError(sweep), None));
  }

  /* ---- what becomes of a report issue ---- */

  datatype IssueAction = Untouched | Refresh | Create | Close | NothingToDo

  /** A lookup that could not be made decides nothing, and leaves the report alone. */
  function ActionFor(trackerFailed: bool, gateFailed: bool, hasFindings: bool, isOpen: bool): IssueAction
  {
    if trackerFailed || gateFailed then Untouched
    else if hasFindings then (if isOpen then Refresh else Create)
    else if isOpen then Close else NothingToDo
  }

  /** Which action is taken: none at all when a lookup failed, else by the findings and by what is open. */
  lemma ActionIff(trackerFailed: bool, gateFailed: bool, hasFindings: bool, isOpen: bool)
    ensures var action, answered := ActionFor(trackerFailed, gateFailed, hasFindings, isOpen), !trackerFailed && !gateFailed;
            && (action == Untouched <==> !answered) && (action == Create <==> answered && hasFindings && !isOpen)
            && (action == Refresh <==> answered && hasFindings && isOpen) && (action == Close <==> answered && !hasFindings && isOpen)
  {
  }

  function Publish(action: IssueAction, standing: Option<string>, body: string): Option<string>
  {
    match action
    case Untouched => standing
    case NothingToDo => standing
    case Refresh => Some(body)
    case Create => Some(body)
    case Close => None
  }

  predicate HasFindings(r: Reconciliation)
  {
    SO.HasFindings(r.orphans) || GJ.HasGateFindings(r.gates)
  }

  /**
   * The guard on failed references never keeps a report from being closed: a failed reference is
   * itself a finding. It only keeps one from being refreshed or opened.
   */
  lemma GateClauseNeverDecidesClose(tree: Tree, refStates: map<string, GJ.RefState>, sweep: Sweep, isOpen: bool)
    requires GL.AsksWhatIsCited(GateInputOf(tree, refStates, sweep))
    ensures var r, t := Reconcile(tree, refStates, sweep), Truthy(SweepError(sweep));
            ActionFor(t, GJ.HadLookupFailure(refStates), HasFindings(r), isOpen) == Close
            <==> ActionFor(t, false, HasFindings(r), isOpen) == Close
  {
    var input := GateInputOf(tree, refStates, sweep);
    if GJ.HadLookupFailure(refStates) {
      GateVerdictIs(GateVerdict(input), input);
      GL.FailedReferenceIsAFinding(GateVerdict(input), input);
    }
  }

  /* ---- the loop ---- */

  function ReportIssue(title: string, body: Option<string>): seq<RawIssue>
  {
    if body.Some? then [RawIssue(0, title, body, "", false, None)] else []
  }

  /** The open issues of a world: everyone else's, and the reports that are open. */
  function OpenIssues(world: World, others: seq<RawIssue>): seq<RawIssue>
  {
    ReportIssue(ORPHAN_ISSUE_TITLE, world.orphanReport) + others + ReportIssue(OWNERSHIP_ISSUE_TITLE, world.ownershipReport)
  }

  /** How a run turns what it decided, and its own label, into the text of its report. */
  datatype Renderer = Renderer(orphans: (Reconciliation, string) -> string, ownership: (OW.Report, string) -> string)

  /**
   * One scheduled run: what it reads, everyone else's open issues, and the message of its issue
   * lookup if that failed. A reference that could not be asked about is in `refStates`.
   */
  datatype Event =
    | Weekly(tree: Tree, others: seq<RawIssue>, failed: Option<string>, refStates: map<string, GJ.RefState>, runLabel: string)
    | Daily(tree: Tree, others: seq<RawIssue>, failed: Option<string>, runLabel: string)

  /** The sweep of a run that finds these issues open. */
  function SweepOf(e: Event, issues: seq<RawIssue>): Sweep
  {
    if e.failed.Some? then Err(e.failed.value) else Ok(issues)
  }

  /** The orphan report after a weekly run that decided `r`. */
  function AfterWeekly(render: Renderer, standing: Option<string>, e: Event, r: Reconciliation): Option<string>
    requires e.Weekly?
  {
    var trackerFailed := Truthy(SweepError(SweepOf(e, [])));
    var action := ActionFor(trackerFailed, GJ.HadLookupFailure(e.refStates), HasFindings(r), standing.Some?);
    Publish(action, standing, render.orphans(r, e.runLabel))
  }

  /** The ownership report after a daily run that decided `report`. */
  function AfterDaily(render: Renderer, standing: Option<string>, e: Event, report: OW.Report): Option<string>
  {
    var action := ActionFor(report.lookupFailed, false, OW.HasOwnershipFindings(report), standing.Some?);
    Publish(action, standing, render.ownership(report, e.runLabel))
  }

  function Step(render: Renderer, world: World, e: Event): World
  {
    var sweep := SweepOf(e, OpenIssues(world, e.others));
    match e
    case Weekly(tree, _, _, refStates, _) =>
      world.(orphanReport := AfterWeekly(render, world.orphanReport, e, Reconcile(tree, refStates, sweep)))
    case Daily(tree, _, _, _) =>
      world.(ownershipReport := AfterDaily(render, world.ownershipReport, e, OW.ReportOf(OwnershipInput(tree, sweep))))
  }

  /** The world after a history of runs of either script. */
  function Run(render: Renderer, world: World, events: seq<Event>): World
  {
    if events == [] then world
    else
      var n := |events| - 1;
      Step(render, Run(render, world, events[..n]), events[n])
  }

  function Iterate(step: World -> World, world: World, n: nat): World
  {
    if n == 0 then world else step(Iterate(step, world, n - 1))
  }

  lemma ReportsAreFiltered(world: World, others: seq<RawIssue>)
    ensures WithoutReportIssues(OpenIssues(world, others)) == WithoutReportIssues(others)
  {
    var first := ReportIssue(ORPHAN_ISSUE_TITLE, world.orphanReport);
    var last := ReportIssue(OWNERSHIP_ISSUE_TITLE, world.ownershipReport);
    FilterAppend(first, others, NotReport);
    FilterAppend(first + others, last, NotReport);
    FilterNone(first, NotReport);
    FilterNone(last, NotReport);
    assert [] + WithoutReportIssues(others) + [] == WithoutReportIssues(others);
  }

  /** What a run decides does not depend on the reports. */
  lemma ReportsDecideNothing(e: Event, world: World)
    ensures var seen, own := SweepOf(e, OpenIssues(world, e.others)), SweepOf(e, e.others);
            && Swept(seen) == Swept(own) && SweepError(seen) == SweepError(own) && seen.Ok? == own.Ok?
            && OwnershipInput(e.tree, seen) == OwnershipInput(e.tree, own)
            && forall refStates :: Reconcile(e.tree, refStates, seen) == Reconcile(e.tree, refStates, own)
  {
    ReportsAreFiltered(world, e.others);
  }

  /** The run publishes: its lookups answered, as far as the script can tell. */
  predicate Publishes(e: Event)
  {
    match e
    case Weekly(_, _, _, refStates, _) => !Truthy(SweepError(SweepOf(e, []))) && !GJ.HadLookupFailure(refStates)
    case Daily(_, _, failed, _) => failed.None?
  }

  function DecidedWeekly(e: Event): Reconciliation
    requires e.Weekly?
  {
    Reconcile(e.tree, e.refStates, SweepOf(e, e.others))
  }

  function DecidedDaily(e: Event): OW.Report
  {
    OW.ReportOf(OwnershipInput(e.tree, SweepOf(e, e.others)))
  }

  /** The report that a verdict deserves: open with its text, or closed. */
  function Deserved(hasFindings: bool, text: string): Option<string>
  {
    if hasFindings then Some(text) else None
  }

  function WeeklyText(render: Renderer, e: Event, r: Reconciliation): Option<string>
  {
    Deserved(HasFindings(r), render.orphans(r, e.runLabel))
  }

  function DailyText(render: Renderer, e: Event, report: OW.Report): Option<string>
  {
    Deserved(OW.HasOwnershipFindings(report), render.ownership(report, e.runLabel))
  }

  /** The report of the last weekly run that published, if any did. */
  function LastWeekly(render: Renderer, standing: Option<string>, events: seq<Event>): Option<string>
  {
    if events == [] then standing
    else
      var n := |events| - 1;
      var e := events[n];
      if e.Weekly? && Publishes(e) then WeeklyText(render, e, DecidedWeekly(e)) else LastWeekly(render, standing, events[..n])
  }

  function LastDaily(render: Renderer, standing: Option<string>, events: seq<Event>): Option<string>
  {
    if events == [] then standing
    else
      var n := |events| - 1;
      var e := events[n];
      if e.Daily? && Publishes(e) then DailyText(render, e, DecidedDaily(e)) else LastDaily(render, standing, events[..n])
  }

  lemma AfterWeeklyIs(render: Renderer, standing: Option<string>, e: Event, r: Reconciliation)
    requires e.Weekly?
    ensures AfterWeekly(render, standing, e, r) == if Publishes(e) then WeeklyText(render, e, r) else standing
  {
  }

  lemma AfterDailyIs(render: Renderer, standing: Option<string>, e: Event, report: OW.Report)
    requires e.Daily? && report.lookupFailed == !Publishes(e)
    ensures AfterDaily(render, standing, e, report) == if Publishes(e) then DailyText(render, e, report) else standing
  {
  }

  lemma WeeklyStep(render: Renderer, world: World, e: Event)
    requires e.Weekly?
    ensures Step(render, world, e)
            == world.(orphanReport := if Publishes(e) then WeeklyText(render, e, DecidedWeekly(e)) else world.orphanReport)
  {
    ReportsDecideNothing(e, world);
    AfterWeeklyIs(render, world.orphanReport, e, DecidedWeekly(e));
  }

  lemma DailyStep(render: Renderer, world: World, e: Event)
    requires e.Daily?
    ensures Step(render, world, e)
            == world.(ownershipReport := if Publishes(e) then DailyText(render, e, DecidedDaily(e)) else world.ownershipReport)
  {
    ReportsDecideNothing(e, world);
    AfterDailyIs(render, world.ownershipReport, e, DecidedDaily(e));
  }

  /**
   * No memory: after any history of weekly and daily runs, of which any may have failed its
   * lookups, each report is what the last run of its script that published made of its own tree
   * and everyone else's issues. Earlier reports, of either script, leave no trace.
   */
  lemma {:induction false} ReportsAreTheLastAnswers(render: Renderer, world: World, events: seq<Event>)
    ensures Run(render, world, events)
            == World(LastWeekly(render, world.orphanReport, events), LastDaily(render, world.ownershipReport, events))
  {
    if events != [] {
      var n := |events| - 1;
      var before := Run(render, world, events[..n]);
      ReportsAreTheLastAnswers(render, world, events[..n]);
      if events[n].Weekly? {
        WeeklyStep(render, before, events[n]);
      } else {
        DailyStep(render, before, events[n]);
      }
    }
  }

  /* ---- no oscillation ---- */

  /** One tree, and everyone else's issues and references as they are; any run may fail its lookups. */
  ghost predicate Steady(e: Event, tree: Tree, others: seq<RawIssue>, refStates: map<string, GJ.RefState>)
  {
    && e.tree == tree && e.others == others
    && (e.Weekly? && Publishes(e) ==> e.failed.None? && e.refStates == refStates)
  }

  function LastLabel(events: seq<Event>, weekly: bool): Option<string>
  {
    if events == [] then None
    else
      var n := |events| - 1;
      if events[n].Weekly? == weekly && Publishes(events[n]) then Some(events[n].runLabel) else LastLabel(events[..n], weekly)
  }

  /**
   * No oscillation: with the tree, the references and everyone else's issues fixed, and any runs
   * failing, a report stands untouched until a run of its script is answered. From then on it is
   * open if and only if the one verdict of that tree has findings, and says what that verdict
   * says, whatever the reports said before; only the label of the last answered run is new.
   */
  lemma NoOscillation(render: Renderer, world: World, events: seq<Event>,
                      tree: Tree, others: seq<RawIssue>, refStates: map<string, GJ.RefState>)
    requires forall e <- events :: Steady(e, tree, others, refStates)
    ensures var final, r, runLabel := Run(render, world, events), Reconcile(tree, refStates, Ok(others)), LastLabel(events, true);
            final.orphanReport == if runLabel.None? then world.orphanReport
                                  else Deserved(HasFindings(r), render.orphans(r, runLabel.value))
    ensures var final, o, runLabel := Run(render, world, events), OW.ReportOf(OwnershipInput(tree, Ok(others))), LastLabel(events, false);
            final.ownershipReport == if runLabel.None? then world.ownershipReport
                                     else Deserved(OW.HasOwnershipFindings(o), render.ownership(o, runLabel.value))
  {
    ReportsAreTheLastAnswers(render, world, events);
    SteadyWeekly(render, world.orphanReport, events, tree, others, refStates);
    SteadyDaily(render, world.ownershipReport, events, tree, others, refStates);
  }

  lemma {:induction false} SteadyWeekly(render: Renderer, standing: Option<string>, events: seq<Event>,
                                        tree: Tree, others: seq<RawIssue>, refStates: map<string, GJ.RefState>)
    requires forall e <- events :: Steady(e, tree, others, refStates)
    ensures var r, runLabel := Reconcile(tree, refStates, Ok(others)), LastLabel(events, true);
            LastWeekly(render, standing, events)
            == if runLabel.None? then standing else Deserved(HasFindings(r), render.orphans(r, runLabel.value))
  {
    if events != [] {
      assert Steady(events[|events| - 1], tree, others, refStates);
      SteadyWeekly(render, standing, events[..|events| - 1], tree, others, refStates);
    }
  }

  lemma {:induction false} SteadyDaily(render: Renderer, standing: Option<string>, events: seq<Event>,
                                       tree: Tree, others: seq<RawIssue>, refStates: map<string, GJ.RefState>)
    requires forall e <- events :: Steady(e, tree, others, refStates)
    ensures var o, runLabel := OW.ReportOf(OwnershipInput(tree, Ok(others))), LastLabel(events, false);
            LastDaily(render, standing, events)
            == if runLabel.None? then standing else Deserved(OW.HasOwnershipFindings(o), render.ownership(o, runLabel.value))
  {
    if events != [] {
      assert Steady(events[|events| - 1], tree, others, refStates);
      SteadyDaily(render, standing, events[..|events| - 1], tree, others, refStates);
    }
  }

  /* ---- failed runs ---- */

  /**
   * A weekly run whose sweep failed leaves the report alone, whatever it says and however it is
   * rendered, if and only if the message's first line is not empty or a reference could not be
   * asked about either. An empty first line publishes what no issue at all would have said.
   */
  lemma FailedRunIsQuietIff(e: Event)
    requires e.Weekly? && e.failed.Some?
    ensures (forall render, world :: Step(render, world, e) == world)
       <==> (Split(e.failed.value, '\n')[0] != "" || GJ.HadLookupFailure(e.refStates))
  {
    if Publishes(e) {
      PublishingShows(e);
    } else {
      forall render: Renderer, world: World ensures Step(render, world, e) == world {
        WeeklyStep(render, world, e);
      }
    }
  }

  /** The renderer that writes nothing. */
  function NoText(): Renderer
  {
    Renderer((r: Reconciliation, l: string) => "", (r: OW.Report, l: string) => "")
  }

  /** A run that publishes shows in some report: one whose text it would never write. */
  lemma PublishingShows(e: Event)
    requires e.Weekly? && Publishes(e)
    ensures exists render, world :: Step(render, world, e) != world
  {
    TextIsReplaced(NoText(), "standing", e);
    assert Step(NoText(), World(Some("standing"), None), e) != World(Some("standing"), None);
  }

  lemma TextIsReplaced(render: Renderer, standing: string, e: Event)
    requires e.Weekly? && Publishes(e) && standing != "" && forall r, l :: render.orphans(r, l) == ""
    ensures Step(render, World(Some(standing), None), e).orphanReport != Some(standing)
  {
    WeeklyStep(render, World(Some(standing), None), e);
    EmptyText(render, e, DecidedWeekly(e));
  }

  lemma EmptyText(render: Renderer, e: Event, r: Reconciliation)
    requires render.orphans(r, e.runLabel) == ""
    ensures WeeklyText(render, e, r) in {None, Some("")}
  {
  }

  /* ---- why the exclusion is needed ---- */

  /** The ownership check without it: any issue that names a spec owns it. */
  function NaiveReport(spec: string, world: World): OW.Report
  {
    OW.ReportOf(OW.Input([spec], [], map[], Some(SpecTrackerIndex(OpenIssues(world, []), [spec], "")), None, None))
  }

  /** The report names the spec while there is something to say. */
  function NaiveStep(spec: string, world: World): World
  {
    World(None, if OW.HasOwnershipFindings(NaiveReport(spec, world)) then Some(spec) else None)
  }

  lemma NaiveFindings(spec: string, world: World)
    requires world.orphanReport.None? && (world.ownershipReport.Some? ==> world.ownershipReport.value == spec)
    ensures OW.HasOwnershipFindings(NaiveReport(spec, world)) <==> world.ownershipReport.None?
  {
    var issues := OpenIssues(world, []);
    var index := SpecTrackerIndex(issues, [spec], "");
    OW.FindingsIff(OW.Input([spec], [], map[], Some(index), None, None));
    assert [spec][0] in [spec];
    assert issues == ReportIssue(OWNERSHIP_ISSUE_TITLE, world.ownershipReport);
    if world.ownershipReport.Some? {
      OwnReportOwns(spec, issues[0]);
      assert issues == [issues[0]];
      assert SpecTrackersOf(issues, spec, "") != [];
    }
  }

  lemma OwnReportOwns(spec: string, report: RawIssue)
    requires report.body == Some(spec) && report.title == OWNERSHIP_ISSUE_TITLE && !report.isPullRequest
    ensures SpecTrackersOf([report], spec, "") != []
  {
    ContainsEnd(OWNERSHIP_ISSUE_TITLE + "\n", spec);
    assert NamesFile(Haystack(report), spec);
    assert OWNERSHIP_ISSUE_TITLE[0] == '[';
    assert Filter([report], IsReal("")) == [report] by { assert Filter([report][1..], IsReal("")) == []; }
    FilterMapAll([report], TrackedByOf(spec), [GJ.TrackedBy(report.number, report.url, report.repo)]);
  }

  lemma NaiveStepFlips(spec: string, body: Option<string>)
    requires body.Some? ==> body.value == spec
    ensures NaiveStep(spec, World(None, body)) == World(None, if body.None? then Some(spec) else None)
  {
    NaiveFindings(spec, World(None, body));
  }

  function Naive(spec: string): World -> World
  {
    (w: World) => NaiveStep(spec, w)
  }

  lemma {:induction false} Flips(step: World -> World, a: World, b: World, n: nat)
    requires step(a) == b && step(b) == a
    ensures Iterate(step, a, n) == if n % 2 == 1 then b else a
  {
    if n > 0 {
      Flips(step, a, b, n - 1);
    }
  }

  /** Without it the report opens, owns its own finding, closes, and opens again, for ever. */
  lemma NaiveOscillates(spec: string, n: nat)
    ensures Iterate(Naive(spec), World(None, None), n) == World(None, if n % 2 == 1 then Some(spec) else None)
  {
    NaiveStepFlips(spec, None);
    NaiveStepFlips(spec, Some(spec));
    Flips(Naive(spec), World(None, None), World(None, Some(spec)), n);
  }
}
