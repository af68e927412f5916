/**
 * Reconciling `@stable` removals against the open issues that own the restore.
 *
 * `Reconcile` is the loop that fills the verdict's buckets; `AllRows` is the list of rows
 * in candidate order, of which every bucket is a filter.
 */
module StableOrphans {
  import opened Texts
  import opened Sequences
  import opened Declarations
  import opened HistoryWalk

  /* ---- inputs ---- */

  datatype MatchedOn = OnTitle | OnPath

  datatype TrackerRef = TrackerRef(number: nat, title: string, url: string, matchedOn: MatchedOn, repo: Option<string>)

  datatype ExemptionDecl = ExemptionDecl(spec: string, title: string, reason: string, ref: Option<string>)

  datatype ReconcileInput = ReconcileInput(
    tests: seq<DeclaredTest>,
    history: map<string, HistoryVerdict>,
    trackers: map<string, seq<TrackerRef>>,
    exemptions: seq<ExemptionDecl>,
    trackerLookupError: Option<string>)

  /* ---- verdict ---- */

  datatype RowState = Orphaned | Owned | Exempt | Undecided

  datatype RowReason =
    | TagsUnparseable
    | NoVerdictProduced
    | HistoryUndecided(cause: UnknownCause)
    | TrackerLookupFailed(error: string)

  datatype ReconcileRow = ReconcileRow(
    title: string, relativePath: string, line: nat, state: RowState, fixme: bool,
    removal: Option<RemovalEvidence>, trackers: seq<TrackerRef>, exemption: Option<ExemptionDecl>,
    reason: Option<RowReason>)

  datatype ExemptionFault = NoSuchTest | StableAgain | NowLaneGated(tags: seq<string>) | NeverCarried
                          | Unverifiable(why: RowReason)

  datatype ExemptionProblem = ExemptionProblem(exemption: ExemptionDecl, fault: ExemptionFault)

  datatype Counts = Counts(declared: nat, stable: nat, laneGated: nat, neverStable: nat)

  datatype Verdict = Verdict(
    orphaned: seq<ReconcileRow>, owned: seq<ReconcileRow>, exempt: seq<ReconcileRow>, unknown: seq<ReconcileRow>,
    staleExemptions: seq<ExemptionProblem>, unverifiedExemptions: seq<ExemptionProblem>, counts: Counts)

  /* ---- the decision for one candidate ---- */

  function KeyOf(test: DeclaredTest): string
  {
    HistoryKey(test.relativePath, test.title)
  }

  /** The declaration a map filled in order ends up holding: the last one with this key. */
  function ExemptionAt(exemptions: seq<ExemptionDecl>, key: string): Option<ExemptionDecl>
  {
    if exemptions == [] then None
    else
      var n := |exemptions| - 1;
      if HistoryKey(exemptions[n].spec, exemptions[n].title) == key then Some(exemptions[n])
      else ExemptionAt(exemptions[..n], key)
  }

  function TrackersAt(input: ReconcileInput, key: string): seq<TrackerRef>
  {
    if key in input.trackers then input.trackers[key] else []
  }

  function RowFor(input: ReconcileInput, test: DeclaredTest, state: RowState, removal: Option<RemovalEvidence>,
                  reason: Option<RowReason>): ReconcileRow
  {
    ReconcileRow(test.title, test.relativePath, test.line, state, test.fixme, removal,
                 TrackersAt(input, KeyOf(test)), ExemptionAt(input.exemptions, KeyOf(test)), reason)
  }

  /** The row of a candidate; `None` is the one verdict that is counted and not listed. */
  function Decide(input: ReconcileInput, test: DeclaredTest): Option<ReconcileRow>
  {
    var key := KeyOf(test);
    if test.unparseableTags then Some(RowFor(input, test, Undecided, None, Some(TagsUnparseable)))
    else if key !in input.history then Some(RowFor(input, test, Undecided, None, Some(NoVerdictProduced)))
    else match input.history[key]
      case Unknown(cause) => Some(RowFor(input, test, Undecided, None, Some(HistoryUndecided(cause))))
      case Never => None
      case Removed(removal) =>
        if ExemptionAt(input.exemptions, key).Some? then Some(RowFor(input, test, Exempt, Some(removal), None))
        else if Truthy(input.trackerLookupError) then
          Some(RowFor(input, test, Undecided, Some(removal), Some(TrackerLookupFailed(input.trackerLookupError.value))))
        else
          Some(RowFor(input, test, if TrackersAt(input, key) != [] then Owned else Orphaned, Some(removal), None))
  }

  function RowsFrom(input: ReconcileInput, candidates: seq<DeclaredTest>): seq<ReconcileRow>
  {
    if candidates == [] then []
    else
      var n := |candidates| - 1;
      var front := RowsFrom(input, candidates[..n]);
      var row := Decide(input, candidates[n]);
      if row.Some? then front + [row.value] else front
  }

  function AllRows(input: ReconcileInput): seq<ReconcileRow>
  {
    RowsFrom(input, SelectCandidates(input.tests))
  }

  function Bucket(rows: seq<ReconcileRow>, state: RowState): seq<ReconcileRow>
  {
    Filter(rows, (r: ReconcileRow) => r.state == state)
  }

  /* ---- the declarations, verified in the other direction ---- */

  function Judge(input: ReconcileInput, e: ExemptionDecl): Option<ExemptionFault>
  {
    var declared := FindDeclared(input.tests, e.spec, e.title);
    if declared.None? then Some(NoSuchTest)
    else if declared.value.stable then Some(StableAgain)
    else if LaneGated(declared.value) then Some(NowLaneGated(LaneTagsOf(declared.value)))
    else
      var key := HistoryKey(e.spec, e.title);
      if key !in input.history then Some(Unverifiable(NoVerdictProduced))
      else match input.history[key]
        case Unknown(cause) => Some(Unverifiable(HistoryUndecided(cause)))
        case Never => Some(NeverCarried)
        case Removed(_) => None
  }

  function Problems(input: ReconcileInput, exemptions: seq<ExemptionDecl>, unverified: bool): seq<ExemptionProblem>
  {
    if exemptions == [] then []
    else
      var n := |exemptions| - 1;
      var front := Problems(input, exemptions[..n], unverified);
      var fault := Judge(input, exemptions[n]);
      if fault.Some? && fault.value.Unverifiable? == unverified
      then front + [ExemptionProblem(exemptions[n], fault.value)]
      else front
  }

  /* ---- the loop ---- */

  /** The whole verdict, bucket by bucket. */
  ghost predicate IsVerdictOf(v: Verdict, input: ReconcileInput)
  {
    var rows := AllRows(input);
    && v.orphaned == Bucket(rows, Orphaned) && v.owned == Bucket(rows, Owned)
    && v.exempt == Bucket(rows, Exempt) && v.unknown == Bucket(rows, Undecided)
    && v.staleExemptions == Problems(input, input.exemptions, false)
    && v.unverifiedExemptions == Problems(input, input.exemptions, true)
    && v.counts.declared == |input.tests|
    && v.counts.stable == |Filter(input.tests, (t: DeclaredTest) => t.stable)|
    && v.counts.laneGated == |Filter(input.tests, (t: DeclaredTest) => !t.stable && LaneGated(t))|
    && v.counts.neverStable == |SelectCandidates(input.tests)| - |rows|
  }

  method ExemptionIndex(exemptions: seq<ExemptionDecl>) returns (index: map<string, ExemptionDecl>)
    ensures forall key :: key in index <==> ExemptionAt(exemptions, key).Some?
    ensures forall key <- index :: index[key] == ExemptionAt(exemptions, key).value
  {
    index := map[];
    for i := 0 to |exemptions|
      invariant forall key :: key in index <==> ExemptionAt(exemptions[..i], key).Some?
      invariant forall key <- index :: index[key] == ExemptionAt(exemptions[..i], key).value
    {
      var e := exemptions[i];
      assert exemptions[..i + 1][..i] == exemptions[..i];
      index := index[HistoryKey(e.spec, e.title) := e];
    }
    assert exemptions[..|exemptions|] == exemptions;
  }

  /** One turn of the candidate loop, up to the push: the row, or nothing for a test that never had the tag. */
  method RowOf(input: ReconcileInput, test: DeclaredTest, exemptionByKey: map<string, ExemptionDecl>)
    returns (row: Option<ReconcileRow>)
    requires forall key :: key in exemptionByKey <==> ExemptionAt(input.exemptions, key).Some?
    requires forall key <- exemptionByKey :: exemptionByKey[key] == ExemptionAt(input.exemptions, key).value
    ensures row == Decide(input, test)
  {
    var key := KeyOf(test);
    var exemption := if key in exemptionByKey then Some(exemptionByKey[key]) else None;
    var base := ReconcileRow(test.title, test.relativePath, test.line, Undecided, test.fixme, None,
                             TrackersAt(input, key), exemption, None);
    if test.unparseableTags {
      return Some(base.(reason := Some(TagsUnparseable)));
    }
    if key !in input.history {
      return Some(base.(reason := Some(NoVerdictProduced)));
    }
    var outcome := input.history[key];
    if outcome.Unknown? {
      return Some(base.(reason := Some(HistoryUndecided(outcome.cause))));
    }
    if outcome.Never? {
      return None;
    }
    if exemption.Some? {
      return Some(base.(state := Exempt, removal := Some(outcome.removal)));
    }
    if Truthy(input.trackerLookupError) {
      return Some(base.(removal := Some(outcome.removal),
                        reason := Some(TrackerLookupFailed(input.trackerLookupError.value))));
    }
    return Some(base.(state := if base.trackers != [] then Owned else Orphaned, removal := Some(outcome.removal)));
  }

  /** The candidate loop: push each row on its bucket, count the tests that never had the tag. */
  method Classify(input: ReconcileInput, candidates: seq<DeclaredTest>)
    returns (orphaned: seq<ReconcileRow>, owned: seq<ReconcileRow>, exempt: seq<ReconcileRow>,
             unknown: seq<ReconcileRow>, neverStable: nat)
    ensures var rows := RowsFrom(input, candidates);
            && orphaned == Bucket(rows, Orphaned) && owned == Bucket(rows, Owned)
            && exempt == Bucket(rows, Exempt) && unknown == Bucket(rows, Undecided)
            && neverStable + |rows| == |candidates|
  {
    var exemptionByKey := ExemptionIndex(input.exemptions);
    orphaned, owned, exempt, unknown, neverStable := [], [], [], [], 0;
    ghost var rows: seq<ReconcileRow> := [];
    for i := 0 to |candidates|
      invariant rows == RowsFrom(input, candidates[..i])
      invariant orphaned == Bucket(rows, Orphaned) && owned == Bucket(rows, Owned)
      invariant exempt == Bucket(rows, Exempt) && unknown == Bucket(rows, Undecided)
      invariant neverStable + |rows| == i
    {
      assert candidates[..i + 1][..i] == candidates[..i];
      var row := RowOf(input, candidates[i], exemptionByKey);
      if row.None? {
        neverStable := neverStable + 1;
      } else {
        PushedBuckets(rows, row.value);
        match row.value.state {
          case Orphaned => orphaned := orphaned + [row.value];
          case Owned => owned := owned + [row.value];
          case Exempt => exempt := exempt + [row.value];
          case Undecided => unknown := unknown + [row.value];
        }
        rows := rows + [row.value];
      }
    }
    assert candidates[..|candidates|] == candidates;
  }

  /** The declarations loop. */
  method JudgeExemptions(input: ReconcileInput)
    returns (stale: seq<ExemptionProblem>, unverified: seq<ExemptionProblem>)
    ensures stale == Problems(input, input.exemptions, false)
    ensures unverified == Problems(input, input.exemptions, true)
  {
    stale, unverified := [], [];
    for i := 0 to |input.exemptions|
      invariant stale == Problems(input, input.exemptions[..i], false)
      invariant unverified == Problems(input, input.exemptions[..i], true)
    {
      var e := input.exemptions[i];
      assert input.exemptions[..i + 1][..i] == input.exemptions[..i];
      var fault := Judge(input, e);
      if fault.Some? {
        if fault.value.Unverifiable? {
          unverified := unverified + [ExemptionProblem(e, fault.value)];
        } else {
          stale := stale + [ExemptionProblem(e, fault.value)];
        }
      }
    }
    assert input.exemptions[..|input.exemptions|] == input.exemptions;
  }

  method Reconcile(input: ReconcileInput) returns (v: Verdict)
    ensures IsVerdictOf(v, input)
  {
    var orphaned, owned, exempt, unknown, neverStable := Classify(input, SelectCandidates(input.tests));
    var stale, unverified := JudgeExemptions(input);
    v := Verdict(orphaned, owned, exempt, unknown, stale, unverified,
                 Counts(|input.tests|,
                        |Filter(input.tests, (t: DeclaredTest) => t.stable)|,
                        |Filter(input.tests, (t: DeclaredTest) => !t.stable && LaneGated(t))|,
                        neverStable));
  }

  /** A pushed row grows its own bucket and moves no other. */
  lemma PushedBuckets(rows: seq<ReconcileRow>, row: ReconcileRow)
    ensures forall s: RowState :: Bucket(rows + [row], s) == Bucket(rows, s) + if row.state == s then [row] else []
  {
    forall s: RowState ensures Bucket(rows + [row], s) == Bucket(rows, s) + if row.state == s then [row] else [] {
      FilterAppend(rows, [row], (r: ReconcileRow) => r.state == s);
    }
  }

  predicate HasFindings(v: Verdict)
  {
    v.orphaned != [] || v.unknown != [] || v.staleExemptions != [] || v.unverifiedExemptions != []
  }

  /* ---- conservation ---- */

  lemma {:induction false} TestsSplit(tests: seq<DeclaredTest>)
    ensures |tests| == |Filter(tests, (t: DeclaredTest) => t.stable)|
                     + |Filter(tests, (t: DeclaredTest) => !t.stable && LaneGated(t))|
                     + |SelectCandidates(tests)|
  {
    if tests != [] {
      TestsSplit(tests[1..]);
    }
  }

  lemma {:induction false} RowsSplit(rows: seq<ReconcileRow>)
    ensures |rows| == |Bucket(rows, Orphaned)| + |Bucket(rows, Owned)| + |Bucket(rows, Exempt)| + |Bucket(rows, Undecided)|
  {
    if rows != [] {
      RowsSplit(rows[1..]);
    }
  }

  /** Every declared test is accounted for exactly once. */
  lemma NothingIsDropped(v: Verdict, input: ReconcileInput)
    requires IsVerdictOf(v, input)
    ensures v.counts.declared == v.counts.stable + v.counts.laneGated + v.counts.neverStable
                               + |v.orphaned| + |v.owned| + |v.exempt| + |v.unknown|
  {
    TestsSplit(input.tests);
    RowsSplit(AllRows(input));
  }

  lemma {:induction false} RowsFromMembers(input: ReconcileInput, candidates: seq<DeclaredTest>)
    ensures forall t <- candidates :: Decide(input, t).Some? ==> Decide(input, t).value in RowsFrom(input, candidates)
    ensures forall r <- RowsFrom(input, candidates) :: exists t <- candidates :: Decide(input, t) == Some(r)
  {
    if candidates != [] {
      var n := |candidates| - 1;
      RowsFromMembers(input, candidates[..n]);
      assert candidates == candidates[..n] + [candidates[n]];
    }
  }

  lemma DecidedRowIsListed(input: ReconcileInput, test: DeclaredTest)
    requires test in input.tests && IsCandidate(test) && Decide(input, test).Some?
    ensures Decide(input, test).value in AllRows(input)
  {
    FilterMembers(input.tests, IsCandidate);
    RowsFromMembers(input, SelectCandidates(input.tests));
  }

  /* ---- an outage ---- */

  /** The same run with the issue lookup failing: no trackers, and the first line of the error. */
  function Outage(input: ReconcileInput, error: string): ReconcileInput
  {
    input.(trackers := map[], trackerLookupError := Some(error))
  }

  /** What a failed lookup may do to a row: forget its trackers and, if they decided it, leave it undecided. */
  function Downgrade(row: ReconcileRow, error: string): ReconcileRow
  {
    var untracked := row.(trackers := []);
    if row.state in {Owned, Orphaned} then untracked.(state := Undecided, reason := Some(TrackerLookupFailed(error)))
    else untracked
  }

  lemma DecideInOutage(input: ReconcileInput, test: DeclaredTest, error: string)
    requires error != "" && !Truthy(input.trackerLookupError)
    ensures var row := Decide(input, test);
            Decide(Outage(input, error), test) == if row.Some? then Some(Downgrade(row.value, error)) else None
  {
  }

  lemma {:induction false} RowsDowngrade(input: ReconcileInput, candidates: seq<DeclaredTest>, error: string)
    requires error != "" && !Truthy(input.trackerLookupError)
    ensures RowsFrom(Outage(input, error), candidates)
         == MapSeq(RowsFrom(input, candidates), (r: ReconcileRow) => Downgrade(r, error))
  {
    if candidates != [] {
      RowsDowngrade(input, candidates[..|candidates| - 1], error);
      DecideInOutage(input, candidates[|candidates| - 1], error);
    }
  }

  lemma {:induction false} DowngradedBuckets(rows: seq<ReconcileRow>, error: string)
    ensures var after := MapSeq(rows, (r: ReconcileRow) => Downgrade(r, error));
            && Bucket(after, Owned) == [] && Bucket(after, Orphaned) == []
            && Bucket(after, Exempt) == MapSeq(Bucket(rows, Exempt), (r: ReconcileRow) => r.(trackers := []))
            && |Bucket(after, Undecided)| == |Bucket(rows, Undecided)| + |Bucket(rows, Owned)| + |Bucket(rows, Orphaned)|
  {
    if rows != [] {
      var after := MapSeq(rows, (r: ReconcileRow) => Downgrade(r, error));
      assert after[1..] == MapSeq(rows[1..], (r: ReconcileRow) => Downgrade(r, error));
      DowngradedBuckets(rows[1..], error);
    }
  }

  lemma {:induction false} ProblemsIgnoreTrackers(input: ReconcileInput, exemptions: seq<ExemptionDecl>, error: string, unverified: bool)
    ensures Problems(Outage(input, error), exemptions, unverified) == Problems(input, exemptions, unverified)
  {
    if exemptions != [] {
      ProblemsIgnoreTrackers(input, exemptions[..|exemptions| - 1], error, unverified);
    }
  }

  /**
   * A failed lookup empties `owned` and `orphaned`, moves exactly those rows to `unknown`
   * in place, and changes nothing else.
   */
  lemma OutageMovesOnlyOwnership(v: Verdict, w: Verdict, input: ReconcileInput, error: string)
    requires error != "" && !Truthy(input.trackerLookupError)
    requires IsVerdictOf(v, input) && IsVerdictOf(w, Outage(input, error))
    ensures AllRows(Outage(input, error)) == MapSeq(AllRows(input), (r: ReconcileRow) => Downgrade(r, error))
    ensures w.owned == [] && w.orphaned == [] && |w.exempt| == |v.exempt|
    ensures |w.unknown| == |v.unknown| + |v.owned| + |v.orphaned|
    ensures w.staleExemptions == v.staleExemptions && w.unverifiedExemptions == v.unverifiedExemptions
    ensures w.counts == v.counts
  {
    RowsDowngrade(input, SelectCandidates(input.tests), error);
    DowngradedBuckets(AllRows(input), error);
    ProblemsIgnoreTrackers(input, input.exemptions, error, false);
    ProblemsIgnoreTrackers(input, input.exemptions, error, true);
  }

  /** What the same failure does to a row when its message has no first line. */
  function Disown(row: ReconcileRow): ReconcileRow
  {
    row.(trackers := [], state := if row.state == Owned then Orphaned else row.state)
  }

  lemma DecideWithEmptyError(input: ReconcileInput, test: DeclaredTest)
    requires !Truthy(input.trackerLookupError)
    ensures var row := Decide(input, test);
            Decide(Outage(input, ""), test) == if row.Some? then Some(Disown(row.value)) else None
  {
  }

  /** An error whose first line is empty is not seen as one: every owned removal reads as orphaned. */
  lemma {:induction false} EmptyErrorReadsAsAnswered(input: ReconcileInput, candidates: seq<DeclaredTest>)
    requires !Truthy(input.trackerLookupError)
    ensures RowsFrom(Outage(input, ""), candidates)
         == MapSeq(RowsFrom(input, candidates), Disown)
  {
    if candidates != [] {
      EmptyErrorReadsAsAnswered(input, candidates[..|candidates| - 1]);
      DecideWithEmptyError(input, candidates[|candidates| - 1]);
    }
  }

  predicate ReportsOutage(row: ReconcileRow, error: string)
  {
    row.reason == Some(TrackerLookupFailed(error))
  }

  lemma {:induction false} AnsweredRowsReportNoOutage(input: ReconcileInput, candidates: seq<DeclaredTest>)
    requires !Truthy(input.trackerLookupError)
    ensures forall r <- RowsFrom(input, candidates) :: forall error :: !ReportsOutage(r, error)
  {
    if candidates != [] {
      AnsweredRowsReportNoOutage(input, candidates[..|candidates| - 1]);
    }
  }

  /** So an outage that touches any row is reported as one exactly when its message has a first line. */
  lemma OutageIsReportedIff(input: ReconcileInput, error: string, touched: ReconcileRow)
    requires !Truthy(input.trackerLookupError)
    requires touched in AllRows(input) && touched.state in {Owned, Orphaned}
    ensures (exists r <- AllRows(Outage(input, error)) :: ReportsOutage(r, error)) <==> error != ""
  {
    var candidates := SelectCandidates(input.tests);
    if error == "" {
      AnsweredRowsReportNoOutage(Outage(input, ""), candidates);
    } else {
      RowsDowngrade(input, candidates, error);
      var i :| 0 <= i < |AllRows(input)| && AllRows(input)[i] == touched;
      var r := AllRows(Outage(input, error))[i];
      assert r == Downgrade(touched, error) && ReportsOutage(r, error);
    }
  }

  /* ---- the clause of HasFindings said to be redundant ---- */

  lemma {:induction false} ProblemsMembers(input: ReconcileInput, exemptions: seq<ExemptionDecl>, unverified: bool)
    ensures forall p <- Problems(input, exemptions, unverified) ::
              p.exemption in exemptions && Judge(input, p.exemption) == Some(p.fault) && p.fault.Unverifiable? == unverified
  {
    if exemptions != [] {
      ProblemsMembers(input, exemptions[..|exemptions| - 1], unverified);
    }
  }

  /** A declaration that cannot be verified always comes with an undecided row for its own test. */
  lemma UnverifiedComesWithUnknownRow(v: Verdict, input: ReconcileInput, p: ExemptionProblem)
    requires IsVerdictOf(v, input) && p in v.unverifiedExemptions
    ensures exists r <- v.unknown :: r.relativePath == p.exemption.spec && r.title == p.exemption.title
  {
    ProblemsMembers(input, input.exemptions, true);
    var e := p.exemption;
    FoundIsDeclared(input.tests, e.spec, e.title);
    var test := FindDeclared(input.tests, e.spec, e.title).value;
    DecidedRowIsListed(input, test);
    FilterMembers(AllRows(input), (r: ReconcileRow) => r.state == Undecided);
    assert Decide(input, test).value in v.unknown;
  }

  lemma UnverifiedClauseIsRedundant(v: Verdict, input: ReconcileInput)
    requires IsVerdictOf(v, input)
    ensures HasFindings(v) <==> v.orphaned != [] || v.unknown != [] || v.staleExemptions != []
  {
    if v.unverifiedExemptions != [] {
      UnverifiedComesWithUnknownRow(v, input, v.unverifiedExemptions[0]);
    }
  }

  /* ---- the pipeline: parse, walk, reconcile ---- */

  /** The titles to walk, by spec. */
  method TitlesBySpec(candidates: seq<DeclaredTest>) returns (bySpec: map<string, seq<string>>)
    ensures forall c <- candidates :: c.relativePath in bySpec && c.title in bySpec[c.relativePath]
    ensures forall s <- bySpec, t | t in bySpec[s] :: exists c <- candidates :: c.relativePath == s && c.title == t
    ensures forall s <- bySpec :: exists c <- candidates :: c.relativePath == s
  {
    bySpec := map[];
    for i := 0 to |candidates|
      invariant forall c <- candidates[..i] :: c.relativePath in bySpec && c.title in bySpec[c.relativePath]
      invariant forall s <- bySpec, t | t in bySpec[s] :: exists c <- candidates :: c.relativePath == s && c.title == t
      invariant forall s <- bySpec :: exists c <- candidates :: c.relativePath == s
    {
      var c := candidates[i];
      assert candidates[..i + 1] == candidates[..i] + [c];
      var list := if c.relativePath in bySpec then bySpec[c.relativePath] else [];
      bySpec := bySpec[c.relativePath := list + [c.title]];
    }
    TakeAll(candidates);
  }

  /** Group the candidates by spec and walk each spec once. */
  method DateRemovals(tests: seq<DeclaredTest>, deps: WalkDeps) returns (history: map<string, HistoryVerdict>)
    requires forall t <- tests :: '\0' !in t.relativePath
    ensures history.Keys == set t <- SelectCandidates(tests) :: KeyOf(t)
    ensures forall t <- SelectCandidates(tests) :: history[KeyOf(t)] == VerdictOf(t.relativePath, t.title, deps)
  {
    FilterMembers(tests, IsCandidate);
    var bySpec := TitlesBySpec(SelectCandidates(tests));
    history := WalkEach(bySpec, deps);
  }

  method WalkEach(bySpec: map<string, seq<string>>, deps: WalkDeps) returns (history: map<string, HistoryVerdict>)
    requires forall s <- bySpec :: '\0' !in s
    ensures history.Keys == set s, t | s in bySpec && t in bySpec[s] :: HistoryKey(s, t)
    ensures forall s, t | s in bySpec && t in bySpec[s] :: history[HistoryKey(s, t)] == VerdictOf(s, t, deps)
  {
    history := map[];
    var todo := bySpec.Keys;
    while todo != {}
      invariant todo <= bySpec.Keys
      invariant history.Keys == set s, t | s in bySpec && s !in todo && t in bySpec[s] :: HistoryKey(s, t)
      invariant forall s, t | s in bySpec && s !in todo && t in bySpec[s] ::
                  HistoryKey(s, t) in history && history[HistoryKey(s, t)] == VerdictOf(s, t, deps)
    {
      var spec :| spec in todo;
      var walked := WalkSpec(spec, bySpec[spec], deps);
      MergeKeepsOtherSpecs(spec, bySpec, todo, history, walked);
      history := history + walked;
      todo := todo - {spec};
    }
  }

  lemma MergeKeepsOtherSpecs(spec: string, bySpec: map<string, seq<string>>, todo: set<string>,
                             history: map<string, HistoryVerdict>, walked: map<string, HistoryVerdict>)
    requires spec in todo && todo <= bySpec.Keys && forall s <- bySpec :: '\0' !in s
    requires walked.Keys == set t <- bySpec[spec] :: HistoryKey(spec, t)
    requires history.Keys == set s, t | s in bySpec && s !in todo && t in bySpec[s] :: HistoryKey(s, t)
    ensures forall s, t | s in bySpec && s !in todo && t in bySpec[s] :: HistoryKey(s, t) !in walked
    ensures (history + walked).Keys ==
            set s, t | s in bySpec && s !in todo - {spec} && t in bySpec[s] :: HistoryKey(s, t)
  {
    forall s, t | s in bySpec && s !in todo && t in bySpec[s] ensures HistoryKey(s, t) !in walked {
      forall u <- bySpec[spec] ensures HistoryKey(spec, u) != HistoryKey(s, t) {
        if HistoryKey(spec, u) == HistoryKey(s, t) {
          HistoryKeyInjective(spec, u, s, t);
        }
      }
    }
  }

  /**
   * No removal is silently lost, end to end, from the first declaration with its title. If a
   * test is now out of the daily, the first declaration with its title carried the tag at
   * some revision, and the title is declared in every newer one, then whatever part of the
   * history git shows (shallow when it is not all), whatever blobs it can read and whatever
   * the cap, the report lists a row for it and never counts it as a test that never had the tag.
   */
  lemma LostRemovalIsAlwaysListed(input: ReconcileInput, test: DeclaredTest, deps: WalkDeps,
      complete: seq<Revision>, contents: map<string, string>, at: nat)
    requires test in input.tests && IsCandidate(test)
    requires LostTheTag(test.relativePath, test.title, complete, contents, deps.parse, at)
    requires forall shas: seq<string>, b: string :: b in deps.readBlobs(shas) ==> b in contents && deps.readBlobs(shas)[b] == contents[b]
    requires var log := deps.revisionsOf(REGRESSION_PREFIX + test.relativePath);
             log.Ok? ==> log.value <= complete && (log.value != complete ==> deps.shallow)
    requires KeyOf(test) in input.history && input.history[KeyOf(test)] == VerdictOf(test.relativePath, test.title, deps)
    ensures exists r <- AllRows(input) :: r.relativePath == test.relativePath && r.title == test.title
  {
    var log := deps.revisionsOf(REGRESSION_PREFIX + test.relativePath);
    if log.Ok? && log.value != [] {
      var n := |log.value|;
      assert complete[..n] == log.value;
      assert n < |complete| ==> log.value != complete;
      NoRemovalReadsAsNever(test.relativePath, test.title, complete, contents, deps.parse, at, n,
                            deps.readBlobs(BlobsOf(Take(log.value, deps.maxRevisions))), deps.maxRevisions, deps.shallow);
    }
    DecidedIsListed(input, test);
  }

  /** A candidate the decision table does not pass over has a row. */
  lemma DecidedIsListed(input: ReconcileInput, test: DeclaredTest)
    requires test in input.tests && IsCandidate(test) && Decide(input, test).Some?
    ensures exists r <- AllRows(input) :: r.relativePath == test.relativePath && r.title == test.title
  {
    DecidedRowIsListed(input, test);
    assert Decide(input, test).value in AllRows(input);
  }

  /** A tag carried by the only declaration of its title is never lost that way. */
  lemma UniqueTitlesAreAlwaysListed(input: ReconcileInput, test: DeclaredTest, deps: WalkDeps,
      complete: seq<Revision>, contents: map<string, string>, at: nat)
    requires test in input.tests && IsCandidate(test)
    requires LostSomewhere(test.relativePath, test.title, complete, contents, deps.parse, at)
    requires DeclaredOnce(ReadingsOf(test.relativePath, complete, contents, deps.parse)[at].declared.value, test.title)
    requires forall shas: seq<string>, b: string :: b in deps.readBlobs(shas) ==> b in contents && deps.readBlobs(shas)[b] == contents[b]
    requires var log := deps.revisionsOf(REGRESSION_PREFIX + test.relativePath);
             log.Ok? ==> log.value <= complete && (log.value != complete ==> deps.shallow)
    requires KeyOf(test) in input.history && input.history[KeyOf(test)] == VerdictOf(test.relativePath, test.title, deps)
    ensures exists r <- AllRows(input) :: r.relativePath == test.relativePath && r.title == test.title
  {
    DeclaredOnceLostTheTag(test.relativePath, test.title, complete, contents, deps.parse, at);
    LostRemovalIsAlwaysListed(input, test, deps, complete, contents, at);
  }

  /** The walk sees the whole history of a spec, and reads every blob of it. */
  ghost predicate WalksWhole(path: string, deps: WalkDeps, revs: seq<Revision>)
  {
    && deps.revisionsOf(REGRESSION_PREFIX + path) == Ok(revs) && revs != []
    && |revs| <= deps.maxRevisions && !deps.shallow
    && forall r <- revs :: r.blob in deps.readBlobs(BlobsOf(revs))
  }

  /**
   * When the walk sees everything, a title has a row exactly when some revision tags the first
   * declaration with it and no newer one lacks the title. A tag that only a later declaration
   * of the title carried does not count.
   */
  lemma ListedIffFirstDeclarationTagged(input: ReconcileInput, test: DeclaredTest, deps: WalkDeps, revs: seq<Revision>)
    requires test in input.tests && IsCandidate(test) && WalksWhole(test.relativePath, deps, revs)
    requires forall t <- input.tests :: t.relativePath == test.relativePath && t.title == test.title ==> !t.unparseableTags
    requires KeyOf(test) in input.history && input.history[KeyOf(test)] == VerdictOf(test.relativePath, test.title, deps)
    ensures (exists r <- AllRows(input) :: r.relativePath == test.relativePath && r.title == test.title)
       <==> exists k :: FirstTaggedAt(ReadingsOf(test.relativePath, revs, deps.readBlobs(BlobsOf(revs)), deps.parse), k, test.title)
  {
    var rs := ReadingsOf(test.relativePath, revs, deps.readBlobs(BlobsOf(revs)), deps.parse);
    assert Take(revs, deps.maxRevisions) == revs;
    assert VerdictOf(test.relativePath, test.title, deps) == SoloFrom(rs, 0, Never, test.title);
    NeverIffNoFirstTag(rs, test.title);
    ListedIffDecided(input, test);
  }

  lemma ListedIffDecided(input: ReconcileInput, test: DeclaredTest)
    requires test in input.tests && IsCandidate(test) && KeyOf(test) in input.history
    requires forall t <- input.tests :: t.relativePath == test.relativePath && t.title == test.title ==> !t.unparseableTags
    ensures (exists r <- AllRows(input) :: r.relativePath == test.relativePath && r.title == test.title)
       <==> input.history[KeyOf(test)] != Never
  {
    if input.history[KeyOf(test)] != Never {
      DecidedIsListed(input, test);
    }
    forall r <- AllRows(input) | r.relativePath == test.relativePath && r.title == test.title
      ensures input.history[KeyOf(test)] != Never
    {
      var t := ListedWasDecided(input, r);
      assert KeyOf(t) == KeyOf(test);
    }
  }

  lemma ListedWasDecided(input: ReconcileInput, r: ReconcileRow) returns (t: DeclaredTest)
    requires r in AllRows(input)
    ensures t in input.tests && Decide(input, t) == Some(r)
  {
    FilterMembers(input.tests, IsCandidate);
    RowsFromMembers(input, SelectCandidates(input.tests));
    t :| t in SelectCandidates(input.tests) && Decide(input, t) == Some(r);
  }

  /**
   * Two tests of one file share a title, and the second one loses the tag: the walk reads the
   * first declaration, answers `never`, and the removal is counted as a test that never had it.
   */
  lemma SecondDeclarationIsLost(input: ReconcileInput, second: DeclaredTest, deps: WalkDeps, newer: Revision, older: Revision,
      plain: DeclaredTest, tagged: DeclaredTest)
    requires !second.unparseableTags && plain.title == tagged.title == second.title && !plain.stable && tagged.stable
    requires WalksWhole(second.relativePath, deps, [newer, older])
    requires var blobs := deps.readBlobs(BlobsOf([newer, older]));
             && (newer.blob in blobs ==> deps.parse(second.relativePath, blobs[newer.blob]) == [plain, plain])
             && (older.blob in blobs ==> deps.parse(second.relativePath, blobs[older.blob]) == [plain, tagged])
    requires KeyOf(second) in input.history && input.history[KeyOf(second)] == VerdictOf(second.relativePath, second.title, deps)
    ensures LostSomewhere(second.relativePath, second.title, [newer, older], deps.readBlobs(BlobsOf([newer, older])), deps.parse, 1)
    ensures VerdictOf(second.relativePath, second.title, deps) == Never && Decide(input, second) == None
  {
    var revs := [newer, older];
    var blobs := deps.readBlobs(BlobsOf(revs));
    var rs := ReadingsOf(second.relativePath, revs, blobs, deps.parse);
    assert newer in revs && older in revs;
    assert rs[0].declared == Some([plain, plain]) && rs[1].declared == Some([plain, tagged]);
    assert plain in [plain, plain] && tagged in [plain, tagged];
    assert Take(revs, deps.maxRevisions) == revs;
    assert Sight(rs[0], second.title) == Untagged && Sight(rs[1], second.title) == Untagged;
    assert SoloFrom(rs, 2, Never, second.title) == Never;
    assert SoloFrom(rs, 1, Never, second.title) == Never;
  }
}
