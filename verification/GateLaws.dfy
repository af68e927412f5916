/** What the gate verdict promises: nothing dropped, nothing expired that might be open. */
module GateLaws {
  import opened Texts
  import opened Sequences
  import opened Declarations
  import opened References
  import opened GateJustifications

  /* ---- conservation ---- */

  function HasRefs(r: GateRow): bool
  {
    r.refs != []
  }

  lemma {:induction false} RowsSplit(rows: seq<GateRow>)
    ensures |rows| == |Bucket(rows, Expired)| + |Bucket(rows, Live)| + |Bucket(rows, Declared)| + |Bucket(rows, Undecided)|
  {
    if rows != [] {
      RowsSplit(rows[1..]);
    }
  }

  lemma ResolvedRefs(input: GateInput, spec: string)
    ensures var row := Decide(input, spec);
            && (Cites(input, spec) <==> row.Some? && HasRefs(row.value))
            && (row.Some? && !HasRefs(row.value) ==> row.value.state == Undecided)
            && (row.Some? ==> row.value.spec == spec)
            && (row.Some? && HasRefs(row.value) ==> |row.value.refs| == |CitedBy(input, spec)|)
  {
  }

  lemma {:induction false} CitingRows(input: GateInput, specs: seq<string>)
    ensures |Filter(specs, Citing(input))| == |Filter(FilterMap(specs, Decider(input)), HasRefs)|
  {
    if specs != [] {
      var n := |specs| - 1;
      CitingRows(input, specs[..n]);
      FilterSnoc(specs, n, Citing(input));
      FilterMapSnoc(specs, n, Decider(input));
      assert specs[..n + 1] == specs;
      ResolvedRefs(input, specs[n]);
      var rows, row := FilterMap(specs[..n], Decider(input)), Decide(input, specs[n]);
      if row.Some? { FilterAppend(rows, [row.value], HasRefs); }
    }
  }

  /** A row without references is undecided. */
  lemma {:induction false} RefRowsSplit(rows: seq<GateRow>)
    requires forall r <- rows :: !HasRefs(r) ==> r.state == Undecided
    ensures |Filter(rows, HasRefs)| == |Bucket(rows, Expired)| + |Bucket(rows, Live)| + |Bucket(rows, Declared)|
                                       + |Filter(Bucket(rows, Undecided), HasRefs)|
  {
    if rows != [] {
      assert rows[0] in rows && forall r <- rows[1..] :: r in rows;
      RefRowsSplit(rows[1..]);
      var rest := Bucket(rows[1..], Undecided);
      if InState(Undecided)(rows[0]) {
        assert ([rows[0]] + rest)[1..] == rest;
      }
    }
  }

  lemma {:induction false} RowsComeFromSpecs(input: GateInput, specs: seq<string>, row: GateRow)
    ensures row in FilterMap(specs, Decider(input)) <==> row.spec in specs && Decide(input, row.spec) == Some(row)
  {
    if specs != [] {
      var n := |specs| - 1;
      RowsComeFromSpecs(input, specs[..n], row);
      FilterMapSnoc(specs, n, Decider(input));
      assert specs[..n + 1] == specs && specs == specs[..n] + [specs[n]];
      ResolvedRefs(input, specs[n]);
    }
  }

  lemma RowsAreMarked(input: GateInput)
    ensures forall r <- AllRows(input) :: !HasRefs(r) ==> r.state == Undecided
  {
    forall r <- AllRows(input) ensures !HasRefs(r) ==> r.state == Undecided {
      RowsComeFromSpecs(input, CandidateSpecs(input.tests), r);
      ResolvedRefs(input, r.spec);
    }
  }

  /** Every spec that cites a reference is in exactly one bucket. */
  lemma CitationsAreConserved(v: GateVerdict, input: GateInput)
    requires IsVerdictOf(v, input)
    ensures v.withRefs == |v.expired| + |v.live| + |v.declared| + |Filter(v.unknown, HasRefs)|
    ensures |v.expired| + |v.live| + |v.declared| + |v.unknown| <= v.candidateSpecs
  {
    CitingRows(input, CandidateSpecs(input.tests));
    RowsAreMarked(input);
    RefRowsSplit(AllRows(input));
    RowsSplit(AllRows(input));
    FewerRows(input, CandidateSpecs(input.tests));
  }

  lemma {:induction false} FewerRows(input: GateInput, specs: seq<string>)
    ensures |FilterMap(specs, Decider(input))| <= |specs|
  {
    if specs != [] {
      FewerRows(input, specs[..|specs| - 1]);
    }
  }

  /* ---- the trackers are context ---- */

  function Retracked(input: GateInput, tracked: map<string, seq<TrackedBy>>): GateInput
  {
    input.(trackedSpecs := tracked)
  }

  /** A row with other trackers on it. */
  function WithTrackers(tracked: map<string, seq<TrackedBy>>): GateRow -> GateRow
  {
    (r: GateRow) => r.(trackedBy := if r.spec in tracked then tracked[r.spec] else [])
  }

  lemma RowWithRetracked(input: GateInput, tracked: map<string, seq<TrackedBy>>, spec: string, state: GateState,
                         refs: seq<ResolvedRef>, reason: Option<GateReason>)
    ensures RowWith(Retracked(input, tracked), spec, state, refs, reason)
            == WithTrackers(tracked)(RowWith(input, spec, state, refs, reason))
  {
  }

  lemma SettledRetracked(tracked: map<string, seq<TrackedBy>>, base: GateRow, resolved: seq<ResolvedRef>)
    ensures SettledRow(WithTrackers(tracked)(base), resolved) == WithTrackers(tracked)(SettledRow(base, resolved))
  {
  }

  lemma SameInputs(input: GateInput, tracked: map<string, seq<TrackedBy>>, spec: string)
    ensures CitedBy(Retracked(input, tracked), spec) == CitedBy(input, spec)
    ensures JustificationFor(Retracked(input, tracked), spec) == JustificationFor(input, spec)
  {
  }

  lemma DecideRetracked(input: GateInput, tracked: map<string, seq<TrackedBy>>, spec: string)
    ensures var row, other := Decide(input, spec), Decide(Retracked(input, tracked), spec);
            if row.None? then other.None? else other == Some(WithTrackers(tracked)(row.value))
  {
    var j, refs := JustificationFor(input, spec), CitedBy(input, spec);
    SameInputs(input, tracked, spec);
    if Truthy(j.readError) {
      RowWithRetracked(input, tracked, spec, Undecided, [], Some(SourceUnreadable(j.readError.value)));
    } else if refs != [] && Truthy(input.lookupError) {
      var e := input.lookupError.value;
      RowWithRetracked(input, tracked, spec, Undecided, AllFailed(refs, e), Some(AskingFailed(e)));
    } else if refs != [] {
      RowWithRetracked(input, tracked, spec, Undecided, [], None);
      SettledRetracked(tracked, RowWith(input, spec, Undecided, [], None), Resolve(input.refStates, refs));
    }
  }

  lemma {:induction false} RowsRetracked(input: GateInput, tracked: map<string, seq<TrackedBy>>, specs: seq<string>)
    ensures FilterMap(specs, Decider(Retracked(input, tracked)))
            == MapSeq(FilterMap(specs, Decider(input)), WithTrackers(tracked))
  {
    if specs != [] {
      var n := |specs| - 1;
      RowsRetracked(input, tracked, specs[..n]);
      DecideRetracked(input, tracked, specs[n]);
    }
  }

  lemma {:induction false} BucketMapped(rows: seq<GateRow>, f: GateRow -> GateRow, s: GateState)
    requires forall r :: f(r).state == r.state
    ensures Bucket(MapSeq(rows, f), s) == MapSeq(Bucket(rows, s), f)
  {
    if rows != [] {
      BucketMapped(rows[1..], f, s);
      assert MapSeq(rows, f)[1..] == MapSeq(rows[1..], f);
    }
  }

  /**
   * Which open issues name which spec decides nothing: with any other tracker index every
   * bucket holds the same rows, with only the trackers beside them replaced, and the
   * declarations and counters are the same.
   */
  lemma TrackersDecideNothing(v: GateVerdict, w: GateVerdict, input: GateInput, tracked: map<string, seq<TrackedBy>>)
    requires IsVerdictOf(v, input) && IsVerdictOf(w, Retracked(input, tracked))
    ensures w.expired == MapSeq(v.expired, WithTrackers(tracked)) && w.unknown == MapSeq(v.unknown, WithTrackers(tracked))
    ensures w.live == MapSeq(v.live, WithTrackers(tracked)) && w.declared == MapSeq(v.declared, WithTrackers(tracked))
    ensures w.staleDeclarations == v.staleDeclarations && w.withRefs == v.withRefs && w.refs == v.refs
    ensures HasGateFindings(w) <==> HasGateFindings(v)
  {
    var specs, other := CandidateSpecs(input.tests), Retracked(input, tracked);
    RowsRetracked(input, tracked, specs);
    forall s: GateState ensures Bucket(AllRows(other), s) == MapSeq(Bucket(AllRows(input), s), WithTrackers(tracked)) {
      BucketMapped(AllRows(input), WithTrackers(tracked), s);
    }
    SameCitations(input, tracked, specs);
    SameProblems(input, tracked, input.declarations);
  }

  lemma SameCitations(input: GateInput, tracked: map<string, seq<TrackedBy>>, specs: seq<string>)
    ensures Filter(specs, Citing(Retracked(input, tracked))) == Filter(specs, Citing(input))
    ensures CitedKeys(Retracked(input, tracked), specs) == CitedKeys(input, specs)
  {
    var other := Retracked(input, tracked);
    forall spec ensures Cites(other, spec) == Cites(input, spec) && CitedBy(other, spec) == CitedBy(input, spec) {
      assert JustificationFor(other, spec) == JustificationFor(input, spec);
    }
    FilterAgrees(specs, Citing(other), Citing(input));
  }

  lemma JudgeRetracked(input: GateInput, tracked: map<string, seq<TrackedBy>>, d: GateDecl)
    ensures Judge(Retracked(input, tracked), d) == Judge(input, d)
  {
    var other := Retracked(input, tracked);
    assert CitedBy(other, d.spec) == CitedBy(input, d.spec);
    assert JustificationFor(other, d.spec) == JustificationFor(input, d.spec);
    assert other.tests == input.tests;
  }

  lemma SameProblems(input: GateInput, tracked: map<string, seq<TrackedBy>>, ds: seq<GateDecl>)
    ensures FilterMap(ds, ProblemOf(Retracked(input, tracked))) == FilterMap(ds, ProblemOf(input))
  {
    forall i | 0 <= i < |ds| ensures ProblemOf(Retracked(input, tracked))(ds[i]) == ProblemOf(input)(ds[i]) {
      JudgeRetracked(input, tracked, ds[i]);
    }
    FilterMapAgrees(ds, ProblemOf(Retracked(input, tracked)), ProblemOf(input));
  }

  /* ---- nothing expires by mistake ---- */

  predicate Gone(s: RefState)
  {
    s == ClosedRef || s == MergedRef
  }

  lemma SettleMeaning(resolved: seq<ResolvedRef>, isDeclared: bool)
    ensures Settle(resolved, isDeclared) == Expired <==> !isDeclared && forall r <- resolved :: Gone(r.state)
    ensures Settle(resolved, isDeclared) == Live
            <==> (forall r <- resolved :: !r.state.Unresolved?) && exists r <- resolved :: r.state == OpenRef
    ensures Settle(resolved, isDeclared) == Declared <==> isDeclared && forall r <- resolved :: Gone(r.state)
  {
  }

  /** What it takes to call a justification expired. */
  predicate NothingLeft(input: GateInput, spec: string)
  {
    && Cites(input, spec) && !Truthy(input.lookupError) && DeclarationFor(input.declarations, spec).None?
    && forall r <- CitedBy(input, spec) :: RefKey(r) in input.refStates && Gone(input.refStates[RefKey(r)])
  }

  lemma StatesOfRefs(refStates: map<string, RefState>, refs: seq<CitedRef>, p: RefState -> bool)
    ensures (forall r <- Resolve(refStates, refs) :: p(r.state)) <==> forall r <- refs :: p(StateFor(refStates, r))
  {
    var resolved := Resolve(refStates, refs);
    if forall r <- resolved :: p(r.state) {
      forall r <- refs ensures p(StateFor(refStates, r)) {
        var i :| 0 <= i < |refs| && refs[i] == r;
        assert resolved[i] in resolved;
      }
    }
    if forall r <- refs :: p(StateFor(refStates, r)) {
      forall r <- resolved ensures p(r.state) {
        var i :| 0 <= i < |refs| && resolved[i] == r;
        assert refs[i] in refs;
      }
    }
  }

  /**
   * A candidate is expired exactly when its justification was read, cites something, the
   * lookup answered, and every single reference it cites is closed or merged, undeclared.
   */
  lemma ExpiredIff(v: GateVerdict, input: GateInput, spec: string)
    requires IsVerdictOf(v, input)
    ensures (exists row <- v.expired :: row.spec == spec) <==> spec in CandidateSpecs(input.tests) && NothingLeft(input, spec)
  {
    FilterMembers(AllRows(input), InState(Expired));
    ExpiredDecision(input, spec);
    var row := Decide(input, spec);
    if row.Some? {
      RowsComeFromSpecs(input, CandidateSpecs(input.tests), row.value);
      ResolvedRefs(input, spec);
    }
    forall r <- v.expired | r.spec == spec ensures row == Some(r) && spec in CandidateSpecs(input.tests) {
      RowsComeFromSpecs(input, CandidateSpecs(input.tests), r);
    }
  }

  lemma ExpiredDecision(input: GateInput, spec: string)
    ensures var row := Decide(input, spec); row.Some? && row.value.state == Expired <==> NothingLeft(input, spec)
  {
    var refs := CitedBy(input, spec);
    SettleMeaning(Resolve(input.refStates, refs), DeclarationFor(input.declarations, spec).Some?);
    StatesOfRefs(input.refStates, refs, Gone);
  }

  /** One reference still open, or not resolved, keeps a spec out of the expired bucket. */
  lemma OneOpenReferenceIsEnough(v: GateVerdict, input: GateInput, spec: string, r: CitedRef)
    requires IsVerdictOf(v, input) && r in CitedBy(input, spec)
    requires RefKey(r) in input.refStates ==> !Gone(input.refStates[RefKey(r)])
    ensures forall row <- v.expired :: row.spec != spec
  {
    ExpiredIff(v, input, spec);
  }

  /** A failed lookup decides nothing at all: no row is expired, live or declared. */
  lemma OutageDecidesNothing(v: GateVerdict, input: GateInput)
    requires IsVerdictOf(v, input) && Truthy(input.lookupError)
    ensures v.expired == [] && v.live == [] && v.declared == []
    ensures v.withRefs > 0 ==> HasGateFindings(v)
  {
    forall r <- AllRows(input) ensures r.state == Undecided {
      RowsComeFromSpecs(input, CandidateSpecs(input.tests), r);
    }
    forall s: GateState | s != Undecided ensures Bucket(AllRows(input), s) == [] {
      FilterNone(AllRows(input), InState(s));
    }
    CitationsAreConserved(v, input);
  }

  /** The states asked for are those of what the candidates cite. */
  ghost predicate AsksWhatIsCited(input: GateInput)
  {
    forall key <- input.refStates ::
      exists spec, r :: spec in CandidateSpecs(input.tests) && r in CitedBy(input, spec) && RefKey(r) == key
  }

  lemma UnresolvedCitation(input: GateInput, spec: string, r: CitedRef)
    requires r in CitedBy(input, spec) && RefKey(r) in input.refStates && input.refStates[RefKey(r)].Unresolved?
    ensures Decide(input, spec).Some? && Decide(input, spec).value.state == Undecided
  {
    var refs := CitedBy(input, spec);
    var i :| 0 <= i < |refs| && refs[i] == r;
    assert Resolve(input.refStates, refs)[i] == ResolvedRef(r, StateFor(input.refStates, r));
    assert IsUnresolved(Resolve(input.refStates, refs)[i]);
  }

  lemma {:induction false} RowIsThere(input: GateInput, specs: seq<string>, spec: string)
    requires spec in specs && Decide(input, spec).Some?
    ensures Decide(input, spec).value in FilterMap(specs, Decider(input))
  {
    var n := |specs| - 1;
    assert specs == specs[..n] + [specs[n]];
    if spec != specs[n] {
      RowIsThere(input, specs[..n], spec);
    }
  }

  lemma CitationOf(input: GateInput, key: string) returns (spec: string, r: CitedRef)
    requires AsksWhatIsCited(input) && key in input.refStates
    ensures spec in CandidateSpecs(input.tests) && r in CitedBy(input, spec) && RefKey(r) == key
  {
    spec, r :| spec in CandidateSpecs(input.tests) && r in CitedBy(input, spec) && RefKey(r) == key;
  }

  /** A reference that could not be asked about is always a finding of its own. */
  lemma FailedReferenceIsAFinding(v: GateVerdict, input: GateInput)
    requires IsVerdictOf(v, input) && AsksWhatIsCited(input) && HadLookupFailure(input.refStates)
    ensures HasGateFindings(v)
  {
    var key :| key in input.refStates && input.refStates[key].Unresolved? && input.refStates[key].cause == LookupFailed;
    var spec, r := CitationOf(input, key);
    UnresolvedCitation(input, spec, r);
    RowIsThere(input, CandidateSpecs(input.tests), spec);
    UndecidedIsFinding(v, input, Decide(input, spec).value);
  }

  lemma UndecidedIsFinding(v: GateVerdict, input: GateInput, row: GateRow)
    requires IsVerdictOf(v, input) && row in AllRows(input) && row.state == Undecided
    ensures HasGateFindings(v)
  {
    FilterMembers(AllRows(input), InState(Undecided));
    assert row in Bucket(AllRows(input), Undecided);
  }

  /* ---- the declarations ---- */

  /**
   * A declaration is honoured in silence exactly when its spec still needs a reason and either
   * its justification could not be read or every declared reference is still cited.
   */
  lemma SilentDeclarationIff(input: GateInput, d: GateDecl)
    ensures ProblemOf(input)(d).None?
            <==> d.spec in CandidateSpecs(input.tests)
                 && (Truthy(JustificationFor(input, d.spec).readError)
                     || forall raw <- d.refs :: exists r <- CitedBy(input, d.spec) :: NormalizeDeclRef(raw) == RefKey(r))
  {
    AllCitedIff(d.refs, CitedBy(input, d.spec));
    CandidatesAreDeclared(input.tests, d.spec);
    JudgedSilent(input, d, d.spec in CandidateSpecs(input.tests), AllCited(d.refs, CitedBy(input, d.spec)));
  }

  function KeysFor(refs: seq<CitedRef>): set<string>
  {
    set r <- refs :: RefKey(r)
  }

  predicate AllCited(raws: seq<string>, refs: seq<CitedRef>)
  {
    Filter(raws, NotCited(KeysFor(refs))) == []
  }

  lemma AllCitedIff(raws: seq<string>, refs: seq<CitedRef>)
    ensures AllCited(raws, refs) <==> forall raw <- raws :: exists r <- refs :: NormalizeDeclRef(raw) == RefKey(r)
  {
    var gone := Filter(raws, NotCited(KeysFor(refs)));
    FilterMembers(raws, NotCited(KeysFor(refs)));
    if gone != [] { assert gone[0] in gone; }
    forall raw <- raws ensures NormalizeDeclRef(raw) in KeysFor(refs) <==> exists r <- refs :: NormalizeDeclRef(raw) == RefKey(r) {}
  }

  lemma JudgedSilent(input: GateInput, d: GateDecl, candidate: bool, cited: bool)
    requires candidate == (d.spec in CandidateSpecs(input.tests)) && cited == AllCited(d.refs, CitedBy(input, d.spec))
    requires candidate ==> exists t <- input.tests :: t.relativePath == d.spec
    ensures Judge(input, d).None? <==> candidate && (Truthy(JustificationFor(input, d.spec).readError) || cited)
  {
    assert KeysFor(CitedBy(input, d.spec)) == set r <- CitedBy(input, d.spec) :: RefKey(r);
  }

  lemma CandidatesAreDeclared(tests: seq<DeclaredTest>, spec: string)
    ensures spec in CandidateSpecs(tests) ==> exists t <- tests :: t.relativePath == spec
  {
    TextOrder();
    StableSortProperties(Filter(KeysOf(tests, PathOf), Needing(tests)), TextLe);
    FilterMembers(KeysOf(tests, PathOf), Needing(tests));
    DedupMembers(MapSeq(tests, PathOf));
    if spec in CandidateSpecs(tests) {
      assert spec in MapSeq(tests, PathOf);
      var i :| 0 <= i < |tests| && MapSeq(tests, PathOf)[i] == spec;
      assert tests[i] in tests;
    }
  }

  /** A declaration written as the labels of references its spec cites is never stale. */
  lemma CitedLabelsHold(input: GateInput, d: GateDecl, refs: seq<CitedRef>)
    requires d.spec in CandidateSpecs(input.tests) && d.refs == MapSeq(refs, RefLabel)
    requires forall r <- refs :: r in CitedBy(input, d.spec) && (r.number < 10000000 || r.repo == Self)
    ensures ProblemOf(input)(d).None?
  {
    forall raw <- d.refs ensures exists r <- CitedBy(input, d.spec) :: NormalizeDeclRef(raw) == RefKey(r) {
      var i :| 0 <= i < |refs| && d.refs[i] == raw;
      assert refs[i] in refs;
      DeclaredLabelIff(refs[i]);
    }
    SilentDeclarationIff(input, d);
  }
}
