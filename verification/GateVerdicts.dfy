/** What the gate verdict says of each spec, over the tests that declare it and the sources that justify it. */
module GateVerdicts {
  import opened Texts
  import opened Sequences
  import opened Declarations
  import opened References
  import opened GateJustifications
  import opened GateLaws

  /* ---- candidates ---- */

  /** A spec that must explain itself: declared, nothing stable in it, and some test that no lane gates. */
  predicate MustExplain(tests: seq<DeclaredTest>, spec: string)
  {
    && (forall t <- tests | t.relativePath == spec :: !t.stable)
    && exists t <- tests :: t.relativePath == spec && !LaneGated(t)
  }

  lemma GroupIff(tests: seq<DeclaredTest>, spec: string)
    ensures NeedsReason(Having(tests, PathOf, spec)) <==> MustExplain(tests, spec)
  {
    FilterMembers(tests, HasKey(PathOf, spec));
    forall t ensures t in Having(tests, PathOf, spec) <==> t in tests && t.relativePath == spec {
      assert HasKey(PathOf, spec)(t) <==> PathOf(t) == spec;
    }
  }

  lemma PathIsKey(tests: seq<DeclaredTest>, spec: string)
    ensures spec in KeysOf(tests, PathOf) <==> exists t <- tests :: t.relativePath == spec
  {
    DedupMembers(MapSeq(tests, PathOf));
    if t :| t in tests && t.relativePath == spec {
      var i :| 0 <= i < |tests| && tests[i] == t;
      assert MapSeq(tests, PathOf)[i] == spec;
    }
  }

  lemma CandidateIff(tests: seq<DeclaredTest>, spec: string)
    ensures spec in CandidateSpecs(tests) <==> MustExplain(tests, spec)
  {
    var keys := KeysOf(tests, PathOf);
    TextOrder();
    StableSortProperties(Filter(keys, Needing(tests)), TextLe);
    FilterMembers(keys, Needing(tests));
    PathIsKey(tests, spec);
    GroupIff(tests, spec);
  }

  /* ---- what the sources cite ---- */

  /** Some one source of the spec's justification cites the reference. */
  predicate SourceCites(input: GateInput, spec: string, r: CitedRef)
  {
    spec in input.justifications && exists s <- input.justifications[spec].sources :: r in ExtractRefs(s.text)
  }

  /** What a spec cites is what its sources cite, each read on its own. */
  lemma CitedIff(input: GateInput, spec: string, r: CitedRef)
    ensures r in CitedBy(input, spec) <==> SourceCites(input, spec, r)
  {
    var sources := JustificationFor(input, spec).sources;
    var texts := MapSeq(sources, (s: JustificationSource) => s.text);
    JoinCitesIff(texts, r);
    if s :| s in sources && r in ExtractRefs(s.text) {
      var i :| 0 <= i < |sources| && sources[i] == s;
      assert texts[i] in texts;
    }
    if t :| t in texts && r in ExtractRefs(t) {
      var i :| 0 <= i < |texts| && texts[i] == t;
      assert sources[i] in sources;
    }
  }

  /* ---- the bucket of each spec ---- */

  predicate WasRead(input: GateInput, spec: string)
  {
    spec in input.justifications && input.justifications[spec].readError.Some? ==> input.justifications[spec].readError.value == ""
  }

  predicate LookupAnswered(input: GateInput)
  {
    input.lookupError.Some? ==> input.lookupError.value == ""
  }

  predicate HasDeclaration(input: GateInput, spec: string)
  {
    exists d <- input.declarations :: d.spec == spec
  }

  /** No usable state was produced for the reference. */
  predicate Unsettled(input: GateInput, r: CitedRef)
  {
    RefKey(r) in input.refStates ==> input.refStates[RefKey(r)].Unresolved?
  }

  predicate IsOpen(input: GateInput, r: CitedRef)
  {
    RefKey(r) in input.refStates && input.refStates[RefKey(r)] == OpenRef
  }

  ghost predicate CitesSome(input: GateInput, spec: string)
  {
    exists r :: SourceCites(input, spec, r)
  }

  ghost predicate CitesUnsettled(input: GateInput, spec: string)
  {
    exists r :: SourceCites(input, spec, r) && Unsettled(input, r)
  }

  ghost predicate CitesOpen(input: GateInput, spec: string)
  {
    exists r :: SourceCites(input, spec, r) && IsOpen(input, r)
  }

  /** The bucket a spec belongs on, by its sources, the states of what they cite, and the declarations. */
  ghost predicate BelongsOn(input: GateInput, spec: string, state: GateState)
  {
    if !WasRead(input, spec) then state == Undecided
    else if !CitesSome(input, spec) then false
    else if !LookupAnswered(input) || CitesUnsettled(input, spec) then state == Undecided
    else if CitesOpen(input, spec) then state == Live
    else state == if HasDeclaration(input, spec) then Declared else Expired
  }

  lemma {:induction false} DeclarationIff(declarations: seq<GateDecl>, spec: string)
    ensures var found := DeclarationFor(declarations, spec);
            if found.Some? then exists i | 0 <= i < |declarations| :: LastFor(declarations, spec, found.value, i)
            else forall d <- declarations :: d.spec != spec
  {
    if declarations != [] {
      var n := |declarations| - 1;
      DeclarationIff(declarations[..n], spec);
      assert declarations == declarations[..n] + [declarations[n]];
      if declarations[n].spec == spec {
        assert LastFor(declarations, spec, declarations[n], n);
      } else if DeclarationFor(declarations, spec).Some? {
        var i :| 0 <= i < n && LastFor(declarations[..n], spec, DeclarationFor(declarations, spec).value, i);
        assert LastFor(declarations, spec, DeclarationFor(declarations, spec).value, i);
      }
    }
  }

  /** The declaration at `i` is the last one for its spec. */
  ghost predicate LastFor(declarations: seq<GateDecl>, spec: string, d: GateDecl, i: int)
  {
    && 0 <= i < |declarations| && declarations[i] == d && d.spec == spec
    && forall j | i < j < |declarations| :: declarations[j].spec != spec
  }

  lemma DeclaredIff(input: GateInput, spec: string)
    ensures DeclarationFor(input.declarations, spec).Some? <==> HasDeclaration(input, spec)
  {
    DeclarationIff(input.declarations, spec);
  }

  lemma ResolveMembers(refStates: map<string, RefState>, refs: seq<CitedRef>)
    ensures forall r <- refs :: ResolvedRef(r, StateFor(refStates, r)) in Resolve(refStates, refs)
    ensures forall x <- Resolve(refStates, refs) :: x.ref in refs && x.state == StateFor(refStates, x.ref)
  {
    var resolved := Resolve(refStates, refs);
    forall r <- refs ensures ResolvedRef(r, StateFor(refStates, r)) in resolved {
      var i :| 0 <= i < |refs| && refs[i] == r;
      assert resolved[i] == ResolvedRef(r, StateFor(refStates, r));
    }
    forall x <- resolved ensures x.ref in refs && x.state == StateFor(refStates, x.ref) {
      var i :| 0 <= i < |refs| && resolved[i] == x;
    }
  }

  lemma UnsettledIff(input: GateInput, spec: string)
    ensures (exists r <- Resolve(input.refStates, CitedBy(input, spec)) :: IsUnresolved(r)) <==> CitesUnsettled(input, spec)
  {
    var resolved := Resolve(input.refStates, CitedBy(input, spec));
    ResolveMembers(input.refStates, CitedBy(input, spec));
    if r :| SourceCites(input, spec, r) && Unsettled(input, r) {
      CitedIff(input, spec, r);
      assert IsUnresolved(ResolvedRef(r, StateFor(input.refStates, r)));
    }
    if x :| x in resolved && IsUnresolved(x) {
      CitedIff(input, spec, x.ref);
      assert SourceCites(input, spec, x.ref) && Unsettled(input, x.ref);
    }
  }

  lemma OpenIff(input: GateInput, spec: string)
    ensures (exists r <- Resolve(input.refStates, CitedBy(input, spec)) :: r.state == OpenRef) <==> CitesOpen(input, spec)
  {
    var resolved := Resolve(input.refStates, CitedBy(input, spec));
    ResolveMembers(input.refStates, CitedBy(input, spec));
    if r :| SourceCites(input, spec, r) && IsOpen(input, r) {
      CitedIff(input, spec, r);
      assert ResolvedRef(r, StateFor(input.refStates, r)).state == OpenRef;
    }
    if x :| x in resolved && x.state == OpenRef {
      CitedIff(input, spec, x.ref);
      assert SourceCites(input, spec, x.ref) && IsOpen(input, x.ref);
    }
  }

  lemma SomeCited(input: GateInput, spec: string)
    ensures CitedBy(input, spec) == [] <==> !CitesSome(input, spec)
  {
    var refs := CitedBy(input, spec);
    if refs != [] {
      CitedIff(input, spec, refs[0]);
      assert refs[0] in refs;
    }
    if r :| SourceCites(input, spec, r) {
      CitedIff(input, spec, r);
    }
  }

  lemma SettleIs(resolved: seq<ResolvedRef>, isDeclared: bool, unsettled: bool, open: bool)
    requires (exists r <- resolved :: IsUnresolved(r)) <==> unsettled
    requires (exists r <- resolved :: r.state == OpenRef) <==> open
    ensures Settle(resolved, isDeclared)
            == if unsettled then Undecided else if open then Live else if isDeclared then Declared else Expired
  {
  }

  lemma DecisionIff(input: GateInput, spec: string, state: GateState)
    ensures (Decide(input, spec).Some? && Decide(input, spec).value.state == state) <==> BelongsOn(input, spec, state)
    ensures Decide(input, spec).Some? ==> Decide(input, spec).value.spec == spec
  {
    SomeCited(input, spec);
    if WasRead(input, spec) && CitesSome(input, spec) && LookupAnswered(input) {
      UnsettledIff(input, spec);
      OpenIff(input, spec);
      DeclaredIff(input, spec);
      SettleIs(Resolve(input.refStates, CitedBy(input, spec)), HasDeclaration(input, spec), CitesUnsettled(input, spec),
               CitesOpen(input, spec));
    }
  }

  function BucketOf(v: GateVerdict, state: GateState): seq<GateRow>
  {
    match state case Expired => v.expired case Undecided => v.unknown case Live => v.live case Declared => v.declared
  }

  lemma BucketIs(v: GateVerdict, input: GateInput, state: GateState)
    requires IsVerdictOf(v, input)
    ensures BucketOf(v, state) == Bucket(AllRows(input), state)
  {
  }

  lemma InStateIff(rows: seq<GateRow>, row: GateRow, state: GateState)
    ensures row in Bucket(rows, state) <==> row in rows && row.state == state
  {
    FilterMembers(rows, InState(state));
  }

  lemma RowInBucket(v: GateVerdict, input: GateInput, row: GateRow, state: GateState)
    requires IsVerdictOf(v, input)
    ensures row in BucketOf(v, state) <==> row in AllRows(input) && row.state == state
  {
    BucketIs(v, input, state);
    InStateIff(AllRows(input), row, state);
  }

  /**
   * The verdict, bucket by bucket: a spec has a row on one exactly when it must explain itself
   * and its sources, each read on its own, put it there.
   */
  lemma SpecBucketIff(v: GateVerdict, input: GateInput, spec: string, state: GateState)
    requires IsVerdictOf(v, input)
    ensures (exists row <- BucketOf(v, state) :: row.spec == spec) <==> MustExplain(input.tests, spec) && BelongsOn(input, spec, state)
  {
    CandidateIff(input.tests, spec);
    DecisionIff(input, spec, state);
    if spec in CandidateSpecs(input.tests) && BelongsOn(input, spec, state) {
      RowIsThere(input, CandidateSpecs(input.tests), spec);
      RowInBucket(v, input, Decide(input, spec).value, state);
      assert Decide(input, spec).value in BucketOf(v, state);
    }
    forall row <- BucketOf(v, state) | row.spec == spec ensures spec in CandidateSpecs(input.tests) && BelongsOn(input, spec, state) {
      RowInBucket(v, input, row, state);
      RowsComeFromSpecs(input, CandidateSpecs(input.tests), row);
    }
  }

  /** One source that cites one open reference keeps its spec out of the expired bucket, whatever the others cite. */
  lemma OneOpenSourceIsEnough(v: GateVerdict, input: GateInput, spec: string, s: JustificationSource, r: CitedRef)
    requires IsVerdictOf(v, input) && spec in input.justifications && s in input.justifications[spec].sources
    requires r in ExtractRefs(s.text) && IsOpen(input, r)
    ensures forall row <- v.expired :: row.spec != spec
  {
    assert SourceCites(input, spec, r);
    SpecBucketIff(v, input, spec, Expired);
  }

  /* ---- what a row says ---- */

  /** Everything a row carries beside its state. */
  ghost predicate Reports(input: GateInput, row: GateRow)
  {
    && row.sources == (if row.spec in input.justifications then input.justifications[row.spec].sources else [])
    && row.trackedBy == (if row.spec in input.trackedSpecs then input.trackedSpecs[row.spec] else [])
    && (if HasDeclaration(input, row.spec)
        then exists i, d :: row.declaration == Some(d) && LastFor(input.declarations, row.spec, d, i)
        else row.declaration == None)
    && RefsAre(input, row) && ReasonIs(input, row)
  }

  /** The references of a row: none when a source could not be read, else each one cited, with its own state or the failed lookup's. */
  ghost predicate RefsAre(input: GateInput, row: GateRow)
  {
    if !WasRead(input, row.spec) then row.refs == []
    else
      && (forall r :: SourceCites(input, row.spec, r) <==> exists x <- row.refs :: x.ref == r)
      && forall x <- row.refs ::
           x.state == if !LookupAnswered(input) then Unresolved(LookupFailed, input.lookupError.value)
                      else if RefKey(x.ref) in input.refStates then input.refStates[RefKey(x.ref)]
                      else Unresolved(NoState, "no state was produced for this reference")
  }

  ghost predicate ReasonIs(input: GateInput, row: GateRow)
  {
    if row.state != Undecided then row.reason == None
    else if !WasRead(input, row.spec) then row.reason == Some(SourceUnreadable(input.justifications[row.spec].readError.value))
    else if !LookupAnswered(input) then row.reason == Some(AskingFailed(input.lookupError.value))
    else row.reason == Some(SomeUnresolved(Filter(row.refs, IsUnresolved)))
  }

  lemma MappedRefs(refs: seq<CitedRef>, f: CitedRef -> ResolvedRef)
    requires forall r :: f(r).ref == r
    ensures forall r :: r in refs <==> exists x <- MapSeq(refs, f) :: x.ref == r
    ensures forall x <- MapSeq(refs, f) :: x == f(x.ref)
  {
    var mapped := MapSeq(refs, f);
    forall r | r in refs ensures exists x <- mapped :: x.ref == r {
      var i :| 0 <= i < |refs| && refs[i] == r;
      assert mapped[i] in mapped;
    }
    forall x <- mapped ensures x == f(x.ref) && x.ref in refs {
      var i :| 0 <= i < |mapped| && mapped[i] == x;
    }
  }

  lemma RefsReported(input: GateInput, spec: string, row: GateRow)
    requires Decide(input, spec) == Some(row)
    ensures RefsAre(input, row)
  {
    var refs := CitedBy(input, spec);
    forall r ensures r in refs <==> SourceCites(input, spec, r) { CitedIff(input, spec, r); }
    if WasRead(input, spec) {
      if LookupAnswered(input) {
        MappedRefs(refs, (r: CitedRef) => ResolvedRef(r, StateFor(input.refStates, r)));
      } else {
        MappedRefs(refs, (r: CitedRef) => ResolvedRef(r, Unresolved(LookupFailed, input.lookupError.value)));
      }
    }
  }

  lemma RowReports(input: GateInput, spec: string, row: GateRow)
    requires Decide(input, spec) == Some(row)
    ensures row.spec == spec && Reports(input, row)
  {
    RefsReported(input, spec, row);
    DeclarationIff(input.declarations, spec);
    if HasDeclaration(input, spec) {
      var d := DeclarationFor(input.declarations, spec).value;
      var i :| 0 <= i < |input.declarations| && LastFor(input.declarations, spec, d, i);
      assert row.declaration == Some(d) && LastFor(input.declarations, spec, d, i);
    }
  }

  /** Every row of the verdict stands on the bucket of its state and reports on its spec. */
  lemma RowsReport(v: GateVerdict, input: GateInput, state: GateState, row: GateRow)
    requires IsVerdictOf(v, input) && row in BucketOf(v, state)
    ensures row.state == state && Reports(input, row)
  {
    RowInBucket(v, input, row, state);
    RowsComeFromSpecs(input, CandidateSpecs(input.tests), row);
    RowReports(input, row.spec, row);
  }

  /* ---- the declarations, judged ---- */

  /** The declared reference is cited by no source. */
  predicate NoLonger(input: GateInput, spec: string, raw: string)
  {
    forall s <- SourcesOf(input, spec) :: forall r <- ExtractRefs(s.text) :: RefKey(r) != NormalizeDeclRef(raw)
  }

  function SourcesOf(input: GateInput, spec: string): seq<JustificationSource>
  {
    if spec in input.justifications then input.justifications[spec].sources else []
  }

  /** What is wrong with a declaration, in the order it is asked. */
  ghost predicate FaultIs(input: GateInput, d: GateDecl, fault: Option<DeclFault>)
  {
    if forall t <- input.tests :: t.relativePath != d.spec then fault == Some(NoSuchSpec)
    else if !MustExplain(input.tests, d.spec) then fault == Some(NothingToExplain)
    else if !WasRead(input, d.spec) || forall raw <- d.refs :: !NoLonger(input, d.spec, raw) then fault == None
    else
      && fault.Some? && fault.value.NoLongerCites?
      && forall raw :: raw in fault.value.refs <==> raw in d.refs && NoLonger(input, d.spec, raw)
  }

  lemma NotCitedIff(input: GateInput, spec: string, raw: string)
    ensures NotCited(set r <- CitedBy(input, spec) :: RefKey(r))(raw) <==> NoLonger(input, spec, raw)
  {
    forall r ensures r in CitedBy(input, spec) <==> SourceCites(input, spec, r) { CitedIff(input, spec, r); }
    var key := NormalizeDeclRef(raw);
    if !NoLonger(input, spec, raw) {
      var s :| s in SourcesOf(input, spec) && exists r <- ExtractRefs(s.text) :: RefKey(r) == key;
      var r :| r in ExtractRefs(s.text) && RefKey(r) == key;
      assert SourceCites(input, spec, r);
    }
  }

  /** The declared references that no source cites any more. */
  function NowUncited(input: GateInput, d: GateDecl): seq<string>
  {
    Filter(d.refs, NotCited(set r <- CitedBy(input, d.spec) :: RefKey(r)))
  }

  lemma GoneIff(input: GateInput, d: GateDecl)
    ensures forall raw :: raw in NowUncited(input, d) <==> raw in d.refs && NoLonger(input, d.spec, raw)
    ensures NowUncited(input, d) == [] <==> forall raw <- d.refs :: !NoLonger(input, d.spec, raw)
  {
    var gone := NowUncited(input, d);
    FilterMembers(d.refs, NotCited(set r <- CitedBy(input, d.spec) :: RefKey(r)));
    forall raw ensures raw in gone <==> raw in d.refs && NoLonger(input, d.spec, raw) { NotCitedIff(input, d.spec, raw); }
    if gone != [] { assert gone[0] in gone; }
  }

  lemma JudgeUnfolds(input: GateInput, d: GateDecl)
    ensures Judge(input, d)
            == if forall t <- input.tests :: t.relativePath != d.spec then Some(NoSuchSpec)
               else if d.spec !in CandidateSpecs(input.tests) then Some(NothingToExplain)
               else if !WasRead(input, d.spec) || NowUncited(input, d) == [] then None
               else Some(NoLongerCites(NowUncited(input, d)))
  {
  }

  lemma JudgeIs(input: GateInput, d: GateDecl)
    ensures FaultIs(input, d, Judge(input, d))
  {
    JudgeUnfolds(input, d);
    CandidateIff(input.tests, d.spec);
    GoneIff(input, d);
  }

  /** A declaration is listed with a fault exactly when that is its fault. */
  lemma DeclarationListedIff(v: GateVerdict, input: GateInput, d: GateDecl) returns (fault: Option<DeclFault>)
    requires IsVerdictOf(v, input) && d in input.declarations
    ensures FaultIs(input, d, fault)
    ensures forall f :: GateDeclProblem(d, f) in v.staleDeclarations <==> fault == Some(f)
  {
    fault := Judge(input, d);
    JudgeIs(input, d);
    forall f ensures GateDeclProblem(d, f) in v.staleDeclarations <==> fault == Some(f) {
      FilterMapMembers(input.declarations, ProblemOf(input), GateDeclProblem(d, f));
    }
  }
}
