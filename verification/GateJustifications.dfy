/** Whether the written reason for a spec's missing `@stable` still cites something open. */
module GateJustifications {
  import opened Texts
  import opened Sequences
  import opened Declarations
  import opened References

  /* ---- inputs ---- */

  datatype JustificationSource = JustificationSource(file: string, line: nat, text: string)

  datatype SpecJustification = SpecJustification(sources: seq<JustificationSource>, readError: Option<string>)

  datatype UnresolvedCause = LookupFailed | NotFound | NoState | BadState

  datatype RefState = OpenRef | ClosedRef | MergedRef | Unresolved(cause: UnresolvedCause, reason: string)

  datatype GateDecl = GateDecl(spec: string, refs: seq<string>, reason: string)

  datatype TrackedBy = TrackedBy(number: nat, url: string, repo: Option<string>)

  datatype GateInput = GateInput(
    tests: seq<DeclaredTest>,
    justifications: map<string, SpecJustification>,
    refStates: map<string, RefState>,
    trackedSpecs: map<string, seq<TrackedBy>>,
    declarations: seq<GateDecl>,
    lookupError: Option<string>)

  /* ---- verdict ---- */

  datatype GateState = Expired | Live | Declared | Undecided

  datatype ResolvedRef = ResolvedRef(ref: CitedRef, state: RefState)

  datatype GateReason = SourceUnreadable(error: string) | AskingFailed(error: string) | SomeUnresolved(refs: seq<ResolvedRef>)

  datatype GateRow = GateRow(
    spec: string, state: GateState, refs: seq<ResolvedRef>, sources: seq<JustificationSource>,
    trackedBy: seq<TrackedBy>, declaration: Option<GateDecl>, reason: Option<GateReason>)

  datatype DeclFault = NoSuchSpec | NothingToExplain | NoLongerCites(refs: seq<string>)

  datatype GateDeclProblem = GateDeclProblem(declaration: GateDecl, fault: DeclFault)

  datatype GateVerdict = GateVerdict(
    expired: seq<GateRow>, unknown: seq<GateRow>, live: seq<GateRow>, declared: seq<GateRow>,
    staleDeclarations: seq<GateDeclProblem>, candidateSpecs: nat, withRefs: nat, refs: nat)

  /* ---- candidates ---- */

  /** No test of the file carries `@stable`, and not every one is gated by a lane. */
  predicate NeedsReason(group: seq<DeclaredTest>)
  {
    (forall t <- group :: !t.stable) && exists t <- group :: !LaneGated(t)
  }

  function Needing(tests: seq<DeclaredTest>): string -> bool
  {
    (spec: string) => NeedsReason(Having(tests, PathOf, spec))
  }

  function CandidateSpecs(tests: seq<DeclaredTest>): seq<string>
  {
    StableSort(Filter(KeysOf(tests, PathOf), Needing(tests)), TextLe)
  }

  lemma NeedingIs(tests: seq<DeclaredTest>, spec: string)
    ensures Needing(tests)(spec) == NeedsReason(Having(tests, PathOf, spec))
  {
  }

  /** The two checks on the tests of one file. */
  method MustSay(group: seq<DeclaredTest>) returns (needs: bool)
    ensures needs == NeedsReason(group)
  {
    if exists t <- group :: t.stable { return false; }
    if forall t <- group :: LaneGated(t) { return false; }
    return true;
  }

  /** The specs whose group must be explained, in order. */
  method KeepNeeding(order: seq<string>, bySpec: map<string, seq<DeclaredTest>>, ghost needing: string -> bool)
    returns (out: seq<string>)
    requires forall spec <- order :: spec in bySpec && needing(spec) == NeedsReason(bySpec[spec])
    ensures out == Filter(order, needing)
  {
    out := [];
    for i := 0 to |order|
      invariant out == Filter(order[..i], needing)
    {
      FilterSnoc(order, i, needing);
      var needs := MustSay(bySpec[order[i]]);
      if needs { out := out + [order[i]]; }
    }
    assert order[..|order|] == order;
  }

  method SelectSpecs(tests: seq<DeclaredTest>) returns (specs: seq<string>)
    ensures specs == CandidateSpecs(tests)
  {
    var order, bySpec := GroupBy(tests, PathOf);
    forall spec <- order ensures spec in bySpec && Needing(tests)(spec) == NeedsReason(bySpec[spec]) {
      NeedingIs(tests, spec);
    }
    var out := KeepNeeding(order, bySpec, Needing(tests));
    specs := StableSort(out, TextLe);
  }

  /* ---- the decision for one spec ---- */

  function JustificationFor(input: GateInput, spec: string): SpecJustification
  {
    if spec in input.justifications then input.justifications[spec] else SpecJustification([], None)
  }

  /** Everything a spec's justification cites. */
  function CitedBy(input: GateInput, spec: string): seq<CitedRef>
  {
    ExtractRefs(Join(MapSeq(JustificationFor(input, spec).sources, (s: JustificationSource) => s.text), "\n"))
  }

  /** The declaration a map filled in order holds: the last one for the spec. */
  function DeclarationFor(declarations: seq<GateDecl>, spec: string): Option<GateDecl>
  {
    if declarations == [] then None
    else
      var n := |declarations| - 1;
      if declarations[n].spec == spec then Some(declarations[n]) else DeclarationFor(declarations[..n], spec)
  }

  function StateFor(refStates: map<string, RefState>, ref: CitedRef): RefState
  {
    if RefKey(ref) in refStates then refStates[RefKey(ref)]
    else Unresolved(NoState, "no state was produced for this reference")
  }

  function Resolve(refStates: map<string, RefState>, refs: seq<CitedRef>): seq<ResolvedRef>
  {
    MapSeq(refs, (r: CitedRef) => ResolvedRef(r, StateFor(refStates, r)))
  }

  predicate IsUnresolved(r: ResolvedRef)
  {
    r.state.Unresolved?
  }

  /** What the resolved references make of a spec, once every source was read and the lookup answered. */
  function Settle(resolved: seq<ResolvedRef>, isDeclared: bool): GateState
  {
    if exists r <- resolved :: IsUnresolved(r) then Undecided
    else if exists r <- resolved :: r.state == OpenRef then Live
    else if isDeclared then Declared
    else Expired
  }

  function RowWith(input: GateInput, spec: string, state: GateState, refs: seq<ResolvedRef>, reason: Option<GateReason>): GateRow
  {
    GateRow(spec, state, refs, JustificationFor(input, spec).sources,
            if spec in input.trackedSpecs then input.trackedSpecs[spec] else [],
            DeclarationFor(input.declarations, spec), reason)
  }

  /** The row of a spec whose references were all asked about. */
  function SettledRow(base: GateRow, resolved: seq<ResolvedRef>): GateRow
  {
    var state := Settle(resolved, base.declaration.Some?);
    base.(state := state, refs := resolved,
          reason := if state == Undecided then Some(SomeUnresolved(Filter(resolved, IsUnresolved))) else None)
  }

  function AllFailed(refs: seq<CitedRef>, error: string): seq<ResolvedRef>
  {
    MapSeq(refs, (r: CitedRef) => ResolvedRef(r, Unresolved(LookupFailed, error)))
  }

  /** The row of a candidate; a spec that cites nothing has none. */
  function Decide(input: GateInput, spec: string): Option<GateRow>
  {
    var j, refs := JustificationFor(input, spec), CitedBy(input, spec);
    if Truthy(j.readError) then Some(RowWith(input, spec, Undecided, [], Some(SourceUnreadable(j.readError.value))))
    else if refs == [] then None
    else if Truthy(input.lookupError) then
      Some(RowWith(input, spec, Undecided, AllFailed(refs, input.lookupError.value), Some(AskingFailed(input.lookupError.value))))
    else Some(SettledRow(RowWith(input, spec, Undecided, [], None), Resolve(input.refStates, refs)))
  }

  function Decider(input: GateInput): string -> Option<GateRow>
  {
    (spec: string) => Decide(input, spec)
  }

  function AllRows(input: GateInput): seq<GateRow>
  {
    FilterMap(CandidateSpecs(input.tests), Decider(input))
  }

  function InState(state: GateState): GateRow -> bool
  {
    (r: GateRow) => r.state == state
  }

  function Bucket(rows: seq<GateRow>, state: GateState): seq<GateRow>
  {
    Filter(rows, InState(state))
  }

  /** A spec is counted as citing something when its sources were read and hold a reference. */
  predicate Cites(input: GateInput, spec: string)
  {
    !Truthy(JustificationFor(input, spec).readError) && CitedBy(input, spec) != []
  }

  function Citing(input: GateInput): string -> bool
  {
    (spec: string) => Cites(input, spec)
  }

  /** The distinct references of the specs that cite any. */
  function CitedKeys(input: GateInput, specs: seq<string>): set<string>
  {
    set spec, r | spec in specs && Cites(input, spec) && r in CitedBy(input, spec) :: RefKey(r)
  }

  /* ---- the declarations, in the other direction ---- */

  function NotCited(cited: set<string>): string -> bool
  {
    (raw: string) => NormalizeDeclRef(raw) !in cited
  }

  function Judge(input: GateInput, d: GateDecl): Option<DeclFault>
  {
    if forall t <- input.tests :: t.relativePath != d.spec then Some(NoSuchSpec)
    else if d.spec !in CandidateSpecs(input.tests) then Some(NothingToExplain)
    else if Truthy(JustificationFor(input, d.spec).readError) then None
    else
      var cited := set r <- CitedBy(input, d.spec) :: RefKey(r);
      var gone := Filter(d.refs, NotCited(cited));
      if gone != [] then Some(NoLongerCites(gone)) else None
  }

  function ProblemOf(input: GateInput): GateDecl -> Option<GateDeclProblem>
  {
    (d: GateDecl) => var fault := Judge(input, d); if fault.Some? then Some(GateDeclProblem(d, fault.value)) else None
  }

  /* ---- the loop ---- */

  ghost predicate IsVerdictOf(v: GateVerdict, input: GateInput)
  {
    var rows, specs := AllRows(input), CandidateSpecs(input.tests);
    && v.expired == Bucket(rows, Expired) && v.unknown == Bucket(rows, Undecided)
    && v.live == Bucket(rows, Live) && v.declared == Bucket(rows, Declared)
    && v.staleDeclarations == FilterMap(input.declarations, ProblemOf(input))
    && v.candidateSpecs == |specs|
    && v.withRefs == |Filter(specs, Citing(input))|
    && v.refs == |CitedKeys(input, specs)|
  }

  method DeclarationIndex(declarations: seq<GateDecl>) returns (index: map<string, GateDecl>)
    ensures forall spec :: spec in index <==> DeclarationFor(declarations, spec).Some?
    ensures forall spec <- index :: index[spec] == DeclarationFor(declarations, spec).value
  {
    index := map[];
    for i := 0 to |declarations|
      invariant forall spec :: spec in index <==> DeclarationFor(declarations[..i], spec).Some?
      invariant forall spec <- index :: index[spec] == DeclarationFor(declarations[..i], spec).value
    {
      assert declarations[..i + 1][..i] == declarations[..i];
      index := index[declarations[i].spec := declarations[i]];
    }
    assert declarations[..|declarations|] == declarations;
  }

  /** One turn of the spec loop, up to the push. */
  method RowOf(input: GateInput, spec: string, declBySpec: map<string, GateDecl>) returns (row: Option<GateRow>)
    requires forall s :: s in declBySpec <==> DeclarationFor(input.declarations, s).Some?
    requires forall s <- declBySpec :: declBySpec[s] == DeclarationFor(input.declarations, s).value
    ensures row == Decide(input, spec)
  {
    var j := JustificationFor(input, spec);
    var declaration := if spec in declBySpec then Some(declBySpec[spec]) else None;
    var refs := CitedBy(input, spec);
    var base := GateRow(spec, Undecided, [], j.sources,
                        if spec in input.trackedSpecs then input.trackedSpecs[spec] else [], declaration, None);
    if Truthy(j.readError) {
      return Some(base.(reason := Some(SourceUnreadable(j.readError.value))));
    }
    if |refs| == 0 { return None; }
    if Truthy(input.lookupError) {
      return Some(base.(refs := AllFailed(refs, input.lookupError.value), reason := Some(AskingFailed(input.lookupError.value))));
    }
    var settled := SettleRow(base, Resolve(input.refStates, refs));
    return Some(settled);
  }

  method SettleRow(base: GateRow, resolved: seq<ResolvedRef>) returns (row: GateRow)
    requires base.reason == None
    ensures row == SettledRow(base, resolved)
  {
    var unresolved := Filter(resolved, IsUnresolved);
    UnresolvedOnes(resolved);
    if |unresolved| > 0 {
      return base.(state := Undecided, refs := resolved, reason := Some(SomeUnresolved(unresolved)));
    }
    if exists r <- resolved :: r.state == OpenRef {
      return base.(state := Live, refs := resolved);
    }
    if base.declaration.Some? {
      return base.(state := Declared, refs := resolved);
    }
    return base.(state := Expired, refs := resolved);
  }

  lemma UnresolvedOnes(resolved: seq<ResolvedRef>)
    ensures Filter(resolved, IsUnresolved) != [] <==> exists r <- resolved :: IsUnresolved(r)
  {
    FilterMembers(resolved, IsUnresolved);
    if Filter(resolved, IsUnresolved) != [] {
      assert Filter(resolved, IsUnresolved)[0] in Filter(resolved, IsUnresolved);
    }
  }

  lemma PushedBuckets(rows: seq<GateRow>, row: GateRow)
    ensures forall s: GateState :: Bucket(rows + [row], s) == Bucket(rows, s) + if row.state == s then [row] else []
  {
    forall s: GateState ensures Bucket(rows + [row], s) == Bucket(rows, s) + if row.state == s then [row] else [] {
      FilterAppend(rows, [row], InState(s));
    }
  }

  method ClassifySpecs(input: GateInput, specs: seq<string>)
    returns (expired: seq<GateRow>, unknown: seq<GateRow>, live: seq<GateRow>, declared: seq<GateRow>)
    ensures var rows := FilterMap(specs, Decider(input));
            && expired == Bucket(rows, Expired) && unknown == Bucket(rows, Undecided)
            && live == Bucket(rows, Live) && declared == Bucket(rows, Declared)
  {
    var declBySpec := DeclarationIndex(input.declarations);
    expired, unknown, live, declared := [], [], [], [];
    ghost var rows: seq<GateRow> := [];
    for i := 0 to |specs|
      invariant rows == FilterMap(specs[..i], Decider(input))
      invariant expired == Bucket(rows, Expired) && unknown == Bucket(rows, Undecided)
      invariant live == Bucket(rows, Live) && declared == Bucket(rows, Declared)
    {
      FilterMapSnoc(specs, i, Decider(input));
      var row := RowOf(input, specs[i], declBySpec);
      if row.None? { continue; }
      PushedBuckets(rows, row.value);
      match row.value.state {
        case Expired => expired := expired + [row.value];
        case Undecided => unknown := unknown + [row.value];
        case Live => live := live + [row.value];
        case Declared => declared := declared + [row.value];
      }
      rows := rows + [row.value];
    }
    assert specs[..|specs|] == specs;
  }

  /** The two counters of the spec loop. */
  method CountCitations(input: GateInput, specs: seq<string>) returns (withRefs: nat, keys: set<string>)
    ensures withRefs == |Filter(specs, Citing(input))| && keys == CitedKeys(input, specs)
  {
    withRefs, keys := 0, {};
    for i := 0 to |specs|
      invariant withRefs == |Filter(specs[..i], Citing(input))| && keys == CitedKeys(input, specs[..i])
    {
      FilterSnoc(specs, i, Citing(input));
      CitedKeysSnoc(input, specs, i);
      if Truthy(JustificationFor(input, specs[i]).readError) { continue; }
      var refs := CitedBy(input, specs[i]);
      if |refs| == 0 { continue; }
      withRefs := withRefs + 1;
      keys := keys + set r <- refs :: RefKey(r);
    }
    assert specs[..|specs|] == specs;
  }

  lemma CitedKeysSnoc(input: GateInput, specs: seq<string>, i: nat)
    requires i < |specs|
    ensures CitedKeys(input, specs[..i + 1])
            == CitedKeys(input, specs[..i])
               + if Cites(input, specs[i]) then set r <- CitedBy(input, specs[i]) :: RefKey(r) else {}
  {
    assert specs[..i + 1] == specs[..i] + [specs[i]];
  }

  method ClassifyGates(input: GateInput) returns (v: GateVerdict)
    ensures IsVerdictOf(v, input)
  {
    var specs := SelectSpecs(input.tests);
    var expired, unknown, live, declared := ClassifySpecs(input, specs);
    var withRefs, keys := CountCitations(input, specs);
    var stale: seq<GateDeclProblem> := [];
    for i := 0 to |input.declarations|
      invariant stale == FilterMap(input.declarations[..i], ProblemOf(input))
    {
      FilterMapSnoc(input.declarations, i, ProblemOf(input));
      var problem := ProblemOf(input)(input.declarations[i]);
      if problem.Some? { stale := stale + [problem.value]; }
    }
    assert input.declarations[..|input.declarations|] == input.declarations;
    v := GateVerdict(expired, unknown, live, declared, stale, |specs|, withRefs, |keys|);
  }

  /** Some reference could not be asked about. */
  predicate HadLookupFailure(states: map<string, RefState>)
  {
    exists key <- states :: states[key].Unresolved? && states[key].cause == LookupFailed
  }

  predicate HasGateFindings(v: GateVerdict)
  {
    v.expired != [] || v.unknown != [] || v.staleDeclarations != []
  }
}
