/** The live state of every cited reference, one round trip per repository. */
module RefStates {
  import opened Texts
  import opened Sequences
  import opened References
  import opened GateJustifications
  import opened GateLaws

  datatype NodeState = NodeOpen | NodeMerged | NodeClosed | NodeOther(text: string)

  /** One round trip to one repository. */
  type Query = (RefRepo, seq<nat>) -> Result<map<nat, Option<NodeState>>, string>

  function RepoOfRef(r: CitedRef): RefRepo
  {
    r.repo
  }

  function NumberOf(r: CitedRef): nat
  {
    r.number
  }

  /** The distinct numbers asked of one repository. */
  function NumbersFor(refs: seq<CitedRef>, repo: RefRepo): seq<nat>
  {
    Dedup(MapSeq(Having(refs, RepoOfRef, repo), NumberOf))
  }

  function StateOfNode(node: Option<NodeState>): RefState
  {
    match node
    case None => Unresolved(NotFound, "")
    case Some(NodeOpen) => OpenRef
    case Some(NodeMerged) => MergedRef
    case Some(NodeClosed) => ClosedRef
    case Some(NodeOther(text)) => Unresolved(BadState, text)
  }

  function Answered(answer: Result<map<nat, Option<NodeState>>, string>, n: nat): RefState
  {
    match answer
    case Err(message) => Unresolved(LookupFailed, Split(message, '\n')[0])
    case Ok(nodes) => StateOfNode(if n in nodes then nodes[n] else None)
  }

  function StateOfRef(refs: seq<CitedRef>, query: Query, r: CitedRef): RefState
  {
    Answered(query(r.repo, NumbersFor(refs, r.repo)), r.number)
  }

  /** The states of the references of some repositories, and no others. */
  ghost predicate ResolvesFor(refs: seq<CitedRef>, query: Query, repos: seq<RefRepo>, states: map<string, RefState>)
  {
    && (forall key <- states :: exists r <- refs :: r.repo in repos && RefKey(r) == key)
    && forall r <- refs :: r.repo in repos ==> Known(states, refs, query, r)
  }

  predicate Known(states: map<string, RefState>, refs: seq<CitedRef>, query: Query, r: CitedRef)
  {
    RefKey(r) in states && states[RefKey(r)] == StateOfRef(refs, query, r)
  }

  function KeysIn(repo: RefRepo, numbers: seq<nat>): set<string>
  {
    set n <- numbers :: RefKey(CitedRef(repo, n))
  }

  /** `out` is `states` with one repository's numbers written over it. */
  ghost predicate Written(repo: RefRepo, numbers: seq<nat>, answer: Result<map<nat, Option<NodeState>>, string>,
                          states: map<string, RefState>, out: map<string, RefState>)
  {
    && out.Keys == states.Keys + KeysIn(repo, numbers)
    && (forall n <- numbers :: out[RefKey(CitedRef(repo, n))] == Answered(answer, n))
    && forall key <- states :: key !in KeysIn(repo, numbers) ==> out[key] == states[key]
  }

  lemma KeysNext(repo: RefRepo, numbers: seq<nat>, i: nat)
    requires i < |numbers|
    ensures KeysIn(repo, numbers[..i + 1]) == KeysIn(repo, numbers[..i]) + {RefKey(CitedRef(repo, numbers[i]))}
  {
    assert numbers[..i + 1] == numbers[..i] + [numbers[i]];
  }

  /** One more number of the repository written. */
  lemma WrittenNext(repo: RefRepo, numbers: seq<nat>, i: nat, answer: Result<map<nat, Option<NodeState>>, string>,
                    states: map<string, RefState>, out: map<string, RefState>)
    requires i < |numbers| && Written(repo, numbers[..i], answer, states, out)
    ensures Written(repo, numbers[..i + 1], answer, states, out[RefKey(CitedRef(repo, numbers[i])) := Answered(answer, numbers[i])])
  {
    KeysNext(repo, numbers, i);
    var key := RefKey(CitedRef(repo, numbers[i]));
    var next := out[key := Answered(answer, numbers[i])];
    forall n <- numbers[..i + 1] ensures next[RefKey(CitedRef(repo, n))] == Answered(answer, n) {
      if RefKey(CitedRef(repo, n)) == key {
        RefKeyInjective(CitedRef(repo, n), CitedRef(repo, numbers[i]));
      } else {
        StandsBefore(numbers, i, n);
      }
    }
  }

  lemma StandsBefore(numbers: seq<nat>, i: nat, n: nat)
    requires i < |numbers| && n in numbers[..i + 1] && n != numbers[i]
    ensures n in numbers[..i]
  {
    assert numbers[..i + 1] == numbers[..i] + [numbers[i]];
  }

  /** The states of one repository's numbers, written over what is known so far. */
  method ResolveRepo(repo: RefRepo, numbers: seq<nat>, answer: Result<map<nat, Option<NodeState>>, string>,
                     states: map<string, RefState>) returns (out: map<string, RefState>)
    ensures Written(repo, numbers, answer, states, out)
  {
    out := states;
    for i := 0 to |numbers|
      invariant Written(repo, numbers[..i], answer, states, out)
    {
      WrittenNext(repo, numbers, i, answer, states, out);
      out := out[RefKey(CitedRef(repo, numbers[i])) := Answered(answer, numbers[i])];
    }
    TakeAll(numbers);
  }

  lemma NumbersMembers(refs: seq<CitedRef>, repo: RefRepo, n: nat)
    ensures CitedRef(repo, n) in refs <==> n in NumbersFor(refs, repo)
  {
    var group := Having(refs, RepoOfRef, repo);
    FilterMembers(refs, HasKey(RepoOfRef, repo));
    DedupMembers(MapSeq(group, NumberOf));
    if CitedRef(repo, n) in refs {
      var i :| 0 <= i < |group| && group[i] == CitedRef(repo, n);
      assert MapSeq(group, NumberOf)[i] == n;
    }
    if n in MapSeq(group, NumberOf) {
      var i :| 0 <= i < |group| && MapSeq(group, NumberOf)[i] == n;
      assert group[i] in group && HasKey(RepoOfRef, repo)(group[i]);
      assert RepoOfRef(group[i]) == repo && NumberOf(group[i]) == n;
    }
  }

  /** A reference of this repository is answered; one of another keeps its state. */
  lemma WrittenStates(repo: RefRepo, numbers: seq<nat>, answer: Result<map<nat, Option<NodeState>>, string>,
                      states: map<string, RefState>, out: map<string, RefState>, r: CitedRef)
    requires Written(repo, numbers, answer, states, out)
    ensures r.repo == repo && r.number in numbers ==> RefKey(r) in out && out[RefKey(r)] == Answered(answer, r.number)
    ensures r.repo != repo && RefKey(r) in states ==> RefKey(r) in out && out[RefKey(r)] == states[RefKey(r)]
  {
    if r.repo == repo {
      assert r == CitedRef(repo, r.number);
    } else {
      forall n <- numbers | RefKey(r) == RefKey(CitedRef(repo, n)) ensures false { RefKeyInjective(r, CitedRef(repo, n)); }
    }
  }

  /** What one more repository adds. */
  lemma OneMoreRepo(refs: seq<CitedRef>, query: Query, repos: seq<RefRepo>, repo: RefRepo,
                    states: map<string, RefState>, out: map<string, RefState>)
    requires ResolvesFor(refs, query, repos, states) && repo !in repos
    requires Written(repo, NumbersFor(refs, repo), query(repo, NumbersFor(refs, repo)), states, out)
    ensures ResolvesFor(refs, query, repos + [repo], out)
  {
    var numbers := NumbersFor(refs, repo);
    forall r <- refs | r.repo in repos + [repo] ensures Known(out, refs, query, r) {
      NumbersMembers(refs, r.repo, r.number);
      assert r == CitedRef(r.repo, r.number);
      WrittenStates(repo, numbers, query(repo, numbers), states, out, r);
      if r.repo != repo { assert Known(states, refs, query, r); }
    }
    forall key <- out ensures exists r <- refs :: r.repo in repos + [repo] && RefKey(r) == key {
      if key !in states {
        var n :| n in numbers && RefKey(CitedRef(repo, n)) == key;
        NumbersMembers(refs, repo, n);
        assert CitedRef(repo, n).repo in repos + [repo];
      } else {
        var r :| r in refs && r.repo in repos && RefKey(r) == key;
        assert r.repo in repos + [repo];
      }
    }
  }

  /** One turn of the loop over repositories. */
  method ResolveGroup(ghost refs: seq<CitedRef>, query: Query, ghost repos: seq<RefRepo>, repo: RefRepo, group: seq<CitedRef>,
                      states: map<string, RefState>) returns (out: map<string, RefState>)
    requires ResolvesFor(refs, query, repos, states) && repo !in repos && group == Having(refs, RepoOfRef, repo)
    ensures ResolvesFor(refs, query, repos + [repo], out)
  {
    var numbers := Dedup(MapSeq(group, NumberOf));
    out := ResolveRepo(repo, numbers, query(repo, numbers), states);
    OneMoreRepo(refs, query, repos, repo, states, out);
  }

  method ResolveRefStates(refs: seq<CitedRef>, query: Query) returns (states: map<string, RefState>)
    ensures states.Keys == set r <- refs :: RefKey(r)
    ensures forall r <- refs :: Known(states, refs, query, r)
  {
    var order, byRepo := GroupBy(refs, RepoOfRef);
    states := map[];
    for i := 0 to |order|
      invariant ResolvesFor(refs, query, order[..i], states)
    {
      TakeNext(order, i);
      NotYet(refs, order, i);
      states := ResolveGroup(refs, query, order[..i], order[i], byRepo[order[i]], states);
    }
    AllResolved(refs, query, order, states);
  }

  lemma NotYet(refs: seq<CitedRef>, order: seq<RefRepo>, i: nat)
    requires order == KeysOf(refs, RepoOfRef) && i < |order|
    ensures order[i] !in order[..i]
  {
    DedupMembers(MapSeq(refs, RepoOfRef));
  }

  lemma AllResolved(refs: seq<CitedRef>, query: Query, order: seq<RefRepo>, states: map<string, RefState>)
    requires order == KeysOf(refs, RepoOfRef) && ResolvesFor(refs, query, order[..|order|], states)
    ensures states.Keys == set r <- refs :: RefKey(r)
    ensures forall r <- refs :: Known(states, refs, query, r)
  {
    TakeAll(order);
    forall r <- refs ensures r.repo in order && Known(states, refs, query, r) {
      RepoIsKey(refs, r);
    }
  }

  lemma RepoIsKey(refs: seq<CitedRef>, r: CitedRef)
    requires r in refs
    ensures r.repo in KeysOf(refs, RepoOfRef)
  {
    DedupMembers(MapSeq(refs, RepoOfRef));
    var i :| 0 <= i < |refs| && refs[i] == r;
    assert MapSeq(refs, RepoOfRef)[i] == RepoOfRef(r) == r.repo;
  }

  /* ---- end to end ---- */

  /** A repository said, of this very number, that it is closed or merged. */
  predicate SaidGone(refs: seq<CitedRef>, query: Query, r: CitedRef)
  {
    var answer := query(r.repo, NumbersFor(refs, r.repo));
    && answer.Ok? && r.number in answer.value
    && (answer.value[r.number] == Some(NodeMerged) || answer.value[r.number] == Some(NodeClosed))
  }

  lemma GoneWasSaid(refs: seq<CitedRef>, query: Query, r: CitedRef)
    ensures Gone(StateOfRef(refs, query, r)) <==> SaidGone(refs, query, r)
  {
  }

  /**
   * From the queries to the verdict: a spec is expired only if, for every reference it cites,
   * the repository it names answered and said closed or merged. A failed round trip, a number
   * nobody knows and a state nobody recognises all leave it out.
   */
  lemma NoFalseExpiry(v: GateVerdict, input: GateInput, refs: seq<CitedRef>, query: Query, spec: string, r: CitedRef)
    requires IsVerdictOf(v, input) && (exists row <- v.expired :: row.spec == spec)
    requires input.refStates.Keys == (set x <- refs :: RefKey(x)) && forall x <- refs :: Known(input.refStates, refs, query, x)
    requires r in CitedBy(input, spec)
    ensures r in refs && SaidGone(refs, query, r)
  {
    ExpiredIff(v, input, spec);
    CitedIsGone(input, spec, r);
    var x :| x in refs && RefKey(x) == RefKey(r);
    RefKeyInjective(x, r);
    GoneWasSaid(refs, query, r);
  }

  lemma CitedIsGone(input: GateInput, spec: string, r: CitedRef)
    requires NothingLeft(input, spec) && r in CitedBy(input, spec)
    ensures RefKey(r) in input.refStates && Gone(input.refStates[RefKey(r)])
  {
  }

  /* ---- every state, by what was answered ---- */

  /** What each state means of the round trip to the reference's own repository. */
  predicate SaidSo(answer: Result<map<nat, Option<NodeState>>, string>, n: nat, state: RefState)
  {
    match state
    case OpenRef => answer.Ok? && n in answer.value && answer.value[n] == Some(NodeOpen)
    case MergedRef => answer.Ok? && n in answer.value && answer.value[n] == Some(NodeMerged)
    case ClosedRef => answer.Ok? && n in answer.value && answer.value[n] == Some(NodeClosed)
    case Unresolved(cause, text) =>
      match cause
      case LookupFailed => answer.Err? && text == Split(answer.error, '\n')[0]
      case NotFound => text == "" && answer.Ok? && (n in answer.value ==> answer.value[n] == None)
      case BadState => answer.Ok? && n in answer.value && answer.value[n] == Some(NodeOther(text))
      case NoState => false
  }

  /** A reference is in exactly the state its own repository said of its own number, in the one round trip that asks for all its numbers. */
  lemma StateIff(states: map<string, RefState>, refs: seq<CitedRef>, query: Query, r: CitedRef, state: RefState)
    requires r in refs && Known(states, refs, query, r)
    ensures RefKey(r) in states
    ensures states[RefKey(r)] == state <==> SaidSo(query(r.repo, NumbersFor(refs, r.repo)), r.number, state)
    ensures forall n :: n in NumbersFor(refs, r.repo) <==> CitedRef(r.repo, n) in refs
    ensures forall i, j | 0 <= i < j < |NumbersFor(refs, r.repo)| :: NumbersFor(refs, r.repo)[i] != NumbersFor(refs, r.repo)[j]
  {
    forall n ensures n in NumbersFor(refs, r.repo) <==> CitedRef(r.repo, n) in refs {
      NumbersMembers(refs, r.repo, n);
    }
    DedupMembers(MapSeq(Having(refs, RepoOfRef, r.repo), NumberOf));
  }

  /** The state of a known reference is a failed lookup exactly when its repository could not be asked. */
  lemma FailedIff(states: map<string, RefState>, refs: seq<CitedRef>, query: Query, r: CitedRef)
    requires Known(states, refs, query, r)
    ensures (states[RefKey(r)].Unresolved? && states[RefKey(r)].cause == LookupFailed)
            <==> query(r.repo, NumbersFor(refs, r.repo)).Err?
  {
  }

  /** A lookup failed if and only if some reference's repository could not be asked. */
  lemma LookupFailedIff(states: map<string, RefState>, refs: seq<CitedRef>, query: Query)
    requires states.Keys == (set r <- refs :: RefKey(r)) && forall r <- refs :: Known(states, refs, query, r)
    ensures HadLookupFailure(states) <==> exists r <- refs :: query(r.repo, NumbersFor(refs, r.repo)).Err?
  {
    forall r <- refs ensures RefKey(r) in states
                             && ((states[RefKey(r)].Unresolved? && states[RefKey(r)].cause == LookupFailed)
                                 <==> query(r.repo, NumbersFor(refs, r.repo)).Err?)
    {
      FailedIff(states, refs, query, r);
    }
    assert forall key <- states :: exists r <- refs :: RefKey(r) == key;
  }

  /**
   * From the queries to the verdict, both ways: a candidate spec is expired if and only if its
   * justification was read, the issue lookup answered, nothing declares it, it cites something,
   * and of everything it cites the repository named answered and said closed or merged.
   */
  lemma ExpiredIffSaidGone(v: GateVerdict, input: GateInput, refs: seq<CitedRef>, query: Query, spec: string)
    requires IsVerdictOf(v, input) && spec in CandidateSpecs(input.tests)
    requires forall r <- CitedBy(input, spec) :: r in refs && Known(input.refStates, refs, query, r)
    ensures (exists row <- v.expired :: row.spec == spec)
            <==> Cites(input, spec) && !Truthy(input.lookupError) && DeclarationFor(input.declarations, spec).None?
                 && forall r <- CitedBy(input, spec) :: SaidGone(refs, query, r)
  {
    ExpiredIff(v, input, spec);
    forall r <- CitedBy(input, spec) ensures Gone(input.refStates[RefKey(r)]) <==> SaidGone(refs, query, r) {
      GoneWasSaid(refs, query, r);
    }
  }
}
