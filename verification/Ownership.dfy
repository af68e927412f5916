/** Does every spec whose tests carry no `@stable` have an owner? */
module Ownership {
  import opened Texts
  import opened Sequences
  import GJ = GateJustifications

  datatype Kind = Owned | Exempt | UnownedBaseline | UnownedNew | Undecided

  datatype Detail =
    | Declared(reason: string)
    | AskingFailed(error: Option<string>)
    | OwnedBy(owners: seq<GJ.TrackedBy>)
    | InBaseline
    | OutsideBaseline(touched: bool)

  datatype Row = Row(spec: string, verdict: Kind, detail: Detail)

  datatype Input = Input(
    backlogSpecs: seq<string>,
    baselineSpecs: seq<string>,
    exemptSpecs: map<string, string>,
    trackers: Option<map<string, seq<GJ.TrackedBy>>>,
    lookupError: Option<string>,
    changedSpecs: Option<set<string>>)

  datatype Counts = Counts(owned: nat, exempt: nat, unownedBaseline: nat, unownedNew: nat, undecided: nat)

  datatype Report = Report(
    rows: seq<Row>, failures: seq<Row>, warnings: seq<Row>, notices: seq<Row>, counts: Counts, lookupFailed: bool)

  /* ---- the decision for one spec ---- */

  function OwnersOf(input: Input, spec: string): seq<GJ.TrackedBy>
  {
    if input.trackers.Some? && spec in input.trackers.value then input.trackers.value[spec] else []
  }

  predicate Touched(input: Input, spec: string)
  {
    input.changedSpecs.Some? && spec in input.changedSpecs.value
  }

  function Decide(input: Input, spec: string): Row
  {
    if spec in input.exemptSpecs then Row(spec, Exempt, Declared(input.exemptSpecs[spec]))
    else if input.trackers.None? then Row(spec, Undecided, AskingFailed(input.lookupError))
    else if OwnersOf(input, spec) != [] then Row(spec, Owned, OwnedBy(OwnersOf(input, spec)))
    else if spec in input.baselineSpecs then Row(spec, UnownedBaseline, InBaseline)
    else Row(spec, UnownedNew, OutsideBaseline(Touched(input, spec)))
  }

  function Decider(input: Input): string -> Row
  {
    (spec: string) => Decide(input, spec)
  }

  predicate Fails(r: Row)
  {
    r.verdict == Undecided || (r.verdict == UnownedNew && r.detail == OutsideBaseline(true))
  }

  predicate Warns(r: Row)
  {
    r.verdict == UnownedNew && r.detail != OutsideBaseline(true)
  }

  predicate IsNotice(r: Row)
  {
    r.verdict == UnownedBaseline
  }

  function HasKind(k: Kind): Row -> bool
  {
    (r: Row) => r.verdict == k
  }

  function CountOf(rows: seq<Row>, k: Kind): nat
  {
    |Filter(rows, HasKind(k))|
  }

  function CountsOf(rows: seq<Row>): Counts
  {
    Counts(CountOf(rows, Owned), CountOf(rows, Exempt), CountOf(rows, UnownedBaseline), CountOf(rows, UnownedNew),
           CountOf(rows, Undecided))
  }

  function SpecsOf(input: Input): seq<string>
  {
    StableSort(Dedup(input.backlogSpecs), TextLe)
  }

  function ReportOf(input: Input): Report
  {
    var rows := MapSeq(SpecsOf(input), Decider(input));
    Report(rows, Filter(rows, Fails), Filter(rows, Warns), Filter(rows, IsNotice), CountsOf(rows), input.trackers.None?)
  }

  /* ---- the loop ---- */

  method CountRows(rows: seq<Row>) returns (c: Counts)
    ensures c == CountsOf(rows)
  {
    c := Counts(0, 0, 0, 0, 0);
    for i := 0 to |rows|
      invariant c == CountsOf(rows[..i])
    {
      forall k: Kind ensures CountOf(rows[..i + 1], k) == CountOf(rows[..i], k) + if rows[i].verdict == k then 1 else 0 {
        FilterSnoc(rows, i, HasKind(k));
      }
      match rows[i].verdict {
        case Owned => c := c.(owned := c.owned + 1);
        case Exempt => c := c.(exempt := c.exempt + 1);
        case UnownedBaseline => c := c.(unownedBaseline := c.unownedBaseline + 1);
        case UnownedNew => c := c.(unownedNew := c.unownedNew + 1);
        case Undecided => c := c.(undecided := c.undecided + 1);
      }
    }
    TakeAll(rows);
  }

  lemma MapSnoc(input: Input, specs: seq<string>, i: nat)
    requires i < |specs|
    ensures MapSeq(specs[..i + 1], Decider(input)) == MapSeq(specs[..i], Decider(input)) + [Decide(input, specs[i])]
  {
  }

  lemma BucketsSnoc(rows: seq<Row>, row: Row)
    ensures Filter(rows + [row], Fails) == Filter(rows, Fails) + if Fails(row) then [row] else []
    ensures Filter(rows + [row], Warns) == Filter(rows, Warns) + if Warns(row) then [row] else []
    ensures Filter(rows + [row], IsNotice) == Filter(rows, IsNotice) + if IsNotice(row) then [row] else []
  {
    FilterAppend(rows, [row], Fails);
    FilterAppend(rows, [row], Warns);
    FilterAppend(rows, [row], IsNotice);
  }

  method OwnershipReport(input: Input) returns (report: Report)
    ensures report == ReportOf(input)
  {
    var specs := SpecsOf(input);
    var rows, failures, warnings, notices: seq<Row> := [], [], [], [];
    for i := 0 to |specs|
      invariant rows == MapSeq(specs[..i], Decider(input))
      invariant failures == Filter(rows, Fails) && warnings == Filter(rows, Warns) && notices == Filter(rows, IsNotice)
    {
      var spec := specs[i];
      MapSnoc(input, specs, i);
      BucketsSnoc(rows, Decide(input, spec));
      if spec in input.exemptSpecs {
        rows := rows + [Row(spec, Exempt, Declared(input.exemptSpecs[spec]))];
        continue;
      }
      if input.trackers.None? {
        var row := Row(spec, Undecided, AskingFailed(input.lookupError));
        rows, failures := rows + [row], failures + [row];
        continue;
      }
      var owners := OwnersOf(input, spec);
      if |owners| > 0 {
        rows := rows + [Row(spec, Owned, OwnedBy(owners))];
        continue;
      }
      if spec in input.baselineSpecs {
        var row := Row(spec, UnownedBaseline, InBaseline);
        rows, notices := rows + [row], notices + [row];
        continue;
      }
      var touched := Touched(input, spec);
      var row := Row(spec, UnownedNew, OutsideBaseline(touched));
      rows := rows + [row];
      if touched { failures := failures + [row]; } else { warnings := warnings + [row]; }
    }
    TakeAll(specs);
    var counts := CountRows(rows);
    report := Report(rows, failures, warnings, notices, counts, input.trackers.None?);
  }

  predicate HasOwnershipFindings(report: Report)
  {
    exists r <- report.rows :: r.verdict != Owned && r.verdict != Exempt
  }

  /* ---- what the report promises ---- */

  lemma {:induction false} KindsSplit(rows: seq<Row>)
    ensures |rows| == CountOf(rows, Owned) + CountOf(rows, Exempt) + CountOf(rows, UnownedBaseline)
                      + CountOf(rows, UnownedNew) + CountOf(rows, Undecided)
    ensures |Filter(rows, Fails)| + |Filter(rows, Warns)| == CountOf(rows, UnownedNew) + CountOf(rows, Undecided)
    ensures |Filter(rows, IsNotice)| == CountOf(rows, UnownedBaseline)
  {
    if rows != [] {
      KindsSplit(rows[1..]);
    }
  }

  /** Every spec without an owner question has one row, and every row one count and one list. */
  lemma EverySpecOnce(input: Input)
    ensures var r := ReportOf(input);
            && |r.rows| == |(set s <- input.backlogSpecs)|
            && r.counts.owned + r.counts.exempt + r.counts.unownedBaseline + r.counts.unownedNew + r.counts.undecided == |r.rows|
            && |r.failures| + |r.warnings| + |r.notices| + r.counts.owned + r.counts.exempt == |r.rows|
    ensures forall spec <- input.backlogSpecs :: Decide(input, spec) in ReportOf(input).rows
  {
    var rows := ReportOf(input).rows;
    DedupMembers(input.backlogSpecs);
    TextOrder();
    StableSortProperties(Dedup(input.backlogSpecs), TextLe);
    SpecsMembers(input);
    KindsSplit(rows);
    forall spec <- input.backlogSpecs ensures Decide(input, spec) in rows {
      assert spec in SpecsOf(input);
      var i :| 0 <= i < |rows| && SpecsOf(input)[i] == spec;
      assert rows[i] == Decide(input, spec);
    }
  }

  lemma SpecsMembers(input: Input)
    ensures forall s :: s in SpecsOf(input) <==> s in input.backlogSpecs
  {
    DedupMembers(input.backlogSpecs);
    TextOrder();
    StableSortProperties(Dedup(input.backlogSpecs), TextLe);
  }

  lemma DecisionNamesSpec(input: Input, spec: string)
    ensures Decide(input, spec).spec == spec
  {
  }

  lemma MappedMember(specs: seq<string>, f: string -> Row, r: Row) returns (i: nat)
    requires r in MapSeq(specs, f)
    ensures i < |specs| && r == f(specs[i])
  {
    i :| 0 <= i < |specs| && MapSeq(specs, f)[i] == r;
  }

  lemma RowsAreDecisions(input: Input, r: Row)
    requires r in ReportOf(input).rows
    ensures r.spec in input.backlogSpecs && r == Decide(input, r.spec)
  {
    var i := MappedMember(SpecsOf(input), Decider(input), r);
    SpecsMembers(input);
    DecisionNamesSpec(input, SpecsOf(input)[i]);
    assert SpecsOf(input)[i] in SpecsOf(input);
  }

  /** No open issue names the spec, as far as an answered lookup says. */
  predicate Unowned(input: Input, spec: string)
  {
    input.trackers.Some? && (spec in input.trackers.value ==> input.trackers.value[spec] == [])
  }

  /** What a row says of its spec, case by case, read off the inputs. */
  predicate Holds(input: Input, r: Row)
  {
    && (r.spec in input.exemptSpecs <==> r.verdict == Exempt)
    && match r.detail
       case Declared(reason) => r.verdict == Exempt && r.spec in input.exemptSpecs && reason == input.exemptSpecs[r.spec]
       case AskingFailed(error) => r.verdict == Undecided && input.trackers.None? && error == input.lookupError
       case OwnedBy(owners) =>
         r.verdict == Owned && owners != [] && input.trackers.Some? && r.spec in input.trackers.value
         && owners == input.trackers.value[r.spec]
       case InBaseline => r.verdict == UnownedBaseline && Unowned(input, r.spec) && r.spec in input.baselineSpecs
       case OutsideBaseline(touched) =>
         r.verdict == UnownedNew && Unowned(input, r.spec) && r.spec !in input.baselineSpecs
         && (touched <==> input.changedSpecs.Some? && r.spec in input.changedSpecs.value)
  }

  lemma DecisionHolds(input: Input, r: Row)
    ensures r == Decide(input, r.spec) <==> Holds(input, r)
  {
  }

  /** The rows are exactly those that hold of some spec without `@stable`, one after another in text order. */
  lemma RowsIff(input: Input, r: Row)
    ensures r in ReportOf(input).rows <==> r.spec in input.backlogSpecs && Holds(input, r)
    ensures var rows := ReportOf(input).rows; forall i, j | 0 <= i < j < |rows| :: TextLe(rows[i].spec, rows[j].spec)
  {
    DecisionHolds(input, r);
    EverySpecOnce(input);
    if r in ReportOf(input).rows {
      RowsAreDecisions(input, r);
    }
    TextOrder();
    StableSortProperties(Dedup(input.backlogSpecs), TextLe);
    forall i | 0 <= i < |SpecsOf(input)| ensures ReportOf(input).rows[i].spec == SpecsOf(input)[i] {
      DecisionNamesSpec(input, SpecsOf(input)[i]);
    }
  }

  /** Which list a row is on: it fails the run if it could not be decided or the diff touched it, and else warns or is a notice. */
  lemma ListsIff(input: Input, r: Row)
    requires r in ReportOf(input).rows
    ensures r in ReportOf(input).failures <==> r.detail.AskingFailed? || r.detail == OutsideBaseline(true)
    ensures r in ReportOf(input).warnings <==> r.detail == OutsideBaseline(false)
    ensures r in ReportOf(input).notices <==> r.detail == InBaseline
  {
    var rows := ReportOf(input).rows;
    RowsIff(input, r);
    FilterMembers(rows, Fails);
    FilterMembers(rows, Warns);
    FilterMembers(rows, IsNotice);
  }

  /** Where the rows of a verdict stand. */
  function RowsWith(rows: seq<Row>, k: Kind): set<nat>
  {
    set i: nat | i < |rows| && rows[i].verdict == k
  }

  /** Each number counts the rows of its own verdict. */
  lemma CountsSay(input: Input)
    ensures var r := ReportOf(input);
            && r.counts.owned == |RowsWith(r.rows, Owned)| && r.counts.exempt == |RowsWith(r.rows, Exempt)|
            && r.counts.unownedBaseline == |RowsWith(r.rows, UnownedBaseline)|
            && r.counts.unownedNew == |RowsWith(r.rows, UnownedNew)| && r.counts.undecided == |RowsWith(r.rows, Undecided)|
  {
    var rows := ReportOf(input).rows;
    forall k: Kind ensures CountOf(rows, k) == |RowsWith(rows, k)| {
      FilterCounts(rows, HasKind(k), |rows|);
      TakeAll(rows);
      assert PlacesOf(rows, HasKind(k), |rows|) == RowsWith(rows, k);
    }
  }

  /**
   * A run fails exactly when the lookup failed for an undeclared spec, or this diff touched a
   * spec that is outside the baseline and that no open issue owns.
   */
  lemma FailsIff(input: Input)
    ensures ReportOf(input).failures != []
            <==> exists spec <- input.backlogSpecs :: spec !in input.exemptSpecs
                   && (input.trackers.None?
                       || ((spec in input.trackers.value ==> input.trackers.value[spec] == []) && spec !in input.baselineSpecs
                           && input.changedSpecs.Some? && spec in input.changedSpecs.value))
  {
    var rows := ReportOf(input).rows;
    FilterMembers(rows, Fails);
    EverySpecOnce(input);
    if ReportOf(input).failures != [] {
      var r := ReportOf(input).failures[0];
      assert r in ReportOf(input).failures && r in rows;
      RowsAreDecisions(input, r);
    }
    forall spec <- input.backlogSpecs | Fails(Decide(input, spec)) ensures ReportOf(input).failures != [] {
      assert Decide(input, spec) in ReportOf(input).failures;
    }
  }

  /** Without a diff an answered lookup never fails the run, whatever is unowned. */
  lemma DailyNeverFails(input: Input)
    requires input.changedSpecs.None? && input.trackers.Some?
    ensures ReportOf(input).failures == []
  {
    FailsIff(input);
  }

  /** A failed lookup keeps the declared rows and leaves every other one undecided and failing. */
  lemma OutageIsNoPass(input: Input, error: Option<string>)
    ensures var out := input.(trackers := None, lookupError := error);
            && ReportOf(out).counts.owned == 0 && ReportOf(out).notices == [] && ReportOf(out).warnings == []
            && |ReportOf(out).failures| == |ReportOf(input).rows| - ReportOf(input).counts.exempt
            && ReportOf(out).counts.exempt == ReportOf(input).counts.exempt
            && (HasOwnershipFindings(ReportOf(input)) ==> HasOwnershipFindings(ReportOf(out)))
  {
    var out := input.(trackers := None, lookupError := error);
    OutageRows(input, out, SpecsOf(input));
    KindsSplit(ReportOf(out).rows);
    KindsSplit(ReportOf(input).rows);
    if HasOwnershipFindings(ReportOf(input)) {
      var r :| r in ReportOf(input).rows && r.verdict != Owned && r.verdict != Exempt;
      RowsAreDecisions(input, r);
      EverySpecOnce(out);
      assert Decide(out, r.spec) in ReportOf(out).rows;
    }
  }

  lemma {:induction false} OutageRows(input: Input, out: Input, specs: seq<string>)
    requires out.trackers.None? && out.exemptSpecs == input.exemptSpecs
    ensures var rows := MapSeq(specs, Decider(out));
            && Filter(rows, HasKind(Owned)) == [] && Filter(rows, IsNotice) == [] && Filter(rows, Warns) == []
            && CountOf(rows, UnownedNew) == 0
            && CountOf(rows, Exempt) == CountOf(MapSeq(specs, Decider(input)), Exempt)
  {
    if specs != [] {
      OutageRows(input, out, specs[1..]);
      assert MapSeq(specs, Decider(out))[1..] == MapSeq(specs[1..], Decider(out));
      assert MapSeq(specs, Decider(input))[1..] == MapSeq(specs[1..], Decider(input));
    }
  }

  /** The report has findings exactly when some undeclared spec is unowned or could not be asked about. */
  lemma FindingsIff(input: Input)
    ensures HasOwnershipFindings(ReportOf(input))
            <==> exists spec <- input.backlogSpecs :: spec !in input.exemptSpecs && OwnersOf(input, spec) == []
  {
    EverySpecOnce(input);
    if HasOwnershipFindings(ReportOf(input)) {
      var r :| r in ReportOf(input).rows && r.verdict != Owned && r.verdict != Exempt;
      RowsAreDecisions(input, r);
    }
    forall spec <- input.backlogSpecs | spec !in input.exemptSpecs && OwnersOf(input, spec) == []
      ensures HasOwnershipFindings(ReportOf(input))
    {
      assert Decide(input, spec) in ReportOf(input).rows;
    }
  }
}
