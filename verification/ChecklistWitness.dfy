/**
 * When a section that is read back does harm: a checklist on which the order of the generators
 * matters, and so the exact condition under which it never does.
 */
module ChecklistWitness {
  import opened Texts
  import opened Sequences
  import opened Documents
  import opened CoverageSummary
  import opened CoverageIdempotence
  import opened PhaseZero
  import opened PhaseZeroLaws
  import opened PhaseZeroFiles
  import opened ChecklistCommutes
  import opened ChecklistOrders
  import CF = CoverageFiles

  /* ---- the checklist: two Phase tables with one stale row each ---- */

  datatype LineKind = Rule | Header1 | Header2 | TableHead | TableRule | TableRow

  const KINDS: seq<LineKind> :=
    [Rule, Header1, TableHead, TableRule, TableRow, Rule, Header2, TableHead, TableRule, TableRow]

  predicate Listed(modules: seq<ModuleConfig>)
  {
    modules != [] && WellFormedModules(modules)
  }

  /** A module list and what was counted for it. */
  predicate Fits(modules: seq<ModuleConfig>, counts: seq<Counts>)
  {
    Listed(modules) && |counts| == |modules|
  }

  /** The row of the first module before any run. */
  function Stale(modules: seq<ModuleConfig>): Line
    requires modules != []
  {
    RowOf(modules[0].rowLabel, "")
  }

  /** The row that a run makes of it: a label that two modules share gets the counts of the last one. */
  function Fresh(modules: seq<ModuleConfig>, counts: seq<Counts>): Line
    requires modules != [] && |counts| == |modules|
  {
    var k := IndexOfLabel(modules, modules[0].rowLabel);
    PhaseRow(modules[0].rowLabel, counts[if k.Some? then k.value else 0])
  }

  function LineOf(k: LineKind, row: Line): Line
  {
    match k
    case Rule => "---"
    case Header1 => PHASE_HEADERS[0]
    case Header2 => PHASE_HEADERS[1]
    case TableHead => PHASE_TABLE_HEADER
    case TableRule => PHASE_TABLE_SEPARATOR
    case TableRow => row
  }

  /** A rule, a phase header and a table of one row, twice. */
  function Tail(modules: seq<ModuleConfig>): (tail: seq<Line>)
    requires modules != []
    ensures |tail| == 10
  {
    var row := Stale(modules);
    MapSeq(KINDS, (k: LineKind) => LineOf(k, row))
  }

  /** That tail below everything a checklist needs, on any head. */
  function Checklist(head: seq<Line>, modules: seq<ModuleConfig>): Layout
    requires modules != []
  {
    Layout(head, [TABLE_HEADER], [""], NOTE_LINES, [""], [PHASE_0_HEADER], Tail(modules))
  }

  lemma LabelIsThere(modules: seq<ModuleConfig>, counts: seq<Counts>)
    requires Fits(modules, counts)
    ensures var k := IndexOfLabel(modules, modules[0].rowLabel);
            k.Some? && Fresh(modules, counts) == PhaseRow(modules[0].rowLabel, counts[k.value])
  {
    FirstLabel(modules);
  }

  lemma {:induction false} FirstLabel(modules: seq<ModuleConfig>)
    requires modules != []
    ensures IndexOfLabel(modules, modules[0].rowLabel).Some?
  {
    if |modules| > 1 {
      assert modules[..|modules| - 1][0] == modules[0];
      FirstLabel(modules[..|modules| - 1]);
    }
  }

  lemma StaleIsNamed(modules: seq<ModuleConfig>)
    requires Listed(modules)
    ensures NamedRow(Stale(modules), modules)
  {
    assert WellFormedModule(modules[0]);
    RowOfCell(modules[0].rowLabel, "");
  }

  lemma StaleRows(modules: seq<ModuleConfig>, counts: seq<Counts>)
    requires Fits(modules, counts)
    ensures NamedRow(Stale(modules), modules) && NamedRow(Fresh(modules, counts), modules)
    ensures Fresh(modules, counts) != Stale(modules)
  {
    StaleIsNamed(modules);
    assert WellFormedModule(modules[0]);
    LabelIsThere(modules, counts);
    var c := counts[IndexOfLabel(modules, modules[0].rowLabel).value];
    RowOfCell(modules[0].rowLabel, PhaseCells(c));
    assert |PhaseCells(c)| > 0;
  }

  lemma OneRow(row: Line, modules: seq<ModuleConfig>, counts: seq<Counts>)
    requires Fits(modules, counts) && NamedRow(row, modules)
    ensures PhaseRows([row], modules, counts) == Ok([Fresh(modules, counts)])
  {
    LabelIsThere(modules, counts);
    assert [row][..0] == [];
    assert PhaseRows([], modules, counts) == Ok([]);
    assert [] + [Fresh(modules, counts)] == [Fresh(modules, counts)];
  }

  /** A step whose table holds one row of the module makes that row fresh. */
  lemma OneRowStep(lines: seq<Line>, header: string, next: Option<string>, at: nat, modules: seq<ModuleConfig>, counts: seq<Counts>)
    requires Fits(modules, counts) && at + 3 <= |lines| && PhaseTableAt(lines, header, next) == Ok(at)
    requires lines[at] == PHASE_TABLE_HEADER && lines[at + 1] == PHASE_TABLE_SEPARATOR
    requires Begins(lines[at + 1], '|') && Begins(lines[at + 2], '|') && FirstCell(lines[at + 2]) == modules[0].rowLabel
    requires at + 3 < |lines| ==> !Begins(lines[at + 3], '|')
    ensures PhaseStep(lines, header, next, modules, counts) == Ok(lines[at + 2 := Fresh(modules, counts)])
  {
    PhaseStepFromTable(lines, header, next, modules, counts);
    RunEndIs(lines, at + 1, '|', at + 3);
    assert lines[at + 2..at + 3] == [lines[at + 2]];
    OneRow(lines[at + 2], modules, counts);
    SpliceRow(lines, at, Fresh(modules, counts));
  }

  lemma SpliceRow(lines: seq<Line>, at: nat, row: Line)
    requires at + 3 <= |lines| && lines[at] == PHASE_TABLE_HEADER && lines[at + 1] == PHASE_TABLE_SEPARATOR
    ensures Splice(lines, at, at + 3, PhaseBlock([row])) == lines[at + 2 := row]
  {
  }

  /* ---- what the lines of the tail are ---- */

  /** What a search can take a line for. */
  ghost predicate IsKind(l: Line, k: LineKind)
  {
    && (TrimsTo(PHASE_HEADERS[0])(l) <==> k == Header1)
    && (TrimsTo(PHASE_HEADERS[1])(l) <==> k == Header2)
    && (IsPhaseTableHeader(l) <==> k == TableHead)
    && (Begins(l, '|') <==> k in {TableHead, TableRule, TableRow})
  }

  lemma RowKind(l: Line)
    requires Begins(l, '|') && !IsPhaseTableHeader(l)
    ensures IsKind(l, TableRow) && IsKind(l, TableRule)
  {
    RowIsPlain(l);
  }

  lemma RuleKind(l: Line)
    requires IsSeparator(l)
    ensures IsKind(l, Rule)
  {
    RowIsNoSeparator(l);
    NoHeaderThere(l, PHASE_HEADERS[0]);
    NoHeaderThere(l, PHASE_HEADERS[1]);
  }

  lemma HeaderKinds()
    ensures IsKind(PHASE_HEADERS[0], Header1) && IsKind(PHASE_HEADERS[1], Header2)
  {
    TrimOfTrimmed(PHASE_HEADERS[0]);
    TrimOfTrimmed(PHASE_HEADERS[1]);
    assert PHASE_HEADERS[0][4] != PHASE_HEADERS[1][4];
    TableHeaderIsRow(PHASE_HEADERS[0]);
    TableHeaderIsRow(PHASE_HEADERS[1]);
  }

  lemma TableHeadKind()
    ensures IsKind(PHASE_TABLE_HEADER, TableHead)
  {
    HeaderCells();
    RowIsPlain(PHASE_TABLE_HEADER);
  }

  lemma TableRuleKind()
    ensures IsKind(PHASE_TABLE_SEPARATOR, TableRule)
  {
    assert PHASE_TABLE_SEPARATOR[0] == '|' && PHASE_TABLE_SEPARATOR[1] == '-' && PHASE_TABLE_HEADER_PREFIX[1] == ' ';
    RowKind(PHASE_TABLE_SEPARATOR);
  }

  /** A row of the first module. */
  predicate NamedRow(l: Line, modules: seq<ModuleConfig>)
    requires modules != []
  {
    Begins(l, '|') && FirstCell(l) == modules[0].rowLabel
  }

  lemma NamedRowKind(l: Line, modules: seq<ModuleConfig>)
    requires Listed(modules) && NamedRow(l, modules)
    ensures IsKind(l, TableRow)
  {
    assert WellFormedModule(modules[0]);
    HeaderCells();
    RowKind(l);
  }

  lemma LineOfKind(k: LineKind, row: Line, modules: seq<ModuleConfig>)
    requires Listed(modules) && NamedRow(row, modules)
    ensures IsKind(LineOf(k, row), k)
  {
    match k {
      case Rule => RuleKind("---");
      case Header1 => HeaderKinds();
      case Header2 => HeaderKinds();
      case TableHead => TableHeadKind();
      case TableRule => TableRuleKind();
      case TableRow => NamedRowKind(row, modules);
    }
  }

  ghost predicate Kinded(lines: seq<Line>, at: nat, kinds: seq<LineKind>)
  {
    at + |kinds| <= |lines| && forall i | 0 <= i < |kinds| :: IsKind(lines[at + i], kinds[i])
  }

  lemma TailIsKinded(above: seq<Line>, modules: seq<ModuleConfig>)
    requires Listed(modules)
    ensures Kinded(above + Tail(modules), |above|, KINDS)
  {
    StaleIsNamed(modules);
    forall i | 0 <= i < |KINDS| ensures IsKind((above + Tail(modules))[|above| + i], KINDS[i]) {
      assert (above + Tail(modules))[|above| + i] == Tail(modules)[i] == LineOf(KINDS[i], Stale(modules));
      LineOfKind(KINDS[i], Stale(modules), modules);
    }
  }

  lemma RowKeepsKinds(lines: seq<Line>, at: nat, kinds: seq<LineKind>, i: nat, row: Line,
                      modules: seq<ModuleConfig>)
    requires Listed(modules) && Kinded(lines, at, kinds) && i < |kinds| && kinds[i] == TableRow && NamedRow(row, modules)
    ensures Kinded(lines[at + i := row], at, kinds)
  {
    NamedRowKind(row, modules);
  }

  ghost predicate Told(lines: seq<Line>, kinds: seq<LineKind>, p: Line -> bool, k: LineKind)
  {
    |lines| == |kinds| && forall j | 0 <= j < |lines| :: p(lines[j]) == (kinds[j] == k)
  }

  lemma KindsTell(lines: seq<Line>, kinds: seq<LineKind>)
    requires |lines| == |kinds| && Kinded(lines, 0, kinds)
    ensures Told(lines, kinds, TrimsTo(PHASE_HEADERS[0]), Header1) && Told(lines, kinds, TrimsTo(PHASE_HEADERS[1]), Header2)
    ensures Told(lines, kinds, IsPhaseTableHeader, TableHead)
  {
    forall j | 0 <= j < |lines|
      ensures TrimsTo(PHASE_HEADERS[0])(lines[j]) == (kinds[j] == Header1)
      ensures TrimsTo(PHASE_HEADERS[1])(lines[j]) == (kinds[j] == Header2)
      ensures IsPhaseTableHeader(lines[j]) == (kinds[j] == TableHead)
    {
      assert IsKind(lines[0 + j], kinds[j]);
    }
  }

  ghost predicate FirstOf(kinds: seq<LineKind>, k: LineKind, from: nat, i: nat)
  {
    from <= i < |kinds| && kinds[i] == k && forall j | from <= j < i :: kinds[j] != k
  }

  /** Among lines of known kinds, a search stops at the first of the kind it looks for. */
  lemma FindKind(lines: seq<Line>, kinds: seq<LineKind>, p: Line -> bool, k: LineKind, from: nat, to: nat, i: nat)
    requires Told(lines, kinds, p, k) && FirstOf(kinds, k, from, i) && i < to <= |lines|
    ensures FindIn(lines, p, from, to) == Some(i)
  {
    FindInIs(lines, p, from, to, i);
  }

  lemma FirstKinds()
    ensures FirstOf(KINDS, Header1, 0, 1) && FirstOf(KINDS, TableHead, 1, 2) && FirstOf(KINDS, TableHead, 6, 7)
    ensures FirstOf(KINDS, Header2, 0, 6) && FirstOf(KINDS, Header2, 2, 6)
  {
  }

  /* ---- the tail on its own ---- */

  lemma FirstHeader(tail: seq<Line>)
    requires Told(tail, KINDS, TrimsTo(PHASE_HEADERS[0]), Header1)
    ensures FindIn(tail, TrimsTo(PHASE_HEADERS[0]), 0, 10) == Some(1)
  {
    FirstKinds();
    FindKind(tail, KINDS, TrimsTo(PHASE_HEADERS[0]), Header1, 0, 10, 1);
  }

  lemma SecondHeader(tail: seq<Line>)
    requires Told(tail, KINDS, TrimsTo(PHASE_HEADERS[1]), Header2)
    ensures FindIn(tail, TrimsTo(PHASE_HEADERS[1]), 0, 10) == FindIn(tail, TrimsTo(PHASE_HEADERS[1]), 2, 10) == Some(6)
  {
    FirstKinds();
    FindKind(tail, KINDS, TrimsTo(PHASE_HEADERS[1]), Header2, 0, 10, 6);
    FindKind(tail, KINDS, TrimsTo(PHASE_HEADERS[1]), Header2, 2, 10, 6);
  }

  lemma TableHeads(tail: seq<Line>)
    requires Told(tail, KINDS, IsPhaseTableHeader, TableHead)
    ensures FindIn(tail, IsPhaseTableHeader, 1, 6) == Some(2) && FindIn(tail, IsPhaseTableHeader, 6, 10) == Some(7)
  {
    FirstKinds();
    FindKind(tail, KINDS, IsPhaseTableHeader, TableHead, 1, 6, 2);
    FindKind(tail, KINDS, IsPhaseTableHeader, TableHead, 6, 10, 7);
  }

  lemma FirstTable(tail: seq<Line>)
    requires |tail| == 10 && Kinded(tail, 0, KINDS)
    ensures PhaseTableAt(tail, PHASE_HEADERS[0], Some(PHASE_HEADERS[1])) == Ok(2)
  {
    KindsTell(tail, KINDS);
    FirstHeader(tail);
    SecondHeader(tail);
    TableHeads(tail);
    PhaseTableFromHeader(tail, PHASE_HEADERS[0], Some(PHASE_HEADERS[1]), 1);
    TableBelowIs(tail, Some(PHASE_HEADERS[1]), 1, 6);
  }

  lemma SecondTable(tail: seq<Line>)
    requires |tail| == 10 && Kinded(tail, 0, KINDS)
    ensures PhaseTableAt(tail, PHASE_HEADERS[1], None) == Ok(7)
  {
    KindsTell(tail, KINDS);
    SecondHeader(tail);
    TableHeads(tail);
    PhaseTableFromHeader(tail, PHASE_HEADERS[1], None, 6);
  }

  /** The lines of the tail that no step changes. */
  lemma TailLinesAre(modules: seq<ModuleConfig>)
    requires modules != []
    ensures var tail := Tail(modules);
            && tail[2] == tail[7] == PHASE_TABLE_HEADER && tail[3] == tail[8] == PHASE_TABLE_SEPARATOR
            && tail[4] == tail[9] == Stale(modules)
  {
  }

  lemma FixedRows(tail: seq<Line>)
    requires |tail| == 10 && Kinded(tail, 0, KINDS)
    ensures Begins(tail[3], '|') && Begins(tail[4], '|') && !Begins(tail[5], '|') && Begins(tail[8], '|') && Begins(tail[9], '|')
  {
    assert IsKind(tail[0 + 3], KINDS[3]) && IsKind(tail[0 + 4], KINDS[4]) && IsKind(tail[0 + 5], KINDS[5]);
    assert IsKind(tail[0 + 8], KINDS[8]) && IsKind(tail[0 + 9], KINDS[9]);
  }

  lemma TailIsReady(modules: seq<ModuleConfig>)
    requires Listed(modules)
    ensures var tail := Tail(modules);
            && Kinded(tail, 0, KINDS) && NamedRow(tail[4], modules) && NamedRow(tail[9], modules)
            && tail[2] == tail[7] == PHASE_TABLE_HEADER && tail[3] == tail[8] == PHASE_TABLE_SEPARATOR
  {
    TailIsKinded([], modules);
    assert [] + Tail(modules) == Tail(modules);
    TailLinesAre(modules);
    StaleIsNamed(modules);
  }

  lemma BothSteps(lines: seq<Line>, first: seq<Line>, second: seq<Line>, modules: seq<ModuleConfig>, counts: seq<Counts>)
    requires |counts| == |modules|
    requires PhaseStep(lines, PHASE_HEADERS[0], Some(PHASE_HEADERS[1]), modules, counts) == Ok(first)
    requires PhaseStep(first, PHASE_HEADERS[1], None, modules, counts) == Ok(second)
    ensures PhasesFrom(lines, 0, modules, counts) == Ok(second)
  {
    TwoPhases(lines, modules, counts);
  }

  /** Left to themselves, both Phase tables become fresh. */
  lemma TailRuns(modules: seq<ModuleConfig>, counts: seq<Counts>)
    requires Fits(modules, counts)
    ensures PhasesFrom(Tail(modules), 0, modules, counts) == Ok(Tail(modules)[4 := Fresh(modules, counts)][9 := Fresh(modules, counts)])
  {
    var tail, row := Tail(modules), Fresh(modules, counts);
    TailIsReady(modules);
    TailSteps(tail, modules, counts);
    BothSteps(tail, tail[4 := row], tail[4 := row][9 := row], modules, counts);
  }

  lemma TailSteps(tail: seq<Line>, modules: seq<ModuleConfig>, counts: seq<Counts>)
    requires Fits(modules, counts) && |tail| == 10 && Kinded(tail, 0, KINDS)
    requires tail[2] == tail[7] == PHASE_TABLE_HEADER && tail[3] == tail[8] == PHASE_TABLE_SEPARATOR
    requires NamedRow(tail[4], modules) && NamedRow(tail[9], modules)
    ensures PhaseStep(tail, PHASE_HEADERS[0], Some(PHASE_HEADERS[1]), modules, counts) == Ok(tail[4 := Fresh(modules, counts)])
    ensures PhaseStep(tail[4 := Fresh(modules, counts)], PHASE_HEADERS[1], None, modules, counts)
            == Ok(tail[4 := Fresh(modules, counts)][9 := Fresh(modules, counts)])
  {
    FirstTailStep(tail, modules, counts);
    FirstTailShape(tail, modules, counts);
    SecondTailStep(tail[4 := Fresh(modules, counts)], modules, counts);
  }

  lemma FirstTailStep(tail: seq<Line>, modules: seq<ModuleConfig>, counts: seq<Counts>)
    requires Fits(modules, counts) && |tail| == 10 && Kinded(tail, 0, KINDS) && NamedRow(tail[4], modules)
    requires tail[2] == PHASE_TABLE_HEADER && tail[3] == PHASE_TABLE_SEPARATOR
    ensures PhaseStep(tail, PHASE_HEADERS[0], Some(PHASE_HEADERS[1]), modules, counts) == Ok(tail[4 := Fresh(modules, counts)])
  {
    FirstTable(tail);
    FixedRows(tail);
    OneRowStep(tail, PHASE_HEADERS[0], Some(PHASE_HEADERS[1]), 2, modules, counts);
  }

  lemma FirstTailShape(tail: seq<Line>, modules: seq<ModuleConfig>, counts: seq<Counts>)
    requires Fits(modules, counts) && |tail| == 10 && Kinded(tail, 0, KINDS)
    ensures Kinded(tail[4 := Fresh(modules, counts)], 0, KINDS)
  {
    StaleRows(modules, counts);
    RowKeepsKinds(tail, 0, KINDS, 4, Fresh(modules, counts), modules);
  }

  lemma SecondTailStep(tail: seq<Line>, modules: seq<ModuleConfig>, counts: seq<Counts>)
    requires Fits(modules, counts) && |tail| == 10 && Kinded(tail, 0, KINDS) && NamedRow(tail[9], modules)
    requires tail[7] == PHASE_TABLE_HEADER && tail[8] == PHASE_TABLE_SEPARATOR
    ensures PhaseStep(tail, PHASE_HEADERS[1], None, modules, counts) == Ok(tail[9 := Fresh(modules, counts)])
  {
    SecondTable(tail);
    FixedRows(tail);
    OneRowStep(tail, PHASE_HEADERS[1], None, 7, modules, counts);
  }

  /* ---- behind a harmful section ---- */

  /** A phase's table is no later than any table below any line that reads as its header. */
  lemma EarlyTable(lines: seq<Line>, header: string, next: Option<string>, at: nat, h: nat, t: nat)
    requires PhaseTableAt(lines, header, next) == Ok(at)
    requires h <= t < |lines| && TrimsTo(header)(lines[h]) && IsPhaseTableHeader(lines[t])
    ensures at <= t
  {
    var h0, end := PhaseTableParts(lines, header, next, at);
    FindInMeaning(lines, TrimsTo(header), 0, |lines|);
    FindInMeaning(lines, IsPhaseTableHeader, h0, end);
  }

  lemma StepRewritesRows(lines: seq<Line>, header: string, next: Option<string>, modules: seq<ModuleConfig>, counts: seq<Counts>, out: seq<Line>, at: nat)
    returns (end: nat)
    requires Fits(modules, counts) && PhaseStep(lines, header, next, modules, counts) == Ok(out)
    requires PhaseTableAt(lines, header, next) == Ok(at)
    ensures at < end <= |lines| == |out| && SameHeadings(lines, out) && AllRows(lines[at..end])
    ensures forall q | 0 <= q < |lines| && !(at <= q < end) :: out[q] == lines[q]
  {
    var at';
    at', end := PhaseStepShape(lines, header, next, modules, counts, out);
    SteppedKeepsHeadings(lines, out, modules, at, end);
    RunsAreRows(lines, out, modules, Kinds(modules), at, end);
  }

  /** A step changes nothing at or behind a line that is no row, when its table starts before that line. */
  lemma StepLeaves(lines: seq<Line>, header: string, next: Option<string>, modules: seq<ModuleConfig>, counts: seq<Counts>, out: seq<Line>, at: nat, b: nat)
    requires Fits(modules, counts) && PhaseStep(lines, header, next, modules, counts) == Ok(out)
    requires PhaseTableAt(lines, header, next) == Ok(at) && at <= b < |lines| && !Begins(lines[b], '|')
    ensures SameHeadings(lines, out) && forall q | b <= q < |lines| :: out[q] == lines[q]
  {
    var end := StepRewritesRows(lines, header, next, modules, counts, out, at);
    RowsEndBefore(lines, at, end, b);
  }

  lemma RowsEndBefore(lines: seq<Line>, at: nat, end: nat, b: nat)
    requires at < end <= |lines| && AllRows(lines[at..end]) && at <= b < |lines| && !Begins(lines[b], '|')
    ensures end <= b
  {
    forall i | at <= i < end ensures Begins(lines[i], '|') {
      assert lines[at..end][i - at] == lines[i];
    }
  }

  /** A step leaves everything above its table. */
  lemma StepLeavesAbove(lines: seq<Line>, header: string, next: Option<string>, modules: seq<ModuleConfig>, counts: seq<Counts>, out: seq<Line>, at: nat)
    requires Fits(modules, counts) && PhaseStep(lines, header, next, modules, counts) == Ok(out)
    requires PhaseTableAt(lines, header, next) == Ok(at)
    ensures |out| == |lines| && forall q | 0 <= q < at && q < |lines| :: out[q] == lines[q]
  {
    var end := StepRewritesRows(lines, header, next, modules, counts, out, at);
  }

  lemma StepHasTable(lines: seq<Line>, header: string, next: Option<string>, modules: seq<ModuleConfig>, counts: seq<Counts>, out: seq<Line>) returns (at: nat)
    requires Fits(modules, counts) && PhaseStep(lines, header, next, modules, counts) == Ok(out)
    ensures PhaseTableAt(lines, header, next) == Ok(at) && at < |lines| && IsPhaseTableHeader(lines[at])
  {
    PhaseStepFromTable(lines, header, next, modules, counts);
    PhaseTableAtBounds(lines, header, next);
    at := PhaseTableAt(lines, header, next).value;
  }

  /** The table head found by a step is a table head afterwards. */
  lemma StepKeepsHead(lines: seq<Line>, header: string, next: Option<string>, modules: seq<ModuleConfig>, counts: seq<Counts>, out: seq<Line>, at: nat)
    requires Fits(modules, counts) && PhaseStep(lines, header, next, modules, counts) == Ok(out)
    requires PhaseTableAt(lines, header, next) == Ok(at)
    ensures at < |out| && IsPhaseTableHeader(out[at])
  {
    TableHeadIsHead();
    StepWritesHead(lines, header, next, modules, counts, out, at);
  }

  lemma StepWritesHead(lines: seq<Line>, header: string, next: Option<string>, modules: seq<ModuleConfig>, counts: seq<Counts>,
                       out: seq<Line>, at: nat)
    requires |counts| == |modules| && WellFormedModules(modules) && PhaseStep(lines, header, next, modules, counts) == Ok(out)
    requires PhaseTableAt(lines, header, next) == Ok(at)
    ensures at < |out| && out[at] == PHASE_TABLE_HEADER
  {
    var at', end := PhaseStepShape(lines, header, next, modules, counts, out);
    BlockLands(lines, at, end, PhaseRows(lines[at + 2..end], modules, counts).value);
  }

  lemma TableHeadIsHead()
    ensures IsPhaseTableHeader(PHASE_TABLE_HEADER)
  {
    HeaderCells();
  }

  lemma BlockLands(lines: seq<Line>, from: nat, to: nat, rows: seq<Line>)
    requires from <= to <= |lines|
    ensures var out := Splice(lines, from, to, PhaseBlock(rows)); |out| > from && out[from] == PHASE_TABLE_HEADER
  {
    assert PhaseBlock(rows)[0] == PHASE_TABLE_HEADER;
  }

  /** What the lines of the tail are read as, behind a section. */
  lemma TailBehind(section: seq<Line>, modules: seq<ModuleConfig>)
    requires Listed(modules)
    ensures var lines, n := section + Tail(modules), |section|;
            && |lines| == n + 10 && TrimsTo(PHASE_HEADERS[0])(lines[n + 1]) && IsPhaseTableHeader(lines[n + 2])
            && !Begins(lines[n], '|') && !Begins(lines[n + 1], '|') && !Begins(lines[n + 5], '|')
            && lines[n + 4] == lines[n + 9] == Stale(modules)
            && forall i | n <= i < n + 6 :: !TrimsTo(PHASE_HEADERS[1])(lines[i])
  {
    var lines, n := section + Tail(modules), |section|;
    TailIsKinded(section, modules);
    TailLinesAre(modules);
    assert lines[n + 4] == Tail(modules)[4] && lines[n + 9] == Tail(modules)[9];
    BehindKinds(lines, n);
  }

  lemma BehindKinds(lines: seq<Line>, n: nat)
    requires Kinded(lines, n, KINDS)
    ensures TrimsTo(PHASE_HEADERS[0])(lines[n + 1]) && IsPhaseTableHeader(lines[n + 2])
    ensures !Begins(lines[n], '|') && !Begins(lines[n + 1], '|') && !Begins(lines[n + 5], '|')
    ensures forall i | n <= i < n + 6 :: !TrimsTo(PHASE_HEADERS[1])(lines[i])
  {
    assert IsKind(lines[n + 0], KINDS[0]) && IsKind(lines[n + 1], KINDS[1]) && IsKind(lines[n + 2], KINDS[2]);
    assert IsKind(lines[n + 5], KINDS[5]);
    forall i | n <= i < n + 6 ensures !TrimsTo(PHASE_HEADERS[1])(lines[i]) {
      assert IsKind(lines[n + (i - n)], KINDS[i - n]);
    }
  }

  /** The first table found behind any section is no later than the first table of the tail. */
  lemma FirstTableIsEarly(section: seq<Line>, modules: seq<ModuleConfig>, at: nat)
    requires Listed(modules)
    requires PhaseTableAt(section + Tail(modules), PHASE_HEADERS[0], Some(PHASE_HEADERS[1])) == Ok(at)
    ensures at <= |section| + 2
  {
    TailBehind(section, modules);
    EarlyTable(section + Tail(modules), PHASE_HEADERS[0], Some(PHASE_HEADERS[1]), at, |section| + 1, |section| + 2);
  }

  /** The first step of the loop, behind any section: it reaches no further than the first table of the tail. */
  lemma FirstStep(section: seq<Line>, modules: seq<ModuleConfig>, counts: seq<Counts>, first: seq<Line>) returns (at: nat)
    requires Fits(modules, counts)
    requires PhaseStep(section + Tail(modules), PHASE_HEADERS[0], Some(PHASE_HEADERS[1]), modules, counts) == Ok(first)
    ensures PhaseTableAt(section + Tail(modules), PHASE_HEADERS[0], Some(PHASE_HEADERS[1])) == Ok(at)
    ensures at <= |section| + 2 && at < |section + Tail(modules)| && Begins((section + Tail(modules))[at], '|')
    ensures SameHeadings(section + Tail(modules), first) && |first| == |section| + 10
    ensures !Begins(first[|section| + 5], '|') && first[|section| + 9] == Stale(modules)
  {
    at := StepHasTable(section + Tail(modules), PHASE_HEADERS[0], Some(PHASE_HEADERS[1]), modules, counts, first);
    TableHeaderIsRow((section + Tail(modules))[at]);
    FirstTableIsEarly(section, modules, at);
    FirstStepLeaves(section, modules, counts, first, at);
  }

  lemma FirstStepLeaves(section: seq<Line>, modules: seq<ModuleConfig>, counts: seq<Counts>, first: seq<Line>, at: nat)
    requires Fits(modules, counts) && at <= |section| + 2
    requires PhaseStep(section + Tail(modules), PHASE_HEADERS[0], Some(PHASE_HEADERS[1]), modules, counts) == Ok(first)
    requires PhaseTableAt(section + Tail(modules), PHASE_HEADERS[0], Some(PHASE_HEADERS[1])) == Ok(at)
    ensures SameHeadings(section + Tail(modules), first) && |first| == |section| + 10
    ensures !Begins(first[|section| + 5], '|') && first[|section| + 9] == Stale(modules)
  {
    TailBehind(section, modules);
    StepLeaves(section + Tail(modules), PHASE_HEADERS[0], Some(PHASE_HEADERS[1]), modules, counts, first, at, |section| + 5);
  }

  lemma HeadStays(section: seq<Line>, modules: seq<ModuleConfig>, counts: seq<Counts>, first: seq<Line>, at: nat)
    requires Fits(modules, counts)
    requires PhaseStep(section + Tail(modules), PHASE_HEADERS[0], Some(PHASE_HEADERS[1]), modules, counts) == Ok(first)
    requires PhaseTableAt(section + Tail(modules), PHASE_HEADERS[0], Some(PHASE_HEADERS[1])) == Ok(at)
    requires at <= |section| + 2 && at < |section + Tail(modules)| && Begins((section + Tail(modules))[at], '|')
    ensures |section| + 2 < |first| && IsPhaseTableHeader(first[|section| + 2])
  {
    TailBehind(section, modules);
    if at == |section| + 2 {
      StepKeepsHead(section + Tail(modules), PHASE_HEADERS[0], Some(PHASE_HEADERS[1]), modules, counts, first, at);
    } else {
      StepLeaves(section + Tail(modules), PHASE_HEADERS[0], Some(PHASE_HEADERS[1]), modules, counts, first, at, |section|);
    }
  }

  lemma HeaderStays(section: seq<Line>, rest: seq<Line>, out: seq<Line>, i: nat)
    requires SameHeadings(section + rest, out) && i < |section| && TrimsTo(PHASE_HEADERS[1])(section[i])
    ensures i < |out| && TrimsTo(PHASE_HEADERS[1])(out[i])
  {
    assert (section + rest)[i] == section[i];
    SameHeadingSearches(section + rest, out, PHASE_HEADERS[1]);
  }

  /** What the first step leaves below a section, and in it. */
  lemma AfterFirstStep(section: seq<Line>, modules: seq<ModuleConfig>, counts: seq<Counts>, first: seq<Line>)
    requires Fits(modules, counts)
    requires PhaseStep(section + Tail(modules), PHASE_HEADERS[0], Some(PHASE_HEADERS[1]), modules, counts) == Ok(first)
    ensures SameHeadings(section + Tail(modules), first) && |first| == |section| + 10
    ensures IsPhaseTableHeader(first[|section| + 2]) && !Begins(first[|section| + 5], '|') && first[|section| + 9] == Stale(modules)
  {
    var at := FirstStep(section, modules, counts, first);
    HeadStays(section, modules, counts, first, at);
  }

  lemma AfterFirstStepHidden(section: seq<Line>, modules: seq<ModuleConfig>, counts: seq<Counts>, i: nat, first: seq<Line>)
    requires Fits(modules, counts) && i < |section| && TrimsTo(PHASE_HEADERS[1])(section[i])
    requires PhaseStep(section + Tail(modules), PHASE_HEADERS[0], Some(PHASE_HEADERS[1]), modules, counts) == Ok(first)
    ensures |first| == |section| + 10 && TrimsTo(PHASE_HEADERS[1])(first[i]) && IsPhaseTableHeader(first[|section| + 2])
    ensures !Begins(first[|section| + 5], '|') && first[|section| + 9] == Stale(modules)
  {
    AfterFirstStep(section, modules, counts, first);
    HeaderStays(section, Tail(modules), first, i);
  }

  /** A section that hides the Phase 2 header keeps the second table of the tail from being refreshed. */
  lemma HiddenSecond(section: seq<Line>, modules: seq<ModuleConfig>, counts: seq<Counts>, i: nat)
    requires Fits(modules, counts) && i < |section| && TrimsTo(PHASE_HEADERS[1])(section[i])
    ensures var low := PhasesFrom(section + Tail(modules), 0, modules, counts);
            low.Ok? ==> |low.value| == |section| + 10 && low.value[|section| + 9] == Stale(modules)
  {
    TwoPhases(section + Tail(modules), modules, counts);
    var first := PhaseStep(section + Tail(modules), PHASE_HEADERS[0], Some(PHASE_HEADERS[1]), modules, counts);
    if first.Ok? {
      AfterFirstStepHidden(section, modules, counts, i, first.value);
      SecondLeavesStale(first.value, modules, counts, i, |section|);
    }
  }

  lemma SecondLeavesStale(f: seq<Line>, modules: seq<ModuleConfig>, counts: seq<Counts>, i: nat, n: nat)
    requires Fits(modules, counts) && |f| == n + 10 && i < n && TrimsTo(PHASE_HEADERS[1])(f[i]) && IsPhaseTableHeader(f[n + 2])
    requires !Begins(f[n + 5], '|')
    ensures var second := PhaseStep(f, PHASE_HEADERS[1], None, modules, counts);
            second.Ok? ==> |second.value| == n + 10 && second.value[n + 9] == f[n + 9]
  {
    var second := PhaseStep(f, PHASE_HEADERS[1], None, modules, counts);
    if second.Ok? {
      SecondStepIsEarly(f, modules, counts, second.value, i, n);
    }
  }

  lemma SecondStepIsEarly(f: seq<Line>, modules: seq<ModuleConfig>, counts: seq<Counts>, out: seq<Line>, i: nat, n: nat)
    requires Fits(modules, counts) && |f| == n + 10 && i < n && TrimsTo(PHASE_HEADERS[1])(f[i]) && IsPhaseTableHeader(f[n + 2])
    requires !Begins(f[n + 5], '|') && PhaseStep(f, PHASE_HEADERS[1], None, modules, counts) == Ok(out)
    ensures |out| == n + 10 && out[n + 9] == f[n + 9]
  {
    var at := StepHasTable(f, PHASE_HEADERS[1], None, modules, counts, out);
    EarlyTable(f, PHASE_HEADERS[1], None, at, i, n + 2);
    StepLeaves(f, PHASE_HEADERS[1], None, modules, counts, out, at, n + 5);
  }

  /** A section that hides the Phase 1 header above a table keeps the first table of the tail from being refreshed. */
  lemma HiddenFirst(section: seq<Line>, modules: seq<ModuleConfig>, counts: seq<Counts>, i: nat, j: nat)
    requires Fits(modules, counts) && NoHeader(section, PHASE_HEADERS[1]) && i <= j < |section|
    requires TrimsTo(PHASE_HEADERS[0])(section[i]) && IsPhaseTableHeader(section[j])
    ensures var low := PhasesFrom(section + Tail(modules), 0, modules, counts);
            low.Ok? ==> |low.value| == |section| + 10 && low.value[|section| + 4] == Stale(modules)
  {
    var lines, n, next := section + Tail(modules), |section|, Some(PHASE_HEADERS[1]);
    TwoPhases(lines, modules, counts);
    var first := PhaseStep(lines, PHASE_HEADERS[0], next, modules, counts);
    if first.Ok? {
      var f := first.value;
      TailBehind(section, modules);
      assert lines[i] == section[i] && lines[j] == section[j];
      var at := StepHasTable(lines, PHASE_HEADERS[0], next, modules, counts, f);
      EarlyTable(lines, PHASE_HEADERS[0], next, at, i, j);
      StepLeaves(lines, PHASE_HEADERS[0], next, modules, counts, f, at, n);
      var second := PhaseStep(f, PHASE_HEADERS[1], None, modules, counts);
      if second.Ok? {
        SecondStepIsBelow(section, modules, counts, f, second.value);
      }
    }
  }

  lemma SecondStepIsBelow(section: seq<Line>, modules: seq<ModuleConfig>, counts: seq<Counts>, f: seq<Line>, out: seq<Line>)
    requires Fits(modules, counts) && NoHeader(section, PHASE_HEADERS[1]) && SameHeadings(section + Tail(modules), f)
    requires PhaseStep(f, PHASE_HEADERS[1], None, modules, counts) == Ok(out)
    ensures |out| == |f| && out[|section| + 4] == f[|section| + 4]
  {
    var lines, n := section + Tail(modules), |section|;
    TailBehind(section, modules);
    SameHeadingSearches(lines, f, PHASE_HEADERS[1]);
    var at := StepHasTable(f, PHASE_HEADERS[1], None, modules, counts, out);
    var h, end := PhaseTableParts(f, PHASE_HEADERS[1], None, at);
    FindInMeaning(f, TrimsTo(PHASE_HEADERS[1]), 0, |f|);
    FindInMeaning(f, IsPhaseTableHeader, h, end);
    forall i | 0 <= i < n ensures !TrimsTo(PHASE_HEADERS[1])(lines[i]) {
      assert lines[i] == section[i] && section[i] in section;
    }
    StepLeavesAbove(f, PHASE_HEADERS[1], None, modules, counts, out, at);
  }

  /** Behind a harmful section the tail is not rewritten as it is on its own. */
  lemma HarmShows(section: seq<Line>, modules: seq<ModuleConfig>, counts: seq<Counts>)
    requires Fits(modules, counts) && !Harmless(section)
    ensures PhasesFrom(section + Tail(modules), 0, modules, counts) != Prepend(section, PhasesFrom(Tail(modules), 0, modules, counts))
  {
    var settled := Tail(modules)[4 := Fresh(modules, counts)][9 := Fresh(modules, counts)];
    TailRuns(modules, counts);
    StaleRows(modules, counts);
    assert (section + settled)[|section| + 4] == settled[4] && (section + settled)[|section| + 9] == settled[9];
    if !NoHeader(section, PHASE_HEADERS[1]) {
      var l :| l in section && TrimsTo(PHASE_HEADERS[1])(l);
      var i :| 0 <= i < |section| && section[i] == l;
      HiddenSecond(section, modules, counts, i);
    } else {
      var i, j :| 0 <= i <= j < |section| && TrimsTo(PHASE_HEADERS[0])(section[i]) && IsPhaseTableHeader(section[j]);
      HiddenFirst(section, modules, counts, i, j);
    }
  }

  /* ---- the checklist is well laid ---- */

  /** A head on which the bullets of the modules can be counted, as lines of a file. */
  ghost predicate Counted(head: seq<Line>, modules: seq<ModuleConfig>)
  {
    HeadLaid(head) && (forall l <- head :: '\n' !in l) && ComputeCounts(head, modules).Ok?
  }

  lemma TableIsLaid()
    ensures TableLaid([TABLE_HEADER])
  {
    HeaderCells();
    assert TABLE_HEADER[0] == TABLE_HEADER_PREFIX[0] == '|';
  }

  lemma HeaderSectionIsLaid()
    ensures SectionLaid([PHASE_0_HEADER])
  {
    HeaderTrims();
    HeadersDiffer(PHASE_0_HEADER);
  }

  lemma GapsAreLaid()
    ensures MidLaid([""]) && GapLaid([""])
  {
    BlankIsPlain();
  }

  lemma BlankIsPlain()
    ensures Plain("") && !IsNote("")
  {
  }

  lemma TailIsLaid(modules: seq<ModuleConfig>)
    requires modules != []
    ensures TailLaid(Tail(modules), 1)
  {
    var tail := Tail(modules);
    assert tail[0] == LineOf(KINDS[0], Stale(modules)) && tail[1] == LineOf(KINDS[1], Stale(modules));
    HeaderTrims();
  }

  lemma ChecklistIsLaid(head: seq<Line>, modules: seq<ModuleConfig>)
    requires HeadLaid(head) && modules != []
    ensures WellLaid(Checklist(head, modules))
  {
    TableIsLaid();
    GapsAreLaid();
    NoteIsNoteBlock();
    HeaderSectionIsLaid();
    TailIsLaid(modules);
  }

  /* ---- the checklist as a file ---- */

  lemma TailIsClean(modules: seq<ModuleConfig>)
    requires Listed(modules)
    ensures forall l <- Tail(modules) :: '\n' !in l
  {
    forall l <- Tail(modules) ensures '\n' !in l {
      var i :| 0 <= i < 10 && Tail(modules)[i] == l;
      LineIsClean(KINDS[i], modules);
    }
  }

  lemma LineIsClean(k: LineKind, modules: seq<ModuleConfig>)
    requires Listed(modules)
    ensures '\n' !in LineOf(k, Stale(modules))
  {
    CF.FixedLinesSolid();
    PhasesAreOneLine();
    assert WellFormedModule(modules[0]);
    CF.RowOfSolid(modules[0].rowLabel, "");
  }

  lemma PartsAreClean(a: seq<Line>, b: seq<Line>)
    requires (forall l <- a :: '\n' !in l) && forall l <- b :: '\n' !in l
    ensures forall l <- a + b :: '\n' !in l
  {
  }

  lemma ChecklistIsClean(head: seq<Line>, modules: seq<ModuleConfig>)
    requires Listed(modules) && forall l <- head :: '\n' !in l
    ensures CleanLines(Assemble(Checklist(head, modules)))
  {
    CF.FixedLinesSolid();
    NoteIsSolid();
    Phase0IsOneLine();
    TailIsClean(modules);
    PartsAreClean(head, [TABLE_HEADER]);
    PartsAreClean(head + [TABLE_HEADER], [""]);
    PartsAreClean(head + [TABLE_HEADER] + [""], NOTE_LINES);
    PartsAreClean(head + [TABLE_HEADER] + [""] + NOTE_LINES, [""]);
    PartsAreClean(head + [TABLE_HEADER] + [""] + NOTE_LINES + [""], [PHASE_0_HEADER]);
    PartsAreClean(head + [TABLE_HEADER] + [""] + NOTE_LINES + [""] + [PHASE_0_HEADER], Tail(modules));
    assert Assemble(Checklist(head, modules)) != [];
  }

  /** The checklist, as a file. */
  function ChecklistText(head: seq<Line>, modules: seq<ModuleConfig>): string
    requires modules != []
  {
    TextOf(Assemble(Checklist(head, modules)), true)
  }

  lemma ChecklistIsFile(head: seq<Line>, modules: seq<ModuleConfig>)
    requires Listed(modules) && Counted(head, modules)
    ensures LaidFile(ChecklistText(head, modules), Checklist(head, modules)) && EndsWithNewline(ChecklistText(head, modules))
  {
    ChecklistIsLaid(head, modules);
    ChecklistIsClean(head, modules);
    LinesReadBack(Assemble(Checklist(head, modules)), true);
  }

  /* ---- when the order matters ---- */

  /** Harm in the section makes the orders part on this checklist, on any day. */
  lemma OrdersPart(head: seq<Line>, modules: seq<ModuleConfig>, tests: seq<StableTest>, today: string)
    requires Listed(modules) && Counted(head, modules) && !Harmless(Flat(Section(tests))) && '\n' !in today
    ensures LaidFile(ChecklistText(head, modules), Checklist(head, modules))
    ensures !OrdersAgree(ChecklistText(head, modules), modules, today, tests)
  {
    ChecklistIsFile(head, modules);
    CountsPerModule(head, modules);
    var counts := ComputeCounts(head, modules).value;
    HarmShows(Flat(Section(tests)), modules, counts);
    OrdersAgreeIff(ChecklistText(head, modules), Checklist(head, modules), modules, today, tests, counts);
  }

  /** Whatever well-laid checklist the generators meet in, and on whatever day, the order does not matter. */
  ghost predicate OrderNeverMatters(tests: seq<StableTest>, modules: seq<ModuleConfig>)
  {
    forall original, l, today :: LaidFile(original, l) && '\n' !in today ==> OrdersAgree(original, modules, today, tests)
  }

  lemma HeadOfFileIsClean(original: string, l: Layout)
    requires LaidFile(original, l)
    ensures forall line <- l.head :: '\n' !in line
  {
    LinesOfClean(original);
    AssembleNested(l);
    forall line <- l.head ensures '\n' !in line {
      assert line in Assemble(l);
    }
  }

  /**
   * For any one module list and any one set of tests, the generators commute on every well-laid
   * checklist file if and only if their section, read back line by line, does no harm; a list
   * that can be counted on no head stops the checklist generator in either order.
   */
  lemma CommuteIffHarmless(tests: seq<StableTest>, modules: seq<ModuleConfig>)
    requires Listed(modules)
    ensures OrderNeverMatters(tests, modules)
       <==> (Harmless(Flat(Section(tests))) || !exists head :: Counted(head, modules))
  {
    if !Harmless(Flat(Section(tests))) && exists head :: Counted(head, modules) {
      var head :| Counted(head, modules);
      OrdersPart(head, modules, tests, "");
    } else {
      forall original, l, today | LaidFile(original, l) && '\n' !in today ensures OrdersAgree(original, modules, today, tests) {
        HeadOfFileIsClean(original, l);
        if Counted(l.head, modules) {
          GeneratorsCommute(original, l, modules, today, tests);
        } else {
          UncountedOrdersAgree(original, l, modules, today, tests);
        }
      }
    }
  }

  /* ---- a title with the Phase 2 header on a line of its own ---- */

  /** A section whose only landmarks are Phase 2 headers. */
  ghost predicate OnlyPhase2(section: seq<Line>)
  {
    && NoHeader(section, PHASE_HEADERS[0]) && !NoHeader(section, PHASE_HEADERS[1])
    && forall l <- section :: !IsPhaseTableHeader(l)
  }

  lemma HiddenHeaderAt(section: seq<Line>, lines: seq<Line>) returns (i: nat)
    requires !NoHeader(section, PHASE_HEADERS[1])
    ensures i < |section| && PhaseTableAt(section + lines, PHASE_HEADERS[1], None) == TableBelow(section + lines, PHASE_HEADERS[1], None, i)
  {
    var l :| l in section && TrimsTo(PHASE_HEADERS[1])(l);
    FindInMeaning(section, TrimsTo(PHASE_HEADERS[1]), 0, |section|);
    i := FindIn(section, TrimsTo(PHASE_HEADERS[1]), 0, |section|).value;
    FindInFront(section, lines, TrimsTo(PHASE_HEADERS[1]), 0);
    PhaseTableFromHeader(section + lines, PHASE_HEADERS[1], None, i);
  }

  lemma FirstTableHead()
    ensures FirstOf(KINDS, TableHead, 0, 2)
  {
  }

  lemma TailTableHead(lines: seq<Line>)
    requires |lines| == 10 && Kinded(lines, 0, KINDS)
    ensures FindIn(lines, IsPhaseTableHeader, 0, 10) == Some(2)
  {
    KindsTell(lines, KINDS);
    FirstTableHead();
    FindKind(lines, KINDS, IsPhaseTableHeader, TableHead, 0, 10, 2);
  }

  lemma FindBehind(section: seq<Line>, lines: seq<Line>, p: Line -> bool, i: nat, k: nat)
    requires i < |section| && (forall l <- section :: !p(l)) && FindIn(lines, p, 0, |lines|) == Some(k)
    ensures FindIn(section + lines, p, i, |section + lines|) == Some(|section| + k)
  {
    forall j | i <= j < |section| ensures !p(section[j]) {
      assert section[j] in section;
    }
    FindOn(section, lines, p, i, |lines|);
  }

  lemma TableToTheEnd(lines: seq<Line>, i: nat, at: nat)
    requires i < |lines| && FindIn(lines, IsPhaseTableHeader, i, |lines|) == Some(at)
    ensures TableBelow(lines, PHASE_HEADERS[1], None, i) == Ok(at)
  {
  }

  /** The Phase 2 header found in such a section leads to the first table of the tail. */
  lemma WrongTable(section: seq<Line>, lines: seq<Line>)
    requires OnlyPhase2(section) && |lines| == 10 && Kinded(lines, 0, KINDS)
    ensures PhaseTableAt(section + lines, PHASE_HEADERS[1], None) == Ok(|section| + 2)
  {
    var i := HiddenHeaderAt(section, lines);
    TailTableHead(lines);
    FindBehind(section, lines, IsPhaseTableHeader, i, 2);
    TableToTheEnd(section + lines, i, |section| + 2);
  }

  /** The first table of the tail is written twice, the second one not at all. */
  lemma WrongTableTwice(section: seq<Line>, modules: seq<ModuleConfig>, counts: seq<Counts>)
    requires Fits(modules, counts) && OnlyPhase2(section)
    ensures PhasesFrom(section + Tail(modules), 0, modules, counts) == Ok(section + Tail(modules)[4 := Fresh(modules, counts)])
  {
    var tail, first := Tail(modules), Tail(modules)[4 := Fresh(modules, counts)];
    TailIsReady(modules);
    FirstTailStep(tail, modules, counts);
    FirstTailShape(tail, modules, counts);
    PhaseStepShifted(section, tail, PHASE_HEADERS[0], Some(PHASE_HEADERS[1]), modules, counts);
    SecondStepIsFirst(section, first, modules, counts);
    BothSteps(section + tail, section + first, section + first, modules, counts);
  }

  lemma SecondStepIsFirst(section: seq<Line>, first: seq<Line>, modules: seq<ModuleConfig>, counts: seq<Counts>)
    requires Fits(modules, counts) && OnlyPhase2(section) && |first| == 10 && Kinded(first, 0, KINDS)
    requires first[2] == PHASE_TABLE_HEADER && first[3] == PHASE_TABLE_SEPARATOR && first[4] == Fresh(modules, counts)
    ensures PhaseStep(section + first, PHASE_HEADERS[1], None, modules, counts) == Ok(section + first)
  {
    WrongTable(section, first);
    FixedRows(first);
    StaleRows(modules, counts);
    FreshRowBehind(section, first, modules, counts);
  }

  lemma FreshRowBehind(section: seq<Line>, first: seq<Line>, modules: seq<ModuleConfig>, counts: seq<Counts>)
    requires Fits(modules, counts) && |first| > 5 && PhaseTableAt(section + first, PHASE_HEADERS[1], None) == Ok(|section| + 2)
    requires first[2] == PHASE_TABLE_HEADER && first[3] == PHASE_TABLE_SEPARATOR && first[4] == Fresh(modules, counts)
    requires Begins(first[3], '|') && NamedRow(first[4], modules) && !Begins(first[5], '|')
    ensures PhaseStep(section + first, PHASE_HEADERS[1], None, modules, counts) == Ok(section + first)
  {
    LinesBehind(section, first);
    FreshRowStays(section + first, |section| + 2, modules, counts);
  }

  lemma LinesBehind(section: seq<Line>, lines: seq<Line>)
    requires |lines| > 5
    ensures var all, n := section + lines, |section|;
            all[n + 2] == lines[2] && all[n + 3] == lines[3] && all[n + 4] == lines[4] && all[n + 5] == lines[5]
  {
  }

  lemma FreshRowStays(lines: seq<Line>, at: nat, modules: seq<ModuleConfig>, counts: seq<Counts>)
    requires Fits(modules, counts) && at + 3 < |lines| && PhaseTableAt(lines, PHASE_HEADERS[1], None) == Ok(at)
    requires lines[at] == PHASE_TABLE_HEADER && lines[at + 1] == PHASE_TABLE_SEPARATOR && lines[at + 2] == Fresh(modules, counts)
    requires Begins(lines[at + 1], '|') && NamedRow(lines[at + 2], modules) && !Begins(lines[at + 3], '|')
    ensures PhaseStep(lines, PHASE_HEADERS[1], None, modules, counts) == Ok(lines)
  {
    OneRowStep(lines, PHASE_HEADERS[1], None, at, modules, counts);
    assert lines[at + 2 := Fresh(modules, counts)] == lines;
  }

  lemma SmuggledIsOnlyPhase2(test: StableTest)
    requires Smuggles(test, PHASE_HEADERS[1])
    ensures OnlyPhase2(Flat(Section([test])))
  {
    var flat := SmuggledFlat(test, PHASE_HEADERS[1]);
    SmugglingSection(test, PHASE_HEADERS[1]);
    var k := SmuggledAt(test, PHASE_HEADERS[1]);
    HeaderKinds();
    assert flat[k + 1] in flat;
    TopIsQuiet(test);
    LowerIsQuiet(test.specFile);
    forall l <- flat ensures Quiet(l) {
      assert l in OneTestTop(test) || l in ["- [x] " + "a", PHASE_HEADERS[1], "b" + (" → `" + test.specFile + "`"), ""];
    }
  }

  predicate Quiet(l: Line)
  {
    !TrimsTo(PHASE_HEADERS[0])(l) && !IsPhaseTableHeader(l)
  }

  lemma NoRowIsQuiet(l: Line)
    requires !Begins(l, '|') && !TrimsTo(PHASE_HEADERS[0])(l)
    ensures Quiet(l)
  {
    TableHeaderIsRow(l);
  }

  lemma TopIsQuiet(test: StableTest)
    ensures forall l <- OneTestTop(test) :: Quiet(l)
  {
    OneTestSection(test);
    SectionIsLaid([test]);
    SectionHasNoRow([test]);
    forall l <- OneTestTop(test) ensures Quiet(l) {
      assert l in Section([test]);
      NoRowIsQuiet(l);
    }
  }

  lemma SectionHasNoRow(tests: seq<StableTest>)
    ensures forall l <- Section(tests) :: !Begins(l, '|')
  {
    var specs := |set t <- tests :: t.relativePath|;
    var groups := Groups(tests, KeysOf(tests, ModuleOf));
    GroupsLines(tests, KeysOf(tests, ModuleOf));
    BodyIsPlain(|tests|, specs, groups);
    assert !Begins(PHASE_0_HEADER, '|');
    assert Section(tests) == [PHASE_0_HEADER] + Body(|tests|, specs, groups);
  }

  lemma LowerIsQuiet(specFile: string)
    ensures Quiet("- [x] " + "a") && Quiet(PHASE_HEADERS[1]) && Quiet("b" + (" → `" + specFile + "`")) && Quiet("")
  {
    HeaderKinds();
    BlankIsPlain();
    OtherLetter("- [x] " + "a");
    OtherLetter("b" + (" → `" + specFile + "`"));
    NoRowIsQuiet(PHASE_HEADERS[1]);
    NoRowIsQuiet("");
  }

  lemma OtherLetter(l: Line)
    requires l != [] && !IsSpace(l[0]) && l[0] != '#' && l[0] != '|'
    ensures Quiet(l)
  {
    TrimIsPrefix(l);
    assert PHASE_HEADERS[0][0] == '#';
    NoRowIsQuiet(l);
  }

  /** The last line of a file. */
  function LastLineOf(text: string): Line
  {
    var lines := LinesOf(text);
    if lines == [] then "" else lines[|lines| - 1]
  }

  lemma LastLineIs(above: seq<Line>, low: seq<Line>)
    requires CF.Writable(above + low, true) && low != []
    ensures LastLineOf(TextOf(above + low, true)) == low[|low| - 1]
  {
    LinesReadBack(above + low, true);
  }

  /** The text left when the Phase 0 generator has run first, above a section with nothing but Phase 2 headers. */
  lemma RefreshedThenRun(head: seq<Line>, modules: seq<ModuleConfig>, counts: seq<Counts>, today: string, tests: seq<StableTest>)
    requires Fits(modules, counts) && Counted(head, modules) && '\n' !in today && ComputeCounts(head, modules) == Ok(counts)
    requires OnlyPhase2(Flat(Section(tests)))
    ensures var above, refreshed := Above(Checklist(head, modules), modules, counts, today), RefreshText(ChecklistText(head, modules), tests);
            var low := Flat(Section(tests)) + Tail(modules)[4 := Fresh(modules, counts)];
            && refreshed.Ok? && Generate(refreshed.value, modules, today) == Ok(TextOf(above + low, true))
            && CF.Writable(above + low, true)
  {
    var low := Flat(Section(tests)) + Tail(modules)[4 := Fresh(modules, counts)];
    ChecklistIsFile(head, modules);
    WrongTableTwice(Flat(Section(tests)), modules, counts);
    CountsAfterRefresh(ChecklistText(head, modules), Checklist(head, modules), modules, today, tests, counts, Ok(low));
  }

  /** The text left when it has run last. */
  lemma RunThenRefreshed(head: seq<Line>, modules: seq<ModuleConfig>, counts: seq<Counts>, today: string, tests: seq<StableTest>)
    requires Fits(modules, counts) && Counted(head, modules) && '\n' !in today && ComputeCounts(head, modules) == Ok(counts)
    ensures var above, run := Above(Checklist(head, modules), modules, counts, today), Generate(ChecklistText(head, modules), modules, today);
            var low := Flat(Section(tests)) + Tail(modules)[4 := Fresh(modules, counts)][9 := Fresh(modules, counts)];
            && run.Ok? && RefreshText(run.value, tests) == Ok(TextOf(above + low, true)) && CF.Writable(above + low, true)
  {
    var settled := Tail(modules)[4 := Fresh(modules, counts)][9 := Fresh(modules, counts)];
    ChecklistIsFile(head, modules);
    TailRuns(modules, counts);
    RefreshAfterCounts(ChecklistText(head, modules), Checklist(head, modules), modules, today, tests, counts, Ok(settled));
  }

  lemma EndsStale(above: seq<Line>, section: seq<Line>, modules: seq<ModuleConfig>, row: Line)
    requires modules != [] && CF.Writable(above + (section + Tail(modules)[4 := row]), true)
    ensures LastLineOf(TextOf(above + (section + Tail(modules)[4 := row]), true)) == Stale(modules)
  {
    TailLinesAre(modules);
    LastLineIs(above, section + Tail(modules)[4 := row]);
  }

  lemma EndsFresh(above: seq<Line>, section: seq<Line>, modules: seq<ModuleConfig>, row: Line)
    requires modules != [] && CF.Writable(above + (section + Tail(modules)[4 := row][9 := row]), true)
    ensures LastLineOf(TextOf(above + (section + Tail(modules)[4 := row][9 := row]), true)) == row
  {
    LastLineIs(above, section + Tail(modules)[4 := row][9 := row]);
  }

  lemma StaleWhenLast(head: seq<Line>, modules: seq<ModuleConfig>, counts: seq<Counts>, today: string, tests: seq<StableTest>)
    requires Fits(modules, counts) && Counted(head, modules) && '\n' !in today && ComputeCounts(head, modules) == Ok(counts)
    requires OnlyPhase2(Flat(Section(tests)))
    ensures var refreshed := RefreshText(ChecklistText(head, modules), tests);
            && refreshed.Ok? && Generate(refreshed.value, modules, today).Ok?
            && LastLineOf(Generate(refreshed.value, modules, today).value) == Stale(modules)
  {
    RefreshedThenRun(head, modules, counts, today, tests);
    EndsStale(Above(Checklist(head, modules), modules, counts, today), Flat(Section(tests)), modules, Fresh(modules, counts));
  }

  lemma FreshWhenFirst(head: seq<Line>, modules: seq<ModuleConfig>, counts: seq<Counts>, today: string, tests: seq<StableTest>)
    requires Fits(modules, counts) && Counted(head, modules) && '\n' !in today && ComputeCounts(head, modules) == Ok(counts)
    ensures var run := Generate(ChecklistText(head, modules), modules, today);
            && run.Ok? && RefreshText(run.value, tests).Ok?
            && LastLineOf(RefreshText(run.value, tests).value) == Fresh(modules, counts)
  {
    RunThenRefreshed(head, modules, counts, today, tests);
    EndsFresh(Above(Checklist(head, modules), modules, counts, today), Flat(Section(tests)), modules, Fresh(modules, counts));
  }

  lemma StaleAtFirst(head: seq<Line>, modules: seq<ModuleConfig>)
    requires Listed(modules) && Counted(head, modules)
    ensures LastLineOf(ChecklistText(head, modules)) == Stale(modules)
  {
    ChecklistIsFile(head, modules);
    AssembleNested(Checklist(head, modules));
    TailLinesAre(modules);
  }

  /**
   * A title that brings in the Phase 2 header on a line of its own. On any head of the modules
   * that can be counted, the checklist's last line, the row of its Phase 2 table, is still stale
   * when the Phase 0 generator has run first, and fresh when it has run last; no run stops.
   */
  lemma SmuggledPhase2(test: StableTest, head: seq<Line>, modules: seq<ModuleConfig>, today: string)
    returns (original: string, counts: seq<Counts>)
    requires Smuggles(test, PHASE_HEADERS[1]) && Listed(modules) && Counted(head, modules) && '\n' !in today
    ensures LaidFile(original, Checklist(head, modules)) && LastLineOf(original) == Stale(modules)
    ensures Fits(modules, counts) && ComputeCounts(head, modules) == Ok(counts) && Stale(modules) != Fresh(modules, counts)
    ensures var refreshed := RefreshText(original, [test]);
            && refreshed.Ok? && Generate(refreshed.value, modules, today).Ok?
            && LastLineOf(Generate(refreshed.value, modules, today).value) == Stale(modules)
    ensures var run := Generate(original, modules, today);
            && run.Ok? && RefreshText(run.value, [test]).Ok?
            && LastLineOf(RefreshText(run.value, [test]).value) == Fresh(modules, counts)
  {
    original := ChecklistText(head, modules);
    counts := ComputeCounts(head, modules).value;
    ChecklistIsFile(head, modules);
    CountsPerModule(head, modules);
    StaleAtFirst(head, modules);
    StaleRows(modules, counts);
    SmuggledIsOnlyPhase2(test);
    StaleWhenLast(head, modules, counts, today, [test]);
    FreshWhenFirst(head, modules, counts, today, [test]);
  }
}
