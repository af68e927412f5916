/**
 * The checklist generator: count the bullets of each module, rewrite the Coverage table,
 * the two Phase tables and the date line.
 *
 * The generator is total over any line list and any well-formed module list; it stops with
 * the same errors as the script. The claim it makes about itself — a second run on the same
 * day produces no diff — is proved of every document its first run accepts.
 */
module CoverageSummary {
  import opened Texts
  import opened Documents

  datatype ModuleConfig = ModuleConfig(rowLabel: string, sectionStart: string, excludeFromTotal: bool)

  datatype DocError =
    | PartIIMissing
    | CoverageHeaderMissing
    | SectionMissing(rowLabel: string)
    | ModulesMisordered(rowLabel: string)
    | TableHeaderMissing
    | PhaseHeaderMissing(header: string)
    | PhaseTableMissing(header: string)
    | PhaseTableEmpty(header: string)
    | UnknownPhaseRow(rowLabel: string)
    | LastUpdatedMissing

  const PART_II_HEADER := "# PART II — TEST AUTOMATION COVERAGE"
  const COVERAGE_SUMMARY_HEADER_PREFIX := "## Coverage Summary"
  const TABLE_HEADER_PREFIX := "| Module | Total |"
  const TABLE_HEADER := TABLE_HEADER_PREFIX +
    " Validated `[x]` |" + " Needs validation `[-]` |" + " Partial `[~]`/`[!]` |" + " Not automated `[ ]` |"
  const TABLE_SEPARATOR := "|--------|" +
    ("-------|-----------------|" + "------------------------|" + "---------------------|" + "---------------------|")
  const PHASE_HEADERS: seq<string> :=
    ["### \U{1F535} Phase 1 — Next Delivery", "### \U{1F7E1} Phase 2 — Next Delivery"]
  const PHASE_TABLE_HEADER_PREFIX := "| Module | Validate"
  const PHASE_TABLE_HEADER := PHASE_TABLE_HEADER_PREFIX + " (`[-]`) | Create (`[ ]`) |"
  const PHASE_TABLE_SEPARATOR := "|--------|" + "-----------------|---------------|"
  const LAST_UPDATED_PREFIX := "> **Last updated:**"

  predicate IsPartII(l: Line) { Trim(l) == PART_II_HEADER }
  predicate IsCoverageHeader(l: Line) { COVERAGE_SUMMARY_HEADER_PREFIX <= l }
  predicate IsTableHeader(l: Line) { TABLE_HEADER_PREFIX <= l }
  predicate IsPhaseTableHeader(l: Line) { PHASE_TABLE_HEADER_PREFIX <= l }
  predicate IsLastUpdated(l: Line) { LAST_UPDATED_PREFIX <= l }
  function StartsWith(prefix: string): Line -> bool { (l: Line) => prefix <= l }
  function TrimsTo(header: string): Line -> bool { (l: Line) => Trim(l) == header }

  /** Labels fit a table cell; section prefixes are headings. */
  predicate WellFormedModule(m: ModuleConfig)
  {
    && m.rowLabel != [] && '|' !in m.rowLabel && '\n' !in m.rowLabel && Trimmed(m.rowLabel)
    && m.rowLabel != "Module" && m.rowLabel != "--------"
    && Begins(m.sectionStart, '#')
  }

  predicate WellFormedModules(modules: seq<ModuleConfig>)
  {
    forall m <- modules :: WellFormedModule(m)
  }

  /* ---- counting ---- */

  datatype Counts = Counts(validated: nat, needsValidation: nat, partial: nat, notAutomated: nat)

  const ZERO := Counts(0, 0, 0, 0)

  function TotalOf(c: Counts): nat
  {
    c.validated + c.needsValidation + c.partial + c.notAutomated
  }

  predicate IsMarker(c: char)
  {
    c == 'x' || c == '-' || c == ' ' || c == '~' || c == '!'
  }

  /** The state marker of a bullet: the character between its brackets, if it is one of the five. */
  function MarkerOf(line: Line): Option<char>
  {
    if |line| >= 6 && line[0] == '-' && line[1] == ' ' && line[2] == '[' && IsMarker(line[3])
       && line[4] == ']' && line[5] == ' '
    then Some(line[3]) else None
  }

  function AddLine(c: Counts, line: Line): Counts
  {
    match MarkerOf(line)
    case None => c
    case Some(marker) =>
      if marker == 'x' then c.(validated := c.validated + 1)
      else if marker == '-' then c.(needsValidation := c.needsValidation + 1)
      else if marker == ' ' then c.(notAutomated := c.notAutomated + 1)
      else c.(partial := c.partial + 1)
  }

  function CountBetween(lines: seq<Line>, from: nat, to: nat): Counts
    requires to <= |lines|
  {
    FoldBetween(lines, AddLine, from, to)
  }

  function FoldBetween(lines: seq<Line>, add: (Counts, Line) -> Counts, from: nat, to: nat): Counts
    requires to <= |lines|
  {
    if from >= to then ZERO else add(FoldBetween(lines, add, from, to - 1), lines[to - 1])
  }

  function ModuleStarts(lines: seq<Line>, modules: seq<ModuleConfig>, from: nat, to: nat): Result<seq<nat>, DocError>
    requires to <= |lines|
  {
    if modules == [] then Ok([])
    else
      var n := |modules| - 1;
      var front := ModuleStarts(lines, modules[..n], from, to);
      if front.Err? then front
      else
        var at := FindIn(lines, StartsWith(modules[n].sectionStart), from, to);
        if at.None? then Err(SectionMissing(modules[n].rowLabel)) else Ok(front.value + [at.value])
  }

  lemma {:induction false} ModuleStartsBounds(lines: seq<Line>, modules: seq<ModuleConfig>, from: nat, to: nat)
    requires to <= |lines| && ModuleStarts(lines, modules, from, to).Ok?
    ensures var starts := ModuleStarts(lines, modules, from, to).value;
            |starts| == |modules| && forall m | 0 <= m < |modules| ::
              from <= starts[m] < to && modules[m].sectionStart <= lines[starts[m]]
  {
    if modules != [] {
      var n := |modules| - 1;
      ModuleStartsBounds(lines, modules[..n], from, to);
      FindInMeaning(lines, StartsWith(modules[n].sectionStart), from, to);
    }
  }

  /** The first module found at or above the one before it. */
  function FirstMisordered(starts: seq<nat>, from: nat): Option<nat>
    requires from >= 1
    decreases if from < |starts| then |starts| - from else 0
  {
    if from >= |starts| then None
    else if starts[from] <= starts[from - 1] then Some(from)
    else FirstMisordered(starts, from + 1)
  }

  lemma {:induction false} FirstMisorderedMeaning(starts: seq<nat>, from: nat)
    requires from >= 1
    ensures var bad := FirstMisordered(starts, from);
            if bad.Some? then from <= bad.value < |starts| && starts[bad.value] <= starts[bad.value - 1]
            else forall m | from <= m < |starts| :: starts[m - 1] < starts[m]
    decreases if from < |starts| then |starts| - from else 0
  {
    if from < |starts| {
      FirstMisorderedMeaning(starts, from + 1);
    }
  }

  /** One module's bullets: from below its heading to the next module's, or to the end. */
  function SectionCounts(lines: seq<Line>, starts: seq<nat>, m: nat, to: nat): Counts
    requires to <= |lines| && m < |starts| && forall k | 0 <= k < |starts| :: starts[k] < to
  {
    CountBetween(lines, starts[m] + 1, if m + 1 < |starts| then starts[m + 1] else to)
  }

  function CountsOf(lines: seq<Line>, starts: seq<nat>, to: nat): (counts: seq<Counts>)
    requires to <= |lines| && forall m | 0 <= m < |starts| :: starts[m] < to
    ensures |counts| == |starts|
  {
    seq(|starts|, m requires 0 <= m < |starts| => SectionCounts(lines, starts, m, to))
  }

  function ComputeCounts(lines: seq<Line>, modules: seq<ModuleConfig>): Result<seq<Counts>, DocError>
  {
    var partII := FindIn(lines, IsPartII, 0, |lines|);
    if partII.None? then Err(PartIIMissing)
    else
      var coverage := FindIn(lines, IsCoverageHeader, partII.value, |lines|);
      if coverage.None? then Err(CoverageHeaderMissing)
      else
        FindInMeaning(lines, IsCoverageHeader, partII.value, |lines|);
        var starts := ModuleStarts(lines, modules, partII.value, coverage.value);
        if starts.Err? then Err(starts.error)
        else
          ModuleStartsBounds(lines, modules, partII.value, coverage.value);
          FirstMisorderedMeaning(starts.value, 1);
          var bad := FirstMisordered(starts.value, 1);
          if bad.Some? then Err(ModulesMisordered(modules[bad.value].rowLabel))
          else Ok(CountsOf(lines, starts.value, coverage.value))
  }

  method CountLines(lines: seq<Line>, from: nat, to: nat) returns (c: Counts)
    requires to <= |lines|
    ensures c == CountBetween(lines, from, to)
  {
    c := ZERO;
    var i := from;
    while i < to
      invariant from <= i && (i <= to || i == from)
      invariant c == CountBetween(lines, from, if i <= to then i else to)
    {
      match MarkerOf(lines[i]) {
        case None =>
        case Some(marker) =>
          if marker == 'x' { c := c.(validated := c.validated + 1); }
          else if marker == '-' { c := c.(needsValidation := c.needsValidation + 1); }
          else if marker == ' ' { c := c.(notAutomated := c.notAutomated + 1); }
          else { c := c.(partial := c.partial + 1); }
      }
      i := i + 1;
    }
  }

  method FindModuleStarts(lines: seq<Line>, modules: seq<ModuleConfig>, from: nat, to: nat)
    returns (r: Result<seq<nat>, DocError>)
    requires to <= |lines|
    ensures r == ModuleStarts(lines, modules, from, to)
  {
    var starts: seq<nat> := [];
    for m := 0 to |modules|
      invariant ModuleStarts(lines, modules[..m], from, to) == Ok(starts)
    {
      assert modules[..m + 1][..m] == modules[..m];
      var at := FindLineIndex(lines, StartsWith(modules[m].sectionStart), from, to);
      if at.None? {
        MissingStaysMissing(lines, modules, m + 1, from, to);
        return Err(SectionMissing(modules[m].rowLabel));
      }
      starts := starts + [at.value];
    }
    assert modules[..|modules|] == modules;
    return Ok(starts);
  }

  method CheckOrder(starts: seq<nat>) returns (bad: Option<nat>)
    ensures bad == FirstMisordered(starts, 1)
  {
    var i := 1;
    while i < |starts|
      invariant 1 <= i && FirstMisordered(starts, i) == FirstMisordered(starts, 1)
    {
      if starts[i] <= starts[i - 1] { return Some(i); }
      i := i + 1;
    }
    return None;
  }

  method CountModules(lines: seq<Line>, starts: seq<nat>, to: nat) returns (counts: seq<Counts>)
    requires to <= |lines| && forall m | 0 <= m < |starts| :: starts[m] < to
    ensures counts == CountsOf(lines, starts, to)
  {
    counts := [];
    for m := 0 to |starts|
      invariant counts == CountsOf(lines, starts, to)[..m]
    {
      var c := CountLines(lines, starts[m] + 1, if m + 1 < |starts| then starts[m + 1] else to);
      counts := counts + [c];
    }
  }

  method ComputeModuleCounts(lines: seq<Line>, modules: seq<ModuleConfig>) returns (r: Result<seq<Counts>, DocError>)
    ensures r == ComputeCounts(lines, modules)
  {
    var partII := FindLineIndex(lines, IsPartII, 0, |lines|);
    if partII.None? { return Err(PartIIMissing); }
    var coverage := FindLineIndex(lines, IsCoverageHeader, partII.value, |lines|);
    if coverage.None? { return Err(CoverageHeaderMissing); }
    FindInMeaning(lines, IsCoverageHeader, partII.value, |lines|);
    var starts := FindModuleStarts(lines, modules, partII.value, coverage.value);
    if starts.Err? { return Err(starts.error); }
    ModuleStartsBounds(lines, modules, partII.value, coverage.value);
    FirstMisorderedMeaning(starts.value, 1);
    var bad := CheckOrder(starts.value);
    if bad.Some? { return Err(ModulesMisordered(modules[bad.value].rowLabel)); }
    var counts := CountModules(lines, starts.value, coverage.value);
    return Ok(counts);
  }

  lemma {:induction false} MissingStaysMissing(lines: seq<Line>, modules: seq<ModuleConfig>, m: nat, from: nat, to: nat)
    requires m <= |modules| && to <= |lines| && ModuleStarts(lines, modules[..m], from, to).Err?
    ensures ModuleStarts(lines, modules, from, to) == ModuleStarts(lines, modules[..m], from, to)
    decreases |modules|
  {
    if m == |modules| {
      assert modules[..m] == modules;
    } else {
      var n := |modules| - 1;
      assert modules[..n][..m] == modules[..m];
      MissingStaysMissing(lines, modules[..n], m, from, to);
    }
  }

  /* ---- the Coverage table ---- */

  function Plus(a: Counts, b: Counts): Counts
  {
    Counts(a.validated + b.validated, a.needsValidation + b.needsValidation,
           a.partial + b.partial, a.notAutomated + b.notAutomated)
  }

  /** The totals: every module's counts except the excluded ones. */
  function TotalCounts(modules: seq<ModuleConfig>, counts: seq<Counts>): Counts
    requires |counts| == |modules|
  {
    if modules == [] then ZERO
    else
      var n := |modules| - 1;
      var front := TotalCounts(modules[..n], counts[..n]);
      if modules[n].excludeFromTotal then front else Plus(front, counts[n])
  }

  /** A label up to its first dash. */
  function BeforeDash(s: string): string
  {
    if s == [] || " — " <= s then [] else [s[0]] + BeforeDash(s[1..])
  }

  function ExcludedKeys(modules: seq<ModuleConfig>): seq<string>
  {
    if modules == [] then []
    else
      var n := |modules| - 1;
      if modules[n].excludeFromTotal then ExcludedKeys(modules[..n]) + [BeforeDash(modules[n].rowLabel)]
      else ExcludedKeys(modules[..n])
  }

  /** A share in whole percent, rounding the exact quotient half up. */
  function Percent(part: nat, whole: nat): string
  {
    if whole == 0 then "0%" else Decimal((200 * part + whole) / (2 * whole)) + "%"
  }

  function DataLabel(m: ModuleConfig): string
  {
    if m.excludeFromTotal then m.rowLabel + " (not scheduled — decision)" else m.rowLabel
  }

  /** The five numbers of a module, each closed by its cell border. */
  function DataCells(c: Counts): string
  {
    " " + Decimal(TotalOf(c)) + " | " + Decimal(c.validated) + " | " + Decimal(c.needsValidation) + " | " +
    Decimal(c.partial) + " | " + Decimal(c.notAutomated) + " |"
  }

  function DataRow(m: ModuleConfig, c: Counts): Line
  {
    RowOf(DataLabel(m), DataCells(c))
  }

  function DataRows(modules: seq<ModuleConfig>, counts: seq<Counts>): (rows: seq<Line>)
    requires |counts| == |modules|
    ensures |rows| == |modules|
  {
    seq(|modules|, m requires 0 <= m < |modules| => DataRow(modules[m], counts[m]))
  }

  function TotalLabel(excluded: seq<string>): string
  {
    "**TOTAL" + (if excluded == [] then "" else " (OSS — excludes " + Join(excluded, ", ") + ")") + "**"
  }

  function Share(part: nat, whole: nat): string
  {
    "**" + Decimal(part) + " (" + Percent(part, whole) + ")** |"
  }

  function TotalCells(tot: Counts): string
  {
    var sum := TotalOf(tot);
    " **" + Decimal(sum) + "** | " + Share(tot.validated, sum) + " " + Share(tot.needsValidation, sum) + " " +
    Share(tot.partial, sum) + " " + Share(tot.notAutomated, sum)
  }

  function TotalRow(excluded: seq<string>, tot: Counts): Line
  {
    RowOf(TotalLabel(excluded), TotalCells(tot))
  }

  function CoverageTable(modules: seq<ModuleConfig>, counts: seq<Counts>): seq<Line>
    requires |counts| == |modules|
  {
    [TABLE_HEADER, TABLE_SEPARATOR] + DataRows(modules, counts)
      + [TotalRow(ExcludedKeys(modules), TotalCounts(modules, counts))]
  }

  /** The loop that sums the modules in the total and collects the keys of the others. */
  method SumModules(modules: seq<ModuleConfig>, counts: seq<Counts>) returns (tot: Counts, excluded: seq<string>)
    requires |counts| == |modules|
    ensures tot == TotalCounts(modules, counts) && excluded == ExcludedKeys(modules)
  {
    tot, excluded := ZERO, [];
    for m := 0 to |modules|
      invariant tot == TotalCounts(modules[..m], counts[..m])
      invariant excluded == ExcludedKeys(modules[..m])
    {
      assert modules[..m + 1][..m] == modules[..m] && counts[..m + 1][..m] == counts[..m];
      var c := counts[m];
      if modules[m].excludeFromTotal {
        excluded := excluded + [BeforeDash(modules[m].rowLabel)];
        continue;
      }
      tot := Counts(tot.validated + c.validated, tot.needsValidation + c.needsValidation,
                    tot.partial + c.partial, tot.notAutomated + c.notAutomated);
    }
    assert modules[..|modules|] == modules && counts[..|modules|] == counts;
  }

  method RenderCoverageTable(modules: seq<ModuleConfig>, counts: seq<Counts>) returns (table: seq<Line>)
    requires |counts| == |modules|
    ensures table == CoverageTable(modules, counts)
  {
    var tot, excluded := SumModules(modules, counts);
    table := [TABLE_HEADER, TABLE_SEPARATOR] + DataRows(modules, counts) + [TotalRow(excluded, tot)];
  }

  function TableAt(lines: seq<Line>): Result<nat, DocError>
  {
    var partII := FindIn(lines, IsPartII, 0, |lines|);
    if partII.None? then Err(PartIIMissing)
    else
      var coverage := FindIn(lines, IsCoverageHeader, partII.value, |lines|);
      if coverage.None? then Err(CoverageHeaderMissing)
      else
        var table := FindIn(lines, IsTableHeader, coverage.value, |lines|);
        if table.None? then Err(TableHeaderMissing) else Ok(table.value)
  }

  lemma TableAtBounds(lines: seq<Line>)
    ensures var at := TableAt(lines); at.Ok? ==> at.value < |lines| && IsTableHeader(lines[at.value])
  {
    var partII := FindIn(lines, IsPartII, 0, |lines|);
    if partII.Some? {
      var coverage := FindIn(lines, IsCoverageHeader, partII.value, |lines|);
      if coverage.Some? {
        FindInMeaning(lines, IsTableHeader, coverage.value, |lines|);
      }
    }
  }

  function RegenerateCoverage(lines: seq<Line>, table: seq<Line>): Result<seq<Line>, DocError>
  {
    TableAtBounds(lines);
    var at := TableAt(lines);
    if at.Err? then Err(at.error)
    else Ok(Splice(lines, at.value, RunEnd(lines, at.value + 1, '|'), table))
  }

  method ReplaceTable(lines: seq<Line>, newTable: seq<Line>) returns (r: Result<seq<Line>, DocError>)
    ensures r == RegenerateCoverage(lines, newTable)
  {
    TableAtBounds(lines);
    var partII := FindLineIndex(lines, IsPartII, 0, |lines|);
    if partII.None? { return Err(PartIIMissing); }
    var coverage := FindLineIndex(lines, IsCoverageHeader, partII.value, |lines|);
    if coverage.None? { return Err(CoverageHeaderMissing); }
    var at := FindLineIndex(lines, IsTableHeader, coverage.value, |lines|);
    if at.None? { return Err(TableHeaderMissing); }
    var end := FindRunEnd(lines, at.value, '|');
    return Ok(Splice(lines, at.value, end, newTable));
  }

  method RegenerateCoverageTable(lines: seq<Line>, modules: seq<ModuleConfig>, counts: seq<Counts>)
    returns (r: Result<seq<Line>, DocError>)
    requires |counts| == |modules|
    ensures r == RegenerateCoverage(lines, CoverageTable(modules, counts))
  {
    var newTable := RenderCoverageTable(modules, counts);
    r := ReplaceTable(lines, newTable);
  }

  /* ---- the Phase tables ---- */

  /** The module a row label names: the last one with that label. */
  function IndexOfLabel(modules: seq<ModuleConfig>, rowLabel: string): (index: Option<nat>)
    ensures index.Some? ==> index.value < |modules| && modules[index.value].rowLabel == rowLabel
  {
    if modules == [] then None
    else
      var n := |modules| - 1;
      if modules[n].rowLabel == rowLabel then Some(n) else IndexOfLabel(modules[..n], rowLabel)
  }

  function PhaseCells(c: Counts): string
  {
    " " + Decimal(c.needsValidation) + " | " + Decimal(c.notAutomated) + " |"
  }

  function PhaseRow(rowLabel: string, c: Counts): Line
  {
    RowOf(rowLabel, PhaseCells(c))
  }

  function PhaseRows(rows: seq<Line>, modules: seq<ModuleConfig>, counts: seq<Counts>): (r: Result<seq<Line>, DocError>)
    requires |counts| == |modules|
    ensures r.Ok? ==> |r.value| == |rows|
  {
    if rows == [] then Ok([])
    else
      var n := |rows| - 1;
      var front := PhaseRows(rows[..n], modules, counts);
      if front.Err? then front
      else
        var rowLabel := FirstCell(rows[n]);
        var index := IndexOfLabel(modules, rowLabel);
        if index.None? then Err(UnknownPhaseRow(rowLabel))
        else Ok(front.value + [PhaseRow(rowLabel, counts[index.value])])
  }

  /** The table search, from a phase header found at `h`. */
  function TableBelow(lines: seq<Line>, header: string, next: Option<string>, h: nat): Result<nat, DocError>
    requires h < |lines|
  {
    var table := FindIn(lines, IsPhaseTableHeader, h, UpperBound(lines, next, h + 1));
    if table.None? then Err(PhaseTableMissing(header)) else Ok(table.value)
  }

  /** Where the phase's table starts: after its header, before the next phase's. */
  function PhaseTableAt(lines: seq<Line>, header: string, next: Option<string>): Result<nat, DocError>
  {
    var at := FindIn(lines, TrimsTo(header), 0, |lines|);
    FindInMeaning(lines, TrimsTo(header), 0, |lines|);
    if at.None? then Err(PhaseHeaderMissing(header)) else TableBelow(lines, header, next, at.value)
  }

  function UpperBound(lines: seq<Line>, next: Option<string>, from: nat): (end: nat)
    requires from <= |lines|
    ensures end <= |lines|
  {
    if next.None? then |lines|
    else
      var upper := FindIn(lines, TrimsTo(next.value), from, |lines|);
      FindInMeaning(lines, TrimsTo(next.value), from, |lines|);
      if upper.None? then |lines| else upper.value
  }

  lemma PhaseTableAtBounds(lines: seq<Line>, header: string, next: Option<string>)
    ensures var at := PhaseTableAt(lines, header, next);
            at.Ok? ==> at.value < |lines| && IsPhaseTableHeader(lines[at.value])
  {
    var h := FindIn(lines, TrimsTo(header), 0, |lines|);
    if h.Some? {
      FindInMeaning(lines, TrimsTo(header), 0, |lines|);
      FindInMeaning(lines, IsPhaseTableHeader, h.value, UpperBound(lines, next, h.value + 1));
    }
  }

  function PhaseBlock(rows: seq<Line>): seq<Line>
  {
    [PHASE_TABLE_HEADER, PHASE_TABLE_SEPARATOR] + rows
  }

  /** The rewrite of the table found at `at`. */
  function StepAt(lines: seq<Line>, at: nat, header: string, modules: seq<ModuleConfig>, counts: seq<Counts>):
    Result<seq<Line>, DocError>
    requires |counts| == |modules| && at < |lines|
  {
    var end := RunEnd(lines, at + 1, '|');
    if end <= at + 2 then Err(PhaseTableEmpty(header)) else Rewritten(lines, at, end, lines[at + 2..end], modules, counts)
  }

  function Rewritten(lines: seq<Line>, at: nat, end: nat, rows: seq<Line>, modules: seq<ModuleConfig>, counts: seq<Counts>):
    Result<seq<Line>, DocError>
    requires |counts| == |modules| && at <= end <= |lines|
  {
    var newRows := PhaseRows(rows, modules, counts);
    if newRows.Err? then newRows else Ok(Splice(lines, at, end, PhaseBlock(newRows.value)))
  }

  /** Rewriting one phase's table. */
  function PhaseStep(lines: seq<Line>, header: string, next: Option<string>,
                     modules: seq<ModuleConfig>, counts: seq<Counts>): Result<seq<Line>, DocError>
    requires |counts| == |modules|
  {
    PhaseTableAtBounds(lines, header, next);
    var table := PhaseTableAt(lines, header, next);
    if table.Err? then Err(table.error) else StepAt(lines, table.value, header, modules, counts)
  }

  function NextHeader(phase: nat): Option<string>
  {
    if phase + 1 < |PHASE_HEADERS| then Some(PHASE_HEADERS[phase + 1]) else None
  }

  function PhasesFrom(lines: seq<Line>, phase: nat, modules: seq<ModuleConfig>, counts: seq<Counts>):
    Result<seq<Line>, DocError>
    requires |counts| == |modules| && phase <= |PHASE_HEADERS|
    decreases |PHASE_HEADERS| - phase
  {
    if phase == |PHASE_HEADERS| then Ok(lines)
    else
      var step := PhaseStep(lines, PHASE_HEADERS[phase], NextHeader(phase), modules, counts);
      if step.Err? then step else PhasesFrom(step.value, phase + 1, modules, counts)
  }

  method LabelIndex(modules: seq<ModuleConfig>) returns (index: map<string, nat>)
    ensures forall l :: l in index <==> IndexOfLabel(modules, l).Some?
    ensures forall l <- index :: Some(index[l]) == IndexOfLabel(modules, l)
  {
    index := map[];
    for m := 0 to |modules|
      invariant forall l :: l in index <==> IndexOfLabel(modules[..m], l).Some?
      invariant forall l <- index :: Some(index[l]) == IndexOfLabel(modules[..m], l)
    {
      assert modules[..m + 1][..m] == modules[..m];
      index := index[modules[m].rowLabel := m];
    }
    assert modules[..|modules|] == modules;
  }

  method RenderPhaseRows(dataLines: seq<Line>, modules: seq<ModuleConfig>, counts: seq<Counts>, labelToIndex: map<string, nat>)
    returns (r: Result<seq<Line>, DocError>)
    requires |counts| == |modules|
    requires forall l :: l in labelToIndex <==> IndexOfLabel(modules, l).Some?
    requires forall l <- labelToIndex :: Some(labelToIndex[l]) == IndexOfLabel(modules, l)
    ensures r == PhaseRows(dataLines, modules, counts)
  {
    var newRows: seq<Line> := [];
    for i := 0 to |dataLines|
      invariant PhaseRows(dataLines[..i], modules, counts) == Ok(newRows)
    {
      assert dataLines[..i + 1][..i] == dataLines[..i];
      var rowLabel := FirstCell(dataLines[i]);
      if rowLabel !in labelToIndex {
        assert PhaseRows(dataLines[..i + 1], modules, counts) == Err(UnknownPhaseRow(rowLabel));
        BadRowStaysBad(dataLines, i + 1, modules, counts);
        return Err(UnknownPhaseRow(rowLabel));
      }
      newRows := newRows + [PhaseRow(rowLabel, counts[labelToIndex[rowLabel]])];
    }
    assert dataLines[..|dataLines|] == dataLines;
    return Ok(newRows);
  }

  lemma {:induction false} BadRowStaysBad(rows: seq<Line>, i: nat, modules: seq<ModuleConfig>, counts: seq<Counts>)
    requires |counts| == |modules| && i <= |rows| && PhaseRows(rows[..i], modules, counts).Err?
    ensures PhaseRows(rows, modules, counts) == PhaseRows(rows[..i], modules, counts)
    decreases |rows|
  {
    if i == |rows| {
      assert rows[..i] == rows;
    } else {
      var n := |rows| - 1;
      assert rows[..n][..i] == rows[..i];
      BadRowStaysBad(rows[..n], i, modules, counts);
    }
  }

  method LocatePhaseTable(working: seq<Line>, header: string, next: Option<string>) returns (r: Result<nat, DocError>)
    ensures r == PhaseTableAt(working, header, next)
  {
    var headerLine := FindLineIndex(working, TrimsTo(header), 0, |working|);
    if headerLine.None? { return Err(PhaseHeaderMissing(header)); }
    FindInMeaning(working, TrimsTo(header), 0, |working|);
    var searchEnd := UpperBound(working, next, headerLine.value + 1);
    var table := FindLineIndex(working, IsPhaseTableHeader, headerLine.value, searchEnd);
    if table.None? { return Err(PhaseTableMissing(header)); }
    return Ok(table.value);
  }

  /** One turn of the phase loop, once the table is found. */
  method RewriteTable(working: seq<Line>, table: nat, header: string, modules: seq<ModuleConfig>, counts: seq<Counts>,
                      labelToIndex: map<string, nat>) returns (r: Result<seq<Line>, DocError>)
    requires |counts| == |modules| && table < |working|
    requires forall l :: l in labelToIndex <==> IndexOfLabel(modules, l).Some?
    requires forall l <- labelToIndex :: Some(labelToIndex[l]) == IndexOfLabel(modules, l)
    ensures r == StepAt(working, table, header, modules, counts)
  {
    var end := FindRunEnd(working, table, '|');
    if end <= table + 2 { return Err(PhaseTableEmpty(header)); }
    var newRows := RenderPhaseRows(working[table + 2..end], modules, counts, labelToIndex);
    if newRows.Err? { return Err(newRows.error); }
    return Ok(Splice(working, table, end, PhaseBlock(newRows.value)));
  }

  method RewritePhase(working: seq<Line>, header: string, next: Option<string>,
                      modules: seq<ModuleConfig>, counts: seq<Counts>, labelToIndex: map<string, nat>)
    returns (r: Result<seq<Line>, DocError>)
    requires |counts| == |modules|
    requires forall l :: l in labelToIndex <==> IndexOfLabel(modules, l).Some?
    requires forall l <- labelToIndex :: Some(labelToIndex[l]) == IndexOfLabel(modules, l)
    ensures r == PhaseStep(working, header, next, modules, counts)
  {
    PhaseTableAtBounds(working, header, next);
    var table := LocatePhaseTable(working, header, next);
    if table.Err? { return Err(table.error); }
    r := RewriteTable(working, table.value, header, modules, counts, labelToIndex);
  }

  method RegeneratePhaseTables(lines: seq<Line>, modules: seq<ModuleConfig>, counts: seq<Counts>)
    returns (r: Result<seq<Line>, DocError>)
    requires |counts| == |modules|
    ensures r == PhasesFrom(lines, 0, modules, counts)
  {
    var labelToIndex := LabelIndex(modules);
    var working := lines;
    var phaseIdx := 0;
    while phaseIdx < |PHASE_HEADERS|
      invariant 0 <= phaseIdx <= |PHASE_HEADERS|
      invariant PhasesFrom(working, phaseIdx, modules, counts) == PhasesFrom(lines, 0, modules, counts)
    {
      var step := RewritePhase(working, PHASE_HEADERS[phaseIdx], NextHeader(phaseIdx), modules, counts, labelToIndex);
      if step.Err? { return step; }
      working := step.value;
      phaseIdx := phaseIdx + 1;
    }
    return Ok(working);
  }

  /* ---- the date and the whole run ---- */

  function RegenerateDate(lines: seq<Line>, today: string): Result<seq<Line>, DocError>
  {
    var at := FindIn(lines, IsLastUpdated, 0, |lines|);
    FindInMeaning(lines, IsLastUpdated, 0, |lines|);
    if at.None? then Err(LastUpdatedMissing) else Ok(lines[at.value := LAST_UPDATED_PREFIX + " " + today])
  }

  method RegenerateLastUpdated(lines: seq<Line>, today: string) returns (r: Result<seq<Line>, DocError>)
    ensures r == RegenerateDate(lines, today)
  {
    var at := FindLineIndex(lines, IsLastUpdated, 0, |lines|);
    if at.None? { return Err(LastUpdatedMissing); }
    FindInMeaning(lines, IsLastUpdated, 0, |lines|);
    return Ok(lines[at.value := LAST_UPDATED_PREFIX + " " + today]);
  }

  lemma CountsPerModule(lines: seq<Line>, modules: seq<ModuleConfig>)
    ensures var c := ComputeCounts(lines, modules); c.Ok? ==> |c.value| == |modules|
  {
    var partII := FindIn(lines, IsPartII, 0, |lines|);
    if partII.Some? {
      var coverage := FindIn(lines, IsCoverageHeader, partII.value, |lines|);
      if coverage.Some? {
        FindInMeaning(lines, IsCoverageHeader, partII.value, |lines|);
        if ModuleStarts(lines, modules, partII.value, coverage.value).Ok? {
          ModuleStartsBounds(lines, modules, partII.value, coverage.value);
        }
      }
    }
  }

  /** The three rewrites with given counts. */
  function Rewrite(lines: seq<Line>, modules: seq<ModuleConfig>, counts: seq<Counts>, today: string):
    Result<seq<Line>, DocError>
    requires |counts| == |modules|
  {
    var covered := RegenerateCoverage(lines, CoverageTable(modules, counts));
    if covered.Err? then covered
    else
      var phased := PhasesFrom(covered.value, 0, modules, counts);
      if phased.Err? then phased else RegenerateDate(phased.value, today)
  }

  function Run(lines: seq<Line>, modules: seq<ModuleConfig>, today: string): Result<seq<Line>, DocError>
  {
    CountsPerModule(lines, modules);
    var counts := ComputeCounts(lines, modules);
    if counts.Err? then Err(counts.error) else Rewrite(lines, modules, counts.value, today)
  }

  method GenerateChecklist(original: string, modules: seq<ModuleConfig>, today: string) returns (r: Result<string, DocError>)
    ensures r == Generate(original, modules, today)
  {
    var lines := LinesOf(original);
    CountsPerModule(lines, modules);
    var counts := ComputeModuleCounts(lines, modules);
    if counts.Err? { return Err(counts.error); }
    var updated := RegenerateCoverageTable(lines, modules, counts.value);
    if updated.Err? { return Err(updated.error); }
    updated := RegeneratePhaseTables(updated.value, modules, counts.value);
    if updated.Err? { return Err(updated.error); }
    updated := RegenerateLastUpdated(updated.value, today);
    if updated.Err? { return Err(updated.error); }
    return Ok(TextOf(updated.value, EndsWithNewline(original)));
  }

  function Generate(original: string, modules: seq<ModuleConfig>, today: string): Result<string, DocError>
  {
    var updated := Run(LinesOf(original), modules, today);
    if updated.Err? then Err(updated.error) else Ok(TextOf(updated.value, EndsWithNewline(original)))
  }
}
