/** Why a second run of the checklist generator on the same day changes nothing. */
module CoverageIdempotence {
  import opened Texts
  import opened Sequences
  import opened Documents
  import opened CoverageSummary

  /* ---- the projection: what the counters can see ---- */

  /** Every line except table rows and the date line. */
  predicate Counted(l: Line)
  {
    !Begins(l, '|') && !IsLastUpdated(l)
  }

  function Project(lines: seq<Line>): seq<Line>
  {
    Filter(lines, Counted)
  }

  /** Where a line of the document sits in the projection. */
  function Rank(lines: seq<Line>, i: nat): nat
    requires i <= |lines|
  {
    |Project(lines[..i])|
  }

  lemma RankStep(lines: seq<Line>, i: nat)
    requires i < |lines|
    ensures Rank(lines, i) <= |Project(lines)| && Rank(lines, i + 1) <= |Project(lines)|
    ensures Rank(lines, i + 1) == Rank(lines, i) + if Counted(lines[i]) then 1 else 0
    ensures Counted(lines[i]) ==> Rank(lines, i) < |Project(lines)| && Project(lines)[Rank(lines, i)] == lines[i]
  {
    FilterSnoc(lines, i, Counted);
    FilterAppend(lines[..i + 1], lines[i + 1..], Counted);
    assert lines == lines[..i + 1] + lines[i + 1..];
  }

  lemma RankEnds(lines: seq<Line>)
    ensures Rank(lines, 0) == 0 && Rank(lines, |lines|) == |Project(lines)|
  {
    assert lines[..|lines|] == lines;
  }

  lemma {:induction false} RankMonotone(lines: seq<Line>, i: nat, j: nat)
    requires i <= j <= |lines|
    ensures Rank(lines, i) <= Rank(lines, j) <= |Project(lines)|
    ensures i < j && Counted(lines[i]) ==> Rank(lines, i) < Rank(lines, j)
    decreases j - i
  {
    if i < j {
      RankStep(lines, i);
      RankMonotone(lines, i + 1, j);
    } else if j < |lines| {
      RankStep(lines, j);
    } else {
      RankEnds(lines);
    }
  }

  function Ranked(lines: seq<Line>, found: Option<nat>): Option<nat>
  {
    if found.Some? && found.value <= |lines| then Some(Rank(lines, found.value)) else None
  }

  /** A search for counted lines finds the same line in the projection. */
  lemma {:induction false} FindProjected(lines: seq<Line>, p: Line -> bool, from: nat, to: nat)
    requires from <= to <= |lines| && forall l :: p(l) ==> Counted(l)
    ensures Rank(lines, to) <= |Project(lines)|
    ensures FindIn(Project(lines), p, Rank(lines, from), Rank(lines, to)) == Ranked(lines, FindIn(lines, p, from, to))
    decreases |lines| - from
  {
    RankMonotone(lines, from, to);
    if from < to {
      RankStep(lines, from);
      FindInMeaning(lines, p, from + 1, to);
      RankMonotone(lines, from + 1, to);
      if !p(lines[from]) {
        FindProjected(lines, p, from + 1, to);
      }
    }
  }

  lemma {:induction false} FoldProjected(lines: seq<Line>, add: (Counts, Line) -> Counts, from: nat, to: nat)
    requires from <= to <= |lines| && forall c, l :: !Counted(l) ==> add(c, l) == c
    ensures Rank(lines, to) <= |Project(lines)|
    ensures FoldBetween(Project(lines), add, Rank(lines, from), Rank(lines, to)) == FoldBetween(lines, add, from, to)
    decreases |lines| + to
  {
    RankMonotone(lines, from, to);
    if from < to {
      RankStep(lines, to - 1);
      RankMonotone(lines, from, to - 1);
      FoldProjected(lines, add, from, to - 1);
    }
  }

  lemma CountProjected(lines: seq<Line>, from: nat, to: nat)
    requires from <= to <= |lines|
    ensures Rank(lines, to) <= |Project(lines)|
    ensures CountBetween(Project(lines), Rank(lines, from), Rank(lines, to)) == CountBetween(lines, from, to)
  {
    forall c, l | !Counted(l) ensures AddLine(c, l) == c {
      if IsLastUpdated(l) { assert l[0] == LAST_UPDATED_PREFIX[0] == '>'; }
    }
    FoldProjected(lines, AddLine, from, to);
  }

  lemma HeadersAreCounted(modules: seq<ModuleConfig>)
    requires WellFormedModules(modules)
    ensures forall l :: IsPartII(l) ==> Counted(l)
    ensures forall l :: IsCoverageHeader(l) ==> Counted(l)
    ensures forall m <- modules :: forall l :: StartsWith(m.sectionStart)(l) ==> Counted(l)
  {
    forall l | IsPartII(l) ensures Counted(l) {
      if l != [] && !IsSpace(l[0]) { TrimKeepsFirst(l); }
    }
    forall m <- modules, l | StartsWith(m.sectionStart)(l) ensures Counted(l) {
      assert l[0] == m.sectionStart[0] == '#';
    }
  }

  lemma {:induction false} StartsProjected(lines: seq<Line>, modules: seq<ModuleConfig>, from: nat, to: nat)
    requires from <= to <= |lines| && WellFormedModules(modules)
    ensures Rank(lines, to) <= |Project(lines)|
    ensures var starts := ModuleStarts(lines, modules, from, to);
            var projected := ModuleStarts(Project(lines), modules, Rank(lines, from), Rank(lines, to));
            if starts.Err? then projected == Err(starts.error)
            else projected.Ok? && |projected.value| == |starts.value| == |modules|
                 && forall m | 0 <= m < |modules| :: starts.value[m] < to && Counted(lines[starts.value[m]])
                                                     && projected.value[m] == Rank(lines, starts.value[m])
  {
    RankMonotone(lines, from, to);
    if modules != [] {
      var n := |modules| - 1;
      assert modules[n] in modules;
      StartsProjected(lines, modules[..n], from, to);
      HeadersAreCounted(modules);
      FindInMeaning(lines, StartsWith(modules[n].sectionStart), from, to);
      FindProjected(lines, StartsWith(modules[n].sectionStart), from, to);
    }
  }

  lemma {:induction false} OrderProjected(lines: seq<Line>, starts: seq<nat>, ranks: seq<nat>, from: nat)
    requires from >= 1 && |ranks| == |starts|
    requires forall m | 0 <= m < |starts| :: starts[m] < |lines| && Counted(lines[starts[m]]) && ranks[m] == Rank(lines, starts[m])
    ensures FirstMisordered(ranks, from) == FirstMisordered(starts, from)
    decreases if from < |starts| then |starts| - from else 0
  {
    if from < |starts| {
      OrderProjected(lines, starts, ranks, from + 1);
      if starts[from - 1] < starts[from] {
        RankMonotone(lines, starts[from - 1], starts[from]);
      } else {
        RankMonotone(lines, starts[from], starts[from - 1]);
      }
    }
  }

  lemma OneCountProjected(lines: seq<Line>, start: nat, end: nat)
    requires start < end <= |lines| && Counted(lines[start])
    ensures Rank(lines, start) < Rank(lines, end) <= |Project(lines)|
    ensures CountBetween(Project(lines), Rank(lines, start) + 1, Rank(lines, end)) == CountBetween(lines, start + 1, end)
  {
    RankStep(lines, start);
    RankMonotone(lines, start, end);
    CountProjected(lines, start + 1, end);
  }

  ghost predicate RankedStarts(lines: seq<Line>, starts: seq<nat>, ranks: seq<nat>, to: nat)
  {
    && to <= |lines| && |ranks| == |starts|
    && forall m | 0 <= m < |starts| :: starts[m] < to && Counted(lines[starts[m]]) && ranks[m] == Rank(lines, starts[m])
  }

  lemma RanksBelow(lines: seq<Line>, starts: seq<nat>, ranks: seq<nat>, to: nat)
    requires RankedStarts(lines, starts, ranks, to)
    ensures Rank(lines, to) <= |Project(lines)|
    ensures forall m | 0 <= m < |starts| :: starts[m] < to && ranks[m] < Rank(lines, to)
  {
    RankMonotone(lines, to, |lines|);
    forall m | 0 <= m < |starts| ensures ranks[m] < Rank(lines, to) {
      RankMonotone(lines, starts[m], to);
    }
  }

  lemma SectionProjected(lines: seq<Line>, starts: seq<nat>, ranks: seq<nat>, to: nat, m: nat)
    requires RankedStarts(lines, starts, ranks, to) && m < |starts| && Rank(lines, to) <= |Project(lines)|
    requires forall k | 0 <= k < |starts| :: starts[k] < to && ranks[k] < Rank(lines, to)
    requires m + 1 < |starts| ==> starts[m] < starts[m + 1]
    ensures SectionCounts(Project(lines), ranks, m, Rank(lines, to)) == SectionCounts(lines, starts, m, to)
  {
    OneCountProjected(lines, starts[m], if m + 1 < |starts| then starts[m + 1] else to);
  }

  lemma CountsProjected(lines: seq<Line>, starts: seq<nat>, ranks: seq<nat>, to: nat)
    requires RankedStarts(lines, starts, ranks, to) && FirstMisordered(starts, 1).None?
    ensures Rank(lines, to) <= |Project(lines)|
    ensures forall m | 0 <= m < |starts| :: starts[m] < to && ranks[m] < Rank(lines, to)
    ensures CountsOf(Project(lines), ranks, Rank(lines, to)) == CountsOf(lines, starts, to)
  {
    RanksBelow(lines, starts, ranks, to);
    FirstMisorderedMeaning(starts, 1);
    forall m | 0 <= m < |starts|
      ensures SectionCounts(Project(lines), ranks, m, Rank(lines, to)) == SectionCounts(lines, starts, m, to)
    {
      SectionProjected(lines, starts, ranks, to, m);
    }
  }

  /** The counters see only the projection: table rows and the date line do not exist for them. */
  lemma CountsDependOnProjection(lines: seq<Line>, modules: seq<ModuleConfig>)
    requires WellFormedModules(modules)
    ensures ComputeCounts(lines, modules) == ComputeCounts(Project(lines), modules)
  {
    HeadersAreCounted(modules);
    RankEnds(lines);
    FindProjected(lines, IsPartII, 0, |lines|);
    FindInMeaning(lines, IsPartII, 0, |lines|);
    var partII := FindIn(lines, IsPartII, 0, |lines|);
    if partII.Some? {
      FindProjected(lines, IsCoverageHeader, partII.value, |lines|);
      FindInMeaning(lines, IsCoverageHeader, partII.value, |lines|);
      var coverage := FindIn(lines, IsCoverageHeader, partII.value, |lines|);
      if coverage.Some? {
        StartsProjected(lines, modules, partII.value, coverage.value);
        var starts := ModuleStarts(lines, modules, partII.value, coverage.value);
        if starts.Ok? {
          var ranks := ModuleStarts(Project(lines), modules, Rank(lines, partII.value), Rank(lines, coverage.value)).value;
          OrderProjected(lines, starts.value, ranks, 1);
          if FirstMisordered(starts.value, 1).None? {
            CountsProjected(lines, starts.value, ranks, coverage.value);
          }
        }
      }
    }
  }

  /* ---- rewriting keeps the projection ---- */

  predicate AllRows(lines: seq<Line>)
  {
    forall l <- lines :: Begins(l, '|')
  }

  lemma {:induction false} RowsAreNotCounted(lines: seq<Line>)
    requires AllRows(lines)
    ensures Project(lines) == []
  {
    if lines != [] {
      assert lines[0] in lines && forall l <- lines[1..] :: l in lines;
      RowsAreNotCounted(lines[1..]);
    }
  }

  lemma SpliceKeepsProjection(lines: seq<Line>, from: nat, to: nat, block: seq<Line>)
    requires from <= to <= |lines| && AllRows(lines[from..to]) && AllRows(block)
    ensures Project(Splice(lines, from, to, block)) == Project(lines)
  {
    RowsAreNotCounted(lines[from..to]);
    RowsAreNotCounted(block);
    assert lines == lines[..from] + lines[from..to] + lines[to..];
    FilterAppend(lines[..from], lines[from..to], Counted);
    FilterAppend(lines[..from] + lines[from..to], lines[to..], Counted);
    FilterAppend(lines[..from], block, Counted);
    FilterAppend(lines[..from] + block, lines[to..], Counted);
  }

  lemma TableRows(modules: seq<ModuleConfig>, counts: seq<Counts>)
    requires |counts| == |modules|
    ensures AllRows(CoverageTable(modules, counts))
  {
    RowBegins(TABLE_HEADER, TABLE_SEPARATOR);
    forall l <- DataRows(modules, counts) ensures Begins(l, '|') {
      var i :| 0 <= i < |modules| && DataRows(modules, counts)[i] == l;
      RowOfBegins(DataLabel(modules[i]), DataCells(counts[i]));
    }
    RowOfBegins(TotalLabel(ExcludedKeys(modules)), TotalCells(TotalCounts(modules, counts)));
  }

  lemma RowOfBegins(cell: string, rest: string)
    ensures Begins(RowOf(cell, rest), '|')
  {
  }

  lemma RowBegins(header: Line, rule: Line)
    requires header == TABLE_HEADER && rule == TABLE_SEPARATOR
    ensures Begins(header, '|') && Begins(rule, '|')
  {
  }

  lemma CoverageKeepsProjection(lines: seq<Line>, table: seq<Line>, out: seq<Line>)
    requires AllRows(table) && RegenerateCoverage(lines, table) == Ok(out)
    ensures Project(out) == Project(lines)
  {
    TableAtBounds(lines);
    var at := TableAt(lines).value;
    var end := RunEnd(lines, at + 1, '|');
    assert lines[at][0] == TABLE_HEADER_PREFIX[0] == '|';
    SpliceKeepsProjection(lines, at, end, table);
  }

  lemma {:induction false} PhaseRowsAt(rows: seq<Line>, modules: seq<ModuleConfig>, counts: seq<Counts>, i: nat)
    requires |counts| == |modules| && PhaseRows(rows, modules, counts).Ok? && i < |rows|
    ensures var index := IndexOfLabel(modules, FirstCell(rows[i]));
            index.Some? && PhaseRows(rows, modules, counts).value[i] == PhaseRow(FirstCell(rows[i]), counts[index.value])
  {
    var n := |rows| - 1;
    if i < n {
      PhaseRowsAt(rows[..n], modules, counts, i);
    }
  }

  lemma PhaseRowShape(rows: seq<Line>, modules: seq<ModuleConfig>, counts: seq<Counts>, i: nat)
    requires |counts| == |modules| && WellFormedModules(modules) && PhaseRows(rows, modules, counts).Ok? && i < |rows|
    ensures var out := PhaseRows(rows, modules, counts).value[i];
            IsLabel(modules, FirstCell(rows[i])) && FirstCell(out) == FirstCell(rows[i]) && Begins(out, '|')
  {
    PhaseRowsAt(rows, modules, counts, i);
    var index := IndexOfLabel(modules, FirstCell(rows[i])).value;
    assert modules[index] in modules;
    RowOfCell(FirstCell(rows[i]), PhaseCells(counts[index]));
  }

  predicate IsLabel(modules: seq<ModuleConfig>, cell: string)
  {
    exists m <- modules :: m.rowLabel == cell
  }

  /** The rows depend on the labels alone. */
  lemma {:induction false} PhaseRowsByLabel(a: seq<Line>, b: seq<Line>, modules: seq<ModuleConfig>, counts: seq<Counts>)
    requires |counts| == |modules| && |a| == |b| && forall i | 0 <= i < |a| :: FirstCell(a[i]) == FirstCell(b[i])
    ensures PhaseRows(a, modules, counts) == PhaseRows(b, modules, counts)
  {
    if a != [] {
      PhaseRowsByLabel(a[..|a| - 1], b[..|b| - 1], modules, counts);
    }
  }

  /* ---- first cells of the fixed lines ---- */

  lemma RuleCell(rest: string)
    ensures FirstCell("|--------|" + rest) == "--------"
  {
    FirstCellOf("", "--------", "", rest);
    assert "|" + "" + "--------" + "" + "|" == "|--------|";
  }

  lemma HeaderCells()
    ensures forall l :: IsTableHeader(l) ==> FirstCell(l) == "Module" && !IsPhaseTableHeader(l)
    ensures forall l :: IsPhaseTableHeader(l) ==> FirstCell(l) == "Module" && Begins(l, '|')
    ensures FirstCell(TABLE_SEPARATOR) == "--------" && FirstCell(PHASE_TABLE_SEPARATOR) == "--------"
    ensures IsTableHeader(TABLE_HEADER) && IsPhaseTableHeader(PHASE_TABLE_HEADER)
  {
    forall l | IsTableHeader(l) || IsPhaseTableHeader(l) ensures FirstCell(l) == "Module" {
      assert l[..10] == "|" + " " + "Module" + " " + "|" by {
        assert |TABLE_HEADER_PREFIX| > 10 && |PHASE_TABLE_HEADER_PREFIX| > 10;
        assert TABLE_HEADER_PREFIX[..10] == "| Module |" && PHASE_TABLE_HEADER_PREFIX[..10] == "| Module |";
        assert l[..10] == "| Module |";
      }
      FirstCellOf(" ", "Module", " ", l[10..]);
      assert l == "|" + " " + "Module" + " " + "|" + l[10..];
    }
    forall l | IsTableHeader(l) ensures !IsPhaseTableHeader(l) {
      assert TABLE_HEADER_PREFIX[11] == 'T' == l[11];
      assert PHASE_TABLE_HEADER_PREFIX[11] == 'V';
    }
    RuleCell("-------|-----------------|" + "------------------------|" + "---------------------|" + "---------------------|");
    RuleCell("-----------------|---------------|");
  }

  lemma {:induction false} BeforeDashPrefix(s: string)
    ensures BeforeDash(s) <= s
  {
    if s != [] && !(" — " <= s) {
      BeforeDashPrefix(s[1..]);
      assert s == [s[0]] + s[1..];
    }
  }

  lemma {:induction false} ExcludedKeysFit(modules: seq<ModuleConfig>)
    requires WellFormedModules(modules)
    ensures forall k <- ExcludedKeys(modules) :: '|' !in k
  {
    if modules != [] {
      var n := |modules| - 1;
      ExcludedKeysFit(modules[..n]);
      assert modules[n] in modules;
      BeforeDashPrefix(modules[n].rowLabel);
      var key := BeforeDash(modules[n].rowLabel);
      assert forall i | 0 <= i < |key| :: key[i] == modules[n].rowLabel[i];
    }
  }

  lemma TotalRowCell(excluded: seq<string>, tot: Counts)
    requires forall k <- excluded :: '|' !in k
    ensures FirstCell(TotalRow(excluded, tot)) == TotalLabel(excluded) && TotalLabel(excluded)[0] == '*'
    ensures Begins(TotalRow(excluded, tot), '|')
  {
    var text := TotalLabel(excluded);
    JoinAvoids(excluded, ", ", '|');
    assert text[0] == '*' && text[|text| - 1] == '*';
    assert '|' !in text;
    RowOfCell(text, TotalCells(tot));
  }

  lemma DataRowCell(m: ModuleConfig, c: Counts)
    requires WellFormedModule(m)
    ensures FirstCell(DataRow(m, c)) == DataLabel(m) != "Module" && Begins(DataRow(m, c), '|')
  {
    var text := DataLabel(m);
    if m.excludeFromTotal {
      assert text[|text| - 1] == ')';
      assert text[0] == m.rowLabel[0];
    }
    RowOfCell(text, DataCells(c));
  }

  /* ---- where tables sit ---- */

  /** What a line is to the table rewrites. */
  datatype Kind = Prose | HeaderRow | RuleRow | ModuleRow | OtherRow

  function KindOf(modules: seq<ModuleConfig>, l: Line): Kind
  {
    if !Begins(l, '|') then Prose
    else if FirstCell(l) == "Module" then HeaderRow
    else if FirstCell(l) == "--------" then RuleRow
    else if IsLabel(modules, FirstCell(l)) then ModuleRow
    else OtherRow
  }

  function Kinds(modules: seq<ModuleConfig>): Line -> Kind
  {
    (l: Line) => KindOf(modules, l)
  }

  /** A settled table: its whole run of rows, one header, a rule below it. */
  ghost predicate TableStands(lines: seq<Line>, kind: Line -> Kind, a: nat, b: nat)
  {
    && a + 3 <= b <= |lines|
    && kind(lines[a]) == HeaderRow && kind(lines[a + 1]) == RuleRow
    && (forall i | a < i < b :: kind(lines[i]) !in {Prose, HeaderRow})
    && (b < |lines| ==> kind(lines[b]) == Prose)
  }

  /** What a phase step did: the rows `at..end` are rewritten one for one, and nothing else moves. */
  ghost predicate PhaseStepped(lines: seq<Line>, out: seq<Line>, kind: Line -> Kind, at: nat, end: nat)
  {
    && |out| == |lines| && at + 3 <= end <= |lines|
    && (forall i | 0 <= i < |lines| && !(at <= i < end) :: out[i] == lines[i])
    && kind(lines[at]) == HeaderRow && kind(lines[at + 1]) != Prose && TableStands(out, kind, at, end)
    && (forall i | at + 2 <= i < end :: kind(lines[i]) == ModuleRow && kind(out[i]) == ModuleRow)
  }

  /** A settled table and a phase table are one and the same, or do not meet. */
  lemma TablesApart(lines: seq<Line>, out: seq<Line>, kind: Line -> Kind, a: nat, b: nat, at: nat, end: nat)
    requires TableStands(lines, kind, a, b) && PhaseStepped(lines, out, kind, at, end)
    ensures a == at || b < at || end < a
  {
    assert kind(lines[a + 1]) == RuleRow;
    assert end < |lines| ==> out[end] == lines[end];
  }

  lemma SpliceStepped(lines: seq<Line>, kind: Line -> Kind, at: nat, end: nat, block: seq<Line>)
    requires at + 3 <= end <= |lines| && |block| == end - at
    requires TableStands(block, kind, 0, |block|)
    requires kind(lines[at]) == HeaderRow && kind(lines[at + 1]) != Prose && (end < |lines| ==> kind(lines[end]) == Prose)
    requires forall i | at + 2 <= i < end :: kind(lines[i]) == ModuleRow
    requires forall i | 2 <= i < |block| :: kind(block[i]) == ModuleRow
    ensures PhaseStepped(lines, Splice(lines, at, end, block), kind, at, end)
  {
    var out := Splice(lines, at, end, block);
    assert forall i | at <= i < end :: out[i] == block[i - at];
  }

  lemma BlockStands(rows: seq<Line>, modules: seq<ModuleConfig>, counts: seq<Counts>)
    requires |counts| == |modules| && WellFormedModules(modules)
    requires rows != [] && PhaseRows(rows, modules, counts).Ok? && forall l <- rows :: Begins(l, '|')
    ensures var block, kind := PhaseBlock(PhaseRows(rows, modules, counts).value), Kinds(modules);
            && TableStands(block, kind, 0, |block|)
            && (forall i | 0 <= i < |rows| :: kind(rows[i]) == ModuleRow)
            && forall i | 2 <= i < |block| :: kind(block[i]) == ModuleRow
  {
    HeaderCells();
    var newRows := PhaseRows(rows, modules, counts).value;
    forall i | 0 <= i < |rows| ensures KindOf(modules, rows[i]) == ModuleRow && KindOf(modules, newRows[i]) == ModuleRow {
      PhaseRowShape(rows, modules, counts, i);
      assert rows[i] in rows;
    }
  }

  /** Where a successful step found its table, and what it put there. */
  lemma PhaseStepParts(lines: seq<Line>, header: string, next: Option<string>,
                       modules: seq<ModuleConfig>, counts: seq<Counts>, out: seq<Line>)
    returns (at: nat, end: nat, newRows: seq<Line>)
    requires |counts| == |modules| && PhaseStep(lines, header, next, modules, counts) == Ok(out)
    ensures at + 3 <= end <= |lines| && IsPhaseTableHeader(lines[at])
    ensures PhaseTableAt(lines, header, next) == Ok(at) && end == RunEnd(lines, at + 1, '|')
    ensures PhaseRows(lines[at + 2..end], modules, counts) == Ok(newRows)
    ensures out == Splice(lines, at, end, PhaseBlock(newRows))
  {
    PhaseTableAtBounds(lines, header, next);
    at := PhaseTableAt(lines, header, next).value;
    end := RunEnd(lines, at + 1, '|');
    newRows := PhaseRows(lines[at + 2..end], modules, counts).value;
  }

  lemma PhaseStepShape(lines: seq<Line>, header: string, next: Option<string>,
                       modules: seq<ModuleConfig>, counts: seq<Counts>, out: seq<Line>)
    returns (at: nat, end: nat)
    requires |counts| == |modules| && WellFormedModules(modules)
    requires PhaseStep(lines, header, next, modules, counts) == Ok(out)
    ensures PhaseStepped(lines, out, Kinds(modules), at, end)
    ensures PhaseTableAt(lines, header, next) == Ok(at) && end == RunEnd(lines, at + 1, '|')
    ensures PhaseRows(lines[at + 2..end], modules, counts).Ok?
    ensures out == Splice(lines, at, end, PhaseBlock(PhaseRows(lines[at + 2..end], modules, counts).value))
  {
    var newRows;
    at, end, newRows := PhaseStepParts(lines, header, next, modules, counts, out);
    StepShape(lines, modules, counts, at, end, newRows);
  }

  lemma StepShape(lines: seq<Line>, modules: seq<ModuleConfig>, counts: seq<Counts>, at: nat, end: nat, newRows: seq<Line>)
    requires |counts| == |modules| && WellFormedModules(modules)
    requires at + 3 <= end <= |lines| && IsPhaseTableHeader(lines[at]) && end == RunEnd(lines, at + 1, '|')
    requires PhaseRows(lines[at + 2..end], modules, counts) == Ok(newRows)
    ensures PhaseStepped(lines, Splice(lines, at, end, PhaseBlock(newRows)), Kinds(modules), at, end)
  {
    HeaderKind(modules, lines[at]);
    BlockStands(lines[at + 2..end], modules, counts);
    RowsOfRun(lines, Kinds(modules), at, end, lines[at + 2..end]);
    assert Begins(lines[at + 1], '|');
    SpliceStepped(lines, Kinds(modules), at, end, PhaseBlock(newRows));
  }

  lemma RowsOfRun(lines: seq<Line>, kind: Line -> Kind, at: nat, end: nat, rows: seq<Line>)
    requires at + 3 <= end <= |lines| && rows == lines[at + 2..end]
    requires forall i | 0 <= i < |rows| :: kind(rows[i]) == ModuleRow
    ensures forall i | at + 2 <= i < end :: kind(lines[i]) == ModuleRow
  {
    forall i | at + 2 <= i < end ensures kind(lines[i]) == ModuleRow {
      assert lines[i] == rows[i - at - 2];
    }
  }

  lemma HeaderKind(modules: seq<ModuleConfig>, l: Line)
    ensures IsPhaseTableHeader(l) ==> KindOf(modules, l) == HeaderRow
    ensures IsTableHeader(l) ==> KindOf(modules, l) == HeaderRow && !IsPhaseTableHeader(l)
  {
    HeaderCells();
    if IsTableHeader(l) {
      assert l[0] == TABLE_HEADER_PREFIX[0] == '|';
    }
  }

  /* ---- each rewrite leaves the others' work alone ---- */

  /** Lines that are not prose, and the date line, are no heading of any kind. */
  lemma NoHeading(l: Line, header: string)
    requires (Begins(l, '|') || Begins(l, '>')) && header in PHASE_HEADERS
    ensures !IsPartII(l) && !IsCoverageHeader(l) && !TrimsTo(header)(l)
  {
    TrimKeepsFirst(l);
    assert PHASE_HEADERS[0][0] == '#' && PHASE_HEADERS[1][0] == '#';
  }

  /** Two documents of one length that differ only in lines that are table rows, or quotes, in both. */
  ghost predicate SameHeadings(lines: seq<Line>, out: seq<Line>)
  {
    && |out| == |lines|
    && forall i | 0 <= i < |lines| && out[i] != lines[i] ::
         (Begins(lines[i], '|') || Begins(lines[i], '>')) && (Begins(out[i], '|') || Begins(out[i], '>'))
  }

  lemma SameHeadingSearches(lines: seq<Line>, out: seq<Line>, header: string)
    requires SameHeadings(lines, out) && header in PHASE_HEADERS
    ensures forall i | 0 <= i < |lines| :: IsPartII(out[i]) == IsPartII(lines[i])
    ensures forall i | 0 <= i < |lines| :: IsCoverageHeader(out[i]) == IsCoverageHeader(lines[i])
    ensures forall i | 0 <= i < |lines| :: TrimsTo(header)(out[i]) == TrimsTo(header)(lines[i])
  {
    forall i | 0 <= i < |lines| && out[i] != lines[i]
      ensures IsPartII(out[i]) == IsPartII(lines[i]) && IsCoverageHeader(out[i]) == IsCoverageHeader(lines[i])
              && TrimsTo(header)(out[i]) == TrimsTo(header)(lines[i])
    {
      NoHeading(lines[i], header);
      NoHeading(out[i], header);
    }
  }

  lemma SameUpperBound(lines: seq<Line>, out: seq<Line>, next: Option<string>, from: nat)
    requires SameHeadings(lines, out) && from <= |lines| && (next.Some? ==> next.value in PHASE_HEADERS)
    ensures UpperBound(out, next, from) == UpperBound(lines, next, from)
  {
    if next.Some? {
      SameHeadingSearches(lines, out, next.value);
      FindInAgrees(lines, out, TrimsTo(next.value), from, |lines|);
    }
  }

  /** A phase table stays where it is when no new header row appears before it. */
  lemma SamePhaseTable(lines: seq<Line>, out: seq<Line>, header: string, next: Option<string>, at: nat)
    requires SameHeadings(lines, out) && header in PHASE_HEADERS && (next.Some? ==> next.value in PHASE_HEADERS)
    requires PhaseTableAt(lines, header, next) == Ok(at) && at < |lines| && IsPhaseTableHeader(out[at])
    requires forall i | 0 <= i < at :: IsPhaseTableHeader(out[i]) ==> IsPhaseTableHeader(lines[i])
    ensures PhaseTableAt(out, header, next) == Ok(at)
  {
    var h, end := PhaseTableParts(lines, header, next, at);
    SamePhaseSearch(lines, out, header, next, h);
    PhaseTableIs(out, header, next, h, end, at, lines, IsPhaseTableHeader);
  }

  lemma PhaseTableParts(lines: seq<Line>, header: string, next: Option<string>, at: nat) returns (h: nat, end: nat)
    requires PhaseTableAt(lines, header, next) == Ok(at)
    ensures h < |lines| && end <= |lines| && FindIn(lines, TrimsTo(header), 0, |lines|) == Some(h)
    ensures end == UpperBound(lines, next, h + 1) && FindIn(lines, IsPhaseTableHeader, h, end) == Some(at)
  {
    FindInMeaning(lines, TrimsTo(header), 0, |lines|);
    h := FindIn(lines, TrimsTo(header), 0, |lines|).value;
    end := UpperBound(lines, next, h + 1);
  }

  lemma SamePhaseSearch(lines: seq<Line>, out: seq<Line>, header: string, next: Option<string>, h: nat)
    requires SameHeadings(lines, out) && header in PHASE_HEADERS && (next.Some? ==> next.value in PHASE_HEADERS)
    requires h < |lines| && FindIn(lines, TrimsTo(header), 0, |lines|) == Some(h)
    ensures FindIn(out, TrimsTo(header), 0, |out|) == Some(h)
    ensures UpperBound(out, next, h + 1) == UpperBound(lines, next, h + 1)
  {
    SameHeadingSearches(lines, out, header);
    FindInAgrees(lines, out, TrimsTo(header), 0, |lines|);
    SameUpperBound(lines, out, next, h + 1);
  }

  lemma PhaseTableIs(out: seq<Line>, header: string, next: Option<string>, h: nat, end: nat, at: nat,
                     lines: seq<Line>, p: Line -> bool)
    requires |lines| == |out| && p == IsPhaseTableHeader
    requires h < |out| && FindIn(out, TrimsTo(header), 0, |out|) == Some(h) && end == UpperBound(out, next, h + 1)
    requires FindIn(lines, p, h, end) == Some(at) && at < |out| && p(out[at])
    requires forall i | 0 <= i < at :: p(out[i]) ==> p(lines[i])
    ensures PhaseTableAt(out, header, next) == Ok(at)
  {
    FirstStays(lines, out, p, h, end, at);
  }

  lemma FirstStays(lines: seq<Line>, out: seq<Line>, p: Line -> bool, from: nat, to: nat, at: nat)
    requires |out| == |lines| && to <= |lines| && FindIn(lines, p, from, to) == Some(at)
    requires at < |lines| && p(out[at]) && forall i | 0 <= i < at :: p(out[i]) ==> p(lines[i])
    ensures FindIn(out, p, from, to) == Some(at)
  {
    FindInMeaning(lines, p, from, to);
    FindInIs(out, p, from, to, at);
  }

  /** A phase step spelled out: where the table is, where it ends, what its rows become. */
  lemma PhaseStepIs(lines: seq<Line>, header: string, next: Option<string>, modules: seq<ModuleConfig>,
                    counts: seq<Counts>, at: nat, end: nat, newRows: seq<Line>)
    requires |counts| == |modules| && at + 2 < end <= |lines|
    requires PhaseTableAt(lines, header, next) == Ok(at) && RunEnd(lines, at + 1, '|') == end
    requires PhaseRows(lines[at + 2..end], modules, counts) == Ok(newRows)
    requires lines[at..end] == PhaseBlock(newRows)
    ensures PhaseStep(lines, header, next, modules, counts) == Ok(lines)
  {
    SpliceSame(lines, at, end, PhaseBlock(newRows));
  }

  lemma SpliceSame(lines: seq<Line>, from: nat, to: nat, block: seq<Line>)
    requires from <= to <= |lines| && lines[from..to] == block
    ensures Splice(lines, from, to, block) == lines
  {
  }

  lemma SpliceSlice(lines: seq<Line>, from: nat, to: nat, block: seq<Line>)
    requires from <= to <= |lines| && |block| == to - from
    ensures Splice(lines, from, to, block)[from..to] == block
  {
  }

  lemma SteppedKeepsHeadings(lines: seq<Line>, out: seq<Line>, modules: seq<ModuleConfig>, at: nat, end: nat)
    requires PhaseStepped(lines, out, Kinds(modules), at, end)
    ensures SameHeadings(lines, out)
    ensures forall i | 0 <= i < |lines| && i != at :: IsPhaseTableHeader(out[i]) ==> IsPhaseTableHeader(lines[i])
    ensures forall i | 0 <= i < |lines| :: IsTableHeader(out[i]) ==> IsTableHeader(lines[i]) || i == at
  {
    var kind := Kinds(modules);
    forall i | at <= i < end ensures Begins(lines[i], '|') && Begins(out[i], '|') {
      assert kind(lines[i]) != Prose && kind(out[i]) != Prose;
    }
    forall i | at < i < end ensures !IsPhaseTableHeader(out[i]) && !IsTableHeader(out[i]) {
      assert kind(out[i]) != HeaderRow;
      HeaderKind(modules, out[i]);
    }
  }

  /** A step applied to its own result changes nothing. */
  lemma StepAgain(lines: seq<Line>, header: string, next: Option<string>,
                  modules: seq<ModuleConfig>, counts: seq<Counts>, out: seq<Line>)
    requires |counts| == |modules| && WellFormedModules(modules)
    requires header in PHASE_HEADERS && (next.Some? ==> next.value in PHASE_HEADERS)
    requires PhaseStep(lines, header, next, modules, counts) == Ok(out)
    ensures PhaseStep(out, header, next, modules, counts) == Ok(out)
  {
    var at, end := PhaseStepShape(lines, header, next, modules, counts, out);
    var newRows := PhaseRows(lines[at + 2..end], modules, counts).value;
    HeaderCells();
    SteppedKeepsHeadings(lines, out, modules, at, end);
    assert out[at] == PhaseBlock(newRows)[0];
    SamePhaseTable(lines, out, header, next, at);
    SettledRun(out, Kinds(modules), modules, at, end);
    SpliceSlice(lines, at, end, PhaseBlock(newRows));
    assert out[at + 2..end] == PhaseBlock(newRows)[2..] == newRows;
    RowLabelsKept(lines[at + 2..end], modules, counts);
    PhaseRowsByLabel(lines[at + 2..end], newRows, modules, counts);
    PhaseStepIs(out, header, next, modules, counts, at, end, newRows);
  }

  lemma SettledRun(lines: seq<Line>, kind: Line -> Kind, modules: seq<ModuleConfig>, a: nat, b: nat)
    requires TableStands(lines, kind, a, b) && kind == Kinds(modules)
    ensures RunEnd(lines, a + 1, '|') == b
  {
    forall i | a < i < b ensures Begins(lines[i], '|') {
      assert kind(lines[i]) != Prose;
    }
    RunEndIs(lines, a + 1, '|', b);
  }

  lemma RowLabelsKept(rows: seq<Line>, modules: seq<ModuleConfig>, counts: seq<Counts>)
    requires |counts| == |modules| && WellFormedModules(modules) && PhaseRows(rows, modules, counts).Ok?
    ensures forall i | 0 <= i < |rows| :: FirstCell(rows[i]) == FirstCell(PhaseRows(rows, modules, counts).value[i])
  {
    forall i | 0 <= i < |rows| ensures FirstCell(rows[i]) == FirstCell(PhaseRows(rows, modules, counts).value[i]) {
      PhaseRowShape(rows, modules, counts, i);
    }
  }

  /** A phase that a step leaves alone, spelled out. */
  lemma FixedPhase(lines: seq<Line>, header: string, next: Option<string>, modules: seq<ModuleConfig>, counts: seq<Counts>)
    returns (a: nat, b: nat, newRows: seq<Line>)
    requires |counts| == |modules| && WellFormedModules(modules)
    requires PhaseStep(lines, header, next, modules, counts) == Ok(lines)
    ensures a + 2 < b <= |lines| && PhaseTableAt(lines, header, next) == Ok(a) && b == RunEnd(lines, a + 1, '|')
    ensures PhaseRows(lines[a + 2..b], modules, counts) == Ok(newRows) && lines[a..b] == PhaseBlock(newRows)
    ensures TableStands(lines, Kinds(modules), a, b)
  {
    a, b := PhaseStepShape(lines, header, next, modules, counts, lines);
    newRows := PhaseRows(lines[a + 2..b], modules, counts).value;
    SpliceSlice(lines, a, b, PhaseBlock(newRows));
  }

  /** A settled phase table survives another phase's step. */
  lemma StepKeepsSettledPhase(lines: seq<Line>, h1: string, next1: Option<string>, h2: string, next2: Option<string>,
                              modules: seq<ModuleConfig>, counts: seq<Counts>, out: seq<Line>)
    requires |counts| == |modules| && WellFormedModules(modules)
    requires h1 in PHASE_HEADERS && (next1.Some? ==> next1.value in PHASE_HEADERS)
    requires h2 in PHASE_HEADERS && (next2.Some? ==> next2.value in PHASE_HEADERS)
    requires PhaseStep(lines, h1, next1, modules, counts) == Ok(lines)
    requires PhaseStep(lines, h2, next2, modules, counts) == Ok(out)
    ensures PhaseStep(out, h1, next1, modules, counts) == Ok(out)
  {
    var a, b, newRows := FixedPhase(lines, h1, next1, modules, counts);
    if PhaseTableAt(lines, h2, next2) == Ok(a) {
      PhaseStepIs(lines, h2, next2, modules, counts, a, b, newRows);
    } else {
      var at, end := StepElsewhere(lines, h2, next2, modules, counts, out, a, b);
      PhaseTableAtBounds(lines, h1, next1);
      SamePhaseTable(lines, out, h1, next1, a);
      SettledElsewhere(lines, out, h1, next1, modules, counts, a, b, newRows);
    }
  }

  lemma StepElsewhere(lines: seq<Line>, header: string, next: Option<string>, modules: seq<ModuleConfig>,
                      counts: seq<Counts>, out: seq<Line>, a: nat, b: nat)
    returns (at: nat, end: nat)
    requires |counts| == |modules| && WellFormedModules(modules)
    requires TableStands(lines, Kinds(modules), a, b) && PhaseTableAt(lines, header, next) != Ok(a)
    requires PhaseStep(lines, header, next, modules, counts) == Ok(out)
    ensures PhaseStepped(lines, out, Kinds(modules), at, end) && (b < at || end < a)
    ensures SameHeadings(lines, out) && out[a] == lines[a]
    ensures forall i | 0 <= i < |lines| :: IsPhaseTableHeader(out[i]) ==> IsPhaseTableHeader(lines[i])
    ensures forall i | 0 <= i < |lines| :: IsTableHeader(out[i]) ==> IsTableHeader(lines[i])
    ensures b < |lines| ==> Begins(out[b], '|') == Begins(lines[b], '|')
  {
    PhaseTableAtBounds(lines, header, next);
    at, end := PhaseStepShape(lines, header, next, modules, counts, out);
    TablesApart(lines, out, Kinds(modules), a, b, at, end);
    SteppedKeepsHeadings(lines, out, modules, at, end);
    HeaderCells();
    assert out[at] == PHASE_TABLE_HEADER by {
      SpliceSlice(lines, at, end, PhaseBlock(PhaseRows(lines[at + 2..end], modules, counts).value));
      assert out[at] == out[at..end][0];
    }
    HeaderKind(modules, out[at]);
  }

  lemma SettledElsewhere(lines: seq<Line>, out: seq<Line>, header: string, next: Option<string>,
                         modules: seq<ModuleConfig>, counts: seq<Counts>, a: nat, b: nat, newRows: seq<Line>)
    requires |counts| == |modules| && a + 2 < b <= |lines| == |out|
    requires PhaseTableAt(out, header, next) == Ok(a) && b == RunEnd(lines, a + 1, '|')
    requires PhaseRows(lines[a + 2..b], modules, counts) == Ok(newRows) && lines[a..b] == PhaseBlock(newRows)
    requires forall i | a <= i < b :: out[i] == lines[i]
    requires b < |lines| ==> Begins(out[b], '|') == Begins(lines[b], '|')
    ensures PhaseStep(out, header, next, modules, counts) == Ok(out)
  {
    UntouchedRun(lines, out, a, b);
    assert out[a + 2..b] == lines[a + 2..b];
    assert out[a..b] == lines[a..b];
    PhaseStepIs(out, header, next, modules, counts, a, b, newRows);
  }

  /** A run whose rows and next line are unchanged ends where it did. */
  lemma UntouchedRun(lines: seq<Line>, out: seq<Line>, a: nat, b: nat)
    requires |out| == |lines| && a < b <= |lines| && b == RunEnd(lines, a + 1, '|')
    requires forall i | a <= i < b :: out[i] == lines[i]
    requires b < |lines| ==> Begins(out[b], '|') == Begins(lines[b], '|')
    ensures RunEnd(out, a + 1, '|') == b
  {
    forall i | a < i < b ensures Begins(out[i], '|') { assert out[i] == lines[i]; }
    RunEndIs(out, a + 1, '|', b);
  }

  /* ---- the Coverage table stays put ---- */

  lemma AssembledStands(h: Line, rule: Line, rows: seq<Line>, last: Line, kind: Line -> Kind)
    requires kind(h) == HeaderRow && kind(rule) == RuleRow && kind(last) !in {Prose, HeaderRow}
    requires forall i | 0 <= i < |rows| :: kind(rows[i]) !in {Prose, HeaderRow}
    ensures TableStands([h, rule] + rows + [last], kind, 0, |rows| + 3)
  {
    var table := [h, rule] + rows + [last];
    forall i | 0 < i < |table| ensures kind(table[i]) !in {Prose, HeaderRow} {
      if 2 <= i < |rows| + 2 { assert table[i] == rows[i - 2]; }
    }
  }

  lemma FixedKinds(modules: seq<ModuleConfig>)
    ensures Kinds(modules)(TABLE_HEADER) == HeaderRow && Kinds(modules)(TABLE_SEPARATOR) == RuleRow
  {
    HeaderCells();
    HeaderKind(modules, TABLE_HEADER);
    assert TABLE_SEPARATOR[0] == '|';
  }

  lemma DataRowKinds(modules: seq<ModuleConfig>, counts: seq<Counts>)
    requires |counts| == |modules| && WellFormedModules(modules)
    ensures forall i | 0 <= i < |modules| :: Kinds(modules)(DataRows(modules, counts)[i]) !in {Prose, HeaderRow}
  {
    forall i | 0 <= i < |modules| ensures Kinds(modules)(DataRow(modules[i], counts[i])) !in {Prose, HeaderRow} {
      assert modules[i] in modules;
      DataRowCell(modules[i], counts[i]);
    }
  }

  lemma LastRowKind(excluded: seq<string>, tot: Counts, modules: seq<ModuleConfig>)
    requires WellFormedModules(modules) && excluded == ExcludedKeys(modules)
    ensures Kinds(modules)(TotalRow(excluded, tot)) !in {Prose, HeaderRow}
  {
    ExcludedKeysFit(modules);
    TotalRowCell(excluded, tot);
  }

  /** What the proofs need to know of the Coverage table. */
  ghost predicate IsCoverageBlock(table: seq<Line>, kind: Line -> Kind)
  {
    TableStands(table, kind, 0, |table|) && AllRows(table) && IsTableHeader(table[0])
  }

  lemma TableKinds(modules: seq<ModuleConfig>, counts: seq<Counts>)
    requires |counts| == |modules| && WellFormedModules(modules)
    ensures IsCoverageBlock(CoverageTable(modules, counts), Kinds(modules))
  {
    CoverageTableStands(modules, counts);
    TableRows(modules, counts);
    HeaderCells();
  }

  lemma CoverageTableStands(modules: seq<ModuleConfig>, counts: seq<Counts>)
    requires |counts| == |modules| && WellFormedModules(modules)
    ensures TableStands(CoverageTable(modules, counts), Kinds(modules), 0, |modules| + 3)
  {
    FixedKinds(modules);
    DataRowKinds(modules, counts);
    LastRowKind(ExcludedKeys(modules), TotalCounts(modules, counts), modules);
    AssembledStands(TABLE_HEADER, TABLE_SEPARATOR, DataRows(modules, counts),
                    TotalRow(ExcludedKeys(modules), TotalCounts(modules, counts)), Kinds(modules));
  }

  lemma TableAtParts(lines: seq<Line>) returns (p: nat, h: nat)
    requires TableAt(lines).Ok?
    ensures var a := TableAt(lines).value;
            && p <= h < a < |lines| && IsPartII(lines[p]) && IsCoverageHeader(lines[h]) && IsTableHeader(lines[a])
            && (forall i | 0 <= i < p :: !IsPartII(lines[i]))
            && (forall i | p <= i < h :: !IsCoverageHeader(lines[i]))
            && (forall i | h <= i < a :: !IsTableHeader(lines[i]))
  {
    FindInMeaning(lines, IsPartII, 0, |lines|);
    p := FindIn(lines, IsPartII, 0, |lines|).value;
    FindInMeaning(lines, IsCoverageHeader, p, |lines|);
    h := FindIn(lines, IsCoverageHeader, p, |lines|).value;
    FindInMeaning(lines, IsTableHeader, h, |lines|);
    HeadingIsNoRow(lines[h]);
  }

  lemma HeadingIsNoRow(l: Line)
    requires IsCoverageHeader(l)
    ensures !IsTableHeader(l)
  {
    assert l[0] == COVERAGE_SUMMARY_HEADER_PREFIX[0] == '#';
    assert TABLE_HEADER_PREFIX[0] == '|';
  }

  lemma TableAtIs(lines: seq<Line>, p: nat, h: nat, a: nat)
    requires p <= h < a < |lines| && IsPartII(lines[p]) && IsCoverageHeader(lines[h]) && IsTableHeader(lines[a])
    requires forall i | 0 <= i < p :: !IsPartII(lines[i])
    requires forall i | p <= i < h :: !IsCoverageHeader(lines[i])
    requires forall i | h <= i < a :: !IsTableHeader(lines[i])
    ensures TableAt(lines) == Ok(a)
  {
    FindInIs(lines, IsPartII, 0, |lines|, p);
    FindInIs(lines, IsCoverageHeader, p, |lines|, h);
    FindInIs(lines, IsTableHeader, h, |lines|, a);
  }

  lemma SameTable(lines: seq<Line>, out: seq<Line>, a: nat)
    requires SameHeadings(lines, out) && TableAt(lines) == Ok(a) && a < |lines| && out[a] == lines[a]
    requires forall i | 0 <= i < |lines| :: IsTableHeader(out[i]) ==> IsTableHeader(lines[i])
    ensures TableAt(out) == Ok(a)
  {
    var p, h := TableAtParts(lines);
    SameHeadingSearches(lines, out, PHASE_HEADERS[0]);
    TableAtIs(out, p, h, a);
  }

  lemma CoverageIs(lines: seq<Line>, table: seq<Line>, a: nat, b: nat)
    requires TableAt(lines) == Ok(a) && a < b <= |lines| && RunEnd(lines, a + 1, '|') == b && lines[a..b] == table
    ensures RegenerateCoverage(lines, table) == Ok(lines)
  {
    SpliceSame(lines, a, b, table);
  }

  lemma CoverageShape(lines: seq<Line>, table: seq<Line>, out: seq<Line>) returns (a: nat, b: nat)
    requires RegenerateCoverage(lines, table) == Ok(out)
    ensures a < b <= |lines| && TableAt(lines) == Ok(a) && b == RunEnd(lines, a + 1, '|')
    ensures out == Splice(lines, a, b, table)
  {
    TableAtBounds(lines);
    a := TableAt(lines).value;
    b := RunEnd(lines, a + 1, '|');
  }

  /** Regenerating the Coverage table twice is regenerating it once. */
  lemma CoverageAgain(lines: seq<Line>, table: seq<Line>, kind: Line -> Kind, out: seq<Line>)
    requires IsCoverageBlock(table, kind) && RegenerateCoverage(lines, table) == Ok(out)
    ensures RegenerateCoverage(out, table) == Ok(out)
  {
    var a, b := CoverageShape(lines, table, out);
    NewTableFound(lines, out, table, a, b);
    CoverageIs(out, table, a, a + |table|);
  }

  lemma NewTableFound(lines: seq<Line>, out: seq<Line>, table: seq<Line>, a: nat, b: nat)
    requires a < b <= |lines| && TableAt(lines) == Ok(a) && b == RunEnd(lines, a + 1, '|')
    requires table != [] && AllRows(table) && IsTableHeader(table[0]) && out == Splice(lines, a, b, table)
    ensures |out| >= a + |table| && out[a..a + |table|] == table && TableAt(out) == Ok(a)
    ensures RunEnd(out, a + 1, '|') == a + |table|
  {
    var p, h := TableAtParts(lines);
    assert forall i | 0 <= i < a :: out[i] == lines[i];
    assert forall i | 0 <= i < |table| :: out[a + i] == table[i];
    TableAtIs(out, p, h, a);
    forall i | a < i < a + |table| ensures Begins(out[i], '|') { assert out[i] == table[i - a] && table[i - a] in table; }
    assert a + |table| < |out| ==> out[a + |table|] == lines[b];
    RunEndIs(out, a + 1, '|', a + |table|);
  }

  lemma StandsInside(lines: seq<Line>, block: seq<Line>, kind: Line -> Kind, a: nat, b: nat)
    requires a <= b <= |lines| && lines[a..b] == block && TableStands(block, kind, 0, |block|)
    requires b < |lines| ==> kind(lines[b]) == Prose
    ensures TableStands(lines, kind, a, b)
  {
    assert forall i | a <= i < b :: lines[i] == block[i - a];
  }

  lemma FixedCoverage(lines: seq<Line>, table: seq<Line>, modules: seq<ModuleConfig>) returns (a: nat, b: nat)
    requires IsCoverageBlock(table, Kinds(modules)) && RegenerateCoverage(lines, table) == Ok(lines)
    ensures a < b <= |lines| && TableAt(lines) == Ok(a) && b == RunEnd(lines, a + 1, '|') && lines[a..b] == table
    ensures TableStands(lines, Kinds(modules), a, b) && IsTableHeader(lines[a])
  {
    a, b := CoverageShape(lines, table, lines);
    NewTableFound(lines, lines, table, a, b);
    StandsInside(lines, table, Kinds(modules), a, b);
  }

  /** A settled Coverage table survives a phase step. */
  lemma StepKeepsCoverage(lines: seq<Line>, header: string, next: Option<string>, table: seq<Line>,
                          modules: seq<ModuleConfig>, counts: seq<Counts>, out: seq<Line>)
    requires |counts| == |modules| && WellFormedModules(modules)
    requires IsCoverageBlock(table, Kinds(modules)) && RegenerateCoverage(lines, table) == Ok(lines)
    requires PhaseStep(lines, header, next, modules, counts) == Ok(out)
    ensures RegenerateCoverage(out, table) == Ok(out)
  {
    var a, b := FixedCoverage(lines, table, modules);
    PhaseTableAtBounds(lines, header, next);
    HeaderKind(modules, lines[a]);
    var at, end := StepElsewhere(lines, header, next, modules, counts, out, a, b);
    SameTable(lines, out, a);
    CoverageElsewhere(lines, out, table, a, b);
  }

  lemma CoverageElsewhere(lines: seq<Line>, out: seq<Line>, table: seq<Line>, a: nat, b: nat)
    requires a < b <= |lines| == |out| && TableAt(out) == Ok(a)
    requires b == RunEnd(lines, a + 1, '|') && lines[a..b] == table
    requires forall i | a <= i < b :: out[i] == lines[i]
    requires b < |lines| ==> Begins(out[b], '|') == Begins(lines[b], '|')
    ensures RegenerateCoverage(out, table) == Ok(out)
  {
    UntouchedRun(lines, out, a, b);
    assert out[a..b] == lines[a..b];
    CoverageIs(out, table, a, b);
  }

  /* ---- the date line touches nothing else ---- */

  lemma DateShape(lines: seq<Line>, today: string, out: seq<Line>) returns (d: nat)
    requires RegenerateDate(lines, today) == Ok(out)
    ensures d < |lines| == |out| && Begins(lines[d], '>') && Begins(out[d], '>')
    ensures forall i | 0 <= i < |lines| && i != d :: out[i] == lines[i]
    ensures IsLastUpdated(lines[d]) && IsLastUpdated(out[d])
    ensures SameHeadings(lines, out) && RegenerateDate(out, today) == Ok(out)
  {
    FindInMeaning(lines, IsLastUpdated, 0, |lines|);
    d := FindIn(lines, IsLastUpdated, 0, |lines|).value;
    assert LAST_UPDATED_PREFIX[0] == '>' && |LAST_UPDATED_PREFIX| > 0;
    assert out[d] == LAST_UPDATED_PREFIX + " " + today;
    assert lines[d][0] == LAST_UPDATED_PREFIX[0];
    assert forall i | 0 <= i < d :: !IsLastUpdated(out[i]);
    FindInIs(out, IsLastUpdated, 0, |out|, d);
    assert out[d := LAST_UPDATED_PREFIX + " " + today] == out;
  }

  lemma QuoteIsNoRow(l: Line)
    requires Begins(l, '>')
    ensures !IsTableHeader(l) && !IsPhaseTableHeader(l) && !Begins(l, '|')
  {
    assert TABLE_HEADER_PREFIX[0] == '|' && PHASE_TABLE_HEADER_PREFIX[0] == '|';
  }

  lemma DateKeepsCoverage(lines: seq<Line>, today: string, table: seq<Line>, modules: seq<ModuleConfig>, out: seq<Line>)
    requires IsCoverageBlock(table, Kinds(modules)) && RegenerateCoverage(lines, table) == Ok(lines)
    requires RegenerateDate(lines, today) == Ok(out)
    ensures RegenerateCoverage(out, table) == Ok(out)
  {
    var d := DateShape(lines, today, out);
    QuoteIsNoRow(lines[d]);
    QuoteIsNoRow(out[d]);
    var a, b := FixedCoverage(lines, table, modules);
    assert Begins(lines[a], '|') by { assert lines[a] == table[0] && table[0] in table; }
    SameTable(lines, out, a);
    assert forall i | a < i < b :: Begins(lines[i], '|');
    CoverageElsewhere(lines, out, table, a, b);
  }

  lemma DateKeepsPhase(lines: seq<Line>, today: string, header: string, next: Option<string>,
                       modules: seq<ModuleConfig>, counts: seq<Counts>, out: seq<Line>)
    requires |counts| == |modules| && WellFormedModules(modules)
    requires header in PHASE_HEADERS && (next.Some? ==> next.value in PHASE_HEADERS)
    requires PhaseStep(lines, header, next, modules, counts) == Ok(lines)
    requires RegenerateDate(lines, today) == Ok(out)
    ensures PhaseStep(out, header, next, modules, counts) == Ok(out)
  {
    var d := DateShape(lines, today, out);
    QuoteIsNoRow(lines[d]);
    QuoteIsNoRow(out[d]);
    var a, b, newRows := FixedPhase(lines, header, next, modules, counts);
    PhaseTableAtBounds(lines, header, next);
    SamePhaseTable(lines, out, header, next, a);
    assert forall i | a < i < b :: Begins(lines[i], '|');
    SettledElsewhere(lines, out, header, next, modules, counts, a, b, newRows);
  }

  /* ---- the whole run ---- */

  lemma StepKeepsProjection(lines: seq<Line>, header: string, next: Option<string>,
                            modules: seq<ModuleConfig>, counts: seq<Counts>, out: seq<Line>)
    requires |counts| == |modules| && WellFormedModules(modules)
    requires PhaseStep(lines, header, next, modules, counts) == Ok(out)
    ensures Project(out) == Project(lines)
  {
    var at, end := PhaseStepShape(lines, header, next, modules, counts, out);
    var block := PhaseBlock(PhaseRows(lines[at + 2..end], modules, counts).value);
    SpliceSlice(lines, at, end, block);
    RunsAreRows(lines, out, modules, Kinds(modules), at, end);
    SpliceKeepsProjection(lines, at, end, block);
  }

  lemma RunsAreRows(lines: seq<Line>, out: seq<Line>, modules: seq<ModuleConfig>, kind: Line -> Kind, at: nat, end: nat)
    requires PhaseStepped(lines, out, kind, at, end) && kind == Kinds(modules)
    ensures AllRows(lines[at..end]) && AllRows(out[at..end])
  {
    forall i | at <= i < end ensures Begins(lines[i], '|') && Begins(out[i], '|') {
      assert kind(lines[i]) != Prose && kind(out[i]) != Prose;
    }
  }

  lemma DateKeepsProjection(lines: seq<Line>, today: string, out: seq<Line>)
    requires RegenerateDate(lines, today) == Ok(out)
    ensures Project(out) == Project(lines)
  {
    var d := DateShape(lines, today, out);
    assert lines == lines[..d] + [lines[d]] + lines[d + 1..] && out == lines[..d] + [out[d]] + lines[d + 1..];
    FilterAppend(lines[..d], [lines[d]], Counted);
    FilterAppend(lines[..d], [out[d]], Counted);
    FilterAppend(lines[..d] + [lines[d]], lines[d + 1..], Counted);
    FilterAppend(lines[..d] + [out[d]], lines[d + 1..], Counted);
  }

  /** The three documents a successful run goes through. */
  lemma RewriteStages(lines: seq<Line>, modules: seq<ModuleConfig>, counts: seq<Counts>, today: string, out: seq<Line>)
    returns (covered: seq<Line>, first: seq<Line>, second: seq<Line>)
    requires |counts| == |modules| && Rewrite(lines, modules, counts, today) == Ok(out)
    ensures RegenerateCoverage(lines, CoverageTable(modules, counts)) == Ok(covered)
    ensures PhaseStep(covered, PHASE_HEADERS[0], NextHeader(0), modules, counts) == Ok(first)
    ensures PhaseStep(first, PHASE_HEADERS[1], NextHeader(1), modules, counts) == Ok(second)
    ensures RegenerateDate(second, today) == Ok(out)
  {
    covered := RegenerateCoverage(lines, CoverageTable(modules, counts)).value;
    first := PhaseStep(covered, PHASE_HEADERS[0], NextHeader(0), modules, counts).value;
    second := PhaseStep(first, PHASE_HEADERS[1], NextHeader(1), modules, counts).value;
    assert PhasesFrom(first, 1, modules, counts) == PhasesFrom(second, 2, modules, counts);
  }

  lemma RewriteIs(lines: seq<Line>, modules: seq<ModuleConfig>, counts: seq<Counts>, today: string)
    requires |counts| == |modules|
    requires RegenerateCoverage(lines, CoverageTable(modules, counts)) == Ok(lines)
    requires PhaseStep(lines, PHASE_HEADERS[0], NextHeader(0), modules, counts) == Ok(lines)
    requires PhaseStep(lines, PHASE_HEADERS[1], NextHeader(1), modules, counts) == Ok(lines)
    requires RegenerateDate(lines, today) == Ok(lines)
    ensures Rewrite(lines, modules, counts, today) == Ok(lines)
  {
    assert PhasesFrom(lines, 1, modules, counts) == PhasesFrom(lines, 2, modules, counts) == Ok(lines);
    assert PhasesFrom(lines, 0, modules, counts) == Ok(lines);
  }

  /** A run leaves everything its counters read where it was. */
  lemma RunKeepsCounts(lines: seq<Line>, modules: seq<ModuleConfig>, today: string, out: seq<Line>)
    requires WellFormedModules(modules) && Run(lines, modules, today) == Ok(out)
    ensures Project(out) == Project(lines)
    ensures ComputeCounts(out, modules) == ComputeCounts(lines, modules)
  {
    CountsPerModule(lines, modules);
    var counts := ComputeCounts(lines, modules).value;
    var covered, first, second := RewriteStages(lines, modules, counts, today, out);
    TableRows(modules, counts);
    CoverageKeepsProjection(lines, CoverageTable(modules, counts), covered);
    StepKeepsProjection(covered, PHASE_HEADERS[0], NextHeader(0), modules, counts, first);
    StepKeepsProjection(first, PHASE_HEADERS[1], NextHeader(1), modules, counts, second);
    DateKeepsProjection(second, today, out);
    CountsDependOnProjection(lines, modules);
    CountsDependOnProjection(out, modules);
  }

  /** What a run leaves is settled: none of its three rewrites would change anything. */
  lemma RewriteSettles(lines: seq<Line>, modules: seq<ModuleConfig>, counts: seq<Counts>, today: string, out: seq<Line>)
    requires |counts| == |modules| && WellFormedModules(modules)
    requires Rewrite(lines, modules, counts, today) == Ok(out)
    ensures RegenerateCoverage(out, CoverageTable(modules, counts)) == Ok(out)
    ensures PhaseStep(out, PHASE_HEADERS[0], NextHeader(0), modules, counts) == Ok(out)
    ensures PhaseStep(out, PHASE_HEADERS[1], NextHeader(1), modules, counts) == Ok(out)
    ensures RegenerateDate(out, today) == Ok(out)
  {
    var table := CoverageTable(modules, counts);
    var h1, h2, n1, n2 := PHASE_HEADERS[0], PHASE_HEADERS[1], NextHeader(0), NextHeader(1);
    var covered, first, second := RewriteStages(lines, modules, counts, today, out);
    TableKinds(modules, counts);
    CoverageAgain(lines, table, Kinds(modules), covered);
    StepKeepsCoverage(covered, h1, n1, table, modules, counts, first);
    StepKeepsCoverage(first, h2, n2, table, modules, counts, second);
    DateKeepsCoverage(second, today, table, modules, out);
    StepAgain(covered, h1, n1, modules, counts, first);
    StepKeepsSettledPhase(first, h1, n1, h2, n2, modules, counts, second);
    DateKeepsPhase(second, today, h1, n1, modules, counts, out);
    StepAgain(first, h2, n2, modules, counts, second);
    DateKeepsPhase(second, today, h2, n2, modules, counts, out);
    var d := DateShape(second, today, out);
  }

  lemma RewriteAgain(lines: seq<Line>, modules: seq<ModuleConfig>, counts: seq<Counts>, today: string, out: seq<Line>)
    requires |counts| == |modules| && WellFormedModules(modules)
    requires Rewrite(lines, modules, counts, today) == Ok(out)
    ensures Rewrite(out, modules, counts, today) == Ok(out)
  {
    RewriteSettles(lines, modules, counts, today, out);
    RewriteIs(out, modules, counts, today);
  }

  /**
   * The generator is idempotent within one date: whatever document its first run accepts,
   * a second run returns the same lines.
   */
  lemma RunIsIdempotent(lines: seq<Line>, modules: seq<ModuleConfig>, today: string, out: seq<Line>)
    requires WellFormedModules(modules) && Run(lines, modules, today) == Ok(out)
    ensures Run(out, modules, today) == Ok(out)
  {
    CountsPerModule(lines, modules);
    RunKeepsCounts(lines, modules, today, out);
    RewriteAgain(lines, modules, ComputeCounts(lines, modules).value, today, out);
  }
}
