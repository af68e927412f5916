/** What the numbers of the generated tables count, and what their cells read. */
module CoverageCells {
  import opened Texts
  import opened Sequences
  import opened Documents
  import opened CoverageSummary
  import opened CoverageIdempotence

  /* ---- bullets, by their literal text ---- */

  /** How many lines of a range begin with a text. */
  function Starting(lines: seq<Line>, text: string, from: nat, to: nat): nat
    requires to <= |lines|
  {
    |StartingAt(lines, text, from, to)|
  }

  function StartingAt(lines: seq<Line>, text: string, from: nat, to: nat): set<nat>
    requires to <= |lines|
  {
    set i: nat | from <= i < to && text <= lines[i]
  }

  /** The bullets of a range, state by state. */
  function BulletsBetween(lines: seq<Line>, from: nat, to: nat): Counts
    requires to <= |lines|
  {
    Counts(Starting(lines, "- [x] ", from, to), Starting(lines, "- [-] ", from, to),
           Starting(lines, "- [~] ", from, to) + Starting(lines, "- [!] ", from, to), Starting(lines, "- [ ] ", from, to))
  }

  lemma StartingNext(lines: seq<Line>, text: string, from: nat, to: nat)
    requires from < to <= |lines|
    ensures Starting(lines, text, from, to) == Starting(lines, text, from, to - 1) + if text <= lines[to - 1] then 1 else 0
  {
    var before, after := StartingAt(lines, text, from, to - 1), StartingAt(lines, text, from, to);
    if text <= lines[to - 1] {
      assert after == before + {to - 1};
    } else {
      assert after == before;
    }
  }

  lemma NothingStarts(lines: seq<Line>, text: string, from: nat, to: nat)
    requires to <= from && to <= |lines|
    ensures Starting(lines, text, from, to) == 0
  {
    assert StartingAt(lines, text, from, to) == {};
  }

  /** A line is counted for the one state whose bullet it begins with. */
  lemma LineIsCounted(c: Counts, line: Line)
    ensures AddLine(c, line) == Counts(
              c.validated + (if "- [x] " <= line then 1 else 0),
              c.needsValidation + (if "- [-] " <= line then 1 else 0),
              c.partial + (if "- [~] " <= line then 1 else 0) + (if "- [!] " <= line then 1 else 0),
              c.notAutomated + (if "- [ ] " <= line then 1 else 0))
  {
    BulletText(line, 'x', "- [x] ");
    BulletText(line, '-', "- [-] ");
    BulletText(line, '~', "- [~] ");
    BulletText(line, '!', "- [!] ");
    BulletText(line, ' ', "- [ ] ");
  }

  lemma BulletText(line: Line, c: char, text: string)
    requires text == ['-', ' ', '[', c, ']', ' '] && IsMarker(c)
    ensures text <= line <==> MarkerOf(line) == Some(c)
  {
    if MarkerOf(line) == Some(c) {
      assert line[..6] == text;
    }
    if text <= line {
      assert forall i | 0 <= i < 6 :: line[i] == text[i];
    }
  }

  lemma {:induction false} CountedBetween(lines: seq<Line>, from: nat, to: nat)
    requires to <= |lines|
    ensures CountBetween(lines, from, to) == BulletsBetween(lines, from, to)
  {
    if from >= to {
      NothingStarts(lines, "- [x] ", from, to);
      NothingStarts(lines, "- [-] ", from, to);
      NothingStarts(lines, "- [~] ", from, to);
      NothingStarts(lines, "- [!] ", from, to);
      NothingStarts(lines, "- [ ] ", from, to);
    } else {
      CountedBetween(lines, from, to - 1);
      LineIsCounted(CountBetween(lines, from, to - 1), lines[to - 1]);
      StartingNext(lines, "- [x] ", from, to);
      StartingNext(lines, "- [-] ", from, to);
      StartingNext(lines, "- [~] ", from, to);
      StartingNext(lines, "- [!] ", from, to);
      StartingNext(lines, "- [ ] ", from, to);
    }
  }

  /** The first line of a range with a property. */
  ghost predicate FirstLine(lines: seq<Line>, p: Line -> bool, from: nat, at: nat)
  {
    from <= at < |lines| && p(lines[at]) && forall i | from <= i < at :: !p(lines[i])
  }

  /** Where a module's bullets stand: below the first line with its prefix, down to the next module's or the Coverage header. */
  ghost predicate Sections(lines: seq<Line>, modules: seq<ModuleConfig>, p: nat, c: nat, starts: seq<nat>)
  {
    && FirstLine(lines, TrimsTo(PART_II_HEADER), 0, p)
    && FirstLine(lines, StartsWith(COVERAGE_SUMMARY_HEADER_PREFIX), p, c)
    && |starts| == |modules|
    && (forall m | 0 <= m < |modules| :: starts[m] < c && FirstLine(lines, StartsWith(modules[m].sectionStart), p, starts[m]))
    && forall m | 0 < m < |modules| :: starts[m - 1] < starts[m]
  }

  lemma {:induction false} StartsAreFirst(lines: seq<Line>, modules: seq<ModuleConfig>, from: nat, to: nat, m: nat)
    requires to <= |lines| && m < |modules| && ModuleStarts(lines, modules, from, to).Ok?
    ensures var starts := ModuleStarts(lines, modules, from, to).value;
            |starts| == |modules| && FindIn(lines, StartsWith(modules[m].sectionStart), from, to) == Some(starts[m])
  {
    var n := |modules| - 1;
    ModuleStartsBounds(lines, modules, from, to);
    if m < n {
      ModuleStartsBounds(lines, modules[..n], from, to);
      StartsAreFirst(lines, modules[..n], from, to, m);
    } else {
      ModuleStartsBounds(lines, modules[..n], from, to);
    }
  }

  lemma FoundIsFirst(lines: seq<Line>, p: Line -> bool, q: Line -> bool, from: nat, to: nat, at: nat)
    requires to <= |lines| && FindIn(lines, p, from, to) == Some(at) && forall l :: p(l) == q(l)
    ensures FirstLine(lines, q, from, at) && at < to
  {
    FindInMeaning(lines, p, from, to);
  }

  /** What a successful count found on its way. */
  lemma CountedParts(lines: seq<Line>, modules: seq<ModuleConfig>, counts: seq<Counts>) returns (p: nat, c: nat, starts: seq<nat>)
    requires ComputeCounts(lines, modules) == Ok(counts)
    ensures FindIn(lines, IsPartII, 0, |lines|) == Some(p) && FindIn(lines, IsCoverageHeader, p, |lines|) == Some(c)
    ensures c <= |lines| && ModuleStarts(lines, modules, p, c) == Ok(starts) && FirstMisordered(starts, 1) == None
    ensures (forall m | 0 <= m < |starts| :: starts[m] < c) && counts == CountsOf(lines, starts, c)
  {
    p := FindIn(lines, IsPartII, 0, |lines|).value;
    c := FindIn(lines, IsCoverageHeader, p, |lines|).value;
    FindInMeaning(lines, IsCoverageHeader, p, |lines|);
    starts := ModuleStarts(lines, modules, p, c).value;
    ModuleStartsBounds(lines, modules, p, c);
  }

  lemma HeadersAreFirst(lines: seq<Line>, p: nat, c: nat)
    requires FindIn(lines, IsPartII, 0, |lines|) == Some(p) && FindIn(lines, IsCoverageHeader, p, |lines|) == Some(c)
    ensures FirstLine(lines, TrimsTo(PART_II_HEADER), 0, p)
    ensures FirstLine(lines, StartsWith(COVERAGE_SUMMARY_HEADER_PREFIX), p, c)
  {
    FoundIsFirst(lines, IsPartII, TrimsTo(PART_II_HEADER), 0, |lines|, p);
    FoundIsFirst(lines, IsCoverageHeader, StartsWith(COVERAGE_SUMMARY_HEADER_PREFIX), p, |lines|, c);
  }

  lemma StartsInOrder(lines: seq<Line>, modules: seq<ModuleConfig>, p: nat, c: nat, starts: seq<nat>)
    requires c <= |lines| && ModuleStarts(lines, modules, p, c) == Ok(starts) && FirstMisordered(starts, 1) == None
    ensures |starts| == |modules| && forall m | 0 < m < |modules| :: starts[m - 1] < starts[m]
    ensures forall m | 0 <= m < |modules| :: starts[m] < c && FirstLine(lines, StartsWith(modules[m].sectionStart), p, starts[m])
  {
    ModuleStartsBounds(lines, modules, p, c);
    FirstMisorderedMeaning(starts, 1);
    forall m | 0 <= m < |modules| ensures starts[m] < c && FirstLine(lines, StartsWith(modules[m].sectionStart), p, starts[m]) {
      StartsAreFirst(lines, modules, p, c, m);
      FoundIsFirst(lines, StartsWith(modules[m].sectionStart), StartsWith(modules[m].sectionStart), p, c, starts[m]);
    }
  }

  /** One module's bullets, between the lines a count found. */
  function ModuleBullets(lines: seq<Line>, starts: seq<nat>, c: nat, m: nat): Counts
    requires m < |starts| && c <= |lines| && forall k | 0 <= k < |starts| :: starts[k] < c
  {
    BulletsBetween(lines, starts[m] + 1, if m + 1 < |starts| then starts[m + 1] else c)
  }

  /** The number of each state is how many lines of the module's range begin with that state's bullet. */
  lemma CountsAreBullets(lines: seq<Line>, modules: seq<ModuleConfig>, counts: seq<Counts>) returns (p: nat, c: nat, starts: seq<nat>)
    requires ComputeCounts(lines, modules) == Ok(counts)
    ensures Sections(lines, modules, p, c, starts) && |counts| == |modules|
    ensures forall m | 0 <= m < |modules| :: counts[m] == ModuleBullets(lines, starts, c, m)
  {
    p, c, starts := CountedParts(lines, modules, counts);
    HeadersAreFirst(lines, p, c);
    StartsInOrder(lines, modules, p, c, starts);
    CountsOfSections(lines, starts, c);
    forall m | 0 <= m < |modules| ensures counts[m] == ModuleBullets(lines, starts, c, m) {
      assert counts[m] == CountsOf(lines, starts, c)[m];
    }
  }

  lemma CountsOfSections(lines: seq<Line>, starts: seq<nat>, to: nat)
    requires to <= |lines| && forall m | 0 <= m < |starts| :: starts[m] < to
    ensures forall m | 0 <= m < |starts| :: CountsOf(lines, starts, to)[m] == ModuleBullets(lines, starts, to, m)
  {
    forall m | 0 <= m < |starts| ensures CountsOf(lines, starts, to)[m] == ModuleBullets(lines, starts, to, m) {
      CountedBetween(lines, starts[m] + 1, if m + 1 < |starts| then starts[m + 1] else to);
    }
  }

  /* ---- what a row reads ---- */

  /** The cells of a table row, as a reader sees them: the text between the borders, trimmed. */
  function Cells(row: Line): seq<string>
  {
    MapSeq(Split(row, '|'), Trim)
  }

  /** Cells with a border behind each. */
  function Bordered(cells: seq<string>): string
  {
    if cells == [] then "" else " " + cells[0] + " |" + Bordered(cells[1..])
  }

  predicate IsCell(s: string)
  {
    '|' !in s && Trimmed(s)
  }

  lemma {:induction false} BorderedReads(cells: seq<string>)
    requires forall c <- cells :: IsCell(c)
    ensures MapSeq(Split(Bordered(cells), '|'), Trim) == cells + [""]
  {
    if cells == [] {
      assert Trim("") == "";
    } else {
      assert cells[0] in cells && forall c <- cells[1..] :: c in cells;
      BorderedReads(cells[1..]);
      BorderedCons(cells);
      CellReads(cells[0], Bordered(cells[1..]));
      ConsSnoc(cells, "");
    }
  }

  lemma ConsSnoc(cells: seq<string>, last: string)
    requires cells != []
    ensures [cells[0]] + (cells[1..] + [last]) == cells + [last]
  {
  }

  lemma BorderedCons(cells: seq<string>)
    requires cells != []
    ensures Bordered(cells) == (" " + cells[0] + " ") + ['|'] + Bordered(cells[1..])
  {
    assert " |" == " " + ['|'];
  }

  lemma CellReads(cell: string, rest: string)
    requires IsCell(cell)
    ensures MapSeq(Split((" " + cell + " ") + ['|'] + rest, '|'), Trim) == [cell] + MapSeq(Split(rest, '|'), Trim)
  {
    var padded := " " + cell + " ";
    SplitHead(padded, '|', rest);
    TrimPadding(" ", cell, " ");
    MapCons([padded] + Split(rest, '|'), Trim);
  }

  /** A bordered row reads back as its cells, between the two empty texts outside its borders. */
  lemma RowReads(row: Line, cells: seq<string>)
    requires row == "|" + Bordered(cells) && forall c <- cells :: IsCell(c)
    ensures Cells(row) == [""] + cells + [""]
  {
    BorderedReads(cells);
    assert row == [] + ['|'] + Bordered(cells);
    SplitHead([], '|', Bordered(cells));
    assert Trim("") == "";
    MapCons([""] + Split(Bordered(cells), '|'), Trim);
  }

  lemma SixBordered(a: string, b: string, c: string, d: string, e: string, f: string)
    ensures Bordered([a, b, c, d, e, f])
            == " " + a + " |" + (" " + b + " |") + (" " + c + " |") + (" " + d + " |") + (" " + e + " |") + (" " + f + " |")
  {
    assert [a, b, c, d, e, f][1..] == [b, c, d, e, f] && [b, c, d, e, f][1..] == [c, d, e, f];
    assert [c, d, e, f][1..] == [d, e, f] && [d, e, f][1..] == [e, f] && [e, f][1..] == [f] && [f][1..] == [];
    assert Bordered([]) == "";
    assert Bordered([f]) == " " + f + " |";
    assert Bordered([e, f]) == " " + e + " |" + Bordered([f]);
    assert Bordered([d, e, f]) == " " + d + " |" + Bordered([e, f]);
    assert Bordered([c, d, e, f]) == " " + c + " |" + Bordered([d, e, f]);
    assert Bordered([b, c, d, e, f]) == " " + b + " |" + Bordered([c, d, e, f]);
  }

  lemma ThreeBordered(a: string, b: string, c: string)
    ensures Bordered([a, b, c]) == " " + a + " |" + (" " + b + " |") + (" " + c + " |")
  {
    assert [a, b, c][1..] == [b, c] && [b, c][1..] == [c] && [c][1..] == [];
    assert Bordered([]) == "";
    assert Bordered([c]) == " " + c + " |";
    assert Bordered([b, c]) == " " + b + " |" + Bordered([c]);
  }

  lemma SixRead(row: Line, a: string, b: string, c: string, d: string, e: string, f: string)
    requires row == "|" + (" " + a + " |" + (" " + b + " |") + (" " + c + " |") + (" " + d + " |") + (" " + e + " |") + (" " + f + " |"))
    requires IsCell(a) && IsCell(b) && IsCell(c) && IsCell(d) && IsCell(e) && IsCell(f)
    ensures Cells(row) == ["", a, b, c, d, e, f, ""]
  {
    SixBordered(a, b, c, d, e, f);
    SixAreCells(a, b, c, d, e, f);
    RowReads(row, [a, b, c, d, e, f]);
    SixBetween(a, b, c, d, e, f);
  }

  lemma SixAreCells(a: string, b: string, c: string, d: string, e: string, f: string)
    requires IsCell(a) && IsCell(b) && IsCell(c) && IsCell(d) && IsCell(e) && IsCell(f)
    ensures forall x <- [a, b, c, d, e, f] :: IsCell(x)
  {
  }

  lemma SixBetween(a: string, b: string, c: string, d: string, e: string, f: string)
    ensures [""] + [a, b, c, d, e, f] + [""] == ["", a, b, c, d, e, f, ""]
  {
  }

  lemma ThreeRead(row: Line, a: string, b: string, c: string)
    requires row == "|" + (" " + a + " |" + (" " + b + " |") + (" " + c + " |"))
    requires IsCell(a) && IsCell(b) && IsCell(c)
    ensures Cells(row) == ["", a, b, c, ""]
  {
    ThreeBordered(a, b, c);
    RowReads(row, [a, b, c]);
    assert [""] + [a, b, c] + [""] == ["", a, b, c, ""];
  }

  lemma DecimalIsCell(n: nat)
    ensures IsCell(Decimal(n))
  {
    DecimalRoundTrip(n);
    var d := Decimal(n);
    assert d[0] in d && d[|d| - 1] in d;
  }

  lemma NumbersAreCells(c: Counts)
    ensures IsCell(Decimal(TotalOf(c))) && IsCell(Decimal(c.validated)) && IsCell(Decimal(c.needsValidation))
    ensures IsCell(Decimal(c.partial)) && IsCell(Decimal(c.notAutomated))
  {
    DecimalIsCell(TotalOf(c));
    DecimalIsCell(c.validated);
    DecimalIsCell(c.needsValidation);
    DecimalIsCell(c.partial);
    DecimalIsCell(c.notAutomated);
  }

  lemma DataRowText(a: string, b: string, c: string, d: string, e: string, f: string)
    ensures RowOf(a, " " + b + " | " + c + " | " + d + " | " + e + " | " + f + " |")
            == "|" + (" " + a + " |" + (" " + b + " |") + (" " + c + " |") + (" " + d + " |") + (" " + e + " |") + (" " + f + " |"))
  {
    assert "| " + a + " |" == "|" + (" " + a + " |");
    assert " | " + c == " |" + (" " + c) && " | " + d == " |" + (" " + d) && " | " + e == " |" + (" " + e) && " | " + f == " |" + (" " + f);
  }

  /** The row of a module reads: its label, the total, and the four numbers in the order of the header's columns. */
  lemma DataRowReads(m: ModuleConfig, c: Counts)
    requires WellFormedModule(m)
    ensures Cells(DataRow(m, c))
            == ["", DataLabel(m), Decimal(c.validated + c.needsValidation + c.partial + c.notAutomated), Decimal(c.validated),
                Decimal(c.needsValidation), Decimal(c.partial), Decimal(c.notAutomated), ""]
  {
    var cells := [DataLabel(m), Decimal(TotalOf(c)), Decimal(c.validated), Decimal(c.needsValidation), Decimal(c.partial),
                  Decimal(c.notAutomated)];
    NumbersAreCells(c);
    LabelIsCell(m);
    DataRowText(cells[0], cells[1], cells[2], cells[3], cells[4], cells[5]);
    SixRead(DataRow(m, c), cells[0], cells[1], cells[2], cells[3], cells[4], cells[5]);
  }

  lemma LabelIsCell(m: ModuleConfig)
    requires WellFormedModule(m)
    ensures IsCell(DataLabel(m))
  {
    var text := DataLabel(m);
    if m.excludeFromTotal {
      assert text[|text| - 1] == ')' && text[0] == m.rowLabel[0];
    }
  }

  /** A Phase row reads: its label, what is left to validate, and what is left to create. */
  lemma PhaseRowReads(rowLabel: string, c: Counts)
    requires IsCell(rowLabel)
    ensures Cells(PhaseRow(rowLabel, c)) == ["", rowLabel, Decimal(c.needsValidation), Decimal(c.notAutomated), ""]
  {
    NumbersAreCells(c);
    ThreeRead(PhaseRow(rowLabel, c), rowLabel, Decimal(c.needsValidation), Decimal(c.notAutomated));
  }

  /** A share in percent is the nearest whole number, a half rounded up; of nothing it is 0. */
  lemma PercentMeaning(part: nat, whole: nat) returns (q: nat)
    ensures Percent(part, whole) == Decimal(q) + "%"
    ensures whole == 0 ==> q == 0
    ensures whole > 0 ==> 2 * q * whole <= 200 * part + whole < 2 * (q + 1) * whole
  {
    if whole == 0 {
      q := 0;
      assert Decimal(0) == "0";
    } else {
      q := (200 * part + whole) / (2 * whole);
      DivisionBounds(200 * part + whole, 2 * whole, q);
    }
  }

  lemma DivisionBounds(num: nat, den: nat, q: nat)
    requires den > 0 && q == num / den
    ensures q * den <= num < (q + 1) * den
  {
  }

  lemma CoverageColumns()
    ensures IsCell("Module") && IsCell("Total") && IsCell("Validated `[x]`")
  {
  }

  lemma MoreCoverageColumns()
    ensures IsCell("Needs validation `[-]`") && IsCell("Partial `[~]`/`[!]`") && IsCell("Not automated `[ ]`")
  {
  }

  lemma PhaseColumns()
    ensures IsCell("Module") && IsCell("Validate (`[-]`)") && IsCell("Create (`[ ]`)")
  {
  }

  lemma CoverageHeaderPieces()
    ensures TABLE_HEADER_PREFIX == "|" + (" " + "Module" + " |") + (" " + "Total" + " |")
    ensures " Validated `[x]` |" == " " + "Validated `[x]`" + " |"
  {
  }

  lemma NeedsPiece()
    ensures " Needs validation `[-]` |" == " " + "Needs validation `[-]`" + " |"
  {
  }

  lemma PartialPiece()
    ensures " Partial `[~]`/`[!]` |" == " " + "Partial `[~]`/`[!]`" + " |"
  {
  }

  lemma NotAutomatedPiece()
    ensures " Not automated `[ ]` |" == " " + "Not automated `[ ]`" + " |"
  {
  }

  lemma PiecesJoin(head: string, a: string, b: string, c: string, d: string, e: string, f: string)
    requires head == "|" + a + b
    ensures head + c + d + e + f == "|" + (a + b + c + d + e + f)
  {
  }

  /** The columns the numbers of a module stand under. */
  lemma CoverageHeaderReads()
    ensures Cells(TABLE_HEADER) == ["", "Module", "Total", "Validated `[x]`", "Needs validation `[-]`", "Partial `[~]`/`[!]`",
                                    "Not automated `[ ]`", ""]
  {
    CoverageColumns();
    MoreCoverageColumns();
    CoverageHeaderPieces();
    NeedsPiece();
    PartialPiece();
    NotAutomatedPiece();
    PiecesJoin(TABLE_HEADER_PREFIX, " " + "Module" + " |", " " + "Total" + " |", " Validated `[x]` |", " Needs validation `[-]` |",
               " Partial `[~]`/`[!]` |", " Not automated `[ ]` |");
    SixRead(TABLE_HEADER, "Module", "Total", "Validated `[x]`", "Needs validation `[-]`", "Partial `[~]`/`[!]`", "Not automated `[ ]`");
  }

  lemma ValidatePiece()
    ensures PHASE_TABLE_HEADER_PREFIX == "|" + (" " + "Module" + " |") + " Validate"
    ensures " Validate" + " (`[-]`) |" == " " + "Validate (`[-]`)" + " |"
  {
  }

  lemma CreatePiece()
    ensures " (`[-]`) | Create (`[ ]`) |" == " (`[-]`) |" + (" " + "Create (`[ ]`)" + " |")
  {
  }

  lemma ThreeJoin(head: string, rest: string, a: string, b1: string, b2: string, b: string, c: string)
    requires head == "|" + a + b1 && rest == b2 + c && b1 + b2 == b
    ensures head + rest == "|" + (a + b + c)
  {
    assert b1 + (b2 + c) == (b1 + b2) + c;
  }

  lemma PhaseHeaderText()
    ensures PHASE_TABLE_HEADER == "|" + (" " + "Module" + " |" + (" " + "Validate (`[-]`)" + " |") + (" " + "Create (`[ ]`)" + " |"))
  {
    ValidatePiece();
    CreatePiece();
    ThreeJoin(PHASE_TABLE_HEADER_PREFIX, " (`[-]`) | Create (`[ ]`) |", " " + "Module" + " |", " Validate", " (`[-]`) |",
              " " + "Validate (`[-]`)" + " |", " " + "Create (`[ ]`)" + " |");
  }

  lemma PhaseHeaderReads()
    ensures Cells(PHASE_TABLE_HEADER) == ["", "Module", "Validate (`[-]`)", "Create (`[ ]`)", ""]
  {
    PhaseColumns();
    PhaseHeaderText();
    ThreeRead(PHASE_TABLE_HEADER, "Module", "Validate (`[-]`)", "Create (`[ ]`)");
  }

  /* ---- what a run leaves ---- */

  /** The table a text that no rewrite would change holds. */
  lemma TableStands(out: seq<Line>, table: seq<Line>) returns (at: nat)
    requires RegenerateCoverage(out, table) == Ok(out)
    ensures TableAt(out) == Ok(at) && at + |table| <= |out| && out[at..at + |table|] == table
  {
    TableAtBounds(out);
    at := TableAt(out).value;
    var end := RunEnd(out, at + 1, '|');
    assert Splice(out, at, end, table)[at..at + |table|] == table;
  }

  lemma TableRowIs(modules: seq<ModuleConfig>, counts: seq<Counts>, m: nat)
    requires |counts| == |modules| && m < |modules|
    ensures |CoverageTable(modules, counts)| == |modules| + 3
    ensures CoverageTable(modules, counts)[2 + m] == DataRow(modules[m], counts[m])
    ensures CoverageTable(modules, counts)[0] == TABLE_HEADER
  {
  }

  /** The cells of one module's row in the Coverage table. */
  ghost predicate RowTells(row: Line, m: ModuleConfig, b: Counts)
  {
    Cells(row) == ["", DataLabel(m), Decimal(b.validated + b.needsValidation + b.partial + b.notAutomated), Decimal(b.validated),
                   Decimal(b.needsValidation), Decimal(b.partial), Decimal(b.notAutomated), ""]
  }

  /** The table a run leaves is the one made of the bullets of the document it read. */
  lemma TableIsCounted(lines: seq<Line>, modules: seq<ModuleConfig>, today: string, out: seq<Line>)
    returns (p: nat, c: nat, starts: seq<nat>, at: nat, counts: seq<Counts>)
    requires WellFormedModules(modules) && Run(lines, modules, today) == Ok(out)
    ensures Sections(lines, modules, p, c, starts) && c <= |lines| && |counts| == |modules|
    ensures forall m | 0 <= m < |modules| :: counts[m] == ModuleBullets(lines, starts, c, m)
    ensures TableAt(out) == Ok(at) && at + |modules| + 3 <= |out|
    ensures out[at..at + |modules| + 3] == CoverageTable(modules, counts)
  {
    CountsPerModule(lines, modules);
    counts := ComputeCounts(lines, modules).value;
    p, c, starts := CountsAreBullets(lines, modules, counts);
    RewriteSettles(lines, modules, counts, today, out);
    at := TableStands(out, CoverageTable(modules, counts));
  }

  /**
   * From the document to the table a run leaves: the row of each module tells, column by column,
   * how many lines of its range begin with the bullets of that column.
   */
  lemma CoverageTells(lines: seq<Line>, modules: seq<ModuleConfig>, today: string, out: seq<Line>)
    returns (p: nat, c: nat, starts: seq<nat>, at: nat)
    requires WellFormedModules(modules) && Run(lines, modules, today) == Ok(out)
    ensures Sections(lines, modules, p, c, starts) && c <= |lines|
    ensures TableAt(out) == Ok(at) && at + |modules| + 3 <= |out| && out[at] == TABLE_HEADER
    ensures forall m | 0 <= m < |modules| :: RowTells(out[at + 2 + m], modules[m], ModuleBullets(lines, starts, c, m))
  {
    var counts: seq<Counts>;
    p, c, starts, at, counts := TableIsCounted(lines, modules, today, out);
    HeadStands(out, modules, counts, at);
    RowsStand(out, modules, counts, at);
    forall m | 0 <= m < |modules| ensures RowTells(out[at + 2 + m], modules[m], ModuleBullets(lines, starts, c, m)) {
      assert counts[m] == ModuleBullets(lines, starts, c, m);
    }
  }

  lemma HeaderStands(out: seq<Line>, block: seq<Line>, at: nat)
    requires block != [] && at + |block| <= |out| && out[at..at + |block|] == block
    ensures out[at] == block[0]
  {
    assert out[at] == out[at..at + |block|][0];
  }

  lemma HeadStands(out: seq<Line>, modules: seq<ModuleConfig>, counts: seq<Counts>, at: nat)
    requires |counts| == |modules| && at + |modules| + 3 <= |out|
    requires out[at..at + |modules| + 3] == CoverageTable(modules, counts)
    ensures out[at] == TABLE_HEADER
  {
    HeaderStands(out, CoverageTable(modules, counts), at);
  }

  lemma RowStands(out: seq<Line>, modules: seq<ModuleConfig>, counts: seq<Counts>, at: nat, m: nat)
    requires |counts| == |modules| && m < |modules| && WellFormedModules(modules) && at + |modules| + 3 <= |out|
    requires out[at..at + |modules| + 3] == CoverageTable(modules, counts)
    ensures RowTells(out[at + 2 + m], modules[m], counts[m])
  {
    TableRowIs(modules, counts, m);
    assert out[at + 2 + m] == out[at..at + |modules| + 3][2 + m];
    assert modules[m] in modules;
    DataRowReads(modules[m], counts[m]);
  }

  lemma RowsStand(out: seq<Line>, modules: seq<ModuleConfig>, counts: seq<Counts>, at: nat)
    requires |counts| == |modules| && WellFormedModules(modules) && at + |modules| + 3 <= |out|
    requires out[at..at + |modules| + 3] == CoverageTable(modules, counts)
    ensures forall m | 0 <= m < |modules| :: RowTells(out[at + 2 + m], modules[m], counts[m])
  {
    forall m | 0 <= m < |modules| ensures RowTells(out[at + 2 + m], modules[m], counts[m]) {
      RowStands(out, modules, counts, at, m);
    }
  }

  /** The last module with a label. */
  ghost predicate LastLabelled(modules: seq<ModuleConfig>, rowLabel: string, m: nat)
  {
    m < |modules| && modules[m].rowLabel == rowLabel && forall k | m < k < |modules| :: modules[k].rowLabel != rowLabel
  }

  lemma {:induction false} LabelIsLast(modules: seq<ModuleConfig>, rowLabel: string)
    requires IndexOfLabel(modules, rowLabel).Some?
    ensures LastLabelled(modules, rowLabel, IndexOfLabel(modules, rowLabel).value)
  {
    var n := |modules| - 1;
    if modules[n].rowLabel != rowLabel {
      LabelIsLast(modules[..n], rowLabel);
    }
  }

  /** A row of a Phase table tells what the last module with its label still needs. */
  ghost predicate PhaseRowTells(row: Line, modules: seq<ModuleConfig>, lines: seq<Line>, starts: seq<nat>, c: nat)
    requires c <= |lines| && |starts| == |modules| && forall k | 0 <= k < |starts| :: starts[k] < c
  {
    exists m: nat :: LastLabelled(modules, FirstCell(row), m)
      && Cells(row) == ["", FirstCell(row), Decimal(ModuleBullets(lines, starts, c, m).needsValidation),
                        Decimal(ModuleBullets(lines, starts, c, m).notAutomated), ""]
  }

  /** The table of a phase: its head, and the run of rows below it. */
  ghost predicate PhaseTableStands(out: seq<Line>, phase: nat, at: nat, end: nat)
    requires phase < |PHASE_HEADERS|
  {
    && PhaseTableAt(out, PHASE_HEADERS[phase], NextHeader(phase)) == Ok(at)
    && at + 2 < end <= |out| && end == RunEnd(out, at + 1, '|') && out[at] == PHASE_TABLE_HEADER
  }

  lemma PhaseTells(out: seq<Line>, phase: nat, modules: seq<ModuleConfig>, counts: seq<Counts>, lines: seq<Line>, starts: seq<nat>,
                   c: nat) returns (at: nat, end: nat)
    requires phase < |PHASE_HEADERS| && |counts| == |modules| && WellFormedModules(modules)
    requires PhaseStep(out, PHASE_HEADERS[phase], NextHeader(phase), modules, counts) == Ok(out)
    requires c <= |lines| && |starts| == |modules| && forall k | 0 <= k < |starts| :: starts[k] < c
    requires forall m | 0 <= m < |modules| :: counts[m] == ModuleBullets(lines, starts, c, m)
    ensures PhaseTableStands(out, phase, at, end) && forall i | at + 2 <= i < end :: PhaseRowTells(out[i], modules, lines, starts, c)
  {
    at, end := PhaseStepShape(out, PHASE_HEADERS[phase], NextHeader(phase), modules, counts, out);
    var rows := PhaseRows(out[at + 2..end], modules, counts).value;
    PhaseBlockStands(out, at, end, rows);
    forall i | at + 2 <= i < end ensures PhaseRowTells(out[i], modules, lines, starts, c) {
      PhaseRowStands(out, at, end, modules, counts, i);
      var m := IndexOfLabel(modules, FirstCell(out[i])).value;
      LabelIsLast(modules, FirstCell(out[i]));
      assert modules[m] in modules;
      PhaseRowReads(FirstCell(out[i]), counts[m]);
    }
  }

  lemma PhaseBlockStands(out: seq<Line>, at: nat, end: nat, rows: seq<Line>)
    requires at + 2 < end <= |out| && |rows| == end - at - 2 && out == Splice(out, at, end, PhaseBlock(rows))
    ensures out[at] == PHASE_TABLE_HEADER && out[at + 2..end] == rows
  {
    var again := Splice(out, at, end, PhaseBlock(rows));
    assert again[at] == PhaseBlock(rows)[0];
    assert again[at + 2..end] == rows;
  }

  lemma PhaseRowStands(out: seq<Line>, at: nat, end: nat, modules: seq<ModuleConfig>, counts: seq<Counts>, i: nat)
    requires |counts| == |modules| && at + 2 <= i < end <= |out|
    requires PhaseRows(out[at + 2..end], modules, counts) == Ok(out[at + 2..end])
    ensures var k := IndexOfLabel(modules, FirstCell(out[i])); k.Some? && out[i] == PhaseRow(FirstCell(out[i]), counts[k.value])
  {
    var rows := out[at + 2..end];
    assert rows[i - at - 2] == out[i];
    PhaseRowsAt(rows, modules, counts, i - at - 2);
  }

  lemma PhaseSettles(lines: seq<Line>, modules: seq<ModuleConfig>, counts: seq<Counts>, today: string, out: seq<Line>, phase: nat)
    requires |counts| == |modules| && WellFormedModules(modules) && phase < |PHASE_HEADERS|
    requires Rewrite(lines, modules, counts, today) == Ok(out)
    ensures PhaseStep(out, PHASE_HEADERS[phase], NextHeader(phase), modules, counts) == Ok(out)
  {
    RewriteSettles(lines, modules, counts, today, out);
    assert phase == 0 || phase == 1;
  }

  /** From the document to the Phase tables a run leaves: every row of either of them tells the bullets of its own module. */
  lemma PhasesTell(lines: seq<Line>, modules: seq<ModuleConfig>, today: string, out: seq<Line>, phase: nat)
    returns (p: nat, c: nat, starts: seq<nat>, at: nat, end: nat)
    requires WellFormedModules(modules) && Run(lines, modules, today) == Ok(out) && phase < |PHASE_HEADERS|
    ensures Sections(lines, modules, p, c, starts) && c <= |lines|
    ensures PhaseTableStands(out, phase, at, end) && forall i | at + 2 <= i < end :: PhaseRowTells(out[i], modules, lines, starts, c)
  {
    CountsPerModule(lines, modules);
    var counts := ComputeCounts(lines, modules).value;
    p, c, starts := CountsAreBullets(lines, modules, counts);
    PhaseSettles(lines, modules, counts, today, out, phase);
    at, end := PhaseTells(out, phase, modules, counts, lines, starts, c);
  }

  /** The label of the total: bare, or with the keys of the modules it leaves out. */
  lemma TotalLabelIs(excluded: seq<string>)
    ensures excluded == [] ==> TotalLabel(excluded) == "**TOTAL**"
    ensures excluded != [] ==> TotalLabel(excluded) == "**TOTAL (OSS — excludes " + Join(excluded, ", ") + ")**"
  {
    assert "**TOTAL" + "" + "**" == "**TOTAL**";
    assert "**TOTAL" + " (OSS — excludes " == "**TOTAL (OSS — excludes " && ")" + "**" == ")**";
  }

  /** A text cut before the first place where a mark stands, if it stands anywhere. */
  predicate CutBefore(s: string, mark: string, cut: string)
  {
    && cut <= s && (|cut| < |s| ==> mark <= s[|cut|..])
    && forall i | 0 <= i < |cut| :: !(mark <= s[i..])
  }

  lemma CutNext(s: string, mark: string, cut: string)
    requires s != [] && !(mark <= s) && CutBefore(s[1..], mark, cut)
    ensures CutBefore(s, mark, [s[0]] + cut)
  {
    var longer := [s[0]] + cut;
    assert s == [s[0]] + s[1..];
    assert s[|longer|..] == s[1..][|cut|..];
    forall i | 0 <= i < |longer| ensures !(mark <= s[i..]) {
      if i > 0 {
        assert s[i..] == s[1..][i - 1..];
      } else {
        assert s[i..] == s;
      }
    }
  }

  lemma CutNow(s: string, mark: string)
    requires s == [] || mark <= s
    ensures CutBefore(s, mark, [])
  {
    assert s[0..] == s;
  }

  lemma {:induction false} DashCut(s: string)
    ensures CutBefore(s, " — ", BeforeDash(s))
  {
    if s == [] || " — " <= s {
      CutNow(s, " — ");
    } else {
      DashCut(s[1..]);
      CutNext(s, " — ", BeforeDash(s[1..]));
    }
  }

  /** The modules the total leaves out are named by their keys: their labels up to the first dash, in order. */
  lemma {:induction false} KeysAreExcluded(modules: seq<ModuleConfig>)
    ensures ExcludedKeys(modules)
            == MapSeq(Filter(modules, (m: ModuleConfig) => m.excludeFromTotal), (m: ModuleConfig) => BeforeDash(m.rowLabel))
  {
    if modules != [] {
      var n := |modules| - 1;
      var excluded, key := (m: ModuleConfig) => m.excludeFromTotal, (m: ModuleConfig) => BeforeDash(m.rowLabel);
      KeysAreExcluded(modules[..n]);
      assert modules == modules[..n] + [modules[n]];
      FilterAppend(modules[..n], [modules[n]], excluded);
      assert Filter([modules[n]], excluded) == if modules[n].excludeFromTotal then [modules[n]] else [] by {
        assert [modules[n]][1..] == [];
      }
    }
  }

  /** A bold number with its share. */
  function ShareCell(part: nat, sum: nat): string
  {
    "**" + Decimal(part) + " (" + Percent(part, sum) + ")**"
  }

  lemma BoldIsCell(text: string)
    requires '|' !in text
    ensures IsCell("**" + text + "**") && IsCell("**" + text + ")**")
  {
    var a, b := "**" + text + "**", "**" + text + ")**";
    assert a[0] == b[0] == '*' && a[|a| - 1] == b[|b| - 1] == '*';
  }

  lemma ShareIsCell(part: nat, sum: nat)
    ensures IsCell(ShareCell(part, sum))
  {
    var q := PercentMeaning(part, sum);
    DecimalIsCell(part);
    DecimalIsCell(q);
    var text := Decimal(part) + " (" + Percent(part, sum);
    BoldIsCell(text);
    assert ShareCell(part, sum) == "**" + text + ")**";
  }

  lemma TotalRowText(a: string, b: string, c: string, d: string, e: string, f: string)
    ensures RowOf(a, " " + b + " | " + (c + " |") + " " + (d + " |") + " " + (e + " |") + " " + (f + " |"))
            == "|" + (" " + a + " |" + (" " + b + " |") + (" " + c + " |") + (" " + d + " |") + (" " + e + " |") + (" " + f + " |"))
  {
    assert "| " + a + " |" == "|" + (" " + a + " |");
    assert " | " + (c + " |") == " |" + (" " + c + " |");
  }

  lemma TotalCellsAre(tot: Counts)
    ensures var sum := TotalOf(tot);
            TotalCells(tot) == " " + ("**" + Decimal(sum) + "**") + " | " + (ShareCell(tot.validated, sum) + " |") + " "
              + (ShareCell(tot.needsValidation, sum) + " |") + " " + (ShareCell(tot.partial, sum) + " |") + " "
              + (ShareCell(tot.notAutomated, sum) + " |")
  {
    var sum := TotalOf(tot);
    ShareText(tot.validated, sum);
    ShareText(tot.needsValidation, sum);
    ShareText(tot.partial, sum);
    ShareText(tot.notAutomated, sum);
    BoldText(Decimal(sum));
  }

  lemma ShareText(part: nat, sum: nat)
    ensures Share(part, sum) == ShareCell(part, sum) + " |"
  {
    assert ")** |" == ")**" + " |";
  }

  lemma BoldText(number: string)
    ensures " **" + number + "** | " == " " + ("**" + number + "**") + " | "
  {
  }

  lemma TotalRowFrom(row: Line, a: string, b: string, c: string, d: string, e: string, f: string)
    requires row == RowOf(a, " " + b + " | " + (c + " |") + " " + (d + " |") + " " + (e + " |") + " " + (f + " |"))
    requires IsCell(a) && IsCell(b) && IsCell(c) && IsCell(d) && IsCell(e) && IsCell(f)
    ensures Cells(row) == ["", a, b, c, d, e, f, ""]
  {
    TotalRowText(a, b, c, d, e, f);
    SixRead(row, a, b, c, d, e, f);
  }

  lemma SharesAreCells(tot: Counts, sum: nat)
    ensures IsCell(ShareCell(tot.validated, sum)) && IsCell(ShareCell(tot.needsValidation, sum))
    ensures IsCell(ShareCell(tot.partial, sum)) && IsCell(ShareCell(tot.notAutomated, sum)) && IsCell("**" + Decimal(sum) + "**")
  {
    ShareIsCell(tot.validated, sum);
    ShareIsCell(tot.needsValidation, sum);
    ShareIsCell(tot.partial, sum);
    ShareIsCell(tot.notAutomated, sum);
    DecimalIsCell(sum);
    BoldIsCell(Decimal(sum));
  }

  lemma TotalPieces(tot: Counts, sum: nat) returns (b: string, c: string, d: string, e: string, f: string)
    requires sum == TotalOf(tot)
    ensures b == "**" + Decimal(sum) + "**" && c == ShareCell(tot.validated, sum) && d == ShareCell(tot.needsValidation, sum)
    ensures e == ShareCell(tot.partial, sum) && f == ShareCell(tot.notAutomated, sum)
    ensures TotalCells(tot) == " " + b + " | " + (c + " |") + " " + (d + " |") + " " + (e + " |") + " " + (f + " |")
    ensures IsCell(b) && IsCell(c) && IsCell(d) && IsCell(e) && IsCell(f)
  {
    SharesAreCells(tot, sum);
    b, c, d := "**" + Decimal(sum) + "**", ShareCell(tot.validated, sum), ShareCell(tot.needsValidation, sum);
    e, f := ShareCell(tot.partial, sum), ShareCell(tot.notAutomated, sum);
    TotalCellsAre(tot);
  }

  lemma TotalRowParts(row: Line, rowLabel: string, cells: string, b: string, c: string, d: string, e: string, f: string)
    requires cells == " " + b + " | " + (c + " |") + " " + (d + " |") + " " + (e + " |") + " " + (f + " |")
    requires row == RowOf(rowLabel, cells)
    requires IsCell(rowLabel) && IsCell(b) && IsCell(c) && IsCell(d) && IsCell(e) && IsCell(f)
    ensures Cells(row) == ["", rowLabel, b, c, d, e, f, ""]
  {
    TotalRowFrom(row, rowLabel, b, c, d, e, f);
  }

  lemma TotalRowShown(row: Line, rowLabel: string, tot: Counts, sum: nat)
    returns (b: string, c: string, d: string, e: string, f: string)
    requires row == RowOf(rowLabel, TotalCells(tot)) && IsCell(rowLabel) && sum == TotalOf(tot)
    ensures b == "**" + Decimal(sum) + "**" && c == ShareCell(tot.validated, sum) && d == ShareCell(tot.needsValidation, sum)
    ensures e == ShareCell(tot.partial, sum) && f == ShareCell(tot.notAutomated, sum)
    ensures Cells(row) == ["", rowLabel, b, c, d, e, f, ""]
  {
    b, c, d, e, f := TotalPieces(tot, sum);
    TotalRowParts(row, rowLabel, TotalCells(tot), b, c, d, e, f);
  }

  /** The total row reads: its label, the sum, and each state's number with its share, in the order of the header's columns. */
  lemma TotalRowReads(excluded: seq<string>, tot: Counts)
    requires IsCell(TotalLabel(excluded))
    ensures var sum := tot.validated + tot.needsValidation + tot.partial + tot.notAutomated;
            Cells(TotalRow(excluded, tot))
            == ["", TotalLabel(excluded), "**" + Decimal(sum) + "**", ShareCell(tot.validated, sum), ShareCell(tot.needsValidation, sum),
                ShareCell(tot.partial, sum), ShareCell(tot.notAutomated, sum), ""]
  {
    var b, c, d, e, f := TotalRowShown(TotalRow(excluded, tot), TotalLabel(excluded), tot, TotalOf(tot));
  }

  /* ---- the total, from the document ---- */

  /** One number of each module, added up over those the total includes. */
  function Included(modules: seq<ModuleConfig>, number: nat -> nat, n: nat): nat
    requires n <= |modules|
  {
    if n == 0 then 0
    else Included(modules, number, n - 1) + if modules[n - 1].excludeFromTotal then 0 else number(n - 1)
  }

  function NumberOf(counts: seq<Counts>, state: Counts -> nat): nat -> nat
  {
    (m: nat) => if m < |counts| then state(counts[m]) else 0
  }

  /** State by state, the sum over the modules that the total includes. */
  predicate IsTotal(tot: Counts, modules: seq<ModuleConfig>, counts: seq<Counts>, n: nat)
    requires n <= |modules|
  {
    && tot.validated == Included(modules, NumberOf(counts, (c: Counts) => c.validated), n)
    && tot.needsValidation == Included(modules, NumberOf(counts, (c: Counts) => c.needsValidation), n)
    && tot.partial == Included(modules, NumberOf(counts, (c: Counts) => c.partial), n)
    && tot.notAutomated == Included(modules, NumberOf(counts, (c: Counts) => c.notAutomated), n)
  }

  lemma {:induction false} TotalsAreSums(modules: seq<ModuleConfig>, counts: seq<Counts>, n: nat)
    requires |counts| == |modules| && n <= |modules|
    ensures IsTotal(TotalCounts(modules[..n], counts[..n]), modules, counts, n)
  {
    if n > 0 {
      TotalsAreSums(modules, counts, n - 1);
      assert modules[..n][..n - 1] == modules[..n - 1] && counts[..n][..n - 1] == counts[..n - 1];
    }
  }

  lemma {:induction false} KeysHoldNoBar(modules: seq<ModuleConfig>)
    requires WellFormedModules(modules)
    ensures forall key <- ExcludedKeys(modules) :: '|' !in key
  {
    if modules != [] {
      var n := |modules| - 1;
      assert forall m <- modules[..n] :: m in modules;
      assert modules[n] in modules;
      KeysHoldNoBar(modules[..n]);
      DashCut(modules[n].rowLabel);
    }
  }

  lemma {:induction false} JoinHoldsNoBar(texts: seq<string>, sep: string)
    requires '|' !in sep && forall t <- texts :: '|' !in t
    ensures '|' !in Join(texts, sep)
  {
    if texts != [] {
      JoinHoldsNoBar(texts[1..], sep);
    }
  }

  lemma FramedIsCell(front: string, inner: string, end: string)
    requires '|' !in front && '|' !in inner && '|' !in end && front != "" && end != ""
    requires !IsSpace(front[0]) && !IsSpace(end[|end| - 1])
    ensures IsCell(front + inner + end)
  {
    var text := front + inner + end;
    assert text[0] == front[0] && text[|text| - 1] == end[|end| - 1];
  }

  lemma TotalLabelIsCell(excluded: seq<string>)
    requires forall key <- excluded :: '|' !in key
    ensures IsCell(TotalLabel(excluded))
  {
    JoinHoldsNoBar(excluded, ", ");
    FramedIsCell("**TOTAL", if excluded == [] then "" else " (OSS — excludes " + Join(excluded, ", ") + ")", "**");
  }

  /** The cells of the total row. */
  ghost predicate TotalTells(row: Line, modules: seq<ModuleConfig>, tot: Counts)
  {
    var sum := tot.validated + tot.needsValidation + tot.partial + tot.notAutomated;
    Cells(row)
    == ["", TotalLabel(ExcludedKeys(modules)), "**" + Decimal(sum) + "**", ShareCell(tot.validated, sum),
        ShareCell(tot.needsValidation, sum), ShareCell(tot.partial, sum), ShareCell(tot.notAutomated, sum), ""]
  }

  lemma TotalTold(modules: seq<ModuleConfig>, tot: Counts)
    requires WellFormedModules(modules)
    ensures TotalTells(TotalRow(ExcludedKeys(modules), tot), modules, tot)
  {
    KeysHoldNoBar(modules);
    TotalLabelIsCell(ExcludedKeys(modules));
    TotalRowReads(ExcludedKeys(modules), tot);
  }

  lemma LastStands(out: seq<Line>, block: seq<Line>, at: nat)
    requires block != [] && at + |block| <= |out| && out[at..at + |block|] == block
    ensures out[at + |block| - 1] == block[|block| - 1]
  {
    assert out[at + |block| - 1] == out[at..at + |block|][|block| - 1];
  }

  lemma TotalIsLast(modules: seq<ModuleConfig>, counts: seq<Counts>)
    requires |counts| == |modules|
    ensures |CoverageTable(modules, counts)| == |modules| + 3
    ensures CoverageTable(modules, counts)[|modules| + 2] == TotalRow(ExcludedKeys(modules), TotalCounts(modules, counts))
  {
  }

  lemma TotalStands(out: seq<Line>, modules: seq<ModuleConfig>, counts: seq<Counts>, at: nat)
    requires |counts| == |modules| && WellFormedModules(modules) && at + |modules| + 3 <= |out|
    requires out[at..at + |modules| + 3] == CoverageTable(modules, counts)
    ensures TotalTells(out[at + 2 + |modules|], modules, TotalCounts(modules, counts))
  {
    TotalIsLast(modules, counts);
    LastStands(out, CoverageTable(modules, counts), at);
    TotalTold(modules, TotalCounts(modules, counts));
  }

  /**
   * From the document to the total a run leaves: below the rows of the modules stands the one
   * that tells, state by state, the bullets of all modules it includes.
   */
  lemma CoverageTotals(lines: seq<Line>, modules: seq<ModuleConfig>, today: string, out: seq<Line>)
    returns (p: nat, c: nat, starts: seq<nat>, at: nat, counts: seq<Counts>, tot: Counts)
    requires WellFormedModules(modules) && Run(lines, modules, today) == Ok(out)
    ensures Sections(lines, modules, p, c, starts) && c <= |lines| && |counts| == |modules|
    ensures forall m | 0 <= m < |modules| :: counts[m] == ModuleBullets(lines, starts, c, m)
    ensures TableAt(out) == Ok(at) && at + |modules| + 3 <= |out|
    ensures IsTotal(tot, modules, counts, |modules|) && TotalTells(out[at + 2 + |modules|], modules, tot)
  {
    p, c, starts, at, counts := TableIsCounted(lines, modules, today, out);
    tot := TotalCounts(modules, counts);
    TotalStands(out, modules, counts, at);
    TotalsAreSums(modules, counts, |modules|);
    TakeAll(modules);
    TakeAll(counts);
  }
}
