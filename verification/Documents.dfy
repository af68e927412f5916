/** Documents as line lists: searching, runs of like lines, and table cells. */
module Documents {
  import opened Texts

  type Line = string

  /* ---- searching ---- */

  /** The first line at or after `from` and before `to` that satisfies the predicate. */
  function FindIn(lines: seq<Line>, p: Line -> bool, from: nat, to: nat): Option<nat>
    requires to <= |lines|
    decreases if from < to then to - from else 0
  {
    if from >= to then None else if p(lines[from]) then Some(from) else FindIn(lines, p, from + 1, to)
  }

  method FindLineIndex(lines: seq<Line>, p: Line -> bool, from: nat, to: nat) returns (index: Option<nat>)
    requires to <= |lines|
    ensures index == FindIn(lines, p, from, to)
  {
    var i := from;
    while i < to
      invariant FindIn(lines, p, i, to) == FindIn(lines, p, from, to)
    {
      if p(lines[i]) { return Some(i); }
      i := i + 1;
    }
    return None;
  }

  lemma {:induction false} FindInMeaning(lines: seq<Line>, p: Line -> bool, from: nat, to: nat)
    requires to <= |lines|
    ensures var found := FindIn(lines, p, from, to);
            if found.Some? then from <= found.value < to && p(lines[found.value]) && forall j | from <= j < found.value :: !p(lines[j])
            else forall j | from <= j < to :: !p(lines[j])
    decreases if from < to then to - from else 0
  {
    if from < to && !p(lines[from]) {
      FindInMeaning(lines, p, from + 1, to);
    }
  }

  lemma FindInIs(lines: seq<Line>, p: Line -> bool, from: nat, to: nat, i: nat)
    requires from <= i < to <= |lines| && p(lines[i]) && forall j | from <= j < i :: !p(lines[j])
    ensures FindIn(lines, p, from, to) == Some(i)
  {
    FindInMeaning(lines, p, from, to);
  }

  /** Searches agree on documents of one length whose lines answer the predicate alike. */
  lemma FindInAgrees(a: seq<Line>, b: seq<Line>, p: Line -> bool, from: nat, to: nat)
    requires to <= |a| && to <= |b| && forall i | from <= i < to :: p(a[i]) == p(b[i])
    ensures FindIn(a, p, from, to) == FindIn(b, p, from, to)
  {
    FindInMeaning(a, p, from, to);
    FindInMeaning(b, p, from, to);
  }

  /* ---- runs ---- */

  predicate Begins(line: Line, c: char)
  {
    line != [] && line[0] == c
  }

  /** The end of the run of lines beginning with `c` that starts at `from`. */
  function RunEnd(lines: seq<Line>, from: nat, c: char): (end: nat)
    requires from <= |lines|
    ensures from <= end <= |lines|
    ensures forall i | from <= i < end :: Begins(lines[i], c)
    ensures end < |lines| ==> !Begins(lines[end], c)
    decreases |lines| - from
  {
    if from < |lines| && Begins(lines[from], c) then RunEnd(lines, from + 1, c) else from
  }

  lemma {:induction false} RunEndIs(lines: seq<Line>, from: nat, c: char, end: nat)
    requires from <= end <= |lines| && forall i | from <= i < end :: Begins(lines[i], c)
    requires end < |lines| ==> !Begins(lines[end], c)
    ensures RunEnd(lines, from, c) == end
    decreases end - from
  {
    if from < end {
      RunEndIs(lines, from + 1, c, end);
    }
  }

  /** Walk down from a line while the next one begins with `c`; the line after the last one reached. */
  method FindRunEnd(lines: seq<Line>, start: nat, c: char) returns (end: nat)
    requires start < |lines|
    ensures end == RunEnd(lines, start + 1, c)
  {
    end := start;
    while end + 1 < |lines| && Begins(lines[end + 1], c)
      invariant start <= end < |lines|
      invariant RunEnd(lines, end + 1, c) == RunEnd(lines, start + 1, c)
    {
      end := end + 1;
    }
    end := end + 1;
  }

  /** The document with the lines from `from` up to `to` replaced by a block. */
  function Splice(lines: seq<Line>, from: nat, to: nat, block: seq<Line>): seq<Line>
    requires from <= to <= |lines|
  {
    lines[..from] + block + lines[to..]
  }

  lemma {:induction false} TrimRightKeepsFirst(line: Line)
    requires line != [] && !IsSpace(line[0])
    ensures TrimRight(line) != [] && TrimRight(line)[0] == line[0]
  {
    if IsSpace(line[|line| - 1]) {
      TrimRightKeepsFirst(line[..|line| - 1]);
    }
  }

  lemma TrimKeepsFirst(line: Line)
    requires line != [] && !IsSpace(line[0])
    ensures Trim(line) != [] && Trim(line)[0] == line[0]
  {
    TrimRightKeepsFirst(line);
  }

  /* ---- table cells ---- */

  /** The first cell of a table row, trimmed; empty when the row has no border. */
  function FirstCell(row: Line): string
  {
    var cells := Split(row, '|');
    if |cells| > 1 then Trim(cells[1]) else ""
  }

  lemma FirstCellOf(lead: string, cell: string, trail: string, rest: string)
    requires Blank(lead) && Blank(trail) && '|' !in cell && Trimmed(cell)
    ensures FirstCell("|" + lead + cell + trail + "|" + rest) == cell
  {
    var row := "|" + lead + cell + trail + "|" + rest;
    var padded := lead + cell + trail;
    assert row == [] + ['|'] + (padded + ['|'] + rest);
    SplitHead([], '|', padded + ['|'] + rest);
    SplitHead(padded, '|', rest);
    TrimPadding(lead, cell, trail);
  }

  /** A table row: its first cell, padded, and the text after it. */
  function RowOf(cell: string, rest: string): Line
  {
    "| " + cell + " |" + rest
  }

  lemma RowOfCell(cell: string, rest: string)
    requires '|' !in cell && Trimmed(cell)
    ensures FirstCell(RowOf(cell, rest)) == cell && Begins(RowOf(cell, rest), '|')
  {
    FirstCellOf(" ", cell, " ", rest);
    assert RowOf(cell, rest) == "|" + " " + cell + " " + "|" + rest;
  }

  /* ---- whole files ---- */

  /** A document whose text comes back line for line: no line holds a newline. */
  predicate CleanLines(lines: seq<Line>)
  {
    lines != [] && forall l <- lines :: '\n' !in l
  }

  /** The lines of a file, without the empty one after a trailing newline. */
  function LinesOf(text: string): seq<Line>
  {
    var lines := Split(text, '\n');
    if text != [] && text[|text| - 1] == '\n' then lines[..|lines| - 1] else lines
  }

  function TextOf(lines: seq<Line>, trailingNewline: bool): string
  {
    Join(lines, "\n") + if trailingNewline then "\n" else ""
  }

  function EndsWithNewline(text: string): bool
  {
    text != [] && text[|text| - 1] == '\n'
  }

  /** Without a trailing newline a file's last line is not empty, unless the file is. */
  lemma {:induction false} LastLine(lines: seq<Line>)
    requires CleanLines(lines)
    ensures EndsWithNewline(Join(lines, "\n")) <==> |lines| > 1 && lines[|lines| - 1] == []
  {
    if |lines| == 1 {
      assert Join(lines, "\n") == lines[0] && lines[0] in lines;
      assert lines[0] != [] ==> lines[0][|lines[0]| - 1] in lines[0];
    } else {
      LastLine(lines[1..]);
      assert Join(lines, "\n") == lines[0] + "\n" + Join(lines[1..], "\n");
      if |lines| == 2 {
        assert Join(lines[1..], "\n") == lines[1];
      }
    }
  }

  lemma LinesReadBack(lines: seq<Line>, trailingNewline: bool)
    requires CleanLines(lines)
    requires !trailingNewline ==> |lines| == 1 || lines[|lines| - 1] != []
    ensures LinesOf(TextOf(lines, trailingNewline)) == lines
    ensures EndsWithNewline(TextOf(lines, trailingNewline)) == trailingNewline
  {
    var text := TextOf(lines, trailingNewline);
    if trailingNewline {
      JoinSnoc(lines, "", "\n");
      assert text == Join(lines + [""], "\n");
      SplitJoin(lines + [""], '\n');
      assert (lines + [""])[..|lines|] == lines;
    } else {
      assert text == Join(lines, "\n");
      LastLine(lines);
      SplitJoin(lines, '\n');
    }
  }

  lemma {:induction false} JoinSnoc(parts: seq<string>, last: string, sep: string)
    requires parts != []
    ensures Join(parts + [last], sep) == Join(parts, sep) + sep + last
  {
    if |parts| == 1 {
      assert (parts + [last])[1..] == [last];
    } else {
      JoinSnoc(parts[1..], last, sep);
      assert (parts + [last])[1..] == parts[1..] + [last];
    }
  }

  /** What a file's lines look like. */
  lemma LinesOfClean(text: string)
    ensures CleanLines(LinesOf(text)) && TextOf(LinesOf(text), EndsWithNewline(text)) == text
    ensures !EndsWithNewline(text) ==> |LinesOf(text)| == 1 || LinesOf(text)[|LinesOf(text)| - 1] != []
  {
    var lines := Split(text, '\n');
    JoinSplit(text, '\n');
    LastLine(lines);
    if EndsWithNewline(text) {
      var n := |lines| - 1;
      assert lines == lines[..n] + [""];
      JoinSnoc(lines[..n], "", "\n");
    }
  }
}
