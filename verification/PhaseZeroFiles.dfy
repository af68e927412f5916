/**
 * The Phase 0 generator from file to file: when a second run writes the same text.
 *
 * A title may bring newlines of its own, so the section that is read back can hold lines the
 * generator never wrote as lines. `Flat` is the section as it is read back.
 */
module PhaseZeroFiles {
  import opened Texts
  import opened Sequences
  import opened Documents
  import opened PhaseZero
  import opened PhaseZeroLaws
  import CS = CoverageSummary
  import CF = CoverageFiles

  /* ---- lines that are not quotes ---- */

  predicate NoQuote(l: Line)
  {
    !Begins(l, '>')
  }

  /** How many lines are no quotes; the Note's rewrite never changes it. */
  function Others(lines: seq<Line>): nat
  {
    |Filter(lines, NoQuote)|
  }

  lemma OthersAdd(a: seq<Line>, b: seq<Line>)
    ensures Others(a + b) == Others(a) + Others(b)
  {
    FilterAppend(a, b, NoQuote);
  }

  lemma QuotesAreNoOthers(quotes: seq<Line>)
    requires forall i | 0 <= i < |quotes| :: Begins(quotes[i], '>')
    ensures Others(quotes) == 0
  {
    FilterNone(quotes, NoQuote);
  }

  lemma SomeOther(lines: seq<Line>, i: nat)
    requires i < |lines| && NoQuote(lines[i])
    ensures Others(lines) > 0
  {
    FilterMembers(lines, NoQuote);
    assert lines[i] in Filter(lines, NoQuote);
  }

  lemma Phase1IsNoQuote(l: Line)
    requires IsPhase1(l)
    ensures NoQuote(l)
  {
    assert PHASE_1_HEADER[0] == '#';
    if Begins(l, '>') {
      TrimKeepsFirst(l);
    }
  }

  lemma QuoteIsNoPhase0(l: Line)
    requires Begins(l, '>')
    ensures !IsPhase0(l)
  {
    TrimKeepsFirst(l);
    assert PHASE_0_HEADER[0] == '#';
  }

  lemma SeparatorIsNoQuote(l: Line)
    requires IsSeparator(l)
    ensures NoQuote(l)
  {
    if Begins(l, '>') {
      TrimKeepsFirst(l);
    }
  }

  /* ---- a section that hides a header grows ---- */

  /** Where a run finds a section that hides a header: it stops short of that header. */
  lemma HiddenSection(top: seq<Line>, was: seq<Line>, below: seq<Line>, j: nat) returns (k: nat)
    requires was != [] && IsPhase0(was[0]) && 1 <= j < |was| && IsPhase1(was[j])
    requires (forall l <- top :: !IsPhase0(l)) && SectionAt(top + was + below).Ok?
    ensures 0 < k <= j && SectionAt(top + was + below) == Ok((|top|, |top| + k))
  {
    var lines := top + was + below;
    var q0, q1, sep := SectionAtParts(lines);
    FirstPhase0(top, was, below, q0);
    assert lines[|top| + j] == was[j];
    k := sep - |top|;
  }

  lemma FirstPhase0(top: seq<Line>, was: seq<Line>, below: seq<Line>, q0: nat)
    requires was != [] && IsPhase0(was[0]) && forall l <- top :: !IsPhase0(l)
    requires q0 < |top + was + below| && IsPhase0((top + was + below)[q0])
    requires forall i | 0 <= i < q0 :: !IsPhase0((top + was + below)[i])
    ensures q0 == |top|
  {
    var lines := top + was + below;
    assert lines[|top|] == was[0];
    assert forall i | 0 <= i < |top| :: lines[i] == top[i] && top[i] in top;
  }

  /** Replacing a section that hides a header leaves some of it behind. */
  lemma LeftoverGrows(top: seq<Line>, was: seq<Line>, below: seq<Line>, block: seq<Line>, j: nat, out: seq<Line>)
    requires was != [] && IsPhase0(was[0]) && 1 <= j < |was| && IsPhase1(was[j])
    requires forall l <- top :: !IsPhase0(l)
    requires Others(block) == Others(was) && ReplaceSection(top + was + below, block) == Ok(out)
    ensures Others(out) > Others(top + was + below)
  {
    var k := HiddenSection(top, was, below, j);
    ReplaceSectionIs(top + was + below, block, |top|, |top| + k);
    Phase1IsNoQuote(was[j]);
    assert was[k..][j - k] == was[j];
    SomeOther(was[k..], j - k);
    SplicedFront(top, was, below, block, k);
    OthersAround(top, was, below);
    OthersAround(top, block, was[k..] + below);
    OthersAdd(was[k..], below);
  }

  lemma SplicedFront(top: seq<Line>, was: seq<Line>, below: seq<Line>, block: seq<Line>, k: nat)
    requires k <= |was|
    ensures Splice(top + was + below, |top|, |top| + k, block) == top + block + (was[k..] + below)
  {
    var lines := top + was + below;
    assert lines[..|top|] == top && lines[|top| + k..] == was[k..] + below;
  }

  lemma OthersAround(a: seq<Line>, b: seq<Line>, c: seq<Line>)
    ensures Others(a + b + c) == Others(a) + Others(b) + Others(c)
  {
    OthersAdd(a + b, c);
    OthersAdd(a, b);
  }

  /* ---- the second search for the Note ---- */

  /** The generated Note stands at `at`, and no quote follows it. */
  ghost predicate StandsAt(lines: seq<Line>, at: nat, note: seq<Line>)
  {
    at + |note| <= |lines| && lines[at..at + |note|] == note && (at + |note| < |lines| ==> !Begins(lines[at + |note|], '>'))
  }

  /**
   * The Note that a search of the written document finds needs no more rewriting: it stands in
   * the new section, where the next run overwrites it anyway, or it is the generated Note.
   */
  ghost predicate NoteSettles(above: seq<Line>, section: seq<Line>, below: seq<Line>, note: seq<Line>)
  {
    var at := NoteAt(above + section + below);
    at.Ok? && (|above| <= at.value < |above| + |section| || StandsAt(above + section + below, at.value, note))
  }

  lemma SpliceHolds(lines: seq<Line>, from: nat, to: nat, block: seq<Line>)
    requires from <= to <= |lines|
    ensures Splice(lines, from, to, block) == lines <==> to == from + |block| && lines[from..to] == block
  {
    var out := Splice(lines, from, to, block);
    assert |out| == |lines| - (to - from) + |block|;
    assert out[from..from + |block|] == block;
    if to == from + |block| && lines[from..to] == block {
      SpliceItself(lines, from, block);
    }
  }

  /** Rewriting the Note leaves a document as it is exactly when the generated Note stands there. */
  lemma NoteFixed(lines: seq<Line>, note: seq<Line>, n: nat)
    requires IsNoteBlock(note) && NoteAt(lines) == Ok(n)
    ensures ReplaceNote(lines, note) == Ok(lines) <==> StandsAt(lines, n, note)
  {
    NoteAtBounds(lines);
    ReplaceNoteIs(lines, note, n);
    SpliceHolds(lines, n, RunEnd(lines, n + 1, '>'), note);
    if StandsAt(lines, n, note) {
      NoteStands(lines, note, n);
    }
  }

  lemma SpliceInMiddle(a: seq<Line>, b: seq<Line>, c: seq<Line>, from: nat, to: nat, block: seq<Line>)
    requires from <= to <= |b|
    ensures Splice(a + b + c, |a| + from, |a| + to, block) == a + Splice(b, from, to, block) + c
  {
    var lines := a + b + c;
    assert lines[..|a| + from] == a + b[..from];
    assert lines[|a| + to..] == b[to..] + c;
  }

  lemma SpliceKeepsOthers(lines: seq<Line>, from: nat, to: nat, block: seq<Line>)
    requires from <= to <= |lines|
    requires forall i | from <= i < to :: Begins(lines[i], '>')
    requires forall l <- block :: Begins(l, '>')
    ensures Others(Splice(lines, from, to, block)) == Others(lines)
  {
    assert lines == lines[..from] + lines[from..to] + lines[to..];
    QuotesAreNoOthers(lines[from..to]);
    QuotesAreNoOthers(block);
    OthersAdd(lines[..from] + lines[from..to], lines[to..]);
    OthersAdd(lines[..from], lines[from..to]);
    OthersAdd(lines[..from] + block, lines[to..]);
    OthersAdd(lines[..from], block);
  }

  /* ---- the second run, on lines ---- */

  lemma HidesOne(block: seq<Line>) returns (j: nat)
    requires !HidesNoHeader(block)
    ensures 1 <= j < |block| && IsPhase1(block[j])
  {
    j :| 1 <= j < |block| && IsPhase1(block[j]);
  }

  /** With its Note settled, the document is left as it is exactly when its section hides no header. */
  lemma SettledSection(above: seq<Line>, section: seq<Line>, below: seq<Line>, p1: nat)
    requires (forall l <- above :: !IsPhase0(l)) && section != [] && IsPhase0(section[0]) && TailLaid(below, p1)
    ensures ReplaceSection(above + section + below, section) == Ok(above + section + below) <==> HidesNoHeader(section)
  {
    if HidesNoHeader(section) {
      SectionOfLayout(above, section, below, p1, section);
    } else {
      var j := HidesOne(section);
      var again := ReplaceSection(above + section + below, section);
      if again.Ok? {
        LeftoverGrows(above, section, below, section, j, again.value);
      }
    }
  }

  lemma RefreshIs(lines: seq<Line>, note: seq<Line>, block: seq<Line>, noted: seq<Line>)
    requires ReplaceNote(lines, note) == Ok(noted)
    ensures Refresh(lines, note, block) == ReplaceSection(noted, block)
  {
  }

  /** A Note inside the section is rewritten there, and the section is then replaced whole. */
  lemma NoteInSection(above: seq<Line>, section: seq<Line>, below: seq<Line>, p1: nat, note: seq<Line>)
    requires (forall l <- above :: !IsPhase0(l)) && section != [] && IsPhase0(section[0]) && TailLaid(below, p1)
    requires IsNoteBlock(note)
    requires var at := NoteAt(above + section + below); at.Ok? && |above| <= at.value < |above| + |section|
    ensures Refresh(above + section + below, note, section) == Ok(above + section + below) <==> HidesNoHeader(section)
  {
    var lines := above + section + below;
    NoteAtBounds(lines);
    var from := NoteAt(lines).value - |above|;
    var to := RunInSection(above, section, below, p1, from);
    var other := Splice(section, from, to, note);
    SpliceInMiddle(above, section, below, from, to, note);
    ReplaceNoteIs(lines, note, |above| + from);
    RefreshIs(lines, note, section, above + other + below);
    QuotedPart(section, from, to, note);
    SpliceKeepsOthers(section, from, to, note);
    if HidesNoHeader(section) {
      SectionOfLayout(above, other, below, p1, section);
    } else {
      var j := HidesOne(other);
      var again := ReplaceSection(above + other + below, section);
      if again.Ok? {
        LeftoverGrows(above, other, below, section, j, again.value);
        OthersAround(above, other, below);
        OthersAround(above, section, below);
      }
    }
  }

  /** The quotes that start inside a section end inside it. */
  lemma RunInSection(above: seq<Line>, section: seq<Line>, below: seq<Line>, p1: nat, from: nat) returns (to: nat)
    requires section != [] && IsPhase0(section[0]) && TailLaid(below, p1)
    requires from < |section| && IsNote((above + section + below)[|above| + from])
    ensures 1 <= from < to <= |section| && RunEnd(above + section + below, |above| + from + 1, '>') == |above| + to
    ensures forall i | from <= i < to :: Begins(section[i], '>')
  {
    var lines := above + section + below;
    var end := RunEnd(lines, |above| + from + 1, '>');
    assert lines[|above| + from] == section[from];
    if from == 0 { QuoteIsNoPhase0(section[0]); }
    SeparatorIsNoQuote(below[0]);
    assert lines[|above| + |section|] == below[0];
    to := end - |above|;
    assert forall i | from <= i < to :: lines[|above| + i] == section[i];
  }

  /** Rewriting quotes inside a section neither hides nor uncovers a header. */
  lemma QuotedPart(section: seq<Line>, from: nat, to: nat, note: seq<Line>)
    requires 1 <= from <= to <= |section| && IsPhase0(section[0]) && IsNoteBlock(note)
    requires forall i | from <= i < to :: Begins(section[i], '>')
    ensures var other := Splice(section, from, to, note);
            other != [] && other[0] == section[0] && (HidesNoHeader(other) <==> HidesNoHeader(section))
  {
    var other := Splice(section, from, to, note);
    forall i | 0 <= i < |note| ensures !IsPhase1(note[i]) {
      assert note[i] in note;
      if IsPhase1(note[i]) { Phase1IsNoQuote(note[i]); }
    }
    forall i | from <= i < to ensures !IsPhase1(section[i]) {
      if IsPhase1(section[i]) { Phase1IsNoQuote(section[i]); }
    }
    assert forall i | 0 <= i < from :: other[i] == section[i];
    assert forall i | 0 <= i < |note| :: other[from + i] == note[i];
    assert forall i | to <= i < |section| :: section[i] == other[from + |note| + (i - to)];
    assert forall i | from + |note| <= i < |other| :: other[i] == section[i - from - |note| + to];
  }

  /** What rewriting a Note below the section does to what stands there. */
  lemma BelowRewritten(top: seq<Line>, below: seq<Line>, p1: nat, note: seq<Line>) returns (other: seq<Line>)
    requires TailLaid(below, p1) && IsNoteBlock(note)
    requires var at := NoteAt(top + below); at.Ok? && at.value >= |top|
    ensures ReplaceNote(top + below, note) == Ok(top + other)
    ensures TailLaid(other, p1) && Others(other) == Others(below)
  {
    var lines := top + below;
    NoteAtBounds(lines);
    var from := NoteAt(lines).value - |top|;
    var to := RunEnd(lines, |top| + from + 1, '>') - |top|;
    assert forall i | 0 <= i < |below| :: below[i] == lines[|top| + i];
    other := Splice(below, from, to, note);
    SpliceShifted(top, below, from, to, note);
    ReplaceNoteIs(lines, note, |top| + from);
    NoteIsBelowHeader(below, p1, from);
    SpliceKeepsOthers(below, from, to, note);
    assert forall i | 0 <= i <= p1 :: other[i] == below[i];
  }

  /** A Note below the section that is not the generated one is rewritten there. */
  lemma NoteBelowSection(above: seq<Line>, section: seq<Line>, below: seq<Line>, p1: nat, note: seq<Line>)
    requires (forall l <- above :: !IsPhase0(l)) && section != [] && IsPhase0(section[0]) && TailLaid(below, p1)
    requires IsNoteBlock(note)
    requires var at := NoteAt(above + section + below);
             at.Ok? && at.value >= |above| + |section| && !StandsAt(above + section + below, at.value, note)
    ensures Refresh(above + section + below, note, section) != Ok(above + section + below)
  {
    var lines := above + section + below;
    var other := BelowRewritten(above + section, below, p1, note);
    RefreshIs(lines, note, section, above + section + other);
    NoteFixed(lines, note, NoteAt(lines).value);
    if HidesNoHeader(section) {
      SectionOfLayout(above, section, other, p1, section);
    } else {
      HiddenStaysHidden(above, section, below, other);
    }
  }

  lemma HiddenStaysHidden(above: seq<Line>, section: seq<Line>, below: seq<Line>, other: seq<Line>)
    requires (forall l <- above :: !IsPhase0(l)) && section != [] && IsPhase0(section[0])
    requires !HidesNoHeader(section) && Others(other) == Others(below)
    ensures ReplaceSection(above + section + other, section) != Ok(above + section + below)
  {
    var j := HidesOne(section);
    var again := ReplaceSection(above + section + other, section);
    if again.Ok? {
      LeftoverGrows(above, section, other, section, j, again.value);
      OthersAdd(above + section, other);
      OthersAdd(above + section, below);
    }
  }

  lemma NoteIsBelowHeader(below: seq<Line>, p1: nat, from: nat)
    requires TailLaid(below, p1) && from < |below| && IsNote(below[from])
    ensures from > p1
  {
    assert PHASE_1_HEADER[0] == '#';
    if from <= p1 {
      TrimKeepsFirst(below[from]);
    }
  }

  /**
   * A second run over the lines the first one left: it changes nothing exactly when the section
   * hides no header and the Note it finds is settled.
   */
  lemma SecondRun(above: seq<Line>, section: seq<Line>, below: seq<Line>, p1: nat, note: seq<Line>)
    requires (forall l <- above :: !IsPhase0(l)) && section != [] && IsPhase0(section[0]) && TailLaid(below, p1)
    requires IsNoteBlock(note)
    requires var at := NoteAt(above + section + below);
             at.Ok? && at.value < |above| ==> StandsAt(above + section + below, at.value, note)
    ensures Refresh(above + section + below, note, section) == Ok(above + section + below)
       <==> HidesNoHeader(section) && NoteSettles(above, section, below, note)
  {
    var lines := above + section + below;
    var at := NoteAt(lines);
    if at.Ok? {
      if StandsAt(lines, at.value, note) {
        NoteFixed(lines, note, at.value);
        RefreshIs(lines, note, section, lines);
        SettledSection(above, section, below, p1);
      } else if at.value < |above| + |section| {
        NoteInSection(above, section, below, p1, note);
      } else {
        NoteBelowSection(above, section, below, p1, note);
      }
    }
  }

  /* ---- the first run ---- */

  lemma NoteAboveSection(noted: seq<Line>, note: seq<Line>, n: nat, p0: nat)
    requires IsNoteBlock(note) && n + |note| <= |noted| && noted[n..n + |note|] == note
    requires n < p0 < |noted| && IsPhase0(noted[p0])
    ensures n + |note| <= p0
  {
    if p0 < n + |note| {
      assert noted[p0] == note[p0 - n] && note[p0 - n] in note;
      QuoteIsNoPhase0(noted[p0]);
    }
  }

  /** A Note found above the new section is the one the first run wrote. */
  lemma NoteAboveStands(noted: seq<Line>, note: seq<Line>, n: nat, p0: nat, lines: seq<Line>)
    requires IsNoteBlock(note) && NoteAt(noted) == Ok(n) && StandsAt(noted, n, note)
    requires p0 < |noted| && IsPhase0(noted[p0]) && p0 < |lines| && IsPhase0(lines[p0]) && lines[..p0] == noted[..p0]
    requires NoteAt(lines).Ok? && NoteAt(lines).value < p0
    ensures NoteAt(lines) == Ok(n) && StandsAt(lines, n, note)
  {
    var c, m := NoteAtParts(lines);
    assert forall i | 0 <= i < p0 :: lines[i] == lines[..p0][i] == noted[i];
    NoteAtIs(noted, c, m);
    NoteAboveSection(noted, note, n, p0);
    assert lines[n..n + |note|] == noted[n..n + |note|];
    if n + |note| == p0 && Begins(lines[p0], '>') {
      QuoteIsNoPhase0(lines[p0]);
    }
  }

  lemma CutAtSection(noted: seq<Line>, p0: nat, sep: nat) returns (p1: nat)
    requires SectionAt(noted) == Ok((p0, sep))
    ensures p0 < sep < |noted| && IsPhase0(noted[p0])
    ensures TailLaid(noted[sep..], p1) && forall l <- noted[..p0] :: !IsPhase0(l)
  {
    var q0, q1, s := SectionAtParts(noted);
    p1 := q1 - sep;
    assert forall i | sep <= i < |noted| :: noted[sep..][i - sep] == noted[i];
  }

  /** How the first run cuts the document: what it keeps above and below the new section. */
  lemma FirstRun(lines: seq<Line>, note: seq<Line>, section: seq<Line>, noted: seq<Line>, p0: nat, sep: nat) returns (p1: nat)
    requires IsNoteBlock(note) && section != [] && IsPhase0(section[0])
    requires ReplaceNote(lines, note) == Ok(noted) && SectionAt(noted) == Ok((p0, sep))
    ensures p0 < sep < |noted| && TailLaid(noted[sep..], p1) && forall l <- noted[..p0] :: !IsPhase0(l)
    ensures Refresh(lines, note, section) == Ok(noted[..p0] + section + noted[sep..])
    ensures var out := noted[..p0] + section + noted[sep..];
            NoteAt(out).Ok? && NoteAt(out).value < p0 ==> StandsAt(out, NoteAt(out).value, note)
  {
    p1 := CutAtSection(noted, p0, sep);
    RefreshIs(lines, note, section, noted);
    ReplaceSectionIs(noted, section, p0, sep);
    var out := noted[..p0] + section + noted[sep..];
    if NoteAt(out).Ok? && NoteAt(out).value < p0 {
      var n, end := NoteReplaced(lines, note, noted);
      assert out[p0] == section[0] && out[..p0] == noted[..p0];
      NoteAboveStands(noted, note, n, p0, out);
    }
  }

  /* ---- written and read back ---- */

  lemma NotedIsWritable(lines: seq<Line>, note: seq<Line>, noted: seq<Line>, trailing: bool)
    requires IsNoteBlock(note) && (forall l <- note :: CF.Solid(l)) && CF.Writable(lines, trailing)
    requires ReplaceNote(lines, note) == Ok(noted)
    ensures CF.Writable(noted, trailing)
  {
    var n, end := NoteReplaced(lines, note, noted);
    CF.SpliceWritable(lines, n, end, note, trailing);
  }

  lemma SectionIsWritable(noted: seq<Line>, p0: nat, sep: nat, section: seq<Line>, trailing: bool)
    requires CF.Writable(noted, trailing) && p0 < sep < |noted| && section != [] && forall l <- section :: '\n' !in l
    requires |noted| > sep + 1
    ensures CF.Writable(Splice(noted, p0, sep, section), trailing)
  {
    var out := Splice(noted, p0, sep, section);
    forall l <- out ensures '\n' !in l {
      assert l in noted[..p0] || l in section || l in noted[sep..];
    }
    assert out[|out| - 1] == noted[|noted| - 1];
  }

  lemma FlatOfClean(lines: seq<Line>)
    requires CleanLines(lines)
    ensures Flat(lines) == lines
  {
    SplitJoin(lines, '\n');
  }

  /** Two documents have one text exactly when they read back alike. */
  lemma SameTextIff(a: seq<Line>, b: seq<Line>, trailing: bool)
    requires a != [] && b != []
    ensures TextOf(a, trailing) == TextOf(b, trailing) <==> Flat(a) == Flat(b)
  {
    FlatJoins(a);
    FlatJoins(b);
    var end := if trailing then "\n" else "";
    assert TextOf(a, trailing)[..|TextOf(a, trailing)| - |end|] == Join(a, "\n");
    assert TextOf(b, trailing)[..|TextOf(b, trailing)| - |end|] == Join(b, "\n");
  }

  lemma ReadsBackFlat(out: seq<Line>, trailing: bool)
    requires out != [] && CF.Writable(Flat(out), trailing)
    ensures LinesOf(TextOf(out, trailing)) == Flat(out) && EndsWithNewline(TextOf(out, trailing)) == trailing
  {
    FlatOfClean(Flat(out));
    SameTextIff(out, Flat(out), trailing);
    LinesReadBack(Flat(out), trailing);
  }

  function Flattened(r: Result<seq<Line>, PhaseError>): Result<seq<Line>, PhaseError>
  {
    if r.Ok? then Ok(Flat(r.value)) else r
  }

  /** Flattening the section first, or the document it was spliced into, is the same. */
  lemma FlatRefresh(lines: seq<Line>, note: seq<Line>, block: seq<Line>)
    requires CleanLines(lines) && IsNoteBlock(note) && (forall l <- note :: CF.Solid(l)) && block != []
    ensures Refresh(lines, note, Flat(block)) == Flattened(Refresh(lines, note, block))
  {
    var noted := ReplaceNote(lines, note);
    if noted.Ok? {
      RefreshIs(lines, note, block, noted.value);
      RefreshIs(lines, note, Flat(block), noted.value);
      NotedIsWritable(lines, note, noted.value, true);
      SectionAtBounds(noted.value);
      if SectionAt(noted.value).Ok? {
        var (p0, sep) := SectionAt(noted.value).value;
        ReplaceSectionIs(noted.value, block, p0, sep);
        ReplaceSectionIs(noted.value, Flat(block), p0, sep);
        FlatSplice(noted.value, p0, sep, block);
      }
    }
  }

  lemma FlatAppend(a: seq<Line>, b: seq<Line>)
    requires a != [] && b != []
    ensures Flat(a + b) == Flat(a) + Flat(b)
  {
    FlatJoins(a);
    FlatJoins(b);
    JoinAppend(a, b, "\n");
    JoinAppend(Flat(a), Flat(b), "\n");
    SplitJoin(Flat(a) + Flat(b), '\n');
  }

  lemma FlatOne(l: Line)
    ensures Flat([l]) == Split(l, '\n')
  {
  }

  /** The lines read back are the pieces of the lines written. */
  lemma {:induction false} FlatMembers(block: seq<Line>, l: Line)
    requires block != []
    ensures l in Flat(block) <==> exists b <- block :: l in Split(b, '\n')
  {
    FlatOne(block[0]);
    if |block| == 1 {
      assert block == [block[0]];
    } else {
      assert block == [block[0]] + block[1..];
      FlatAppend([block[0]], block[1..]);
      FlatMembers(block[1..], l);
    }
  }

  lemma FlatHead(head: Line, rest: seq<Line>)
    requires '\n' !in head && rest != []
    ensures Flat([head] + rest) == [head] + Flat(rest)
  {
    FlatAppend([head], rest);
    SplitPiece(head, '\n');
  }

  /* ---- the generated blocks, written ---- */

  lemma NoteIsSolid()
    ensures forall l <- NOTE_LINES :: CF.Solid(l)
  {
    NoteSecondIsOneLine();
    NoteThirdIsOneLine();
    NoteFourthIsOneLine();
    NoteFifthIsOneLine();
    NoteHeadIsSolid();
    QuotesAreSolid(NOTE_TEXTS);
  }

  lemma QuotesAreSolid(texts: seq<string>)
    requires forall t <- texts :: '\n' !in t
    ensures forall l <- MapSeq(texts, Quote) :: CF.Solid(l)
  {
    forall l <- MapSeq(texts, Quote) ensures CF.Solid(l) {
      var i :| 0 <= i < |texts| && l == Quote(texts[i]);
      assert texts[i] in texts;
    }
  }

  lemma NoteHeadIsSolid()
    ensures CF.Solid(NOTE_HEAD)
  {
  }

  lemma NoteSecondIsOneLine()
    ensures '\n' !in NOTE_SECOND
  {
  }

  lemma NoteThirdIsOneLine()
    ensures '\n' !in NOTE_THIRD
  {
  }

  lemma NoteFourthIsOneLine()
    ensures '\n' !in NOTE_FOURTH
  {
  }

  lemma NoteFifthIsOneLine()
    ensures '\n' !in NOTE_FIFTH
  {
  }

  lemma Phase0IsOneLine()
    ensures '\n' !in PHASE_0_HEADER
  {
  }

  lemma PhasesAreOneLine()
    ensures '\n' !in CS.PHASE_HEADERS[0] && '\n' !in CS.PHASE_HEADERS[1]
  {
  }

  /** The section as it is read back starts with the Phase 0 header. */
  lemma SectionReadsBack(tests: seq<StableTest>)
    ensures var flat := Flat(Section(tests));
            flat != [] && flat[0] == PHASE_0_HEADER && IsPhase0(flat[0]) && forall l <- flat :: '\n' !in l
  {
    Phase0IsOneLine();
    HeaderTrims();
    FlatHead(PHASE_0_HEADER, Section(tests)[1..]);
    assert Section(tests) == [PHASE_0_HEADER] + Section(tests)[1..];
    FlatJoins(Section(tests));
  }

  /* ---- the second run, on files ---- */

  /**
   * The whole generator, from file to file. A second run writes the same text if and only if
   * the section, read back line by line, hides no Phase 1 header, and the Note found in the
   * written document is settled.
   */
  lemma RefreshTwice(original: string, tests: seq<StableTest>, written: string, noted: seq<Line>, p0: nat, sep: nat)
    requires RefreshText(original, tests) == Ok(written)
    requires ReplaceNote(LinesOf(original), NOTE_LINES) == Ok(noted) && SectionAt(noted) == Ok((p0, sep))
    ensures p0 < sep < |noted|
    ensures RefreshText(written, tests) == Ok(written)
       <==> HidesNoHeader(Flat(Section(tests))) && NoteSettles(noted[..p0], Flat(Section(tests)), noted[sep..], NOTE_LINES)
  {
    var section, flat := Section(tests), Flat(Section(tests));
    NoteIsNoteBlock();
    SectionReadsBack(tests);
    var p1 := FirstRun(LinesOf(original), NOTE_LINES, flat, noted, p0, sep);
    SecondRun(noted[..p0], flat, noted[sep..], p1, NOTE_LINES);
    var read := noted[..p0] + flat + noted[sep..];
    WrittenReadsBack(original, tests, written, noted, p0, sep);
    RewrittenIff(read, tests, EndsWithNewline(original), written);
  }

  lemma WrittenReadsBack(original: string, tests: seq<StableTest>, written: string, noted: seq<Line>, p0: nat, sep: nat)
    requires RefreshText(original, tests) == Ok(written)
    requires ReplaceNote(LinesOf(original), NOTE_LINES) == Ok(noted) && SectionAt(noted) == Ok((p0, sep))
    ensures p0 < sep < |noted|
    ensures var read := noted[..p0] + Flat(Section(tests)) + noted[sep..];
            && CF.Writable(read, EndsWithNewline(original)) && written == TextOf(read, EndsWithNewline(original))
            && LinesOf(written) == read && EndsWithNewline(written) == EndsWithNewline(original)
  {
    var trailing, lines := EndsWithNewline(original), LinesOf(original);
    var section, flat := Section(tests), Flat(Section(tests));
    NoteIsNoteBlock();
    NoteIsSolid();
    LinesOfClean(original);
    SectionReadsBack(tests);
    var q0, p1, q := SectionAtParts(noted);
    NotedIsWritable(lines, NOTE_LINES, noted, trailing);
    SectionIsWritable(noted, p0, sep, flat, trailing);
    RefreshIs(lines, NOTE_LINES, section, noted);
    ReplaceSectionIs(noted, section, p0, sep);
    FlatSplice(noted, p0, sep, section);
    var out := Splice(noted, p0, sep, section);
    ReadsBackFlat(out, trailing);
    FlatOfClean(Flat(out));
    SameTextIff(out, Flat(out), trailing);
  }

  lemma RewrittenIff(read: seq<Line>, tests: seq<StableTest>, trailing: bool, written: string)
    requires CF.Writable(read, trailing) && written == TextOf(read, trailing)
    requires LinesOf(written) == read && EndsWithNewline(written) == trailing
    ensures RefreshText(written, tests) == Ok(written) <==> Refresh(read, NOTE_LINES, Flat(Section(tests))) == Ok(read)
  {
    NoteIsNoteBlock();
    NoteIsSolid();
    FlatRefresh(read, NOTE_LINES, Section(tests));
    FlatOfClean(read);
    var again := Refresh(read, NOTE_LINES, Section(tests));
    if again.Ok? {
      RefreshedIsNotEmpty(read, NOTE_LINES, Section(tests));
      SameTextIff(again.value, read, trailing);
    }
  }

  lemma RefreshedIsNotEmpty(lines: seq<Line>, note: seq<Line>, block: seq<Line>)
    requires Refresh(lines, note, block).Ok? && block != []
    ensures Refresh(lines, note, block).value != []
  {
    var noted := ReplaceNote(lines, note).value;
    RefreshIs(lines, note, block, noted);
    SectionAtBounds(noted);
  }

  /* ---- where the Note stands ---- */

  /** The search for the Note finds one no later than any that is there. */
  lemma FirstNote(lines: seq<Line>, c: nat, i: nat)
    requires c < i < |lines| && CS.IsCoverageHeader(lines[c]) && IsNote(lines[i])
    requires forall k | 0 <= k < c :: !CS.IsCoverageHeader(lines[k])
    ensures NoteAt(lines).Ok? && c <= NoteAt(lines).value <= i && IsNote(lines[NoteAt(lines).value])
  {
    FindInIs(lines, CS.IsCoverageHeader, 0, |lines|, c);
    FindInMeaning(lines, IsNote, c, |lines|);
  }

  /** The Coverage header stands above the section, at `c`. */
  ghost predicate CoverageAbove(above: seq<Line>, c: nat)
  {
    c < |above| && CS.IsCoverageHeader(above[c]) && forall i | 0 <= i < c :: !CS.IsCoverageHeader(above[i])
  }

  lemma NoteBelowTop(top: seq<Line>, below: seq<Line>, c: nat, k: nat, note: seq<Line>)
    requires CoverageAbove(top, c) && k < |below| && IsNote(below[k]) && forall i | 0 <= i < k :: !IsNote(below[i])
    requires StandsAt(below, k, note)
    ensures var at := NoteAt(top + below);
            at.Ok? && c <= at.value < |top + below| && IsNote((top + below)[at.value]) && (at.value >= |top| ==> StandsAt(top + below, at.value, note))
  {
    var out := top + below;
    assert forall i | 0 <= i < |top| :: out[i] == top[i];
    assert out[|top| + k] == below[k];
    FirstNote(out, c, |top| + k);
    var m := NoteAt(out).value;
    if m >= |top| {
      assert out[m] == below[m - |top|];
      StandsBehind(top, below, k, note);
    }
  }

  /** A generated Note that is the first one below the section is settled, unless a title brings in another. */
  lemma NoteBelowSettles(above: seq<Line>, section: seq<Line>, below: seq<Line>, c: nat, k: nat, note: seq<Line>)
    requires CoverageAbove(above, c) && forall i | c <= i < |above| :: !IsNote(above[i])
    requires k < |below| && IsNote(below[k]) && forall i | 0 <= i < k :: !IsNote(below[i])
    requires StandsAt(below, k, note)
    ensures NoteSettles(above, section, below, note)
  {
    assert CoverageAbove(above + section, c);
    NoteBelowTop(above + section, below, c, k, note);
    assert forall i | c <= i < |above| :: (above + section + below)[i] == above[i];
  }

  lemma NoteAboveSettles(above: seq<Line>, section: seq<Line>, below: seq<Line>, c: nat, n: nat, note: seq<Line>)
    requires CoverageAbove(above, c) && c < n < |above| && IsNote(above[n])
    requires var at := NoteAt(above + section + below);
             at.Ok? && at.value < |above| ==> StandsAt(above + section + below, at.value, note)
    ensures NoteSettles(above, section, below, note)
  {
    var out := above + section + below;
    assert forall i | 0 <= i < |above| :: out[i] == above[i];
    FirstNote(out, c, n);
  }

  /** With the Coverage header above the section, a Note that is not inside it is always settled. */
  lemma NoteOutsideSettles(lines: seq<Line>, note: seq<Line>, section: seq<Line>, noted: seq<Line>, p0: nat, sep: nat, n: nat)
    requires IsNoteBlock(note) && section != [] && IsPhase0(section[0])
    requires ReplaceNote(lines, note) == Ok(noted) && SectionAt(noted) == Ok((p0, sep)) && p0 < sep < |noted|
    requires NoteAt(noted) == Ok(n) && !(p0 < n < sep) && exists i | 0 <= i < p0 :: CS.IsCoverageHeader(noted[i])
    ensures NoteSettles(noted[..p0], section, noted[sep..], note)
  {
    var p1 := FirstRun(lines, note, section, noted, p0, sep);
    var m, end := NoteReplaced(lines, note, noted);
    var c, k := NoteAtParts(noted);
    var q0, q1, s := SectionAtParts(noted);
    assert CoverageAbove(noted[..p0], c);
    if n < p0 {
      NoteAboveSettles(noted[..p0], section, noted[sep..], c, n, note);
    } else {
      if n == p0 { QuoteIsNoPhase0(noted[p0]); }
      NoteBelowStands(noted, p0, sep, section, c, n, note);
    }
  }

  lemma NoteBelowStands(noted: seq<Line>, p0: nat, sep: nat, section: seq<Line>, c: nat, n: nat, note: seq<Line>)
    requires p0 < sep <= n < |noted| && CoverageAbove(noted[..p0], c) && StandsAt(noted, n, note)
    requires IsNote(noted[n]) && forall i | c <= i < n :: !IsNote(noted[i])
    ensures NoteSettles(noted[..p0], section, noted[sep..], note)
  {
    NoteStandsBelow(noted, sep, n, note);
    FirstBelow(noted, p0, sep, c, n);
    NoteBelowSettles(noted[..p0], section, noted[sep..], c, n - sep, note);
  }

  lemma FirstBelow(noted: seq<Line>, p0: nat, sep: nat, c: nat, n: nat)
    requires c < p0 < sep <= n < |noted| && IsNote(noted[n]) && forall i | c <= i < n :: !IsNote(noted[i])
    ensures forall i | c <= i < p0 :: !IsNote(noted[..p0][i])
    ensures IsNote(noted[sep..][n - sep]) && forall i | 0 <= i < n - sep :: !IsNote(noted[sep..][i])
  {
  }

  lemma NoteStandsBelow(noted: seq<Line>, sep: nat, n: nat, note: seq<Line>)
    requires sep <= n && StandsAt(noted, n, note)
    ensures StandsAt(noted[sep..], n - sep, note)
  {
    assert noted[sep..][n - sep..n - sep + |note|] == noted[n..n + |note|];
  }

  /** With the Coverage header above the section and the Note not inside it, only a hidden header matters. */
  lemma NoteOutsideTheSection(original: string, tests: seq<StableTest>, written: string, noted: seq<Line>,
                              p0: nat, sep: nat, n: nat)
    requires RefreshText(original, tests) == Ok(written)
    requires ReplaceNote(LinesOf(original), NOTE_LINES) == Ok(noted) && SectionAt(noted) == Ok((p0, sep)) && p0 <= |noted|
    requires NoteAt(noted) == Ok(n) && !(p0 < n < sep) && exists i | 0 <= i < p0 :: CS.IsCoverageHeader(noted[i])
    ensures RefreshText(written, tests) == Ok(written) <==> HidesNoHeader(Flat(Section(tests)))
  {
    NoteIsNoteBlock();
    SectionReadsBack(tests);
    RefreshTwice(original, tests, written, noted, p0, sep);
    NoteOutsideSettles(LinesOf(original), NOTE_LINES, Flat(Section(tests)), noted, p0, sep, n);
  }

  /* ---- titles on one line ---- */

  lemma HidesIff(block: seq<Line>)
    requires block != [] && !IsPhase1(block[0])
    ensures HidesNoHeader(block) <==> forall l <- block :: !IsPhase1(l)
  {
    forall l <- block | HidesNoHeader(block) ensures !IsPhase1(l) {
      var i :| 0 <= i < |block| && block[i] == l;
    }
  }

  lemma PiecesIff(block: seq<Line>, bad: Line -> bool)
    requires block != []
    ensures (exists l <- Flat(block) :: bad(l)) <==> exists b <- block, piece <- Split(b, '\n') :: bad(piece)
  {
    if l :| l in Flat(block) && bad(l) {
      FlatMembers(block, l);
    }
    if b, piece :| b in block && piece in Split(b, '\n') && bad(piece) {
      FlatMembers(block, piece);
    }
  }

  /** The section hides a header exactly when some line of it, as written, breaks into one. */
  lemma SectionHidesIff(tests: seq<StableTest>)
    ensures HidesNoHeader(Flat(Section(tests))) <==> forall l <- Section(tests), piece <- Split(l, '\n') :: !IsPhase1(piece)
  {
    SectionReadsBack(tests);
    Phase0IsNoPhase1(Flat(Section(tests))[0]);
    HidesIff(Flat(Section(tests)));
    PiecesIff(Section(tests), IsPhase1);
  }

  lemma Phase0IsNoPhase1(l: Line)
    requires IsPhase0(l)
    ensures !IsPhase1(l)
  {
    assert PHASE_0_HEADER[4] != PHASE_1_HEADER[4];
  }

  predicate OneLine(t: StableTest)
  {
    '\n' !in t.title && '\n' !in t.modulePath && '\n' !in t.specFile
  }

  lemma {:induction false} RenderedOneLine(title: string)
    requires '\n' !in title
    ensures '\n' !in RenderTitle(title)
    decreases |title|
  {
    if title != [] {
      if "${" <= title && PlaceholderEnd(title, 2) > 2 && PlaceholderEnd(title, 2) < |title| {
        var end := PlaceholderEnd(title, 2);
        RenderedOneLine(title[end + 1..]);
        TrimmedOneLine(title[2..end]);
      } else {
        RenderedOneLine(title[1..]);
      }
    }
  }

  lemma TrimmedOneLine(s: string)
    requires '\n' !in s
    ensures '\n' !in "<" + Trim(s) + ">"
  {
    var lead, trail := TrimDecomposes(s);
    PartHasNoBreak(lead, Trim(s), trail, s);
  }

  lemma PartHasNoBreak(lead: string, core: string, trail: string, s: string)
    requires s == lead + core + trail && '\n' !in s
    ensures '\n' !in core
  {
    assert forall i | 0 <= i < |core| :: s[|lead| + i] == core[i];
  }

  lemma BulletOneLine(t: StableTest)
    requires OneLine(t)
    ensures '\n' !in Bullet(t)
  {
    RenderedOneLine(t.title);
  }

  lemma {:induction false} BulletsOneLine(tests: seq<StableTest>)
    requires forall t <- tests :: OneLine(t)
    ensures forall l <- BulletsOf(tests) :: '\n' !in l
  {
    if tests != [] {
      BulletsOneLine(tests[..|tests| - 1]);
      BulletOneLine(tests[|tests| - 1]);
    }
  }

  lemma {:induction false} GroupsOneLine(tests: seq<StableTest>, keys: seq<string>)
    requires (forall t <- tests :: OneLine(t)) && forall k <- keys :: '\n' !in k
    ensures forall l <- Groups(tests, keys) :: '\n' !in l
  {
    if keys != [] {
      var n := |keys| - 1;
      GroupsOneLine(tests, keys[..n]);
      FilterMembers(tests, HasKey(ModuleOf, keys[n]));
      BulletsOneLine(Having(tests, ModuleOf, keys[n]));
      GroupOneLine(keys[n], BulletsOf(Having(tests, ModuleOf, keys[n])));
    }
  }

  lemma GroupOneLine(key: string, bullets: seq<Line>)
    requires '\n' !in key && forall l <- bullets :: '\n' !in l
    ensures forall l <- ["#### " + key + "/"] + bullets + [""] :: '\n' !in l
  {
  }

  lemma IntroRestOneLine()
    ensures forall t <- INTRO_REST :: '\n' !in t
  {
    IntroSecondOneLine();
    IntroThirdOneLine();
    IntroFourthOneLine();
    IntroFifthOneLine();
  }

  lemma IntroSecondOneLine()
    ensures '\n' !in INTRO_SECOND
  {
  }

  lemma IntroThirdOneLine()
    ensures '\n' !in INTRO_THIRD
  {
  }

  lemma IntroFourthOneLine()
    ensures '\n' !in INTRO_FOURTH
  {
  }

  lemma IntroFifthOneLine()
    ensures '\n' !in INTRO_FIFTH
  {
  }

  lemma IntroTestsOneLine()
    ensures '\n' !in INTRO_TESTS && '\n' !in INTRO_SPECS
  {
  }

  lemma IntroOneLine(total: nat, specs: nat)
    ensures forall l <- MapSeq(IntroTexts(total, specs), Quote) :: '\n' !in l
  {
    IntroRestOneLine();
    IntroTestsOneLine();
    CF.DecimalClean(total);
    CF.DecimalClean(specs);
    forall t <- IntroTexts(total, specs) ensures '\n' !in t {
      assert t == IntroHead(total, specs) || t in INTRO_REST;
    }
    QuotesAreSolid(IntroTexts(total, specs));
  }

  /** The lines above the groups: the header and the intro. */
  function SectionTop(tests: seq<StableTest>): seq<Line>
  {
    [PHASE_0_HEADER, ""] + MapSeq(IntroTexts(|tests|, |set t <- tests :: t.relativePath|), Quote) + [""]
  }

  lemma SectionTopIsOneLine(tests: seq<StableTest>)
    ensures forall l <- SectionTop(tests) :: '\n' !in l
  {
    Phase0IsOneLine();
    IntroOneLine(|tests|, |set t <- tests :: t.relativePath|);
    TopLines(PHASE_0_HEADER, MapSeq(IntroTexts(|tests|, |set t <- tests :: t.relativePath|), Quote));
  }

  lemma TopLines(head: Line, intro: seq<Line>)
    requires '\n' !in head && forall l <- intro :: '\n' !in l
    ensures forall l <- [head, ""] + intro + [""] :: '\n' !in l
  {
  }

  lemma SectionIsTopAndGroups(tests: seq<StableTest>)
    ensures Section(tests) == SectionTop(tests) + Groups(tests, KeysOf(tests, ModuleOf))
  {
  }

  lemma {:induction false} KeysOneLine(tests: seq<StableTest>)
    requires forall t <- tests :: OneLine(t)
    ensures forall k <- KeysOf(tests, ModuleOf) :: '\n' !in k
  {
    DedupMembers(MapSeq(tests, ModuleOf));
    forall k <- KeysOf(tests, ModuleOf) ensures '\n' !in k {
      var i :| 0 <= i < |tests| && MapSeq(tests, ModuleOf)[i] == k;
      assert tests[i] in tests;
    }
  }

  /** When every title, module and spec name is on one line, the section is read back as it was written. */
  lemma OneLineReadsBack(tests: seq<StableTest>)
    requires forall t <- tests :: OneLine(t)
    ensures Flat(Section(tests)) == Section(tests)
  {
    SectionIsTopAndGroups(tests);
    SectionTopIsOneLine(tests);
    KeysOneLine(tests);
    GroupsOneLine(tests, KeysOf(tests, ModuleOf));
    FlatOfClean(Section(tests));
  }

  /** A section without a Coverage header or a Note of its own. */
  ghost predicate NoLandmark(section: seq<Line>)
  {
    forall l <- section :: !IsNote(l) && !CS.IsCoverageHeader(l)
  }

  lemma PlainIsNoCoverage(l: Line)
    requires PlainText(l) || l == PHASE_0_HEADER
    ensures !CS.IsCoverageHeader(l)
  {
    assert CS.COVERAGE_SUMMARY_HEADER_PREFIX[0] == '#' && CS.COVERAGE_SUMMARY_HEADER_PREFIX[2] == ' ' && PHASE_0_HEADER[2] == '#';
  }

  lemma SectionHasNoLandmark(tests: seq<StableTest>)
    ensures NoLandmark(Section(tests)) && HidesNoHeader(Section(tests))
  {
    var specs := |set t <- tests :: t.relativePath|;
    SectionHidesNothing(tests);
    GroupsLines(tests, KeysOf(tests, ModuleOf));
    BodyIsPlain(|tests|, specs, Groups(tests, KeysOf(tests, ModuleOf)));
    forall l <- Section(tests) ensures !CS.IsCoverageHeader(l) {
      PlainIsNoCoverage(l);
    }
  }

  /** A section without landmarks leaves the search for the Note to the rest of the document. */
  lemma SearchSkips(above: seq<Line>, section: seq<Line>, below: seq<Line>)
    requires NoLandmark(section)
    ensures var at, without := NoteAt(above + section + below), NoteAt(above + below);
            if without.Err? then at.Err? else at == Ok(Across(above, section, without.value))
  {
    var lines, rest := above + section + below, above + below;
    var c := FindIn(rest, CS.IsCoverageHeader, 0, |rest|);
    FindInMeaning(rest, CS.IsCoverageHeader, 0, |rest|);
    SearchFromTop(above, section, below, CS.IsCoverageHeader);
    if c.Some? {
      SearchSkipsFor(above, section, below, IsNote, c.value);
      NoteAtUnfolds(rest, c.value);
      NoteAtUnfolds(lines, Across(above, section, c.value));
    }
  }

  lemma SearchFromTop(above: seq<Line>, section: seq<Line>, below: seq<Line>, p: Line -> bool)
    requires forall l <- section :: !p(l)
    ensures FindIn(above + section + below, p, 0, |above + section + below|)
            == Moved(above, section, FindIn(above + below, p, 0, |above + below|))
  {
    if above == [] {
      assert [] + section + below == section + below && [] + below == below;
      FindInMeaning(section + below, p, 0, |section + below|);
      FindPastAll(section, below, p);
    } else {
      SearchSkipsFor(above, section, below, p, 0);
    }
  }

  lemma FindPastAll(section: seq<Line>, below: seq<Line>, p: Line -> bool)
    requires forall l <- section :: !p(l)
    ensures FindIn(section + below, p, 0, |section + below|) == Moved([], section, FindIn(below, p, 0, |below|))
  {
    var lines := section + below;
    FindInMeaning(below, p, 0, |below|);
    FindInMeaning(lines, p, 0, |lines|);
    assert forall i | 0 <= i < |section| :: lines[i] == section[i];
    assert forall i | 0 <= i < |below| :: lines[|section| + i] == below[i];
    var found := FindIn(below, p, 0, |below|);
    if found.Some? {
      FindInIs(lines, p, 0, |lines|, |section| + found.value);
    }
  }

  /** A search from `from` in the document without the section, and from the same line in the whole. */
  lemma SearchSkipsFor(above: seq<Line>, section: seq<Line>, below: seq<Line>, p: Line -> bool, from: nat)
    requires from < |above + below| && forall l <- section :: !p(l)
    ensures FindIn(above + section + below, p, Across(above, section, from), |above + section + below|)
            == Moved(above, section, FindIn(above + below, p, from, |above + below|))
  {
    var lines, rest, start := above + section + below, above + below, Across(above, section, from);
    FindInMeaning(rest, p, from, |rest|);
    FindInMeaning(lines, p, start, |lines|);
    var found := FindIn(rest, p, from, |rest|);
    var last := if found.Some? then Across(above, section, found.value) else |lines|;
    forall i | start <= i < last ensures !p(lines[i]) {
      if i < |above| {
        assert lines[i] == rest[i];
      } else if i < |above| + |section| {
        assert lines[i] == section[i - |above|];
      } else {
        assert lines[i] == rest[i - |section|];
      }
    }
    if found.Some? {
      assert lines[last] == rest[found.value];
      FindInIs(lines, p, start, |lines|, last);
    }
  }

  /** Where a line of the document without the section stands in the whole one. */
  function Across(above: seq<Line>, section: seq<Line>, i: nat): nat
  {
    if i < |above| then i else i + |section|
  }

  function Moved(above: seq<Line>, section: seq<Line>, found: Option<nat>): Option<nat>
  {
    if found.Some? then Some(Across(above, section, found.value)) else None
  }

  /** A Note above a line that is no quote ends above it. */
  lemma StandsShort(above: seq<Line>, next: seq<Line>, at: nat, note: seq<Line>)
    requires at < |above| && IsNoteBlock(note) && next != [] && NoQuote(next[0])
    requires StandsAt(above + next, at, note)
    ensures at + |note| <= |above|
  {
    var lines := above + next;
    assert lines[|above|] == next[0];
    forall i | at <= i < at + |note| ensures Begins(lines[i], '>') {
      assert lines[i] == lines[at..at + |note|][i - at] == note[i - at];
      assert note[i - at] in note;
    }
  }

  lemma StandsInFront(above: seq<Line>, next: seq<Line>, at: nat, note: seq<Line>)
    requires at < |above| && IsNoteBlock(note) && next != [] && NoQuote(next[0])
    ensures StandsAt(above + next, at, note) <==> StandsAt(above, at, note)
  {
    if StandsAt(above + next, at, note) {
      StandsShort(above, next, at, note);
    }
    if at + |note| <= |above| {
      assert (above + next)[at..at + |note|] == above[at..at + |note|];
    }
  }

  lemma StandsBehind(top: seq<Line>, below: seq<Line>, k: nat, note: seq<Line>)
    ensures StandsAt(top + below, |top| + k, note) <==> StandsAt(below, k, note)
  {
    if |top| + k + |note| <= |top + below| {
      assert (top + below)[|top| + k..|top| + k + |note|] == below[k..k + |note|];
    }
  }

  lemma StandsAcross(above: seq<Line>, section: seq<Line>, below: seq<Line>, note: seq<Line>, at: nat)
    requires section != [] && NoQuote(section[0]) && IsNoteBlock(note) && below != [] && NoQuote(below[0])
    ensures StandsAt(above + section + below, Across(above, section, at), note) <==> StandsAt(above + below, at, note)
  {
    if at < |above| {
      assert above + section + below == above + (section + below);
      StandsInFront(above, section + below, at, note);
      StandsInFront(above, below, at, note);
    } else {
      StandsBehind(above + section, below, at - |above|, note);
      StandsBehind(above, below, at - |above|, note);
    }
  }

  /** Without landmarks of its own, the section can be left out when asking whether the Note is settled. */
  lemma SettlesWithout(above: seq<Line>, section: seq<Line>, below: seq<Line>, note: seq<Line>)
    requires NoLandmark(section) && section != [] && NoQuote(section[0]) && IsNoteBlock(note)
    requires below != [] && NoQuote(below[0])
    ensures NoteSettles(above, section, below, note) <==> NoteSettles(above, [], below, note)
  {
    assert above + [] + below == above + below;
    SearchSkips(above, section, below);
    if NoteAt(above + below).Ok? {
      StandsAcross(above, section, below, note, NoteAt(above + below).value);
    }
  }

  /**
   * When every title, module and spec name is on one line, a second run writes the same text if
   * and only if the document without its section has a Note, and that Note is the generated one.
   * In particular a Note inside the section is cut out by the first run, and the second one
   * rewrites the next Note, or stops.
   */
  lemma OneLineRefreshTwice(original: string, tests: seq<StableTest>, written: string, noted: seq<Line>, p0: nat, sep: nat)
    requires RefreshText(original, tests) == Ok(written) && forall t <- tests :: OneLine(t)
    requires ReplaceNote(LinesOf(original), NOTE_LINES) == Ok(noted) && SectionAt(noted) == Ok((p0, sep))
    ensures p0 < sep < |noted|
    ensures RefreshText(written, tests) == Ok(written) <==> NoteSettles(noted[..p0], [], noted[sep..], NOTE_LINES)
  {
    NoteIsNoteBlock();
    OneLineReadsBack(tests);
    SectionReadsBack(tests);
    SectionHasNoLandmark(tests);
    RefreshTwice(original, tests, written, noted, p0, sep);
    var p1 := CutAtSection(noted, p0, sep);
    SeparatorIsNoQuote(noted[sep..][0]);
    assert NoQuote(PHASE_0_HEADER);
    SettlesWithout(noted[..p0], Section(tests), noted[sep..], NOTE_LINES);
  }

  /* ---- titles with a newline ---- */

  /** A test whose title puts a line of its own into the section. */
  ghost predicate Smuggles(test: StableTest, line: Line)
  {
    && test.title == "a\n" + line + "\nb" && '\n' !in line && '$' !in line
    && '\n' !in test.modulePath && '\n' !in test.specFile
  }

  /** The section of a smuggling test, as it is read back: the smuggled line stands below "- [x] a". */
  function SmuggledFlat(test: StableTest, line: Line): seq<Line>
  {
    OneTestTop(test)
      + ["- [x] " + "a", line, "b" + (" → `" + test.specFile + "`"), ""]
  }

  lemma {:induction false} NoPlaceholder(title: string)
    requires '$' !in title
    ensures RenderTitle(title) == title
  {
    if title != [] {
      NoPlaceholder(title[1..]);
      assert title == [title[0]] + title[1..];
      assert title[0] in title;
    }
  }

  lemma ThreePieces(a: string, line: string, b: string)
    requires '\n' !in a && '\n' !in line && '\n' !in b
    ensures Split(a + ['\n'] + (line + ['\n'] + b), '\n') == [a, line, b]
  {
    SplitHead(a, '\n', line + ['\n'] + b);
    SplitHead(line, '\n', b);
    SplitPiece(b, '\n');
    assert [a] + ([line] + [b]) == [a, line, b];
  }

  lemma Regrouped(lead: string, a: string, line: string, b: string, tail: string)
    ensures lead + (a + "\n" + line + ("\n" + b)) + tail == (lead + a) + ['\n'] + (line + ['\n'] + (b + tail))
  {
    AppendAssoc(line, "\n", b);
    AppendAssoc(a + "\n", line, "\n" + b);
    AppendAssoc(a, "\n", line + ("\n" + b));
    AppendAssoc(lead, a, "\n" + (line + ("\n" + b)));
    AppendAssoc(lead + a, "\n", line + ("\n" + b));
    AppendAssoc(lead + a + "\n", line + ("\n" + b), tail);
    AppendAssoc(line + "\n", b, tail);
  }

  lemma SmugglingTitle(test: StableTest, line: Line, tail: string)
    requires Smuggles(test, line)
    ensures "- [x] " + RenderTitle(test.title) + tail == ("- [x] " + "a") + ['\n'] + (line + ['\n'] + ("b" + tail))
  {
    NoPlaceholder(test.title);
    assert "a\n" == "a" + "\n" && "\nb" == "\n" + "b";
    Regrouped("- [x] ", "a", line, "b", tail);
  }

  lemma SmugglingBullet(test: StableTest, line: Line)
    requires Smuggles(test, line)
    ensures Split(Bullet(test), '\n') == ["- [x] " + "a", line, "b" + (" → `" + test.specFile + "`")]
  {
    var tail := " → `" + test.specFile + "`";
    SmugglingTitle(test, line, tail);
    BulletIs(test);
    assert '\n' !in tail;
    ThreePieces("- [x] " + "a", line, "b" + tail);
  }

  lemma BulletIs(test: StableTest)
    ensures Bullet(test) == "- [x] " + RenderTitle(test.title) + (" → `" + test.specFile + "`")
  {
    AppendAssoc("- [x] " + RenderTitle(test.title), " → `", test.specFile);
    AppendAssoc("- [x] " + RenderTitle(test.title), " → `" + test.specFile, "`");
  }

  lemma OneTestKeys(test: StableTest)
    ensures KeysOf([test], ModuleOf) == [test.modulePath] && Having([test], ModuleOf, test.modulePath) == [test]
  {
    assert MapSeq([test], ModuleOf) == [test.modulePath];
    DedupDistinct([test.modulePath]);
    FilterAll([test], HasKey(ModuleOf, test.modulePath));
  }

  lemma OneBullet(test: StableTest)
    ensures BulletsOf([test]) == [Bullet(test)]
  {
    assert [test][..0] == [];
    assert BulletsOf([]) == [];
  }

  lemma OneTestGroups(test: StableTest)
    ensures Groups([test], KeysOf([test], ModuleOf)) == ["#### " + test.modulePath + "/", Bullet(test), ""]
  {
    var keys := [test.modulePath];
    OneTestKeys(test);
    OneBullet(test);
    assert keys[..0] == [] && Groups([test], keys[..0]) == [];
    assert Groups([test], keys) == Groups([test], keys[..0]) + Group([test], test.modulePath);
  }

  /** The lines above the bullet of a section of one test. */
  function OneTestTop(test: StableTest): seq<Line>
  {
    SectionTop([test]) + ["#### " + test.modulePath + "/"]
  }

  lemma OneTestSection(test: StableTest)
    ensures Section([test]) == OneTestTop(test) + [Bullet(test), ""]
  {
    SectionIsTopAndGroups([test]);
    OneTestGroups(test);
    HeadingFirst(SectionTop([test]), "#### " + test.modulePath + "/", Bullet(test));
  }

  lemma HeadingFirst(top: seq<Line>, heading: Line, bullet: Line)
    ensures top + [heading, bullet, ""] == (top + [heading]) + [bullet, ""]
  {
  }

  lemma OneTestTopReadsBack(test: StableTest)
    requires '\n' !in test.modulePath
    ensures Flat(OneTestTop(test)) == OneTestTop(test)
  {
    SectionTopIsOneLine([test]);
    assert '\n' !in "#### " + test.modulePath + "/";
    FlatOfClean(OneTestTop(test));
  }

  lemma SmugglingSection(test: StableTest, line: Line)
    requires Smuggles(test, line)
    ensures Flat(Section([test])) == SmuggledFlat(test, line)
  {
    OneTestSection(test);
    OneTestTopReadsBack(test);
    FlatAppend(OneTestTop(test), [Bullet(test), ""]);
    BulletReadsBack(test, line);
  }

  lemma BulletReadsBack(test: StableTest, line: Line)
    requires Smuggles(test, line)
    ensures Flat([Bullet(test), ""]) == ["- [x] " + "a", line, "b" + (" → `" + test.specFile + "`"), ""]
  {
    assert [Bullet(test), ""] == [Bullet(test)] + [""];
    FlatAppend([Bullet(test)], [""]);
    FlatOfClean([""]);
    FlatOne(Bullet(test));
    SmugglingBullet(test, line);
  }

  lemma TopHidesNothing(tests: seq<StableTest>)
    ensures HidesNoHeader(SectionTop(tests))
  {
    SectionIsTopAndGroups(tests);
    SectionHasNoLandmark(tests);
    HidesInFront(SectionTop(tests), Groups(tests, KeysOf(tests, ModuleOf)));
  }

  lemma HidesInFront(top: seq<Line>, rest: seq<Line>)
    requires HidesNoHeader(top + rest)
    ensures HidesNoHeader(top)
  {
    assert forall i | 0 <= i < |top| :: (top + rest)[i] == top[i];
  }

  lemma HeadingAndBulletPlain(key: string)
    ensures !IsPhase1("#### " + key + "/") && !IsPhase1("- [x] " + "a")
  {
    PlainLine("#### " + key + "/");
    PlainLine("- [x] " + "a");
  }

  /** Above the smuggled line nothing reads as the Phase 1 header, and the line before it is a bullet. */
  lemma SmuggledAt(test: StableTest, line: Line) returns (k: nat)
    requires Smuggles(test, line)
    ensures var flat := SmuggledFlat(test, line);
            && 1 <= k < |flat| - 1 && flat[k] == "- [x] " + "a" && flat[k + 1] == line
            && forall i | 1 <= i <= k :: !IsPhase1(flat[i])
  {
    TopHidesNothing([test]);
    HeadingAndBulletPlain(test.modulePath);
    k := |SectionTop([test])| + 1;
    BelowTop(SectionTop([test]), "#### " + test.modulePath + "/", "- [x] " + "a", line, "b" + (" → `" + test.specFile + "`"));
  }

  lemma BelowTop(top: seq<Line>, heading: Line, bullet: Line, line: Line, last: Line)
    requires top != [] && HidesNoHeader(top) && !IsPhase1(heading) && !IsPhase1(bullet)
    ensures var flat, k := (top + [heading]) + [bullet, line, last, ""], |top| + 1;
            flat[k] == bullet && flat[k + 1] == line && forall i | 1 <= i <= k :: !IsPhase1(flat[i])
  {
    var flat := (top + [heading]) + [bullet, line, last, ""];
    assert forall i | 0 <= i < |top| :: flat[i] == top[i];
  }

  lemma BulletIsNoLandmark()
    ensures !IsBlank("- [x] " + "a") && !IsSeparator("- [x] " + "a")
  {
    TrimOfTrimmed("- [x] " + "a");
  }

  /** The section of a document whose Phase 1 header follows a bullet directly has no separator. */
  lemma NoSeparatorAbove(above: seq<Line>, section: seq<Line>, below: seq<Line>, k: nat)
    requires (forall l <- above :: !IsPhase0(l)) && section != [] && IsPhase0(section[0])
    requires 1 <= k < |section| - 1 && IsPhase1(section[k + 1]) && forall i | 1 <= i <= k :: !IsPhase1(section[i])
    requires !IsBlank(section[k]) && !IsSeparator(section[k])
    ensures SectionAt(above + section + below) == Err(SeparatorMissing)
  {
    var lines, p0 := above + section + below, |above|;
    Phase0Below(above, section, below);
    FirstPhase1(above, section, below, k);
    assert lines[p0 + k] == section[k];
    NoSeparatorAt(lines, p0, p0 + k);
  }

  lemma Phase0Below(above: seq<Line>, section: seq<Line>, below: seq<Line>)
    requires (forall l <- above :: !IsPhase0(l)) && section != [] && IsPhase0(section[0])
    ensures var lines := above + section + below; FindIn(lines, IsPhase0, 0, |lines|) == Some(|above|)
  {
    var lines := above + section + below;
    assert forall i | 0 <= i < |above| :: lines[i] == above[i];
    assert lines[|above|] == section[0];
    FindInIs(lines, IsPhase0, 0, |lines|, |above|);
  }

  lemma FirstPhase1(above: seq<Line>, section: seq<Line>, below: seq<Line>, k: nat)
    requires 1 <= k < |section| - 1 && IsPhase1(section[k + 1]) && forall i | 1 <= i <= k :: !IsPhase1(section[i])
    ensures var lines := above + section + below;
            FindIn(lines, IsPhase1, |above| + 1, |lines|) == Some(|above| + k + 1)
  {
    var lines, p0 := above + section + below, |above|;
    assert lines[p0 + k + 1] == section[k + 1];
    forall i | p0 + 1 <= i < p0 + k + 1 ensures !IsPhase1(lines[i]) { assert lines[i] == section[i - p0]; }
    FindInIs(lines, IsPhase1, p0 + 1, |lines|, p0 + k + 1);
  }

  lemma NoSeparatorAt(lines: seq<Line>, p0: nat, at: nat)
    requires p0 < at < |lines| - 1 && !IsBlank(lines[at]) && !IsSeparator(lines[at])
    requires FindIn(lines, IsPhase0, 0, |lines|) == Some(p0) && FindIn(lines, IsPhase1, p0 + 1, |lines|) == Some(at + 1)
    ensures SectionAt(lines) == Err(SeparatorMissing)
  {
    HeadersFound(lines, p0, at + 1);
    assert WalkBack(lines, p0, at) == at;
  }

  /** A title that brings in the Phase 1 header on a line of its own: the second run finds no separator and stops. */
  lemma SmuggledHeader(original: string, test: StableTest, written: string, noted: seq<Line>, p0: nat, sep: nat, n: nat)
    requires Smuggles(test, PHASE_1_HEADER) && RefreshText(original, [test]) == Ok(written)
    requires ReplaceNote(LinesOf(original), NOTE_LINES) == Ok(noted) && SectionAt(noted) == Ok((p0, sep))
    requires NoteAt(noted) == Ok(n) && n < p0
    ensures RefreshText(written, [test]) == Err(SeparatorMissing)
  {
    var flat := Flat(Section([test]));
    NoteIsNoteBlock();
    SectionReadsBack([test]);
    SmugglingSection(test, PHASE_1_HEADER);
    var k := SmuggledAt(test, PHASE_1_HEADER);
    BulletIsNoLandmark();
    HeaderTrims();
    WrittenReadsBack(original, [test], written, noted, p0, sep);
    var p1 := FirstRun(LinesOf(original), NOTE_LINES, flat, noted, p0, sep);
    NoSeparatorAbove(noted[..p0], flat, noted[sep..], k);
    NoteStaysAbove(noted, p0, sep, flat, n);
    RefreshIs(LinesOf(written), NOTE_LINES, Section([test]), LinesOf(written));
  }

  /** A Note above the section is where a second run finds it, and as it writes it. */
  lemma NoteStaysAbove(noted: seq<Line>, p0: nat, sep: nat, section: seq<Line>, n: nat)
    requires p0 < sep < |noted| && NoteAt(noted) == Ok(n) && n < p0
    requires var out := noted[..p0] + section + noted[sep..];
             NoteAt(out).Ok? && NoteAt(out).value < p0 ==> StandsAt(out, NoteAt(out).value, NOTE_LINES)
    ensures ReplaceNote(noted[..p0] + section + noted[sep..], NOTE_LINES) == Ok(noted[..p0] + section + noted[sep..])
  {
    var out := noted[..p0] + section + noted[sep..];
    var c, m := NoteAtParts(noted);
    assert forall i | 0 <= i < p0 :: out[i] == noted[i];
    NoteAtIs(out, c, n);
    NoteIsNoteBlock();
    NoteFixed(out, NOTE_LINES, n);
  }
}
