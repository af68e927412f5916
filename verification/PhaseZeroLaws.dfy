/** What the Phase 0 generator does when it runs again on its own output. */
module PhaseZeroLaws {
  import opened Texts
  import opened Sequences
  import opened Documents
  import opened PhaseZero
  import CS = CoverageSummary

  /* ---- the Note ---- */

  /** A Note block: its first line names it, every line is a quote. */
  ghost predicate IsNoteBlock(note: seq<Line>)
  {
    note != [] && IsNote(note[0]) && forall l <- note :: Begins(l, '>')
  }

  lemma QuoteBegins(text: string)
    ensures Begins(Quote(text), '>') && (IsNote(Quote(text)) ==> "Note:" <= text)
  {
    if IsNote(Quote(text)) {
      assert Quote(text)[2..] == text && "> Note:"[2..] == "Note:";
      assert Quote(text)[..7] == "> Note:";
      assert text[..5] == Quote(text)[2..7];
    }
  }

  lemma NoteHead(rest: string)
    ensures IsNote("> Note:" + rest) && Begins("> Note:" + rest, '>')
  {
  }

  lemma QuotesAreQuotes(texts: seq<string>)
    ensures forall l <- MapSeq(texts, Quote) :: Begins(l, '>')
  {
    forall t <- texts ensures Begins(Quote(t), '>') { QuoteBegins(t); }
  }

  lemma NoteOfQuotes(head: Line, texts: seq<string>)
    requires IsNote(head) && Begins(head, '>')
    ensures IsNoteBlock([head] + MapSeq(texts, Quote))
  {
    QuotesAreQuotes(texts);
  }

  lemma NoteIsNoteBlock()
    ensures IsNoteBlock(NOTE_LINES)
  {
    NoteHead(" `Validated [x]` counts checklist bullets," + " not `test()` calls. The");
    NoteOfQuotes(NOTE_HEAD, NOTE_TEXTS);
  }

  lemma CoverageIsNoQuote(l: Line)
    requires CS.IsCoverageHeader(l)
    ensures !IsNote(l) && Begins(l, '#')
  {
    assert l[0] == CS.COVERAGE_SUMMARY_HEADER_PREFIX[0] == '#';
  }

  lemma NoteAtParts(lines: seq<Line>) returns (c: nat, n: nat)
    requires NoteAt(lines).Ok?
    ensures n == NoteAt(lines).value && c < n < |lines| && CS.IsCoverageHeader(lines[c]) && IsNote(lines[n])
    ensures forall i | 0 <= i < c :: !CS.IsCoverageHeader(lines[i])
    ensures forall i | c <= i < n :: !IsNote(lines[i])
  {
    FindInMeaning(lines, CS.IsCoverageHeader, 0, |lines|);
    c := FindIn(lines, CS.IsCoverageHeader, 0, |lines|).value;
    FindInMeaning(lines, IsNote, c, |lines|);
    n := FindIn(lines, IsNote, c, |lines|).value;
    CoverageIsNoQuote(lines[c]);
  }

  lemma NoteAtIs(lines: seq<Line>, c: nat, n: nat)
    requires c < n < |lines| && CS.IsCoverageHeader(lines[c]) && IsNote(lines[n])
    requires forall i | 0 <= i < c :: !CS.IsCoverageHeader(lines[i])
    requires forall i | c <= i < n :: !IsNote(lines[i])
    ensures NoteAt(lines) == Ok(n)
  {
    FindInIs(lines, CS.IsCoverageHeader, 0, |lines|, c);
    FindInIs(lines, IsNote, c, |lines|, n);
  }

  lemma NoteAtUnfolds(lines: seq<Line>, c: nat)
    requires FindIn(lines, CS.IsCoverageHeader, 0, |lines|) == Some(c)
    ensures var note := FindIn(lines, IsNote, c, |lines|);
            NoteAt(lines) == if note.None? then Err(NoteMissing) else Ok(note.value)
  {
  }

  /** A document whose Note is already the block is left as it is. */
  lemma NoteStands(lines: seq<Line>, note: seq<Line>, n: nat)
    requires IsNoteBlock(note) && NoteAt(lines) == Ok(n) && n + |note| <= |lines| && lines[n..n + |note|] == note
    requires n + |note| < |lines| ==> !Begins(lines[n + |note|], '>')
    ensures ReplaceNote(lines, note) == Ok(lines)
  {
    forall i | n < i < n + |note| ensures Begins(lines[i], '>') {
      assert lines[i] == note[i - n] && note[i - n] in note;
    }
    RunEndIs(lines, n + 1, '>', n + |note|);
    assert Splice(lines, n, n + |note|, note) == lines;
  }

  lemma ReplaceNoteIs(lines: seq<Line>, note: seq<Line>, n: nat)
    requires NoteAt(lines) == Ok(n) && n < |lines|
    ensures ReplaceNote(lines, note) == Ok(Splice(lines, n, RunEnd(lines, n + 1, '>'), note))
  {
  }

  /** Replacing the Note twice is replacing it once, in any document that has one. */
  lemma NoteAgain(lines: seq<Line>, note: seq<Line>, out: seq<Line>)
    requires IsNoteBlock(note) && ReplaceNote(lines, note) == Ok(out)
    ensures ReplaceNote(out, note) == Ok(out)
  {
    var n, end := NoteReplaced(lines, note, out);
    NoteStands(out, note, n);
  }

  lemma NoteReplaced(lines: seq<Line>, note: seq<Line>, out: seq<Line>) returns (n: nat, end: nat)
    requires IsNoteBlock(note) && ReplaceNote(lines, note) == Ok(out)
    ensures NoteAt(lines) == Ok(n) && n < end <= |lines| && out == Splice(lines, n, end, note)
    ensures |out| >= n + |note| && NoteAt(out) == Ok(n) && out[n..n + |note|] == note
    ensures n + |note| < |out| ==> !Begins(out[n + |note|], '>')
  {
    var c;
    c, n := NoteAtParts(lines);
    end := RunEnd(lines, n + 1, '>');
    assert forall i | 0 <= i < n :: out[i] == lines[i];
    assert out[n] == note[0];
    NoteAtIs(out, c, n);
  }

  /* ---- the section ---- */

  lemma SectionAtParts(lines: seq<Line>) returns (p0: nat, p1: nat, sep: nat)
    requires SectionAt(lines).Ok?
    ensures SectionAt(lines) == Ok((p0, sep)) && p0 < sep < p1 < |lines|
    ensures IsPhase0(lines[p0]) && IsPhase1(lines[p1]) && IsSeparator(lines[sep])
    ensures forall i | 0 <= i < p0 :: !IsPhase0(lines[i])
    ensures forall i | p0 < i < p1 :: !IsPhase1(lines[i])
    ensures forall i | sep < i < p1 :: IsBlank(lines[i])
  {
    p0, p1 := HeadersAt(lines);
    sep := BoundsParts(lines, p0, p1);
  }

  lemma HeadersAt(lines: seq<Line>) returns (p0: nat, p1: nat)
    requires SectionAt(lines).Ok?
    ensures p0 < p1 < |lines| && IsPhase0(lines[p0]) && IsPhase1(lines[p1])
    ensures SectionAt(lines) == SectionBounds(lines, p0, p1)
    ensures forall i | 0 <= i < p0 :: !IsPhase0(lines[i])
    ensures forall i | p0 < i < p1 :: !IsPhase1(lines[i])
  {
    FindInMeaning(lines, IsPhase0, 0, |lines|);
    p0 := FindIn(lines, IsPhase0, 0, |lines|).value;
    FindInMeaning(lines, IsPhase1, p0 + 1, |lines|);
    p1 := FindIn(lines, IsPhase1, p0 + 1, |lines|).value;
  }

  lemma BoundsParts(lines: seq<Line>, p0: nat, p1: nat) returns (sep: nat)
    requires p0 < p1 < |lines| && IsPhase0(lines[p0]) && SectionBounds(lines, p0, p1).Ok?
    ensures SectionBounds(lines, p0, p1) == Ok((p0, sep)) && p0 < sep < p1 && IsSeparator(lines[sep])
    ensures forall i | sep < i < p1 :: IsBlank(lines[i])
  {
    sep := WalkBack(lines, p0, p1 - 1);
    WalkBackMeaning(lines, p0, p1 - 1);
    SeparatorIsNoHeader(lines[sep]);
  }

  lemma SeparatorIsNoHeader(l: Line)
    requires IsSeparator(l)
    ensures !IsPhase0(l) && !IsPhase1(l) && !IsBlank(l)
  {
    assert PHASE_0_HEADER[0] == '#' && PHASE_1_HEADER[0] == '#';
  }

  lemma {:induction false} WalkBackMeaning(lines: seq<Line>, floor: nat, from: nat)
    requires floor <= from < |lines|
    ensures var sep := WalkBack(lines, floor, from);
            floor <= sep <= from && (forall i | sep < i <= from :: IsBlank(lines[i])) && (sep > floor ==> !IsBlank(lines[sep]))
  {
    if from > floor && IsBlank(lines[from]) {
      WalkBackMeaning(lines, floor, from - 1);
    }
  }

  lemma SectionAtIs(lines: seq<Line>, p0: nat, p1: nat, sep: nat)
    requires p0 < sep < p1 < |lines|
    requires IsPhase0(lines[p0]) && IsPhase1(lines[p1]) && IsSeparator(lines[sep])
    requires forall i | 0 <= i < p0 :: !IsPhase0(lines[i])
    requires forall i | p0 < i < p1 :: !IsPhase1(lines[i])
    requires forall i | sep < i < p1 :: IsBlank(lines[i])
    ensures SectionAt(lines) == Ok((p0, sep))
  {
    FindInIs(lines, IsPhase0, 0, |lines|, p0);
    FindInIs(lines, IsPhase1, p0 + 1, |lines|, p1);
    HeadersFound(lines, p0, p1);
    BoundsAre(lines, p0, p1, sep);
  }

  lemma HeadersFound(lines: seq<Line>, p0: nat, p1: nat)
    requires p0 < p1 < |lines|
    requires FindIn(lines, IsPhase0, 0, |lines|) == Some(p0) && FindIn(lines, IsPhase1, p0 + 1, |lines|) == Some(p1)
    ensures SectionAt(lines) == SectionBounds(lines, p0, p1)
  {
    assert SectionAt(lines) == SectionFrom(lines, p0);
  }

  lemma BoundsAre(lines: seq<Line>, p0: nat, p1: nat, sep: nat)
    requires p0 < sep < p1 < |lines| && IsSeparator(lines[sep]) && forall i | sep < i < p1 :: IsBlank(lines[i])
    ensures SectionBounds(lines, p0, p1) == Ok((p0, sep))
  {
    WalkBackMeaning(lines, p0, p1 - 1);
    SeparatorIsNoHeader(lines[sep]);
  }

  /** No line below the first would be taken for the Phase 1 header. */
  predicate HidesNoHeader(block: seq<Line>)
  {
    forall i | 1 <= i < |block| :: !IsPhase1(block[i])
  }

  lemma ReplaceSectionIs(lines: seq<Line>, block: seq<Line>, p0: nat, sep: nat)
    requires SectionAt(lines) == Ok((p0, sep)) && p0 <= sep <= |lines|
    ensures ReplaceSection(lines, block) == Ok(Splice(lines, p0, sep, block))
  {
  }

  lemma SpliceLength(lines: seq<Line>, from: nat, to: nat, block: seq<Line>)
    requires from <= to <= |lines|
    ensures |Splice(lines, from, to, block)| == |lines| - (to - from) + |block|
  {
  }

  lemma SpliceItself(lines: seq<Line>, from: nat, block: seq<Line>)
    requires from + |block| <= |lines| && lines[from..from + |block|] == block
    ensures Splice(lines, from, from + |block|, block) == lines
  {
  }

  /** A separator, blank lines, then the Phase 1 header. */
  ghost predicate TailLaid(tail: seq<Line>, p1: nat)
  {
    && 1 <= p1 < |tail| && IsSeparator(tail[0]) && IsPhase1(tail[p1])
    && forall i | 1 <= i < p1 :: IsBlank(tail[i])
  }

  lemma TailIsNoHeader(tail: seq<Line>, p1: nat)
    requires TailLaid(tail, p1)
    ensures forall i | 0 <= i < p1 :: !IsPhase1(tail[i])
  {
    SeparatorIsNoHeader(tail[0]);
    assert PHASE_1_HEADER[0] == '#';
  }

  lemma SpliceMiddle(a: seq<Line>, b: seq<Line>, c: seq<Line>, block: seq<Line>)
    ensures Splice(a + b + c, |a|, |a| + |b|, block) == a + block + c
  {
    var lines := a + b + c;
    assert lines[..|a|] == a && lines[|a| + |b|..] == c;
  }

  lemma SpliceShifted(a: seq<Line>, b: seq<Line>, at: nat, end: nat, block: seq<Line>)
    requires at <= end <= |b|
    ensures Splice(a + b, |a| + at, |a| + end, block) == a + Splice(b, at, end, block)
  {
    assert (a + b)[..|a| + at] == a + b[..at];
    assert (a + b)[|a| + end..] == b[end..];
  }

  /** Between lines that hold no Phase 0 header and a tail, a section that hides no header is found whole. */
  lemma SectionAtOfLayout(top: seq<Line>, section: seq<Line>, tail: seq<Line>, p1: nat)
    requires (forall l <- top :: !IsPhase0(l)) && section != [] && IsPhase0(section[0])
    requires HidesNoHeader(section) && TailLaid(tail, p1)
    ensures SectionAt(top + section + tail) == Ok((|top|, |top| + |section|))
  {
    var lines := top + section + tail;
    var p0, sep := |top|, |top| + |section|;
    assert forall i | 0 <= i < p0 :: lines[i] == top[i];
    assert forall i | p0 <= i < sep :: lines[i] == section[i - p0];
    assert forall i | sep <= i <= sep + p1 :: lines[i] == tail[i - sep];
    TailIsNoHeader(tail, p1);
    SectionAtIs(lines, p0, sep + p1, sep);
  }

  /** There it is replaced whole. */
  lemma SectionOfLayout(top: seq<Line>, section: seq<Line>, tail: seq<Line>, p1: nat, block: seq<Line>)
    requires (forall l <- top :: !IsPhase0(l)) && section != [] && IsPhase0(section[0])
    requires HidesNoHeader(section) && TailLaid(tail, p1)
    ensures ReplaceSection(top + section + tail, block) == Ok(top + block + tail)
  {
    SectionAtOfLayout(top, section, tail, p1);
    ReplaceSectionIs(top + section + tail, block, |top|, |top| + |section|);
    SpliceMiddle(top, section, tail, block);
  }

  /** Where the new section and what follows it land. */
  lemma SectionLands(lines: seq<Line>, block: seq<Line>, out: seq<Line>) returns (p0: nat, sep: nat, p1: nat)
    requires block != [] && IsPhase0(block[0]) && ReplaceSection(lines, block) == Ok(out)
    ensures p0 < sep < p1 < |lines| && SectionAt(lines) == Ok((p0, sep)) && out == Splice(lines, p0, sep, block)
    ensures out[p0..p0 + |block|] == block && FindIn(out, IsPhase0, 0, |out|) == Some(p0)
    ensures HidesNoHeader(block) ==> SectionAt(out) == Ok((p0, p0 + |block|))
  {
    p0, p1, sep := SectionAtParts(lines);
    assert forall i | 0 <= i < p0 :: out[i] == lines[i];
    assert forall i | 0 <= i < |block| :: out[p0 + i] == block[i];
    FindInIs(out, IsPhase0, 0, |out|, p0);
    if HidesNoHeader(block) {
      SectionFollows(lines, block, out, p0, sep, p1);
    }
  }

  lemma SectionFollows(lines: seq<Line>, block: seq<Line>, out: seq<Line>, p0: nat, sep: nat, p1: nat)
    requires p0 < sep < p1 < |lines| && out == Splice(lines, p0, sep, block) && block != []
    requires IsPhase0(block[0]) && IsPhase1(lines[p1]) && IsSeparator(lines[sep]) && HidesNoHeader(block)
    requires forall i | 0 <= i < p0 :: !IsPhase0(lines[i])
    requires forall i | sep < i < p1 :: IsBlank(lines[i])
    ensures SectionAt(out) == Ok((p0, p0 + |block|))
  {
    assert forall i | sep <= i < |lines| :: lines[sep..][i - sep] == lines[i];
    SectionAtOfLayout(lines[..p0], block, lines[sep..], p1 - sep);
  }

  /** A hidden header makes a second run stop, or leave a longer document. */
  lemma HiddenHeaderGrows(out: seq<Line>, block: seq<Line>, p0: nat, j: nat)
    requires p0 + |block| <= |out| && out[p0..p0 + |block|] == block && FindIn(out, IsPhase0, 0, |out|) == Some(p0)
    requires 1 <= j < |block| && IsPhase1(block[j]) && SectionAt(out).Ok?
    ensures ReplaceSection(out, block).Ok? && |ReplaceSection(out, block).value| > |out|
  {
    var q0, q1, sep := SectionAtParts(out);
    FindInIs(out, IsPhase0, 0, |out|, q0);
    assert out[p0 + j] == out[p0..p0 + |block|][j];
    assert q1 <= p0 + j;
    ReplaceSectionIs(out, block, q0, sep);
    SpliceLength(out, q0, sep, block);
  }

  /**
   * Replacing the section twice is replacing it once exactly when the new section holds no
   * line that trims to the Phase 1 header; a hidden header makes the second run stop or
   * leave a longer document.
   */
  lemma SectionAgain(lines: seq<Line>, block: seq<Line>, out: seq<Line>)
    requires block != [] && IsPhase0(block[0]) && ReplaceSection(lines, block) == Ok(out)
    ensures ReplaceSection(out, block) == Ok(out) <==> HidesNoHeader(block)
  {
    var p0, sep, p1 := SectionLands(lines, block, out);
    if HidesNoHeader(block) {
      ReplaceSectionIs(out, block, p0, p0 + |block|);
      SpliceItself(out, p0, block);
    } else if SectionAt(out).Ok? {
      var j :| 1 <= j < |block| && IsPhase1(block[j]);
      HiddenHeaderGrows(out, block, p0, j);
    }
  }

  /* ---- the generated section hides no header ---- */

  lemma {:induction false} GroupsLines(tests: seq<StableTest>, keys: seq<string>)
    ensures forall l <- Groups(tests, keys) :: l == "" || "####" <= l || "- [x]" <= l
  {
    if keys != [] {
      var n := |keys| - 1;
      GroupsLines(tests, keys[..n]);
      BulletsLines(Having(tests, ModuleOf, keys[n]));
      forall l <- Group(tests, keys[n]) ensures l == "" || "####" <= l || "- [x]" <= l {
        assert l == "#### " + keys[n] + "/" || l in BulletsOf(Having(tests, ModuleOf, keys[n])) || l == "";
      }
    }
  }

  lemma {:induction false} BulletsLines(tests: seq<StableTest>)
    ensures forall l <- BulletsOf(tests) :: "- [x]" <= l
  {
    if tests != [] {
      BulletsLines(tests[..|tests| - 1]);
    }
  }

  lemma PlainLine(l: Line)
    requires PlainText(l)
    ensures !IsPhase1(l) && !IsNote(l)
  {
    if l != "" {
      TrimIsPrefix(l);
      assert PHASE_1_HEADER[0] == '#' && PHASE_1_HEADER[3] == ' ' && |PHASE_1_HEADER| > 4;
    }
  }

  lemma TrimIsPrefix(l: Line)
    requires l != [] && !IsSpace(l[0])
    ensures Trim(l) <= l
  {
    var lead, trail := TrimDecomposes(l);
    assert lead == [] by { if lead != [] { LeadIsSpace(lead, Trim(l) + trail, l); } }
    assert l == Trim(l) + trail;
  }

  lemma LeadIsSpace(lead: string, rest: string, l: string)
    requires lead != [] && Blank(lead) && l == lead + rest
    ensures l != [] && IsSpace(l[0])
  {
    assert l[0] == lead[0] && lead[0] in lead;
  }

  lemma HeaderTrims()
    ensures IsPhase0(PHASE_0_HEADER) && IsPhase1(PHASE_1_HEADER) && Trim("") == ""
  {
    TrimOfTrimmed(PHASE_0_HEADER);
    TrimOfTrimmed(PHASE_1_HEADER);
  }

  lemma IntroRest()
    ensures forall t <- INTRO_REST :: t != [] && t[0] != 'N'
  {
  }

  lemma IntroHeadPlain(total: nat, rest: string)
    ensures Decimal(total) + rest != [] && (Decimal(total) + rest)[0] != 'N'
  {
    DecimalRoundTrip(total);
    assert Decimal(total)[0] in Decimal(total);
  }

  lemma IntroTextsPlain(total: nat, specs: nat)
    ensures forall t <- IntroTexts(total, specs) :: t != [] && t[0] != 'N'
  {
    IntroRest();
    IntroHeadPlain(total, INTRO_TESTS + Decimal(specs) + INTRO_SPECS);
    assert IntroHead(total, specs) == Decimal(total) + (INTRO_TESTS + Decimal(specs) + INTRO_SPECS);
  }

  /** The lines the section is made of, after its first. */
  predicate PlainText(l: Line)
  {
    l == "" || "####" <= l || "- [x]" <= l || (Begins(l, '>') && !IsNote(l))
  }

  lemma IntroLines(texts: seq<string>)
    requires forall t <- texts :: t != [] && t[0] != 'N'
    ensures forall l <- MapSeq(texts, Quote) :: PlainText(l)
  {
    forall t <- texts ensures PlainText(Quote(t)) { QuoteBegins(t); }
  }

  lemma BodyIsPlain(total: nat, specs: nat, groups: seq<Line>)
    requires forall l <- groups :: PlainText(l)
    ensures forall l <- Body(total, specs, groups) :: PlainText(l)
  {
    IntroTextsPlain(total, specs);
    IntroLines(IntroTexts(total, specs));
  }

  /** Line by line, the generated section never hides a header, whatever the tests are. */
  lemma SectionHidesNothing(tests: seq<StableTest>)
    ensures Section(tests) != [] && IsPhase0(Section(tests)[0]) && HidesNoHeader(Section(tests))
    ensures forall l <- Section(tests) :: !IsNote(l)
  {
    var specs := |set t <- tests :: t.relativePath|;
    var groups := Groups(tests, KeysOf(tests, ModuleOf));
    GroupsLines(tests, KeysOf(tests, ModuleOf));
    BodyIsPlain(|tests|, specs, groups);
    HeaderTrims();
    PlainBlock(PHASE_0_HEADER, Body(|tests|, specs, groups));
  }

  lemma PlainBlock(head: Line, rest: seq<Line>)
    requires IsPhase0(head) && head == PHASE_0_HEADER && forall l <- rest :: PlainText(l)
    ensures HidesNoHeader([head] + rest)
    ensures forall l <- [head] + rest :: !IsNote(l)
  {
    forall l <- rest ensures !IsPhase1(l) && !IsNote(l) { PlainLine(l); }
    assert head[0] == '#';
    assert forall i | 1 <= i < |[head] + rest| :: ([head] + rest)[i] == rest[i - 1];
  }

  /* ---- titles with a newline ---- */

  /** The lines a block reads back as once it has been written to a file. */
  function Flat(block: seq<Line>): seq<Line>
  {
    Split(Join(block, "\n"), '\n')
  }

  lemma {:induction false} JoinAppend(a: seq<string>, b: seq<string>, sep: string)
    requires a != [] && b != []
    ensures Join(a + b, sep) == Join(a, sep) + sep + Join(b, sep)
  {
    if |a| == 1 {
      assert (a + b)[1..] == b;
    } else {
      JoinAppend(a[1..], b, sep);
      assert (a + b)[1..] == a[1..] + b;
      assert Join(a + b, sep) == a[0] + sep + (Join(a[1..], sep) + sep + Join(b, sep));
    }
  }

  lemma JoinSame(a: seq<string>, x: seq<string>, y: seq<string>, b: seq<string>, sep: string)
    requires x != [] && y != [] && Join(x, sep) == Join(y, sep)
    ensures Join(a + x + b, sep) == Join(a + y + b, sep)
  {
    JoinBeside(a, x, sep);
    JoinBeside(a, y, sep);
    if b == [] {
      assert a + x + b == a + x && a + y + b == a + y;
    } else {
      JoinAppend(a + x, b, sep);
      JoinAppend(a + y, b, sep);
    }
  }

  lemma JoinBeside(a: seq<string>, x: seq<string>, sep: string)
    requires x != []
    ensures Join(a + x, sep) == if a == [] then Join(x, sep) else Join(a, sep) + sep + Join(x, sep)
  {
    if a == [] { assert a + x == x; } else { JoinAppend(a, x, sep); }
  }

  lemma FlatJoins(block: seq<Line>)
    requires block != []
    ensures Flat(block) != [] && Join(Flat(block), "\n") == Join(block, "\n") && forall l <- Flat(block) :: '\n' !in l
  {
    JoinSplit(Join(block, "\n"), '\n');
    assert ['\n'] == "\n";
  }

  /** Reading a written document back: only the spliced block can come apart. */
  lemma FlatSplice(lines: seq<Line>, from: nat, to: nat, block: seq<Line>)
    requires from <= to <= |lines| && CleanLines(lines) && block != []
    ensures Flat(Splice(lines, from, to, block)) == Splice(lines, from, to, Flat(block))
  {
    var flat := Splice(lines, from, to, Flat(block));
    FlatJoins(block);
    JoinSame(lines[..from], block, Flat(block), lines[to..], "\n");
    forall l <- flat ensures '\n' !in l {
      assert l in lines[..from] || l in Flat(block) || l in lines[to..];
    }
    SplitJoin(flat, '\n');
  }
}
