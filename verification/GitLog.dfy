/** The `git log --raw` listing: the parser, and the printer it has to invert. */
module GitLog {
  import opened Texts
  import opened Sequences
  import opened HistoryWalk

  const RECORD_SEP: char := '\U{001E}'
  const FIELD_SEP: char := '\U{001F}'

  /* ---- the parser ---- */

  predicate NonEmpty(s: string) { s != [] }

  predicate AllZeros(s: string) { s != [] && forall c <- s :: c == '0' }

  /** The post-image blob a raw line names, unless it is not a raw line or the file was deleted. */
  function BlobOfLine(line: string): Option<string>
  {
    if !(":" <= line) then None
    else
      var meta := Split(line, '\t')[0];
      if meta == [] then None
      else
        var parts := Filter(Split(meta[1..], ' '), NonEmpty);
        if |parts| < 5 || AllZeros(parts[3]) then None else Some(parts[3])
  }

  function FirstBlob(lines: seq<string>): Option<string>
  {
    if lines == [] then None
    else if BlobOfLine(lines[0]).Some? then BlobOfLine(lines[0]) else FirstBlob(lines[1..])
  }

  function RevisionOfRecord(record: string): Option<Revision>
  {
    if Trim(record) == [] then None
    else
      var lines := Split(record, '\n');
      var header := Split(lines[0], FIELD_SEP);
      if |header| < 3 then None
      else
        var blob := FirstBlob(lines[1..]);
        if blob.None? || blob.value == [] then None else Some(Revision(header[0], header[1], header[2], blob.value))
  }

  function RevisionsOf(records: seq<string>): seq<Revision>
  {
    if records == [] then []
    else
      var n := |records| - 1;
      var front := RevisionsOf(records[..n]);
      var last := RevisionOfRecord(records[n]);
      if last.Some? then front + [last.value] else front
  }

  method ParseGitLogRaw(stdout: string) returns (out: seq<Revision>)
    ensures out == RevisionsOf(Split(stdout, RECORD_SEP))
  {
    out := [];
    var records := Split(stdout, RECORD_SEP);
    for r := 0 to |records|
      invariant out == RevisionsOf(records[..r])
    {
      assert records[..r + 1][..r] == records[..r];
      var record := records[r];
      if Trim(record) == [] { continue; }
      var lines := Split(record, '\n');
      var header := Split(lines[0], FIELD_SEP);
      if |header| < 3 { continue; }
      var blob: Option<string> := None;
      var i := 1;
      while i < |lines|
        invariant 1 <= i <= |lines| && blob.None?
        invariant FirstBlob(lines[1..]) == FirstBlob(lines[i..])
      {
        assert lines[i..][1..] == lines[i + 1..];
        var found := BlobOfLine(lines[i]);
        if found.Some? {
          blob := found;
          break;
        }
        i := i + 1;
      }
      if blob.None? || blob.value == [] { continue; }
      out := out + [Revision(header[0], header[1], header[2], blob.value)];
    }
    assert records[..|records|] == records;
  }

  /* ---- the printer ---- */

  datatype Change = Change(srcMode: string, dstMode: string, src: string, dst: string, status: string, paths: seq<string>)

  datatype Entry = Entry(commit: string, date: string, subject: string, changes: seq<Change>)

  /** A field of a raw line: no whitespace, no separator. */
  predicate Word(s: string)
  {
    s != [] && forall c <- s :: c !in {' ', '\t', '\n', RECORD_SEP}
  }

  /** No line break and no record separator. */
  predicate Unbroken(s: string)
  {
    '\n' !in s && RECORD_SEP !in s
  }

  predicate PrintableChange(c: Change)
  {
    && Word(c.srcMode) && Word(c.dstMode) && Word(c.src) && Word(c.dst) && Word(c.status)
    && c.paths != [] && forall p <- c.paths :: Unbroken(p)
  }

  predicate Printable(e: Entry)
  {
    && Unbroken(e.commit) && Unbroken(e.date) && Unbroken(e.subject)
    && FIELD_SEP !in e.commit && FIELD_SEP !in e.date && FIELD_SEP !in e.subject
    && (exists c <- e.commit :: !IsSpace(c))
    && forall c <- e.changes :: PrintableChange(c)
  }

  function Meta(c: Change): seq<string>
  {
    [c.srcMode, c.dstMode, c.src, c.dst, c.status]
  }

  /** A raw change line: modes, object names and status, then the path, and the new path of a rename. */
  function PrintChange(c: Change): string
  {
    ":" + Join(Meta(c), " ") + "\t" + Join(c.paths, "\t")
  }

  function PrintChanges(changes: seq<Change>): seq<string>
  {
    if changes == [] then [] else [PrintChange(changes[0])] + PrintChanges(changes[1..])
  }

  function HeaderLine(e: Entry): string
  {
    Join([e.commit, e.date, e.subject], [FIELD_SEP])
  }

  /** Header, a blank line, the raw lines, and the newline that closes the record. */
  function PrintEntry(e: Entry): string
  {
    Join([HeaderLine(e), ""] + PrintChanges(e.changes) + [""], "\n")
  }

  function PrintLog(entries: seq<Entry>): string
  {
    if entries == [] then "" else [RECORD_SEP] + PrintEntry(entries[0]) + PrintLog(entries[1..])
  }

  /** The first change that leaves content behind. */
  function KeptBlob(changes: seq<Change>): Option<string>
  {
    if changes == [] then None
    else if AllZeros(changes[0].dst) then KeptBlob(changes[1..]) else Some(changes[0].dst)
  }

  /** The revisions a log stands for: merges, empty commits and deletions leave none. */
  function RevisionsMeant(entries: seq<Entry>): seq<Revision>
  {
    if entries == [] then []
    else
      var e := entries[0];
      var blob := KeptBlob(e.changes);
      (if blob.Some? then [Revision(e.commit, e.date, e.subject, blob.value)] else []) + RevisionsMeant(entries[1..])
  }

  /* ---- parsing undoes printing ---- */

  lemma ChangeReadsBack(c: Change)
    requires PrintableChange(c)
    ensures Unbroken(PrintChange(c))
    ensures BlobOfLine(PrintChange(c)) == if AllZeros(c.dst) then None else Some(c.dst)
  {
    var meta := Join(Meta(c), " ");
    forall ch | ch in {'\t', '\n', RECORD_SEP} ensures ch !in meta {
      JoinAvoids(Meta(c), " ", ch);
    }
    JoinAvoids(c.paths, "\t", '\n');
    JoinAvoids(c.paths, "\t", RECORD_SEP);
    var line := PrintChange(c);
    assert line == (":" + meta) + ['\t'] + Join(c.paths, "\t");
    SplitHead(":" + meta, '\t', Join(c.paths, "\t"));
    assert (":" + meta)[1..] == meta;
    SplitJoin(Meta(c), ' ');
    FilterAll(Meta(c), NonEmpty);
  }

  lemma {:induction false} ChangesReadBack(changes: seq<Change>)
    requires forall c <- changes :: PrintableChange(c)
    ensures forall l <- PrintChanges(changes) :: Unbroken(l)
    ensures FirstBlob([""] + PrintChanges(changes) + [""]) == KeptBlob(changes)
    ensures FirstBlob(PrintChanges(changes) + [""]) == KeptBlob(changes)
  {
    var lines := PrintChanges(changes) + [""];
    assert FirstBlob([""]) == None by { assert [""][1..] == []; }
    if changes == [] {
      assert lines == [""];
    } else {
      assert changes[0] in changes;
      ChangeReadsBack(changes[0]);
      ChangesReadBack(changes[1..]);
      assert lines[0] == PrintChange(changes[0]) && lines[1..] == PrintChanges(changes[1..]) + [""];
    }
    assert ([""] + PrintChanges(changes) + [""])[1..] == lines;
  }

  lemma {:induction false} NotBlank(a: string, s: string, b: string)
    requires exists c <- s :: !IsSpace(c)
    ensures Trim(a + s + b) != []
  {
    var whole := a + s + b;
    var lead, trail := TrimDecomposes(whole);
    var c :| c in s && !IsSpace(c);
    assert c in whole && (c in lead || c in Trim(whole) || c in trail);
  }

  function LinesOf(e: Entry): seq<string>
  {
    [HeaderLine(e), ""] + PrintChanges(e.changes) + [""]
  }

  lemma HeaderReadsBack(e: Entry)
    requires Printable(e)
    ensures Unbroken(HeaderLine(e)) && Split(HeaderLine(e), FIELD_SEP) == [e.commit, e.date, e.subject]
  {
    var fields := [e.commit, e.date, e.subject];
    JoinAvoids(fields, [FIELD_SEP], '\n');
    JoinAvoids(fields, [FIELD_SEP], RECORD_SEP);
    SplitJoin(fields, FIELD_SEP);
  }

  lemma LinesReadBack(e: Entry)
    requires Printable(e)
    ensures RECORD_SEP !in PrintEntry(e) && Split(PrintEntry(e), '\n') == LinesOf(e)
    ensures FirstBlob(LinesOf(e)[1..]) == KeptBlob(e.changes)
  {
    HeaderReadsBack(e);
    ChangesReadBack(e.changes);
    forall l <- LinesOf(e) ensures Unbroken(l) {
      assert l == HeaderLine(e) || l == "" || l in PrintChanges(e.changes);
    }
    JoinAvoids(LinesOf(e), "\n", RECORD_SEP);
    SplitJoin(LinesOf(e), '\n');
    assert LinesOf(e)[1..] == [""] + PrintChanges(e.changes) + [""];
  }

  lemma EntryIsNotBlank(e: Entry)
    requires Printable(e)
    ensures Trim(PrintEntry(e)) != []
  {
    var fields := [e.commit, e.date, e.subject];
    var tail := [FIELD_SEP] + Join(fields[1..], [FIELD_SEP]) + "\n" + Join(LinesOf(e)[1..], "\n");
    assert PrintEntry(e) == [] + e.commit + tail;
    NotBlank([], e.commit, tail);
  }

  lemma EntryReadsBack(e: Entry)
    requires Printable(e)
    ensures RECORD_SEP !in PrintEntry(e)
    ensures var blob := KeptBlob(e.changes);
            RevisionOfRecord(PrintEntry(e)) == if blob.Some? then Some(Revision(e.commit, e.date, e.subject, blob.value)) else None
  {
    HeaderReadsBack(e);
    LinesReadBack(e);
    EntryIsNotBlank(e);
    KeptBlobIsWord(e.changes);
  }

  /** The change at `i` is the first whose object name is more than zeros. */
  ghost predicate FirstKept(changes: seq<Change>, blob: string, i: int)
  {
    && 0 <= i < |changes| && changes[i].dst == blob && (exists c <- blob :: c != '0')
    && forall j | 0 <= j < i :: forall c <- changes[j].dst :: c == '0'
  }

  /** What a log entry leaves behind: the object of its first change that is no deletion, if it has one. */
  lemma {:induction false} KeptBlobMeaning(changes: seq<Change>)
    requires forall c <- changes :: PrintableChange(c)
    ensures if KeptBlob(changes).Some? then exists i | 0 <= i < |changes| :: FirstKept(changes, KeptBlob(changes).value, i)
            else forall c <- changes :: forall d <- c.dst :: d == '0'
  {
    if changes != [] {
      assert changes[0] in changes;
      KeptBlobMeaning(changes[1..]);
      if AllZeros(changes[0].dst) {
        if KeptBlob(changes).Some? {
          var i :| 0 <= i < |changes[1..]| && FirstKept(changes[1..], KeptBlob(changes).value, i);
          assert FirstKept(changes, KeptBlob(changes).value, i + 1) by {
            assert changes[i + 1] == changes[1..][i];
            forall j | 0 <= j < i + 1 ensures forall c <- changes[j].dst :: c == '0' {
              if j > 0 { assert changes[j] == changes[1..][j - 1]; }
            }
          }
        } else {
          assert changes == [changes[0]] + changes[1..];
        }
      } else {
        assert FirstKept(changes, changes[0].dst, 0);
      }
    }
  }

  lemma {:induction false} KeptBlobIsWord(changes: seq<Change>)
    requires forall c <- changes :: PrintableChange(c)
    ensures KeptBlob(changes).Some? ==> Word(KeptBlob(changes).value)
  {
    if changes != [] {
      assert changes[0] in changes;
      KeptBlobIsWord(changes[1..]);
    }
  }

  lemma {:induction false} RevisionsOfAppend(a: seq<string>, b: seq<string>)
    ensures RevisionsOf(a + b) == RevisionsOf(a) + RevisionsOf(b)
    decreases |b|
  {
    if b == [] {
      assert a + b == a;
    } else {
      var n := |b| - 1;
      assert (a + b)[..|a| + n] == a + b[..n];
      RevisionsOfAppend(a, b[..n]);
    }
  }

  /** Parsing a printed log gives back exactly the revisions that left content, in order. */
  lemma {:induction false} LogReadsBack(entries: seq<Entry>)
    requires forall e <- entries :: Printable(e)
    ensures RevisionsOf(Split(PrintLog(entries), RECORD_SEP)) == RevisionsMeant(entries)
  {
    LogRecords(entries);
    var records := Split(PrintLog(entries), RECORD_SEP);
    assert records == [""] + records[1..];
    RevisionsOfAppend([""], records[1..]);
    assert RevisionsOf([""]) == [] by { assert [""][..0] == []; }
    RecordsReadBack(entries);
  }

  function PrintEntries(entries: seq<Entry>): seq<string>
  {
    if entries == [] then [] else [PrintEntry(entries[0])] + PrintEntries(entries[1..])
  }

  /** A log is its entries joined by the record separator, with an empty record in front. */
  lemma {:induction false} LogIsJoin(entries: seq<Entry>)
    requires entries != []
    ensures PrintLog(entries) == [RECORD_SEP] + Join(PrintEntries(entries), [RECORD_SEP])
  {
    var e, rest := PrintEntry(entries[0]), entries[1..];
    if rest == [] {
      assert PrintEntries(entries) == [e];
      assert [RECORD_SEP] + e + [] == [RECORD_SEP] + e;
    } else {
      LogIsJoin(rest);
      JoinCons(e, PrintEntries(rest), [RECORD_SEP]);
      assert PrintEntries(entries) == [e] + PrintEntries(rest);
      AppendAssoc([RECORD_SEP], e, [RECORD_SEP] + Join(PrintEntries(rest), [RECORD_SEP]));
      AppendAssoc(e, [RECORD_SEP], Join(PrintEntries(rest), [RECORD_SEP]));
    }
  }

  lemma {:induction false} EntriesAvoidSeparator(entries: seq<Entry>)
    requires forall e <- entries :: Printable(e)
    ensures forall p <- PrintEntries(entries) :: RECORD_SEP !in p
  {
    if entries != [] {
      assert entries[0] in entries;
      EntryReadsBack(entries[0]);
      EntriesAvoidSeparator(entries[1..]);
    }
  }

  lemma LogRecords(entries: seq<Entry>)
    requires forall e <- entries :: Printable(e)
    ensures Split(PrintLog(entries), RECORD_SEP) == [""] + PrintEntries(entries)
  {
    if entries != [] {
      LogIsJoin(entries);
      EntriesAvoidSeparator(entries);
      SplitJoin(PrintEntries(entries), RECORD_SEP);
      SplitHead([], RECORD_SEP, Join(PrintEntries(entries), [RECORD_SEP]));
      assert [] + [RECORD_SEP] + Join(PrintEntries(entries), [RECORD_SEP])
          == [RECORD_SEP] + Join(PrintEntries(entries), [RECORD_SEP]);
    }
  }

  lemma {:induction false} RecordsReadBack(entries: seq<Entry>)
    requires forall e <- entries :: Printable(e)
    ensures RevisionsOf(PrintEntries(entries)) == RevisionsMeant(entries)
  {
    if entries != [] {
      assert entries[0] in entries;
      EntryReadsBack(entries[0]);
      RecordsReadBack(entries[1..]);
      RevisionsOfAppend([PrintEntry(entries[0])], PrintEntries(entries[1..]));
      assert [PrintEntry(entries[0])][..0] == [];
    }
  }
}
