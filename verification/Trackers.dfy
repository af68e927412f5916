/** Which open issue owns which removal, and which names which spec. */
module Trackers {
  import opened Texts
  import opened Sequences
  import opened Declarations
  import SO = StableOrphans
  import GJ = GateJustifications

  const ORPHAN_ISSUE_TITLE := "[@stable] absences nobody is holding" + " — orphaned removals and expired justifications"
  const OWNERSHIP_ISSUE_TITLE := "[@stable] specs no scheduled lane runs" + " and no open issue owns"

  datatype RawIssue = RawIssue(number: nat, title: string, body: Option<string>, url: string, isPullRequest: bool, repo: Option<string>)

  function Haystack(i: RawIssue): string
  {
    i.title + "\n" + if i.body.Some? then i.body.value else ""
  }

  /* ---- does an issue name a file? ---- */

  /** The file name of a path: what stands behind its last slash. */
  function Basename(path: string): string
  {
    var pieces := Split(path, '/');
    pieces[|pieces| - 1]
  }

  /** A character a file name could continue through backwards. */
  predicate ContinuesName(c: char)
  {
    'a' <= c <= 'z' || 'A' <= c <= 'Z' || IsDigit(c) || c == '_' || c == '.' || c == '-'
  }

  /** `base` occurs at the start of the text or after a character no file name continues through. */
  predicate NamedAt(text: string, base: string, i: int)
  {
    OccursAt(text, base, i) && (i == 0 || !ContinuesName(text[i - 1]))
  }

  predicate NamesBase(text: string, base: string)
  {
    exists i | 0 <= i <= |text| :: NamedAt(text, base, i)
  }

  predicate NamesFile(text: string, path: string)
  {
    Contains(text, path) || NamesBase(text, Basename(path))
  }

  lemma {:induction false} BasenameEnds(path: string)
    ensures '/' in path ==> |Basename(path)| < |path| && path[|path| - |Basename(path)| - 1] == '/'
                            && path[|path| - |Basename(path)|..] == Basename(path)
    ensures '/' !in path ==> Basename(path) == path
  {
    if '/' !in path {
      SplitPiece(path, '/');
    } else {
      var rest := Split(path[1..], '/');
      assert path == [path[0]] + path[1..];
      BasenameEnds(path[1..]);
      if '/' in path[1..] {
        MoreThanOnePiece(path[1..]);
      } else {
        SplitPiece(path[1..], '/');
        assert Basename(path) == path[1..];
      }
    }
  }

  lemma {:induction false} MoreThanOnePiece(s: string)
    requires '/' in s
    ensures |Split(s, '/')| >= 2
  {
    if s[0] != '/' {
      assert s == [s[0]] + s[1..];
      MoreThanOnePiece(s[1..]);
    }
  }

  /**
   * A path with a directory is named exactly when its base name stands where a file name
   * begins; a path without one is matched as a bare substring.
   */
  lemma NamesFileIff(text: string, path: string)
    ensures '/' in path ==> (NamesFile(text, path) <==> NamesBase(text, Basename(path)))
    ensures '/' !in path ==> (NamesFile(text, path) <==> Contains(text, path))
  {
    BasenameEnds(path);
    var base := Basename(path);
    if '/' in path && Contains(text, path) {
      var i :| 0 <= i <= |text| && OccursAt(text, path, i);
      PathHoldsBase(text, path, base, i);
    }
    if '/' !in path && NamesBase(text, base) {
      var i :| 0 <= i <= |text| && NamedAt(text, base, i);
      assert OccursAt(text, path, i);
    }
  }

  lemma PathHoldsBase(text: string, path: string, base: string, i: int)
    requires OccursAt(text, path, i)
    requires |base| < |path| && path[|path| - |base| - 1] == '/' && path[|path| - |base|..] == base
    ensures NamesBase(text, base)
  {
    var j := i + |path| - |base|;
    assert text[i..i + |path|][|path| - |base|..] == text[j..i + |path|];
    assert text[j - 1] == text[i..i + |path|][|path| - |base| - 1] == '/';
    assert NamedAt(text, base, j);
  }

  /** Why the boundary: an issue about a longer file name does not own the shorter one. */
  lemma LongerNameOwnsNothing(before: string, c: char, base: string, path: string)
    requires '/' in path && Basename(path) == base && ContinuesName(c)
    requires base != [] && !Contains(before + [c] + base[..|base| - 1], base)
    ensures !NamesFile(before + [c] + base, path)
  {
    var text := before + [c] + base;
    NamesFileIff(text, path);
    forall i | 0 <= i <= |text| ensures !NamedAt(text, base, i) {
      if OccursAt(text, base, i) && i != |before| + 1 {
        var cut := before + [c] + base[..|base| - 1];
        assert i <= |before|;
        assert cut == text[..|text| - 1];
        assert cut[i..i + |base|] == text[i..i + |base|];
        assert OccursAt(cut, base, i);
      } else {
        assert text[|before|] == c;
      }
    }
  }

  /* ---- the indexes ---- */

  predicate IsReport(i: RawIssue)
  {
    i.title == ORPHAN_ISSUE_TITLE || i.title == OWNERSHIP_ISSUE_TITLE
  }

  predicate NotReport(i: RawIssue)
  {
    !IsReport(i)
  }

  function WithoutReportIssues(issues: seq<RawIssue>): seq<RawIssue>
  {
    Filter(issues, NotReport)
  }

  /** Neither a pull request nor this check's own report. */
  function IsReal(ownTitle: string): RawIssue -> bool
  {
    (i: RawIssue) => !i.isPullRequest && i.title != ownTitle
  }

  function TrackerOf(test: DeclaredTest): RawIssue -> Option<SO.TrackerRef>
  {
    (i: RawIssue) =>
      if NamesFile(Haystack(i), test.relativePath)
      then Some(SO.TrackerRef(i.number, i.title, i.url, if Contains(Haystack(i), test.title) then SO.OnTitle else SO.OnPath, i.repo))
      else None
  }

  /** The issues that own one removal. */
  function TrackersOf(issues: seq<RawIssue>, test: DeclaredTest, ownTitle: string): seq<SO.TrackerRef>
  {
    FilterMap(Filter(issues, IsReal(ownTitle)), TrackerOf(test))
  }

  function Entry(issues: seq<RawIssue>, ownTitle: string, test: DeclaredTest, key: string): Option<seq<SO.TrackerRef>>
  {
    if SO.KeyOf(test) == key && TrackersOf(issues, test, ownTitle) != [] then Some(TrackersOf(issues, test, ownTitle)) else None
  }

  /** The entry a map filled in candidate order ends up with. */
  function EntryAt(issues: seq<RawIssue>, candidates: seq<DeclaredTest>, ownTitle: string, key: string): Option<seq<SO.TrackerRef>>
  {
    if candidates == [] then None
    else
      var n := |candidates| - 1;
      var last := Entry(issues, ownTitle, candidates[n], key);
      if last.Some? then last else EntryAt(issues, candidates[..n], ownTitle, key)
  }

  ghost predicate IsIndexOf(index: map<string, seq<SO.TrackerRef>>, issues: seq<RawIssue>, candidates: seq<DeclaredTest>, ownTitle: string)
  {
    && (forall key :: key in index <==> EntryAt(issues, candidates, ownTitle, key).Some?)
    && forall key <- index :: Some(index[key]) == EntryAt(issues, candidates, ownTitle, key)
  }

  method CollectTrackers(actual: seq<RawIssue>, test: DeclaredTest) returns (refs: seq<SO.TrackerRef>)
    ensures refs == FilterMap(actual, TrackerOf(test))
  {
    refs := [];
    for i := 0 to |actual|
      invariant refs == FilterMap(actual[..i], TrackerOf(test))
    {
      FilterMapSnoc(actual, i, TrackerOf(test));
      var haystack := Haystack(actual[i]);
      if !NamesFile(haystack, test.relativePath) { continue; }
      refs := refs + [SO.TrackerRef(actual[i].number, actual[i].title, actual[i].url,
                                    if Contains(haystack, test.title) then SO.OnTitle else SO.OnPath, actual[i].repo)];
    }
    TakeAll(actual);
  }

  method BuildTrackerIndex(issues: seq<RawIssue>, candidates: seq<DeclaredTest>, ownTitle: string)
    returns (index: map<string, seq<SO.TrackerRef>>)
    ensures IsIndexOf(index, issues, candidates, ownTitle)
  {
    index := map[];
    var actual := Filter(issues, IsReal(ownTitle));
    for i := 0 to |candidates|
      invariant IsIndexOf(index, issues, candidates[..i], ownTitle)
    {
      assert candidates[..i + 1][..i] == candidates[..i];
      var refs := CollectTrackers(actual, candidates[i]);
      if |refs| > 0 {
        index := index[SO.KeyOf(candidates[i]) := refs];
      }
    }
    TakeAll(candidates);
  }

  function TrackedByOf(spec: string): RawIssue -> Option<GJ.TrackedBy>
  {
    (i: RawIssue) => if NamesFile(Haystack(i), spec) then Some(GJ.TrackedBy(i.number, i.url, i.repo)) else None
  }

  function SpecTrackersOf(issues: seq<RawIssue>, spec: string, ownTitle: string): seq<GJ.TrackedBy>
  {
    FilterMap(Filter(issues, IsReal(ownTitle)), TrackedByOf(spec))
  }

  ghost predicate IsSpecIndexOf(index: map<string, seq<GJ.TrackedBy>>, issues: seq<RawIssue>, specs: seq<string>, ownTitle: string)
  {
    && index.Keys == (set s | s in specs && SpecTrackersOf(issues, s, ownTitle) != [])
    && forall s <- index :: index[s] == SpecTrackersOf(issues, s, ownTitle)
  }

  method BuildSpecTrackerIndex(issues: seq<RawIssue>, specs: seq<string>, ownTitle: string)
    returns (index: map<string, seq<GJ.TrackedBy>>)
    ensures IsSpecIndexOf(index, issues, specs, ownTitle)
  {
    index := map[];
    var actual := Filter(issues, IsReal(ownTitle));
    for k := 0 to |specs|
      invariant IsSpecIndexOf(index, issues, specs[..k], ownTitle)
    {
      TakeNext(specs, k);
      var refs := CollectSpecTrackers(actual, specs[k]);
      if |refs| > 0 { index := index[specs[k] := refs]; }
    }
    TakeAll(specs);
  }

  method CollectSpecTrackers(actual: seq<RawIssue>, spec: string) returns (refs: seq<GJ.TrackedBy>)
    ensures refs == FilterMap(actual, TrackedByOf(spec))
  {
    refs := [];
    for i := 0 to |actual|
      invariant refs == FilterMap(actual[..i], TrackedByOf(spec))
    {
      FilterMapSnoc(actual, i, TrackedByOf(spec));
      if !NamesFile(Haystack(actual[i]), spec) { continue; }
      refs := refs + [GJ.TrackedBy(actual[i].number, actual[i].url, actual[i].repo)];
    }
    TakeAll(actual);
  }

  /* ---- what an index says ---- */

  lemma {:induction false} EntryOfCandidate(issues: seq<RawIssue>, candidates: seq<DeclaredTest>, ownTitle: string, test: DeclaredTest)
    requires test in candidates && forall c <- candidates :: '\0' !in c.relativePath
    ensures EntryAt(issues, candidates, ownTitle, SO.KeyOf(test))
            == if TrackersOf(issues, test, ownTitle) != [] then Some(TrackersOf(issues, test, ownTitle)) else None
  {
    var n := |candidates| - 1;
    var last := candidates[n];
    assert candidates == candidates[..n] + [last];
    if SO.KeyOf(last) == SO.KeyOf(test) {
      HistoryKeyInjective(last.relativePath, last.title, test.relativePath, test.title);
      SameNames(issues, last, test, ownTitle);
      if TrackersOf(issues, test, ownTitle) == [] { NoEntry(issues, candidates, ownTitle, test); }
    } else {
      EntryOfCandidate(issues, candidates[..n], ownTitle, test);
    }
  }

  lemma SameNames(issues: seq<RawIssue>, a: DeclaredTest, b: DeclaredTest, ownTitle: string)
    requires a.relativePath == b.relativePath && a.title == b.title
    ensures TrackersOf(issues, a, ownTitle) == TrackersOf(issues, b, ownTitle)
  {
    FilterMapAgrees(Filter(issues, IsReal(ownTitle)), TrackerOf(a), TrackerOf(b));
  }

  lemma {:induction false} NoEntry(issues: seq<RawIssue>, candidates: seq<DeclaredTest>, ownTitle: string, test: DeclaredTest)
    requires TrackersOf(issues, test, ownTitle) == [] && '\0' !in test.relativePath
    requires forall c <- candidates :: '\0' !in c.relativePath
    ensures EntryAt(issues, candidates, ownTitle, SO.KeyOf(test)) == None
  {
    if candidates != [] {
      var n := |candidates| - 1;
      NoEntry(issues, candidates[..n], ownTitle, test);
      if SO.KeyOf(candidates[n]) == SO.KeyOf(test) {
        HistoryKeyInjective(candidates[n].relativePath, candidates[n].title, test.relativePath, test.title);
        SameNames(issues, candidates[n], test, ownTitle);
      }
    }
  }

  lemma {:induction false} FilterMapNonEmpty<T(!new), U>(xs: seq<T>, f: T -> Option<U>)
    ensures FilterMap(xs, f) != [] <==> exists x <- xs :: f(x).Some?
  {
    if xs != [] {
      var n := |xs| - 1;
      FilterMapNonEmpty(xs[..n], f);
      assert xs == xs[..n] + [xs[n]];
    }
  }

  /**
   * A candidate has trackers exactly when some open issue — no pull request, not the check's
   * own report — names its file.
   */
  lemma OwnedIff(index: map<string, seq<SO.TrackerRef>>, issues: seq<RawIssue>, candidates: seq<DeclaredTest>,
                 ownTitle: string, test: DeclaredTest)
    requires IsIndexOf(index, issues, candidates, ownTitle)
    requires test in candidates && forall c <- candidates :: '\0' !in c.relativePath
    ensures SO.KeyOf(test) in index
            <==> exists i <- issues :: IsReal(ownTitle)(i) && NamesFile(Haystack(i), test.relativePath)
  {
    EntryOfCandidate(issues, candidates, ownTitle, test);
    FilterMapNonEmpty(Filter(issues, IsReal(ownTitle)), TrackerOf(test));
    FilterMembers(issues, IsReal(ownTitle));
  }

  /** The index as one value. */
  function TrackerIndex(issues: seq<RawIssue>, candidates: seq<DeclaredTest>, ownTitle: string): map<string, seq<SO.TrackerRef>>
  {
    var keys := set c <- candidates :: SO.KeyOf(c);
    map key | key in keys && EntryAt(issues, candidates, ownTitle, key).Some? :: EntryAt(issues, candidates, ownTitle, key).value
  }

  lemma {:induction false} EntriesAreKeys(issues: seq<RawIssue>, candidates: seq<DeclaredTest>, ownTitle: string, key: string)
    requires EntryAt(issues, candidates, ownTitle, key).Some?
    ensures exists c <- candidates :: SO.KeyOf(c) == key
  {
    var n := |candidates| - 1;
    assert candidates == candidates[..n] + [candidates[n]];
    if Entry(issues, ownTitle, candidates[n], key).None? {
      EntriesAreKeys(issues, candidates[..n], ownTitle, key);
    }
  }

  /** What the loop builds is that value. */
  lemma IndexIs(index: map<string, seq<SO.TrackerRef>>, issues: seq<RawIssue>, candidates: seq<DeclaredTest>, ownTitle: string)
    requires IsIndexOf(index, issues, candidates, ownTitle)
    ensures index == TrackerIndex(issues, candidates, ownTitle)
  {
    forall key | EntryAt(issues, candidates, ownTitle, key).Some? ensures exists c <- candidates :: SO.KeyOf(c) == key {
      EntriesAreKeys(issues, candidates, ownTitle, key);
    }
  }

  function SpecTrackerIndex(issues: seq<RawIssue>, specs: seq<string>, ownTitle: string): map<string, seq<GJ.TrackedBy>>
  {
    map s | s in specs && SpecTrackersOf(issues, s, ownTitle) != [] :: SpecTrackersOf(issues, s, ownTitle)
  }

  lemma SpecIndexIs(index: map<string, seq<GJ.TrackedBy>>, issues: seq<RawIssue>, specs: seq<string>, ownTitle: string)
    requires IsSpecIndexOf(index, issues, specs, ownTitle)
    ensures index == SpecTrackerIndex(issues, specs, ownTitle)
  {
    assert index.Keys == SpecTrackerIndex(issues, specs, ownTitle).Keys;
  }

  /** What a tracker beside a removal says of its issue: a title match is told from a mere path. */
  predicate Describes(x: SO.TrackerRef, i: RawIssue, test: DeclaredTest)
  {
    && x.number == i.number && x.title == i.title && x.url == i.url && x.repo == i.repo
    && (x.matchedOn == SO.OnTitle <==> Contains(Haystack(i), test.title))
  }

  lemma MappedFrom<T(!new), U>(xs: seq<T>, f: T -> Option<U>)
    ensures forall y <- FilterMap(xs, f) :: exists x <- xs :: f(x) == Some(y)
    ensures forall x <- xs :: f(x).Some? ==> f(x).value in FilterMap(xs, f)
  {
    forall y ensures y in FilterMap(xs, f) <==> exists x <- xs :: f(x) == Some(y) {
      FilterMapMembers(xs, f, y);
    }
  }

  /** The trackers of a candidate are exactly the open issues that name its file, each described as it is. */
  lemma TrackersSay(index: map<string, seq<SO.TrackerRef>>, issues: seq<RawIssue>, candidates: seq<DeclaredTest>,
                    ownTitle: string, test: DeclaredTest)
    requires IsIndexOf(index, issues, candidates, ownTitle)
    requires test in candidates && forall c <- candidates :: '\0' !in c.relativePath
    ensures SO.KeyOf(test) in index ==> forall x <- index[SO.KeyOf(test)] ::
              exists i <- issues :: IsReal(ownTitle)(i) && NamesFile(Haystack(i), test.relativePath) && Describes(x, i, test)
    ensures forall i <- issues | IsReal(ownTitle)(i) && NamesFile(Haystack(i), test.relativePath) ::
              SO.KeyOf(test) in index && exists x <- index[SO.KeyOf(test)] :: Describes(x, i, test)
  {
    EntryOfCandidate(issues, candidates, ownTitle, test);
    FilterMembers(issues, IsReal(ownTitle));
    MappedFrom(Filter(issues, IsReal(ownTitle)), TrackerOf(test));
    forall i <- issues | IsReal(ownTitle)(i) && NamesFile(Haystack(i), test.relativePath)
      ensures SO.KeyOf(test) in index && exists x <- index[SO.KeyOf(test)] :: Describes(x, i, test)
    {
      assert TrackerOf(test)(i).Some? && TrackerOf(test)(i).value in TrackersOf(issues, test, ownTitle);
    }
  }

  /** Some open issue that is no pull request and no report names the spec, and is described as it is. */
  predicate OwnsSpec(x: GJ.TrackedBy, issues: seq<RawIssue>, ownTitle: string, spec: string)
  {
    exists i <- issues :: !i.isPullRequest && i.title != ownTitle && NamesFile(Haystack(i), spec)
                          && x == GJ.TrackedBy(i.number, i.url, i.repo)
  }

  /** The same for a spec: the issues that name it, with their numbers and repositories. */
  lemma SpecTrackersSay(index: map<string, seq<GJ.TrackedBy>>, issues: seq<RawIssue>, specs: seq<string>, ownTitle: string, spec: string)
    requires IsSpecIndexOf(index, issues, specs, ownTitle) && spec in specs
    ensures forall x: GJ.TrackedBy :: (spec in index && x in index[spec] <==> OwnsSpec(x, issues, ownTitle, spec))
  {
    FilterMembers(issues, IsReal(ownTitle));
    MappedFrom(Filter(issues, IsReal(ownTitle)), TrackedByOf(spec));
    forall x: GJ.TrackedBy ensures x in SpecTrackersOf(issues, spec, ownTitle) <==> OwnsSpec(x, issues, ownTitle, spec) {
      if i :| i in issues && IsReal(ownTitle)(i) && NamesFile(Haystack(i), spec) && x == GJ.TrackedBy(i.number, i.url, i.repo) {
        assert TrackedByOf(spec)(i) == Some(x);
      }
    }
  }
}
