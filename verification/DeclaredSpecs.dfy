/** The spec files a `--grep @stable --list` must contain, and the files it cannot vouch for. */
module DeclaredSpecs {
  import opened Texts
  import opened Sequences
  import opened Declarations
  import opened SpecTree
  import opened StableAgreement

  /** One collectable file: its path under `tests/`, and its declared tests. */
  datatype SpecSource = SpecSource(rel: string, tests: seq<DeclaredTest>)

  datatype DeclaredStableSpecs = DeclaredStableSpecs(
    files: seq<string>, laneOnly: seq<string>, unparseable: seq<string>, unresolvedTitles: seq<string>)

  /** The run's own `--grep` over the file path and the grep string; absent, everything. */
  type Selector = Option<string -> bool>

  predicate Selected(grep: Selector, rel: string, t: DeclaredTest)
  {
    t.stable && (grep.None? || grep.value(rel + " " + t.grepTitle))
  }

  /** The `@stable` tests of a file that the run selects. */
  function StableOf(s: SpecSource, grep: Selector): seq<DeclaredTest>
  {
    Filter(s.tests, (t: DeclaredTest) => Selected(grep, s.rel, t))
  }

  predicate Unparseable(s: SpecSource)
  {
    exists t <- s.tests :: t.unparseableTags
  }

  predicate Unresolved(s: SpecSource, grep: Selector)
  {
    exists t <- StableOf(s, grep) :: HasUnresolvedTitleSegment(t.grepTitle)
  }

  /** A selected test whose tags could all be read. */
  predicate Decidable(s: SpecSource, grep: Selector)
  {
    exists t <- StableOf(s, grep) :: !t.unparseableTags
  }

  /** A decidable test a normal run would select. */
  predicate Reachable(s: SpecSource, grep: Selector)
  {
    exists t <- StableOf(s, grep) :: !t.unparseableTags && !Excluded(s.rel, t.grepTitle)
  }

  datatype Bucket = Files | LaneOnly | UnparseableTags | UnresolvedTitles

  predicate Belongs(s: SpecSource, grep: Selector, b: Bucket)
  {
    match b
    case Files => Reachable(s, grep)
    case LaneOnly => Decidable(s, grep) && !Reachable(s, grep)
    case UnparseableTags => Unparseable(s)
    case UnresolvedTitles => Unresolved(s, grep)
  }

  function RelsIn(sources: seq<SpecSource>, grep: Selector, b: Bucket): seq<string>
  {
    if sources == [] then []
    else
      var n := |sources| - 1;
      var front := RelsIn(sources[..n], grep, b);
      if Belongs(sources[n], grep, b) then front + [sources[n].rel] else front
  }

  /** One turn of the loop: which lists the file goes on. */
  method Sort(s: SpecSource, grep: Selector) returns (unread: bool, open: bool, listed: bool, gated: bool)
    ensures unread == Belongs(s, grep, UnparseableTags) && open == Belongs(s, grep, UnresolvedTitles)
    ensures listed == Belongs(s, grep, Files) && gated == Belongs(s, grep, LaneOnly)
  {
    unread := exists t <- s.tests :: t.unparseableTags;
    var stable := StableOf(s, grep);
    if |stable| == 0 {
      NothingSelected(s, grep);
      return unread, false, false, false;
    }
    var decidable := Filter(stable, IsDecidable);
    DecidableMembers(s, grep);
    open := exists t <- stable :: HasUnresolvedTitleSegment(t.grepTitle);
    if |decidable| == 0 { return unread, open, false, false; }
    listed := exists t <- decidable :: !Excluded(s.rel, t.grepTitle);
    gated := !listed;
  }

  method DeclaredStableSpecFiles(sources: seq<SpecSource>, grep: Selector, order: (string, string) -> bool)
    returns (r: DeclaredStableSpecs)
    ensures r == DeclaredStableSpecs(
      StableSort(RelsIn(sources, grep, Files), order), StableSort(RelsIn(sources, grep, LaneOnly), order),
      StableSort(RelsIn(sources, grep, UnparseableTags), order), StableSort(RelsIn(sources, grep, UnresolvedTitles), order))
  {
    var files, laneOnly, unparseable, unresolvedTitles: seq<string> := [], [], [], [];
    for i := 0 to |sources|
      invariant files == RelsIn(sources[..i], grep, Files) && laneOnly == RelsIn(sources[..i], grep, LaneOnly)
      invariant unparseable == RelsIn(sources[..i], grep, UnparseableTags)
      invariant unresolvedTitles == RelsIn(sources[..i], grep, UnresolvedTitles)
    {
      assert sources[..i + 1][..i] == sources[..i];
      var rel := sources[i].rel;
      var unread, open, listed, gated := Sort(sources[i], grep);
      if unread { unparseable := unparseable + [rel]; }
      if open { unresolvedTitles := unresolvedTitles + [rel]; }
      if listed { files := files + [rel]; }
      if gated { laneOnly := laneOnly + [rel]; }
    }
    assert sources[..|sources|] == sources;
    r := DeclaredStableSpecs(StableSort(files, order), StableSort(laneOnly, order),
                             StableSort(unparseable, order), StableSort(unresolvedTitles, order));
  }

  predicate IsDecidable(t: DeclaredTest)
  {
    !t.unparseableTags
  }

  lemma DecidableMembers(s: SpecSource, grep: Selector)
    ensures forall t :: t in Filter(StableOf(s, grep), IsDecidable) <==> t in StableOf(s, grep) && !t.unparseableTags
    ensures Decidable(s, grep) <==> Filter(StableOf(s, grep), IsDecidable) != []
    ensures Reachable(s, grep) <==> exists t <- Filter(StableOf(s, grep), IsDecidable) :: !Excluded(s.rel, t.grepTitle)
  {
    FilterMembers(StableOf(s, grep), IsDecidable);
    var decidable := Filter(StableOf(s, grep), IsDecidable);
    if decidable != [] { assert decidable[0] in decidable; }
  }

  lemma NothingSelected(s: SpecSource, grep: Selector)
    requires StableOf(s, grep) == []
    ensures !Decidable(s, grep) && !Reachable(s, grep) && !Unresolved(s, grep)
  {
  }

  lemma {:induction false} RelsMembers(sources: seq<SpecSource>, grep: Selector, b: Bucket, rel: string)
    ensures rel in RelsIn(sources, grep, b) <==> exists s <- sources :: s.rel == rel && Belongs(s, grep, b)
  {
    if sources != [] {
      var n := |sources| - 1;
      RelsMembers(sources[..n], grep, b, rel);
      assert sources == sources[..n] + [sources[n]];
    }
  }

  ghost predicate InBucket(sources: seq<SpecSource>, grep: Selector, b: Bucket, s: SpecSource)
  {
    s.rel in RelsIn(sources, grep, b)
  }

  predicate DistinctPaths(sources: seq<SpecSource>)
  {
    forall i, j | 0 <= i < j < |sources| :: sources[i].rel != sources[j].rel
  }

  lemma BucketOf(sources: seq<SpecSource>, grep: Selector, b: Bucket, s: SpecSource)
    requires DistinctPaths(sources) && s in sources
    ensures InBucket(sources, grep, b, s) <==> Belongs(s, grep, b)
  {
    RelsMembers(sources, grep, b, s.rel);
  }

  /**
   * Undecidable is never clean: a file with a selected `@stable` test is expected in the
   * listing, or named as lane-only, or named as unparseable — and never both of the first two.
   */
  lemma NoStableFileIsDropped(sources: seq<SpecSource>, grep: Selector, s: SpecSource)
    requires DistinctPaths(sources) && s in sources && StableOf(s, grep) != []
    ensures InBucket(sources, grep, Files, s) || InBucket(sources, grep, LaneOnly, s)
            || InBucket(sources, grep, UnparseableTags, s)
    ensures !(InBucket(sources, grep, Files, s) && InBucket(sources, grep, LaneOnly, s))
  {
    forall b: Bucket ensures InBucket(sources, grep, b, s) <==> Belongs(s, grep, b) { BucketOf(sources, grep, b, s); }
    FilterMembers(s.tests, (t: DeclaredTest) => Selected(grep, s.rel, t));
    var t := StableOf(s, grep)[0];
    assert t in StableOf(s, grep);
    assert t in s.tests;
  }

  /** A file is expected exactly when a selected, readable test escapes every lane tag. */
  lemma ExpectedIff(sources: seq<SpecSource>, grep: Selector, s: SpecSource)
    requires DistinctPaths(sources) && s in sources
    ensures InBucket(sources, grep, Files, s)
            <==> exists t <- s.tests :: t.stable && (grep.None? || grep.value(s.rel + " " + t.grepTitle)) && !t.unparseableTags && !Excluded(s.rel, t.grepTitle)
  {
    BucketOf(sources, grep, Files, s);
    FilterMembers(s.tests, (t: DeclaredTest) => Selected(grep, s.rel, t));
  }

  /** A file whose only selected tests are gated by a declared lane tag is never expected. */
  lemma LaneGatedFileIsNotExpected(rel: string, source: Node, sources: seq<SpecSource>, grep: Selector)
    requires var s := SpecSource(rel, DeclaredIn(rel, source));
             DistinctPaths(sources) && s in sources && forall t <- s.tests :: Selected(grep, rel, t) ==> LaneGated(t)
    ensures !InBucket(sources, grep, Files, SpecSource(rel, DeclaredIn(rel, source)))
  {
    var s := SpecSource(rel, DeclaredIn(rel, source));
    ExpectedIff(sources, grep, s);
    forall t <- s.tests | Selected(grep, rel, t) ensures Excluded(rel, t.grepTitle) {
      var o := RowOccurrence(rel, Occurrences([], source), t);
      LaneGatedIsExcluded(rel, o);
    }
  }

  /**
   * From the tree: a file with a titled test whose own tag option, or that of a suite around it,
   * could not be read is on the unparseable list, and only such files are.
   */
  lemma UnparseableFileIff(rel: string, source: Node, sources: seq<SpecSource>, grep: Selector)
    requires DistinctPaths(sources) && SpecSource(rel, DeclaredIn(rel, source)) in sources
    ensures InBucket(sources, grep, UnparseableTags, SpecSource(rel, DeclaredIn(rel, source)))
            <==> exists o <- Occurrences([], source) :: Titled(o) && UnreadableReaches(o)
  {
    var s := SpecSource(rel, DeclaredIn(rel, source));
    BucketOf(sources, grep, UnparseableTags, s);
    forall t <- s.tests | t.unparseableTags
      ensures exists o <- Occurrences([], source) :: Titled(o) && UnreadableReaches(o)
    {
      var o := RowOccurrence(rel, Occurrences([], source), t);
      UnparseableIff(rel, o);
    }
    forall o <- Occurrences([], source) | Titled(o) && UnreadableReaches(o)
      ensures exists t <- s.tests :: t.unparseableTags
    {
      UnparseableIff(rel, o);
      RowIsDeclared(rel, source, o);
      assert RowFor(rel, o) in s.tests;
    }
  }

  lemma {:induction false} RowOccurrence(rel: string, os: seq<Occurrence>, t: DeclaredTest) returns (o: Occurrence)
    requires t in RowsFor(rel, os)
    ensures o in os && Titled(o) && RowFor(rel, o) == t
  {
    var n := |os| - 1;
    if t in RowsFor(rel, os[..n]) {
      o := RowOccurrence(rel, os[..n], t);
    } else {
      o := os[n];
    }
  }

  /** A file is lane-only exactly when some selected test is readable and every one of those is excluded. */
  lemma LaneOnlyIff(sources: seq<SpecSource>, grep: Selector, s: SpecSource)
    requires DistinctPaths(sources) && s in sources
    ensures InBucket(sources, grep, LaneOnly, s)
            <==> (exists t <- s.tests :: Selected(grep, s.rel, t) && !t.unparseableTags)
                 && forall t <- s.tests | Selected(grep, s.rel, t) && !t.unparseableTags :: Excluded(s.rel, t.grepTitle)
  {
    BucketOf(sources, grep, LaneOnly, s);
    FilterMembers(s.tests, (t: DeclaredTest) => Selected(grep, s.rel, t));
  }

  /** A file has unresolved titles exactly when a selected test of it does. */
  lemma UnresolvedFileIff(sources: seq<SpecSource>, grep: Selector, s: SpecSource)
    requires DistinctPaths(sources) && s in sources
    ensures InBucket(sources, grep, UnresolvedTitles, s)
            <==> exists t <- s.tests :: Selected(grep, s.rel, t) && HasUnresolvedTitleSegment(t.grepTitle)
  {
    BucketOf(sources, grep, UnresolvedTitles, s);
    FilterMembers(s.tests, (t: DeclaredTest) => Selected(grep, s.rel, t));
  }
}
