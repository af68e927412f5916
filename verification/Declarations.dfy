/** The declared-test rows every check reads, and the keys they are joined on. */
module Declarations {
  import opened Texts
  import opened Sequences

  const STABLE_TAG := "@stable"
  const ENTERPRISE_TAG := "@enterprise"
  const LANE_TAGS: seq<string> := ["@destructive", "@enterprise", "@serving", "@instance-migration"]

  datatype DeclaredTest = DeclaredTest(
    title: string,
    relativePath: string,
    line: nat,
    tags: seq<string>,
    stable: bool,
    fixme: bool,
    modifier: string,
    unparseableTags: bool,
    grepTitle: string)

  function PathOf(t: DeclaredTest): string
  {
    t.relativePath
  }

  function TitleOf(t: DeclaredTest): string
  {
    t.title
  }

  /** A (path, title) pair as one string, split by a NUL. */
  function HistoryKey(relativePath: string, title: string): string
  {
    relativePath + ['\0'] + title
  }

  /** Two tests share a key only when they share path and title, as long as no path holds a NUL. */
  lemma HistoryKeyInjective(p1: string, t1: string, p2: string, t2: string)
    requires '\0' !in p1 && '\0' !in p2
    requires HistoryKey(p1, t1) == HistoryKey(p2, t2)
    ensures p1 == p2 && t1 == t2
  {
    SplitHead(p1, '\0', t1);
    SplitHead(p2, '\0', t2);
    assert p1 == Split(HistoryKey(p1, t1), '\0')[0] == p2;
    assert t1 == HistoryKey(p1, t1)[|p1| + 1..] == t2;
  }

  lemma SamePathKeys(path: string, a: string, b: string)
    ensures HistoryKey(path, a) == HistoryKey(path, b) <==> a == b
  {
    assert a == HistoryKey(path, a)[|path| + 1..];
    assert b == HistoryKey(path, b)[|path| + 1..];
  }

  function LaneTagsOf(test: DeclaredTest): seq<string>
  {
    Filter(LANE_TAGS, tag => tag in test.tags)
  }

  predicate LaneGated(test: DeclaredTest)
  {
    LaneTagsOf(test) != []
  }

  /** Not in the daily, and not out of it because of a lane selector. */
  predicate IsCandidate(test: DeclaredTest)
  {
    !test.stable && !LaneGated(test)
  }

  function SelectCandidates(tests: seq<DeclaredTest>): seq<DeclaredTest>
  {
    Filter(tests, IsCandidate)
  }

  /** The first declared test with this path and title. */
  function FindDeclared(tests: seq<DeclaredTest>, spec: string, title: string): Option<DeclaredTest>
  {
    if tests == [] then None
    else if tests[0].relativePath == spec && tests[0].title == title then Some(tests[0])
    else FindDeclared(tests[1..], spec, title)
  }

  lemma {:induction false} FoundIsDeclared(tests: seq<DeclaredTest>, spec: string, title: string)
    ensures var f := FindDeclared(tests, spec, title);
            if f.Some? then f.value in tests && f.value.relativePath == spec && f.value.title == title
            else forall t <- tests :: !(t.relativePath == spec && t.title == title)
  {
    if tests != [] {
      FoundIsDeclared(tests[1..], spec, title);
      assert tests == [tests[0]] + tests[1..];
    }
  }
}
