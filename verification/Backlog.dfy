/** The inherited backlog: declared tests that are not stable, gated by no lane, in files with nothing stable. */
module Backlog {
  import opened Sequences
  import opened Declarations
  import opened SpecTree
  import opened StableAgreement

  const LANE_SELECTORS: set<string> :=
    {"@destructive", "@enterprise", "@authz", "@sso", "@serving", "@governance", "@instance-migration"}

  datatype SpecFacts = SpecFacts(hasMirroredDoc: bool, hasIdScopedCleanup: bool)

  datatype Tier = T1 | T2

  datatype BacklogTest = BacklogTest(title: string, modifier: string, tags: seq<string>, line: nat)

  datatype BacklogSpec = BacklogSpec(relativePath: string, tier: Tier, facts: SpecFacts, tests: seq<BacklogTest>)

  datatype Backlog = Backlog(specs: seq<BacklogSpec>, testCount: nat, titleCollisions: seq<string>)

  predicate Selects(tags: seq<string>)
  {
    exists g <- tags :: g in LANE_SELECTORS
  }

  function StableFiles(all: seq<DeclaredTest>): set<string>
  {
    set t | t in all && IsStable(t) :: t.relativePath
  }

  predicate InScope(t: DeclaredTest, stableFiles: set<string>)
  {
    !IsStable(t) && !Selects(t.tags) && t.relativePath !in stableFiles
  }

  function ScopeOf(stableFiles: set<string>): DeclaredTest -> bool
  {
    (t: DeclaredTest) => InScope(t, stableFiles)
  }

  predicate EarlierLine(a: DeclaredTest, b: DeclaredTest)
  {
    a.line <= b.line
  }

  function AsBacklogTest(t: DeclaredTest): BacklogTest
  {
    BacklogTest(t.title, t.modifier, t.tags, t.line)
  }

  function SpecFor(path: string, tests: seq<DeclaredTest>, facts: string -> SpecFacts): BacklogSpec
  {
    var f := facts(path);
    BacklogSpec(path, if !f.hasMirroredDoc && !f.hasIdScopedCleanup then T2 else T1, f,
                MapSeq(StableSort(tests, EarlierLine), AsBacklogTest))
  }

  function InTitles(titles: set<string>): DeclaredTest -> bool
  {
    (t: DeclaredTest) => t.title in titles
  }

  /** The titles that two or more declarations carry, at least one of them in scope. */
  function Collisions(all: seq<DeclaredTest>, inScopeTitles: set<string>): seq<string>
  {
    var counted := Filter(all, InTitles(inScopeTitles));
    StableSort(Filter(KeysOf(counted, TitleOf), (title: string) => |Having(counted, TitleOf, title)| > 1), TextLe)
  }

  /** The whole backlog. */
  ghost predicate IsBacklogOf(b: Backlog, all: seq<DeclaredTest>, facts: string -> SpecFacts)
  {
    var inScope := Filter(all, ScopeOf(StableFiles(all)));
    var paths := StableSort(KeysOf(inScope, PathOf), TextLe);
    && b.testCount == |inScope|
    && b.titleCollisions == Collisions(all, set t <- inScope :: t.title)
    && |b.specs| == |paths|
    && forall i | 0 <= i < |paths| :: b.specs[i] == SpecFor(paths[i], Having(inScope, PathOf, paths[i]), facts)
  }

  method CountTitles(all: seq<DeclaredTest>, inScopeTitles: set<string>) returns (collisions: seq<string>)
    ensures collisions == Collisions(all, inScopeTitles)
  {
    var order, groups := GroupBy(Filter(all, InTitles(inScopeTitles)), TitleOf);
    var repeated: seq<string> := [];
    ghost var p := (title: string) => |Having(Filter(all, InTitles(inScopeTitles)), TitleOf, title)| > 1;
    for i := 0 to |order|
      invariant repeated == Filter(order[..i], p)
    {
      FilterSnoc(order, i, p);
      if |groups[order[i]]| > 1 {
        repeated := repeated + [order[i]];
      }
    }
    assert order[..|order|] == order;
    collisions := StableSort(repeated, TextLe);
  }

  method ClassifyBacklog(all: seq<DeclaredTest>, facts: string -> SpecFacts) returns (b: Backlog)
    ensures IsBacklogOf(b, all, facts)
  {
    var stableFiles := StableFiles(all);
    var inScope := Filter(all, ScopeOf(stableFiles));
    var titleCollisions := CountTitles(all, set t <- inScope :: t.title);
    var order, byFile := GroupBy(inScope, PathOf);
    var paths := StableSort(order, TextLe);
    TextOrder();
    StableSortProperties(order, TextLe);
    var specs: seq<BacklogSpec> := [];
    for i := 0 to |paths|
      invariant |specs| == i
      invariant forall k | 0 <= k < i :: specs[k] == SpecFor(paths[k], Having(inScope, PathOf, paths[k]), facts)
    {
      assert paths[i] in order;
      specs := specs + [SpecFor(paths[i], byFile[paths[i]], facts)];
    }
    b := Backlog(specs, |inScope|, titleCollisions);
  }

  /* ---- what the backlog promises ---- */

  lemma KeysMembers<T(!new)>(xs: seq<T>, key: T -> string, k: string)
    ensures k in KeysOf(xs, key) <==> exists x <- xs :: key(x) == k
  {
    DedupMembers(MapSeq(xs, key));
    if x :| x in xs && key(x) == k {
      var i :| 0 <= i < |xs| && xs[i] == x;
      assert MapSeq(xs, key)[i] == k;
    }
  }

  lemma SpecPaths(b: Backlog, all: seq<DeclaredTest>, facts: string -> SpecFacts, path: string)
    requires IsBacklogOf(b, all, facts)
    ensures (exists s <- b.specs :: s.relativePath == path)
            <==> exists t <- all :: InScope(t, StableFiles(all)) && t.relativePath == path
  {
    var inScope := Filter(all, ScopeOf(StableFiles(all)));
    var paths := StableSort(KeysOf(inScope, PathOf), TextLe);
    TextOrder();
    StableSortProperties(KeysOf(inScope, PathOf), TextLe);
    KeysMembers(inScope, PathOf, path);
    FilterMembers(all, ScopeOf(StableFiles(all)));
    if path in paths {
      var i :| 0 <= i < |paths| && paths[i] == path;
      assert b.specs[i] in b.specs;
    }
  }

  /** No file is both published in Phase 0 and listed as backlog: what Phase 0 lists, the backlog calls stable. */
  lemma PhaseZeroAndBacklogAreDisjoint(b: Backlog, all: seq<DeclaredTest>, facts: string -> SpecFacts,
                                       rel: string, source: Node)
    requires IsBacklogOf(b, all, facts) && forall t <- DeclaredIn(rel, source) :: t in all
    requires ListedIn(rel, source) != []
    ensures forall s <- b.specs :: s.relativePath != rel
  {
    var l := ListedIn(rel, source)[0];
    assert l in ListedIn(rel, source);
    ListedIsStable(rel, source, l);
    var row :| row in DeclaredIn(rel, source) && IsStable(row) && AsListed(row) == l;
    var o := PathOfRows(rel, Occurrences([], source), row);
    assert rel in StableFiles(all);
    SpecPaths(b, all, facts, rel);
  }

  lemma {:induction false} PathOfRows(rel: string, os: seq<Occurrence>, row: DeclaredTest) returns (o: Occurrence)
    requires row in RowsFor(rel, os)
    ensures o in os && row.relativePath == rel
  {
    var n := |os| - 1;
    if row in RowsFor(rel, os[..n]) { o := PathOfRows(rel, os[..n], row); } else { o := os[n]; }
  }

  /** Every declaration is in the backlog exactly once, or out of it for one of three reasons. */
  lemma BacklogCounts(b: Backlog, all: seq<DeclaredTest>, facts: string -> SpecFacts)
    requires IsBacklogOf(b, all, facts)
    ensures b.testCount + |Filter(all, (t: DeclaredTest) =>
              IsStable(t) || Selects(t.tags) || t.relativePath in StableFiles(all))| == |all|
    ensures TestsIn(b.specs) == b.testCount
  {
    var inScope := Filter(all, ScopeOf(StableFiles(all)));
    FilterComplement(all, ScopeOf(StableFiles(all)),
                    (t: DeclaredTest) => IsStable(t) || Selects(t.tags) || t.relativePath in StableFiles(all));
    GroupsCoverAll(inScope, PathOf);
    var keys := KeysOf(inScope, PathOf);
    TextOrder();
    StableSortProperties(keys, TextLe);
    GroupSizesPermute(inScope, PathOf, keys, StableSort(keys, TextLe));
    SpecsAddUp(b.specs, inScope, StableSort(keys, TextLe), facts);
  }

  function TestsIn(specs: seq<BacklogSpec>): nat
  {
    if specs == [] then 0 else TestsIn(specs[..|specs| - 1]) + |specs[|specs| - 1].tests|
  }

  lemma GroupSizesRemove(xs: seq<DeclaredTest>, key: DeclaredTest -> string, left: seq<string>, k: string, right: seq<string>)
    ensures GroupSizes(xs, key, left + [k] + right) == GroupSizes(xs, key, left + right) + |Having(xs, key, k)|
  {
    assert [k][..0] == [];
    GroupSizesAdd(xs, key, left + [k], right);
    GroupSizesAdd(xs, key, left, [k]);
    GroupSizesAdd(xs, key, left, right);
  }

  /** A sum over keys, whatever their order. */
  lemma {:induction false} GroupSizesPermute(xs: seq<DeclaredTest>, key: DeclaredTest -> string, a: seq<string>, b: seq<string>)
    requires multiset(a) == multiset(b)
    ensures GroupSizes(xs, key, a) == GroupSizes(xs, key, b)
    decreases |a|
  {
    assert |b| == |multiset(b)| == |multiset(a)| == |a|;
    if a != [] {
      var n := |a| - 1;
      var k := a[n];
      assert k in multiset(b);
      var i :| 0 <= i < |b| && b[i] == k;
      var left, right := b[..i], b[i + 1..];
      assert a == a[..n] + [k] && b == left + [k] + right;
      DropSame(a, a[..n], b, left, right, k);
      GroupSizesPermute(xs, key, a[..n], left + right);
      GroupSizesRemove(xs, key, left, k, right);
    }
  }

  lemma DropSame(a: seq<string>, front: seq<string>, b: seq<string>, left: seq<string>, right: seq<string>, k: string)
    requires a == front + [k] && b == left + [k] + right && multiset(a) == multiset(b)
    ensures multiset(left + right) == multiset(front)
  {
    assert multiset(b) == multiset(left) + multiset{k} + multiset(right);
    assert multiset(a) == multiset(front) + multiset{k};
    forall x ensures multiset(left + right)[x] == multiset(front)[x] {
      assert multiset(a)[x] == multiset(b)[x];
    }
  }

  lemma {:induction false} GroupSizesAdd(xs: seq<DeclaredTest>, key: DeclaredTest -> string, a: seq<string>, b: seq<string>)
    ensures GroupSizes(xs, key, a + b) == GroupSizes(xs, key, a) + GroupSizes(xs, key, b)
  {
    if b == [] {
      assert a + b == a;
    } else {
      assert (a + b)[..|a + b| - 1] == a + b[..|b| - 1];
      GroupSizesAdd(xs, key, a, b[..|b| - 1]);
    }
  }

  lemma {:induction false} SpecsAddUp(specs: seq<BacklogSpec>, inScope: seq<DeclaredTest>, paths: seq<string>,
                                      facts: string -> SpecFacts)
    requires |specs| == |paths|
    requires forall i | 0 <= i < |paths| :: specs[i] == SpecFor(paths[i], Having(inScope, PathOf, paths[i]), facts)
    ensures TestsIn(specs) == GroupSizes(inScope, PathOf, paths)
  {
    if specs != [] {
      var n := |specs| - 1;
      SpecsAddUp(specs[..n], inScope, paths[..n], facts);
      StableSortProperties(Having(inScope, PathOf, paths[n]), EarlierLine);
    }
  }

  /** A title collides exactly when it names two declarations, one of them in scope. */
  lemma CollisionIff(b: Backlog, all: seq<DeclaredTest>, facts: string -> SpecFacts, title: string)
    requires IsBacklogOf(b, all, facts)
    ensures title in b.titleCollisions
            <==> (exists t <- all :: InScope(t, StableFiles(all)) && t.title == title)
                 && |Having(all, TitleOf, title)| >= 2
  {
    var inScope := Filter(all, ScopeOf(StableFiles(all)));
    var titles := set t <- inScope :: t.title;
    var counted := Filter(all, InTitles(titles));
    var p := (title: string) => |Having(counted, TitleOf, title)| > 1;
    FilterMembers(all, ScopeOf(StableFiles(all)));
    FilterMembers(all, InTitles(titles));
    FilterMembers(KeysOf(counted, TitleOf), p);
    KeysMembers(counted, TitleOf, title);
    TextOrder();
    StableSortProperties(Filter(KeysOf(counted, TitleOf), p), TextLe);
    assert title in b.titleCollisions <==> title in KeysOf(counted, TitleOf) && p(title);
    if title in titles {
      SameTitled(all, titles, title);
    }
  }

  lemma {:induction false} SameTitled(all: seq<DeclaredTest>, titles: set<string>, title: string)
    requires title in titles
    ensures Filter(Filter(all, InTitles(titles)), HasKey(TitleOf, title)) == Filter(all, HasKey(TitleOf, title))
  {
    if all != [] {
      SameTitled(all[1..], titles, title);
      var rest := Filter(all[1..], InTitles(titles));
      if InTitles(titles)(all[0]) {
        assert ([all[0]] + rest)[1..] == rest;
      } else {
        assert TitleOf(all[0]) == all[0].title;
        assert !HasKey(TitleOf, title)(all[0]);
      }
    }
  }

  /** What a spec of the backlog says: its facts, a lower tier exactly when neither holds, and its tests in scope by line. */
  ghost predicate SpecSays(s: BacklogSpec, all: seq<DeclaredTest>, facts: string -> SpecFacts, tests: seq<DeclaredTest>)
  {
    && s.facts == facts(s.relativePath)
    && (s.tier == T2 <==> !facts(s.relativePath).hasMirroredDoc && !facts(s.relativePath).hasIdScopedCleanup)
    && |s.tests| == |tests| && (forall i | 0 <= i < |tests| :: AsBacklogTest(tests[i]) == s.tests[i])
    && (forall i, j | 0 <= i < j < |tests| :: tests[i].line <= tests[j].line)
    && multiset(tests) == multiset(Filter(all, InScopeAt(all, s.relativePath)))
  }

  /** In scope, and declared in one file. */
  function InScopeAt(all: seq<DeclaredTest>, path: string): DeclaredTest -> bool
  {
    (t: DeclaredTest) => InScope(t, StableFiles(all)) && t.relativePath == path
  }

  lemma {:induction false} ScopedGroup(all: seq<DeclaredTest>, stableFiles: set<string>, path: string, both: DeclaredTest -> bool)
    requires forall t :: both(t) <==> InScope(t, stableFiles) && t.relativePath == path
    ensures Having(Filter(all, ScopeOf(stableFiles)), PathOf, path) == Filter(all, both)
  {
    if all != [] {
      ScopedGroup(all[1..], stableFiles, path, both);
      var rest := Filter(all[1..], ScopeOf(stableFiles));
      assert PathOf(all[0]) == all[0].relativePath;
      if InScope(all[0], stableFiles) {
        assert ([all[0]] + rest)[1..] == rest;
      }
    }
  }

  /** Every spec of the backlog says what its tests and facts make of it. */
  lemma SpecsSay(b: Backlog, all: seq<DeclaredTest>, facts: string -> SpecFacts, i: nat) returns (tests: seq<DeclaredTest>)
    requires IsBacklogOf(b, all, facts) && i < |b.specs|
    ensures SpecSays(b.specs[i], all, facts, tests) && tests != []
  {
    var inScope := Filter(all, ScopeOf(StableFiles(all)));
    var paths := StableSort(KeysOf(inScope, PathOf), TextLe);
    var path := paths[i];
    var group := Having(inScope, PathOf, path);
    assert b.specs[i] == SpecFor(path, group, facts);
    tests := StableSort(group, EarlierLine);
    LineOrder();
    StableSortProperties(group, EarlierLine);
    ScopedGroup(all, StableFiles(all), path, InScopeAt(all, path));
    TextOrder();
    StableSortProperties(KeysOf(inScope, PathOf), TextLe);
    assert path in paths;
    KeysMembers(inScope, PathOf, path);
    var t :| t in inScope && PathOf(t) == path;
    FilterMembers(inScope, HasKey(PathOf, path));
    assert t in group;
  }

  lemma LineOrder()
    ensures TotalOrder(EarlierLine)
  {
  }

  /** A test stays in the backlog: the daily runs neither it nor any test of its file, and no lane selects it. */
  predicate LeftBehind(t: DeclaredTest, all: seq<DeclaredTest>)
  {
    && (forall g <- t.tags :: g !in LANE_SELECTORS)
    && forall u <- all | u.relativePath == t.relativePath :: !u.stable || u.fixme
  }

  lemma InScopeIff(t: DeclaredTest, all: seq<DeclaredTest>)
    requires t in all
    ensures InScope(t, StableFiles(all)) <==> LeftBehind(t, all)
  {
  }

  /** A declared test is listed under its file exactly when it is left behind. */
  lemma ListedIff(b: Backlog, all: seq<DeclaredTest>, facts: string -> SpecFacts, t: DeclaredTest)
    requires IsBacklogOf(b, all, facts) && t in all
    ensures LeftBehind(t, all)
            ==> exists s <- b.specs :: s.relativePath == t.relativePath && BacklogTest(t.title, t.modifier, t.tags, t.line) in s.tests
    ensures forall s <- b.specs, x <- s.tests ::
              exists u <- all :: LeftBehind(u, all) && u.relativePath == s.relativePath && x == BacklogTest(u.title, u.modifier, u.tags, u.line)
  {
    if LeftBehind(t, all) {
      InScopeIff(t, all);
      SpecPaths(b, all, facts, t.relativePath);
      var s :| s in b.specs && s.relativePath == t.relativePath;
      var i :| 0 <= i < |b.specs| && b.specs[i] == s;
      HoldsTest(b, all, facts, i, t);
    }
    forall s <- b.specs, x <- s.tests
      ensures exists u <- all :: LeftBehind(u, all) && u.relativePath == s.relativePath && x == BacklogTest(u.title, u.modifier, u.tags, u.line)
    {
      var i :| 0 <= i < |b.specs| && b.specs[i] == s;
      var u := TestOf(b, all, facts, i, x);
    }
  }

  lemma HoldsTest(b: Backlog, all: seq<DeclaredTest>, facts: string -> SpecFacts, i: nat, t: DeclaredTest)
    requires IsBacklogOf(b, all, facts) && i < |b.specs| && t in all && b.specs[i].relativePath == t.relativePath
    requires InScope(t, StableFiles(all))
    ensures BacklogTest(t.title, t.modifier, t.tags, t.line) in b.specs[i].tests
  {
    var tests := SpecsSay(b, all, facts, i);
    FilterMembers(all, InScopeAt(all, t.relativePath));
    assert t in multiset(Filter(all, InScopeAt(all, t.relativePath)));
    assert t in tests;
    var k :| 0 <= k < |tests| && tests[k] == t;
    assert b.specs[i].tests[k] == AsBacklogTest(t);
  }

  lemma TestOf(b: Backlog, all: seq<DeclaredTest>, facts: string -> SpecFacts, i: nat, x: BacklogTest) returns (u: DeclaredTest)
    requires IsBacklogOf(b, all, facts) && i < |b.specs| && x in b.specs[i].tests
    ensures u in all && LeftBehind(u, all) && u.relativePath == b.specs[i].relativePath
    ensures x == BacklogTest(u.title, u.modifier, u.tags, u.line)
  {
    var path := b.specs[i].relativePath;
    var tests := SpecsSay(b, all, facts, i);
    var k :| 0 <= k < |tests| && b.specs[i].tests[k] == x;
    u := tests[k];
    assert u in multiset(tests);
    assert u in Filter(all, InScopeAt(all, path));
    FilterMembers(all, InScopeAt(all, path));
    InScopeIff(u, all);
  }
}
