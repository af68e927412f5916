/**
 * Removals over a run of commits: what every later walk, and every later report, says about a
 * removal once it has been committed.
 */
module HistoryRuns {
  import opened Texts
  import opened Declarations
  import opened HistoryWalk
  import SO = StableOrphans

  /* ---- commits go by ---- */

  /** A repository as one spec sees it: its revisions, newest first, and what each blob holds. */
  datatype Repo = Repo(revs: seq<Revision>, contents: map<string, string>)

  datatype Change = Change(rev: Revision, text: string)

  function Committed(repo: Repo, c: Change): Repo
  {
    Repo([c.rev] + repo.revs, repo.contents[c.rev.blob := c.text])
  }

  function CommittedAll(repo: Repo, changes: seq<Change>): Repo
  {
    if changes == [] then repo
    else Committed(CommittedAll(repo, changes[..|changes| - 1]), changes[|changes| - 1])
  }

  /** Every revision has its blob, and a blob is named by what it holds. */
  ghost predicate Consistent(repo: Repo, changes: seq<Change>)
  {
    && (forall r <- repo.revs :: r.blob in repo.contents)
    && (forall c <- changes :: c.rev.blob in repo.contents ==> repo.contents[c.rev.blob] == c.text)
    && forall c <- changes, d <- changes :: c.rev.blob == d.rev.blob ==> c.text == d.text
  }

  function ReadChange(path: string, parse: (string, string) -> seq<DeclaredTest>, c: Change): Reading
  {
    Reading(c.rev, Some(parse(path, c.text)))
  }

  /** What a walk reads of the changes, newest first. */
  function ReadChanges(path: string, parse: (string, string) -> seq<DeclaredTest>, changes: seq<Change>): (rs: seq<Reading>)
    ensures |rs| == |changes|
  {
    if changes == [] then []
    else [ReadChange(path, parse, changes[|changes| - 1])] + ReadChanges(path, parse, changes[..|changes| - 1])
  }

  function ReadRepo(path: string, parse: (string, string) -> seq<DeclaredTest>, repo: Repo): seq<Reading>
  {
    ReadingsOf(path, repo.revs, repo.contents, parse)
  }

  /** Blobs stay readable, with what they held. */
  lemma {:induction false} BlobsStay(repo: Repo, changes: seq<Change>)
    requires Consistent(repo, changes)
    ensures var now := CommittedAll(repo, changes);
            && (forall r <- now.revs :: r.blob in now.contents)
            && forall b <- now.contents :: (b in repo.contents && now.contents[b] == repo.contents[b])
                                           || exists c <- changes :: c.rev.blob == b && now.contents[b] == c.text
  {
    if changes != [] {
      var n := |changes| - 1;
      assert changes == changes[..n] + [changes[n]];
      BlobsStay(repo, changes[..n]);
    }
  }

  /** Old revisions read as they did, and every change reads as what it committed. */
  lemma {:induction false} ReadingsGrow(path: string, parse: (string, string) -> seq<DeclaredTest>, repo: Repo, changes: seq<Change>)
    requires Consistent(repo, changes)
    ensures ReadRepo(path, parse, CommittedAll(repo, changes)) == ReadChanges(path, parse, changes) + ReadRepo(path, parse, repo)
  {
    if changes == [] {
      assert ReadChanges(path, parse, changes) + ReadRepo(path, parse, repo) == ReadRepo(path, parse, repo);
    } else {
      var n := |changes| - 1;
      var c, before := changes[n], CommittedAll(repo, changes[..n]);
      FewerChanges(repo, changes);
      ReadingsGrow(path, parse, repo, changes[..n]);
      BlobsStay(repo, changes[..n]);
      OneChangeRead(path, parse, before, c);
      AppendFirst(ReadChange(path, parse, c), ReadChanges(path, parse, changes[..n]), ReadRepo(path, parse, repo));
    }
  }

  lemma AppendFirst(first: Reading, rest: seq<Reading>, earlier: seq<Reading>)
    ensures [first] + (rest + earlier) == ([first] + rest) + earlier
  {
  }

  lemma FewerChanges(repo: Repo, changes: seq<Change>)
    requires Consistent(repo, changes) && changes != []
    ensures Consistent(repo, changes[..|changes| - 1]) && changes[|changes| - 1] in changes
    ensures forall c <- changes[..|changes| - 1] :: c in changes
  {
  }

  lemma OneChangeRead(path: string, parse: (string, string) -> seq<DeclaredTest>, repo: Repo, c: Change)
    requires (forall r <- repo.revs :: r.blob in repo.contents) && (c.rev.blob in repo.contents ==> repo.contents[c.rev.blob] == c.text)
    ensures ReadRepo(path, parse, Committed(repo, c)) == [ReadChange(path, parse, c)] + ReadRepo(path, parse, repo)
  {
    var now := Committed(repo, c);
    forall i | 0 <= i < |repo.revs|
      ensures ReadRepo(path, parse, now)[i + 1] == ReadRepo(path, parse, repo)[i]
    {
      assert repo.revs[i] in repo.revs && now.revs[i + 1] == repo.revs[i];
    }
  }

  /* ---- the walk after the removal ---- */

  lemma {:induction false} ReadChangesAt(path: string, parse: (string, string) -> seq<DeclaredTest>, changes: seq<Change>, i: nat)
    requires i < |changes|
    ensures ReadChanges(path, parse, changes)[i] == ReadChange(path, parse, changes[|changes| - 1 - i])
  {
    if i > 0 {
      ReadChangesAt(path, parse, changes[..|changes| - 1], i - 1);
    }
  }

  /** The walk reads the newest `cap` of the readings. */
  lemma TakenReadings(path: string, revs: seq<Revision>, blobs: map<string, string>, parse: (string, string) -> seq<DeclaredTest>, cap: nat)
    ensures ReadingsOf(path, Take(revs, cap), blobs, parse) == Take(ReadingsOf(path, revs, blobs, parse), cap)
  {
  }

  /** The change leaves the title declared, and the first declaration with it untagged. */
  predicate KeepsUntagged(path: string, title: string, parse: (string, string) -> seq<DeclaredTest>, c: Change)
  {
    Sight(ReadChange(path, parse, c), title) == Untagged
  }

  /** A walk over readings whose first `n` are untagged and whose next one is tagged. */
  lemma WalkPastUntagged(rs: seq<Reading>, n: nat, cap: nat, shallow: bool, title: string)
    requires 1 <= n < |rs| && Sight(rs[n], title) == Tagged && forall i | 0 <= i < n :: Sight(rs[i], title) == Untagged
    ensures SoloFrom(Take(rs, cap), 0, Exhausted(|rs|, cap, shallow), title)
            == if n < cap then Removed(Evidence(rs[n - 1].rev)) else Unknown(RevisionCapHit(cap))
  {
    var walked := Take(rs, cap);
    var stop := SoloStops(walked, 0, Exhausted(|rs|, cap, shallow), title);
    if n < cap {
      assert walked[n] == rs[n] && walked[n - 1] == rs[n - 1];
      assert forall i | 0 <= i < n :: walked[i] == rs[i];
      assert stop == n;
    } else {
      assert forall i | 0 <= i < |walked| :: walked[i] == rs[i];
      assert stop == |walked|;
    }
  }

  /**
   * A commit takes the tag off, and any number of later commits keep the title declared without
   * it: every walk dates the removal to that commit, as long as the cap reaches back that far,
   * and says that the cap was hit when it does not.
   */
  lemma RemovalStaysDated(path: string, title: string, parse: (string, string) -> seq<DeclaredTest>, repo: Repo,
                          removal: Change, later: seq<Change>, cap: nat, shallow: bool)
    requires Consistent(repo, [removal] + later) && repo.revs != []
    requires Sight(ReadRepo(path, parse, repo)[0], title) == Tagged
    requires forall c <- [removal] + later :: KeepsUntagged(path, title, parse, c)
    ensures var now := CommittedAll(repo, [removal] + later);
            WalkVerdict(path, title, now.revs, now.contents, parse, cap, shallow)
            == if |later| + 1 < cap then Removed(Evidence(removal.rev)) else Unknown(RevisionCapHit(cap))
  {
    var now := CommittedAll(repo, [removal] + later);
    ChangesRead(path, title, parse, repo, removal, later);
    WalkPastUntagged(ReadRepo(path, parse, now), |later| + 1, cap, shallow, title);
    TakenReadings(path, now.revs, now.contents, parse, cap);
  }

  lemma ChangesRead(path: string, title: string, parse: (string, string) -> seq<DeclaredTest>, repo: Repo,
                    removal: Change, later: seq<Change>)
    requires Consistent(repo, [removal] + later) && repo.revs != []
    requires Sight(ReadRepo(path, parse, repo)[0], title) == Tagged
    requires forall c <- [removal] + later :: KeepsUntagged(path, title, parse, c)
    ensures var rs, n := ReadRepo(path, parse, CommittedAll(repo, [removal] + later)), |later| + 1;
            && n < |rs| && Sight(rs[n], title) == Tagged && rs[n - 1].rev == removal.rev
            && forall i | 0 <= i < n :: Sight(rs[i], title) == Untagged
  {
    var changes := [removal] + later;
    var newer := ReadChanges(path, parse, changes);
    ReadingsGrow(path, parse, repo, changes);
    forall i | 0 <= i < |changes| ensures newer[i] == ReadChange(path, parse, changes[|changes| - 1 - i]) && Sight(newer[i], title) == Untagged {
      ReadChangesAt(path, parse, changes, i);
      assert changes[|changes| - 1 - i] in changes;
    }
    assert newer[|changes| - 1] == ReadChange(path, parse, removal);
  }

  /**
   * Week after week the report lists it, in whichever bucket the issues and declarations of that
   * week put it, and with the same commit; a lookup that fails included.
   */
  lemma RemovalStaysListed(input: SO.ReconcileInput, test: DeclaredTest, parse: (string, string) -> seq<DeclaredTest>, repo: Repo,
                           removal: Change, later: seq<Change>, cap: nat, shallow: bool)
    requires Consistent(repo, [removal] + later) && repo.revs != []
    requires Sight(ReadRepo(test.relativePath, parse, repo)[0], test.title) == Tagged
    requires forall c <- [removal] + later :: KeepsUntagged(test.relativePath, test.title, parse, c)
    requires test in input.tests && IsCandidate(test) && !test.unparseableTags && |later| + 1 < cap
    requires var now := CommittedAll(repo, [removal] + later);
             && SO.KeyOf(test) in input.history
             && input.history[SO.KeyOf(test)] == WalkVerdict(test.relativePath, test.title, now.revs, now.contents, parse, cap, shallow)
    ensures exists r <- SO.AllRows(input) ::
              r.relativePath == test.relativePath && r.title == test.title && r.removal == Some(Evidence(removal.rev))
  {
    RemovalStaysDated(test.relativePath, test.title, parse, repo, removal, later, cap, shallow);
    DatedIsListed(input, test, Evidence(removal.rev));
  }

  lemma DatedIsListed(input: SO.ReconcileInput, test: DeclaredTest, evidence: RemovalEvidence)
    requires test in input.tests && IsCandidate(test) && !test.unparseableTags
    requires SO.KeyOf(test) in input.history && input.history[SO.KeyOf(test)] == Removed(evidence)
    ensures exists r <- SO.AllRows(input) ::
              r.relativePath == test.relativePath && r.title == test.title && r.removal == Some(evidence)
  {
    SO.DecidedRowIsListed(input, test);
    var row := SO.Decide(input, test).value;
    assert row in SO.AllRows(input) && row.removal == Some(evidence);
  }
}
