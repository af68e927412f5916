/**
 * Deciding, per hard failure, whether the run can attribute it to its spec.
 *
 * A failure is exempt when its last attempt failed at transport level, or when an earlier
 * attempt did and the liveness recorder saw an outage overlap that very attempt.
 */
module FailureClassification {
  import opened Texts
  import opened Sequences
  import opened Declarations

  datatype Attempt = Attempt(retry: nat, error: string)

  datatype Failure = Failure(
    title: string, file: string, specPath: string, line: nat, error: string,
    earlierAttempts: seq<Attempt>, lastAttemptRetry: nat, unexpectedPass: bool)

  datatype Signature = Signature(id: string, why: string)

  /** The infrastructure signature of an error text, if it has one; the patterns are not part of this model. */
  type Classifier = string -> Option<Signature>

  /* ---- corroboration ---- */

  datatype Unavailable = NotProvided | ReadFailed(reason: string) | NoAttemptsArray

  datatype Corroboration = Corroboration(
    measured: bool, reportRead: bool, specMeasured: map<string, bool>, keys: set<string>, unavailable: Option<Unavailable>)

  /** One entry of the payload's `attempts`; a field of another type is absent. */
  datatype Entry = NotAnObject | Entry(file: Option<string>, title: Option<string>, retry: nat)

  datatype Payload = Payload(
    measured: bool, reportRead: bool, attempts: Option<seq<Entry>>, specMeasured: seq<(string, bool)>)

  /** What reading the corroboration file gave. */
  datatype Loaded = NoPath | Unreadable(reason: string) | NotObject | Parsed(payload: Payload)

  function NoCorroboration(why: Unavailable): Corroboration
  {
    Corroboration(false, false, map[], {}, Some(why))
  }

  function AttemptKey(specPath: string, title: string, retry: nat): string
  {
    HistoryKey(specPath, title + ['\0'] + Decimal(retry))
  }

  predicate Named(e: Entry)
  {
    e.Entry? && e.file.Some? && e.title.Some?
  }

  function EntryKey(e: Entry, normalize: string -> string): string
    requires Named(e)
  {
    AttemptKey(normalize(e.file.value), e.title.value, e.retry)
  }

  /** The attempts a payload corroborates: those of a run that both measured and read. */
  function CorroboratedKeys(p: Payload, normalize: string -> string): set<string>
    requires p.attempts.Some?
  {
    if p.measured && p.reportRead then set e | e in p.attempts.value && Named(e) :: EntryKey(e, normalize) else {}
  }

  function MeasuredFrom(entries: seq<(string, bool)>, normalize: string -> string): map<string, bool>
  {
    if entries == [] then map[]
    else
      var n := |entries| - 1;
      MeasuredFrom(entries[..n], normalize)[normalize(entries[n].0) := entries[n].1]
  }

  function Corroborate(loaded: Loaded, normalize: string -> string): Corroboration
  {
    match loaded
    case NoPath => NoCorroboration(NotProvided)
    case Unreadable(reason) => NoCorroboration(ReadFailed(reason))
    case NotObject => NoCorroboration(NoAttemptsArray)
    case Parsed(p) =>
      if p.attempts.None? then NoCorroboration(NoAttemptsArray)
      else Corroboration(p.measured, p.reportRead, MeasuredFrom(p.specMeasured, normalize),
                         CorroboratedKeys(p, normalize), None)
  }

  method CollectKeys(attempts: seq<Entry>, normalize: string -> string) returns (keys: set<string>)
    ensures keys == set e | e in attempts && Named(e) :: EntryKey(e, normalize)
  {
    keys := {};
    for i := 0 to |attempts|
      invariant keys == set e | e in attempts[..i] && Named(e) :: EntryKey(e, normalize)
    {
      assert attempts[..i + 1] == attempts[..i] + [attempts[i]];
      if Named(attempts[i]) {
        keys := keys + {EntryKey(attempts[i], normalize)};
      }
    }
    assert attempts[..|attempts|] == attempts;
  }

  method LoadCorroboration(loaded: Loaded, normalize: string -> string) returns (c: Corroboration)
    ensures c == Corroborate(loaded, normalize)
  {
    match loaded {
      case NoPath => return NoCorroboration(NotProvided);
      case Unreadable(reason) => return NoCorroboration(ReadFailed(reason));
      case NotObject => return NoCorroboration(NoAttemptsArray);
      case Parsed(p) =>
        if p.attempts.None? { return NoCorroboration(NoAttemptsArray); }
        var keys: set<string> := {};
        if p.measured && p.reportRead {
          keys := CollectKeys(p.attempts.value, normalize);
        }
        var specMeasured: map<string, bool> := map[];
        for i := 0 to |p.specMeasured|
          invariant specMeasured == MeasuredFrom(p.specMeasured[..i], normalize)
        {
          assert p.specMeasured[..i + 1][..i] == p.specMeasured[..i];
          specMeasured := specMeasured[normalize(p.specMeasured[i].0) := p.specMeasured[i].1];
        }
        assert p.specMeasured[..|p.specMeasured|] == p.specMeasured;
        return Corroboration(p.measured, p.reportRead, specMeasured, keys, None);
    }
  }

  /* ---- the attempts of a test ---- */

  datatype AttemptStatus = AttemptPassed | AttemptSkipped | AttemptFailed

  datatype TestResult = TestResult(outcome: AttemptStatus, attempt: Attempt)

  function FailedResults(results: seq<TestResult>): seq<TestResult>
  {
    Filter(results, (r: TestResult) => r.outcome == AttemptFailed)
  }

  /** Every failed attempt before the last failed one, oldest first. */
  function EarlierFailedAttempts(results: seq<TestResult>): seq<Attempt>
  {
    var failed := FailedResults(results);
    MapSeq(if failed == [] then [] else failed[..|failed| - 1], (r: TestResult) => r.attempt)
  }

  /** The attempt whose error and retry number stand for the failure. */
  function LastFailed(results: seq<TestResult>): Option<Attempt>
  {
    var failed := FailedResults(results);
    if failed != [] then Some(failed[|failed| - 1].attempt)
    else if results != [] then Some(results[|results| - 1].attempt)
    else None
  }

  /** The two read disjoint parts of one list: together they are the failed attempts, in order. */
  lemma AttemptsSplit(results: seq<TestResult>)
    requires exists r <- results :: r.outcome == AttemptFailed
    ensures LastFailed(results).Some?
    ensures EarlierFailedAttempts(results) + [LastFailed(results).value]
            == MapSeq(FailedResults(results), (r: TestResult) => r.attempt)
  {
    FilterMembers(results, (r: TestResult) => r.outcome == AttemptFailed);
    var r :| r in results && r.outcome == AttemptFailed;
    assert r in FailedResults(results);
  }

  /* ---- the decision for one failure ---- */

  datatype Reason = NoneAvailable(why: Unavailable) | ReportNotRead | NoShardClaims | ShardUnmeasured | NoOverlap

  function DeclinedReason(c: Corroboration, specPath: string): Reason
  {
    if c.unavailable.Some? then NoneAvailable(c.unavailable.value)
    else if !c.reportRead then ReportNotRead
    else if specPath !in c.specMeasured then NoShardClaims
    else if !c.specMeasured[specPath] then ShardUnmeasured
    else NoOverlap
  }

  datatype Via = LastAttempt | EarlierAttempt

  datatype Decision =
    | Exempted(via: Via, attempt: Attempt, signature: Signature)
    | Attributed
    | AttributedThough(attempt: Attempt, signature: Signature, declined: Reason)

  /** The attempts that classify, in order. */
  function Classified(f: Failure, classify: Classifier): seq<Attempt>
  {
    Filter(f.earlierAttempts, (a: Attempt) => classify(a.error).Some?)
  }

  predicate Corroborated(f: Failure, a: Attempt, keys: set<string>)
  {
    AttemptKey(f.specPath, f.title, a.retry) in keys
  }

  /** The first corroborated attempt. */
  function FirstCorroborated(f: Failure, attempts: seq<Attempt>, keys: set<string>): Option<Attempt>
  {
    if attempts == [] then None
    else if Corroborated(f, attempts[0], keys) then Some(attempts[0])
    else FirstCorroborated(f, attempts[1..], keys)
  }

  function Decide(f: Failure, c: Corroboration, classify: Classifier): Decision
  {
    var last := classify(f.error);
    if last.Some? then Exempted(LastAttempt, Attempt(f.lastAttemptRetry, f.error), last.value)
    else
      var classified := Classified(f, classify);
      ClassifiedMembers(f, classify);
      if classified == [] then Attributed
      else
        var found := FirstCorroborated(f, classified, c.keys);
        FirstCorroboratedMeaning(f, classified, c.keys);
        if found.Some? then Exempted(EarlierAttempt, found.value, classify(found.value.error).value)
        else
          assert classified[0] in classified;
          AttributedThough(classified[0], classify(classified[0].error).value, DeclinedReason(c, f.specPath))
  }

  lemma ClassifiedMembers(f: Failure, classify: Classifier)
    ensures forall a :: a in Classified(f, classify) <==> a in f.earlierAttempts && classify(a.error).Some?
  {
    FilterMembers(f.earlierAttempts, (a: Attempt) => classify(a.error).Some?);
  }

  lemma {:induction false} FirstCorroboratedMeaning(f: Failure, attempts: seq<Attempt>, keys: set<string>)
    ensures var found := FirstCorroborated(f, attempts, keys);
            if found.Some? then found.value in attempts && Corroborated(f, found.value, keys)
            else forall a <- attempts :: !Corroborated(f, a, keys)
  {
    if attempts != [] {
      FirstCorroboratedMeaning(f, attempts[1..], keys);
      assert attempts == [attempts[0]] + attempts[1..];
    }
  }

  /** A failure is exempt exactly when one of the two rules finds an attempt. */
  lemma ExemptIff(f: Failure, c: Corroboration, classify: Classifier)
    ensures Decide(f, c, classify).Exempted?
            <==> classify(f.error).Some?
                 || exists a <- f.earlierAttempts :: classify(a.error).Some? && Corroborated(f, a, c.keys)
    ensures Decide(f, c, classify).AttributedThough?
            <==> classify(f.error).None? && (exists a <- f.earlierAttempts :: classify(a.error).Some?)
                 && forall a <- f.earlierAttempts :: classify(a.error).Some? ==> !Corroborated(f, a, c.keys)
  {
    var classified := Classified(f, classify);
    ClassifiedMembers(f, classify);
    FirstCorroboratedMeaning(f, classified, c.keys);
    if classified != [] {
      assert classified[0] in classified;
    } else {
      assert forall a <- f.earlierAttempts :: a !in classified;
    }
  }

  /* ---- the loop ---- */

  datatype Exempt = Exempt(failure: Failure, via: Via, attempt: Attempt, signature: Signature)

  datatype Disagreement = Disagreement(failure: Failure, attempt: Attempt, signature: Signature, declined: Reason)

  datatype Classification = Classification(exempt: seq<Exempt>, attributable: seq<Failure>, disagreements: seq<Disagreement>)

  function ExemptRow(f: Failure, c: Corroboration, classify: Classifier): Exempt
    requires Decide(f, c, classify).Exempted?
  {
    var d := Decide(f, c, classify);
    Exempt(f, d.via, d.attempt, d.signature)
  }

  function DisagreementRow(f: Failure, c: Corroboration, classify: Classifier): Disagreement
    requires Decide(f, c, classify).AttributedThough?
  {
    var d := Decide(f, c, classify);
    Disagreement(f, d.attempt, d.signature, d.declined)
  }

  function IsExempt(c: Corroboration, classify: Classifier): Failure -> bool
  {
    (f: Failure) => Decide(f, c, classify).Exempted?
  }

  function IsAttributable(c: Corroboration, classify: Classifier): Failure -> bool
  {
    (f: Failure) => !Decide(f, c, classify).Exempted?
  }

  function IsDisputed(c: Corroboration, classify: Classifier): Failure -> bool
  {
    (f: Failure) => Decide(f, c, classify).AttributedThough?
  }

  /** The three lists, each an order-preserving part of all the failures. */
  ghost predicate IsClassificationOf(out: Classification, all: seq<Failure>, c: Corroboration, classify: Classifier)
  {
    && out.attributable == Filter(all, IsAttributable(c, classify))
    && ExemptRows(out.exempt, Filter(all, IsExempt(c, classify)), c, classify)
    && DisagreementRows(out.disagreements, Filter(all, IsDisputed(c, classify)), c, classify)
  }

  ghost predicate ExemptRows(rows: seq<Exempt>, exempt: seq<Failure>, c: Corroboration, classify: Classifier)
  {
    |rows| == |exempt| && forall i | 0 <= i < |exempt| ::
      Decide(exempt[i], c, classify).Exempted? && rows[i] == ExemptRow(exempt[i], c, classify)
  }

  ghost predicate DisagreementRows(rows: seq<Disagreement>, disputed: seq<Failure>, c: Corroboration, classify: Classifier)
  {
    |rows| == |disputed| && forall i | 0 <= i < |disputed| ::
      Decide(disputed[i], c, classify).AttributedThough? && rows[i] == DisagreementRow(disputed[i], c, classify)
  }

  method ClassifyFailures(all: seq<Failure>, c: Corroboration, classify: Classifier) returns (out: Classification)
    ensures IsClassificationOf(out, all, c, classify)
  {
    out := Classification([], [], []);
    for i := 0 to |all|
      invariant IsClassificationOf(out, all[..i], c, classify)
    {
      var f := all[i];
      FilterSnoc(all, i, IsAttributable(c, classify));
      FilterSnoc(all, i, IsExempt(c, classify));
      FilterSnoc(all, i, IsDisputed(c, classify));
      match Decide(f, c, classify) {
        case Exempted(via, attempt, signature) =>
          out := out.(exempt := out.exempt + [Exempt(f, via, attempt, signature)]);
        case Attributed =>
          out := out.(attributable := out.attributable + [f]);
        case AttributedThough(attempt, signature, declined) =>
          out := out.(attributable := out.attributable + [f],
                      disagreements := out.disagreements + [Disagreement(f, attempt, signature, declined)]);
      }
    }
    assert all[..|all|] == all;
  }

  /* ---- what the split promises ---- */

  /** Every failure is on exactly one side, and each side keeps the order of the report. */
  lemma NoFailureIsLost(out: Classification, all: seq<Failure>, c: Corroboration, classify: Classifier)
    requires IsClassificationOf(out, all, c, classify)
    ensures |out.exempt| + |out.attributable| == |all|
    ensures Subsequence(out.attributable, all)
    ensures multiset(MapSeq(out.exempt, (e: Exempt) => e.failure)) + multiset(out.attributable) == multiset(all)
  {
    FilterComplement(all, IsExempt(c, classify), IsAttributable(c, classify));
    var everything := (f: Failure) => true;
    FilterSubsequence(all, IsAttributable(c, classify), everything);
    FilterAll(all, everything);
    assert MapSeq(out.exempt, (e: Exempt) => e.failure) == Filter(all, IsExempt(c, classify));
  }

  /** A declined exemption is never silent, and it is always about a removal candidate. */
  lemma DisagreementsAreAttributable(out: Classification, all: seq<Failure>, c: Corroboration, classify: Classifier)
    requires IsClassificationOf(out, all, c, classify)
    ensures Subsequence(MapSeq(out.disagreements, (d: Disagreement) => d.failure), out.attributable)
    ensures forall f <- out.attributable :: (exists a <- f.earlierAttempts :: classify(a.error).Some?) ==>
              exists d <- out.disagreements :: d.failure == f
  {
    var disputed := Filter(all, IsDisputed(c, classify));
    FilterSubsequence(all, IsDisputed(c, classify), IsAttributable(c, classify));
    assert MapSeq(out.disagreements, (d: Disagreement) => d.failure) == disputed;
    FilterMembers(all, IsAttributable(c, classify));
    FilterMembers(all, IsDisputed(c, classify));
    forall f <- out.attributable | exists a <- f.earlierAttempts :: classify(a.error).Some?
      ensures exists d <- out.disagreements :: d.failure == f
    {
      ExemptIff(f, c, classify);
      assert f in disputed;
      var i :| 0 <= i < |disputed| && disputed[i] == f;
      assert out.disagreements[i] in out.disagreements;
    }
  }

  /** More corroboration only ever shrinks the removal candidates. */
  lemma MoreCorroborationRemovesLess(all: seq<Failure>, less: Corroboration, more: Corroboration, classify: Classifier,
                                     a: Classification, b: Classification)
    requires less.keys <= more.keys
    requires IsClassificationOf(a, all, less, classify) && IsClassificationOf(b, all, more, classify)
    ensures Subsequence(b.attributable, a.attributable)
  {
    forall f <- all | IsAttributable(more, classify)(f) ensures IsAttributable(less, classify)(f) {
      ExemptIff(f, less, classify);
      ExemptIff(f, more, classify);
    }
    FilterSubsequence(all, IsAttributable(more, classify), IsAttributable(less, classify));
  }

  /** The payloads that say both that probes were taken and that the report was read. */
  predicate Counted(loaded: Loaded)
  {
    loaded.Parsed? && loaded.payload.attempts.Some? && loaded.payload.measured && loaded.payload.reportRead
  }

  /** Anything short of that gives exactly the last-attempt rule. */
  lemma UncountedIsTheLastAttemptRule(all: seq<Failure>, loaded: Loaded, normalize: string -> string, classify: Classifier,
                                      out: Classification)
    requires !Counted(loaded)
    requires IsClassificationOf(out, all, Corroborate(loaded, normalize), classify)
    ensures out.attributable == Filter(all, (f: Failure) => classify(f.error).None?)
    ensures forall e <- out.exempt :: e.via == LastAttempt
  {
    var c := Corroborate(loaded, normalize);
    forall f <- all ensures IsAttributable(c, classify)(f) == classify(f.error).None? {
      ExemptIff(f, c, classify);
    }
    FilterAgrees(all, IsAttributable(c, classify), (f: Failure) => classify(f.error).None?);
    FilterMembers(all, IsExempt(c, classify));
    forall e <- out.exempt ensures e.via == LastAttempt {
      var exempt := Filter(all, IsExempt(c, classify));
      var i :| 0 <= i < |exempt| && out.exempt[i] == e;
      assert exempt[i] in exempt;
      ExemptIff(exempt[i], c, classify);
    }
  }

  /** No payload at all can add a removal candidate to what the last-attempt rule gives. */
  lemma CorroborationNeverWidens(all: seq<Failure>, loaded: Loaded, normalize: string -> string, classify: Classifier,
                                 out: Classification)
    requires IsClassificationOf(out, all, Corroborate(loaded, normalize), classify)
    ensures Subsequence(out.attributable, Filter(all, (f: Failure) => classify(f.error).None?))
  {
    var c := Corroborate(loaded, normalize);
    var lastRule := (f: Failure) => classify(f.error).None?;
    forall f <- all | IsAttributable(c, classify)(f) ensures lastRule(f) {
      ExemptIff(f, c, classify);
    }
    FilterSubsequence(all, IsAttributable(c, classify), lastRule);
  }

  /* ---- the attempt key ---- */

  lemma LastNul(a: string, b: string, c: string, d: string)
    requires '\0' !in b && '\0' !in d && a + ['\0'] + b == c + ['\0'] + d
    ensures a == c && b == d
  {
    var whole := a + ['\0'] + b;
    assert whole[|a|] == '\0' && whole[|c|] == '\0';
    assert forall i | |a| < i < |whole| :: whole[i] == b[i - |a| - 1] && whole[i] != '\0';
    assert forall i | |c| < i < |whole| :: whole[i] == d[i - |c| - 1] && whole[i] != '\0';
    assert |a| == |c|;
    assert a == whole[..|a|] == c;
    assert b == whole[|a| + 1..] == d;
  }

  lemma DecimalHasNoNul(n: nat)
    ensures '\0' !in Decimal(n)
  {
    DecimalRoundTrip(n);
  }

  /** One key, one attempt: corroboration can only ever reach the attempt it names. */
  lemma AttemptKeyInjective(p1: string, t1: string, r1: nat, p2: string, t2: string, r2: nat)
    requires '\0' !in p1 && '\0' !in p2 && AttemptKey(p1, t1, r1) == AttemptKey(p2, t2, r2)
    ensures p1 == p2 && t1 == t2 && r1 == r2
  {
    HistoryKeyInjective(p1, t1 + ['\0'] + Decimal(r1), p2, t2 + ['\0'] + Decimal(r2));
    DecimalHasNoNul(r1);
    DecimalHasNoNul(r2);
    LastNul(t1, Decimal(r1), t2, Decimal(r2));
    DecimalInjective(r1, r2);
  }

  /** An exemption by an earlier attempt comes from a payload entry that names that attempt. */
  lemma EarlierExemptionIsNamed(f: Failure, p: Payload, normalize: string -> string, classify: Classifier)
    requires p.attempts.Some? && '\0' !in f.specPath && forall s: string :: '\0' !in normalize(s)
    requires var d := Decide(f, Corroborate(Parsed(p), normalize), classify); d.Exempted? && d.via == EarlierAttempt
    ensures p.measured && p.reportRead
    ensures var d := Decide(f, Corroborate(Parsed(p), normalize), classify);
            exists e <- p.attempts.value :: Named(e) && normalize(e.file.value) == f.specPath
                                            && e.title.value == f.title && e.retry == d.attempt.retry
  {
    var c := Corroborate(Parsed(p), normalize);
    var d := Decide(f, c, classify);
    FirstCorroboratedMeaning(f, Classified(f, classify), c.keys);
    var key := AttemptKey(f.specPath, f.title, d.attempt.retry);
    assert key in c.keys;
    var e :| e in p.attempts.value && Named(e) && EntryKey(e, normalize) == key;
    AttemptKeyInjective(normalize(e.file.value), e.title.value, e.retry, f.specPath, f.title, d.attempt.retry);
  }

  /* ---- from the payload to the decision ---- */

  /** Some entry of a counted payload names this attempt of this test. */
  predicate NamedBy(e: Entry, f: Failure, a: Attempt, normalize: string -> string)
  {
    && e.Entry? && e.file.Some? && e.title.Some?
    && normalize(e.file.value) == f.specPath && e.title.value == f.title && e.retry == a.retry
  }

  predicate NamedInPayload(loaded: Loaded, f: Failure, a: Attempt, normalize: string -> string)
  {
    Counted(loaded) && exists e <- loaded.payload.attempts.value :: NamedBy(e, f, a, normalize)
  }

  /** An attempt is corroborated exactly when a counted payload has an entry that names it: no entry is dropped, none is added. */
  lemma CorroboratedIff(f: Failure, a: Attempt, loaded: Loaded, normalize: string -> string)
    requires '\0' !in f.specPath && forall s: string :: '\0' !in normalize(s)
    ensures Corroborated(f, a, Corroborate(loaded, normalize).keys) <==> NamedInPayload(loaded, f, a, normalize)
  {
    var keys, key := Corroborate(loaded, normalize).keys, AttemptKey(f.specPath, f.title, a.retry);
    if NamedInPayload(loaded, f, a, normalize) {
      var e :| e in loaded.payload.attempts.value && NamedBy(e, f, a, normalize);
      assert Named(e) && EntryKey(e, normalize) == key;
    }
    if key in keys {
      var e :| e in loaded.payload.attempts.value && Named(e) && EntryKey(e, normalize) == key;
      AttemptKeyInjective(normalize(e.file.value), e.title.value, e.retry, f.specPath, f.title, a.retry);
      assert NamedBy(e, f, a, normalize);
    }
  }

  /**
   * From whatever was loaded to the decision: a failure whose last attempt does not classify is
   * exempt if and only if the payload was measured and read, and one of its entries names an
   * earlier attempt of the failure that classifies.
   */
  lemma ExemptIffNamed(f: Failure, loaded: Loaded, normalize: string -> string, classify: Classifier)
    requires '\0' !in f.specPath && forall s: string :: '\0' !in normalize(s)
    ensures Decide(f, Corroborate(loaded, normalize), classify).Exempted?
            <==> classify(f.error).Some?
                 || exists a <- f.earlierAttempts :: classify(a.error).Some? && NamedInPayload(loaded, f, a, normalize)
  {
    var c := Corroborate(loaded, normalize);
    ExemptIff(f, c, classify);
    forall a <- f.earlierAttempts ensures Corroborated(f, a, c.keys) <==> NamedInPayload(loaded, f, a, normalize) {
      CorroboratedIff(f, a, loaded, normalize);
    }
  }

  /** So with the loop: the removal candidates are the failures that neither rule excuses, by what the payload says. */
  lemma AttributableIffUnnamed(out: Classification, all: seq<Failure>, loaded: Loaded, normalize: string -> string,
                               classify: Classifier, f: Failure)
    requires IsClassificationOf(out, all, Corroborate(loaded, normalize), classify) && f in all
    requires '\0' !in f.specPath && forall s: string :: '\0' !in normalize(s)
    ensures f in out.attributable
            <==> classify(f.error).None?
                 && forall a <- f.earlierAttempts :: classify(a.error).Some? ==> !NamedInPayload(loaded, f, a, normalize)
  {
    FilterMembers(all, IsAttributable(Corroborate(loaded, normalize), classify));
    ExemptIffNamed(f, loaded, normalize, classify);
  }

  /* ---- which attempt decides, and what is said of it ---- */

  /** The first earlier attempt with a property. */
  ghost predicate FirstEarlier(f: Failure, p: Attempt -> bool, a: Attempt)
  {
    exists i | 0 <= i < |f.earlierAttempts| :: FirstAt(f.earlierAttempts, p, a, i)
  }

  ghost predicate FirstAt(attempts: seq<Attempt>, p: Attempt -> bool, a: Attempt, i: int)
  {
    0 <= i < |attempts| && attempts[i] == a && p(a) && forall j | 0 <= j < i :: !p(attempts[j])
  }

  function Classifies(classify: Classifier): Attempt -> bool
  {
    (a: Attempt) => classify(a.error).Some?
  }

  function ClassifiesNamed(f: Failure, classify: Classifier, keys: set<string>): Attempt -> bool
  {
    (a: Attempt) => classify(a.error).Some? && Corroborated(f, a, keys)
  }

  lemma {:induction false} FirstOfFilter(attempts: seq<Attempt>, p: Attempt -> bool)
    ensures var kept := Filter(attempts, p);
            if kept == [] then forall a <- attempts :: !p(a)
            else exists i | 0 <= i < |attempts| :: FirstAt(attempts, p, kept[0], i)
  {
    if attempts != [] {
      FirstOfFilter(attempts[1..], p);
      if p(attempts[0]) {
        assert Filter(attempts, p)[0] == attempts[0];
        assert FirstAt(attempts, p, attempts[0], 0);
      } else if Filter(attempts, p) != [] {
        var first := Filter(attempts[1..], p)[0];
        assert Filter(attempts, p) == Filter(attempts[1..], p);
        var i :| 0 <= i < |attempts[1..]| && FirstAt(attempts[1..], p, first, i);
        assert FirstAt(attempts, p, first, i + 1);
      }
    }
  }

  /** The first corroborated among the classifying attempts is the first that is both. */
  lemma {:induction false} FirstOfBoth(f: Failure, attempts: seq<Attempt>, classify: Classifier, keys: set<string>)
    requires FirstCorroborated(f, Filter(attempts, Classifies(classify)), keys).Some?
    ensures var a := FirstCorroborated(f, Filter(attempts, Classifies(classify)), keys).value;
            exists i | 0 <= i < |attempts| :: FirstAt(attempts, ClassifiesNamed(f, classify, keys), a, i)
  {
    var both, kept := ClassifiesNamed(f, classify, keys), Filter(attempts, Classifies(classify));
    if both(attempts[0]) {
      assert FirstAt(attempts, both, attempts[0], 0);
    } else {
      FirstOfBoth(f, attempts[1..], classify, keys);
      var a := FirstCorroborated(f, kept, keys).value;
      var i :| 0 <= i < |attempts[1..]| && FirstAt(attempts[1..], both, a, i);
      assert FirstAt(attempts, both, a, i + 1);
    }
  }

  /** The attempt and the signature of a decision: the last attempt's own, or those of the first earlier attempt that qualifies. */
  lemma DecidingAttempt(f: Failure, c: Corroboration, classify: Classifier)
    ensures match Decide(f, c, classify)
            case Exempted(LastAttempt, a, s) => a == Attempt(f.lastAttemptRetry, f.error) && classify(f.error) == Some(s)
            case Exempted(EarlierAttempt, a, s) =>
              classify(f.error).None? && classify(a.error) == Some(s) && FirstEarlier(f, ClassifiesNamed(f, classify, c.keys), a)
            case Attributed => classify(f.error).None? && forall a <- f.earlierAttempts :: classify(a.error).None?
            case AttributedThough(a, s, _) =>
              classify(f.error).None? && classify(a.error) == Some(s) && FirstEarlier(f, Classifies(classify), a)
  {
    FirstOfFilter(f.earlierAttempts, Classifies(classify));
    assert Classified(f, classify) == Filter(f.earlierAttempts, Classifies(classify)) by {
      FilterAgrees(f.earlierAttempts, (a: Attempt) => classify(a.error).Some?, Classifies(classify));
    }
    if FirstCorroborated(f, Classified(f, classify), c.keys).Some? {
      FirstOfBoth(f, f.earlierAttempts, classify, c.keys);
    }
  }

  /** What the payload says of a spec: the last of its entries whose path normalizes to it. */
  ghost predicate LastSays(entries: seq<(string, bool)>, normalize: string -> string, specPath: string, measured: bool, i: int)
  {
    && 0 <= i < |entries| && normalize(entries[i].0) == specPath && entries[i].1 == measured
    && forall j | i < j < |entries| :: normalize(entries[j].0) != specPath
  }

  lemma {:induction false} MeasuredFromMeaning(entries: seq<(string, bool)>, normalize: string -> string, specPath: string)
    ensures var m := MeasuredFrom(entries, normalize);
            if specPath in m then exists i | 0 <= i < |entries| :: LastSays(entries, normalize, specPath, m[specPath], i)
            else forall e <- entries :: normalize(e.0) != specPath
  {
    if entries != [] {
      var n := |entries| - 1;
      var m, front := MeasuredFrom(entries, normalize), MeasuredFrom(entries[..n], normalize);
      MeasuredFromMeaning(entries[..n], normalize, specPath);
      assert entries == entries[..n] + [entries[n]];
      if normalize(entries[n].0) == specPath {
        assert LastSays(entries, normalize, specPath, m[specPath], n);
      } else if specPath in m {
        var i :| 0 <= i < n && LastSays(entries[..n], normalize, specPath, front[specPath], i);
        assert LastSays(entries, normalize, specPath, m[specPath], i);
      }
    }
  }

  /** The reason for a declined exemption, by what was loaded: evidence against it is told apart from every absence of evidence. */
  lemma DeclinedIff(loaded: Loaded, normalize: string -> string, specPath: string)
    ensures match DeclinedReason(Corroborate(loaded, normalize), specPath)
            case NoneAvailable(NotProvided) => loaded == NoPath
            case NoneAvailable(ReadFailed(reason)) => loaded == Unreadable(reason)
            case NoneAvailable(NoAttemptsArray) => loaded == NotObject || (loaded.Parsed? && loaded.payload.attempts.None?)
            case ReportNotRead => Payloaded(loaded) && !loaded.payload.reportRead
            case NoShardClaims =>
              Payloaded(loaded) && loaded.payload.reportRead
              && forall e <- loaded.payload.specMeasured :: normalize(e.0) != specPath
            case ShardUnmeasured =>
              Payloaded(loaded) && loaded.payload.reportRead
              && exists i | 0 <= i < |loaded.payload.specMeasured| ::
                   LastSays(loaded.payload.specMeasured, normalize, specPath, false, i)
            case NoOverlap =>
              Payloaded(loaded) && loaded.payload.reportRead
              && exists i | 0 <= i < |loaded.payload.specMeasured| ::
                   LastSays(loaded.payload.specMeasured, normalize, specPath, true, i)
  {
    if loaded.Parsed? {
      MeasuredFromMeaning(loaded.payload.specMeasured, normalize, specPath);
    }
  }

  predicate Payloaded(loaded: Loaded)
  {
    loaded.Parsed? && loaded.payload.attempts.Some?
  }

  /** Every reported row carries the failure's own words: the reason of a disagreement is the one its spec's payload gives. */
  lemma DisagreementSays(out: Classification, all: seq<Failure>, c: Corroboration, classify: Classifier, d: Disagreement)
    requires IsClassificationOf(out, all, c, classify) && d in out.disagreements
    ensures d.failure in all && d.declined == DeclinedReason(c, d.failure.specPath)
    ensures classify(d.attempt.error) == Some(d.signature) && FirstEarlier(d.failure, Classifies(classify), d.attempt)
  {
    var disputed := Filter(all, IsDisputed(c, classify));
    var i :| 0 <= i < |disputed| && out.disagreements[i] == d;
    FilterMembers(all, IsDisputed(c, classify));
    assert disputed[i] in disputed;
    DecidingAttempt(disputed[i], c, classify);
  }
}
