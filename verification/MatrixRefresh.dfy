/**
 * Recomputing the derivable half of the coverage matrix.
 *
 * Numbers are exact: mitigation in hundredths, penalty in thousandths, risk in tenths, each
 * rounded half away from zero where the script rounds.
 */
module MatrixRefresh {
  import opened Texts
  import opened Sequences

  /* ---- rounding ---- */

  /** The integer nearest to `num / den`, halves away from zero. */
  function Rounded(num: int, den: int): int
    requires den > 0
  {
    if num >= 0 then (2 * num + den) / (2 * den) else -((-2 * num + den) / (2 * den))
  }

  lemma RoundedNonNegative(num: int, den: int)
    requires den > 0 && num >= 0
    ensures Rounded(num, den) >= 0 && 2 * den * Rounded(num, den) <= 2 * num + den < 2 * den * (Rounded(num, den) + 1)
  {
  }

  /** Rounding keeps order and does not pass an integer. */
  lemma RoundedMonotone(a: int, b: int, den: int)
    requires den > 0 && 0 <= a <= b
    ensures 0 <= Rounded(a, den) <= Rounded(b, den)
  {
    RoundedNonNegative(a, den);
    RoundedNonNegative(b, den);
    if Rounded(b, den) < Rounded(a, den) {
      MulMonotone(2 * den, Rounded(b, den) + 1, Rounded(a, den));
      assert false;
    }
  }

  lemma MulMonotone(k: int, a: int, b: int)
    requires k >= 0 && a <= b
    ensures k * a <= k * b
  {
  }

  lemma RoundedExact(n: nat, den: int)
    requires den > 0
    ensures Rounded(n * den, den) == n
  {
    RoundedNonNegative(n * den, den);
    var r := Rounded(n * den, den);
    assert n * den >= 0 by { MulMonotone(den, 0, n); }
    assert 2 * den * n == 2 * (n * den) && 2 * den * (n + 1) == 2 * (n * den) + 2 * den;
    if r < n {
      MulMonotone(2 * den, r + 1, n);
      assert false;
    } else if r > n {
      MulMonotone(2 * den, n + 1, r);
      assert false;
    }
  }

  /** A value at most the integer `n` rounds to at most `n`. */
  lemma RoundedAtMost(num: int, den: int, n: nat)
    requires den > 0 && 0 <= num <= n * den
    ensures 0 <= Rounded(num, den) <= n
  {
    RoundedMonotone(num, n * den, den);
    RoundedExact(n, den);
  }

  lemma RoundedAtLeast(num: int, den: int, n: nat)
    requires den > 0 && n * den <= num
    ensures Rounded(num, den) >= n
  {
    MulMonotone(den, 0, n);
    RoundedMonotone(n * den, num, den);
    RoundedExact(n, den);
  }

  /* ---- the arithmetic ---- */

  function Min(a: nat, b: nat): nat
  {
    if a <= b then a else b
  }

  /** Half of the mitigation times the share of stable tests that are chronic, at most one; in thousandths. */
  function Penalty(m: int, chronic: nat, stable: nat): int
  {
    if stable == 0 || chronic == 0 then 0 else Rounded(5 * m * Min(chronic, stable), stable)
  }

  /** What the penalty leaves of the gross mitigation, back in hundredths. */
  function Effective(gross: int, penalty: int): int
  {
    Rounded(10 * gross - penalty, 10)
  }

  /** The part of the inherent risk that is not mitigated, in tenths. */
  function Residual(inherent: nat, effective: int): int
  {
    Rounded(inherent * (100 - effective), 100)
  }

  /** A penalty never takes more than half, and grows with the chronic failures. */
  lemma PenaltyBounds(m: nat, chronic: nat, stable: nat)
    ensures 0 <= Penalty(m, chronic, stable) <= 5 * m
  {
    if stable > 0 && chronic > 0 {
      MulMonotone(5 * m, 0, Min(chronic, stable));
      MulMonotone(5 * m, Min(chronic, stable), stable);
      RoundedAtMost(5 * m * Min(chronic, stable), stable, 5 * m);
    }
  }

  lemma PenaltyGrows(m: nat, less: nat, more: nat, stable: nat)
    requires less <= more
    ensures Penalty(m, less, stable) <= Penalty(m, more, stable)
  {
    if stable > 0 && less > 0 {
      MulMonotone(5 * m, 0, Min(less, stable));
      MulMonotone(5 * m, Min(less, stable), Min(more, stable));
      RoundedMonotone(5 * m * Min(less, stable), 5 * m * Min(more, stable), stable);
    } else {
      PenaltyBounds(m, more, stable);
    }
  }

  /** What is left of a gross mitigation: between half of it and all of it. */
  lemma EffectiveBounds(gross: nat, chronic: nat, stable: nat)
    ensures gross <= 2 * Effective(gross, Penalty(gross, chronic, stable))
    ensures Effective(gross, Penalty(gross, chronic, stable)) <= gross
  {
    var p := Penalty(gross, chronic, stable);
    PenaltyBounds(gross, chronic, stable);
    RoundedAtMost(10 * gross - p, 10, gross);
    RoundedAtLeast(10 * gross - p, 10, gross / 2);
    RoundedMonotone(5 * gross, 10 * gross - p, 10);
    RoundedNonNegative(5 * gross, 10);
  }

  lemma ResidualBounds(inherent: nat, effective: nat)
    requires effective <= 100
    ensures 0 <= Residual(inherent, effective) <= inherent
  {
    MulMonotone(inherent, 0, 100 - effective);
    MulMonotone(inherent, 100 - effective, 100);
    RoundedAtMost(inherent * (100 - effective), 100, inherent);
  }

  lemma ResidualGrows(inherent: nat, more: nat, less: nat)
    requires less <= more <= 100
    ensures Residual(inherent, more) <= Residual(inherent, less)
  {
    MulMonotone(inherent, 0, 100 - more);
    MulMonotone(inherent, 100 - more, 100 - less);
    RoundedMonotone(inherent * (100 - more), inherent * (100 - less), 100);
  }

  /* ---- areas and measurements ---- */

  datatype TestHealth = TestHealth(chronicHardFailures: nat, chronicFlaky: nat, stableSpecs: nat, penalty: int)

  datatype SpecCounts = SpecCounts(specs: nat, stable: nat)

  /** The fields a refresh may rewrite. */
  datatype Derived = Derived(
    checklistBullets: nat, bulletStates: map<char, nat>, mitigationBulletDerived: Option<int>, mitigation: int,
    testHealth: Option<TestHealth>, specCounts: Option<SpecCounts>, residualRisk: int)

  /** The fields it must not: each needs a human or a full generation. */
  datatype Judged = Judged(inherentRisk: nat, mitigationOverride: Option<int>, rest: map<string, string>)

  datatype Area = Area(name: string, judged: Judged, derived: Derived)

  datatype AreaBullets = AreaBullets(bullets: nat, states: map<char, nat>, mitigation: nat)

  datatype AreaHealth = AreaHealth(chronicHardFailures: nat, chronicFlaky: nat)

  datatype Measured = Measured(
    bullets: map<string, AreaBullets>, health: map<string, AreaHealth>, specCounts: map<string, SpecCounts>)

  datatype Warning = NoSections(area: string) | StaleOverride(area: string, measured: nat, override: int)

  datatype Field = ChecklistBullets | BulletStates | MitigationBulletDerived | Mitigation | Health | Specs | ResidualRisk

  const DERIVED_FIELDS: seq<Field> :=
    [ChecklistBullets, BulletStates, MitigationBulletDerived, Mitigation, Health, Specs, ResidualRisk]

  datatype Change = Change(area: string, field: Field, before: Derived, after: Derived)

  predicate SameField(f: Field, a: Derived, b: Derived)
  {
    match f
    case ChecklistBullets => a.checklistBullets == b.checklistBullets
    case BulletStates => a.bulletStates == b.bulletStates
    case MitigationBulletDerived => a.mitigationBulletDerived == b.mitigationBulletDerived
    case Mitigation => a.mitigation == b.mitigation
    case Health => a.testHealth == b.testHealth
    case Specs => a.specCounts == b.specCounts
    case ResidualRisk => a.residualRisk == b.residualRisk
  }

  /* ---- one area ---- */

  function HealthOf(measured: Measured, name: string): AreaHealth
  {
    if name in measured.health then measured.health[name] else AreaHealth(0, 0)
  }

  function SpecsOf(measured: Measured, name: string): Option<SpecCounts>
  {
    if name in measured.specCounts then Some(measured.specCounts[name]) else None
  }

  function StableOf(specs: Option<SpecCounts>): nat
  {
    if specs.Some? then specs.value.stable else 0
  }

  function Gross(judged: Judged, b: AreaBullets): int
  {
    if judged.mitigationOverride.Some? then judged.mitigationOverride.value else b.mitigation
  }

  function DerivedFor(judged: Judged, b: AreaBullets, health: AreaHealth, specs: Option<SpecCounts>): Derived
  {
    var gross, stable := Gross(judged, b), StableOf(specs);
    var p := Penalty(gross, health.chronicHardFailures + health.chronicFlaky, stable);
    var effective := Effective(gross, p);
    Derived(b.bullets, b.states, Some(b.mitigation), effective,
            Some(TestHealth(health.chronicHardFailures, health.chronicFlaky, stable, p)), specs,
            Residual(judged.inherentRisk, effective))
  }

  function Refreshed(measured: Measured): Area -> Area
  {
    (a: Area) =>
      if a.name !in measured.bullets then a
      else a.(derived := DerivedFor(a.judged, measured.bullets[a.name], HealthOf(measured, a.name), SpecsOf(measured, a.name)))
  }

  function WarningsFor(measured: Measured, a: Area): seq<Warning>
  {
    if a.name !in measured.bullets then [NoSections(a.name)]
    else
      var m, o := measured.bullets[a.name].mitigation, a.judged.mitigationOverride;
      if o.Some? && m > o.value then [StaleOverride(a.name, m, o.value)] else []
  }

  function ChangesOver(fields: seq<Field>, a: Area, next: Area): seq<Change>
  {
    if fields == [] then []
    else
      var n := |fields| - 1;
      var front := ChangesOver(fields[..n], a, next);
      if SameField(fields[n], a.derived, next.derived) then front else front + [Change(a.name, fields[n], a.derived, next.derived)]
  }

  /** An area without sections is copied before its fields are compared. */
  function ChangesFor(measured: Measured, a: Area): seq<Change>
  {
    if a.name !in measured.bullets then [] else ChangesOver(DERIVED_FIELDS, a, Refreshed(measured)(a))
  }

  /* ---- all of them ---- */

  datatype RefreshResult = RefreshResult(areas: seq<Area>, changes: seq<Change>, warnings: seq<Warning>)

  function AllChanges(measured: Measured, areas: seq<Area>): seq<Change>
  {
    if areas == [] then []
    else AllChanges(measured, areas[..|areas| - 1]) + ChangesFor(measured, areas[|areas| - 1])
  }

  function AllWarnings(measured: Measured, areas: seq<Area>): seq<Warning>
  {
    if areas == [] then []
    else AllWarnings(measured, areas[..|areas| - 1]) + WarningsFor(measured, areas[|areas| - 1])
  }

  predicate Riskier(a: Area, b: Area)
  {
    a.derived.residualRisk >= b.derived.residualRisk
  }

  function RefreshOf(areas: seq<Area>, measured: Measured): RefreshResult
  {
    RefreshResult(StableSort(MapSeq(areas, Refreshed(measured)), Riskier), AllChanges(measured, areas), AllWarnings(measured, areas))
  }

  method RefreshArea(area: Area, measured: Measured) returns (next: Area, changes: seq<Change>, warnings: seq<Warning>)
    ensures next == Refreshed(measured)(area)
    ensures changes == ChangesFor(measured, area) && warnings == WarningsFor(measured, area)
  {
    changes, warnings := [], [];
    next := area;
    if area.name !in measured.bullets {
      return next, changes, [NoSections(area.name)];
    }
    var b, specs, health := measured.bullets[area.name], SpecsOf(measured, area.name), HealthOf(measured, area.name);
    var override := area.judged.mitigationOverride;
    if override.Some? && b.mitigation > override.value {
      warnings := [StaleOverride(area.name, b.mitigation, override.value)];
    }
    var gross := if override.Some? then override.value else b.mitigation;
    var p := Penalty(gross, health.chronicHardFailures + health.chronicFlaky, StableOf(specs));
    var effective := Effective(gross, p);
    next := area.(derived := Derived(
      b.bullets, b.states, Some(b.mitigation), effective,
      Some(TestHealth(health.chronicHardFailures, health.chronicFlaky, StableOf(specs), p)), specs,
      Residual(area.judged.inherentRisk, effective)));
    changes := CompareFields(area, next);
  }

  method CompareFields(area: Area, next: Area) returns (changes: seq<Change>)
    ensures changes == ChangesOver(DERIVED_FIELDS, area, next)
  {
    changes := [];
    for f := 0 to |DERIVED_FIELDS|
      invariant changes == ChangesOver(DERIVED_FIELDS[..f], area, next)
    {
      assert DERIVED_FIELDS[..f + 1][..f] == DERIVED_FIELDS[..f];
      if !SameField(DERIVED_FIELDS[f], area.derived, next.derived) {
        changes := changes + [Change(area.name, DERIVED_FIELDS[f], area.derived, next.derived)];
      }
    }
    TakeAll(DERIVED_FIELDS);
  }

  datatype RefreshError = JudgedFieldMutated

  /** The check that guards the judged fields before the sort. */
  method CheckJudged(areas: seq<Area>, refreshed: seq<Area>) returns (untouched: bool)
    requires |refreshed| == |areas|
    ensures untouched <==> forall i | 0 <= i < |areas| :: areas[i].judged == refreshed[i].judged
  {
    for i := 0 to |areas|
      invariant forall k | 0 <= k < i :: areas[k].judged == refreshed[k].judged
    {
      if areas[i].judged != refreshed[i].judged { return false; }
    }
    return true;
  }

  lemma OneMoreArea(measured: Measured, areas: seq<Area>, i: nat)
    requires i < |areas|
    ensures MapSeq(areas[..i + 1], Refreshed(measured)) == MapSeq(areas[..i], Refreshed(measured)) + [Refreshed(measured)(areas[i])]
    ensures AllChanges(measured, areas[..i + 1]) == AllChanges(measured, areas[..i]) + ChangesFor(measured, areas[i])
    ensures AllWarnings(measured, areas[..i + 1]) == AllWarnings(measured, areas[..i]) + WarningsFor(measured, areas[i])
  {
    assert areas[..i + 1][..i] == areas[..i];
  }

  /** The guard never fires. */
  method RefreshAreas(areas: seq<Area>, measured: Measured) returns (r: Result<RefreshResult, RefreshError>)
    ensures r == Ok(RefreshOf(areas, measured))
  {
    var refreshed: seq<Area>, changes: seq<Change>, warnings: seq<Warning> := [], [], [];
    for i := 0 to |areas|
      invariant refreshed == MapSeq(areas[..i], Refreshed(measured))
      invariant changes == AllChanges(measured, areas[..i]) && warnings == AllWarnings(measured, areas[..i])
    {
      OneMoreArea(measured, areas, i);
      var next, c, w := RefreshArea(areas[i], measured);
      refreshed, changes, warnings := refreshed + [next], changes + c, warnings + w;
    }
    TakeAll(areas);
    var untouched := CheckJudged(areas, refreshed);
    if !untouched { return Err(JudgedFieldMutated); }
    return Ok(RefreshResult(StableSort(refreshed, Riskier), changes, warnings));
  }

  /* ---- what a refresh promises ---- */

  lemma RiskierOrder()
    ensures TotalOrder(Riskier)
  {
  }

  function Identity(a: Area): (string, Judged)
  {
    (a.name, a.judged)
  }

  /** The output is the areas, each with its name and judged fields, by descending residual risk. */
  lemma RefreshPermutes(areas: seq<Area>, measured: Measured)
    ensures var out := RefreshOf(areas, measured).areas;
            && multiset(MapSeq(out, Identity)) == multiset(MapSeq(areas, Identity))
            && multiset(out) == multiset(MapSeq(areas, Refreshed(measured)))
            && forall i, j | 0 <= i < j < |out| :: out[i].derived.residualRisk >= out[j].derived.residualRisk
  {
    var refreshed := MapSeq(areas, Refreshed(measured));
    var out := StableSort(refreshed, Riskier);
    RiskierOrder();
    StableSortProperties(refreshed, Riskier);
    SortMapped(refreshed, Riskier, Identity);
    assert MapSeq(refreshed, Identity) == MapSeq(areas, Identity);
    forall i, j | 0 <= i < j < |out| ensures out[i].derived.residualRisk >= out[j].derived.residualRisk {
      assert Riskier(out[i], out[j]);
    }
  }

  predicate Settled(measured: Measured, a: Area)
  {
    Refreshed(measured)(a) == a
  }

  lemma RefreshedSettles(measured: Measured, a: Area)
    ensures Settled(measured, Refreshed(measured)(a))
  {
  }

  lemma {:induction false} NoFieldChanged(fields: seq<Field>, a: Area)
    ensures ChangesOver(fields, a, a) == []
  {
    if fields != [] {
      NoFieldChanged(fields[..|fields| - 1], a);
    }
  }

  lemma {:induction false} SettledAreas(measured: Measured, areas: seq<Area>)
    requires forall i | 0 <= i < |areas| :: Settled(measured, areas[i])
    ensures MapSeq(areas, Refreshed(measured)) == areas && AllChanges(measured, areas) == []
  {
    if areas != [] {
      var n := |areas| - 1;
      SettledAreas(measured, areas[..n]);
      NoFieldChanged(DERIVED_FIELDS, areas[n]);
      assert areas == areas[..n] + [areas[n]];
      assert MapSeq(areas, Refreshed(measured)) == MapSeq(areas[..n], Refreshed(measured)) + [Refreshed(measured)(areas[n])];
    }
  }

  /** Refreshing the output again with the same measurements changes nothing, not even the order. */
  lemma RefreshIsIdempotent(areas: seq<Area>, measured: Measured)
    ensures var once := RefreshOf(areas, measured).areas;
            RefreshOf(once, measured).areas == once && RefreshOf(once, measured).changes == []
  {
    var refreshed := MapSeq(areas, Refreshed(measured));
    var once := StableSort(refreshed, Riskier);
    RiskierOrder();
    StableSortProperties(refreshed, Riskier);
    forall i | 0 <= i < |once| ensures Settled(measured, once[i]) {
      assert once[i] in once;
      var k :| 0 <= k < |refreshed| && refreshed[k] == once[i];
      RefreshedSettles(measured, areas[k]);
    }
    SettledAreas(measured, once);
    StableSortOfSorted(once, Riskier);
  }

  /** A change is reported exactly for the fields that moved. */
  lemma {:induction false} ChangesMeaning(fields: seq<Field>, a: Area, next: Area)
    ensures forall f :: (exists c <- ChangesOver(fields, a, next) :: c.field == f)
                        <==> f in fields && !SameField(f, a.derived, next.derived)
  {
    if fields != [] {
      var n := |fields| - 1;
      ChangesMeaning(fields[..n], a, next);
      assert fields == fields[..n] + [fields[n]];
      var front := ChangesOver(fields[..n], a, next);
      forall f ensures (exists c <- ChangesOver(fields, a, next) :: c.field == f)
                       <==> f in fields && !SameField(f, a.derived, next.derived)
      {
        var last := Change(a.name, fields[n], a.derived, next.derived);
        assert forall c :: c in ChangesOver(fields, a, next)
                           <==> (c in front || (!SameField(fields[n], a.derived, next.derived) && c == last));
        if f == fields[n] && !SameField(f, a.derived, next.derived) {
          assert Change(a.name, f, a.derived, next.derived) in ChangesOver(fields, a, next);
        }
      }
    }
  }

  /** So an area with measured bullets moves exactly when some change names it. */
  lemma NoChangeNoMove(measured: Measured, a: Area)
    ensures ChangesFor(measured, a) == [] <==> Settled(measured, a)
  {
    if a.name in measured.bullets {
      var next := Refreshed(measured)(a);
      ChangesMeaning(DERIVED_FIELDS, a, next);
      AllFieldsSame(a.derived, next.derived);
      if ChangesFor(measured, a) != [] {
        var c := ChangesFor(measured, a)[0];
        assert c in ChangesOver(DERIVED_FIELDS, a, next);
        assert !SameField(c.field, a.derived, next.derived);
      }
    }
  }

  lemma AllFieldsSame(a: Derived, b: Derived)
    ensures (forall f <- DERIVED_FIELDS :: SameField(f, a, b)) <==> a == b
  {
    if forall f <- DERIVED_FIELDS :: SameField(f, a, b) {
      assert DERIVED_FIELDS[0] in DERIVED_FIELDS && DERIVED_FIELDS[1] in DERIVED_FIELDS && DERIVED_FIELDS[2] in DERIVED_FIELDS;
      assert DERIVED_FIELDS[3] in DERIVED_FIELDS && DERIVED_FIELDS[4] in DERIVED_FIELDS && DERIVED_FIELDS[5] in DERIVED_FIELDS;
      assert DERIVED_FIELDS[6] in DERIVED_FIELDS;
    }
  }

  /**
   * Without an override, mitigation stays between half of what the bullets give and all of it,
   * and residual risk between nothing and the inherent risk.
   */
  lemma RefreshBounds(measured: Measured, a: Area)
    requires a.name in measured.bullets && a.judged.mitigationOverride.None?
    requires measured.bullets[a.name].mitigation <= 100
    ensures var d, gross := Refreshed(measured)(a).derived, measured.bullets[a.name].mitigation;
            && gross <= 2 * d.mitigation && d.mitigation <= gross
            && 0 <= d.residualRisk <= a.judged.inherentRisk
  {
    var gross, health, specs := measured.bullets[a.name].mitigation, HealthOf(measured, a.name), SpecsOf(measured, a.name);
    var chronic := health.chronicHardFailures + health.chronicFlaky;
    EffectiveBounds(gross, chronic, StableOf(specs));
    ResidualBounds(a.judged.inherentRisk, Effective(gross, Penalty(gross, chronic, StableOf(specs))));
  }

  /** More chronic failures never lower the residual risk, with or without an override in range. */
  lemma MoreChronicMoreRisk(measured: Measured, worse: Measured, a: Area)
    requires a.name in measured.bullets && worse == measured.(health := worse.health)
    requires 0 <= Gross(a.judged, measured.bullets[a.name]) <= 100
    requires HealthOf(measured, a.name).chronicHardFailures + HealthOf(measured, a.name).chronicFlaky
             <= HealthOf(worse, a.name).chronicHardFailures + HealthOf(worse, a.name).chronicFlaky
    ensures Refreshed(measured)(a).derived.residualRisk <= Refreshed(worse)(a).derived.residualRisk
    ensures Refreshed(measured)(a).derived.mitigation >= Refreshed(worse)(a).derived.mitigation
  {
    var gross, stable := Gross(a.judged, measured.bullets[a.name]), StableOf(SpecsOf(measured, a.name));
    var less := HealthOf(measured, a.name).chronicHardFailures + HealthOf(measured, a.name).chronicFlaky;
    var more := HealthOf(worse, a.name).chronicHardFailures + HealthOf(worse, a.name).chronicFlaky;
    PenaltyGrows(gross, less, more, stable);
    PenaltyBounds(gross, more, stable);
    RoundedMonotone(10 * gross - Penalty(gross, more, stable), 10 * gross - Penalty(gross, less, stable), 10);
    EffectiveBounds(gross, less, stable);
    EffectiveBounds(gross, more, stable);
    ResidualGrows(a.judged.inherentRisk, Effective(gross, Penalty(gross, less, stable)), Effective(gross, Penalty(gross, more, stable)));
  }

  /* ---- what the derived numbers are ---- */

  function Abs(x: int): nat
  {
    if x < 0 then -x else x
  }

  /** `r` is a whole number nearest to `num / den`. */
  predicate Nearest(r: int, num: int, den: int)
  {
    2 * Abs(den * r - num) <= den
  }

  lemma RoundedIsNearest(num: int, den: int)
    requires den > 0
    ensures Nearest(Rounded(num, den), num, den)
  {
    if num >= 0 {
      QuotientBounds(2 * num + den, 2 * den);
    } else {
      QuotientBounds(-2 * num + den, 2 * den);
    }
  }

  lemma QuotientBounds(num: nat, den: int)
    requires den > 0
    ensures den * (num / den) <= num < den * (num / den) + den
  {
  }

  /** Of two whole numbers equally near, rounding takes the one farther from zero. */
  lemma TiesGoOutward(num: int, den: int)
    requires den > 0 && 2 * Abs(den * Rounded(num, den) - num) == den
    ensures Abs(den * Rounded(num, den)) > Abs(num)
  {
    if num >= 0 {
      QuotientBounds(2 * num + den, 2 * den);
    } else {
      QuotientBounds(-2 * num + den, 2 * den);
    }
  }

  /**
   * What the penalty means: nothing without a chronic failure or a stable spec, else the nearest
   * thousandth to half the mitigation times the share of the stable specs that are chronic, and
   * exactly half the mitigation once every one of them is.
   */
  lemma PenaltyMeaning(m: int, chronic: nat, stable: nat)
    ensures stable == 0 || chronic == 0 ==> Penalty(m, chronic, stable) == 0
    ensures 0 < chronic < stable ==> Nearest(Penalty(m, chronic, stable), 5 * m * chronic, stable)
    ensures 0 < stable <= chronic && m >= 0 ==> Penalty(m, chronic, stable) == 5 * m
  {
    if 0 < chronic < stable {
      RoundedIsNearest(5 * m * chronic, stable);
    } else if 0 < stable <= chronic && m >= 0 {
      RoundedExact(5 * m, stable);
    }
  }

  /** What is judged to be mitigated before test health is looked at: the human's number where there is one. */
  predicate IsGross(a: Area, b: AreaBullets, gross: int)
  {
    match a.judged.mitigationOverride case Some(o) => gross == o case None => gross == b.mitigation
  }

  /** How many of an area's stable specs are chronic, red or flaky. */
  predicate IsChronic(measured: Measured, name: string, chronic: nat)
  {
    chronic == if name in measured.health
               then measured.health[name].chronicHardFailures + measured.health[name].chronicFlaky else 0
  }

  predicate IsStableCount(measured: Measured, name: string, stable: nat)
  {
    stable == if name in measured.specCounts then measured.specCounts[name].stable else 0
  }

  /**
   * A measured area after a refresh: the bullets and their states as measured, the effective
   * mitigation nearest to the gross one less the penalty, the residual risk nearest to what the
   * mitigation leaves of the inherent one; the name and the judged fields as they were.
   */
  lemma RefreshedSays(measured: Measured, a: Area, gross: int, chronic: nat, stable: nat)
    requires a.name in measured.bullets
    requires IsGross(a, measured.bullets[a.name], gross) && IsChronic(measured, a.name, chronic) && IsStableCount(measured, a.name, stable)
    ensures var next, b := Refreshed(measured)(a), measured.bullets[a.name];
            var d := next.derived;
            && next.name == a.name && next.judged == a.judged
            && d.checklistBullets == b.bullets && d.bulletStates == b.states && d.mitigationBulletDerived == Some(b.mitigation)
            && d.testHealth.Some? && d.testHealth.value.penalty == Penalty(gross, chronic, stable)
            && d.testHealth.value.chronicHardFailures + d.testHealth.value.chronicFlaky == chronic
            && (a.name in measured.health ==> d.testHealth.value.chronicHardFailures == measured.health[a.name].chronicHardFailures)
            && d.testHealth.value.stableSpecs == stable
            && d.specCounts == (if a.name in measured.specCounts then Some(measured.specCounts[a.name]) else None)
            && Nearest(d.mitigation, 10 * gross - Penalty(gross, chronic, stable), 10)
            && Nearest(d.residualRisk, a.judged.inherentRisk * (100 - d.mitigation), 100)
  {
    var effective := Effective(gross, Penalty(gross, chronic, stable));
    RoundedIsNearest(10 * gross - Penalty(gross, chronic, stable), 10);
    RoundedIsNearest(a.judged.inherentRisk * (100 - effective), 100);
  }

  /** An area without sections is left as it is, and only its missing sections are warned about. */
  lemma UnmeasuredStays(measured: Measured, a: Area)
    requires a.name !in measured.bullets
    ensures Refreshed(measured)(a) == a && ChangesFor(measured, a) == [] && WarningsFor(measured, a) == [NoSections(a.name)]
  {
  }

  lemma {:induction false} WarningsMembers(measured: Measured, areas: seq<Area>, w: Warning)
    ensures w in AllWarnings(measured, areas) <==> exists a <- areas :: w in WarningsFor(measured, a)
  {
    if areas != [] {
      var n := |areas| - 1;
      WarningsMembers(measured, areas[..n], w);
      assert areas == areas[..n] + [areas[n]];
    }
  }

  /** An override is reported as stale exactly when the measured mitigation has overtaken it, and an area exactly when it has no sections. */
  lemma WarnedIff(areas: seq<Area>, measured: Measured, name: string, m: nat, override: int)
    ensures StaleOverride(name, m, override) in RefreshOf(areas, measured).warnings
            <==> name in measured.bullets && m == measured.bullets[name].mitigation > override
                 && exists a <- areas :: a.name == name && a.judged.mitigationOverride == Some(override)
    ensures NoSections(name) in RefreshOf(areas, measured).warnings
            <==> name !in measured.bullets && exists a <- areas :: a.name == name
  {
    WarningsMembers(measured, areas, StaleOverride(name, m, override));
    WarningsMembers(measured, areas, NoSections(name));
  }

  lemma {:induction false} ChangesMembers(measured: Measured, areas: seq<Area>, c: Change)
    ensures c in AllChanges(measured, areas) <==> exists a <- areas :: c in ChangesFor(measured, a)
  {
    if areas != [] {
      var n := |areas| - 1;
      ChangesMembers(measured, areas[..n], c);
      assert areas == areas[..n] + [areas[n]];
    }
  }

  lemma {:induction false} ChangeRows(fields: seq<Field>, a: Area, next: Area, c: Change)
    ensures c in ChangesOver(fields, a, next)
            <==> c == Change(a.name, c.field, a.derived, next.derived) && c.field in fields && !SameField(c.field, a.derived, next.derived)
  {
    if fields != [] {
      var n := |fields| - 1;
      ChangeRows(fields[..n], a, next, c);
      assert fields == fields[..n] + [fields[n]];
    }
  }

  lemma EveryFieldIsCompared(f: Field)
    ensures f in DERIVED_FIELDS
  {
    match f {
      case ChecklistBullets => assert DERIVED_FIELDS[0] == f;
      case BulletStates => assert DERIVED_FIELDS[1] == f;
      case MitigationBulletDerived => assert DERIVED_FIELDS[2] == f;
      case Mitigation => assert DERIVED_FIELDS[3] == f;
      case Health => assert DERIVED_FIELDS[4] == f;
      case Specs => assert DERIVED_FIELDS[5] == f;
      case ResidualRisk => assert DERIVED_FIELDS[6] == f;
    }
  }

  /** The named field holds another value. */
  predicate Moved(f: Field, before: Derived, after: Derived)
  {
    || (f == ChecklistBullets && before.checklistBullets != after.checklistBullets)
    || (f == BulletStates && before.bulletStates != after.bulletStates)
    || (f == MitigationBulletDerived && before.mitigationBulletDerived != after.mitigationBulletDerived)
    || (f == Mitigation && before.mitigation != after.mitigation)
    || (f == Health && before.testHealth != after.testHealth)
    || (f == Specs && before.specCounts != after.specCounts)
    || (f == ResidualRisk && before.residualRisk != after.residualRisk)
  }

  lemma MovedIff(f: Field, before: Derived, after: Derived)
    ensures Moved(f, before, after) <==> !SameField(f, before, after)
  {
  }

  /** A change row stands for one derived field of one area that moved, with the values before and after; every such field has one. */
  lemma ChangedIff(areas: seq<Area>, measured: Measured, c: Change)
    ensures c in RefreshOf(areas, measured).changes
            <==> exists a <- areas :: c.area == a.name && c.before == a.derived && c.after == Refreshed(measured)(a).derived
                                      && Moved(c.field, c.before, c.after)
  {
    ChangesMembers(measured, areas, c);
    EveryFieldIsCompared(c.field);
    MovedIff(c.field, c.before, c.after);
    forall a <- areas
      ensures c in ChangesFor(measured, a)
              <==> c.area == a.name && c.before == a.derived && c.after == Refreshed(measured)(a).derived
                   && Moved(c.field, c.before, c.after)
    {
      ChangeRows(DERIVED_FIELDS, a, Refreshed(measured)(a), c);
    }
  }
}
