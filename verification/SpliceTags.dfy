/**
 * Cutting `@stable` elements out of a file, back to front.
 *
 * Each match yields the range of one array element; the ranges are sorted by start,
 * latest first, and cut one after another from the text as it then stands.
 */
module SpliceTags {
  import opened Sequences

  datatype Range = Range(start: nat, end: nat)

  /** The element to drop, among the spans of all the elements of its tag array. */
  datatype Match = Match(elements: seq<Range>, idx: nat, line: nat)

  ghost predicate ValidMatch(m: Match)
  {
    m.idx < |m.elements|
  }

  /** The characters to delete to drop one array element. */
  function SpliceRange(m: Match): (Range, bool)
    requires ValidMatch(m)
  {
    var el := m.elements[m.idx];
    if |m.elements| == 1 then (el, true)
    else if m.idx < |m.elements| - 1 then (Range(el.start, m.elements[m.idx + 1].start), false)
    else (Range(m.elements[m.idx - 1].end, el.end), false)
  }

  /* ---- the loop ---- */

  function Clamp(i: nat, text: string): nat
  {
    if i <= |text| then i else |text|
  }

  /** The text without one range; a range that reaches past the end stops there. */
  function Cut(text: string, r: Range): string
  {
    text[..Clamp(r.start, text)] + text[Clamp(r.end, text)..]
  }

  function CutAll(text: string, ranges: seq<Range>): string
  {
    if ranges == [] then text else Cut(CutAll(text, ranges[..|ranges| - 1]), ranges[|ranges| - 1])
  }

  predicate LaterFirst(a: Range, b: Range)
  {
    a.start >= b.start
  }

  function BackToFront(ranges: seq<Range>): seq<Range>
  {
    StableSort(ranges, LaterFirst)
  }

  method SpliceAll(text: string, ranges: seq<Range>) returns (out: string)
    ensures out == CutAll(text, BackToFront(ranges))
  {
    var sorted := BackToFront(ranges);
    out := text;
    for i := 0 to |sorted|
      invariant out == CutAll(text, sorted[..i])
    {
      assert sorted[..i + 1][..i] == sorted[..i];
      out := out[..Clamp(sorted[i].start, out)] + out[Clamp(sorted[i].end, out)..];
    }
    assert sorted[..|sorted|] == sorted;
  }

  /* ---- deleting everything at once ---- */

  predicate Covers(r: Range, i: int)
  {
    r.start <= i < r.end
  }

  predicate Covered(ranges: seq<Range>, i: int)
  {
    exists r <- ranges :: Covers(r, i)
  }

  function CoveredBy(ranges: seq<Range>): int -> bool
  {
    (i: int) => Covered(ranges, i)
  }

  /** The characters `from..to` of the text, without the dead ones. */
  function Surviving(text: string, dead: int -> bool, from: nat, to: nat): string
    requires to <= |text|
  {
    if from >= to then []
    else Surviving(text, dead, from, to - 1) + if dead(to - 1) then [] else [text[to - 1]]
  }

  /** All ranges deleted from the original text at once. */
  function DeleteAll(text: string, ranges: seq<Range>): string
  {
    Surviving(text, CoveredBy(ranges), 0, |text|)
  }

  predicate Apart(a: Range, b: Range)
  {
    a.end <= b.start || b.end <= a.start
  }

  predicate AllApart(ranges: seq<Range>)
  {
    forall i, j | 0 <= i < j < |ranges| :: Apart(ranges[i], ranges[j])
  }

  predicate Proper(ranges: seq<Range>, bound: nat)
  {
    forall r <- ranges :: r.start < r.end <= bound
  }

  lemma {:induction false} SurvivingAdds(text: string, dead: int -> bool, from: nat, mid: nat, to: nat)
    requires from <= mid <= to <= |text|
    ensures Surviving(text, dead, from, to) == Surviving(text, dead, from, mid) + Surviving(text, dead, mid, to)
  {
    if mid < to {
      SurvivingAdds(text, dead, from, mid, to - 1);
    }
  }

  lemma {:induction false} SurvivingAgrees(text: string, d1: int -> bool, d2: int -> bool, from: nat, to: nat)
    requires to <= |text| && forall i | from <= i < to :: d1(i) == d2(i)
    ensures Surviving(text, d1, from, to) == Surviving(text, d2, from, to)
  {
    if from < to {
      SurvivingAgrees(text, d1, d2, from, to - 1);
    }
  }

  lemma {:induction false} SurvivingWhole(text: string, dead: int -> bool, from: nat, to: nat)
    requires from <= to <= |text| && forall i | from <= i < to :: !dead(i)
    ensures Surviving(text, dead, from, to) == text[from..to]
  {
    if from < to {
      SurvivingWhole(text, dead, from, to - 1);
      assert text[from..to] == text[from..to - 1] + [text[to - 1]];
    }
  }

  lemma {:induction false} SurvivingNone(text: string, dead: int -> bool, from: nat, to: nat)
    requires to <= |text| && forall i | from <= i < to :: dead(i)
    ensures Surviving(text, dead, from, to) == []
  {
    if from < to {
      SurvivingNone(text, dead, from, to - 1);
    }
  }

  /** Cutting one more range in front of everything already deleted. */
  lemma OneMoreCut(text: string, d1: int -> bool, d2: int -> bool, r: Range)
    requires r.start <= r.end <= |text|
    requires forall i | 0 <= i < r.end :: !d1(i)
    requires forall i: nat :: d2(i) == (d1(i) || Covers(r, i))
    ensures Cut(Surviving(text, d1, 0, |text|), r) == Surviving(text, d2, 0, |text|)
  {
    var rest := Surviving(text, d1, r.end, |text|);
    assert Surviving(text, d1, 0, |text|) == text[..r.end] + rest by {
      SurvivingAdds(text, d1, 0, r.end, |text|);
      SurvivingWhole(text, d1, 0, r.end);
      FromZero(text, r.end);
    }
    assert Surviving(text, d2, 0, |text|) == text[..r.start] + rest by {
      SurvivingParts(text, d2, r);
      SurvivingAgrees(text, d1, d2, r.end, |text|);
    }
    CutInFront(text[..r.end], rest, r);
    PrefixOfPrefix(text, r.start, r.end);
  }

  lemma FromZero(text: string, i: nat)
    requires i <= |text|
    ensures text[0..i] == text[..i]
  {
  }

  lemma PrefixOfPrefix(text: string, i: nat, j: nat)
    requires i <= j <= |text|
    ensures text[..j][..i] == text[..i]
  {
  }

  lemma CutInFront(front: string, rest: string, r: Range)
    requires r.start <= r.end == |front|
    ensures Cut(front + rest, r) == front[..r.start] + rest
  {
    assert (front + rest)[..r.start] == front[..r.start];
    assert (front + rest)[r.end..] == rest;
  }

  lemma SurvivingParts(text: string, dead: int -> bool, r: Range)
    requires r.start <= r.end <= |text|
    requires forall i | 0 <= i < r.start :: !dead(i)
    requires forall i | r.start <= i < r.end :: dead(i)
    ensures Surviving(text, dead, 0, |text|) == text[..r.start] + Surviving(text, dead, r.end, |text|)
  {
    var kept := text[..r.start];
    assert Surviving(text, dead, 0, r.start) == kept by {
      SurvivingWhole(text, dead, 0, r.start);
      FromZero(text, r.start);
    }
    assert Surviving(text, dead, 0, r.end) == kept by {
      SurvivingAdds(text, dead, 0, r.start, r.end);
      SurvivingNone(text, dead, r.start, r.end);
    }
    SurvivingAdds(text, dead, 0, r.end, |text|);
  }

  /** Ranges latest first, none reaching into a later one. */
  ghost predicate Descending(ranges: seq<Range>)
  {
    forall i, j | 0 <= i < j < |ranges| :: ranges[j].end <= ranges[i].start
  }

  lemma CoveredSnoc(ranges: seq<Range>, i: int)
    requires ranges != []
    ensures Covered(ranges, i) == (Covered(ranges[..|ranges| - 1], i) || Covers(ranges[|ranges| - 1], i))
  {
    var n := |ranges| - 1;
    assert ranges == ranges[..n] + [ranges[n]];
  }

  lemma {:induction false} CutsAreDeletions(text: string, ranges: seq<Range>)
    requires Descending(ranges) && Proper(ranges, |text|)
    ensures CutAll(text, ranges) == DeleteAll(text, ranges)
  {
    if ranges == [] {
      SurvivingWhole(text, CoveredBy(ranges), 0, |text|);
      assert text[0..|text|] == text;
    } else {
      var n := |ranges| - 1;
      var front, r := ranges[..n], ranges[n];
      CutsAreDeletions(text, front);
      assert r in ranges;
      forall i | 0 <= i < r.end ensures !Covered(front, i) {
        forall k | 0 <= k < n ensures !Covers(front[k], i) {
          assert front[k] == ranges[k] && ranges[n].end <= ranges[k].start;
        }
      }
      forall i: nat ensures CoveredBy(ranges)(i) == (CoveredBy(front)(i) || Covers(r, i)) { CoveredSnoc(ranges, i); }
      OneMoreCut(text, CoveredBy(front), CoveredBy(ranges), r);
    }
  }

  lemma LaterFirstOrder()
    ensures TotalOrder(LaterFirst)
  {
  }

  /** Being pairwise apart survives any reordering. */
  lemma ApartPermutes(a: seq<Range>, b: seq<Range>, bound: nat)
    requires multiset(a) == multiset(b) && AllApart(a) && Proper(a, bound)
    ensures AllApart(b) && Proper(b, bound)
  {
    forall r <- b ensures r.start < r.end <= bound {
      assert r in multiset(a);
    }
    forall i, j | 0 <= i < j < |b| ensures Apart(b[i], b[j]) {
      if b[i] == b[j] {
        TwiceInMultiset(b, i, j);
        var k, l := TwiceInSequence(a, b[i]);
        assert b[i] in b;
      } else {
        assert b[i] in multiset(b) && b[j] in multiset(b);
        var k :| 0 <= k < |a| && a[k] == b[i];
        var l :| 0 <= l < |a| && a[l] == b[j];
        assert k < l ==> Apart(a[k], a[l]);
        assert l < k ==> Apart(a[l], a[k]);
      }
    }
  }

  lemma TwiceInMultiset(b: seq<Range>, i: nat, j: nat)
    requires i < j < |b| && b[i] == b[j]
    ensures multiset(b)[b[i]] >= 2
  {
    assert b == b[..j] + [b[j]] + b[j + 1..];
    assert b[..j][i] == b[i];
    assert b[i] in multiset(b[..j]);
  }

  lemma {:induction false} TwiceInSequence(a: seq<Range>, r: Range) returns (i: nat, j: nat)
    requires multiset(a)[r] >= 2
    ensures i < j < |a| && a[i] == a[j] == r
  {
    var n := |a| - 1;
    assert a == a[..n] + [a[n]];
    if a[n] == r {
      assert r in multiset(a[..n]);
      i :| 0 <= i < n && a[..n][i] == r;
      j := n;
    } else {
      i, j := TwiceInSequence(a[..n], r);
    }
  }

  lemma SortedApartIsDescending(ranges: seq<Range>, bound: nat)
    requires SortedBy(ranges, LaterFirst) && AllApart(ranges) && Proper(ranges, bound)
    ensures Descending(ranges)
  {
    forall i, j | 0 <= i < j < |ranges| ensures ranges[j].end <= ranges[i].start {
      assert LaterFirst(ranges[i], ranges[j]) && Apart(ranges[i], ranges[j]);
      assert ranges[i] in ranges && ranges[j] in ranges;
    }
  }

  lemma SortedRanges(ranges: seq<Range>, bound: nat)
    requires AllApart(ranges) && Proper(ranges, bound)
    ensures Descending(BackToFront(ranges)) && Proper(BackToFront(ranges), bound)
    ensures forall r :: r in BackToFront(ranges) <==> r in ranges
  {
    LaterFirstOrder();
    StableSortProperties(ranges, LaterFirst);
    ApartPermutes(ranges, BackToFront(ranges), bound);
    SortedApartIsDescending(BackToFront(ranges), bound);
  }

  lemma SameCover(a: seq<Range>, b: seq<Range>, i: int)
    requires forall r <- a :: r in b
    ensures Covered(a, i) ==> Covered(b, i)
  {
  }

  /** Deleting at once does not depend on the order or number of the ranges, only on which they are. */
  lemma SameDeletion(text: string, a: seq<Range>, b: seq<Range>)
    requires forall r :: r in a <==> r in b
    ensures DeleteAll(text, a) == DeleteAll(text, b)
  {
    forall i ensures Covered(a, i) == Covered(b, i) {
      SameCover(a, b, i);
      SameCover(b, a, i);
    }
    SurvivingAgrees(text, CoveredBy(a), CoveredBy(b), 0, |text|);
  }

  /**
   * Cutting back to front is deleting every range from the original text at once, in
   * whatever order the ranges were found, as long as no two of them meet.
   */
  lemma BackToFrontDeletesAll(text: string, ranges: seq<Range>)
    requires AllApart(ranges) && Proper(ranges, |text|)
    ensures CutAll(text, BackToFront(ranges)) == DeleteAll(text, ranges)
  {
    var sorted := BackToFront(ranges);
    SortedRanges(ranges, |text|);
    CutsAreDeletions(text, sorted);
    SameDeletion(text, sorted, ranges);
  }

  /* ---- and only then ---- */

  /** How many positions of `0..n` are dead. */
  function CountDead(dead: int -> bool, n: nat): nat
  {
    if n == 0 then 0 else CountDead(dead, n - 1) + if dead(n - 1) then 1 else 0
  }

  lemma {:induction false} SurvivingLength(text: string, dead: int -> bool, n: nat)
    requires n <= |text|
    ensures |Surviving(text, dead, 0, n)| == n - CountDead(dead, n)
  {
    if n > 0 {
      SurvivingLength(text, dead, n - 1);
    }
  }

  /** Counting two covers together counts their overlap once. */
  lemma {:induction false} CountUnion(a: int -> bool, b: int -> bool, u: int -> bool, o: int -> bool, n: nat)
    requires forall i | 0 <= i < n :: u(i) == (a(i) || b(i)) && o(i) == (a(i) && b(i))
    ensures CountDead(u, n) + CountDead(o, n) == CountDead(a, n) + CountDead(b, n)
  {
    if n > 0 {
      CountUnion(a, b, u, o, n - 1);
    }
  }

  lemma {:induction false} CountRange(r: Range, n: nat)
    requires r.start <= r.end
    ensures CountDead(i => Covers(r, i), n) == if n <= r.start then 0 else if n <= r.end then n - r.start else r.end - r.start
  {
    if n > 0 {
      CountRange(r, n - 1);
    }
  }

  lemma {:induction false} CountSome(dead: int -> bool, i: nat, n: nat)
    requires i < n && dead(i)
    ensures CountDead(dead, n) > 0
  {
    if i < n - 1 {
      CountSome(dead, i, n - 1);
    }
  }

  /** The last range adds its length, less its overlap with the ranges before it. */
  lemma CoverOneMore(ranges: seq<Range>, n: nat, both: int -> bool)
    requires Proper(ranges, n) && ranges != []
    requires forall i :: both(i) == (Covered(ranges[..|ranges| - 1], i) && Covers(ranges[|ranges| - 1], i))
    ensures var r := ranges[|ranges| - 1];
            CountDead(CoveredBy(ranges), n) + CountDead(both, n)
            == CountDead(CoveredBy(ranges[..|ranges| - 1]), n) + (r.end - r.start)
  {
    var m := |ranges| - 1;
    var front, r := ranges[..m], ranges[m];
    assert r in ranges;
    forall i ensures Covered(ranges, i) == (Covered(front, i) || Covers(r, i)) { CoveredSnoc(ranges, i); }
    CountUnion(CoveredBy(front), i => Covers(r, i), CoveredBy(ranges), both, n);
    CountRange(r, n);
  }

  /** Two ranges that meet share a position. */
  lemma Meeting(ranges: seq<Range>, k: nat, r: Range, n: nat) returns (i: nat)
    requires Proper(ranges, n) && k < |ranges| && r.start < r.end <= n && !Apart(ranges[k], r)
    ensures i < n && Covered(ranges, i) && Covers(r, i)
  {
    assert ranges[k] in ranges;
    i := if ranges[k].start <= r.start then r.start else ranges[k].start;
    assert Covers(ranges[k], i);
  }

  lemma ApartSnoc(front: seq<Range>, r: Range)
    requires AllApart(front) && forall k | 0 <= k < |front| :: Apart(front[k], r)
    ensures AllApart(front + [r])
  {
  }

  lemma {:induction false} NothingCovered(n: nat)
    ensures CountDead(CoveredBy([]), n) == 0
  {
    if n > 0 { NothingCovered(n - 1); }
  }

  /** Every range stops short of the end of the text. */
  ghost predicate Inside(ranges: seq<Range>, bound: nat)
  {
    forall r <- ranges :: r.start < r.end < bound
  }

  /** Where the ranges cut so far begin. */
  function Frontier(ranges: seq<Range>, n: nat): nat
  {
    if ranges == [] then n else ranges[|ranges| - 1].start
  }

  /** Dead positions between two live ends. */
  lemma {:induction false} CountWithin(dead: int -> bool, from: nat, n: nat)
    requires from < n && !dead(n - 1) && forall i | 0 <= i < from :: !dead(i)
    ensures CountDead(dead, n) <= n - 1 - from
  {
    CountUpTo(dead, from, n - 1);
  }

  lemma {:induction false} CountUpTo(dead: int -> bool, from: nat, n: nat)
    requires forall i | 0 <= i < from :: !dead(i)
    ensures CountDead(dead, n) <= if n <= from then 0 else n - from
  {
    if n > 0 {
      CountUpTo(dead, from, n - 1);
    }
  }

  /** Ranges that start at or after `from` leave everything before it, and the last character. */
  lemma CoverIsInside(ranges: seq<Range>, from: nat, n: nat)
    requires Inside(ranges, n) && from < n && forall r <- ranges :: from <= r.start
    ensures CountDead(CoveredBy(ranges), n) <= n - 1 - from
  {
    CountWithin(CoveredBy(ranges), from, n);
  }

  /** The overlap of one more range with those before it is empty only when it is apart from all of them. */
  lemma NoOverlapIsApart(front: seq<Range>, r: Range, both: int -> bool, n: nat)
    requires Proper(front, n) && r.start < r.end <= n
    requires forall i :: both(i) == (Covered(front, i) && Covers(r, i))
    requires CountDead(both, n) == 0 && AllApart(front)
    ensures AllApart(front + [r])
  {
    forall k | 0 <= k < |front| ensures Apart(front[k], r) {
      if !Apart(front[k], r) {
        var i := Meeting(front, k, r, n);
        CountSome(both, i, n);
      }
    }
    ApartSnoc(front, r);
  }

  /** What one more cut takes: its length, or everything that is left behind its start. */
  lemma CutLength(cur: string, r: Range)
    requires r.start <= r.end && r.start <= |cur|
    ensures |Cut(cur, r)| == if r.end <= |cur| then |cur| - (r.end - r.start) else r.start
  {
  }

  /**
   * Cut latest first, ranges inside the text never leave more than deleting them at once
   * does, and leave as much only when no two of them meet.
   */
  lemma {:induction false} CutsTakeAtLeast(text: string, ranges: seq<Range>)
    requires SortedBy(ranges, LaterFirst) && Inside(ranges, |text|)
    ensures Frontier(ranges, |text|) <= |CutAll(text, ranges)| <= |text| - CountDead(CoveredBy(ranges), |text|)
    ensures |CutAll(text, ranges)| == |text| - CountDead(CoveredBy(ranges), |text|) ==> AllApart(ranges)
  {
    if ranges == [] {
      NothingCovered(|text|);
    } else {
      var m := |ranges| - 1;
      assert ranges == ranges[..m] + [ranges[m]];
      CutsTakeAtLeast(text, ranges[..m]);
      OneMoreTakes(text, ranges[..m], ranges[m]);
    }
  }

  lemma OneMoreTakes(text: string, front: seq<Range>, r: Range)
    requires SortedBy(front + [r], LaterFirst) && Inside(front + [r], |text|)
    requires Frontier(front, |text|) <= |CutAll(text, front)| <= |text| - CountDead(CoveredBy(front), |text|)
    requires |CutAll(text, front)| == |text| - CountDead(CoveredBy(front), |text|) ==> AllApart(front)
    ensures r.start <= |CutAll(text, front + [r])| <= |text| - CountDead(CoveredBy(front + [r]), |text|)
    ensures |CutAll(text, front + [r])| == |text| - CountDead(CoveredBy(front + [r]), |text|) ==> AllApart(front + [r])
  {
    var all, cur, n := front + [r], CutAll(text, front), |text|;
    var both := (i: int) => Covered(front, i) && Covers(r, i);
    assert all[|all| - 1] == r && all[..|all| - 1] == front && r in all;
    FrontierAbove(front, r, n);
    CutLength(cur, r);
    if r.end <= |cur| {
      CoverOneMore(all, n, both);
      if |cur| == n - CountDead(CoveredBy(front), n) && CountDead(both, n) == 0 {
        NoOverlapIsApart(front, r, both, n);
      }
    } else {
      CoverIsInside(all, r.start, n);
    }
  }

  lemma FrontierAbove(front: seq<Range>, r: Range, n: nat)
    requires SortedBy(front + [r], LaterFirst) && Inside(front + [r], n)
    ensures r.start <= Frontier(front, n) && Proper(front, n) && r.end < n
    ensures forall q <- front + [r] :: r.start <= q.start
  {
    var all := front + [r];
    assert all[|all| - 1] == r && r in all;
    forall i | 0 <= i < |front| ensures all[i] == front[i] && LaterFirst(front[i], r) {
      assert LaterFirst(all[i], all[|all| - 1]);
    }
    forall q <- front ensures q.start < q.end <= n { assert q in all; }
  }

  /**
   * As long as no range reaches the end of the text, the loop deletes exactly the given
   * ranges if and only if no two of them share a character. It does not check.
   */
  lemma RightExactlyWhenApart(text: string, ranges: seq<Range>)
    requires Inside(ranges, |text|)
    ensures AllApart(ranges) <==> CutAll(text, BackToFront(ranges)) == DeleteAll(text, ranges)
  {
    var sorted := BackToFront(ranges);
    LaterFirstOrder();
    StableSortProperties(ranges, LaterFirst);
    if AllApart(ranges) {
      BackToFrontDeletesAll(text, ranges);
    }
    if CutAll(text, sorted) == DeleteAll(text, ranges) {
      SameDeletion(text, sorted, ranges);
      CutsTakeAtLeast(text, sorted);
      SurvivingLength(text, CoveredBy(sorted), |text|);
      ApartPermutes(sorted, ranges, |text|);
    }
  }

  lemma TwoCuts(text: string, r: Range)
    ensures CutAll(text, BackToFront([r, r])) == Cut(Cut(text, r), r)
  {
    assert [r, r][1..] == [r] && [r][1..] == [];
    assert StableSort([r], LaterFirst) == [r];
    assert BackToFront([r, r]) == [r, r];
    assert [r, r][..1] == [r] && [r][..0] == [];
    assert CutAll(text, [r]) == Cut(text, r);
  }

  lemma CutTwice(text: string, r: Range, gap: nat)
    requires r.start + gap == r.end && r.end + gap <= |text|
    ensures Cut(Cut(text, r), r) == text[..r.start] + text[r.end + gap..]
  {
    var a, b, c := text[..r.start], text[r.start..r.end], text[r.end..];
    ThreeParts(text, r.start, r.end);
    CutAgain(a, b, c, r);
    DropTwice(text, r.end, gap);
  }

  /** One range given twice takes as many characters again from whatever follows it. */
  lemma RangeTwiceEatsOn(text: string, r: Range)
    requires r.start <= r.end && r.end + (r.end - r.start) <= |text|
    ensures CutAll(text, BackToFront([r, r])) == text[..r.start] + text[r.end + (r.end - r.start)..]
  {
    var gap: nat := r.end - r.start;
    calc {
      CutAll(text, BackToFront([r, r]));
    ==  { TwoCuts(text, r); }
      Cut(Cut(text, r), r);
    ==  { CutTwice(text, r, gap); }
      text[..r.start] + text[r.end + gap..];
    }
  }

  lemma ThreeParts(text: string, i: nat, j: nat)
    requires i <= j <= |text|
    ensures text == text[..i] + text[i..j] + text[j..]
  {
  }

  lemma DropTwice(text: string, i: nat, k: nat)
    requires i + k <= |text|
    ensures text[i..][k..] == text[i + k..]
  {
  }

  lemma CutAgain(a: string, b: string, c: string, r: Range)
    requires r == Range(|a|, |a| + |b|) && |b| <= |c|
    ensures Cut(Cut(a + b + c, r), r) == a + c[|b|..]
  {
    assert (a + b + c)[..|a|] == a && (a + b + c)[|a| + |b|..] == c;
    assert (a + c)[..|a|] == a && (a + c)[|a| + |b|..] == c[|b|..];
  }
}
