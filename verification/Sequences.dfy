/** Filtering, de-duplication and stable sorting of sequences. */
module Sequences {
  import opened Texts

  function Filter<T>(xs: seq<T>, keep: T -> bool): (kept: seq<T>)
    ensures |kept| <= |xs|
  {
    if xs == [] then [] else if keep(xs[0]) then [xs[0]] + Filter(xs[1..], keep) else Filter(xs[1..], keep)
  }

  lemma {:induction false} FilterMembers<T>(xs: seq<T>, keep: T -> bool)
    ensures forall x :: x in Filter(xs, keep) <==> x in xs && keep(x)
  {
    if xs != [] {
      FilterMembers(xs[1..], keep);
      assert xs == [xs[0]] + xs[1..];
    }
  }

  lemma {:induction false} FilterAppend<T>(xs: seq<T>, ys: seq<T>, keep: T -> bool)
    ensures Filter(xs + ys, keep) == Filter(xs, keep) + Filter(ys, keep)
  {
    if xs == [] {
      assert xs + ys == ys;
    } else {
      assert (xs + ys)[1..] == xs[1..] + ys;
      FilterAppend(xs[1..], ys, keep);
      if keep(xs[0]) {
        assert [xs[0]] + (Filter(xs[1..], keep) + Filter(ys, keep)) == [xs[0]] + Filter(xs[1..], keep) + Filter(ys, keep);
      }
    }
  }

  lemma FilterSnoc<T>(xs: seq<T>, n: nat, keep: T -> bool)
    requires n < |xs|
    ensures Filter(xs[..n + 1], keep) == Filter(xs[..n], keep) + if keep(xs[n]) then [xs[n]] else []
  {
    assert xs[..n + 1] == xs[..n] + [xs[n]];
    FilterAppend(xs[..n], [xs[n]], keep);
  }

  /** The places below `to` of the elements with a property. */
  ghost function PlacesOf<T>(xs: seq<T>, p: T -> bool, to: nat): set<nat>
    requires to <= |xs|
  {
    set i: nat | i < to && p(xs[i])
  }

  lemma PlacesNext<T>(xs: seq<T>, p: T -> bool, n: nat)
    requires n < |xs|
    ensures |PlacesOf(xs, p, n + 1)| == |PlacesOf(xs, p, n)| + if p(xs[n]) then 1 else 0
  {
    assert PlacesOf(xs, p, n + 1) == PlacesOf(xs, p, n) + if p(xs[n]) then {n} else {};
  }

  /** Filtering keeps as many elements as there are places with the property. */
  lemma {:induction false} FilterCounts<T>(xs: seq<T>, p: T -> bool, to: nat)
    requires to <= |xs|
    ensures |Filter(xs[..to], p)| == |PlacesOf(xs, p, to)|
  {
    if to == 0 {
      assert PlacesOf(xs, p, to) == {};
    } else {
      FilterCounts(xs, p, to - 1);
      FilterSnoc(xs, to - 1, p);
      PlacesNext(xs, p, to - 1);
    }
  }

  lemma {:induction false} FilterAgrees<T>(xs: seq<T>, p: T -> bool, q: T -> bool)
    requires forall x <- xs :: p(x) == q(x)
    ensures Filter(xs, p) == Filter(xs, q)
  {
    if xs != [] {
      assert xs[0] in xs;
      FilterAgrees(xs[1..], p, q);
    }
  }

  lemma AppendAssoc<T>(a: seq<T>, b: seq<T>, c: seq<T>)
    ensures (a + b) + c == a + (b + c)
  {
  }

  lemma HeadTail<T>(xs: seq<T>)
    requires xs != []
    ensures [xs[0]] + xs[1..] == xs
  {
  }

  lemma TailOfAppend<T>(a: seq<T>, b: seq<T>)
    requires a != []
    ensures (a + b)[0] == a[0] && (a + b)[1..] == a[1..] + b
  {
  }

  lemma TakeAll<T>(xs: seq<T>)
    ensures xs[..|xs|] == xs
  {
  }

  lemma TakeNext<T>(xs: seq<T>, i: nat)
    requires i < |xs|
    ensures xs[..i + 1] == xs[..i] + [xs[i]]
  {
  }

  function MapSeq<T, U>(xs: seq<T>, f: T -> U): (ys: seq<U>)
    ensures |ys| == |xs| && forall i | 0 <= i < |xs| :: ys[i] == f(xs[i])
  {
    seq(|xs|, i requires 0 <= i < |xs| => f(xs[i]))
  }

  lemma MapCons<T, U>(xs: seq<T>, f: T -> U)
    requires xs != []
    ensures MapSeq(xs, f) == [f(xs[0])] + MapSeq(xs[1..], f)
  {
  }

  /** What `f` makes of each element, without those it makes nothing of. */
  function FilterMap<T, U>(xs: seq<T>, f: T -> Option<U>): seq<U>
  {
    if xs == [] then []
    else
      var n := |xs| - 1;
      var front, y := FilterMap(xs[..n], f), f(xs[n]);
      if y.Some? then front + [y.value] else front
  }

  lemma {:induction false} FilterMapMembers<T(!new), U>(xs: seq<T>, f: T -> Option<U>, y: U)
    ensures y in FilterMap(xs, f) <==> exists x <- xs :: f(x) == Some(y)
  {
    if xs != [] {
      var n := |xs| - 1;
      FilterMapMembers(xs[..n], f, y);
      assert xs == xs[..n] + [xs[n]];
    }
  }

  lemma FilterMapSnoc<T, U>(xs: seq<T>, n: nat, f: T -> Option<U>)
    requires n < |xs|
    ensures FilterMap(xs[..n + 1], f)
            == if f(xs[n]).Some? then FilterMap(xs[..n], f) + [f(xs[n]).value] else FilterMap(xs[..n], f)
  {
    assert xs[..n + 1][..n] == xs[..n];
  }

  lemma {:induction false} FilterMapAll<T, U>(xs: seq<T>, f: T -> Option<U>, ys: seq<U>)
    requires |xs| == |ys| && forall i | 0 <= i < |xs| :: f(xs[i]) == Some(ys[i])
    ensures FilterMap(xs, f) == ys
  {
    if xs != [] {
      var n := |xs| - 1;
      FilterMapAll(xs[..n], f, ys[..n]);
    }
  }

  lemma {:induction false} FilterMapAgrees<T, U>(xs: seq<T>, f: T -> Option<U>, g: T -> Option<U>)
    requires forall i | 0 <= i < |xs| :: f(xs[i]) == g(xs[i])
    ensures FilterMap(xs, f) == FilterMap(xs, g)
  {
    if xs != [] {
      FilterMapAgrees(xs[..|xs| - 1], f, g);
    }
  }

  /** `xs` appears in `ys` in order, with gaps. */
  predicate Subsequence<T(==)>(xs: seq<T>, ys: seq<T>)
  {
    if xs == [] then true
    else if ys == [] then false
    else if xs[0] == ys[0] then Subsequence(xs[1..], ys[1..])
    else Subsequence(xs, ys[1..])
  }

  lemma {:induction false} FilterAll<T>(xs: seq<T>, keep: T -> bool)
    requires forall i | 0 <= i < |xs| :: keep(xs[i])
    ensures Filter(xs, keep) == xs
  {
    if xs != [] {
      FilterAll(xs[1..], keep);
    }
  }

  lemma {:induction false} FilterNone<T>(xs: seq<T>, keep: T -> bool)
    requires forall i | 0 <= i < |xs| :: !keep(xs[i])
    ensures Filter(xs, keep) == []
  {
    if xs != [] {
      FilterNone(xs[1..], keep);
    }
  }

  /** A filter and its opposite share the elements out between them. */
  lemma {:induction false} FilterComplement<T>(xs: seq<T>, p: T -> bool, q: T -> bool)
    requires forall i | 0 <= i < |xs| :: q(xs[i]) == !p(xs[i])
    ensures |Filter(xs, p)| + |Filter(xs, q)| == |xs|
    ensures multiset(Filter(xs, p)) + multiset(Filter(xs, q)) == multiset(xs)
  {
    if xs != [] {
      FilterComplement(xs[1..], p, q);
      assert xs == [xs[0]] + xs[1..];
    }
  }

  /** Dropping more elements leaves a subsequence of what dropping fewer leaves. */
  lemma {:induction false} FilterSubsequence<T>(xs: seq<T>, p: T -> bool, q: T -> bool)
    requires forall x <- xs :: p(x) ==> q(x)
    ensures Subsequence(Filter(xs, p), Filter(xs, q))
  {
    if xs != [] {
      assert xs[0] in xs;
      FilterSubsequence(xs[1..], p, q);
      var ps, qs := Filter(xs[1..], p), Filter(xs[1..], q);
      if p(xs[0]) {
        assert ([xs[0]] + ps)[1..] == ps && ([xs[0]] + qs)[1..] == qs;
      } else if q(xs[0]) {
        SubsequenceSkip(ps, qs, xs[0]);
      }
    }
  }

  lemma {:induction false} SubsequenceSkip<T>(xs: seq<T>, ys: seq<T>, y: T)
    requires Subsequence(xs, ys)
    ensures Subsequence(xs, [y] + ys)
    decreases |xs| + |ys|, 1
  {
    assert ([y] + ys)[1..] == ys;
    if xs != [] && xs[0] == y {
      SubsequenceTail(xs, ys);
    }
  }

  lemma {:induction false} SubsequenceTail<T>(xs: seq<T>, ys: seq<T>)
    requires xs != [] && Subsequence(xs, ys)
    ensures Subsequence(xs[1..], ys)
    decreases |xs| + |ys|, 0
  {
    if xs[0] == ys[0] {
      SubsequenceSkip(xs[1..], ys[1..], ys[0]);
      assert ys == [ys[0]] + ys[1..];
    } else {
      SubsequenceTail(xs, ys[1..]);
      SubsequenceSkip(xs[1..], ys[1..], ys[0]);
      assert ys == [ys[0]] + ys[1..];
    }
  }

  /** First occurrences only, in order. */
  function Dedup<T(==)>(xs: seq<T>): seq<T>
  {
    if xs == [] then []
    else
      var n := |xs| - 1;
      var front := Dedup(xs[..n]);
      if xs[n] in front then front else front + [xs[n]]
  }

  predicate Distinct<T(==)>(xs: seq<T>)
  {
    forall i, j | 0 <= i < j < |xs| :: xs[i] != xs[j]
  }

  lemma {:induction false} DedupMembers<T>(xs: seq<T>)
    ensures Distinct(Dedup(xs))
    ensures forall x :: x in Dedup(xs) <==> x in xs
    ensures |Dedup(xs)| == |(set x <- xs)|
  {
    if xs == [] {
      assert (set x <- xs) == {};
    } else {
      var n := |xs| - 1;
      DedupMembers(xs[..n]);
      assert xs == xs[..n] + [xs[n]];
      assert (set x <- xs) == (set x <- xs[..n]) + {xs[n]};
    }
  }

  lemma {:induction false} DedupDistinct<T>(xs: seq<T>)
    requires Distinct(xs)
    ensures Dedup(xs) == xs
  {
    if xs != [] {
      var n := |xs| - 1;
      DedupDistinct(xs[..n]);
      assert xs == xs[..n] + [xs[n]];
      assert forall i | 0 <= i < n :: xs[..n][i] != xs[n];
    }
  }

  lemma DedupSnoc<T>(xs: seq<T>, n: nat)
    requires n < |xs|
    ensures Dedup(xs[..n + 1]) == if xs[n] in xs[..n] then Dedup(xs[..n]) else Dedup(xs[..n]) + [xs[n]]
  {
    DedupMembers(xs[..n]);
    assert xs[..n + 1][..n] == xs[..n];
  }

  /* ---- grouping ---- */

  function HasKey<T, K(==)>(key: T -> K, k: K): T -> bool
  {
    (x: T) => key(x) == k
  }

  /** The elements with one key: a bucket of a map filled in order. */
  function Having<T, K(==)>(xs: seq<T>, key: T -> K, k: K): seq<T>
  {
    Filter(xs, HasKey(key, k))
  }

  /** The keys in first-seen order: the keys of a map filled in order. */
  function KeysOf<T, K(==)>(xs: seq<T>, key: T -> K): seq<K>
  {
    Dedup(MapSeq(xs, key))
  }

  ghost predicate Grouped<T, K>(xs: seq<T>, key: T -> K, order: seq<K>, groups: map<K, seq<T>>)
  {
    && order == KeysOf(xs, key) && groups.Keys == (set k <- order)
    && forall k <- order :: groups[k] == Having(xs, key, k)
  }

  method GroupBy<T, K(==)>(xs: seq<T>, key: T -> K) returns (order: seq<K>, groups: map<K, seq<T>>)
    ensures Grouped(xs, key, order, groups)
  {
    order, groups := [], map[];
    for i := 0 to |xs|
      invariant Grouped(xs[..i], key, order, groups)
    {
      var k := key(xs[i]);
      KeysSnoc(xs, key, i);
      forall other <- order + [k] ensures Having(xs[..i + 1], key, other) == Having(xs[..i], key, other) + if other == k then [xs[i]] else [] {
        FilterSnoc(xs, i, HasKey(key, other));
      }
      if k in groups {
        groups := groups[k := groups[k] + [xs[i]]];
      } else {
        NoneHave(xs[..i], key, k);
        order := order + [k];
        groups := groups[k := [xs[i]]];
      }
    }
    assert xs[..|xs|] == xs;
  }

  lemma KeysSnoc<T, K>(xs: seq<T>, key: T -> K, i: nat)
    requires i < |xs|
    ensures KeysOf(xs[..i + 1], key)
            == if key(xs[i]) in KeysOf(xs[..i], key) then KeysOf(xs[..i], key) else KeysOf(xs[..i], key) + [key(xs[i])]
  {
    var all := MapSeq(xs[..i + 1], key);
    assert all[..i] == MapSeq(xs[..i], key) && all[..i + 1] == all;
    DedupSnoc(all, i);
    DedupMembers(all[..i]);
  }

  lemma NoneHave<T, K>(xs: seq<T>, key: T -> K, k: K)
    requires k !in KeysOf(xs, key)
    ensures Having(xs, key, k) == []
  {
    DedupMembers(MapSeq(xs, key));
    forall i | 0 <= i < |xs| ensures !HasKey(key, k)(xs[i]) {
      assert MapSeq(xs, key)[i] == key(xs[i]);
    }
    FilterNone(xs, HasKey(key, k));
  }

  lemma HavingSnoc<T, K>(xs: seq<T>, x: T, key: T -> K, k: K)
    ensures Having(xs + [x], key, k) == if key(x) == k then Having(xs, key, k) + [x] else Having(xs, key, k)
  {
    FilterAppend(xs, [x], HasKey(key, k));
    if !HasKey(key, k)(x) {
      assert Having(xs, key, k) + [] == Having(xs, key, k);
    }
  }

  /** The sizes of the groups named by `keys`. */
  function GroupSizes<T, K(==)>(xs: seq<T>, key: T -> K, keys: seq<K>): nat
  {
    if keys == [] then 0
    else GroupSizes(xs, key, keys[..|keys| - 1]) + |Having(xs, key, keys[|keys| - 1])|
  }

  lemma {:induction false} GroupSizesSnoc<T, K>(xs: seq<T>, x: T, key: T -> K, keys: seq<K>)
    requires Distinct(keys)
    ensures GroupSizes(xs + [x], key, keys) == GroupSizes(xs, key, keys) + if key(x) in keys then 1 else 0
  {
    if keys != [] {
      var n := |keys| - 1;
      GroupSizesSnoc(xs, x, key, keys[..n]);
      FilterAppend(xs, [x], HasKey(key, keys[n]));
      assert keys == keys[..n] + [keys[n]];
      assert key(x) == keys[n] ==> key(x) !in keys[..n];
    }
  }

  /** Grouping loses nothing and doubles nothing. */
  lemma {:induction false} GroupsCoverAll<T, K>(xs: seq<T>, key: T -> K)
    ensures GroupSizes(xs, key, KeysOf(xs, key)) == |xs|
  {
    if xs == [] {
      assert MapSeq(xs, key) == [];
    } else {
      var n := |xs| - 1;
      var front, keys := xs[..n], KeysOf(xs[..n], key);
      GroupsCoverAll(front, key);
      DedupMembers(MapSeq(front, key));
      KeysSnoc(xs, key, n);
      assert xs[..n + 1] == xs == front + [xs[n]];
      GroupSizesSnoc(front, xs[n], key, keys);
      if key(xs[n]) !in keys {
        var k := key(xs[n]);
        NoneHave(front, key, k);
        FilterAppend(front, [xs[n]], HasKey(key, k));
        assert (keys + [k])[..|keys|] == keys;
      }
    }
  }

  /* ---- stable sorting ---- */

  ghost predicate TotalOrder<T(!new)>(le: (T, T) -> bool)
  {
    && (forall x, y :: le(x, y) || le(y, x))
    && (forall x, y, z :: le(x, y) && le(y, z) ==> le(x, z))
  }

  ghost predicate SortedBy<T>(xs: seq<T>, le: (T, T) -> bool)
  {
    forall i, j | 0 <= i < j < |xs| :: le(xs[i], xs[j])
  }

  function Insert<T>(x: T, xs: seq<T>, le: (T, T) -> bool): seq<T>
  {
    if xs == [] || le(x, xs[0]) then [x] + xs else [xs[0]] + Insert(x, xs[1..], le)
  }

  /** The stable sort; a stable sort by a total order has one possible result. */
  function StableSort<T>(xs: seq<T>, le: (T, T) -> bool): seq<T>
  {
    if xs == [] then [] else Insert(xs[0], StableSort(xs[1..], le), le)
  }

  lemma {:induction false} InsertMembers<T>(x: T, xs: seq<T>, le: (T, T) -> bool)
    ensures multiset(Insert(x, xs, le)) == multiset(xs) + multiset{x}
  {
    if xs != [] && !le(x, xs[0]) {
      InsertMembers(x, xs[1..], le);
      assert xs == [xs[0]] + xs[1..];
    }
  }

  /** A smaller head before a sorted list. */
  lemma SortedCons<T>(x: T, xs: seq<T>, le: (T, T) -> bool)
    requires SortedBy(xs, le) && forall y <- xs :: le(x, y)
    ensures SortedBy([x] + xs, le)
  {
  }

  lemma InsertBelow<T>(x: T, xs: seq<T>, le: (T, T) -> bool, low: T)
    requires le(low, x) && forall y <- xs :: le(low, y)
    ensures forall y <- Insert(x, xs, le) :: le(low, y)
  {
    InsertMembers(x, xs, le);
    forall y <- Insert(x, xs, le) ensures le(low, y) {
      assert y in multiset(Insert(x, xs, le));
    }
  }

  lemma {:induction false} InsertSorted<T(!new)>(x: T, xs: seq<T>, le: (T, T) -> bool)
    requires TotalOrder(le) && SortedBy(xs, le)
    ensures SortedBy(Insert(x, xs, le), le)
  {
    if xs == [] || le(x, xs[0]) {
      SortedCons(x, xs, le);
    } else {
      InsertSorted(x, xs[1..], le);
      InsertBelow(x, xs[1..], le, xs[0]);
      SortedCons(xs[0], Insert(x, xs[1..], le), le);
    }
  }

  lemma {:induction false} StableSortMembers<T>(xs: seq<T>, le: (T, T) -> bool)
    ensures multiset(StableSort(xs, le)) == multiset(xs)
  {
    if xs != [] {
      StableSortMembers(xs[1..], le);
      InsertMembers(xs[0], StableSort(xs[1..], le), le);
      assert xs == [xs[0]] + xs[1..];
    }
  }

  lemma {:induction false} StableSortSorted<T(!new)>(xs: seq<T>, le: (T, T) -> bool)
    requires TotalOrder(le)
    ensures SortedBy(StableSort(xs, le), le)
  {
    if xs != [] {
      StableSortSorted(xs[1..], le);
      InsertSorted(xs[0], StableSort(xs[1..], le), le);
    }
  }

  lemma StableSortProperties<T(!new)>(xs: seq<T>, le: (T, T) -> bool)
    requires TotalOrder(le)
    ensures SortedBy(StableSort(xs, le), le)
    ensures multiset(StableSort(xs, le)) == multiset(xs)
    ensures |StableSort(xs, le)| == |xs|
    ensures forall x :: x in StableSort(xs, le) <==> x in xs
  {
    StableSortMembers(xs, le);
    StableSortSorted(xs, le);
    assert |multiset(StableSort(xs, le))| == |multiset(xs)|;
    forall x ensures x in StableSort(xs, le) <==> x in xs {
      assert x in StableSort(xs, le) <==> x in multiset(StableSort(xs, le));
    }
  }

  /** Sorting what is sorted changes nothing. */
  lemma {:induction false} StableSortOfSorted<T(!new)>(xs: seq<T>, le: (T, T) -> bool)
    requires SortedBy(xs, le)
    ensures StableSort(xs, le) == xs
  {
    if xs != [] {
      StableSortOfSorted(xs[1..], le);
      assert xs == [xs[0]] + xs[1..];
      if |xs| > 1 {
        assert le(xs[0], xs[1]);
      }
    }
  }

  /* ---- strings in code-unit order ---- */

  predicate TextLe(a: string, b: string)
  {
    if a == [] then true
    else if b == [] then false
    else if a[0] == b[0] then TextLe(a[1..], b[1..])
    else a[0] < b[0]
  }

  lemma {:induction false} TextLeTotal(a: string, b: string)
    ensures TextLe(a, b) || TextLe(b, a)
  {
    if a != [] && b != [] && a[0] == b[0] {
      TextLeTotal(a[1..], b[1..]);
    }
  }

  lemma {:induction false} TextLeTransitive(a: string, b: string, c: string)
    requires TextLe(a, b) && TextLe(b, c)
    ensures TextLe(a, c)
  {
    if a != [] && b != [] && c != [] && a[0] == b[0] && b[0] == c[0] {
      TextLeTransitive(a[1..], b[1..], c[1..]);
    }
  }

  lemma TextOrder()
    ensures TotalOrder(TextLe)
  {
    forall x, y ensures TextLe(x, y) || TextLe(y, x) { TextLeTotal(x, y); }
    forall x, y, z | TextLe(x, y) && TextLe(y, z) ensures TextLe(x, z) { TextLeTransitive(x, y, z); }
  }

  lemma {:induction false} InsertMapped<T(!new), U>(x: T, xs: seq<T>, le: (T, T) -> bool, f: T -> U)
    ensures multiset(MapSeq(Insert(x, xs, le), f)) == multiset(MapSeq(xs, f)) + multiset{f(x)}
  {
    if xs == [] || le(x, xs[0]) {
      assert MapSeq([x] + xs, f) == [f(x)] + MapSeq(xs, f);
    } else {
      InsertMapped(x, xs[1..], le, f);
      assert MapSeq([xs[0]] + Insert(x, xs[1..], le), f) == [f(xs[0])] + MapSeq(Insert(x, xs[1..], le), f);
      assert MapSeq(xs, f) == [f(xs[0])] + MapSeq(xs[1..], f);
    }
  }

  /** Sorting permutes whatever is read off the elements. */
  lemma {:induction false} SortMapped<T(!new), U>(xs: seq<T>, le: (T, T) -> bool, f: T -> U)
    ensures multiset(MapSeq(StableSort(xs, le), f)) == multiset(MapSeq(xs, f))
  {
    if xs != [] {
      SortMapped(xs[1..], le, f);
      InsertMapped(xs[0], StableSort(xs[1..], le), le, f);
      assert MapSeq(xs, f) == [f(xs[0])] + MapSeq(xs[1..], f);
    }
  }

  /* ---- groups, one after another ---- */

  /** The groups of some keys, in the order of the keys. */
  function InGroups<T, K(==)>(xs: seq<T>, key: T -> K, keys: seq<K>): seq<T>
  {
    if keys == [] then [] else InGroups(xs, key, keys[..|keys| - 1]) + Having(xs, key, keys[|keys| - 1])
  }

  lemma {:induction false} GroupHolds<T(!new), K>(xs: seq<T>, key: T -> K, k: K, x: T)
    ensures multiset(Having(xs, key, k))[x] == if key(x) == k then multiset(xs)[x] else 0
  {
    if xs != [] {
      GroupHolds(xs[1..], key, k, x);
      assert xs == [xs[0]] + xs[1..];
    }
  }

  lemma {:induction false} GroupsHold<T(!new), K>(xs: seq<T>, key: T -> K, keys: seq<K>, x: T)
    requires Distinct(keys)
    ensures multiset(InGroups(xs, key, keys))[x] == if key(x) in keys then multiset(xs)[x] else 0
  {
    if keys != [] {
      var n := |keys| - 1;
      GroupsHold(xs, key, keys[..n], x);
      GroupHolds(xs, key, keys[n], x);
    }
  }

  /** Grouping permutes: the groups of all keys hold each element as often as before. */
  lemma GroupsPermute<T(!new), K>(xs: seq<T>, key: T -> K)
    ensures multiset(InGroups(xs, key, KeysOf(xs, key))) == multiset(xs)
  {
    var keys := KeysOf(xs, key);
    DedupMembers(MapSeq(xs, key));
    forall x ensures multiset(InGroups(xs, key, keys))[x] == multiset(xs)[x] {
      GroupsHold(xs, key, keys, x);
      if x in xs { KeyIsKept(xs, key, x); }
    }
  }

  lemma KeyIsKept<T(!new), K>(xs: seq<T>, key: T -> K, x: T)
    requires x in xs
    ensures key(x) in KeysOf(xs, key)
  {
    DedupMembers(MapSeq(xs, key));
    var i :| 0 <= i < |xs| && xs[i] == x;
    var mapped := MapSeq(xs, key);
    assert mapped[i] == key(x);
    assert mapped[i] in mapped;
    assert key(x) in Dedup(mapped);
  }

  lemma DropSame<T(!new)>(a: seq<T>, left: seq<T>, right: seq<T>)
    requires a != [] && multiset(a) == multiset(left + [a[0]] + right)
    ensures multiset(a[1..]) == multiset(left + right)
  {
    var x := a[0];
    assert a == [x] + a[1..];
    assert multiset(left + [x] + right) == multiset(left) + multiset{x} + multiset(right);
    forall y ensures multiset(a[1..])[y] == multiset(left + right)[y] {
      assert multiset(a)[y] == multiset{x}[y] + multiset(a[1..])[y];
    }
  }

  /** Whatever is read off the elements of a permutation is permuted with them. */
  lemma {:induction false} MapPermutes<T(!new), U>(a: seq<T>, b: seq<T>, f: T -> U)
    requires multiset(a) == multiset(b)
    ensures multiset(MapSeq(a, f)) == multiset(MapSeq(b, f))
    decreases |a|
  {
    assert |b| == |multiset(b)| == |multiset(a)| == |a|;
    if a != [] {
      assert a[0] in multiset(b);
      var i :| 0 <= i < |b| && b[i] == a[0];
      var left, right := b[..i], b[i + 1..];
      assert b == left + [a[0]] + right;
      DropSame(a, left, right);
      MapPermutes(a[1..], left + right, f);
      MapSplit(a, left, right, f);
    }
  }

  lemma MapSplit<T, U>(a: seq<T>, left: seq<T>, right: seq<T>, f: T -> U)
    requires a != [] && multiset(MapSeq(a[1..], f)) == multiset(MapSeq(left + right, f))
    ensures multiset(MapSeq(a, f)) == multiset(MapSeq(left + [a[0]] + right, f))
  {
    assert MapSeq(a, f) == [f(a[0])] + MapSeq(a[1..], f);
    assert MapSeq(left + right, f) == MapSeq(left, f) + MapSeq(right, f);
    assert MapSeq(left + [a[0]] + right, f) == MapSeq(left, f) + [f(a[0])] + MapSeq(right, f);
  }
}
