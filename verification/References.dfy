/**
 * Issue references in prose: the scanner, the keys they are joined on, and the labels
 * they are printed as.
 */
module References {
  import opened Texts
  import opened Sequences

  datatype RefRepo = Self | Upstream | Dest

  datatype CitedRef = CitedRef(repo: RefRepo, number: nat)

  const SELF_SLUG := "oriontech-me/langflow-e2e"
  const UPSTREAM_SLUG := "langflow-ai/langflow"
  const DEST_SLUG := "Langflow/e2e-qa"

  /** The most digits a reference may have. */
  const MAX_DIGITS := 7

  /* ---- the characters of the pattern ---- */

  predicate IsAlnum(c: char) { 'a' <= c <= 'z' || 'A' <= c <= 'Z' || IsDigit(c) }

  /** A letter, a digit or an underscore. */
  predicate IsWord(c: char) { IsAlnum(c) || c == '_' }

  /** A character of an owner or repository name. */
  predicate IsSlugChar(c: char) { IsWord(c) || c == '.' || c == '-' }

  /** A character a reference may follow. */
  predicate IsBoundary(c: char) { !IsWord(c) && c != '/' && c != '-' }

  lemma {:induction false} RunLengthIs(s: string, p: char -> bool, n: nat)
    requires n <= |s| && (forall i | 0 <= i < n :: p(s[i])) && (n < |s| ==> !p(s[n]))
    ensures RunLength(s, p) == n
  {
    if n > 0 {
      RunLengthIs(s[1..], p, n - 1);
    }
  }

  /* ---- the scanner ---- */

  type Digits = s: string | AllDigits(s)

  /** One match: the slug if written, the digits, and how many characters it took. */
  datatype RefMatch = RefMatch(slug: Option<string>, digits: Digits, length: nat)

  /** The number `s` starts with: at most seven digits, and no word character behind them. */
  function DigitsAt(s: string): (k: nat)
    ensures k <= |s| && AllDigits(s[..k])
  {
    var k := RunLength(s, IsDigit);
    if k <= MAX_DIGITS && (k == |s| || !IsWord(s[k])) then k else 0
  }

  /** The length of an `owner/repo` at the start of `s` that a `#` follows; 0 when there is none. */
  function SlugAt(s: string): (j: nat)
    ensures j > 0 ==> j < |s| && s[j] == '#'
  {
    var i := RunLength(s, IsSlugChar);
    if i == 0 || i == |s| || s[i] != '/' then 0
    else
      var j := i + 1 + RunLength(s[i + 1..], IsSlugChar);
      if j == i + 1 || j == |s| || s[j] != '#' then 0 else j
  }

  /** What the pattern matches right after its boundary. */
  function RefIn(s: string): (m: Option<RefMatch>)
    ensures m.Some? ==> 0 < m.value.length <= |s|
  {
    var j := SlugAt(s);
    if j > 0 && DigitsAt(s[j + 1..]) > 0 then
      var d := DigitsAt(s[j + 1..]);
      Some(RefMatch(Some(s[..j]), s[j + 1..][..d], j + 1 + d))
    else if s != [] && s[0] == '#' && DigitsAt(s[1..]) > 0 then
      var d := DigitsAt(s[1..]);
      Some(RefMatch(None, s[1..][..d], 1 + d))
    else None
  }

  /** All references of a text, leftmost first and not overlapping; only the first may stand at the very start. */
  function Scan(atStart: bool, s: string): seq<RefMatch>
    decreases |s|, if atStart then 1 else 0
  {
    if atStart then
      var m := RefIn(s);
      if m.Some? then [m.value] + Scan(false, s[m.value.length..]) else Scan(false, s)
    else if s == [] then []
    else
      var m := RefIn(s[1..]);
      if IsBoundary(s[0]) && m.Some? then [m.value] + Scan(false, s[1 + m.value.length..]) else Scan(false, s[1..])
  }

  function LowerChar(c: char): char
  {
    if 'A' <= c <= 'Z' then c - 'A' + 'a' else c
  }

  function Lower(s: string): string
  {
    MapSeq(s, LowerChar)
  }

  /** Which repository a match names; a third one is not resolved. */
  function RepoOf(slug: Option<string>): Option<RefRepo>
  {
    if slug.None? || slug.value == [] || slug.value == SELF_SLUG then Some(Self)
    else if slug.value == UPSTREAM_SLUG then Some(Upstream)
    else if Lower(slug.value) == Lower(DEST_SLUG) then Some(Dest)
    else None
  }

  function RefOf(m: RefMatch): Option<CitedRef>
  {
    var repo := RepoOf(m.slug);
    if repo.None? then None else Some(CitedRef(repo.value, DigitsValue(m.digits)))
  }

  /** Every reference of a text, once each, in first-seen order. */
  function ExtractRefs(text: string): seq<CitedRef>
  {
    Dedup(FilterMap(Scan(true, text), RefOf))
  }

  /* ---- keys and labels ---- */

  function RefKey(r: CitedRef): string
  {
    match r.repo
    case Self => "#" + Decimal(r.number)
    case Upstream => "upstream" + "#" + Decimal(r.number)
    case Dest => "dest" + "#" + Decimal(r.number)
  }

  function RefLabel(r: CitedRef): string
  {
    match r.repo
    case Self => "#" + Decimal(r.number)
    case Upstream => UPSTREAM_SLUG + "#" + Decimal(r.number)
    case Dest => DEST_SLUG + "#" + Decimal(r.number)
  }

  /** No two references share a key. */
  lemma RefKeyInjective(a: CitedRef, b: CitedRef)
    requires RefKey(a) == RefKey(b)
    ensures a == b
  {
    KeyStarts(a);
    KeyStarts(b);
    var n := match a.repo case Self => 1 case Upstream => 9 case Dest => 5;
    assert RefKey(a)[n..] == Decimal(a.number) && RefKey(b)[n..] == Decimal(b.number);
    DecimalInjective(a.number, b.number);
  }

  lemma KeyStarts(r: CitedRef)
    ensures RefKey(r) != [] && RefKey(r)[0] == match r.repo case Self => '#' case Upstream => 'u' case Dest => 'd'
  {
  }

  lemma KeySeen(out: seq<CitedRef>, seen: set<string>, r: CitedRef)
    requires seen == set x <- out :: RefKey(x)
    ensures RefKey(r) in seen <==> r in out
  {
    forall x <- out | RefKey(x) == RefKey(r) ensures x == r { RefKeyInjective(x, r); }
  }

  lemma DedupOneMore(before: seq<CitedRef>, r: CitedRef)
    ensures Dedup(before + [r]) == if r in Dedup(before) then Dedup(before) else Dedup(before) + [r]
  {
    assert (before + [r])[..|before|] == before;
  }

  /** The loop over the matches, with the set of keys it has seen. */
  method CollectFrom(matches: seq<RefMatch>, resolve: RefMatch -> Option<CitedRef>) returns (out: seq<CitedRef>)
    ensures out == Dedup(FilterMap(matches, resolve))
  {
    var seen: set<string> := {};
    out := [];
    for i := 0 to |matches|
      invariant out == Dedup(FilterMap(matches[..i], resolve))
      invariant seen == set r <- out :: RefKey(r)
    {
      FilterMapSnoc(matches, i, resolve);
      ghost var before := FilterMap(matches[..i], resolve);
      var r := resolve(matches[i]);
      if r.None? { continue; }
      DedupOneMore(before, r.value);
      KeySeen(out, seen, r.value);
      var key := RefKey(r.value);
      if key in seen { continue; }
      seen := seen + {key};
      out := out + [r.value];
    }
    assert matches[..|matches|] == matches;
  }

  method CollectRefs(text: string) returns (out: seq<CitedRef>)
    ensures out == ExtractRefs(text)
  {
    out := CollectFrom(Scan(true, text), RefOf);
  }

  /* ---- reading labels back ---- */

  lemma {:induction false} DecimalAtLeast(n: nat, k: nat)
    requires n >= Pow10(k)
    ensures |Decimal(n)| > k
  {
    if n >= 10 {
      if k > 0 { DecimalAtLeast(n / 10, k - 1); }
    } else if k > 0 {
      assert Pow10(k) == 10 * Pow10(k - 1) && Pow10(k - 1) >= 1 by { PowPositive(k - 1); }
    }
  }

  lemma {:induction false} PowPositive(k: nat)
    ensures Pow10(k) >= 1
  {
    if k > 0 { PowPositive(k - 1); }
  }

  /** What may follow a reference: nothing, or no word character. */
  predicate Ends(rest: string)
  {
    rest == [] || !IsWord(rest[0])
  }

  lemma DigitsOfDecimal(n: nat, rest: string)
    requires Ends(rest)
    ensures DigitsAt(Decimal(n) + rest) == if |Decimal(n)| <= MAX_DIGITS then |Decimal(n)| else 0
  {
    var d, s := Decimal(n), Decimal(n) + rest;
    DecimalRoundTrip(n);
    forall i | 0 <= i < |d| ensures IsDigit(s[i]) { assert s[i] == d[i] && d[i] in d; }
    assert |d| < |s| ==> s[|d|] == rest[0];
    RunLengthIs(s, IsDigit, |d|);
  }

  predicate IsSlug(owner: string, repo: string)
  {
    owner != [] && repo != [] && (forall c <- owner :: IsSlugChar(c)) && forall c <- repo :: IsSlugChar(c)
  }

  lemma SlugIsRead(owner: string, repo: string, rest: string)
    requires IsSlug(owner, repo)
    ensures SlugAt(owner + "/" + repo + "#" + rest) == |owner| + 1 + |repo|
  {
    var s := owner + "/" + repo + "#" + rest;
    forall i | 0 <= i < |owner| ensures IsSlugChar(s[i]) { assert s[i] == owner[i] && owner[i] in owner; }
    assert s[|owner|] == '/';
    RunLengthIs(s, IsSlugChar, |owner|);
    var t := s[|owner| + 1..];
    assert t == repo + "#" + rest;
    forall i | 0 <= i < |repo| ensures IsSlugChar(t[i]) { assert t[i] == repo[i] && repo[i] in repo; }
    assert t[|repo|] == '#';
    RunLengthIs(t, IsSlugChar, |repo|);
  }

  lemma RefAfterSlug(s: string, j: nat, k: nat)
    requires j > 0 && SlugAt(s) == j && DigitsAt(s[j + 1..]) == k
    ensures RefIn(s) == if k > 0 then Some(RefMatch(Some(s[..j]), s[j + 1..][..k], j + 1 + k)) else None
  {
    assert s[0] != '#';
  }

  lemma SlugParts(slug: string, tail: string)
    ensures (slug + "#" + tail)[..|slug|] == slug && (slug + "#" + tail)[|slug| + 1..] == tail
  {
  }

  lemma QualifiedIsRead(owner: string, repo: string, slug: string, tail: string, k: nat)
    requires IsSlug(owner, repo) && slug == owner + "/" + repo && DigitsAt(tail) == k
    ensures RefIn(slug + "#" + tail) == if k > 0 then Some(RefMatch(Some(slug), tail[..k], |slug| + 1 + k)) else None
  {
    var s := slug + "#" + tail;
    SlugIsRead(owner, repo, tail);
    SlugParts(slug, tail);
    RefAfterSlug(s, |slug|, k);
  }

  lemma BareIsRead(tail: string, k: nat)
    requires DigitsAt(tail) == k
    ensures RefIn("#" + tail) == if k > 0 then Some(RefMatch(None, tail[..k], 1 + k)) else None
  {
    var s := "#" + tail;
    RunLengthIs(s, IsSlugChar, 0);
    assert s[1..] == tail;
  }

  function SlugOf(repo: RefRepo): Option<string>
  {
    match repo case Self => None case Upstream => Some(UPSTREAM_SLUG) case Dest => Some(DEST_SLUG)
  }

  lemma SlugsAreSlugs()
    ensures IsSlug("langflow-ai", "langflow") && UPSTREAM_SLUG == "langflow-ai" + "/" + "langflow"
    ensures IsSlug("Langflow", "e2e-qa") && DEST_SLUG == "Langflow" + "/" + "e2e-qa"
  {
  }

  /** The same characters, but for the case of letters. */
  predicate SameButCase(a: string, b: string)
  {
    |a| == |b| && forall i | 0 <= i < |a| :: a[i] == b[i] || IsCaseOf(a[i], b[i]) || IsCaseOf(b[i], a[i])
  }

  /** A small letter and its capital. */
  predicate IsCaseOf(small: char, capital: char)
  {
    'a' <= small <= 'z' && 'A' <= capital <= 'Z' && small - 'a' == capital - 'A'
  }

  lemma SameLower(c: char, d: char)
    ensures LowerChar(c) == LowerChar(d) <==> c == d || IsCaseOf(c, d) || IsCaseOf(d, c)
  {
  }

  lemma LowerIff(a: string, b: string)
    ensures Lower(a) == Lower(b) <==> SameButCase(a, b)
  {
    forall i | 0 <= i < |a| && i < |b| ensures Lower(a)[i] == Lower(b)[i] <==> a[i] == b[i] || IsCaseOf(a[i], b[i]) || IsCaseOf(b[i], a[i]) {
      SameLower(a[i], b[i]);
    }
    if SameButCase(a, b) {
      assert Lower(a) == Lower(b);
    } else if |a| == |b| {
      var i :| 0 <= i < |a| && !(a[i] == b[i] || IsCaseOf(a[i], b[i]) || IsCaseOf(b[i], a[i]));
      assert Lower(a)[i] != Lower(b)[i];
    }
  }

  /** The repository a match names: its own without a slug or with its own, the two others by theirs, the destination's in any case. */
  lemma RepoIff(slug: Option<string>)
    ensures RepoOf(slug) == Some(Self) <==> slug.None? || slug.value == "" || slug.value == "oriontech-me/langflow-e2e"
    ensures RepoOf(slug) == Some(Upstream) <==> slug == Some("langflow-ai/langflow")
    ensures RepoOf(slug) == Some(Dest) <==> slug.Some? && SameButCase(slug.value, "Langflow/e2e-qa")
  {
    if slug.Some? {
      LowerIff(slug.value, DEST_SLUG);
    }
  }

  lemma SlugsResolve(repo: RefRepo)
    ensures RepoOf(SlugOf(repo)) == Some(repo)
  {
    assert DEST_SLUG[0] == 'L' && UPSTREAM_SLUG[0] == 'l' && SELF_SLUG[0] == 'o';
  }

  /** The characters of a label before its digits. */
  function Lead(repo: RefRepo): string
  {
    match repo case Self => "#" case Upstream => UPSTREAM_SLUG + "#" case Dest => DEST_SLUG + "#"
  }

  lemma LeadIsRead(repo: RefRepo, tail: string, k: nat)
    requires DigitsAt(tail) == k
    ensures RefIn(Lead(repo) + tail) == if k > 0 then Some(RefMatch(SlugOf(repo), tail[..k], |Lead(repo)| + k)) else None
  {
    SlugsAreSlugs();
    match repo {
      case Self => BareIsRead(tail, k);
      case Upstream => QualifiedIsRead("langflow-ai", "langflow", UPSTREAM_SLUG, tail, k);
      case Dest => QualifiedIsRead("Langflow", "e2e-qa", DEST_SLUG, tail, k);
    }
    assert |Lead(repo)| == if repo == Self then 1 else |SlugOf(repo).value| + 1;
  }

  lemma LabelParts(r: CitedRef)
    ensures RefLabel(r) == Lead(r.repo) + Decimal(r.number)
  {
  }

  function MatchOf(r: CitedRef): RefMatch
  {
    DecimalRoundTrip(r.number);
    RefMatch(SlugOf(r.repo), Decimal(r.number), |Lead(r.repo)| + |Decimal(r.number)|)
  }

  lemma LabelText(r: CitedRef, rest: string)
    ensures RefLabel(r) + rest == Lead(r.repo) + (Decimal(r.number) + rest)
    ensures |RefLabel(r)| == |Lead(r.repo)| + |Decimal(r.number)| == MatchOf(r).length
  {
    LabelParts(r);
    AppendAssoc(Lead(r.repo), Decimal(r.number), rest);
  }

  /** A text that starts with the digits of a match, to be read in full or not at all. */
  ghost predicate Numbered(tail: string, m: RefMatch, repo: RefRepo, fits: bool)
  {
    && DigitsAt(tail) == (if fits then |m.digits| else 0) && 0 < |m.digits| <= |tail| && tail[..|m.digits|] == m.digits
    && m.slug == SlugOf(repo) && m.length == |Lead(repo)| + |m.digits|
  }

  lemma LabelDigits(r: CitedRef, rest: string)
    requires Ends(rest)
    ensures Numbered(Decimal(r.number) + rest, MatchOf(r), r.repo, Fits(r))
  {
    DigitsOfDecimal(r.number, rest);
    DecimalNotEmpty(r.number);
  }

  /** A text that opens with the lead of a repository and a number. */
  lemma NumberIsRead(text: string, repo: RefRepo, tail: string, fits: bool, d: Digits)
    requires text == Lead(repo) + tail && DigitsAt(tail) == (if fits then |d| else 0)
    requires 0 < |d| <= |tail| && tail[..|d|] == d
    ensures RefIn(text) == if fits then Some(RefMatch(SlugOf(repo), d, |Lead(repo)| + |d|)) else None
  {
    LeadIsRead(repo, tail, DigitsAt(tail));
  }

  lemma NumberedIsRead(text: string, tail: string, m: RefMatch, repo: RefRepo, fits: bool)
    requires text == Lead(repo) + tail && Numbered(tail, m, repo, fits)
    ensures RefIn(text) == if fits then Some(m) else None
  {
    NumberIsRead(text, repo, tail, fits, m.digits);
  }

  /** A label, wherever it stands, is read as its own reference when it has at most seven digits. */
  lemma LabelIsRead(r: CitedRef, rest: string)
    requires Ends(rest)
    ensures RefIn(RefLabel(r) + rest) == if Fits(r) then Some(MatchOf(r)) else None
    ensures MatchOf(r).length == |RefLabel(r)|
  {
    LabelText(r, rest);
    LabelDigits(r, rest);
    NumberedIsRead(RefLabel(r) + rest, Decimal(r.number) + rest, MatchOf(r), r.repo, Fits(r));
  }

  lemma DecimalNotEmpty(n: nat)
    ensures |Decimal(n)| > 0
  {
  }

  predicate Fits(r: CitedRef)
  {
    |Decimal(r.number)| <= MAX_DIGITS
  }

  /** Seven digits hold exactly the numbers below ten million. */
  lemma FitsIff(r: CitedRef)
    ensures Fits(r) <==> r.number < 10000000
  {
    assert Pow10(7) == 10000000 by {
      assert Pow10(0) == 1 && Pow10(1) == 10 && Pow10(2) == 100 && Pow10(3) == 1000;
      assert Pow10(4) == 10000 && Pow10(5) == 100000 && Pow10(6) == 1000000;
    }
    if r.number < 10000000 { DecimalLength(r.number, 7); } else { DecimalAtLeast(r.number, 7); }
  }

  /* ---- prose around labels ---- */

  /** A character that ends prose cleanly before a label: no boundary trouble, no part of a slug. */
  predicate IsSeparator(c: char)
  {
    !IsSlugChar(c) && c != '/' && c != '#'
  }

  /** Prose before a label: no `#` of its own, and a separator at its end. */
  predicate Prose(s: string)
  {
    s != [] && '#' !in s && IsSeparator(s[|s| - 1])
  }

  lemma ProseHidesNothing(glue: string, rest: string)
    requires Prose(glue)
    ensures RefIn(glue + rest) == None
  {
    var s := glue + rest;
    assert forall i | 0 <= i < |glue| :: s[i] == glue[i] && s[i] in glue;
    assert s[|glue| - 1] == glue[|glue| - 1];
    var i := RunLength(s, IsSlugChar);
    assert i < |glue|;
    if s[i] == '/' {
      var t := s[i + 1..];
      var k := RunLength(t, IsSlugChar);
      assert t[|glue| - 2 - i] == s[|glue| - 1];
      assert i + 1 + k < |glue|;
    }
    assert SlugAt(s) == 0;
    assert s[0] != '#';
  }

  lemma {:induction false} ProseIsSkipped(glue: string, rest: string)
    requires Prose(glue)
    ensures Scan(false, glue + rest) == Scan(false, [glue[|glue| - 1]] + rest)
    decreases |glue|
  {
    if |glue| == 1 {
      assert glue == [glue[0]];
    } else {
      assert (glue + rest)[1..] == glue[1..] + rest;
      assert forall c <- glue[1..] :: c in glue;
      ProseHidesNothing(glue[1..], rest);
      ProseIsSkipped(glue[1..], rest);
    }
  }

  /** Text without a `#` holds no reference. */
  lemma {:induction false} NothingToFind(s: string)
    requires '#' !in s
    ensures RefIn(s) == None && Scan(false, s) == []
    decreases |s|
  {
    if s != [] {
      assert forall c <- s[1..] :: c in s;
      NothingToFind(s[1..]);
      assert s[0] in s;
      assert SlugAt(s) == 0;
    }
  }

  /** A reference in prose: the text before it, then its label. */
  datatype Citation = Citation(glue: string, ref: CitedRef)

  predicate WellFormedCitation(c: Citation)
  {
    Prose(c.glue) && Ends(c.glue) && Fits(c.ref)
  }

  function TextOf(cs: seq<Citation>, tail: string): string
  {
    if cs == [] then tail else cs[0].glue + RefLabel(cs[0].ref) + TextOf(cs[1..], tail)
  }

  predicate Tail(tail: string)
  {
    '#' !in tail && Ends(tail)
  }

  lemma CitationsEnd(cs: seq<Citation>, tail: string)
    requires (forall c <- cs :: WellFormedCitation(c)) && Tail(tail)
    ensures Ends(TextOf(cs, tail))
  {
    if cs != [] {
      assert cs[0] in cs;
      assert TextOf(cs, tail)[0] == cs[0].glue[0];
    }
  }

  /** A match right after a boundary character. */
  lemma ScanStep(c: char, s: string, m: RefMatch)
    requires IsBoundary(c) && RefIn(s) == Some(m)
    ensures Scan(false, [c] + s) == [m] + Scan(false, s[m.length..])
  {
    assert ([c] + s)[1..] == s;
    assert ([c] + s)[1 + m.length..] == s[m.length..];
  }

  /** A label read at its place, between prose and what follows. */
  lemma ScanLabel(glue: string, lbl: string, rest: string, m: RefMatch)
    requires RefIn(lbl + rest) == Some(m) && m.length == |lbl|
    ensures glue == [] ==> Scan(true, glue + lbl + rest) == [m] + Scan(false, rest)
    ensures Prose(glue) ==> Scan(false, glue + lbl + rest) == [m] + Scan(false, rest)
    ensures Prose(glue) ==> Scan(true, glue + lbl + rest) == [m] + Scan(false, rest)
  {
    AppendAssoc(glue, lbl, rest);
    assert (lbl + rest)[|lbl|..] == rest;
    if glue == [] {
      assert glue + (lbl + rest) == lbl + rest;
    } else if Prose(glue) {
      ProseIsSkipped(glue, lbl + rest);
      ScanStep(glue[|glue| - 1], lbl + rest, m);
      ProseHidesNothing(glue, lbl + rest);
    }
  }

  function MatchesOf(cs: seq<Citation>): seq<RefMatch>
  {
    MapSeq(cs, (c: Citation) => MatchOf(c.ref))
  }

  lemma MatchesCons(cs: seq<Citation>)
    requires cs != []
    ensures MatchesOf(cs) == [MatchOf(cs[0].ref)] + MatchesOf(cs[1..])
  {
    MapCons(cs, (c: Citation) => MatchOf(c.ref));
  }

  lemma {:induction false} ScanOfCitations(cs: seq<Citation>, tail: string)
    requires (forall c <- cs :: WellFormedCitation(c)) && Tail(tail)
    ensures Scan(false, TextOf(cs, tail)) == MatchesOf(cs)
  {
    if cs == [] {
      NothingToFind(tail);
    } else {
      assert cs[0] in cs && forall c <- cs[1..] :: c in cs;
      ScanOfCitations(cs[1..], tail);
      CitationsEnd(cs[1..], tail);
      LabelIsRead(cs[0].ref, TextOf(cs[1..], tail));
      ScanLabel(cs[0].glue, RefLabel(cs[0].ref), TextOf(cs[1..], tail), MatchOf(cs[0].ref));
      MatchesCons(cs);
    }
  }

  /** A text that opens with prose, or directly with a label. */
  lemma ScanAtStart(cs: seq<Citation>, tail: string)
    requires cs != [] && (forall c <- cs[1..] :: WellFormedCitation(c)) && Tail(tail)
    requires Fits(cs[0].ref) && (cs[0].glue == [] || Prose(cs[0].glue))
    ensures Scan(true, TextOf(cs, tail)) == MatchesOf(cs)
  {
    CitationsEnd(cs[1..], tail);
    ScanOfCitations(cs[1..], tail);
    LabelIsRead(cs[0].ref, TextOf(cs[1..], tail));
    ScanLabel(cs[0].glue, RefLabel(cs[0].ref), TextOf(cs[1..], tail), MatchOf(cs[0].ref));
    MatchesCons(cs);
  }

  function RefsOf(cs: seq<Citation>): seq<CitedRef>
  {
    MapSeq(cs, (c: Citation) => c.ref)
  }

  lemma MatchResolves(r: CitedRef)
    ensures RefOf(MatchOf(r)) == Some(r)
  {
    SlugsResolve(r.repo);
    DecimalRoundTrip(r.number);
  }

  lemma CitationsResolve(refs: seq<CitedRef>)
    ensures FilterMap(MapSeq(refs, MatchOf), RefOf) == refs
  {
    forall i | 0 <= i < |refs| ensures RefOf(MapSeq(refs, MatchOf)[i]) == Some(refs[i]) { MatchResolves(refs[i]); }
    FilterMapAll(MapSeq(refs, MatchOf), RefOf, refs);
  }

  /**
   * Whatever prose stands around them, labels of at most seven digits are read back as their
   * references, once each, in first-seen order.
   */
  lemma LabelsReadBack(cs: seq<Citation>, tail: string)
    requires cs != [] && (forall c <- cs[1..] :: WellFormedCitation(c)) && Tail(tail)
    requires Fits(cs[0].ref) && (cs[0].glue == [] || Prose(cs[0].glue))
    ensures ExtractRefs(TextOf(cs, tail)) == Dedup(RefsOf(cs))
  {
    ScanAtStart(cs, tail);
    CitationsResolve(RefsOf(cs));
    assert MatchesOf(cs) == MapSeq(RefsOf(cs), MatchOf);
  }

  /* ---- texts joined line by line ---- */

  /** A text, and whatever stands on the lines below it. */
  function Above(s: string, below: string): string
  {
    s + ['\n'] + below
  }

  lemma CharAbove(s: string, below: string, k: nat)
    requires k <= |s|
    ensures k < |Above(s, below)| && Above(s, below)[k] == if k < |s| then s[k] else '\n'
  {
  }

  lemma RunStopsAtBreak(s: string, below: string, p: char -> bool)
    requires !p('\n')
    ensures RunLength(Above(s, below), p) == RunLength(s, p)
  {
    var k := RunLength(s, p);
    forall i | 0 <= i < k ensures p(Above(s, below)[i]) { assert Above(s, below)[i] == s[i]; }
    assert k < |s| ==> Above(s, below)[k] == s[k];
    RunLengthIs(Above(s, below), p, k);
  }

  lemma DigitsAbove(s: string, below: string)
    ensures DigitsAt(Above(s, below)) == DigitsAt(s)
  {
    RunStopsAtBreak(s, below, IsDigit);
    var k := RunLength(s, IsDigit);
    assert Above(s, below)[k] == if k < |s| then s[k] else '\n';
  }

  lemma RestAbove(s: string, below: string, k: nat)
    requires k <= |s|
    ensures Above(s, below)[k..] == Above(s[k..], below)
  {
  }

  lemma SlugAbove(s: string, below: string)
    ensures SlugAt(Above(s, below)) == SlugAt(s)
  {
    var i := RunLength(s, IsSlugChar);
    RunStopsAtBreak(s, below, IsSlugChar);
    CharAbove(s, below, i);
    if i < |s| && s[i] == '/' {
      var j := i + 1 + RunLength(s[i + 1..], IsSlugChar);
      RestAbove(s, below, i + 1);
      RunStopsAtBreak(s[i + 1..], below, IsSlugChar);
      CharAbove(s, below, j);
    }
  }

  /** The number behind the `k`-th character, and how it reads. */
  lemma NumberAbove(s: string, below: string, k: nat)
    requires k <= |s|
    ensures var t, d := Above(s, below), DigitsAt(s[k..]);
            DigitsAt(t[k..]) == d && t[k..][..d] == s[k..][..d] && t[..k] == s[..k]
  {
    RestAbove(s, below, k);
    DigitsAbove(s[k..], below);
    SliceAbove(s[k..], below, DigitsAt(s[k..]));
    SliceAbove(s, below, k);
  }

  lemma RefWithoutSlug(s: string)
    requires SlugAt(s) == 0
    ensures RefIn(s) == if s != [] && s[0] == '#' && DigitsAt(s[1..]) > 0
                        then Some(RefMatch(None, s[1..][..DigitsAt(s[1..])], 1 + DigitsAt(s[1..]))) else None
  {
  }

  /** What a reference reads never reaches over a line break. */
  lemma RefAbove(s: string, below: string)
    ensures RefIn(Above(s, below)) == RefIn(s)
  {
    var t, j := Above(s, below), SlugAt(s);
    SlugAbove(s, below);
    if j > 0 {
      NumberAbove(s, below, j + 1);
      SliceAbove(s, below, j);
      RefAfterSlug(s, j, DigitsAt(s[j + 1..]));
      RefAfterSlug(t, j, DigitsAt(s[j + 1..]));
    } else {
      RefWithoutSlug(s);
      RefWithoutSlug(t);
      CharAbove(s, below, 0);
      if s != [] {
        NumberAbove(s, below, 1);
      }
    }
  }

  lemma SliceAbove(s: string, below: string, k: nat)
    requires k <= |s|
    ensures Above(s, below)[..k] == s[..k]
  {
  }

  lemma ScanPastBoundary(c: char, s: string)
    requires IsBoundary(c)
    ensures Scan(false, [c] + s) == Scan(true, s)
  {
    assert ([c] + s)[1..] == s;
    var m := RefIn(s);
    if m.Some? {
      ScanStep(c, s, m.value);
    }
  }

  /** Below a line break, scanning starts afresh. */
  lemma ScanBelowBreak(below: string)
    ensures Scan(true, Above([], below)) == Scan(false, Above([], below)) == Scan(true, below)
  {
    RefAbove([], below);
    assert RefIn([]) == None;
    assert Above([], below) == ['\n'] + below;
    ScanPastBoundary('\n', below);
  }

  /** What one turn of the scan leaves to be scanned. */
  function Left(s: string): string
    requires s != []
  {
    var m := RefIn(s[1..]);
    if IsBoundary(s[0]) && m.Some? then s[1..][m.value.length..] else s[1..]
  }

  function Found(s: string): seq<RefMatch>
    requires s != []
  {
    var m := RefIn(s[1..]);
    if IsBoundary(s[0]) && m.Some? then [m.value] else []
  }

  lemma OneTurn(s: string)
    requires s != []
    ensures Scan(false, s) == Found(s) + Scan(false, Left(s)) && |Left(s)| < |s|
  {
    var m := RefIn(s[1..]);
    if m.Some? { assert s[1..][m.value.length..] == s[1 + m.value.length..]; }
  }

  lemma TurnAbove(s: string, below: string)
    requires s != []
    ensures Found(Above(s, below)) == Found(s) && Left(Above(s, below)) == Above(Left(s), below)
  {
    RestAbove(s, below, 1);
    RefAbove(s[1..], below);
    var m := RefIn(s[1..]);
    if m.Some? { RestAbove(s[1..], below, m.value.length); }
  }

  lemma TurnJoined(s: string, below: string, rest: seq<RefMatch>)
    requires s != [] && Scan(false, Above(Left(s), below)) == Scan(false, Left(s)) + rest
    ensures Scan(false, Above(s, below)) == Scan(false, s) + rest
  {
    OneTurn(s);
    OneTurn(Above(s, below));
    TurnAbove(s, below);
    AppendAssoc(Found(s), Scan(false, Left(s)), rest);
  }

  lemma LeftIsShorter(s: string)
    requires s != []
    ensures |Left(s)| < |s|
  {
  }

  /** Scanning two texts joined by a line break is scanning the one and then the other. */
  lemma {:induction false} ScanOnJoined(s: string, below: string)
    ensures Scan(false, Above(s, below)) == Scan(false, s) + Scan(true, below)
    decreases |s|
  {
    if s == [] {
      ScanBelowBreak(below);
    } else {
      LeftIsShorter(s);
      ScanOnJoined(Left(s), below);
      TurnJoined(s, below, Scan(true, below));
    }
  }

  lemma ScanJoined(s: string, below: string)
    ensures Scan(true, Above(s, below)) == Scan(true, s) + Scan(true, below)
  {
    RefAbove(s, below);
    var m := RefIn(s);
    if m.Some? {
      RestAbove(s, below, m.value.length);
      ScanOnJoined(s[m.value.length..], below);
    } else {
      ScanOnJoined(s, below);
    }
  }

  lemma ExtractedIff(text: string, r: CitedRef)
    ensures r in ExtractRefs(text) <==> exists m <- Scan(true, text) :: RefOf(m) == Some(r)
  {
    DedupMembers(FilterMap(Scan(true, text), RefOf));
    FilterMapMembers(Scan(true, text), RefOf, r);
  }

  lemma JoinedCitesIff(s: string, below: string, r: CitedRef)
    ensures r in ExtractRefs(Above(s, below)) <==> r in ExtractRefs(s) || r in ExtractRefs(below)
  {
    ScanJoined(s, below);
    ExtractedIff(Above(s, below), r);
    ExtractedIff(s, r);
    ExtractedIff(below, r);
  }

  /** Joining texts line by line loses no reference and makes none: a reference is cited by the whole exactly when some one text cites it. */
  lemma {:induction false} JoinCitesIff(texts: seq<string>, r: CitedRef)
    ensures r in ExtractRefs(Join(texts, "\n")) <==> exists t <- texts :: r in ExtractRefs(t)
  {
    if texts == [] {
      NothingToFind([]);
      ExtractedIff([], r);
    } else if |texts| > 1 {
      JoinCitesIff(texts[1..], r);
      assert Join(texts, "\n") == Above(texts[0], Join(texts[1..], "\n"));
      JoinedCitesIff(texts[0], Join(texts[1..], "\n"), r);
      assert texts == [texts[0]] + texts[1..];
    } else {
      assert texts == [texts[0]];
    }
  }

  /* ---- declared references ---- */

  function NormalizeDeclRef(raw: string): string
  {
    var refs := ExtractRefs(if raw != [] && raw[0] == '#' then " " + raw else raw);
    if refs != [] then RefKey(refs[0]) else raw
  }

  lemma LabelAlone(r: CitedRef)
    requires Fits(r)
    ensures NormalizeDeclRef(RefLabel(r)) == RefKey(r)
  {
    var glue := if r.repo == Self then " " else "";
    var cs := [Citation(glue, r)];
    LabelsReadBack(cs, "");
    assert cs[1..] == [];
    assert TextOf(cs, "") == glue + RefLabel(r);
    LabelStarts(r);
    assert RefsOf(cs) == [r];
    DedupDistinct([r]);
    assert "" + RefLabel(r) == RefLabel(r);
  }

  lemma LabelStarts(r: CitedRef)
    ensures RefLabel(r) != [] && (RefLabel(r)[0] == '#' <==> r.repo == Self)
  {
    assert UPSTREAM_SLUG[0] == 'l' && DEST_SLUG[0] == 'L';
  }

  /** No boundary stands before the digits of an overlong label, so nothing in it is read. */
  lemma {:induction false} NoBoundaryNoRef(head: string, tail: string)
    requires forall c <- head :: !IsBoundary(c)
    ensures Scan(false, head + tail) == Scan(false, tail)
    decreases |head|
  {
    if head == [] {
      assert head + tail == tail;
    } else {
      assert (head + tail)[1..] == head[1..] + tail;
      assert head[0] in head;
      NoBoundaryNoRef(head[1..], tail);
    }
  }

  lemma LongDigitsAlone(n: nat)
    ensures Scan(false, "#" + Decimal(n)) == []
  {
    var s := "#" + Decimal(n);
    DecimalRoundTrip(n);
    assert s[1..] == Decimal(n);
    forall c <- Decimal(n) ensures c != '#' { assert IsDigit(c); }
    NothingToFind(Decimal(n));
  }

  lemma SlugsHaveNoBoundary()
    ensures (forall c <- UPSTREAM_SLUG :: !IsBoundary(c)) && forall c <- DEST_SLUG :: !IsBoundary(c)
  {
  }

  /** An overlong label on its own: no match at its start, and no boundary before its digits. */
  lemma OverlongScan(slug: string, n: nat, text: string)
    requires text == slug + ("#" + Decimal(n)) && RefIn(text) == None && forall c <- slug :: !IsBoundary(c)
    ensures Scan(true, text) == []
  {
    LongDigitsAlone(n);
    NoBoundaryNoRef(slug, "#" + Decimal(n));
  }

  lemma OverlongBare(n: nat, text: string)
    requires text == "#" + Decimal(n) && RefIn(text) == None
    ensures Scan(true, " " + text) == []
  {
    ProseHidesNothing(" ", text);
    LongDigitsAlone(n);
    assert (" " + text)[1..] == text;
  }

  lemma OverlongUnread(r: CitedRef)
    requires !Fits(r)
    ensures RefIn(RefLabel(r)) == None
  {
    LabelIsRead(r, "");
    assert RefLabel(r) + "" == RefLabel(r);
  }

  lemma OverlongLabel(r: CitedRef)
    requires !Fits(r)
    ensures NormalizeDeclRef(RefLabel(r)) == RefLabel(r)
  {
    LabelStarts(r);
    OverlongUnread(r);
    SlugsHaveNoBoundary();
    match r.repo {
      case Self => OverlongBare(r.number, RefLabel(r));
      case Upstream =>
        AppendAssoc(UPSTREAM_SLUG, "#", Decimal(r.number));
        OverlongScan(UPSTREAM_SLUG, r.number, RefLabel(r));
      case Dest =>
        AppendAssoc(DEST_SLUG, "#", Decimal(r.number));
        OverlongScan(DEST_SLUG, r.number, RefLabel(r));
    }
  }

  lemma KeyIsNoLabel(r: CitedRef)
    ensures RefLabel(r) == RefKey(r) <==> r.repo == Self
  {
    assert UPSTREAM_SLUG[0] == 'l' && DEST_SLUG[0] == 'L';
    KeyStarts(r);
  }

  /**
   * A declared reference is joined on its own key exactly when its number has at most seven
   * digits or it is written without a slug; an overlong qualified one never matches a citation.
   */
  lemma DeclaredLabelIff(r: CitedRef)
    ensures NormalizeDeclRef(RefLabel(r)) == RefKey(r) <==> r.number < 10000000 || r.repo == Self
  {
    FitsIff(r);
    KeyIsNoLabel(r);
    if Fits(r) { LabelAlone(r); } else { OverlongLabel(r); }
  }
}
