/** Strings as the scripts use them: splitting, joining, trimming, substrings and decimals. */
module Texts {

  datatype Option<+T> = None | Some(value: T)

  datatype Result<+T, +E> = Ok(value: T) | Err(error: E)

  /* ---- split and join ---- */

  /** The pieces between the occurrences of a one-character separator: always at least one. */
  function Split(s: string, sep: char): (pieces: seq<string>)
    ensures |pieces| >= 1
  {
    if s == [] then [[]]
    else
      var rest := Split(s[1..], sep);
      if s[0] == sep then [[]] + rest else [[s[0]] + rest[0]] + rest[1..]
  }

  /** The parts with a separator between each two. */
  function Join(parts: seq<string>, sep: string): string
  {
    if parts == [] then [] else if |parts| == 1 then parts[0] else parts[0] + sep + Join(parts[1..], sep)
  }

  lemma {:induction false} SplitPiece(s: string, sep: char)
    requires sep !in s
    ensures Split(s, sep) == [s]
  {
    if s != [] {
      SplitPiece(s[1..], sep);
      assert [s[0]] + s[1..] == s;
    }
  }

  lemma {:induction false} SplitHead(head: string, sep: char, tail: string)
    requires sep !in head
    ensures Split(head + [sep] + tail, sep) == [head] + Split(tail, sep)
  {
    var s := head + [sep] + tail;
    if head == [] {
      assert s[1..] == tail;
    } else {
      SplitHead(head[1..], sep, tail);
      assert s[1..] == head[1..] + [sep] + tail;
      assert [head[0]] + head[1..] == head;
    }
  }

  /** Splitting undoes joining when no part holds the separator. */
  lemma {:induction false} SplitJoin(parts: seq<string>, sep: char)
    requires parts != [] && forall p <- parts :: sep !in p
    ensures Split(Join(parts, [sep]), sep) == parts
  {
    if |parts| == 1 {
      SplitPiece(parts[0], sep);
      assert parts == [parts[0]];
    } else {
      SplitJoin(parts[1..], sep);
      SplitHead(parts[0], sep, Join(parts[1..], [sep]));
      assert parts == [parts[0]] + parts[1..];
    }
  }

  /** A first piece that is empty. */
  lemma JoinEmptyHead(rest: seq<string>, sep: char)
    requires rest != []
    ensures Join([[]] + rest, [sep]) == [sep] + Join(rest, [sep])
  {
    JoinCons([], rest, [sep]);
    assert [] + [sep] + Join(rest, [sep]) == [sep] + Join(rest, [sep]);
  }

  /** A first piece one character longer. */
  lemma JoinLongerHead(c: char, rest: seq<string>, sep: string)
    requires rest != []
    ensures Join([[c] + rest[0]] + rest[1..], sep) == [c] + Join(rest, sep)
  {
    if |rest| > 1 {
      JoinCons([c] + rest[0], rest[1..], sep);
      assert [c] + rest[0] + sep + Join(rest[1..], sep) == [c] + (rest[0] + sep + Join(rest[1..], sep));
    }
  }

  /** Joining undoes splitting, always. */
  lemma {:induction false} JoinSplit(s: string, sep: char)
    ensures Join(Split(s, sep), [sep]) == s
    ensures forall p <- Split(s, sep) :: sep !in p
  {
    if s != [] {
      JoinSplit(s[1..], sep);
      var rest := Split(s[1..], sep);
      assert [s[0]] + s[1..] == s;
      if s[0] == sep {
        JoinEmptyHead(rest, sep);
      } else {
        JoinLongerHead(s[0], rest, [sep]);
      }
    }
  }

  lemma JoinCons(p: string, parts: seq<string>, sep: string)
    requires parts != []
    ensures Join([p] + parts, sep) == p + sep + Join(parts, sep)
  {
    assert ([p] + parts)[1..] == parts;
  }

  lemma {:induction false} JoinAvoids(parts: seq<string>, sep: string, c: char)
    requires c !in sep && forall p <- parts :: c !in p
    ensures c !in Join(parts, sep)
  {
    if |parts| > 1 {
      JoinAvoids(parts[1..], sep, c);
    }
  }

  /* ---- whitespace ---- */

  /** The characters JavaScript counts as whitespace, in trimming and in patterns. */
  predicate IsSpace(c: char)
  {
    c in {' ', '\t', '\n', '\r', '\U{000B}', '\U{000C}', '\U{00A0}', '\U{FEFF}', '\U{1680}',
          '\U{2028}', '\U{2029}', '\U{202F}', '\U{205F}', '\U{3000}'} || '\U{2000}' <= c <= '\U{200A}'
  }

  function TrimLeft(s: string): string
  {
    if s != [] && IsSpace(s[0]) then TrimLeft(s[1..]) else s
  }

  function TrimRight(s: string): string
  {
    if s != [] && IsSpace(s[|s| - 1]) then TrimRight(s[..|s| - 1]) else s
  }

  function Trim(s: string): string
  {
    TrimRight(TrimLeft(s))
  }

  predicate Blank(s: string)
  {
    forall c <- s :: IsSpace(c)
  }

  /** Neither end is whitespace: what `trim` returns. */
  predicate Trimmed(s: string)
  {
    s != [] ==> !IsSpace(s[0]) && !IsSpace(s[|s| - 1])
  }

  lemma {:induction false} TrimLeftPadding(lead: string, s: string)
    requires Blank(lead)
    ensures TrimLeft(lead + s) == TrimLeft(s)
  {
    if lead == [] {
      assert lead + s == s;
    } else {
      assert (lead + s)[1..] == lead[1..] + s;
      TrimLeftPadding(lead[1..], s);
    }
  }

  lemma {:induction false} TrimRightPadding(s: string, trail: string)
    requires Blank(trail)
    ensures TrimRight(s + trail) == TrimRight(s)
  {
    if trail == [] {
      assert s + trail == s;
    } else {
      var n := |trail| - 1;
      assert (s + trail)[..|s| + n] == s + trail[..n];
      TrimRightPadding(s, trail[..n]);
    }
  }

  /** Trimming removes exactly the padding around a trimmed core. */
  lemma TrimPadding(lead: string, core: string, trail: string)
    requires Blank(lead) && Blank(trail) && Trimmed(core)
    ensures Trim(lead + core + trail) == core
  {
    assert lead + core + trail == lead + (core + trail);
    TrimLeftPadding(lead, core + trail);
    if core == [] {
      assert core + trail == trail + [];
      TrimLeftPadding(trail, []);
    } else {
      assert (core + trail)[0] == core[0];
      TrimRightPadding(core, trail);
    }
  }

  lemma {:induction false} TrimLeftDecomposes(s: string) returns (lead: string)
    ensures Blank(lead) && s == lead + TrimLeft(s)
    ensures TrimLeft(s) != [] ==> !IsSpace(TrimLeft(s)[0])
  {
    if s != [] && IsSpace(s[0]) {
      var l := TrimLeftDecomposes(s[1..]);
      lead := [s[0]] + l;
      calc {
        s;
      ==
        [s[0]] + s[1..];
      ==
        [s[0]] + (l + TrimLeft(s[1..]));
      ==
        lead + TrimLeft(s);
      }
    } else {
      lead := [];
    }
  }

  lemma {:induction false} TrimRightDecomposes(s: string) returns (trail: string)
    ensures Blank(trail) && s == TrimRight(s) + trail
    ensures TrimRight(s) != [] ==> !IsSpace(TrimRight(s)[|TrimRight(s)| - 1])
  {
    if s != [] && IsSpace(s[|s| - 1]) {
      var t := TrimRightDecomposes(s[..|s| - 1]);
      trail := t + [s[|s| - 1]];
      assert s == s[..|s| - 1] + [s[|s| - 1]];
    } else {
      trail := [];
    }
  }

  /** `trim` always splits a string into blank padding around a trimmed core. */
  lemma TrimDecomposes(s: string) returns (lead: string, trail: string)
    ensures Blank(lead) && Blank(trail) && Trimmed(Trim(s)) && s == lead + Trim(s) + trail
  {
    lead := TrimLeftDecomposes(s);
    trail := TrimRightDecomposes(TrimLeft(s));
    var l, core := TrimLeft(s), Trim(s);
    if core != [] {
      assert core[0] == l[0];
    }
  }

  lemma TrimOfTrimmed(s: string)
    requires Trimmed(s)
    ensures Trim(s) == s
  {
    TrimPadding([], s, []);
    assert [] + s + [] == s;
  }

  /* ---- substrings ---- */

  predicate OccursAt(s: string, pat: string, i: int)
  {
    0 <= i <= |s| - |pat| && s[i..i + |pat|] == pat
  }

  /** The pattern occurs somewhere in the string. */
  predicate Contains(s: string, pat: string)
  {
    exists i | 0 <= i <= |s| :: OccursAt(s, pat, i)
  }

  lemma ContainsWithin(a: string, s: string, b: string, pat: string)
    requires Contains(s, pat)
    ensures Contains(a + s + b, pat)
  {
    var i :| 0 <= i <= |s| && OccursAt(s, pat, i);
    var whole := a + s + b;
    assert whole[|a| + i..|a| + i + |pat|] == s[i..i + |pat|];
    assert OccursAt(whole, pat, |a| + i);
  }

  /** A pattern without the separator is found in a joined string iff some part holds it. */
  lemma {:induction false} ContainsJoin(parts: seq<string>, sep: char, pat: string)
    requires sep !in pat && pat != []
    ensures Contains(Join(parts, [sep]), pat) <==> exists p <- parts :: Contains(p, pat)
  {
    if |parts| == 0 {
      forall i ensures !OccursAt([], pat, i) {}
    } else if |parts| == 1 {
      assert parts == [parts[0]];
      assert Join(parts, [sep]) == parts[0];
    } else {
      var head, tail := parts[0], Join(parts[1..], [sep]);
      var whole := head + [sep] + tail;
      ContainsJoin(parts[1..], sep, pat);
      assert parts == [head] + parts[1..];
      if Contains(head, pat) {
        ContainsWithin([], head, [sep] + tail, pat);
        assert [] + head + ([sep] + tail) == whole;
      }
      if Contains(tail, pat) {
        ContainsWithin(head + [sep], tail, [], pat);
        assert head + [sep] + tail + [] == whole;
      }
      if Contains(whole, pat) {
        var i :| 0 <= i <= |whole| && OccursAt(whole, pat, i);
        OccurrenceBesideSeparator(head, sep, tail, pat, i);
      }
      assert (exists p <- parts :: Contains(p, pat)) <==>
             Contains(head, pat) || exists p <- parts[1..] :: Contains(p, pat);
    }
  }

  lemma OccurrenceBesideSeparator(head: string, sep: char, tail: string, pat: string, i: int)
    requires sep !in pat && OccursAt(head + [sep] + tail, pat, i)
    ensures Contains(head, pat) || Contains(tail, pat)
  {
    var whole := head + [sep] + tail;
    assert forall j | i <= j < i + |pat| :: whole[j] == pat[j - i] && whole[j] in pat;
    assert whole[|head|] == sep;
    if i + |pat| <= |head| {
      assert head[i..i + |pat|] == whole[i..i + |pat|];
      assert OccursAt(head, pat, i);
    } else if i > |head| {
      var j := i - |head| - 1;
      assert tail[j..j + |pat|] == whole[i..i + |pat|];
      assert OccursAt(tail, pat, j);
    } else {
      assert false;
    }
  }

  lemma ContainsEnd(before: string, s: string)
    ensures Contains(before + s, s)
  {
    assert (before + s)[|before|..|before| + |s|] == s;
    assert OccursAt(before + s, s, |before|);
  }

  /** The length of the longest run of like characters a string starts with. */
  function RunLength(s: string, p: char -> bool): (n: nat)
    ensures n <= |s| && (forall i | 0 <= i < n :: p(s[i])) && (n < |s| ==> !p(s[n]))
  {
    if s != [] && p(s[0]) then 1 + RunLength(s[1..], p) else 0
  }

  /** A JavaScript `if (text)` on an optional string: the empty string does not count. */
  predicate Truthy(text: Option<string>)
  {
    text.Some? && text.value != ""
  }

  /* ---- decimals ---- */

  predicate IsDigit(c: char) { '0' <= c <= '9' }

  predicate AllDigits(s: string) { forall c <- s :: IsDigit(c) }

  /** The decimal text of a number, as a template literal prints it. */
  function Decimal(n: nat): string
  {
    if n < 10 then ['0' + n as char] else Decimal(n / 10) + ['0' + (n % 10) as char]
  }

  /** The value of a string of digits. */
  function DigitsValue(s: string): nat
    requires AllDigits(s)
  {
    if s == [] then 0
    else
      assert IsDigit(s[|s| - 1]);
      10 * DigitsValue(s[..|s| - 1]) + (s[|s| - 1] as int - '0' as int)
  }

  lemma {:induction false} DecimalRoundTrip(n: nat)
    ensures Decimal(n) != [] && AllDigits(Decimal(n)) && DigitsValue(Decimal(n)) == n
  {
    if n >= 10 {
      DecimalRoundTrip(n / 10);
      var d := Decimal(n);
      assert d[..|d| - 1] == Decimal(n / 10);
    } else {
      assert Decimal(n)[..0] == [];
    }
  }

  function Pow10(k: nat): nat
  {
    if k == 0 then 1 else 10 * Pow10(k - 1)
  }

  /** A number below 10^k prints in at most k digits. */
  lemma {:induction false} DecimalLength(n: nat, k: nat)
    requires k >= 1 && n < Pow10(k)
    ensures |Decimal(n)| <= k
  {
    if n >= 10 {
      assert Pow10(1) == 10 * Pow10(0) == 10;
      DecimalLength(n / 10, k - 1);
    }
  }

  lemma DecimalInjective(m: nat, n: nat)
    requires Decimal(m) == Decimal(n)
    ensures m == n
  {
    DecimalRoundTrip(m);
    DecimalRoundTrip(n);
  }
}
