/**
 * The detector for polls that wait on the keep-alive edge: cut an array literal out of the
 * source by bracket depth, split it at its top-level commas, and judge each element.
 */
module KeepAlive {
  import opened Texts
  import opened Sequences

  const BAND_LOW_MS := 1000
  const BAND_HIGH_MS := 2100

  predicate IsOpen(c: char) { c == '[' || c == '(' || c == '{' }

  predicate IsClose(c: char) { c == ']' || c == ')' || c == '}' }

  function Turn(c: char): int
  {
    if IsOpen(c) then 1 else if IsClose(c) then -1 else 0
  }

  /** How many brackets are left open. */
  function Depth(s: string): int
  {
    if s == [] then 0 else Depth(s[..|s| - 1]) + Turn(s[|s| - 1])
  }

  /* ---- the body of an array ---- */

  /** Where a scan that stands at `i`, `depth` brackets deep, stops, and how deep it is then. */
  function ScanEnd(source: string, i: nat, depth: nat): (r: (nat, nat))
    requires i <= |source|
    ensures i <= r.0 <= |source| && (r.1 == 0 && depth > 0 ==> r.0 > i)
    decreases |source| - i
  {
    if i == |source| || depth == 0 then (i, depth)
    else if IsOpen(source[i]) then ScanEnd(source, i + 1, depth + 1)
    else if IsClose(source[i]) then ScanEnd(source, i + 1, depth - 1)
    else ScanEnd(source, i + 1, depth)
  }

  function Body(source: string, from: nat): string
    requires from <= |source|
  {
    var (end, depth) := ScanEnd(source, from, 1);
    source[from..if depth == 0 then end - 1 else end]
  }

  method ArrayBody(source: string, from: nat) returns (body: string)
    requires from <= |source|
    ensures body == Body(source, from)
  {
    var depth: nat, i := 1, from;
    while i < |source| && depth > 0
      invariant from <= i <= |source| && (depth == 0 ==> i > from)
      invariant ScanEnd(source, i, depth) == ScanEnd(source, from, 1)
    {
      if IsOpen(source[i]) { depth := depth + 1; }
      else if IsClose(source[i]) { depth := depth - 1; }
      i := i + 1;
    }
    body := source[from..if depth == 0 then i - 1 else i];
  }

  /* ---- its top-level elements ---- */

  /** The text between commas at depth 0, for a scan already `depth` deep. */
  function SplitTop(depth: int, s: string): (pieces: seq<string>)
    ensures |pieces| >= 1
    decreases s
  {
    if s == [] then [[]]
    else
      var d := depth + Turn(s[0]);
      var rest := SplitTop(d, s[1..]);
      if s[0] == ',' && d == 0 then [[]] + rest else [[s[0]] + rest[0]] + rest[1..]
  }

  predicate NonEmpty(s: string)
  {
    s != []
  }

  function Elements(body: string): seq<string>
  {
    Filter(MapSeq(SplitTop(0, body), Trim), NonEmpty)
  }

  /** What a scan that holds `current` still has to report. */
  function Rest(current: string, pieces: seq<string>): seq<string>
    requires pieces != []
  {
    [current + pieces[0]] + pieces[1..]
  }

  method TopLevelElements(body: string) returns (elements: seq<string>)
    ensures elements == Elements(body)
  {
    var pieces: seq<string>, depth: int, current: string := [], 0, [];
    ScanStarts(body);
    for i := 0 to |body|
      invariant Scanning(pieces, current, depth, body[i..], body)
    {
      var ch := body[i];
      ScanChar(pieces, current, depth, body, i);
      if IsOpen(ch) { depth := depth + 1; }
      else if IsClose(ch) { depth := depth - 1; }
      if ch == ',' && depth == 0 {
        pieces := pieces + [current];
        current := [];
      } else {
        current := current + [ch];
      }
    }
    LastPiece(pieces, current, depth, body[|body|..]);
    pieces := pieces + [current];
    elements := Filter(MapSeq(pieces, Trim), NonEmpty);
  }

  /** The pieces so far and what the rest of the body adds are the pieces of the body. */
  ghost predicate Scanning(pieces: seq<string>, current: string, depth: int, rest: string, body: string)
  {
    pieces + Rest(current, SplitTop(depth, rest)) == SplitTop(0, body)
  }

  lemma ScanStarts(body: string)
    ensures Scanning([], [], 0, body[0..], body)
  {
    assert body[0..] == body;
    RestOfNothing(SplitTop(0, body));
  }

  lemma ScanChar(pieces: seq<string>, current: string, depth: int, body: string, i: nat)
    requires i < |body| && Scanning(pieces, current, depth, body[i..], body)
    ensures var d := depth + Turn(body[i]);
            if body[i] == ',' && d == 0 then Scanning(pieces + [current], [], d, body[i + 1..], body)
            else Scanning(pieces, current + [body[i]], d, body[i + 1..], body)
  {
    assert body[i..][0] == body[i] && body[i..][1..] == body[i + 1..];
    OneChar(pieces, current, depth, body[i..]);
  }

  lemma RestOfNothing(pieces: seq<string>)
    requires pieces != []
    ensures Rest([], pieces) == pieces && [] + Rest([], pieces) == pieces
  {
    assert [] + pieces[0] == pieces[0];
    assert pieces == [pieces[0]] + pieces[1..];
  }

  lemma LastPiece(pieces: seq<string>, current: string, depth: int, s: string)
    requires s == []
    ensures pieces + Rest(current, SplitTop(depth, s)) == pieces + [current]
  {
    assert current + [] == current;
  }

  /** A separator closes the current piece. */
  lemma SeparatorChar(pieces: seq<string>, current: string, rest: seq<string>)
    requires rest != []
    ensures pieces + Rest(current, [[]] + rest) == (pieces + [current]) + Rest([], rest)
  {
    assert current + [] == current;
    RestOfNothing(rest);
    assert Rest(current, [[]] + rest) == [current] + rest;
    AppendAssoc(pieces, [current], rest);
  }

  /** Any other character joins it. */
  lemma PlainChar(current: string, c: char, rest: seq<string>)
    requires rest != []
    ensures Rest(current, [[c] + rest[0]] + rest[1..]) == Rest(current + [c], rest)
  {
    AppendAssoc(current, [c], rest[0]);
    assert ([[c] + rest[0]] + rest[1..])[1..] == rest[1..];
  }

  /** What one more character does to the pieces. */
  lemma OneChar(pieces: seq<string>, current: string, depth: int, s: string)
    requires s != []
    ensures var d := depth + Turn(s[0]);
            pieces + Rest(current, SplitTop(depth, s)) ==
              if s[0] == ',' && d == 0 then (pieces + [current]) + Rest([], SplitTop(d, s[1..]))
              else pieces + Rest(current + [s[0]], SplitTop(d, s[1..]))
  {
    var rest := SplitTop(depth + Turn(s[0]), s[1..]);
    SeparatorChar(pieces, current, rest);
    PlainChar(current, s[0], rest);
  }

  /* ---- brackets that balance ---- */

  predicate NeverBelow(s: string)
  {
    forall k | 0 <= k <= |s| :: Depth(s[..k]) >= 0
  }

  predicate Balanced(s: string)
  {
    NeverBelow(s) && Depth(s) == 0
  }

  predicate NoTopComma(s: string)
  {
    forall k | 0 <= k < |s| && s[k] == ',' :: Depth(s[..k]) != 0
  }

  lemma {:induction false} DepthAppend(a: string, b: string)
    ensures Depth(a + b) == Depth(a) + Depth(b)
  {
    if b == [] {
      assert a + b == a;
    } else {
      assert (a + b)[..|a + b| - 1] == a + b[..|b| - 1];
      DepthAppend(a, b[..|b| - 1]);
    }
  }

  lemma DepthNext(s: string, k: nat)
    requires k < |s|
    ensures Depth(s[..k + 1]) == Depth(s[..k]) + Turn(s[k])
  {
    assert s[..k + 1][..k] == s[..k];
  }

  /** Where the scan stops: never below zero before, and at a closing bracket if it gets there. */
  lemma {:induction false} ScanMeaning(source: string, i: nat, depth: nat)
    requires i <= |source| && depth > 0
    ensures var (end, left) := ScanEnd(source, i, depth);
            && (forall k | i <= k < end :: depth + Depth(source[i..k]) > 0)
            && left == depth + Depth(source[i..end])
            && (left > 0 ==> end == |source|)
            && (left == 0 ==> end > i && IsClose(source[end - 1]))
    decreases |source| - i
  {
    assert source[i..i] == [];
    if i < |source| {
      var d := depth + Turn(source[i]);
      assert source[i..i + 1] == [source[i]];
      assert Depth([source[i]]) == Turn(source[i]) by { assert [source[i]][..0] == []; }
      if d > 0 {
        ScanMeaning(source, i + 1, d);
      }
      var (end, left) := ScanEnd(source, i, depth);
      forall k | i < k <= end ensures Depth(source[i..k]) == Turn(source[i]) + Depth(source[i + 1..k]) {
        assert source[i..k] == [source[i]] + source[i + 1..k];
        DepthAppend([source[i]], source[i + 1..k]);
      }
      if d == 0 {
        assert source[i + 1..i + 1] == [];
      }
    }
  }

  /** Inside a body the depth never goes negative, whatever the source is. */
  lemma BodyNeverBelow(source: string, from: nat)
    requires from <= |source|
    ensures NeverBelow(Body(source, from))
  {
    var body := Body(source, from);
    var (end, left) := ScanEnd(source, from, 1);
    ScanMeaning(source, from, 1);
    forall k | 0 <= k <= |body| ensures Depth(body[..k]) >= 0 {
      assert body[..k] == source[from..from + k];
    }
  }

  /** The depth along a balanced body and the bracket that closes it. */
  lemma DepthAlong(source: string, from: nat, body: string)
    requires Balanced(body) && from + |body| < |source|
    requires source[from..from + |body|] == body && IsClose(source[from + |body|])
    ensures forall k | from <= k <= from + |body| :: Depth(source[from..k]) >= 0
    ensures Depth(source[from..from + |body| + 1]) == -1
  {
    var stop := from + |body|;
    forall k | from <= k <= stop ensures Depth(source[from..k]) >= 0 {
      assert source[from..k] == body[..k - from];
    }
    assert source[from..stop + 1] == body + [source[stop]];
    DepthAppend(body, [source[stop]]);
    assert [source[stop]][..0] == [];
  }

  lemma BalancedBodyAt(source: string, from: nat, body: string)
    requires Balanced(body) && from + |body| < |source|
    requires source[from..from + |body|] == body && IsClose(source[from + |body|])
    ensures Body(source, from) == body
  {
    DepthAlong(source, from, body);
    ScanMeaning(source, from, 1);
    var (end, left) := ScanEnd(source, from, 1);
    assert end > from + |body|;
    assert end == from + |body| + 1;
  }

  /** A balanced body before a closing bracket is cut out exactly. */
  lemma BodyOfPrinted(before: string, body: string, close: char, after: string)
    requires Balanced(body) && IsClose(close)
    ensures Body(before + body + [close] + after, |before|) == body
  {
    var source := before + body + [close] + after;
    assert source[|before|..|before| + |body|] == body && source[|before| + |body|] == close;
    BalancedBodyAt(source, |before|, body);
  }

  /* ---- round trip ---- */

  /** An element of the array, with the whitespace around it. */
  datatype Element = Element(before: string, text: string, after: string)

  predicate WellFormed(e: Element)
  {
    Blank(e.before) && Blank(e.after) && e.text != [] && Trimmed(e.text) && Balanced(e.text) && NoTopComma(e.text)
  }

  function Padded(e: Element): string
  {
    e.before + e.text + e.after
  }

  predicate Piece(s: string)
  {
    Balanced(s) && NoTopComma(s)
  }

  /** One character that is no separator joins the piece behind it. */
  lemma SplitTopStep(depth: int, s: string, piece: string, more: seq<string>)
    requires s != [] && !(s[0] == ',' && depth + Turn(s[0]) == 0)
    requires SplitTop(depth + Turn(s[0]), s[1..]) == [piece] + more
    ensures SplitTop(depth, s) == [[s[0]] + piece] + more
  {
    assert ([piece] + more)[0] == piece && ([piece] + more)[1..] == more;
  }

  /** Splitting stops at the first comma that stands at depth 0. */
  lemma {:induction false} SplitTopHead(depth: int, head: string, tail: string, s: string)
    requires depth + Depth(head) == 0 && s == head + [','] + tail
    requires forall k | 0 <= k < |head| && head[k] == ',' :: depth + Depth(head[..k]) != 0
    ensures SplitTop(depth, s) == [head] + SplitTop(0, tail)
    decreases head
  {
    if head == [] {
      assert s[1..] == tail;
    } else {
      StepInto(depth, head);
      TailOfAppend(head, [',']);
      TailOfAppend(head + [','], tail);
      SplitTopHead(depth + Turn(head[0]), head[1..], tail, s[1..]);
      SplitTopStep(depth, s, head[1..], SplitTop(0, tail));
      HeadTail(head);
    }
  }

  lemma {:induction false} SplitTopSole(depth: int, s: string)
    requires forall k | 0 <= k < |s| && s[k] == ',' :: depth + Depth(s[..k]) != 0
    ensures SplitTop(depth, s) == [s]
    decreases s
  {
    if s != [] {
      StepInto(depth, s);
      SplitTopSole(depth + Turn(s[0]), s[1..]);
      SplitTopStep(depth, s, s[1..], []);
      HeadTail(s);
    }
  }

  lemma DepthOfFirst(s: string, k: nat)
    requires 1 <= k <= |s|
    ensures Depth(s[..k]) == Turn(s[0]) + Depth(s[1..][..k - 1])
  {
    assert s[..k] == [s[0]] + s[1..][..k - 1];
    DepthAppend([s[0]], s[1..][..k - 1]);
    assert [s[0]][..0] == [];
  }

  lemma StepInto(depth: int, s: string)
    requires s != [] && forall k | 0 <= k < |s| && s[k] == ',' :: depth + Depth(s[..k]) != 0
    ensures Depth(s) == Turn(s[0]) + Depth(s[1..])
    ensures forall k | 0 <= k < |s| - 1 && s[1..][k] == ',' :: depth + Turn(s[0]) + Depth(s[1..][..k]) != 0
    ensures s[0] == ',' ==> depth != 0
  {
    DepthOfFirst(s, |s|);
    assert s[..|s|] == s && s[1..][..|s| - 1] == s[1..];
    forall k | 0 <= k < |s| - 1 && s[1..][k] == ',' ensures depth + Turn(s[0]) + Depth(s[1..][..k]) != 0 {
      DepthOfFirst(s, k + 1);
      assert s[k + 1] == ',';
    }
    assert s[..0] == [];
  }

  lemma {:induction false} SplitTopJoin(parts: seq<string>)
    requires parts != [] && forall p <- parts :: Piece(p)
    ensures SplitTop(0, Join(parts, ",")) == parts
  {
    assert Piece(parts[0]) by { assert parts[0] in parts; }
    if |parts| == 1 {
      SplitTopSole(0, parts[0]);
      assert parts == [parts[0]];
    } else {
      SplitTopJoin(parts[1..]);
      SplitTopHead(0, parts[0], Join(parts[1..], ","), Join(parts, ","));
      assert parts == [parts[0]] + parts[1..];
    }
  }

  lemma BalancedAppend(a: string, b: string)
    requires Balanced(a) && Balanced(b)
    ensures Balanced(a + b)
  {
    DepthAppend(a, b);
    forall k | 0 <= k <= |a + b| ensures Depth((a + b)[..k]) >= 0 {
      if k <= |a| {
        assert (a + b)[..k] == a[..k];
      } else {
        assert (a + b)[..k] == a + b[..k - |a|];
        DepthAppend(a, b[..k - |a|]);
      }
    }
  }

  lemma {:induction false} PlainDepth(s: string)
    requires forall c <- s :: Turn(c) == 0
    ensures Balanced(s)
    decreases s
  {
    forall k | 0 <= k <= |s| ensures Depth(s[..k]) == 0 {
      PlainPrefix(s, k);
    }
    assert s[..|s|] == s;
  }

  lemma {:induction false} PlainPrefix(s: string, k: nat)
    requires k <= |s| && forall c <- s :: Turn(c) == 0
    ensures Depth(s[..k]) == 0
  {
    if k > 0 {
      PlainPrefix(s, k - 1);
      DepthNext(s, k - 1);
      assert s[k - 1] in s;
    }
  }

  lemma {:induction false} BalancedJoin(parts: seq<string>)
    requires forall p <- parts :: Balanced(p)
    ensures Balanced(Join(parts, ","))
  {
    if parts == [] {
      PlainDepth([]);
    } else {
      assert parts[0] in parts;
      if |parts| > 1 {
        BalancedJoin(parts[1..]);
        PlainDepth(",");
        BalancedAppend(parts[0], ",");
        BalancedAppend(parts[0] + ",", Join(parts[1..], ","));
      }
    }
  }

  lemma BlankIsPlain(s: string)
    requires Blank(s)
    ensures Balanced(s) && NoTopComma(s)
  {
    PlainDepth(s);
    forall k | 0 <= k < |s| ensures s[k] != ',' { assert s[k] in s; }
  }

  lemma NoTopCommaAppend(a: string, b: string)
    requires NoTopComma(a) && NoTopComma(b) && Depth(a) == 0
    ensures NoTopComma(a + b)
  {
    forall k | 0 <= k < |a + b| && (a + b)[k] == ',' ensures Depth((a + b)[..k]) != 0 {
      if k < |a| {
        assert (a + b)[..k] == a[..k];
      } else {
        assert (a + b)[..k] == a + b[..k - |a|];
        DepthAppend(a, b[..k - |a|]);
      }
    }
  }

  lemma PaddedIsPiece(e: Element)
    requires WellFormed(e)
    ensures Piece(Padded(e)) && Trim(Padded(e)) == e.text
  {
    BlankIsPlain(e.before);
    BlankIsPlain(e.after);
    BalancedAppend(e.before, e.text);
    BalancedAppend(e.before + e.text, e.after);
    NoTopCommaAppend(e.before, e.text);
    NoTopCommaAppend(e.before + e.text, e.after);
    TrimPadding(e.before, e.text, e.after);
  }

  function TextsOf(elements: seq<Element>): seq<string>
  {
    MapSeq(elements, (e: Element) => e.text)
  }

  /** A printed array: the padded elements and, with a trailing comma, one blank piece more. */
  function Printed(elements: seq<Element>, trailing: seq<string>): string
  {
    Join(MapSeq(elements, Padded) + trailing, ",")
  }

  lemma PiecesOfPrinted(elements: seq<Element>, trailing: seq<string>)
    requires (forall e <- elements :: WellFormed(e)) && forall t <- trailing :: Blank(t)
    ensures forall p <- MapSeq(elements, Padded) + trailing :: Piece(p)
  {
    forall p <- MapSeq(elements, Padded) + trailing ensures Piece(p) {
      if p in trailing {
        BlankIsPlain(p);
      } else {
        var i :| 0 <= i < |elements| && MapSeq(elements, Padded)[i] == p;
        assert elements[i] in elements;
        PaddedIsPiece(elements[i]);
      }
    }
  }

  lemma {:induction false} BlanksTrimAway(pieces: seq<string>)
    requires forall p <- pieces :: Blank(p)
    ensures Filter(MapSeq(pieces, Trim), NonEmpty) == []
  {
    forall i | 0 <= i < |pieces| ensures MapSeq(pieces, Trim)[i] == [] {
      assert pieces[i] in pieces;
      TrimPadding(pieces[i], [], []);
      assert pieces[i] + [] + [] == pieces[i];
    }
    FilterNone(MapSeq(pieces, Trim), NonEmpty);
  }

  /** Scanning a printed array gives back its elements, however they are padded. */
  lemma ElementsOfPrinted(elements: seq<Element>, trailing: seq<string>)
    requires (forall e <- elements :: WellFormed(e)) && forall t <- trailing :: Blank(t)
    ensures Elements(Printed(elements, trailing)) == TextsOf(elements)
    ensures Balanced(Printed(elements, trailing))
  {
    var parts := MapSeq(elements, Padded) + trailing;
    PiecesOfPrinted(elements, trailing);
    BalancedJoin(parts);
    BlanksTrimAway(trailing);
    if parts == [] {
      assert SplitTop(0, []) == [[]];
      BlanksTrimAway([[]]);
    } else {
      SplitTopJoin(parts);
      assert MapSeq(parts, Trim) == TextsOf(elements) + MapSeq(trailing, Trim) by {
        forall i | 0 <= i < |elements| ensures Trim(parts[i]) == elements[i].text {
          assert elements[i] in elements;
          PaddedIsPiece(elements[i]);
        }
      }
      FilterAppend(TextsOf(elements), MapSeq(trailing, Trim), NonEmpty);
      assert forall i | 0 <= i < |elements| :: elements[i] in elements;
      FilterAll(TextsOf(elements), NonEmpty);
    }
  }

  /** From the source: what stands between the brackets comes back element by element. */
  lemma ScanReadsBack(before: string, elements: seq<Element>, trailing: seq<string>, after: string)
    requires (forall e <- elements :: WellFormed(e)) && forall t <- trailing :: Blank(t)
    ensures Elements(Body(before + Printed(elements, trailing) + [']'] + after, |before|)) == TextsOf(elements)
  {
    ElementsOfPrinted(elements, trailing);
    BodyOfPrinted(before, Printed(elements, trailing), ']', after);
  }

  /* ---- judging an element ---- */

  /** An element without the single underscores that stand between two digits. */
  function WithoutSeparators(s: string): string
    decreases |s|
  {
    if s == [] then []
    else if |s| >= 3 && IsDigit(s[0]) && s[1] == '_' && IsDigit(s[2]) then [s[0]] + WithoutSeparators(s[2..])
    else [s[0]] + WithoutSeparators(s[1..])
  }

  predicate IsDigits(s: string)
  {
    s != [] && AllDigits(s)
  }

  datatype Judgement = Clean | Unreadable | OnEdge(value: nat)

  function Judge(element: string): Judgement
  {
    var digits := WithoutSeparators(element);
    if !IsDigits(digits) then Unreadable
    else
      var value := DigitsValue(digits);
      if BAND_LOW_MS < value < BAND_HIGH_MS then OnEdge(value) else Clean
  }

  /** A whole-number literal: digits, with single underscores between digits. */
  predicate WholeNumber(s: string)
  {
    && s != [] && IsDigit(s[0]) && IsDigit(s[|s| - 1])
    && (forall c <- s :: IsDigit(c) || c == '_')
    && forall i | 0 <= i < |s| - 1 :: !(s[i] == '_' && s[i + 1] == '_')
  }

  /** Its value: the digits alone. */
  function NumberOf(s: string): nat
  {
    FilterMembers(s, IsDigit);
    DigitsValue(Filter(s, IsDigit))
  }

  lemma {:induction false} StripMeaning(s: string)
    requires s != [] && IsDigit(s[0])
    ensures IsDigits(WithoutSeparators(s)) <==> WholeNumber(s)
    ensures WholeNumber(s) ==> WithoutSeparators(s) == Filter(s, IsDigit)
    decreases |s|
  {
    if |s| == 1 {
      assert s == [s[0]];
    } else if |s| >= 3 && s[1] == '_' && IsDigit(s[2]) {
      StripMeaning(s[2..]);
      assert s == [s[0], '_'] + s[2..];
      assert s[1..][1..] == s[2..];
      SkipPair(s);
    } else if IsDigit(s[1]) {
      StripMeaning(s[1..]);
      assert s == [s[0]] + s[1..];
      SkipOne(s);
    } else {
      var rest := WithoutSeparators(s[1..]);
      assert rest[0] == s[1];
      assert s[1] in WithoutSeparators(s);
      assert !WholeNumber(s);
    }
  }

  lemma SkipPair(s: string)
    requires |s| >= 3 && IsDigit(s[0]) && s[1] == '_' && IsDigit(s[2])
    ensures WholeNumber(s) <==> WholeNumber(s[2..])
  {
    var t := s[2..];
    assert forall i | 0 <= i < |t| :: t[i] == s[i + 2];
    if WholeNumber(s) {
      assert forall c <- t :: c in s;
    }
    if WholeNumber(t) {
      forall c <- s ensures IsDigit(c) || c == '_' { assert c == s[0] || c == s[1] || c in t; }
      forall i | 0 <= i < |s| - 1 ensures !(s[i] == '_' && s[i + 1] == '_') {
        if i >= 2 { assert s[i] == t[i - 2] && s[i + 1] == t[i - 1]; }
      }
    }
  }

  lemma SkipOne(s: string)
    requires |s| >= 2 && IsDigit(s[0]) && IsDigit(s[1])
    ensures WholeNumber(s) <==> WholeNumber(s[1..])
  {
    var t := s[1..];
    assert forall i | 0 <= i < |t| :: t[i] == s[i + 1];
    if WholeNumber(s) {
      assert forall c <- t :: c in s;
    }
    if WholeNumber(t) {
      forall c <- s ensures IsDigit(c) || c == '_' { assert c == s[0] || c in t; }
      forall i | 0 <= i < |s| - 1 ensures !(s[i] == '_' && s[i + 1] == '_') {
        if i >= 1 { assert s[i] == t[i - 1] && s[i + 1] == t[i]; }
      }
    }
  }

  /** An element is reported exactly when it is no whole number or lies strictly inside the band. */
  lemma FlaggedIff(element: string)
    ensures Judge(element) == Clean <==> WholeNumber(element) && !(1000 < NumberOf(element) < 2100)
    ensures Judge(element).OnEdge? <==> WholeNumber(element) && 1000 < NumberOf(element) < 2100
    ensures Judge(element).OnEdge? ==> Judge(element).value == NumberOf(element)
  {
    if element != [] && IsDigit(element[0]) {
      StripMeaning(element);
    } else if element != [] {
      assert WithoutSeparators(element)[0] == element[0];
      assert element[0] in WithoutSeparators(element);
    }
  }

  /* ---- the whole file ---- */

  /** Where the array pattern matched: the match's index and the position after its `[`. */
  datatype ArrayStart = ArrayStart(index: nat, start: nat)

  datatype Violation = Violation(line: nat, value: Option<nat>, element: string)

  function LineOf(source: string, index: nat): nat
    requires index <= |source|
  {
    |Split(source[..index], '\n')|
  }

  function ViolationOf(line: nat, element: string): Option<Violation>
  {
    match Judge(element)
    case Clean => None
    case Unreadable => Some(Violation(line, None, element))
    case OnEdge(value) => Some(Violation(line, Some(value), element))
  }

  function ViolationsIn(line: nat, elements: seq<string>): seq<Violation>
  {
    if elements == [] then []
    else
      var n := |elements| - 1;
      var front := ViolationsIn(line, elements[..n]);
      var v := ViolationOf(line, elements[n]);
      if v.Some? then front + [v.value] else front
  }

  predicate InSource(source: string, m: ArrayStart)
  {
    m.index <= |source| && m.start <= |source|
  }

  function Violations(source: string, matches: seq<ArrayStart>): seq<Violation>
    requires forall m <- matches :: InSource(source, m)
  {
    if matches == [] then []
    else
      var n := |matches| - 1;
      assert InSource(source, matches[n]);
      Violations(source, matches[..n]) + ViolationsIn(LineOf(source, matches[n].index), Elements(Body(source, matches[n].start)))
  }

  /** The inner loop: one array's elements. */
  method JudgeElements(line: nat, elements: seq<string>) returns (found: seq<Violation>)
    ensures found == ViolationsIn(line, elements)
  {
    found := [];
    for i := 0 to |elements|
      invariant found == ViolationsIn(line, elements[..i])
    {
      assert elements[..i + 1][..i] == elements[..i];
      var digits := WithoutSeparators(elements[i]);
      if !IsDigits(digits) {
        found := found + [Violation(line, None, elements[i])];
        continue;
      }
      var value := DigitsValue(digits);
      if value > BAND_LOW_MS && value < BAND_HIGH_MS {
        found := found + [Violation(line, Some(value), elements[i])];
      }
    }
    TakeAll(elements);
  }

  method FindKeepAliveEdgeIntervals(source: string, matches: seq<ArrayStart>) returns (violations: seq<Violation>)
    requires forall m <- matches :: InSource(source, m)
    ensures violations == Violations(source, matches)
  {
    violations := [];
    for k := 0 to |matches|
      invariant violations == Violations(source, matches[..k])
    {
      assert matches[..k + 1][..k] == matches[..k] && matches[k] in matches;
      var body := ArrayBody(source, matches[k].start);
      var elements := TopLevelElements(body);
      var found := JudgeElements(LineOf(source, matches[k].index), elements);
      violations := violations + found;
    }
    TakeAll(matches);
  }

  lemma {:induction false} ViolationsMembers(line: nat, elements: seq<string>, element: string)
    ensures (exists v <- ViolationsIn(line, elements) :: v.element == element)
            <==> element in elements && Judge(element) != Clean
  {
    if elements != [] {
      var n := |elements| - 1;
      ViolationsMembers(line, elements[..n], element);
      assert elements == elements[..n] + [elements[n]];
      var front, last := ViolationsIn(line, elements[..n]), ViolationOf(line, elements[n]);
      assert ViolationsIn(line, elements) == front + if last.Some? then [last.value] else [];
      assert forall v :: v in ViolationsIn(line, elements) <==> v in front || last == Some(v);
    }
  }

  /** End to end: of a printed array exactly the elements off the whole numbers or on the edge are reported. */
  lemma ReportedIff(before: string, elements: seq<Element>, trailing: seq<string>, after: string, index: nat, e: Element)
    requires (forall x <- elements :: WellFormed(x)) && (forall t <- trailing :: Blank(t)) && index <= |before| && e in elements
    ensures var source := before + Printed(elements, trailing) + [']'] + after;
            var m := ArrayStart(index, |before|);
            InSource(source, m) &&
            ((exists v <- Violations(source, [m]) :: v.element == e.text)
             <==> !WholeNumber(e.text) || 1000 < NumberOf(e.text) < 2100)
  {
    var source := before + Printed(elements, trailing) + [']'] + after;
    var m := ArrayStart(index, |before|);
    ScanReadsBack(before, elements, trailing, after);
    assert [m][..0] == [];
    var line := LineOf(source, index);
    assert Violations(source, [m]) == ViolationsIn(line, TextsOf(elements));
    var i :| 0 <= i < |elements| && elements[i] == e;
    assert TextsOf(elements)[i] == e.text;
    ViolationsMembers(line, TextsOf(elements), e.text);
    FlaggedIff(e.text);
  }

  /* ---- what the depth counts ---- */

  /** How often one of some characters stands in a text. */
  function Occurring(s: string, chars: set<char>): nat
  {
    |OccurringAt(s, chars)|
  }

  function OccurringAt(s: string, chars: set<char>): set<nat>
  {
    set i: nat | i < |s| && s[i] in chars
  }

  lemma OccurringNext(s: string, chars: set<char>)
    requires s != []
    ensures Occurring(s, chars) == Occurring(s[..|s| - 1], chars) + if s[|s| - 1] in chars then 1 else 0
  {
    var n := |s| - 1;
    assert forall i | 0 <= i < n :: s[..n][i] == s[i];
    if s[n] in chars {
      assert OccurringAt(s, chars) == OccurringAt(s[..n], chars) + {n};
    } else {
      assert OccurringAt(s, chars) == OccurringAt(s[..n], chars);
    }
  }

  /** The depth of a text is its opening brackets less its closing ones, of all three kinds alike. */
  lemma {:induction false} DepthCounts(s: string)
    ensures Depth(s) == Occurring(s, {'[', '(', '{'}) - Occurring(s, {']', ')', '}'})
  {
    if s == [] {
      assert OccurringAt(s, {'[', '(', '{'}) == {} && OccurringAt(s, {']', ')', '}'}) == {};
    } else {
      DepthCounts(s[..|s| - 1]);
      OccurringNext(s, {'[', '(', '{'});
      OccurringNext(s, {']', ')', '}'});
    }
  }

  /* ---- what a report says ---- */

  lemma OccurringCons(s: string, chars: set<char>)
    requires s != []
    ensures Occurring(s, chars) == Occurring(s[1..], chars) + if s[0] in chars then 1 else 0
  {
    var rest := OccurringAt(s[1..], chars);
    var shifted := set i <- rest :: i + 1;
    assert forall i | 0 < i < |s| :: s[1..][i - 1] == s[i];
    ShiftedSize(rest, shifted);
    assert forall i | i in OccurringAt(s, chars) && i != 0 :: i - 1 in rest;
    assert OccurringAt(s, chars) == shifted + if s[0] in chars then {0} else {};
  }

  lemma {:induction false} ShiftedSize(xs: set<nat>, shifted: set<nat>)
    requires shifted == set i <- xs :: i + 1
    ensures |shifted| == |xs|
  {
    if xs != {} {
      var x :| x in xs;
      ShiftedSize(xs - {x}, set i <- xs - {x} :: i + 1);
      assert xs == (xs - {x}) + {x};
      assert shifted == (set i <- xs - {x} :: i + 1) + {x + 1} by {
        forall j ensures j in shifted <==> j in (set i <- xs - {x} :: i + 1) + {x + 1} {
          if j in shifted {
            var i :| i in xs && j == i + 1;
            assert i == x || i in xs - {x};
          }
        }
      }
    }
  }

  lemma {:induction false} PiecesCount(s: string, sep: char)
    ensures |Split(s, sep)| == 1 + Occurring(s, {sep})
  {
    if s == [] {
      assert OccurringAt(s, {sep}) == {};
    } else {
      PiecesCount(s[1..], sep);
      OccurringCons(s, {sep});
    }
  }

  /** A reported element: on its array's line, with its number when it is one, and for its own reason. */
  ghost predicate IsReport(source: string, m: ArrayStart, v: Violation)
    requires InSource(source, m)
  {
    && v.element in Elements(Body(source, m.start)) && v.line == 1 + Occurring(source[..m.index], {'\n'})
    && if WholeNumber(v.element) then v.value == Some(NumberOf(v.element)) && 1000 < NumberOf(v.element) < 2100
       else v.value == None
  }

  lemma {:induction false} ViolationsInIff(line: nat, elements: seq<string>, v: Violation)
    ensures v in ViolationsIn(line, elements) <==> v.element in elements && ViolationOf(line, v.element) == Some(v)
  {
    if elements != [] {
      var n := |elements| - 1;
      ViolationsInIff(line, elements[..n], v);
      assert elements == elements[..n] + [elements[n]];
    }
  }

  lemma ReportIs(source: string, m: ArrayStart, v: Violation)
    requires InSource(source, m)
    ensures v in ViolationsIn(LineOf(source, m.index), Elements(Body(source, m.start))) <==> IsReport(source, m, v)
  {
    ViolationsInIff(LineOf(source, m.index), Elements(Body(source, m.start)), v);
    PiecesCount(source[..m.index], '\n');
    FlaggedIff(v.element);
  }

  /** The rows of a source are exactly the reports of its arrays: no element is dropped, none is added, each says its line and value. */
  lemma {:induction false} ReportsAre(source: string, matches: seq<ArrayStart>, v: Violation)
    requires forall m <- matches :: InSource(source, m)
    ensures v in Violations(source, matches) <==> exists m <- matches :: IsReport(source, m, v)
  {
    if matches != [] {
      var n := |matches| - 1;
      ReportsAre(source, matches[..n], v);
      assert matches == matches[..n] + [matches[n]];
      ReportIs(source, matches[n], v);
    }
  }
}
