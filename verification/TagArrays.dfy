/**
 * What a cut leaves of a tag array: the printed array read again, element by element.
 *
 * An array is a list of element texts with the whitespace around each, separated by commas,
 * perhaps with a trailing comma. Elements are read by splitting at the commas that stand
 * outside quotes; an empty piece between commas is a hole.
 */
module TagArrays {
  import opened Texts
  import opened Sequences
  import opened SpliceTags

  datatype Element = Element(before: string, text: string, after: string)

  /** `trailing` is what follows the comma after the last element, when there is one. */
  datatype TagArray = TagArray(elements: seq<Element>, trailing: Option<string>)

  /* ---- reading ---- */

  datatype Mode = Code | Quoted(quote: char) | Escaped(quote: char)

  function Step(m: Mode, c: char): Mode
  {
    match m
    case Code => if c == '"' || c == '\'' || c == '`' then Quoted(c) else Code
    case Quoted(q) => if c == '\\' then Escaped(q) else if c == q then Code else m
    case Escaped(q) => Quoted(q)
  }

  function Run(m: Mode, s: string): Mode
    decreases s
  {
    if s == [] then m else Run(Step(m, s[0]), s[1..])
  }

  /** The text between top-level commas. */
  function Pieces(m: Mode, s: string): (pieces: seq<string>)
    ensures |pieces| >= 1
    decreases s
  {
    if s == [] then [[]]
    else
      var rest := Pieces(Step(m, s[0]), s[1..]);
      if m == Code && s[0] == ',' then [[]] + rest else [[s[0]] + rest[0]] + rest[1..]
  }

  /** The elements of an array literal: a blank last piece is no element, another is a hole. */
  function Read(content: string): seq<string>
  {
    Settle(Pieces(Code, content))
  }

  function Settle(pieces: seq<string>): seq<string>
    requires pieces != []
  {
    var n := |pieces| - 1;
    MapSeq(if Blank(pieces[n]) then pieces[..n] else pieces, Trim)
  }

  /* ---- printing ---- */

  function Padded(e: Element): string
  {
    e.before + e.text + e.after
  }

  /** Each part followed by a comma. */
  function Pre(parts: seq<string>): string
  {
    if parts == [] then [] else parts[0] + "," + Pre(parts[1..])
  }

  /** Each part preceded by a comma. */
  function Post(parts: seq<string>): string
  {
    if parts == [] then [] else "," + parts[0] + Post(parts[1..])
  }

  function TrailingPart(a: TagArray): seq<string>
  {
    if a.trailing.Some? then [a.trailing.value] else []
  }

  function Parts(a: TagArray): seq<string>
  {
    MapSeq(a.elements, Padded) + TrailingPart(a)
  }

  function Print(a: TagArray): string
  {
    "[" + Join(Parts(a), ",") + "]"
  }

  function TextsOf(a: TagArray): seq<string>
  {
    MapSeq(a.elements, (e: Element) => e.text)
  }

  /** No comma of `s` is at top level. */
  predicate NoTopComma(m: Mode, s: string)
    decreases s
  {
    s == [] || (!(m == Code && s[0] == ',') && NoTopComma(Step(m, s[0]), s[1..]))
  }

  /** One piece of an array: its quotes close and none of its commas separates. */
  predicate Whole(s: string)
  {
    NoTopComma(Code, s) && Run(Code, s) == Code
  }

  predicate WellFormedElement(e: Element)
  {
    Blank(e.before) && Blank(e.after) && e.text != [] && Trimmed(e.text) && Whole(e.text)
  }

  predicate WellFormed(a: TagArray)
  {
    a.elements != [] && (forall e <- a.elements :: WellFormedElement(e)) && (a.trailing.Some? ==> Blank(a.trailing.value))
  }

  /** Inside a quote every character but the quote and the backslash stays inside it. */
  lemma {:induction false} InsideQuote(q: char, s: string)
    requires q != '\\' && q !in s && '\\' !in s
    ensures NoTopComma(Quoted(q), s + [q]) && Run(Quoted(q), s + [q]) == Code
  {
    if s == [] {
      assert s + [q] == [q] && [q][1..] == [];
    } else {
      assert (s + [q])[0] == s[0] && (s + [q])[1..] == s[1..] + [q];
      assert s[0] in s;
      InsideQuote(q, s[1..]);
    }
  }

  /** A plain string literal in any of the three quotes is an element, whatever stands in it: commas and brackets included. */
  lemma LiteralIsElement(quote: char, before: string, body: string, after: string)
    requires quote in {'"', '\'', '`'} && Blank(before) && Blank(after) && quote !in body && '\\' !in body
    ensures WellFormedElement(Element(before, [quote] + body + [quote], after))
  {
    var text := [quote] + body + [quote];
    assert text[0] == quote && text[1..] == body + [quote];
    InsideQuote(quote, body);
  }

  /* ---- reading what was printed ---- */

  lemma {:induction false} PiecesHead(m: Mode, head: string, tail: string)
    requires NoTopComma(m, head) && Run(m, head) == Code
    ensures Pieces(m, head + [','] + tail) == [head] + Pieces(Code, tail)
    decreases head
  {
    var s := head + [','] + tail;
    if head == [] {
      assert s[1..] == tail;
    } else {
      PiecesHead(Step(m, head[0]), head[1..], tail);
      assert s[1..] == head[1..] + [','] + tail;
      assert [head[0]] + head[1..] == head;
    }
  }

  lemma {:induction false} PiecesSole(m: Mode, s: string)
    requires NoTopComma(m, s)
    ensures Pieces(m, s) == [s]
    decreases s
  {
    if s != [] {
      PiecesSole(Step(m, s[0]), s[1..]);
      assert [s[0]] + s[1..] == s;
    }
  }

  /** Splitting at top-level commas undoes joining with commas. */
  lemma {:induction false} PiecesJoin(parts: seq<string>)
    requires parts != [] && forall p <- parts :: Whole(p)
    ensures Pieces(Code, Join(parts, ",")) == parts
  {
    assert parts[0] in parts;
    if |parts| == 1 {
      PiecesSole(Code, parts[0]);
      assert parts == [parts[0]];
    } else {
      PiecesJoin(parts[1..]);
      PiecesHead(Code, parts[0], Join(parts[1..], ","));
      assert parts == [parts[0]] + parts[1..];
    }
  }

  lemma {:induction false} RunAppend(m: Mode, a: string, b: string)
    ensures Run(m, a + b) == Run(Run(m, a), b)
    ensures NoTopComma(m, a + b) == (NoTopComma(m, a) && NoTopComma(Run(m, a), b))
    decreases a
  {
    if a == [] {
      assert a + b == b;
    } else {
      assert (a + b)[1..] == a[1..] + b;
      RunAppend(Step(m, a[0]), a[1..], b);
    }
  }

  lemma {:induction false} BlankIsWhole(s: string)
    requires Blank(s)
    ensures Whole(s)
  {
    if s != [] {
      BlankIsWhole(s[1..]);
      assert s[0] in s;
    }
  }

  lemma PaddedIsWhole(e: Element)
    requires WellFormedElement(e)
    ensures Whole(Padded(e)) && !Blank(Padded(e)) && Trim(Padded(e)) == e.text
  {
    BlankIsWhole(e.before);
    BlankIsWhole(e.after);
    RunAppend(Code, e.before, e.text);
    RunAppend(Code, e.before + e.text, e.after);
    TrimPadding(e.before, e.text, e.after);
    assert Padded(e)[|e.before|] == e.text[0];
  }

  lemma SettlePadded(pieces: seq<string>, elements: seq<Element>, trailing: seq<string>)
    requires elements != [] && forall e <- elements :: WellFormedElement(e)
    requires |trailing| <= 1 && forall t <- trailing :: Blank(t)
    requires pieces == MapSeq(elements, Padded) + trailing
    ensures Settle(pieces) == MapSeq(elements, (e: Element) => e.text)
  {
    var n := |elements|;
    forall k | 0 <= k < n ensures Trim(pieces[k]) == elements[k].text && !Blank(pieces[k]) {
      assert elements[k] in elements;
      PaddedIsWhole(elements[k]);
    }
    if trailing == [] {
      assert pieces[..n] == pieces;
    } else {
      assert pieces[n] == trailing[0] && trailing[0] in trailing;
      assert |pieces| == n + 1;
    }
    assert Settle(pieces) == MapSeq(pieces[..n], Trim);
  }

  /** A printed array reads back as its elements. */
  lemma PrintedReadsBack(a: TagArray)
    requires WellFormed(a)
    ensures Read(Join(Parts(a), ",")) == TextsOf(a)
  {
    forall p <- Parts(a) ensures Whole(p) {
      if p in MapSeq(a.elements, Padded) {
        var k :| 0 <= k < |a.elements| && MapSeq(a.elements, Padded)[k] == p;
        assert a.elements[k] in a.elements;
        PaddedIsWhole(a.elements[k]);
      } else {
        BlankIsWhole(p);
      }
    }
    PiecesJoin(Parts(a));
    SettlePadded(Parts(a), a.elements, TrailingPart(a));
  }

  /* ---- where an element stands ---- */

  /** The span of an element, for an array printed at `at`. */
  function Span(a: TagArray, at: nat, k: nat): Range
    requires k < |a.elements|
  {
    var start := at + 1 + |Pre(Parts(a)[..k])| + |a.elements[k].before|;
    Range(start, start + |a.elements[k].text|)
  }

  function Spans(a: TagArray, at: nat): (spans: seq<Range>)
    ensures |spans| == |a.elements|
  {
    seq(|a.elements|, k requires 0 <= k < |a.elements| => Span(a, at, k))
  }

  lemma {:induction false} JoinThen(p: string, right: seq<string>)
    ensures Join([p] + right, ",") == p + Post(right)
    decreases right
  {
    if right != [] {
      JoinThen(right[0], right[1..]);
      assert [right[0]] + right[1..] == right;
      JoinCons(p, right, ",");
      assert p + "," + (right[0] + Post(right[1..])) == p + ("," + right[0] + Post(right[1..]));
    }
  }

  lemma {:induction false} JoinAround(left: seq<string>, p: string, right: seq<string>)
    ensures Join(left + [p] + right, ",") == Pre(left) + p + Post(right)
    decreases left
  {
    if left == [] {
      assert left + [p] + right == [p] + right;
      JoinThen(p, right);
      assert [] + p == p;
    } else {
      JoinAround(left[1..], p, right);
      ConsAround(left, p, right);
      JoinCons(left[0], left[1..] + [p] + right, ",");
      PreRegrouped(left[0], Pre(left[1..]), p, Post(right));
    }
  }

  lemma ConsAround(left: seq<string>, p: string, right: seq<string>)
    requires left != []
    ensures left + [p] + right == [left[0]] + (left[1..] + [p] + right)
  {
  }

  lemma PreRegrouped(head: string, pre: string, p: string, post: string)
    ensures head + "," + (pre + p + post) == (head + "," + pre) + p + post
  {
    AppendAssoc(head + ",", pre + p, post);
    AppendAssoc(head + ",", pre, p);
  }

  lemma {:induction false} PreSnoc(left: seq<string>, p: string)
    ensures Pre(left + [p]) == Pre(left) + p + ","
  {
    if left == [] {
      assert left + [p] == [p] && [p][1..] == [];
    } else {
      PreSnoc(left[1..], p);
      assert (left + [p])[1..] == left[1..] + [p];
      assert left[0] + "," + (Pre(left[1..]) + p + ",") == left[0] + "," + Pre(left[1..]) + p + ",";
    }
  }

  /** A printed array, opened around two neighbours. */
  lemma PrintAroundPair(a: TagArray, k: nat)
    requires k + 1 < |a.elements|
    ensures Print(a) == ("[" + Pre(Parts(a)[..k])) + Padded(a.elements[k]) + "," + Padded(a.elements[k + 1])
                        + (Post(Parts(a)[k + 2..]) + "]")
    ensures Pre(Parts(a)[..k + 1]) == Pre(Parts(a)[..k]) + Padded(a.elements[k]) + ","
  {
    var parts := Parts(a);
    assert parts == parts[..k + 1] + [parts[k + 1]] + parts[k + 2..];
    assert parts[..k + 1] == parts[..k] + [parts[k]];
    JoinAround(parts[..k + 1], parts[k + 1], parts[k + 2..]);
    PreSnoc(parts[..k], parts[k]);
    Bracketed(Pre(parts[..k]), parts[k], parts[k + 1], Post(parts[k + 2..]));
  }

  lemma Bracketed(pre: string, p: string, q: string, post: string)
    ensures "[" + ((pre + p + ",") + q + post) + "]" == ("[" + pre) + p + "," + q + (post + "]")
  {
    assert "[" + (pre + p + ",") == ("[" + pre) + p + ",";
  }

  /** Two padded neighbours, regrouped around what a cut takes out. */
  lemma Regrouped(lead: string, pre: string, x: string, y: string, z: string, post: string, rest: string)
    ensures lead + (pre + x + y + z + post) + rest == (lead + pre + x) + y + (z + post + rest)
  {
    AppendAssoc(pre + x + y, z, post);
    AppendAssoc(pre + x, y, z + post);
    AppendAssoc(lead, pre + x, y + (z + post));
    AppendAssoc(lead, pre, x);
    AppendAssoc(lead + pre + x + y, z + post, rest);
    AppendAssoc(lead + pre + x, y, z + post);
  }

  lemma PairSplit(pre: string, e: Element, f: Element, post: string)
    ensures pre + Padded(e) + "," + Padded(f) + post
            == pre + e.before + (e.text + e.after + "," + f.before) + (f.text + f.after) + post
    ensures pre + Padded(e) + "," + Padded(f) + post
            == pre + (e.before + e.text) + (e.after + "," + f.before + f.text) + f.after + post
  {
    assert pre + Padded(e) == pre + e.before + (e.text + e.after);
    assert pre + Padded(e) == pre + (e.before + e.text) + e.after;
    assert pre + Padded(e) + "," + Padded(f) == pre + e.before + (e.text + e.after + "," + f.before) + (f.text + f.after) by {
      assert (e.text + e.after) + "," + Padded(f) == (e.text + e.after + "," + f.before) + (f.text + f.after);
    }
    assert pre + Padded(e) + "," + Padded(f) == pre + (e.before + e.text) + (e.after + "," + f.before + f.text) + f.after by {
      assert e.after + "," + Padded(f) == (e.after + "," + f.before + f.text) + f.after;
    }
  }

  lemma CutMiddle(x: string, y: string, z: string, r: Range)
    requires r == Range(|x|, |x| + |y|)
    ensures Cut(x + y + z, r) == x + z
  {
    var text := x + y + z;
    assert text[..|x|] == x && text[|x| + |y|..] == z;
  }

  /* ---- cutting an element out ---- */

  function RemoveAt<T>(xs: seq<T>, i: nat): seq<T>
    requires i < |xs|
  {
    xs[..i] + xs[i + 1..]
  }

  /** The array a cut leaves, when another element remains to close up to. */
  function Removed(a: TagArray, idx: nat): TagArray
    requires idx < |a.elements| && |a.elements| > 1
  {
    var es := a.elements;
    if idx < |es| - 1 then a.(elements := es[..idx] + [es[idx + 1].(before := es[idx].before)] + es[idx + 2..])
    else a.(elements := es[..idx - 1] + [es[idx - 1].(after := es[idx].after)])
  }

  /** What is left between the brackets when the only element is cut out. */
  function Bare(a: TagArray): string
    requires |a.elements| == 1
  {
    a.elements[0].before + a.elements[0].after + Post(TrailingPart(a))
  }

  function CutContent(a: TagArray, idx: nat): string
    requires idx < |a.elements|
  {
    if |a.elements| == 1 then Bare(a) else Join(Parts(Removed(a, idx)), ",")
  }

  lemma RemovedParts(a: TagArray, idx: nat)
    requires idx < |a.elements| && |a.elements| > 1
    ensures var k := if idx < |a.elements| - 1 then idx else idx - 1;
            var e := Removed(a, idx).elements[k];
            && |Removed(a, idx).elements| == |a.elements| - 1
            && Parts(Removed(a, idx)) == Parts(a)[..k] + [Padded(e)] + Parts(a)[k + 2..]
            && Join(Parts(Removed(a, idx)), ",") == Pre(Parts(a)[..k]) + Padded(e) + Post(Parts(a)[k + 2..])
  {
    var k := if idx < |a.elements| - 1 then idx else idx - 1;
    var e := Removed(a, idx).elements[k];
    assert Parts(Removed(a, idx)) == Parts(a)[..k] + [Padded(e)] + Parts(a)[k + 2..];
    JoinAround(Parts(a)[..k], Padded(e), Parts(a)[k + 2..]);
  }

  /** Cutting an element that is not the last: up to the start of the next one. */
  lemma CutBefore(a: TagArray, idx: nat, lead: string, rest: string)
    requires idx + 1 < |a.elements|
    ensures Cut(lead + Print(a) + rest, Range(Span(a, |lead|, idx).start, Span(a, |lead|, idx + 1).start))
            == lead + Print(Removed(a, idx)) + rest
  {
    var e, f := a.elements[idx], a.elements[idx + 1];
    var pre, post := "[" + Pre(Parts(a)[..idx]), Post(Parts(a)[idx + 2..]) + "]";
    var closed := f.(before := e.before);
    var r := Range(|lead| + |pre| + |e.before|, |lead| + |pre| + |Padded(e)| + 1 + |f.before|);
    assert r == Range(Span(a, |lead|, idx).start, Span(a, |lead|, idx + 1).start) by { SpanPair(a, idx, |lead|); }
    calc {
      Cut(lead + Print(a) + rest, r);
    ==  { PrintAroundPair(a, idx); }
      Cut(lead + (pre + Padded(e) + "," + Padded(f) + post) + rest, r);
    ==  { CutFirstOfPair(lead, pre, e, f, post, rest); }
      lead + (pre + Padded(closed) + post) + rest;
    ==  { RemovedPrint(a, idx, idx, closed); PrintOne(Pre(Parts(a)[..idx]), Padded(closed), Post(Parts(a)[idx + 2..])); }
      lead + Print(Removed(a, idx)) + rest;
    }
  }

  /** The spans of two neighbours, measured from the front of the first. */
  lemma SpanPair(a: TagArray, k: nat, at: nat)
    requires k + 1 < |a.elements|
    ensures var from := at + |"[" + Pre(Parts(a)[..k])|;
            && Span(a, at, k).start == from + |a.elements[k].before|
            && Span(a, at, k).end == from + |a.elements[k].before| + |a.elements[k].text|
            && Span(a, at, k + 1).start == from + |Padded(a.elements[k])| + 1 + |a.elements[k + 1].before|
            && Span(a, at, k + 1).end
               == from + |Padded(a.elements[k])| + 1 + |a.elements[k + 1].before| + |a.elements[k + 1].text|
  {
    PrintAroundPair(a, k);
  }

  lemma RemovedPrint(a: TagArray, idx: nat, k: nat, closed: Element)
    requires idx < |a.elements| && |a.elements| > 1 && k == if idx < |a.elements| - 1 then idx else idx - 1
    requires closed == Removed(a, idx).elements[k]
    ensures Print(Removed(a, idx)) == "[" + (Pre(Parts(a)[..k]) + Padded(closed) + Post(Parts(a)[k + 2..])) + "]"
  {
    RemovedParts(a, idx);
  }

  lemma PrintOne(pre: string, p: string, post: string)
    ensures "[" + (pre + p + post) + "]" == ("[" + pre) + p + (post + "]")
  {
    assert "[" + (pre + p) == ("[" + pre) + p;
  }

  lemma CutFirstOfPair(lead: string, pre: string, e: Element, f: Element, post: string, rest: string)
    ensures Cut(lead + (pre + Padded(e) + "," + Padded(f) + post) + rest,
                Range(|lead| + |pre| + |e.before|, |lead| + |pre| + |Padded(e)| + 1 + |f.before|))
            == lead + (pre + Padded(f.(before := e.before)) + post) + rest
  {
    var x, y, z := e.before, e.text + e.after + "," + f.before, f.text + f.after;
    PairSplit(pre, e, f, post);
    Regrouped(lead, pre, x, y, z, post, rest);
    CutMiddle(lead + pre + x, y, z + post + rest, Range(|lead| + |pre| + |x|, |lead| + |pre| + |x| + |y|));
    Regrouped(lead, pre, x, [], z, post, rest);
    assert (lead + pre + x) + [] == lead + pre + x;
    assert pre + x + [] + z == pre + Padded(f.(before := x));
  }

  /** Cutting the last element: from the end of the one before it. */
  lemma CutLast(a: TagArray, idx: nat, lead: string, rest: string)
    requires 1 <= idx == |a.elements| - 1
    ensures Cut(lead + Print(a) + rest, Range(Span(a, |lead|, idx - 1).end, Span(a, |lead|, idx).end))
            == lead + Print(Removed(a, idx)) + rest
  {
    var d, e := a.elements[idx - 1], a.elements[idx];
    var pre, post := "[" + Pre(Parts(a)[..idx - 1]), Post(Parts(a)[idx + 1..]) + "]";
    var closed := d.(after := e.after);
    var r := Range(|lead| + |pre| + |d.before| + |d.text|, |lead| + |pre| + |Padded(d)| + 1 + |e.before| + |e.text|);
    assert r == Range(Span(a, |lead|, idx - 1).end, Span(a, |lead|, idx).end) by { SpanPair(a, idx - 1, |lead|); }
    calc {
      Cut(lead + Print(a) + rest, r);
    ==  { PrintAroundPair(a, idx - 1); }
      Cut(lead + (pre + Padded(d) + "," + Padded(e) + post) + rest, r);
    ==  { CutSecondOfPair(lead, pre, d, e, post, rest); }
      lead + (pre + Padded(closed) + post) + rest;
    ==  { RemovedPrint(a, idx, idx - 1, closed); PrintOne(Pre(Parts(a)[..idx - 1]), Padded(closed), Post(Parts(a)[idx + 1..])); }
      lead + Print(Removed(a, idx)) + rest;
    }
  }

  lemma CutSecondOfPair(lead: string, pre: string, d: Element, e: Element, post: string, rest: string)
    ensures Cut(lead + (pre + Padded(d) + "," + Padded(e) + post) + rest,
                Range(|lead| + |pre| + |d.before| + |d.text|,
                      |lead| + |pre| + |Padded(d)| + 1 + |e.before| + |e.text|))
            == lead + (pre + Padded(d.(after := e.after)) + post) + rest
  {
    var x, y, z := d.before + d.text, d.after + "," + e.before + e.text, e.after;
    PairSplit(pre, d, e, post);
    Regrouped(lead, pre, x, y, z, post, rest);
    CutMiddle(lead + pre + x, y, z + post + rest, Range(|lead| + |pre| + |x|, |lead| + |pre| + |x| + |y|));
    Regrouped(lead, pre, x, [], z, post, rest);
    assert (lead + pre + x) + [] == lead + pre + x;
    assert pre + x + [] + z == pre + Padded(d.(after := z));
  }

  /** Cutting the only element. */
  lemma CutSole(a: TagArray, lead: string, rest: string)
    requires |a.elements| == 1
    ensures Cut(lead + Print(a) + rest, Span(a, |lead|, 0)) == lead + ("[" + Bare(a) + "]") + rest
  {
    var e, post := a.elements[0], Post(TrailingPart(a));
    JoinAround([], Padded(e), TrailingPart(a));
    assert Parts(a) == [] + [Padded(e)] + TrailingPart(a);
    assert Parts(a)[..0] == [];
    assert Print(a) == "[" + e.before + e.text + e.after + (post + "]") by {
      PrintOne([], Padded(e), post);
      assert "[" + [] == "[";
      assert "[" + Padded(e) == "[" + e.before + e.text + e.after;
    }
    Regrouped(lead, "[", e.before, e.text, e.after, post + "]", rest);
    CutMiddle(lead + "[" + e.before, e.text, e.after + (post + "]") + rest, Span(a, |lead|, 0));
    Regrouped(lead, "[", e.before, [], e.after, post + "]", rest);
    assert (lead + "[" + e.before) + [] == lead + "[" + e.before;
    assert "[" + e.before + [] + e.after + (post + "]") == "[" + (e.before + e.after + post) + "]";
  }

  function MatchIn(a: TagArray, at: nat, idx: nat, line: nat): (m: Match)
    requires idx < |a.elements|
    ensures ValidMatch(m)
  {
    Match(Spans(a, at), idx, line)
  }

  /** The splice range takes out one element and leaves a printed array around the others. */
  lemma CutPrinted(a: TagArray, idx: nat, lead: string, rest: string, line: nat)
    requires idx < |a.elements|
    ensures Cut(lead + Print(a) + rest, SpliceRange(MatchIn(a, |lead|, idx, line)).0)
            == lead + ("[" + CutContent(a, idx) + "]") + rest
  {
    if |a.elements| == 1 {
      CutSole(a, lead, rest);
    } else {
      if idx < |a.elements| - 1 { CutBefore(a, idx, lead, rest); } else { CutLast(a, idx, lead, rest); }
    }
  }

  lemma RemovedIsWellFormed(a: TagArray, idx: nat)
    requires WellFormed(a) && idx < |a.elements| && |a.elements| > 1
    ensures WellFormed(Removed(a, idx)) && TextsOf(Removed(a, idx)) == RemoveAt(TextsOf(a), idx)
  {
    var k := if idx < |a.elements| - 1 then idx else idx - 1;
    assert a.elements[k] in a.elements && a.elements[k + 1] in a.elements;
    var closed := Removed(a, idx).elements[k];
    assert WellFormedElement(closed);
    assert Removed(a, idx).elements == a.elements[..k] + [closed] + a.elements[k + 2..];
    PairReplaced(a.elements, closed, k);
    assert TextsOf(Removed(a, idx)) == RemoveAt(TextsOf(a), idx);
  }

  lemma PairReplaced(es: seq<Element>, closed: Element, k: nat)
    requires k + 1 < |es| && WellFormedElement(closed) && forall e <- es :: WellFormedElement(e)
    ensures forall e <- es[..k] + [closed] + es[k + 2..] :: WellFormedElement(e)
  {
    forall e <- es[..k] + [closed] + es[k + 2..] ensures WellFormedElement(e) {
      assert e in es[..k] || e == closed || e in es[k + 2..];
    }
  }

  lemma BareReads(a: TagArray)
    requires WellFormed(a) && |a.elements| == 1
    ensures Read(Bare(a)) == if a.trailing.Some? then [""] else []
  {
    var inner := a.elements[0].before + a.elements[0].after;
    assert a.elements[0] in a.elements;
    BlankIsWhole(inner);
    if a.trailing.Some? {
      BlankIsWhole(a.trailing.value);
      PostOne(a.trailing.value);
      assert Bare(a) == inner + [','] + a.trailing.value;
      PiecesHead(Code, inner, a.trailing.value);
      PiecesSole(Code, a.trailing.value);
      BlankSettles(inner, a.trailing.value);
    } else {
      PiecesSole(Code, inner);
      assert Bare(a) == inner;
    }
  }

  lemma PostOne(t: string)
    ensures Post([t]) == "," + t
  {
    assert [t][1..] == [];
  }

  lemma BlankSettles(inner: string, trailing: string)
    requires Blank(inner) && Blank(trailing)
    ensures Settle([inner] + [trailing]) == [""]
  {
    TrimPadding(inner, [], []);
    assert inner + [] + [] == inner;
    assert ([inner] + [trailing])[..1] == [inner];
  }

  /**
   * Read again, the array holds its other elements in order — except when the only element
   * carried a trailing comma: then the comma stays behind and the array holds a hole.
   */
  lemma CutReadsBack(a: TagArray, idx: nat)
    requires WellFormed(a) && idx < |a.elements|
    ensures Read(CutContent(a, idx)) == RemoveAt(TextsOf(a), idx) <==> !(|a.elements| == 1 && a.trailing.Some?)
    ensures |a.elements| == 1 && a.trailing.Some? ==> Read(CutContent(a, idx)) == [""]
  {
    if |a.elements| == 1 {
      BareReads(a);
      assert RemoveAt(TextsOf(a), idx) == [];
    } else {
      RemovedIsWellFormed(a, idx);
      PrintedReadsBack(Removed(a, idx));
    }
  }

  /* ---- a whole file ---- */

  /** A tag array, the element to drop if any, and the text up to the next array. */
  datatype Block = Block(tags: TagArray, drop: Option<nat>, after: string)

  ghost predicate WellFormedBlocks(blocks: seq<Block>)
  {
    forall b <- blocks :: WellFormed(b.tags) && (b.drop.Some? ==> b.drop.value < |b.tags.elements|)
  }

  function FileText(blocks: seq<Block>): string
  {
    if blocks == [] then [] else Print(blocks[0].tags) + blocks[0].after + FileText(blocks[1..])
  }

  function CutBlock(b: Block): string
    requires b.drop.Some? ==> b.drop.value < |b.tags.elements|
  {
    if b.drop.Some? then "[" + CutContent(b.tags, b.drop.value) + "]" else Print(b.tags)
  }

  function CutFile(blocks: seq<Block>): string
    requires WellFormedBlocks(blocks)
  {
    if blocks == [] then [] else CutBlock(blocks[0]) + blocks[0].after + CutFile(blocks[1..])
  }

  /** The splice range of each dropped element, latest first, for a file whose blocks start at `at`. */
  function FileRanges(blocks: seq<Block>, at: nat): seq<Range>
    requires WellFormedBlocks(blocks)
  {
    if blocks == [] then []
    else
      var b := blocks[0];
      var later := FileRanges(blocks[1..], After(b, at));
      if b.drop.Some? then later + [BlockRange(b, at)] else later
  }

  lemma {:induction false} PreLength(parts: seq<string>, k: nat)
    requires k < |parts|
    ensures |Pre(parts[..k])| + |parts[k]| <= |Join(parts, ",")|
    ensures k + 1 < |parts| ==> |Pre(parts[..k + 1])| == |Pre(parts[..k])| + |parts[k]| + 1
  {
    assert parts == parts[..k] + [parts[k]] + parts[k + 1..];
    JoinAround(parts[..k], parts[k], parts[k + 1..]);
    assert parts[..k + 1] == parts[..k] + [parts[k]];
    PreSnoc(parts[..k], parts[k]);
  }

  /** A cut stays within its own array: a bracket follows it. */
  lemma RangeWithin(a: TagArray, idx: nat, at: nat)
    requires WellFormed(a) && idx < |a.elements|
    ensures var r := SpliceRange(MatchIn(a, at, idx, 0)).0; at <= r.start < r.end < at + |Print(a)|
  {
    var es := a.elements;
    assert es[idx] in es;
    SpanWithin(a, idx, at);
    if idx + 1 < |es| {
      SpanWithin(a, idx + 1, at);
      SpansAscend(a, idx, at);
    } else if idx > 0 {
      SpanWithin(a, idx - 1, at);
      SpansAscend(a, idx - 1, at);
    }
  }

  lemma SpanWithin(a: TagArray, k: nat, at: nat)
    requires k < |a.elements|
    ensures at <= Span(a, at, k).start && Span(a, at, k).end < at + |Print(a)|
  {
    assert Parts(a)[k] == Padded(a.elements[k]);
    PreLength(Parts(a), k);
  }

  lemma SpansAscend(a: TagArray, k: nat, at: nat)
    requires k + 1 < |a.elements|
    ensures Span(a, at, k).end < Span(a, at, k + 1).start
  {
    SpanPair(a, k, at);
  }

  lemma FileLength(blocks: seq<Block>)
    requires blocks != []
    ensures |FileText(blocks)| == |Print(blocks[0].tags)| + |blocks[0].after| + |FileText(blocks[1..])|
  {
  }

  ghost predicate Within(ranges: seq<Range>, from: nat, to: nat)
  {
    forall r <- ranges :: from <= r.start < r.end <= to
  }

  lemma DescendSnoc(later: seq<Range>, r: Range, from: nat, mid: nat, to: nat)
    requires Descending(later) && Within(later, mid, to) && from <= r.start < r.end <= mid <= to
    ensures Descending(later + [r]) && Within(later + [r], from, to)
  {
  }

  /** Where the text after a block starts. */
  function After(b: Block, at: nat): nat
  {
    at + |Print(b.tags)| + |b.after|
  }

  lemma FileRangesNext(blocks: seq<Block>, at: nat)
    requires WellFormedBlocks(blocks) && blocks != []
    ensures WellFormedBlocks(blocks[1..]) && WellFormed(blocks[0].tags)
    ensures var b := blocks[0];
            if b.drop.None? then FileRanges(blocks, at) == FileRanges(blocks[1..], After(b, at))
            else b.drop.value < |b.tags.elements|
                 && FileRanges(blocks, at) == FileRanges(blocks[1..], After(b, at)) + [BlockRange(b, at)]
  {
    assert blocks[0] in blocks;
  }

  lemma {:induction false} FileRangesDescend(blocks: seq<Block>, at: nat, end: nat)
    requires WellFormedBlocks(blocks) && end == at + |FileText(blocks)|
    ensures Descending(FileRanges(blocks, at)) && Within(FileRanges(blocks, at), at, end)
  {
    if blocks != [] {
      var b, mid := blocks[0], After(blocks[0], at);
      FileRangesNext(blocks, at);
      FileLength(blocks);
      FileRangesDescend(blocks[1..], mid, end);
      if b.drop.Some? {
        RangeWithin(b.tags, b.drop.value, at);
        DescendSnoc(FileRanges(blocks[1..], mid), BlockRange(b, at), at, mid, end);
      }
    }
  }

  lemma TextRegrouped(lead: string, b: Block, rest: string)
    ensures lead + (Print(b.tags) + b.after + rest) == lead + Print(b.tags) + b.after + rest
  {
    AppendAssoc(lead + Print(b.tags), b.after, rest);
    AppendAssoc(lead, Print(b.tags), b.after + rest);
    AppendAssoc(Print(b.tags), b.after, rest);
  }

  lemma CutRegrouped(lead: string, b: Block, below: string)
    requires b.drop.Some? ==> b.drop.value < |b.tags.elements|
    ensures lead + CutBlock(b) + (b.after + below) == lead + (CutBlock(b) + b.after + below)
  {
    AppendAssoc(lead, CutBlock(b), b.after + below);
    AppendAssoc(CutBlock(b), b.after, below);
  }

  lemma LastCut(text: string, later: seq<Range>, r: Range)
    ensures CutAll(text, later + [r]) == Cut(CutAll(text, later), r)
  {
    assert (later + [r])[..|later|] == later;
  }

  lemma CutFileNext(blocks: seq<Block>)
    requires WellFormedBlocks(blocks) && blocks != []
    ensures WellFormedBlocks(blocks[1..]) && (blocks[0].drop.Some? ==> blocks[0].drop.value < |blocks[0].tags.elements|)
    ensures CutFile(blocks) == CutBlock(blocks[0]) + blocks[0].after + CutFile(blocks[1..])
  {
    assert blocks[0] in blocks;
  }

  /** The last cut of a file, once everything behind it is cut. */
  lemma CutFront(lead: string, b: Block, top: string, below: string, text: string, later: seq<Range>, all: seq<Range>)
    requires b.drop.Some? ==> b.drop.value < |b.tags.elements|
    requires top == lead + Print(b.tags) + b.after && CutAll(text, later) == top + below
    requires all == if b.drop.Some? then later + [BlockRange(b, |lead|)] else later
    ensures CutAll(text, all) == lead + (CutBlock(b) + b.after + below)
  {
    BlockCut(lead, b, top, below);
    CutRegrouped(lead, b, below);
    if b.drop.Some? {
      LastCut(text, later, BlockRange(b, |lead|));
    }
  }

  lemma TopOf(lead: string, blocks: seq<Block>, top: string)
    requires blocks != [] && top == lead + Print(blocks[0].tags) + blocks[0].after
    ensures lead + FileText(blocks) == top + FileText(blocks[1..]) && |top| == After(blocks[0], |lead|)
  {
    TextRegrouped(lead, blocks[0], FileText(blocks[1..]));
  }

  lemma {:induction false} FileCuts(lead: string, blocks: seq<Block>, text: string)
    requires WellFormedBlocks(blocks) && text == lead + FileText(blocks)
    ensures CutAll(text, FileRanges(blocks, |lead|)) == lead + CutFile(blocks)
    decreases |blocks|
  {
    if blocks == [] {
      assert FileRanges(blocks, |lead|) == [];
    } else {
      var b, rest := blocks[0], blocks[1..];
      var top := lead + Print(b.tags) + b.after;
      CutFileNext(blocks);
      FileRangesNext(blocks, |lead|);
      TopOf(lead, blocks, top);
      FileCuts(top, rest, text);
      CutFront(lead, b, top, CutFile(rest), text, FileRanges(rest, |top|), FileRanges(blocks, |lead|));
    }
  }

  function BlockRange(b: Block, at: nat): Range
    requires b.drop.Some? && b.drop.value < |b.tags.elements|
  {
    SpliceRange(MatchIn(b.tags, at, b.drop.value, 0)).0
  }

  lemma BlockCut(lead: string, b: Block, top: string, below: string)
    requires b.drop.Some? ==> b.drop.value < |b.tags.elements|
    requires top == lead + Print(b.tags) + b.after
    ensures (if b.drop.Some? then Cut(top + below, BlockRange(b, |lead|)) else top + below)
            == lead + CutBlock(b) + (b.after + below)
  {
    AppendAssoc(lead + Print(b.tags), b.after, below);
    if b.drop.Some? {
      CutPrinted(b.tags, b.drop.value, lead, b.after + below, 0);
    }
  }

  /** Deleting the listed ranges at once leaves every block cut. */
  lemma FileDeletion(lead: string, blocks: seq<Block>, text: string)
    requires WellFormedBlocks(blocks) && text == lead + FileText(blocks)
    ensures DeleteAll(text, FileRanges(blocks, |lead|)) == lead + CutFile(blocks)
    ensures AllApart(FileRanges(blocks, |lead|)) && Proper(FileRanges(blocks, |lead|), |text|)
  {
    FileRangesDescend(blocks, |lead|, |text|);
    FileCuts(lead, blocks, text);
    CutsAreDeletions(text, FileRanges(blocks, |lead|));
  }

  /**
   * The whole splice of a file: however the ranges were collected, every chosen element goes
   * and the rest of the file — every other element, array and character — stays.
   */
  lemma SpliceKeepsTheRest(lead: string, blocks: seq<Block>, ranges: seq<Range>)
    requires WellFormedBlocks(blocks) && multiset(ranges) == multiset(FileRanges(blocks, |lead|))
    ensures CutAll(lead + FileText(blocks), BackToFront(ranges)) == lead + CutFile(blocks)
  {
    var text, listed := lead + FileText(blocks), FileRanges(blocks, |lead|);
    FileDeletion(lead, blocks, text);
    ApartPermutes(listed, ranges, |text|);
    BackToFrontDeletesAll(text, ranges);
    forall r ensures r in ranges <==> r in listed {
      assert r in ranges <==> r in multiset(ranges);
    }
    SameDeletion(text, ranges, listed);
  }
}
