/**
 * The `git cat-file --batch` stream: the reader that frames it by byte counts, and the
 * writer it has to invert. One `char` stands for one byte.
 */
module BatchFrames {
  import opened Texts
  import opened Sequences

  type Buffer = seq<char>

  /* ---- the reader ---- */

  /** Where the next newline byte stands, at or after a position. */
  function IndexOfNewline(raw: Buffer, from: nat): Option<nat>
    requires from <= |raw|
    decreases |raw| - from
  {
    if from == |raw| then None else if raw[from] == '\n' then Some(from) else IndexOfNewline(raw, from + 1)
  }

  lemma {:induction false} NewlineFound(raw: Buffer, from: nat, at: nat)
    requires from <= at < |raw| && raw[at] == '\n' && forall i | from <= i < at :: raw[i] != '\n'
    ensures IndexOfNewline(raw, from) == Some(at)
    decreases at - from
  {
    if from < at {
      NewlineFound(raw, from + 1, at);
    }
  }

  lemma {:induction false} NewlineInRange(raw: Buffer, from: nat)
    requires from <= |raw|
    ensures var nl := IndexOfNewline(raw, from); nl.Some? ==> from <= nl.value < |raw| && raw[nl.value] == '\n'
    decreases |raw| - from
  {
    if from < |raw| && raw[from] != '\n' {
      NewlineInRange(raw, from + 1);
    }
  }

  /** The bytes between two positions, as many of them as the buffer has. */
  function Subarray(raw: Buffer, from: nat, to: nat): Buffer
  {
    if from >= |raw| || to <= from then [] else if to >= |raw| then raw[from..] else raw[from..to]
  }

  /** The size field; anything but decimal digits ends the read. */
  function SizeOf(field: string): Option<nat>
  {
    if field != [] && AllDigits(field) then Some(DigitsValue(field)) else None
  }

  /** What the reader adds to `out` from `offset` on. */
  function ReadFrom(raw: Buffer, offset: nat, out: map<Buffer, Buffer>): map<Buffer, Buffer>
    decreases |raw| - offset
  {
    if offset >= |raw| then out
    else
      var nl := IndexOfNewline(raw, offset);
      if nl.None? then out
      else
        NewlineInRange(raw, offset);
        var parts := Split(raw[offset..nl.value], ' ');
        if |parts| < 3 then ReadFrom(raw, nl.value + 1, out)
        else
          var size := SizeOf(parts[2]);
          if size.None? then out
          else
            var body := nl.value + 1;
            ReadFrom(raw, body + size.value + 1, out[parts[0] := Subarray(raw, body, body + size.value)])
  }

  /** Remaining bytes strictly shrink on every turn, so the loop ends on any input. */
  method ReadBlobs(raw: Buffer) returns (out: map<Buffer, Buffer>)
    ensures out == ReadFrom(raw, 0, map[])
  {
    out := map[];
    var offset := 0;
    while offset < |raw|
      invariant ReadFrom(raw, offset, out) == ReadFrom(raw, 0, map[])
      decreases |raw| - offset
    {
      var nl := IndexOfNewline(raw, offset);
      if nl.None? { break; }
      NewlineInRange(raw, offset);
      var parts := Split(raw[offset..nl.value], ' ');
      offset := nl.value + 1;
      if |parts| < 3 { continue; }
      var size := SizeOf(parts[2]);
      if size.None? { break; }
      out := out[parts[0] := Subarray(raw, offset, offset + size.value)];
      offset := offset + size.value + 1;
    }
  }

  /* ---- the writer ---- */

  /** One answer of the batch protocol. */
  datatype Answer = Found(sha: Buffer, kind: Buffer, payload: Buffer) | Missing(sha: Buffer)

  predicate Wordlike(s: Buffer)
  {
    ' ' !in s && '\n' !in s
  }

  predicate WellFormed(a: Answer)
  {
    Wordlike(a.sha) && (a.Found? ==> Wordlike(a.kind))
  }

  function Header(a: Answer): Buffer
  {
    match a
    case Found(sha, kind, payload) => Join([sha, kind, Decimal(|payload|)], " ")
    case Missing(sha) => Join([sha, "missing"], " ")
  }

  /** What follows the header line. */
  function Tail(a: Answer): Buffer
  {
    if a.Found? then a.payload + "\n" else ""
  }

  function Write(a: Answer): Buffer
  {
    Header(a) + "\n" + Tail(a)
  }

  function WriteAll(answers: seq<Answer>): Buffer
  {
    if answers == [] then [] else Write(answers[0]) + WriteAll(answers[1..])
  }

  /** What one answer leaves in the map. */
  function Kept(a: Answer, out: map<Buffer, Buffer>): map<Buffer, Buffer>
  {
    if a.Found? then out[a.sha := a.payload] else out
  }

  /** The found objects; a later answer for the same name wins. */
  function FoundObjects(answers: seq<Answer>, out: map<Buffer, Buffer>): map<Buffer, Buffer>
  {
    if answers == [] then out
    else FoundObjects(answers[1..], Kept(answers[0], out))
  }

  lemma HeaderReadsBack(a: Answer)
    requires WellFormed(a)
    ensures '\n' !in Header(a)
    ensures Split(Header(a), ' ') == if a.Found? then [a.sha, a.kind, Decimal(|a.payload|)] else [a.sha, "missing"]
  {
    var fields := if a.Found? then [a.sha, a.kind, Decimal(|a.payload|)] else [a.sha, "missing"];
    if a.Found? {
      DecimalRoundTrip(|a.payload|);
      assert fields[1..] == [a.kind, Decimal(|a.payload|)] && fields[1..][1..] == [Decimal(|a.payload|)];
    } else {
      assert fields[1..] == ["missing"];
    }
    JoinAvoids(fields, " ", '\n');
    SplitJoin(fields, ' ');
  }

  lemma SliceMiddle(a: Buffer, b: Buffer, c: Buffer, raw: Buffer)
    requires raw == a + b + c
    ensures raw[|a|..|a| + |b|] == b && raw[|a| + |b|..] == c
  {
  }

  /** The header of a written answer, found in the buffer. */
  lemma HeaderFound(before: Buffer, header: Buffer, rest: Buffer, raw: Buffer)
    requires '\n' !in header && raw == before + header + (['\n'] + rest)
    ensures IndexOfNewline(raw, |before|) == Some(|before| + |header|)
    ensures raw[|before|..|before| + |header|] == header && raw[|before| + |header| + 1..] == rest
  {
    SliceMiddle(before, header, ['\n'] + rest, raw);
    forall i | |before| <= i < |before| + |header| ensures raw[i] != '\n' {
      assert raw[i] == header[i - |before|] && header[i - |before|] in header;
    }
    NewlineFound(raw, |before|, |before| + |header|);
    SliceMiddle(before + header, ['\n'], rest, raw);
  }

  /** One turn over a found object. */
  lemma ReadsFound(raw: Buffer, offset: nat, nl: nat, next: nat, a: Answer, out: map<Buffer, Buffer>)
    requires a.Found? && offset <= nl < |raw| && IndexOfNewline(raw, offset) == Some(nl)
    requires Split(raw[offset..nl], ' ') == [a.sha, a.kind, Decimal(|a.payload|)]
    requires nl + 1 + |a.payload| < |raw| && raw[nl + 1..nl + 1 + |a.payload|] == a.payload
    requires next == nl + 1 + |a.payload| + 1
    ensures ReadFrom(raw, offset, out) == ReadFrom(raw, next, Kept(a, out))
  {
    DecimalRoundTrip(|a.payload|);
    assert Subarray(raw, nl + 1, nl + 1 + |a.payload|) == a.payload;
  }

  lemma ReadsMissing(raw: Buffer, offset: nat, nl: nat, out: map<Buffer, Buffer>)
    requires offset <= nl < |raw| && IndexOfNewline(raw, offset) == Some(nl) && |Split(raw[offset..nl], ' ')| < 3
    ensures ReadFrom(raw, offset, out) == ReadFrom(raw, nl + 1, out)
  {
  }

  lemma PayloadAt(raw: Buffer, body: nat, payload: Buffer, more: Buffer)
    requires body <= |raw| && raw[body..] == payload + more && more != []
    ensures body + |payload| < |raw| && raw[body..body + |payload|] == payload
  {
    assert |raw[body..]| == |payload| + |more|;
    assert raw[body..body + |payload|] == raw[body..][..|payload|];
  }

  /** The payload and the end of a found object, after its header. */
  lemma PayloadLocated(raw: Buffer, nl: nat, a: Answer, after: Buffer)
    requires a.Found? && nl < |raw| && raw[nl + 1..] == Tail(a) + after
    ensures nl + 1 + |a.payload| < |raw| && raw[nl + 1..nl + 1 + |a.payload|] == a.payload
    ensures |Tail(a)| == |a.payload| + 1
  {
    AppendAssoc(a.payload, "\n", after);
    PayloadAt(raw, nl + 1, a.payload, "\n" + after);
  }

  /** One turn of the reader, over an answer already located in the buffer. */
  lemma ReadsLocated(raw: Buffer, offset: nat, nl: nat, next: nat, a: Answer, after: Buffer, out: map<Buffer, Buffer>)
    requires WellFormed(a) && offset <= nl < |raw| && IndexOfNewline(raw, offset) == Some(nl)
    requires raw[offset..nl] == Header(a) && raw[nl + 1..] == Tail(a) + after && next == nl + 1 + |Tail(a)|
    ensures ReadFrom(raw, offset, out) == ReadFrom(raw, next, Kept(a, out))
  {
    HeaderReadsBack(a);
    if a.Found? {
      PayloadLocated(raw, nl, a, after);
      ReadsFound(raw, offset, nl, next, a, out);
    } else {
      ReadsMissing(raw, offset, nl, out);
    }
  }

  /** Where an answer stands in the buffer it was written to. */
  lemma AnswerLocated(before: Buffer, a: Answer, after: Buffer, raw: Buffer)
    requires WellFormed(a) && raw == before + Write(a) + after
    ensures var nl := |before| + |Header(a)|;
            && nl < |raw| && IndexOfNewline(raw, |before|) == Some(nl)
            && raw[|before|..nl] == Header(a) && raw[nl + 1..] == Tail(a) + after
            && |before + Write(a)| == nl + 1 + |Tail(a)|
  {
    assert '\n' !in Header(a) by { HeaderReadsBack(a); }
    AppendAssoc(before + Header(a), "\n", Tail(a) + after);
    AppendAssoc(before, Header(a) + "\n", Tail(a));
    AppendAssoc(before + (Header(a) + "\n"), Tail(a), after);
    AppendAssoc(before, Header(a), "\n");
    HeaderFound(before, Header(a), Tail(a) + after, raw);
  }

  /** One turn of the reader over one written answer, up to where the next one starts. */
  lemma ReadsOneAnswer(before: Buffer, a: Answer, after: Buffer, raw: Buffer, next: nat, out: map<Buffer, Buffer>)
    requires WellFormed(a) && raw == before + Write(a) + after && next == |before + Write(a)|
    ensures ReadFrom(raw, |before|, out) == ReadFrom(raw, next, Kept(a, out))
  {
    AnswerLocated(before, a, after, raw);
    ReadsLocated(raw, |before|, |before| + |Header(a)|, next, a, after, out);
  }

  /** Reading from the start of a written stream, wherever it sits in the buffer. */
  lemma {:induction false} ReadsWhatWasWritten(before: Buffer, answers: seq<Answer>, out: map<Buffer, Buffer>)
    requires forall a <- answers :: WellFormed(a)
    ensures ReadFrom(before + WriteAll(answers), |before|, out) == FoundObjects(answers, out)
    decreases |answers|
  {
    if answers != [] {
      var a, rest := answers[0], answers[1..];
      AppendAssoc(before, Write(a), WriteAll(rest));
      ReadsOneAnswer(before, a, WriteAll(rest), before + WriteAll(answers), |before + Write(a)|, out);
      ReadsWhatWasWritten(before + Write(a), rest, Kept(a, out));
    }
  }

  /**
   * The reader inverts the writer on every batch: arbitrary payload bytes, newlines and
   * header look-alikes included, and missing objects simply left out.
   */
  lemma ReaderInvertsWriter(answers: seq<Answer>)
    requires forall a <- answers :: WellFormed(a)
    ensures ReadFrom(WriteAll(answers), 0, map[]) == FoundObjects(answers, map[])
  {
    ReadsWhatWasWritten([], answers, map[]);
    assert [] + WriteAll(answers) == WriteAll(answers);
  }

  /** Names not asked for are left as they were. */
  lemma {:induction false} OthersUntouched(answers: seq<Answer>, out: map<Buffer, Buffer>, s: Buffer)
    requires forall a <- answers :: a.sha != s
    ensures s in FoundObjects(answers, out) <==> s in out
    ensures s in out ==> FoundObjects(answers, out)[s] == out[s]
  {
    if answers != [] {
      OthersUntouched(answers[1..], Kept(answers[0], out), s);
    }
  }

  /** The answer at `k` decides its own name. */
  lemma {:induction false} AnswerKeepsPayload(answers: seq<Answer>, out: map<Buffer, Buffer>, k: nat)
    requires k < |answers| && answers[k].sha !in out
    requires forall i, j | 0 <= i < j < |answers| :: answers[i].sha != answers[j].sha
    ensures var a, r := answers[k], FoundObjects(answers, out);
            if a.Found? then a.sha in r && r[a.sha] == a.payload else a.sha !in r
  {
    if k == 0 {
      OthersUntouched(answers[1..], Kept(answers[0], out), answers[0].sha);
    } else {
      AnswerKeepsPayload(answers[1..], Kept(answers[0], out), k - 1);
    }
  }

  /** With each object asked for once, an object is in the result iff it was found, with its own payload. */
  lemma EachObjectItsOwnPayload(answers: seq<Answer>, out: map<Buffer, Buffer>)
    requires forall i, j | 0 <= i < j < |answers| :: answers[i].sha != answers[j].sha
    requires forall a <- answers :: a.sha !in out
    ensures forall a <- answers :: a.Found? ==> a.sha in FoundObjects(answers, out)
                                                && FoundObjects(answers, out)[a.sha] == a.payload
    ensures forall a <- answers :: a.Missing? ==> a.sha !in FoundObjects(answers, out)
    ensures forall s :: (forall a <- answers :: a.sha != s) ==>
              (s in FoundObjects(answers, out) <==> s in out) && (s in out ==> FoundObjects(answers, out)[s] == out[s])
  {
    forall k | 0 <= k < |answers|
      ensures var a, r := answers[k], FoundObjects(answers, out);
              if a.Found? then a.sha in r && r[a.sha] == a.payload else a.sha !in r
    {
      AnswerKeepsPayload(answers, out, k);
    }
    forall s | forall a <- answers :: a.sha != s
      ensures (s in FoundObjects(answers, out) <==> s in out) && (s in out ==> FoundObjects(answers, out)[s] == out[s])
    {
      OthersUntouched(answers, out, s);
    }
  }
}
