/** What the parser reports of a rendered multipart body. */
module MultipartBody {
  import opened CTypes
  import opened Multipart

  datatype Header = Header(name: seq<byte>, value: seq<byte>)
  datatype Part = Part(headers: seq<Header>, content: seq<byte>)

  const CRLF: seq<byte> := ['\r' as int, '\n' as int]
  const DASHES: seq<byte> := ['-' as int, '-' as int]

  /** What announces a boundary inside the content: CR LF and two hyphens. */
  const DELIMITER: seq<byte> := ['\r' as int, '\n' as int, '-' as int, '-' as int]

  function RenderHeaders(hs: seq<Header>): seq<byte> {
    if hs == [] then CRLF
    else hs[0].name + [':' as int, ' ' as int] + hs[0].value + CRLF + RenderHeaders(hs[1..])
  }

  function RenderPart(b: cstring, part: Part): seq<byte> {
    RenderHeaders(part.headers) + (part.content + DELIMITER) + b
  }

  function RenderParts(b: cstring, parts: seq<Part>): seq<byte>
    requires parts != []
  {
    if |parts| == 1 then RenderPart(b, parts[0]) + DASHES
    else RenderPart(b, parts[0]) + CRLF + RenderParts(b, parts[1..])
  }

  /** A whole body: preamble, first delimiter line, parts, and an epilogue to be ignored. */
  function Render(b: cstring, preamble: seq<byte>, parts: seq<Part>, epilogue: seq<byte>): seq<byte>
    requires parts != []
  {
    (preamble + DASHES) + (b + CRLF) + RenderParts(b, parts) + epilogue
  }

  predicate OccursAt(s: seq<byte>, pattern: seq<byte>, i: nat) {
    i + |pattern| <= |s| && s[i..i + |pattern|] == pattern
  }

  predicate Contains(s: seq<byte>, pattern: seq<byte>) {
    exists i :: 0 <= i <= |s| && OccursAt(s, pattern, i)
  }

  /** The separators of RFC 2616 section 2.2, other than blanks. */
  const SEPARATORS := "()<>@,;:\\\"/[]?={}"

  /** A character of a token: printable, no blank and no separator. */
  predicate TokenCharacter(c: byte) {
    33 <= c <= 126 && c as char !in SEPARATORS
  }

  /** The table of header field characters holds exactly these. */
  lemma TokenTable(c: byte)
    ensures IsToken(c) <==> TokenCharacter(c)
  {}

  predicate ValidHeader(h: Header) {
    && h.name != [] && (forall c <- h.name :: TokenCharacter(c))
    && '\r' as int !in h.value && (h.value != [] ==> h.value[0] != ' ' as int && h.value[0] != '\t' as int)
  }

  predicate ValidPart(p: Part) {
    (forall h <- p.headers :: ValidHeader(h)) && !Contains(p.content, DELIMITER)
  }

  /** RFC 2046 boundaries are ASCII and at most 70 characters long. */
  predicate ValidBoundary(b: cstring) {
    |b| <= 70 && forall i :: 0 <= i < |b| ==> b[i] < 128
  }

  // ---- The callbacks a body is to produce ----

  function Delivery(kind: Kind, data: seq<byte>): seq<Event> {
    if data == [] then [] else [Deliver(kind, data)]
  }

  function HeaderEvents(hs: seq<Header>): seq<Event> {
    if hs == [] then []
    else Delivery(Field, hs[0].name) + Delivery(Value, hs[0].value) + HeaderEvents(hs[1..])
  }

  function PartEvents(p: Part): seq<Event> {
    [Notify(PartBegin)] + HeaderEvents(p.headers) + [Notify(HeadersComplete)] +
    Delivery(Content, p.content) + [Notify(PartEnd)]
  }

  function PartsEvents(parts: seq<Part>): seq<Event> {
    if parts == [] then [] else PartEvents(parts[0]) + PartsEvents(parts[1..])
  }

  function Events(parts: seq<Part>): seq<Event> {
    [Notify(BodyBegin)] + PartsEvents(parts) + [Notify(BodyEnd)]
  }

  // ---- Running over a text that is accepted entirely ----

  predicate Feeds(b: cstring, m: Machine, text: seq<byte>, m': Machine) {
    Run(b, m, text, 0) == Outcome(m', true, |text|)
  }

  function EmitAll(m: Machine, es: seq<Event>): Machine {
    m.(trace := PushAll(m.trace, es))
  }

  lemma {:induction false} PushAllAppend(t: seq<Event>, x: seq<Event>, y: seq<Event>)
    ensures PushAll(t, x + y) == PushAll(PushAll(t, x), y)
  {
    hide Push;
    if y == [] {
      assert x + y == x;
    } else {
      var y', e := y[..|y| - 1], y[|y| - 1];
      assert x + y == (x + y') + [e] && y == y' + [e];
      PushAllAppend(t, x, y');
      PushAllSnoc(t, x + y', e);
      PushAllSnoc(PushAll(t, x), y', e);
    }
  }

  lemma EmitAllNil(m: Machine)
    ensures EmitAll(m, []) == m
  {}

  lemma EmitAllOne(m: Machine, e: Event)
    ensures EmitAll(m, [e]) == m.Emit(e)
  {
    hide Push;
    PushAllSnoc(m.trace, [], e);
    assert [] + [e] == [e];
  }

  lemma FeedsAppend(b: cstring, m: Machine, x: seq<byte>, m1: Machine, y: seq<byte>, m2: Machine)
    requires Feeds(b, m, x, m1) && Feeds(b, m1, y, m2)
    ensures Feeds(b, m, x + y, m2)
  {
    hide Step;
    RunAppend(b, m, x, y, 0);
    RunSuffix(b, m1, x, y, 0);
  }

  lemma FeedsOne(b: cstring, m: Machine, c: byte)
    requires Step(b, m, c).1
    ensures Feeds(b, m, [c], Step(b, m, c).0)
  {
    hide Step;
    RunStep(b, m, [c], 0);
  }

  lemma FeedsStep(b: cstring, m: Machine, c: byte, rest: seq<byte>, m': Machine)
    requires Step(b, m, c).1 && Feeds(b, Step(b, m, c).0, rest, m')
    ensures Feeds(b, m, [c] + rest, m')
  {
    hide Step;
    FeedsOne(b, m, c);
    FeedsAppend(b, m, [c], Step(b, m, c).0, rest, m');
  }

  /** A text of scanned bytes is delivered whole. */
  lemma FeedsScan(b: cstring, m: Machine, kind: Kind, text: seq<byte>)
    requires m.state == ScanState(kind) && forall c <- text :: Passes(kind, c)
    ensures Feeds(b, m, text, EmitAll(m, Delivery(kind, text)))
  {
    hide Step, Push;
    if text != [] {
      ScanRefinesSteps(b, m, kind, text, 0, |text|);
      assert text[0..|text|] == text;
      EmitAllOne(m, Deliver(kind, text));
    }
  }

  // ---- The content of a part ----

  /** The state that holds back the first k bytes of the delimiter. */
  function HeldState(k: nat): State
    requires k < 4
  {
    if k == 0 then Body else if k == 1 then BodyCr else if k == 2 then BodyCrLf else BodyCrLfHy
  }

  function EmitContent(m: Machine, data: seq<byte>): Machine {
    if data == [] then m else m.Emit(Deliver(Content, data))
  }

  lemma EmitContentAppend(m: Machine, x: seq<byte>, y: seq<byte>)
    ensures EmitContent(EmitContent(m, x), y) == EmitContent(m, x + y)
  {
    PushTwice(m.trace, Content, x, y);
    assert x == [] ==> x + y == y;
    assert y == [] ==> x + y == x;
  }

  /** One byte of content: some of what was held goes out, and the rest is held. */
  lemma HeldStep(b: cstring, m: Machine, k: nat, c: byte) returns (out: seq<byte>, k': nat)
    requires k < 4 && m.state == HeldState(k) && !(k == 3 && c == HYPHEN)
    ensures k' < 4 && out + DELIMITER[..k'] == DELIMITER[..k] + [c]
    ensures Step(b, m, c) == (EmitContent(m, out).Goto(HeldState(k')), true)
    ensures c == CR ==> out == DELIMITER[..k] && k' == 1
  {
    hide Push;
    var held := DELIMITER[..k];
    assert (k == 1 ==> held == [CR]) && (k == 2 ==> held == [CR, LF]) && (k == 3 ==> held == [CR, LF, HYPHEN]);
    if c == DELIMITER[k] {
      out, k' := [], k + 1;
    } else if c == CR {
      out, k' := held, 1;
    } else {
      out, k' := held + [c], 0;
      EmitContentAppend(m, held, [c]);
    }
  }

  lemma ContainsSuffix(x: seq<byte>, y: seq<byte>, pattern: seq<byte>)
    requires Contains(y, pattern)
    ensures Contains(x + y, pattern)
  {
    var i :| 0 <= i <= |y| && OccursAt(y, pattern, i);
    assert (x + y)[|x| + i..|x| + i + |pattern|] == y[i..i + |pattern|];
    assert OccursAt(x + y, pattern, |x| + i);
  }

  lemma ContainsPrefix(s: seq<byte>, pattern: seq<byte>)
    requires pattern <= s
    ensures Contains(s, pattern)
  {
    assert OccursAt(s, pattern, 0);
  }

  /** Content with k delimiter bytes held back before it, up to and including a delimiter. */
  lemma {:induction false} HeldContent(b: cstring, m: Machine, k: nat, text: seq<byte>)
    requires k < 4 && m.state == HeldState(k)
    requires !Contains(DELIMITER[..k] + text, DELIMITER)
    ensures Feeds(b, m, text + DELIMITER, EmitContent(m, DELIMITER[..k] + text).Goto(BoundaryStart))
    decreases |text|
  {
    hide Run, Step, Push;
    var held := DELIMITER[..k];
    if text == [] {
      assert text + DELIMITER == [CR] + [LF, HYPHEN, HYPHEN] && held + text == held;
      var out, k' := HeldStep(b, m, k, CR);
      HeldDelimiter(b, Step(b, m, CR).0);
      assert Step(b, m, CR).0.Goto(BoundaryStart) == EmitContent(m, held).Goto(BoundaryStart);
      FeedsStep(b, m, CR, [LF, HYPHEN, HYPHEN], Step(b, m, CR).0.Goto(BoundaryStart));
    } else {
      var c, rest := text[0], text[1..];
      assert held + text == (held + [c]) + rest;
      if k == 3 && c == HYPHEN {
        ContainsPrefix(held + text, DELIMITER);
      }
      var out, k' := HeldStep(b, m, k, c);
      var m' := Step(b, m, c).0;
      assert held + text == out + (DELIMITER[..k'] + rest);
      if Contains(DELIMITER[..k'] + rest, DELIMITER) {
        ContainsSuffix(out, DELIMITER[..k'] + rest, DELIMITER);
      }
      HeldContent(b, m', k', rest);
      EmitContentAppend(m, out, DELIMITER[..k'] + rest);
      var end := EmitContent(m, held + text).Goto(BoundaryStart);
      assert end == EmitContent(m', DELIMITER[..k'] + rest).Goto(BoundaryStart);
      FeedsStep(b, m, c, rest + DELIMITER, end);
      assert text + DELIMITER == [c] + (rest + DELIMITER);
    }
  }

  lemma HeldDelimiter(b: cstring, m: Machine)
    requires m.state == BodyCr
    ensures Feeds(b, m, [LF, HYPHEN, HYPHEN], m.Goto(BoundaryStart))
  {
    hide Run;
    FeedsOne(b, m.Goto(BodyCrLfHy), HYPHEN);
    FeedsStep(b, m.Goto(BodyCrLf), HYPHEN, [HYPHEN], m.Goto(BoundaryStart));
    assert [HYPHEN] + [HYPHEN] == [HYPHEN, HYPHEN];
    FeedsStep(b, m, LF, [HYPHEN, HYPHEN], m.Goto(BoundaryStart));
    assert [LF] + [HYPHEN, HYPHEN] == [LF, HYPHEN, HYPHEN];
  }

  // ---- Content that contains a delimiter is never reported whole ----

  /** The content bytes delivered so far. */
  function Delivered(trace: seq<Event>): nat {
    if trace == [] then 0
    else
      var e := trace[|trace| - 1];
      Delivered(trace[..|trace| - 1]) + if e.Deliver? && e.kind == Content then |e.data| else 0
  }

  /** The bytes of an unfinished delimiter that may still be delivered as content. */
  function Pending(m: Machine): nat {
    match m.state
    case BodyCr => 1
    case BodyCrLf => 2
    case BodyCrLfHy => 3
    case Boundary => m.index
    case _ => 0
  }

  lemma DeliveredPush(t: seq<Event>, e: Event)
    ensures Delivered(Push(t, e)) == Delivered(t) + if e.Deliver? && e.kind == Content then |e.data| else 0
  {
    if t != [] && t[|t| - 1].Deliver? && e.Deliver? && t[|t| - 1].kind == e.kind {
      assert Push(t, e)[..|t| - 1] == t[..|t| - 1];
    } else {
      assert (t + [e])[..|t|] == t;
    }
  }

  lemma DeliveredStepBody(m: Machine, c: byte)
    ensures var m' := StepBody(m, c);
            Delivered(m'.trace) + Pending(m') <= Delivered(m.trace) + 1
  {
    hide Push, Delivered;
    DeliveredPush(m.trace, Deliver(Content, [c]));
  }

  lemma DeliveredStepHeld(b: cstring, m: Machine, c: byte)
    requires WellFormed(b, m) && m.state in {BodyCr, BodyCrLf, BodyCrLfHy, BoundaryStart, Boundary}
    ensures var m' := Step(b, m, c).0;
            Delivered(m'.trace) + Pending(m') + (if m'.state == BoundaryStart then 4 else 0)
            <= Delivered(m.trace) + Pending(m) + 1
  {
    hide Push, Delivered;
    match m.state {
      case BodyCr =>
        DeliveredPush(m.trace, Deliver(Content, [CR]));
        DeliveredStepBody(m.Emit(Deliver(Content, [CR])), c);
      case BodyCrLf =>
        DeliveredPush(m.trace, Deliver(Content, [CR, LF]));
        DeliveredStepBody(m.Emit(Deliver(Content, [CR, LF])), c);
      case BodyCrLfHy =>
        DeliveredPush(m.trace, Deliver(Content, [CR, LF, HYPHEN]));
        DeliveredStepBody(m.Emit(Deliver(Content, [CR, LF, HYPHEN])), c);
      case BoundaryStart =>
        var m0 := m.(index := 0);
        DeliveredPush(m.trace, Deliver(Content, b[..0]));
        DeliveredStepBody(m0.Emit(Deliver(Content, b[..0])), c);
      case Boundary =>
        if m.index <= |b| {
          DeliveredPush(m.trace, Deliver(Content, b[..m.index]));
          DeliveredStepBody(m.Emit(Deliver(Content, b[..m.index])), c);
        }
    }
  }

  /** No step delivers more than it was given, and the bytes of a delimiter are lost for good. */
  lemma DeliveredStep(b: cstring, m: Machine, c: byte)
    requires WellFormed(b, m)
    ensures var m' := Step(b, m, c).0;
            Delivered(m'.trace) + Pending(m') + (if m'.state == BoundaryStart then 4 else 0)
            <= Delivered(m.trace) + Pending(m) + 1
  {
    hide Push, Delivered;
    if m.state in {BodyCr, BodyCrLf, BodyCrLfHy, BoundaryStart, Boundary} {
      DeliveredStepHeld(b, m, c);
    } else if m.state == Body {
      DeliveredStepBody(m, c);
    } else {
      DeliveredPush(m.trace, Deliver(Field, [c]));
      DeliveredPush(m.trace, Deliver(Value, [c]));
      DeliveredPush(m.trace, Notify(HeadersComplete));
      DeliveredPush(m.trace, Notify(BodyBegin));
      DeliveredPush(Push(m.trace, Notify(BodyBegin)), Notify(PartBegin));
      DeliveredPush(m.trace, Notify(PartEnd));
      DeliveredPush(Push(m.trace, Notify(PartEnd)), Notify(PartBegin));
      DeliveredPush(Push(m.trace, Notify(PartEnd)), Notify(BodyEnd));
    }
  }

  lemma {:induction false} DeliveredRun(b: cstring, m: Machine, input: seq<byte>, p: nat)
    requires WellFormed(b, m) && p < |input| && Run(b, m, input, p).ok
    ensures var m' := Run(b, m, input, p).m;
            Delivered(m'.trace) + Pending(m') + (if m'.state == BoundaryStart then 4 else 0)
            <= Delivered(m.trace) + Pending(m) + (|input| - p)
    decreases |input| - p
  {
    hide Step, Push, Delivered;
    RunStep(b, m, input, p);
    DeliveredStep(b, m, input[p]);
    StepWellFormed(b, m, input[p]);
    if p + 1 < |input| {
      DeliveredRun(b, Step(b, m, input[p]).0, input, p + 1);
    }
  }

  lemma FirstOccurrence(s: seq<byte>, pattern: seq<byte>) returns (i: nat)
    requires Contains(s, pattern) && pattern != []
    ensures OccursAt(s, pattern, i) && !Contains(s[..i], pattern)
  {
    i := 0;
    while !OccursAt(s, pattern, i)
      invariant i <= |s|
      invariant forall j :: 0 <= j < i ==> !OccursAt(s, pattern, j)
      decreases |s| - i
    {
      i := i + 1;
    }
    forall j | 0 <= j <= i
      ensures !OccursAt(s[..i], pattern, j)
    {
      if j + |pattern| <= i {
        assert s[..i][j..j + |pattern|] == s[j..j + |pattern|];
        assert !OccursAt(s, pattern, j);
      }
    }
  }

  /** Content is reported whole, up to the next delimiter, exactly when it contains no delimiter:
      a false start swallows the CR LF and the two hyphens in front of it. */
  lemma ContentReportedIffNoDelimiter(b: cstring, m: Machine, content: seq<byte>)
    requires WellFormed(b, m) && m.state == Body
    ensures Feeds(b, m, content + DELIMITER, EmitContent(m, content).Goto(BoundaryStart))
            <==> !Contains(content, DELIMITER)
  {
    hide Run, Step, Push, Delivered;
    if !Contains(content, DELIMITER) {
      assert DELIMITER[..0] + content == content;
      HeldContent(b, m, 0, content);
    } else if Feeds(b, m, content + DELIMITER, EmitContent(m, content).Goto(BoundaryStart)) {
      var i := FirstOccurrence(content, DELIMITER);
      var x, y := content[..i] + DELIMITER, content[i + 4..] + DELIMITER;
      assert content + DELIMITER == x + y;
      assert DELIMITER[..0] + content[..i] == content[..i];
      HeldContent(b, m, 0, content[..i]);
      var mi := EmitContent(m, content[..i]).Goto(BoundaryStart);
      RunAppend(b, m, x, y, 0);
      RunSuffix(b, mi, x, y, 0);
      RunWellFormed(b, m, x, 0);
      DeliveredPush(m.trace, Deliver(Content, content[..i]));
      DeliveredPush(m.trace, Deliver(Content, content));
      DeliveredRun(b, mi, y, 0);
      assert false;
    }
  }

  // ---- Headers, delimiters and the preamble ----

  lemma EmitAllAppend(m: Machine, x: seq<Event>, y: seq<Event>)
    ensures EmitAll(EmitAll(m, x), y) == EmitAll(m, x + y)
  {
    hide Push, PushAll;
    PushAllAppend(m.trace, x, y);
  }

  lemma FeedsHeader(b: cstring, m: Machine, h: Header)
    requires m.state == HeaderFieldStart && ValidHeader(h)
    ensures Feeds(b, m, h.name + [COLON, SP] + h.value + CRLF,
                  EmitAll(m, Delivery(Field, h.name) + Delivery(Value, h.value)))
  {
    hide Run, Push, PushAll, TokenCharacter;
    forall c | c in h.name
      ensures IsToken(c)
    {
      TokenTable(c);
    }
    // the name
    var m0 := m.Goto(HeaderField);
    FeedsScan(b, m0, Field, h.name);
    var m1 := EmitAll(m0, Delivery(Field, h.name));
    SameFirstStep(b, m, m0, h.name);
    // the colon and the blank
    var m2 := m1.Goto(HeaderValueStart);
    FeedsOne(b, m2, SP);
    FeedsStep(b, m1, COLON, [SP], m2);
    assert [COLON] + [SP] == [COLON, SP];
    FeedsAppend(b, m, h.name, m1, [COLON, SP], m2);
    // the value and the line end
    var m3 := EmitAll(m2, Delivery(Value, h.value));
    var m4 := m3.Goto(HeaderFieldStart);
    FeedsOne(b, m3.Goto(HeaderValueCr), LF);
    assert [CR] + [LF] == CRLF;
    if h.value == [] {
      EmitAllNil(m2);
      FeedsStep(b, m2, CR, [LF], m4);
      assert h.value + CRLF == CRLF;
    } else {
      FeedsScan(b, m2.Goto(HeaderValue), Value, h.value);
      SameFirstStep(b, m2, m2.Goto(HeaderValue), h.value);
      FeedsStep(b, m3.Goto(HeaderValue), CR, [LF], m4);
      FeedsAppend(b, m2, h.value, m3.Goto(HeaderValue), CRLF, m4);
    }
    FeedsAppend(b, m, h.name + [COLON, SP], m2, h.value + CRLF, m4);
    assert h.name + [COLON, SP] + (h.value + CRLF) == h.name + [COLON, SP] + h.value + CRLF;
    EmitAllAppend(m, Delivery(Field, h.name), Delivery(Value, h.value));
  }

  lemma SameFirstStep(b: cstring, m: Machine, m': Machine, text: seq<byte>)
    requires text != [] && Step(b, m, text[0]) == Step(b, m', text[0])
    ensures Run(b, m, text, 0) == Run(b, m', text, 0)
  {
    hide Step;
    RunStep(b, m, text, 0);
    RunStep(b, m', text, 0);
  }

  lemma {:induction false} FeedsHeaders(b: cstring, m: Machine, hs: seq<Header>)
    requires m.state == HeaderFieldStart && forall h <- hs :: ValidHeader(h)
    ensures Feeds(b, m, RenderHeaders(hs), EmitAll(m, HeaderEvents(hs) + [Notify(HeadersComplete)]).Goto(Body))
    decreases |hs|
  {
    hide Run, Push, PushAll;
    if hs == [] {
      FeedsOne(b, m.Goto(HeadersDone), LF);
      FeedsStep(b, m, CR, [LF], m.Emit(Notify(HeadersComplete)).Goto(Body));
      assert [CR] + [LF] == CRLF;
      EmitAllOne(m, Notify(HeadersComplete));
      assert HeaderEvents(hs) + [Notify(HeadersComplete)] == [Notify(HeadersComplete)];
    } else {
      var h := hs[0];
      var es := Delivery(Field, h.name) + Delivery(Value, h.value);
      var rest := HeaderEvents(hs[1..]) + [Notify(HeadersComplete)];
      var line := h.name + [COLON, SP] + h.value + CRLF;
      FeedsHeader(b, m, h);
      var m1 := EmitAll(m, es);
      FeedsHeaders(b, m1, hs[1..]);
      EmitAllAppend(m, es, rest);
      assert es + rest == HeaderEvents(hs) + [Notify(HeadersComplete)];
      FeedsAppend(b, m, line, m1, RenderHeaders(hs[1..]), EmitAll(m1, rest).Goto(Body));
    }
  }

  /** The rest of a boundary after its first k characters, and the byte that ends it. */
  lemma {:induction false} FeedsBoundary(b: cstring, m: Machine, k: nat, c: byte)
    requires ValidBoundary(b) && k <= |b| && m.state == Boundary && m.index == k
    requires c == CR || c == HYPHEN
    ensures Feeds(b, m, b[k..] + [c],
                  m.(index := 0, state := if c == CR then BoundaryDoneCrLf else BoundaryDoneHyHy))
    decreases |b| - k
  {
    hide Run, Push, PushAll;
    var end := m.(index := 0, state := if c == CR then BoundaryDoneCrLf else BoundaryDoneHyHy);
    if k == |b| {
      FeedsOne(b, m, c);
      assert b[k..] + [c] == [c];
    } else {
      FeedsBoundary(b, m.(index := k + 1), k + 1, c);
      FeedsStep(b, m, b[k], b[k + 1..] + [c], end);
      assert b[k..] + [c] == [b[k]] + (b[k + 1..] + [c]);
    }
  }

  lemma FeedsDelimiter(b: cstring, m: Machine, c: byte)
    requires ValidBoundary(b) && m.state == BoundaryStart && (c == CR || c == HYPHEN)
    ensures Feeds(b, m, b + [c], m.(index := 0, state := if c == CR then BoundaryDoneCrLf else BoundaryDoneHyHy))
  {
    hide Run, Push, PushAll;
    var m0 := m.(index := 0, state := Boundary);
    FeedsBoundary(b, m0, 0, c);
    assert b[0..] == b;
    SameFirstStep(b, m, m0, b + [c]);
  }

  lemma {:induction false} FeedsFirstBoundary(b: cstring, m: Machine, k: nat)
    requires ValidBoundary(b) && k <= |b| && m.state == FirstBoundary && m.index == k
    ensures Feeds(b, m, b[k..] + CRLF,
                  EmitAll(m, [Notify(BodyBegin), Notify(PartBegin)]).(index := 0, state := HeaderFieldStart))
    decreases |b| - k
  {
    hide Run, Push, PushAll;
    var end := EmitAll(m, [Notify(BodyBegin), Notify(PartBegin)]).(index := 0, state := HeaderFieldStart);
    if k == |b| {
      EmitAllOne(m, Notify(BodyBegin));
      EmitAllOne(m.Emit(Notify(BodyBegin)), Notify(PartBegin));
      EmitAllAppend(m, [Notify(BodyBegin)], [Notify(PartBegin)]);
      assert [Notify(BodyBegin)] + [Notify(PartBegin)] == [Notify(BodyBegin), Notify(PartBegin)];
      FeedsOne(b, m.(index := k + 1), LF);
      FeedsStep(b, m, CR, [LF], end);
      assert b[k..] + CRLF == [CR] + [LF];
    } else {
      FeedsFirstBoundary(b, m.(index := k + 1), k + 1);
      FeedsStep(b, m, b[k], b[k + 1..] + CRLF, end);
      assert b[k..] + CRLF == [b[k]] + (b[k + 1..] + CRLF);
    }
  }

  /** Everything before the first two adjacent hyphens is ignored. */
  lemma {:induction false} FeedsPreamble(b: cstring, m: Machine, preamble: seq<byte>)
    requires m.state == Preamble || (m.state == PreambleHyHy && preamble != [] && preamble[0] != HYPHEN)
    requires !Contains(preamble + [HYPHEN], DASHES)
    ensures Feeds(b, m, preamble + DASHES, m.Goto(FirstBoundary))
    decreases |preamble|
  {
    hide Run, Push, PushAll;
    var end := m.Goto(FirstBoundary);
    if preamble == [] {
      FeedsOne(b, m.Goto(PreambleHyHy), HYPHEN);
      FeedsStep(b, m, HYPHEN, [HYPHEN], end);
      assert preamble + DASHES == [HYPHEN] + [HYPHEN];
    } else {
      var c, rest := preamble[0], preamble[1..];
      assert preamble + [HYPHEN] == [c] + (rest + [HYPHEN]);
      if Contains(rest + [HYPHEN], DASHES) {
        ContainsSuffix([c], rest + [HYPHEN], DASHES);
        assert false;
      }
      if c == HYPHEN && (rest + [HYPHEN])[0] == HYPHEN {
        ContainsPrefix(preamble + [HYPHEN], DASHES);
        assert false;
      }
      FeedsPreamble(b, Step(b, m, c).0, rest);
      FeedsStep(b, m, c, rest + DASHES, end);
      assert preamble + DASHES == [c] + (rest + DASHES);
    }
  }

  // ---- Whole parts and bodies ----

  lemma EmitContentAll(m: Machine, data: seq<byte>)
    ensures EmitContent(m, data) == EmitAll(m, Delivery(Content, data))
  {
    EmitAllNil(m);
    EmitAllOne(m, Deliver(Content, data));
  }

  /** A part, from after its PartBegin up to the boundary after its content. */
  lemma FeedsPart(b: cstring, m: Machine, part: Part)
    requires m.state == HeaderFieldStart && ValidPart(part)
    ensures Feeds(b, m, RenderHeaders(part.headers) + (part.content + DELIMITER),
                  EmitAll(m, PartEvents(part)[1..|PartEvents(part)| - 1]).Goto(BoundaryStart))
  {
    hide Run, Step, Push, PushAll;
    var es := HeaderEvents(part.headers) + [Notify(HeadersComplete)];
    var m1 := EmitAll(m, es).Goto(Body);
    FeedsHeaders(b, m, part.headers);
    assert DELIMITER[..0] + part.content == part.content;
    HeldContent(b, m1, 0, part.content);
    var m2 := EmitContent(m1, part.content).Goto(BoundaryStart);
    FeedsAppend(b, m, RenderHeaders(part.headers), m1, part.content + DELIMITER, m2);
    EmitContentAll(m1, part.content);
    EmitAllAppend(m, es, Delivery(Content, part.content));
    assert es + Delivery(Content, part.content) == PartEvents(part)[1..|PartEvents(part)| - 1];
  }

  /** The end of a part and the line of its closing delimiter, up to the next part or the end. */
  lemma FeedsPartEnd(b: cstring, m: Machine, last: bool)
    requires ValidBoundary(b) && m.state == BoundaryStart
    ensures Feeds(b, m, b + if last then DASHES else CRLF,
                  EmitAll(m, [Notify(PartEnd), Notify(if last then BodyEnd else PartBegin)])
                  .(index := 0, state := if last then Epilogue else HeaderFieldStart))
  {
    hide Run, Push, PushAll;
    var m1 := m.(index := 0, state := if last then BoundaryDoneHyHy else BoundaryDoneCrLf);
    var c, d := if last then HYPHEN else CR, if last then HYPHEN else LF;
    var m2 := m1.Emit(Notify(PartEnd)).Emit(Notify(if last then BodyEnd else PartBegin))
                .Goto(if last then Epilogue else HeaderFieldStart);
    FeedsDelimiter(b, m, c);
    FeedsOne(b, m1, d);
    FeedsAppend(b, m, b + [c], m1, [d], m2);
    assert b + [c] + [d] == b + if last then DASHES else CRLF;
    EmitTwo(m, Notify(PartEnd), Notify(if last then BodyEnd else PartBegin));
  }

  lemma {:induction false} FeedsParts(b: cstring, m: Machine, parts: seq<Part>)
    requires ValidBoundary(b) && parts != [] && m.state == HeaderFieldStart
    requires forall p <- parts :: ValidPart(p)
    ensures Feeds(b, m, RenderParts(b, parts),
                  EmitAll(m, PartsEvents(parts)[1..] + [Notify(BodyEnd)]).(index := 0, state := Epilogue))
    decreases |parts|
  {
    hide Run, Step, Push, PushAll, HeaderEvents, RenderHeaders, ValidPart, Contains;
    var part, inner := parts[0], PartEvents(parts[0])[1..|PartEvents(parts[0])| - 1];
    var text := RenderHeaders(part.headers) + (part.content + DELIMITER);
    var m1 := EmitAll(m, inner).Goto(BoundaryStart);
    FeedsPart(b, m, part);
    var last := |parts| == 1;
    var bound := b + (if last then DASHES else CRLF);
    var ends := [Notify(PartEnd), Notify(if last then BodyEnd else PartBegin)];
    var m2 := EmitAll(m1, ends).(index := 0, state := if last then Epilogue else HeaderFieldStart);
    FeedsPartEnd(b, m1, last);
    FeedsAppend(b, m, text, m1, bound, m2);
    EmitAllAppend(m, inner, ends);
    assert PartsEvents(parts) == PartEvents(part) + PartsEvents(parts[1..]);
    assert text + bound == RenderPart(b, part) + if last then DASHES else CRLF;
    if last {
      assert inner + ends == PartsEvents(parts)[1..] + [Notify(BodyEnd)];
    } else {
      var rest := PartsEvents(parts[1..])[1..] + [Notify(BodyEnd)];
      FeedsParts(b, m2, parts[1..]);
      FeedsAppend(b, m, text + bound, m2, RenderParts(b, parts[1..]),
                  EmitAll(m2, rest).(index := 0, state := Epilogue));
      EmitAllAppend(m, inner + ends, rest);
      PartsEventsHead(parts[1..]);
      assert inner + ends + rest == PartsEvents(parts)[1..] + [Notify(BodyEnd)];
    }
  }

  lemma PartsEventsHead(parts: seq<Part>)
    requires parts != []
    ensures PartsEvents(parts) != [] && PartsEvents(parts)[0] == Notify(PartBegin)
  {}

  lemma EmitTwo(m: Machine, e: Event, f: Event)
    ensures EmitAll(m, [e, f]) == m.Emit(e).Emit(f)
  {
    hide Push, PushAll;
    EmitAllOne(m, e);
    EmitAllOne(m.Emit(e), f);
    EmitAllAppend(m, [e], [f]);
    assert [e] + [f] == [e, f];
  }

  lemma {:induction false} FeedsEpilogue(b: cstring, m: Machine, text: seq<byte>, p: nat)
    requires m.state == Epilogue && p <= |text|
    ensures Run(b, m, text, p) == Outcome(m, true, |text|)
    decreases |text| - p
  {
    if p < |text| {
      FeedsEpilogue(b, m, text, p + 1);
    }
  }

  /** A rendered body is accepted to its last byte and produces exactly the callbacks of its
      parts, each bracketed by PartBegin and PartEnd, between BodyBegin and BodyEnd. */
  lemma RenderedBodyIsParsed(b: cstring, preamble: seq<byte>, parts: seq<Part>, epilogue: seq<byte>)
    requires ValidBoundary(b) && parts != [] && forall p <- parts :: ValidPart(p)
    requires !Contains(preamble + [HYPHEN], DASHES)
    ensures var r := Run(b, Machine(Preamble, 0, []), Render(b, preamble, parts, epilogue), 0);
            r.ok && r.m == Machine(Epilogue, 0, Joined(Events(parts)))
  {
    hide Run, Step, Push, PushAll, RenderParts, PartsEvents, ValidPart, ValidBoundary, Contains;
    PartsEventsHead(parts);
    var m := Machine(Preamble, 0, []);
    var m1 := m.Goto(FirstBoundary);
    var start := [Notify(BodyBegin), Notify(PartBegin)];
    var m2 := EmitAll(m1, start).(index := 0, state := HeaderFieldStart);
    var rest := PartsEvents(parts)[1..] + [Notify(BodyEnd)];
    var m3 := EmitAll(m2, rest).(index := 0, state := Epilogue);
    var x, y := preamble + DASHES, b + CRLF;
    FeedsPreamble(b, m, preamble);
    FeedsFirstBoundary(b, m1, 0);
    assert b[0..] == b;
    FeedsAppend(b, m, x, m1, y, m2);
    FeedsParts(b, m2, parts);
    FeedsAppend(b, m, x + y, m2, RenderParts(b, parts), m3);
    FeedsEpilogue(b, m3, epilogue, 0);
    FeedsAppend(b, m, x + y + RenderParts(b, parts), m3, epilogue, m3);
    EmitAllAppend(m1, start, rest);
    assert start + rest == Events(parts);
  }

  // ---- Getting the parts back from the callbacks ----

  /** A consumer that builds parts from callbacks: a field opens a header, a value completes it. */
  function Absorb(parts: seq<Part>, e: Event): seq<Part> {
    if e == Notify(PartBegin) then parts + [Part([], [])]
    else if e.Notify? || parts == [] then parts
    else
      var last := parts[|parts| - 1];
      var hs := last.headers;
      parts[..|parts| - 1] + [
        match e.kind
        case Field => last.(headers := hs + [Header(e.data, [])])
        case Value => if hs == [] then last else last.(headers := hs[..|hs| - 1] + [hs[|hs| - 1].(value := e.data)])
        case Content => last.(content := e.data)
      ]
  }

  function Collect(trace: seq<Event>): seq<Part> {
    if trace == [] then [] else Absorb(Collect(trace[..|trace| - 1]), trace[|trace| - 1])
  }

  /** An empty value is never reported, so the name after it joins the name before it. */
  function FuseOne(hs: seq<Header>, h: Header): seq<Header> {
    if hs != [] && hs[|hs| - 1].value == [] then hs[..|hs| - 1] + [Header(hs[|hs| - 1].name + h.name, h.value)]
    else hs + [h]
  }

  function FuseOnto(front: seq<Header>, hs: seq<Header>): seq<Header>
    decreases |hs|
  {
    if hs == [] then front else FuseOnto(FuseOne(front, hs[0]), hs[1..])
  }

  function FusedParts(parts: seq<Part>): seq<Part> {
    seq(|parts|, i requires 0 <= i < |parts| => Part(FuseOnto([], parts[i].headers), parts[i].content))
  }

  /** A trace in the middle of a part's headers. */
  ghost predicate AtHeaders(t: seq<Event>, done: seq<Part>, hs: seq<Header>) {
    && t != [] && Collect(t) == done + [Part(hs, [])]
    && t[|t| - 1] == (if hs == [] then Notify(PartBegin)
                      else if hs[|hs| - 1].value == [] then Deliver(Field, hs[|hs| - 1].name)
                      else Deliver(Value, hs[|hs| - 1].value))
  }

  lemma CollectSnoc(t: seq<Event>, e: Event)
    ensures Collect(t + [e]) == Absorb(Collect(t), e)
  {
    assert (t + [e])[..|t|] == t;
  }

  lemma NotifyPush(t: seq<Event>, e: Event)
    requires e.Notify?
    ensures Push(t, e) == t + [e]
  {}

  lemma CollectField(t: seq<Event>, done: seq<Part>, hs: seq<Header>, name: seq<byte>)
    requires AtHeaders(t, done, hs)
    ensures AtHeaders(Push(t, Deliver(Field, name)), done, FuseOne(hs, Header(name, [])))
  {
    var t' := Push(t, Deliver(Field, name));
    if hs != [] && hs[|hs| - 1].value == [] {
      var before, x := t[..|t| - 1], hs[|hs| - 1].name;
      assert t == before + [Deliver(Field, x)] && t' == before + [Deliver(Field, x + name)];
      CollectSnoc(before, Deliver(Field, x));
      CollectSnoc(before, Deliver(Field, x + name));
      var ps := Collect(before);
      var last := ps[|ps| - 1];
      assert ps[..|ps| - 1] == done;
      assert Part(hs, []) == last.(headers := last.headers + [Header(x, [])]);
      assert last.headers == hs[..|hs| - 1];
    } else {
      CollectSnoc(t, Deliver(Field, name));
      assert (done + [Part(hs, [])])[..|done|] == done;
    }
  }

  lemma CollectValue(t: seq<Event>, done: seq<Part>, hs: seq<Header>, value: seq<byte>)
    requires AtHeaders(t, done, hs) && hs != [] && hs[|hs| - 1].value == []
    ensures AtHeaders(PushAll(t, Delivery(Value, value)), done, hs[..|hs| - 1] + [hs[|hs| - 1].(value := value)])
  {
    hide Collect;
    var e := Deliver(Value, value);
    if value == [] {
      assert hs[..|hs| - 1] + [hs[|hs| - 1].(value := value)] == hs;
    } else {
      EmitAllOne(Machine(Body, 0, t), e);
      CollectSnoc(t, e);
      assert (done + [Part(hs, [])])[..|done|] == done;
    }
  }

  lemma CollectHeader(t: seq<Event>, done: seq<Part>, hs: seq<Header>, h: Header)
    requires AtHeaders(t, done, hs) && h.name != []
    ensures AtHeaders(PushAll(t, Delivery(Field, h.name) + Delivery(Value, h.value)), done, FuseOne(hs, h))
  {
    hide Push, PushAll, Collect;
    var t1, hs1 := Push(t, Deliver(Field, h.name)), FuseOne(hs, Header(h.name, []));
    CollectField(t, done, hs, h.name);
    EmitAllOne(Machine(Body, 0, t), Deliver(Field, h.name));
    CollectValue(t1, done, hs1, h.value);
    PushAllAppend(t, Delivery(Field, h.name), Delivery(Value, h.value));
  }

  lemma {:induction false} CollectHeaders(t: seq<Event>, done: seq<Part>, front: seq<Header>, hs: seq<Header>)
    requires AtHeaders(t, done, front) && forall h <- hs :: h.name != []
    ensures AtHeaders(PushAll(t, HeaderEvents(hs)), done, FuseOnto(front, hs))
    decreases |hs|
  {
    hide Push, Collect;
    if hs != [] {
      var es := Delivery(Field, hs[0].name) + Delivery(Value, hs[0].value);
      CollectHeader(t, done, front, hs[0]);
      CollectHeaders(PushAll(t, es), done, FuseOne(front, hs[0]), hs[1..]);
      PushAllAppend(t, es, HeaderEvents(hs[1..]));
    }
  }

  lemma CollectNotify(t: seq<Event>, e: Event)
    requires e.Notify?
    ensures PushAll(t, [e]) == t + [e] && Collect(PushAll(t, [e])) == Absorb(Collect(t), e)
  {
    hide Collect, Absorb;
    EmitAllOne(Machine(Body, 0, t), e);
    NotifyPush(t, e);
    CollectSnoc(t, e);
  }

  lemma CollectContent(t: seq<Event>, e: Event, done: seq<Part>, hs: seq<Header>, content: seq<byte>)
    requires e.Notify? && Collect(t + [e]) == done + [Part(hs, [])]
    ensures Collect(PushAll(t + [e], Delivery(Content, content))) == done + [Part(hs, content)]
  {
    hide Collect;
    var d := Deliver(Content, content);
    if content != [] {
      EmitAllOne(Machine(Body, 0, t + [e]), d);
      CollectSnoc(t + [e], d);
      assert (done + [Part(hs, [])])[..|done|] == done;
    }
  }

  lemma CollectPart(t: seq<Event>, p: Part)
    requires forall h <- p.headers :: h.name != []
    ensures Collect(PushAll(t, PartEvents(p))) == Collect(t) + [Part(FuseOnto([], p.headers), p.content)]
  {
    hide PushAll, Push, Collect, HeaderEvents, FuseOnto;
    var done, hs := Collect(t), FuseOnto([], p.headers);
    var begin, complete, end := Notify(PartBegin), Notify(HeadersComplete), Notify(PartEnd);
    var e1, e2 := HeaderEvents(p.headers), Delivery(Content, p.content);
    var t0 := t + [begin];
    CollectNotify(t, begin);
    var t1 := PushAll(t0, e1);
    CollectHeaders(t0, done, [], p.headers);
    CollectNotify(t1, complete);
    CollectContent(t1, complete, done, hs, p.content);
    var t3 := PushAll(t1 + [complete], e2);
    CollectNotify(t3, end);
    PushAllAppend(t, [begin], e1);
    PushAllAppend(t, [begin] + e1, [complete]);
    PushAllAppend(t, [begin] + e1 + [complete], e2);
    PushAllAppend(t, [begin] + e1 + [complete] + e2, [end]);
  }

  lemma {:induction false} CollectParts(t: seq<Event>, parts: seq<Part>)
    requires forall p <- parts :: forall h <- p.headers :: h.name != []
    ensures Collect(PushAll(t, PartsEvents(parts))) == Collect(t) + FusedParts(parts)
    decreases |parts|
  {
    hide Push, Collect;
    if parts != [] {
      CollectPart(t, parts[0]);
      CollectParts(PushAll(t, PartEvents(parts[0])), parts[1..]);
      PushAllAppend(t, PartEvents(parts[0]), PartsEvents(parts[1..]));
    }
  }

  lemma {:induction false} FuseOntoLength(front: seq<Header>, hs: seq<Header>)
    ensures |FuseOnto(front, hs)| <= |front| + |hs|
    decreases |hs|
  {
    if hs != [] {
      FuseOntoLength(FuseOne(front, hs[0]), hs[1..]);
    }
  }

  lemma {:induction false} NothingFused(front: seq<Header>, hs: seq<Header>)
    ensures FuseOnto(front, hs) == front + hs
            <==> forall i :: |front| - 1 <= i < |front + hs| - 1 && i >= 0 ==> (front + hs)[i].value != []
    decreases |hs|
  {
    if hs == [] {
      assert front + hs == front;
    } else {
      var all := front + hs;
      if front != [] && front[|front| - 1].value == [] {
        FuseOntoLength(FuseOne(front, hs[0]), hs[1..]);
        assert all[|front| - 1].value == [];
      } else {
        NothingFused(front + [hs[0]], hs[1..]);
        assert front + [hs[0]] + hs[1..] == all;
        assert front != [] ==> all[|front| - 1].value != [];
      }
    }
  }

  /** No header with an empty value is followed by another header. */
  predicate ValuesDelimitNames(parts: seq<Part>) {
    forall k, i :: 0 <= k < |parts| && 0 <= i < |parts[k].headers| - 1 ==> parts[k].headers[i].value != []
  }

  lemma CollectEvents(parts: seq<Part>)
    requires forall p <- parts :: forall h <- p.headers :: h.name != []
    ensures Collect(Joined(Events(parts))) == FusedParts(parts)
  {
    hide Push, PushAll, Collect, FusedParts, PartsEvents;
    var begin, end, es := Notify(BodyBegin), Notify(BodyEnd), PartsEvents(parts);
    CollectNotify([], begin);
    assert Collect([]) == [] by { CollectEmpty(); }
    assert [] + [begin] == [begin];
    CollectParts([begin], parts);
    var t := PushAll([begin], es);
    CollectNotify(t, end);
    PushAllAppend([], [begin], es);
    PushAllAppend([], [begin] + es, [end]);
    assert [] + FusedParts(parts) == FusedParts(parts);
  }

  lemma CollectEmpty()
    ensures Collect([]) == []
  {}

  /** The callbacks give the parts back, up to fused headers: they are the very parts that were
      rendered exactly when no header with an empty value is followed by another header. */
  lemma PartsRecoveredIff(parts: seq<Part>)
    requires forall p <- parts :: forall h <- p.headers :: h.name != []
    ensures Collect(Joined(Events(parts))) == FusedParts(parts)
    ensures Collect(Joined(Events(parts))) == parts <==> ValuesDelimitNames(parts)
  {
    hide Push, PushAll, Collect, PartsEvents;
    CollectEvents(parts);
    forall k | 0 <= k < |parts|
      ensures FusedParts(parts)[k] == parts[k] <==>
              forall i :: 0 <= i < |parts[k].headers| - 1 ==> parts[k].headers[i].value != []
    {
      NothingFused([], parts[k].headers);
      assert [] + parts[k].headers == parts[k].headers;
    }
    if FusedParts(parts) == parts {
    } else {
      var k :| 0 <= k < |parts| && FusedParts(parts)[k] != parts[k];
    }
  }

  /** However a rendered body is cut into chunks, the callbacks of the parser give its parts back. */
  lemma ChunkedBodyYieldsParts(b: cstring, preamble: seq<byte>, parts: seq<Part>, epilogue: seq<byte>,
                               chunks: seq<seq<byte>>)
    requires ValidBoundary(b) && parts != [] && forall p <- parts :: ValidPart(p)
    requires !Contains(preamble + [HYPHEN], DASHES) && ValuesDelimitNames(parts)
    requires Concat(chunks) == Render(b, preamble, parts, epilogue)
    ensures var r := Feed(b, Machine(Preamble, 0, []), chunks);
            r.ok && r.m.state == Epilogue && Collect(r.m.trace) == parts
  {
    hide Run, Feed, Collect, Joined, Events, Render, ValidBoundary, Contains, ValuesDelimitNames;
    ChunkingInvisible(b, Machine(Preamble, 0, []), chunks);
    RenderedBodyIsParsed(b, preamble, parts, epilogue);
    PartsRecoveredIff(parts);
  }
}
