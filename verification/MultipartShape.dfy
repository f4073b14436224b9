/** What every input the multipart parser accepts looks like. */
module MultipartShape {
  import opened CTypes
  import opened Multipart
  import opened MultipartBody

  predicate EndsWith(s: seq<byte>, t: seq<byte>) {
    |t| <= |s| && s[|s| - |t|..] == t
  }

  /** What stands before the last n bytes. */
  function Before(s: seq<byte>, n: nat): seq<byte>
    requires n <= |s|
  {
    s[..|s| - n]
  }

  /** A header line: characters of a token, a colon, and no CR but the one that ends it. */
  predicate Line(t: seq<byte>) {
    EndsWith(t, CRLF) && exists n :: 0 <= n < |t| - 2 && NamedTo(t, n) && '\r' as int !in t[n + 1..|t| - 2]
  }

  /** Characters of a token up to a colon at n. */
  predicate NamedTo(t: seq<byte>, n: nat) {
    n < |t| && t[n] == ':' as int && forall i :: 0 <= i < n ==> TokenCharacter(t[i])
  }

  ghost predicate Lines(t: seq<byte>)
    decreases |t|
  {
    t == [] || exists k: nat :: k < |t| && Lines(t[..k]) && Line(t[k..])
  }

  /** The first boundary line: two hyphens, the boundary, and a line end. */
  predicate Opened(b: cstring, s: seq<byte>) {
    EndsWith(s, DASHES + b + CRLF)
  }

  /** A part begins here: behind the first boundary line, or behind one that ends a part. */
  ghost predicate AtPart(b: cstring, s: seq<byte>)
    decreases |s|, 0
  {
    Opened(b, s) || (|s| >= 2 && EndsWith(s, CRLF) && AtBoundary(b, Before(s, 2)))
  }

  /** Some header lines of a part have passed. */
  ghost predicate AtHeader(b: cstring, s: seq<byte>)
    decreases |s|, 2
  {
    exists k: nat :: HeaderFrom(b, s, k)
  }

  ghost predicate HeaderFrom(b: cstring, s: seq<byte>, k: nat)
    decreases |s|, 1
  {
    k <= |s| && AtPart(b, s[..k]) && Lines(s[k..])
  }

  /** All header lines and the empty line behind them have passed, and some content. */
  ghost predicate InBody(b: cstring, s: seq<byte>)
    decreases |s|, 4
  {
    exists k: nat :: BodyFrom(b, s, k)
  }

  ghost predicate BodyFrom(b: cstring, s: seq<byte>, k: nat)
    decreases |s|, 3
  {
    k + 2 <= |s| && s[k..k + 2] == CRLF && AtHeader(b, s[..k])
  }

  /** Some characters of a header name have passed. */
  ghost predicate InName(b: cstring, s: seq<byte>) {
    exists k: nat :: NameFrom(b, s, k)
  }

  ghost predicate NameFrom(b: cstring, s: seq<byte>, k: nat) {
    k <= |s| && AtHeader(b, s[..k]) && forall i :: k <= i < |s| ==> TokenCharacter(s[i])
  }

  /** A header name, a colon and some of the value have passed. */
  ghost predicate InValue(b: cstring, s: seq<byte>) {
    exists k: nat, n: nat :: ValueFrom(b, s, k, n)
  }

  ghost predicate ValueFrom(b: cstring, s: seq<byte>, k: nat, n: nat) {
    && k + n < |s| && AtHeader(b, s[..k]) && NamedTo(s[k..], n) && '\r' as int !in s[k + n + 1..]
  }

  /** The content has ended: a line end, two hyphens and the boundary have passed. */
  ghost predicate AtBoundary(b: cstring, s: seq<byte>)
    decreases |s|, 1
  {
    EndsWith(s, DELIMITER + b) && InBody(b, Before(s, 4 + |b|))
  }

  /** The body has ended: two hyphens have passed behind a boundary. */
  ghost predicate Closed(b: cstring, s: seq<byte>) {
    exists k: nat :: k + 2 <= |s| && s[k..k + 2] == DASHES && AtBoundary(b, s[..k])
  }

  /** What has been read when the parser is in a state. */
  ghost predicate Shape(b: cstring, m: Machine, s: seq<byte>) {
    match m.state
    case Preamble => m.index == 0
    case PreambleHyHy => m.index == 0 && EndsWith(s, ['-' as int])
    case FirstBoundary => m.index <= |b| + 1 && EndsWith(s, DASHES + (b + CRLF)[..m.index])
    case HeaderFieldStart => AtHeader(b, s)
    case HeaderField => InName(b, s)
    case HeaderValueStart => InValue(b, s)
    case HeaderValue => InValue(b, s)
    case HeaderValueCr => EndsWith(s, ['\r' as int]) && InValue(b, Before(s, 1))
    case HeadersDone => EndsWith(s, ['\r' as int]) && AtHeader(b, Before(s, 1))
    case Body => InBody(b, s)
    case BodyCr => Held(b, s, 1)
    case BodyCrLf => Held(b, s, 2)
    case BodyCrLfHy => Held(b, s, 3)
    case BoundaryStart => Held(b, s, 4)
    case Boundary => m.index <= |b| && Held(b, s, 4 + m.index)
    case BoundaryDone => AtBoundary(b, s)
    case BoundaryDoneCrLf => EndsWith(s, ['\r' as int]) && AtBoundary(b, Before(s, 1))
    case BoundaryDoneHyHy => EndsWith(s, ['-' as int]) && AtBoundary(b, Before(s, 1))
    case Epilogue => Closed(b, s)
  }

  /** The first n bytes of a delimiter have passed behind some content. */
  ghost predicate Held(b: cstring, s: seq<byte>, n: nat)
    requires n <= 4 + |b|
  {
    EndsWith(s, (DELIMITER + b)[..n]) && InBody(b, Before(s, n))
  }

  // ---- Every byte that is accepted keeps the shape ----

  lemma BeforeLast(s: seq<byte>, c: byte)
    ensures Before(s + [c], 1) == s && EndsWith(s + [c], [c])
  {}

  lemma EndsLonger(s: seq<byte>, t: seq<byte>, c: byte)
    requires EndsWith(s, t)
    ensures EndsWith(s + [c], t + [c]) && Before(s + [c], |t| + 1) == Before(s, |t|)
  {}

  /** A longer content is content. */
  lemma BodyMore(b: cstring, s: seq<byte>, more: seq<byte>)
    requires InBody(b, s)
    ensures InBody(b, s + more)
  {
    hide AtHeader;
    var k: nat :| BodyFrom(b, s, k);
    assert (s + more)[..k] == s[..k] && (s + more)[k..k + 2] == s[k..k + 2];
    assert BodyFrom(b, s + more, k);
  }

  lemma HeldIsBody(b: cstring, s: seq<byte>, n: nat)
    requires n <= 4 + |b| && Held(b, s, n)
    ensures InBody(b, s)
  {
    hide InBody;
    BodyMore(b, Before(s, n), s[|s| - n..]);
    assert Before(s, n) + s[|s| - n..] == s;
  }

  lemma HeldMore(b: cstring, s: seq<byte>, n: nat, c: byte)
    requires n < 4 + |b| && Held(b, s, n) && c == (DELIMITER + b)[n]
    ensures Held(b, s + [c], n + 1)
  {
    hide InBody;
    var d := DELIMITER + b;
    EndsLonger(s, d[..n], c);
    assert d[..n] + [c] == d[..n + 1];
  }

  lemma HeldNothing(b: cstring, s: seq<byte>)
    requires InBody(b, s)
    ensures Held(b, s, 0)
  {
    hide InBody;
    assert Before(s, 0) == s;
  }

  /** A byte of the content, which may start a delimiter. */
  lemma BodyShape(b: cstring, m: Machine, s: seq<byte>, c: byte)
    requires InBody(b, s)
    ensures Shape(b, StepBody(m, c), s + [c])
  {
    hide InBody, Held;
    BodyMore(b, s, [c]);
    HeldNothing(b, s);
    if c == CR { HeldMore(b, s, 0, c); }
  }

  lemma HeldAll(b: cstring, s: seq<byte>)
    requires Held(b, s, 4 + |b|)
    ensures AtBoundary(b, s)
  {
    hide InBody;
    assert (DELIMITER + b)[..4 + |b|] == DELIMITER + b;
  }

  lemma BoundaryShape(b: cstring, m: Machine, s: seq<byte>, c: byte)
    requires m.index <= |b| && Held(b, s, 4 + m.index) && StepBoundary(b, m, c).1
    ensures Shape(b, StepBoundary(b, m, c).0, s + [c])
  {
    hide InBody, Held, AtBoundary;
    if m.index == |b| {
      HeldAll(b, s);
      BeforeLast(s, c);
    } else if Matches(c, b[m.index]) {
      HeldMore(b, s, 4 + m.index, c);
    } else {
      HeldIsBody(b, s, 4 + m.index);
      BodyShape(b, m.Emit(Deliver(Content, b[..m.index])), s, c);
    }
  }

  /** A character of a name, or the colon behind it. */
  lemma NameShape(b: cstring, m: Machine, s: seq<byte>, c: byte)
    requires InName(b, s) && StepField(m, c).1
    ensures Shape(b, StepField(m, c).0, s + [c])
  {
    hide AtHeader, TokenCharacter;
    TokenTable(c);
    var k: nat :| NameFrom(b, s, k);
    var u := s + [c];
    assert u[..k] == s[..k];
    if IsToken(c) {
      assert NameFrom(b, u, k);
    } else {
      assert NamedTo(u[k..], |s| - k);
      assert u[k + (|s| - k) + 1..] == [];
      assert ValueFrom(b, u, k, |s| - k);
    }
  }

  lemma NameStarts(b: cstring, s: seq<byte>)
    requires AtHeader(b, s)
    ensures InName(b, s)
  {
    hide AtHeader;
    assert s[..|s|] == s;
    assert NameFrom(b, s, |s|);
  }

  /** A byte of a value, or the CR behind it. */
  lemma ValueShape(b: cstring, s: seq<byte>, c: byte)
    requires InValue(b, s) && c != CR
    ensures InValue(b, s + [c])
  {
    hide AtHeader, TokenCharacter;
    var k: nat, n: nat :| ValueFrom(b, s, k, n);
    var u := s + [c];
    assert u[..k] == s[..k] && u[k..] == s[k..] + [c] && u[k + n + 1..] == s[k + n + 1..] + [c];
    assert ValueFrom(b, u, k, n);
  }

  /** The line end behind a value completes a header line. */
  lemma LineShape(b: cstring, s: seq<byte>)
    requires InValue(b, s)
    ensures AtHeader(b, s + CRLF)
  {
    hide AtPart, TokenCharacter;
    var k: nat, n: nat :| ValueFrom(b, s, k, n);
    assert AtHeader(b, s[..k]);
    var i: nat :| HeaderFrom(b, s[..k], i);
    var u := s + CRLF;
    var t := u[i..];
    assert s[..k][..i] == u[..i] && s[..k][i..] == t[..k - i] && u[k..] == t[k - i..];
    assert u[k..][n + 1..|u[k..]| - 2] == s[k + n + 1..];
    assert NamedTo(u[k..], n);
    assert Line(u[k..]);
    assert Lines(t);
    assert HeaderFrom(b, u, i);
  }

  lemma PartStarts(b: cstring, s: seq<byte>)
    requires AtPart(b, s)
    ensures AtHeader(b, s)
  {
    hide AtPart;
    assert s[..|s|] == s && s[|s|..] == [];
    assert HeaderFrom(b, s, |s|);
  }

  lemma BodyStarts(b: cstring, s: seq<byte>)
    requires AtHeader(b, s)
    ensures InBody(b, s + CRLF)
  {
    hide AtHeader;
    assert (s + CRLF)[..|s|] == s && (s + CRLF)[|s|..|s| + 2] == CRLF;
    assert BodyFrom(b, s + CRLF, |s|);
  }

  lemma TwoBehind(s: seq<byte>, c: byte, d: byte)
    requires EndsWith(s, [c])
    ensures s + [d] == Before(s, 1) + [c, d]
    ensures |s| >= 1 && EndsWith(s + [d], [c, d]) && Before(s + [d], 2) == Before(s, 1)
  {
    assert s == Before(s, 1) + s[|s| - 1..];
  }

  /** The bytes of the first boundary line. */
  lemma OpeningShape(b: cstring, m: Machine, s: seq<byte>, c: byte)
    requires m.state == FirstBoundary && Shape(b, m, s) && Step(b, m, c).1
    ensures Shape(b, Step(b, m, c).0, s + [c])
  {
    hide AtHeader;
    var line := b + CRLF;
    if m.index == |b| + 1 {
      EndsLonger(s, DASHES + line[..m.index], c);
      assert DASHES + line[..m.index] + [c] == DASHES + b + CRLF;
      PartStarts(b, s + [c]);
    } else {
      assert c == line[m.index];
      EndsLonger(s, DASHES + line[..m.index], c);
      assert DASHES + line[..m.index] + [c] == DASHES + line[..m.index + 1];
    }
  }

  lemma ClosedMore(b: cstring, s: seq<byte>, c: byte)
    requires Closed(b, s)
    ensures Closed(b, s + [c])
  {
    hide AtBoundary;
    var k: nat :| k + 2 <= |s| && s[k..k + 2] == DASHES && AtBoundary(b, s[..k]);
    assert (s + [c])[..k] == s[..k] && (s + [c])[k..k + 2] == s[k..k + 2];
  }

  predicate InHeaders(state: State) {
    state in {FirstBoundary, HeaderFieldStart, HeaderField, HeaderValueStart, HeaderValue, HeaderValueCr, HeadersDone}
  }

  lemma StepShape(b: cstring, m: Machine, s: seq<byte>, c: byte)
    requires Shape(b, m, s) && Step(b, m, c).1
    ensures Shape(b, Step(b, m, c).0, s + [c])
  {
    if InHeaders(m.state) {
      hide Step, Shape;
      HeaderStepShape(b, m, s, c);
    } else if m.state in {Preamble, PreambleHyHy} {
      if c == HYPHEN && m.state == PreambleHyHy { TwoBehind(s, HYPHEN, c); }
    } else {
      hide Step, Shape;
      BodyStepShape(b, m, s, c);
    }
  }

  lemma HeaderStepShape(b: cstring, m: Machine, s: seq<byte>, c: byte)
    requires InHeaders(m.state) && Shape(b, m, s) && Step(b, m, c).1
    ensures Shape(b, Step(b, m, c).0, s + [c])
  {
    hide InBody, AtHeader, AtBoundary, AtPart, Held, InName, InValue, StepBody, StepBoundary, StepField;
    BeforeLast(s, c);
    match m.state {
      case FirstBoundary => OpeningShape(b, m, s, c);
      case HeaderFieldStart =>
        NameStarts(b, s);
        if c != CR { NameShape(b, m, s, c); }
      case HeaderField => NameShape(b, m, s, c);
      case HeaderValueStart => ValueStepShape(b, m, s, c);
      case HeaderValue => ValueStepShape(b, m, s, c);
      case HeaderValueCr =>
        TwoBehind(s, CR, c);
        LineShape(b, Before(s, 1));
      case HeadersDone =>
        TwoBehind(s, CR, c);
        BodyStarts(b, Before(s, 1));
    }
  }

  lemma BodyStepShape(b: cstring, m: Machine, s: seq<byte>, c: byte)
    requires !InHeaders(m.state) && m.state !in {Preamble, PreambleHyHy} && Shape(b, m, s) && Step(b, m, c).1
    ensures Shape(b, Step(b, m, c).0, s + [c])
  {
    hide InBody, AtHeader, AtBoundary, AtPart, Held, InName, InValue, StepBody, StepBoundary, StepField;
    BeforeLast(s, c);
    match m.state {
      case Body => BodyShape(b, m, s, c);
      case BodyCr => HeldShape(b, m, s, c);
      case BodyCrLf => HeldShape(b, m, s, c);
      case BodyCrLfHy => HeldShape(b, m, s, c);
      case BoundaryStart => BoundaryShape(b, m.(index := 0), s, c);
      case Boundary => BoundaryShape(b, m, s, c);
      case BoundaryDone =>
      case BoundaryDoneCrLf =>
        TwoBehind(s, CR, c);
        NextPart(b, s);
      case BoundaryDoneHyHy =>
        TwoBehind(s, HYPHEN, c);
        LastPart(b, s);
      case Epilogue => ClosedMore(b, s, c);
    }
  }

  lemma ValueStepShape(b: cstring, m: Machine, s: seq<byte>, c: byte)
    requires InValue(b, s) && m.state in {HeaderValueStart, HeaderValue}
    ensures Shape(b, Step(b, m, c).0, s + [c])
  {
    hide InValue, AtHeader;
    if c == CR { BeforeLast(s, c); } else { ValueShape(b, s, c); }
  }

  /** One more byte of a delimiter, or the held bytes become content. */
  lemma HeldShape(b: cstring, m: Machine, s: seq<byte>, c: byte)
    requires m.state in {BodyCr, BodyCrLf, BodyCrLfHy} && Shape(b, m, s)
    ensures Shape(b, Step(b, m, c).0, s + [c])
  {
    hide InBody, Held, StepBody;
    var n := if m.state == BodyCr then 1 else if m.state == BodyCrLf then 2 else 3;
    HeldIsBody(b, s, n);
    assert DELIMITER[..1] == [CR] && DELIMITER[..2] == [CR, LF] && DELIMITER[..3] == [CR, LF, HYPHEN];
    if c == (DELIMITER + b)[n] {
      HeldMore(b, s, n, c);
    } else {
      BodyShape(b, m.Emit(Deliver(Content, DELIMITER[..n])), s, c);
    }
  }

  lemma NextPart(b: cstring, s: seq<byte>)
    requires EndsWith(s, [CR]) && AtBoundary(b, Before(s, 1))
    ensures AtHeader(b, s + [LF])
  {
    hide AtBoundary, AtHeader;
    TwoBehind(s, CR, LF);
    PartStarts(b, s + [LF]);
  }

  lemma LastPart(b: cstring, s: seq<byte>)
    requires EndsWith(s, [HYPHEN]) && AtBoundary(b, Before(s, 1))
    ensures Closed(b, s + [HYPHEN])
  {
    hide AtBoundary;
    TwoBehind(s, HYPHEN, HYPHEN);
    var u := s + [HYPHEN];
    var k := |u| - 2;
    assert u[..k] == Before(s, 1) && u[k..k + 2] == DASHES;
  }

  // ---- Whole runs ----

  /** However far a run gets, what it has accepted has the shape its state says. */
  lemma {:induction false} RunShape(b: cstring, m: Machine, input: seq<byte>, p: nat)
    requires p <= |input| && Shape(b, m, input[..p]) && Run(b, m, input, p).ok
    ensures Shape(b, Run(b, m, input, p).m, input)
    decreases |input| - p
  {
    hide Shape, Step;
    if p < |input| {
      StepShape(b, m, input[..p], input[p]);
      assert input[..p] + [input[p]] == input[..p + 1];
      RunShape(b, Step(b, m, input[p]).0, input, p + 1);
    } else {
      assert input[..p] == input;
    }
  }

  /** Whatever input a new parser accepts to the end of a body is a body: anything up to two hyphens and the
      boundary, parts of header lines, an empty line and some content, a boundary line between any two of them,
      and two hyphens behind the last boundary. */
  lemma AcceptedIsClosed(b: cstring, input: seq<byte>)
    requires var r := Run(b, Machine(Preamble, 0, []), input, 0); r.ok && r.m.state == Epilogue
    ensures Closed(b, input)
  {
    RunShape(b, Machine(Preamble, 0, []), input, 0);
  }
}
