/** The streaming multipart parser, as a loop and as one-byte steps. */
module Multipart {
  import opened CTypes

  const HT: byte := 9
  const LF: byte := 10
  const CR: byte := 13
  const SP: byte := 32
  const HYPHEN: byte := 45
  const COLON: byte := 58

  /** Capacity of the `boundary` array of the parser object. */
  const MAX_BOUNDARY: nat := 70

  datatype State =
    | Preamble | PreambleHyHy | FirstBoundary
    | HeaderFieldStart | HeaderField | HeaderValueStart | HeaderValue | HeaderValueCr | HeadersDone
    | Body | BodyCr | BodyCrLf | BodyCrLfHy
    | BoundaryStart | Boundary | BoundaryDone | BoundaryDoneCrLf | BoundaryDoneHyHy
    | Epilogue

  datatype Signal = BodyBegin | PartBegin | HeadersComplete | PartEnd | BodyEnd
  datatype Kind = Field | Value | Content

  /** One callback: a bare notification, or some bytes of a field, a value or a part's content. */
  datatype Event = Notify(signal: Signal) | Deliver(kind: Kind, data: seq<byte>)

  /** Appends a callback to a trace, joining it to a preceding delivery of the same kind. */
  function Push(trace: seq<Event>, e: Event): seq<Event> {
    if trace != [] && trace[|trace| - 1].Deliver? && e.Deliver? && trace[|trace| - 1].kind == e.kind then
      trace[..|trace| - 1] + [Deliver(e.kind, trace[|trace| - 1].data + e.data)]
    else
      trace + [e]
  }

  /** Appends a log of callbacks to a trace. */
  function PushAll(trace: seq<Event>, log: seq<Event>): seq<Event> {
    if log == [] then trace else Push(PushAll(trace, log[..|log| - 1]), log[|log| - 1])
  }

  /** The trace of a log: its callbacks with adjacent deliveries of one kind joined. */
  function Joined(log: seq<Event>): seq<Event> {
    PushAll([], log)
  }

  lemma PushAllSnoc(trace: seq<Event>, log: seq<Event>, e: Event)
    ensures PushAll(trace, log + [e]) == Push(PushAll(trace, log), e)
  {
    assert (log + [e])[..|log|] == log;
  }

  lemma PushTwice(t: seq<Event>, k: Kind, x: seq<byte>, y: seq<byte>)
    ensures Push(Push(t, Deliver(k, x)), Deliver(k, y)) == Push(t, Deliver(k, x + y))
  {
    var u := Push(t, Deliver(k, x));
    if t != [] && t[|t| - 1].Deliver? && t[|t| - 1].kind == k {
      assert u[..|u| - 1] == t[..|t| - 1];
      assert (t[|t| - 1].data + x) + y == t[|t| - 1].data + (x + y);
    } else {
      assert u[..|u| - 1] == t;
    }
  }

  /** The nonzero entries of the header field table: the characters of an RFC 2616 token. */
  predicate IsToken(c: byte) {
    || c == 33 || 35 <= c <= 39 || c == 42 || c == 43 || c == 45 || c == 46
    || 48 <= c <= 57 || 65 <= c <= 90 || 94 <= c <= 122 || c == 124 || c == 126
  }

  /** The comparison of an input octet (unsigned) with a boundary character (a signed char). */
  predicate Matches(c: byte, b: cchar) {
    c == b && b < 128
  }

  /** What a char makes of an octet, where it is signed. */
  function SignedChar(b: cchar): int {
    if b as int >= 0x80 then b - 0x100 else b
  }

  /** An input octet is compared with the value of a char. */
  lemma MatchesSigned(c: byte, b: cchar)
    ensures Matches(c, b) <==> c == SignedChar(b)
  {}

  /** What the parser remembers between bytes, with the joined trace of its callbacks so far. */
  datatype Machine = Machine(state: State, index: nat, trace: seq<Event>) {
    function Goto(s: State): Machine { this.(state := s) }
    function Emit(e: Event): Machine { this.(trace := Push(trace, e)) }
  }

  predicate WellFormed(b: cstring, m: Machine) {
    && m.index <= |b| + 1
    && (m.state == Boundary ==> m.index <= |b|)
  }

  function StepBody(m: Machine, c: byte): Machine {
    if c == CR then m.Goto(BodyCr) else m.Goto(Body).Emit(Deliver(Content, [c]))
  }

  function StepBoundaryDone(m: Machine, c: byte): (Machine, bool) {
    if c == CR then (m.Goto(BoundaryDoneCrLf), true)
    else if c == HYPHEN then (m.Goto(BoundaryDoneHyHy), true)
    else (m, false)
  }

  function StepBoundary(b: cstring, m: Machine, c: byte): (Machine, bool) {
    if m.index == |b| then
      StepBoundaryDone(m.(index := 0, state := BoundaryDone), c)
    else if m.index < |b| && Matches(c, b[m.index]) then
      (m.(index := m.index + 1, state := Boundary), true)
    else if m.index < |b| then
      (StepBody(m.Emit(Deliver(Content, b[..m.index])), c), true)
    else
      (m, false)
  }

  function StepField(m: Machine, c: byte): (Machine, bool) {
    if IsToken(c) then (m.Goto(HeaderField).Emit(Deliver(Field, [c])), true)
    else if c == COLON then (m.Goto(HeaderValueStart), true)
    else (m.Goto(HeaderField), false)
  }

  function StepValue(m: Machine, c: byte): Machine {
    if c == CR then m.Goto(HeaderValueCr) else m.Goto(HeaderValue).Emit(Deliver(Value, [c]))
  }

  /** What one byte does; the flag is false when the parser rejects the byte. */
  function Step(b: cstring, m: Machine, c: byte): (Machine, bool) {
    match m.state
    case Preamble => (if c == HYPHEN then m.Goto(PreambleHyHy) else m, true)
    case PreambleHyHy => (m.Goto(if c == HYPHEN then FirstBoundary else Preamble), true)
    case FirstBoundary =>
      if m.index == |b| then
        if c == CR then (m.(index := m.index + 1), true) else (m, false)
      else if m.index == |b| + 1 then
        if c == LF then
          (m.Emit(Notify(BodyBegin)).Emit(Notify(PartBegin)).(index := 0, state := HeaderFieldStart), true)
        else (m, false)
      else if m.index < |b| && Matches(c, b[m.index]) then (m.(index := m.index + 1), true)
      else (m, false)
    case HeaderFieldStart =>
      if c == CR then (m.Goto(HeadersDone), true) else StepField(m, c)
    case HeaderField => StepField(m, c)
    case HeaderValueStart =>
      if c == SP || c == HT then (m, true) else (StepValue(m, c), true)
    case HeaderValue => (StepValue(m, c), true)
    case HeaderValueCr => if c == LF then (m.Goto(HeaderFieldStart), true) else (m, false)
    case HeadersDone =>
      if c == LF then (m.Emit(Notify(HeadersComplete)).Goto(Body), true) else (m, false)
    case Body => (StepBody(m, c), true)
    case BodyCr =>
      if c == LF then (m.Goto(BodyCrLf), true) else (StepBody(m.Emit(Deliver(Content, [CR])), c), true)
    case BodyCrLf =>
      if c == HYPHEN then (m.Goto(BodyCrLfHy), true)
      else (StepBody(m.Emit(Deliver(Content, [CR, LF])), c), true)
    case BodyCrLfHy =>
      if c == HYPHEN then (m.Goto(BoundaryStart), true)
      else (StepBody(m.Emit(Deliver(Content, [CR, LF, HYPHEN])), c), true)
    case BoundaryStart => StepBoundary(b, m.(index := 0), c)
    case Boundary => StepBoundary(b, m, c)
    case BoundaryDone => StepBoundaryDone(m, c)
    case BoundaryDoneCrLf =>
      if c == LF then (m.Emit(Notify(PartEnd)).Emit(Notify(PartBegin)).Goto(HeaderFieldStart), true)
      else (m, false)
    case BoundaryDoneHyHy =>
      if c == HYPHEN then (m.Emit(Notify(PartEnd)).Emit(Notify(BodyEnd)).Goto(Epilogue), true)
      else (m, false)
    case Epilogue => (m, true)
  }

  /** The end of a run: the machine, whether every byte was accepted, and the position reached. */
  datatype Outcome = Outcome(m: Machine, ok: bool, pos: nat)

  /** Feeds input[p..] byte by byte. */
  function Run(b: cstring, m: Machine, input: seq<byte>, p: nat): (r: Outcome)
    requires p <= |input|
    ensures p <= r.pos <= |input| && (r.ok <==> r.pos == |input|)
    decreases |input| - p
  {
    if p == |input| then Outcome(m, true, p)
    else
      var (m', ok) := Step(b, m, input[p]);
      if ok then Run(b, m', input, p + 1) else Outcome(m', false, p)
  }

  lemma RunStep(b: cstring, m: Machine, input: seq<byte>, p: nat)
    requires p < |input|
    ensures var (m', ok) := Step(b, m, input[p]);
            Run(b, m, input, p) == if ok then Run(b, m', input, p + 1) else Outcome(m', false, p)
  {}

  lemma StepWellFormed(b: cstring, m: Machine, c: byte)
    requires WellFormed(b, m)
    ensures WellFormed(b, Step(b, m, c).0)
  {}

  lemma {:induction false} RunWellFormed(b: cstring, m: Machine, input: seq<byte>, p: nat)
    requires p <= |input| && WellFormed(b, m)
    ensures WellFormed(b, Run(b, m, input, p).m)
    decreases |input| - p
  {
    if p < |input| {
      StepWellFormed(b, m, input[p]);
      RunWellFormed(b, Step(b, m, input[p]).0, input, p + 1);
    }
  }

  /** The state in which each kind of data is scanned, and the bytes the scan passes over. */
  function ScanState(kind: Kind): State {
    match kind
    case Field => HeaderField
    case Value => HeaderValue
    case Content => Body
  }

  predicate Passes(kind: Kind, c: byte) {
    if kind == Field then IsToken(c) else c != CR
  }

  lemma StepPasses(b: cstring, m: Machine, kind: Kind, c: byte)
    requires m.state == ScanState(kind) && Passes(kind, c)
    ensures Step(b, m, c) == (m.Emit(Deliver(kind, [c])), true)
  {}

  /** A scan that delivers input[i..j] in one callback does what its bytes do one at a time. */
  lemma {:induction false} ScanRefinesSteps(b: cstring, m: Machine, kind: Kind, input: seq<byte>, i: nat, j: nat)
    requires i < j <= |input| && m.state == ScanState(kind)
    requires forall k :: i <= k < j ==> Passes(kind, input[k])
    ensures Run(b, m, input, i) == Run(b, m.Emit(Deliver(kind, input[i..j])), input, j)
    decreases j
  {
    hide Step, Push;
    var c := input[j - 1];
    if j == i + 1 {
      StepPasses(b, m, kind, c);
      assert input[i..j] == [c];
    } else {
      var m' := m.Emit(Deliver(kind, input[i..j - 1]));
      ScanRefinesSteps(b, m, kind, input, i, j - 1);
      StepPasses(b, m', kind, c);
      PushTwice(m.trace, kind, input[i..j - 1], [c]);
      assert input[i..j - 1] + [c] == input[i..j];
      assert m'.Emit(Deliver(kind, [c])) == m.Emit(Deliver(kind, input[i..j]));
    }
  }

  /** The parser object together with the log of the callbacks it has made. */
  class Parser {
    var boundary: cstring
    var index: nat
    var state: State
    var log: seq<Event>

    ghost function View(): Machine
      reads this
    {
      Machine(state, index, Joined(log))
    }

    ghost predicate Valid()
      reads this
    {
      |boundary| <= MAX_BOUNDARY && WellFormed(boundary, View())
    }

    /** multipartparser_init: at most 70 characters of the boundary are kept. */
    constructor (b: cstring)
      ensures Valid() && log == []
      ensures boundary == if |b| <= 70 then b else b[..70]
      ensures View() == Machine(Preamble, 0, [])
    {
      boundary := if |b| <= MAX_BOUNDARY then b else b[..MAX_BOUNDARY];
      index, state, log := 0, Preamble, [];
    }

    method Call(e: Event)
      modifies `log
      ensures log == old(log) + [e]
      ensures View() == old(View()).Emit(e)
    {
      PushAllSnoc([], log, e);
      log := log + [e];
    }

    /** The inner scan shared by header fields, header values and content. */
    method Scan(kind: Kind, data: seq<byte>, mark: nat) returns (p: nat)
      requires mark < |data|
      modifies `log
      ensures mark <= p <= |data|
      ensures forall k :: mark <= k < p ==> Passes(kind, data[k])
      ensures p < |data| ==> !Passes(kind, data[p])
      ensures View() == if p == mark then old(View()) else old(View()).Emit(Deliver(kind, data[mark..p]))
    {
      p := mark;
      while p != |data| && Passes(kind, data[p])
        invariant mark <= p <= |data|
        invariant forall k :: mark <= k < p ==> Passes(kind, data[k])
      {
        p := p + 1;
      }
      if p > mark {
        Call(Deliver(kind, data[mark..p]));
      }
    }

    /** `goto reexecute` is taken at most twice: into the content state or past a boundary. */
    ghost function Rank(): nat
      reads this
    {
      if state in {Body, BoundaryDone} then 0 else 1
    }

    /** Where a run from the byte at start stands after the switch: at the byte after p, or at the
        end, or rejected at p. */
    ghost predicate Advanced(m: Machine, data: seq<byte>, start: nat, p: nat, ok: bool)
      reads this
      requires start < |data|
    {
      && start <= p <= |data| && (!ok ==> p < |data|)
      && Run(boundary, m, data, start) ==
         if ok then Run(boundary, View(), data, if p < |data| then p + 1 else p) else Outcome(View(), false, p)
    }

    /** One pass of the switch on data[start], with its scans. */
    method Switch(data: seq<byte>, start: nat) returns (p: nat, ok: bool, again: bool)
      requires Valid() && start < |data|
      modifies `log, `state, `index
      ensures Valid()
      ensures again ==> ok && p == start && Rank() < old(Rank()) &&
                        Step(boundary, View(), data[start]) == Step(boundary, old(View()), data[start])
      ensures !again ==> Advanced(old(View()), data, start, p, ok)
    {
      hide Run, Push, Joined;
      RunStep(boundary, View(), data, start);
      p, ok, again := start, true, false;
      var c := data[p];
      if state == HeaderFieldStart {
        if c == CR { state := HeadersDone; } else { p, ok := ScanField(data, p); }
      } else if state == HeaderField {
        p, ok := ScanField(data, p);
      } else if state == HeaderValueStart {
        if c != SP && c != HT { p := ScanUntilCr(data, p, Value); }
      } else if state == HeaderValue {
        p := ScanUntilCr(data, p, Value);
      } else if state == Body {
        p := ScanUntilCr(data, p, Content);
      } else if state in {BodyCr, BodyCrLf, BodyCrLfHy, BoundaryStart, Boundary} {
        again := SwitchHeld(c);
      } else {
        ok := SwitchOnly(c);
      }
    }

    /** The states inside a possible delimiter, which may ask for the byte to be executed again. */
    method SwitchHeld(c: byte) returns (again: bool)
      requires Valid() && state in {BodyCr, BodyCrLf, BodyCrLfHy, BoundaryStart, Boundary}
      modifies `log, `state, `index
      ensures Valid()
      ensures again ==> Rank() < old(Rank()) && Step(boundary, View(), c) == Step(boundary, old(View()), c)
      ensures !again ==> Step(boundary, old(View()), c) == (View(), true)
    {
      hide Push, Joined;
      match state {
        case BodyCr =>
          again := Advance(c, LF, BodyCrLf, [CR]);
        case BodyCrLf =>
          again := Advance(c, HYPHEN, BodyCrLfHy, [CR, LF]);
        case BodyCrLfHy =>
          again := Advance(c, HYPHEN, BoundaryStart, [CR, LF, HYPHEN]);
        case BoundaryStart =>
          index, state := 0, Boundary;
          again := MatchBoundary(c);
        case Boundary =>
          again := MatchBoundary(c);
      }
    }

    /** The states that neither scan nor execute a byte again. */
    method SwitchOnly(c: byte) returns (ok: bool)
      requires Valid()
      requires state !in {HeaderFieldStart, HeaderField, HeaderValueStart, HeaderValue}
      requires state !in {Body, BodyCr, BodyCrLf, BodyCrLfHy, BoundaryStart, Boundary}
      modifies `log, `state, `index
      ensures Valid() && Step(boundary, old(View()), c) == (View(), ok)
    {
      hide Push, Joined;
      ok := true;
      match state {
        case Preamble =>
          if c == HYPHEN { state := PreambleHyHy; }
        case PreambleHyHy =>
          state := if c == HYPHEN then FirstBoundary else Preamble;
        case FirstBoundary =>
          if index == |boundary| {
            if c != CR { return false; }
            index := index + 1;
          } else if index == |boundary| + 1 {
            if c != LF { return false; }
            Call(Notify(BodyBegin));
            Call(Notify(PartBegin));
            index, state := 0, HeaderFieldStart;
          } else if Matches(c, boundary[index]) {
            index := index + 1;
          } else {
            return false;
          }
        case HeaderValueCr =>
          if c != LF { return false; }
          state := HeaderFieldStart;
        case HeadersDone =>
          if c != LF { return false; }
          Call(Notify(HeadersComplete));
          state := Body;
        case BoundaryDone =>
          if c == CR {
            state := BoundaryDoneCrLf;
          } else if c == HYPHEN {
            state := BoundaryDoneHyHy;
          } else {
            return false;
          }
        case BoundaryDoneCrLf =>
          if c != LF { return false; }
          Call(Notify(PartEnd));
          Call(Notify(PartBegin));
          state := HeaderFieldStart;
        case BoundaryDoneHyHy =>
          if c != HYPHEN { return false; }
          Call(Notify(PartEnd));
          Call(Notify(BodyEnd));
          state := Epilogue;
        case Epilogue =>
      }
    }

    /** The three states inside a possible delimiter: on any other byte than the expected one they
        deliver what they held back and ask for the byte to be executed again as content. */
    method Advance(c: byte, expected: byte, next: State, held: seq<byte>) returns (again: bool)
      requires Valid() && next != Boundary
      modifies `log, `state
      ensures Valid() && again == (c != expected)
      ensures View() == if again then old(View()).Emit(Deliver(Content, held)).Goto(Body) else old(View()).Goto(next)
    {
      hide Push, Joined;
      again := c != expected;
      if again {
        Call(Deliver(Content, held));
        state := Body;
      } else {
        state := next;
      }
    }

    /** The boundary state: true asks for the byte to be executed again in the new state. */
    method MatchBoundary(c: byte) returns (again: bool)
      requires Valid() && state == Boundary
      modifies `log, `state, `index
      ensures Valid()
      ensures again ==> state in {Body, BoundaryDone}
      ensures StepBoundary(boundary, old(View()), c) ==
              if !again then (View(), true)
              else if state == Body then (StepBody(View(), c), true)
              else StepBoundaryDone(View(), c)
    {
      hide Push, Joined;
      again := true;
      if index == |boundary| {
        index, state := 0, BoundaryDone;
      } else if Matches(c, boundary[index]) {
        index, again := index + 1, false;
      } else {
        Call(Deliver(Content, boundary[..index]));
        state := Body;
      }
    }

    /** The header field state, also fallen into from its start: scan the token, then demand a
        colon unless the input ran out. */
    method ScanField(data: seq<byte>, mark: nat) returns (p: nat, ok: bool)
      requires mark < |data|
      requires state == HeaderField || (state == HeaderFieldStart && data[mark] != CR)
      modifies `log, `state
      ensures state != Boundary && Advanced(old(View()), data, mark, p, ok)
    {
      hide Push, Joined;
      RunStep(boundary, View(), data, mark);
      state := HeaderField;
      RunStep(boundary, View(), data, mark);
      ghost var m := View();
      p := Scan(Field, data, mark);
      if p > mark {
        ScanRefinesSteps(boundary, m, Field, data, mark, p);
      }
      ok := true;
      if p < |data| {
        if data[p] == COLON { state := HeaderValueStart; } else { ok := false; }
      }
    }

    /** The header value state, also fallen into from its start, and the content state: scan up to
        a carriage return. */
    method ScanUntilCr(data: seq<byte>, mark: nat, kind: Kind) returns (p: nat)
      requires mark < |data| && kind != Field
      requires state == ScanState(kind) || (kind == Value && state == HeaderValueStart && data[mark] !in {SP, HT})
      modifies `log, `state
      ensures state != Boundary && Advanced(old(View()), data, mark, p, true)
    {
      hide Push, Joined;
      RunStep(boundary, View(), data, mark);
      state := ScanState(kind);
      RunStep(boundary, View(), data, mark);
      ghost var m := View();
      p := Scan(kind, data, mark);
      if p > mark {
        ScanRefinesSteps(boundary, m, kind, data, mark, p);
      }
      if p < |data| {
        state := if kind == Value then HeaderValueCr else BodyCr;
      }
    }

    /** The switch on data[start], executed again as often as it asks for it. */
    method Reswitch(data: seq<byte>, start: nat) returns (p: nat, ok: bool)
      requires Valid() && start < |data|
      modifies `log, `state, `index
      ensures Valid() && Advanced(old(View()), data, start, p, ok)
    {
      hide Run, Step;
      ghost var m := View();
      RunStep(boundary, m, data, start);
      p, ok := start, true;
      var again := true;
      while again
        invariant Valid()
        invariant again ==> Step(boundary, View(), data[start]) == Step(boundary, m, data[start])
        invariant !again ==> Advanced(m, data, start, p, ok)
        decreases again, Rank()
      {
        RunStep(boundary, View(), data, start);
        p, ok, again := Switch(data, start);
      }
    }

    /** multipartparser_execute: the number of bytes accepted, all of them unless one was rejected. */
    method Execute(data: seq<byte>) returns (consumed: nat)
      requires Valid()
      modifies `log, `state, `index
      ensures Valid()
      ensures var r := Run(boundary, old(View()), data, 0);
              View() == r.m && consumed == r.pos && (consumed == |data| <==> r.ok)
    {
      ghost var goal := Run(boundary, View(), data, 0);
      var p := 0;
      while p < |data|
        invariant 0 <= p <= |data| && Valid()
        invariant Run(boundary, View(), data, p) == goal
      {
        var q, ok := Reswitch(data, p);
        if !ok {
          return q;
        }
        p := if q < |data| then q + 1 else q;
      }
      consumed := |data|;
    }
  }

  /** Feeds the chunks in turn, stopping at the first that is not accepted entirely. */
  function Feed(b: cstring, m: Machine, chunks: seq<seq<byte>>): Outcome
    decreases |chunks|
  {
    if chunks == [] then Outcome(m, true, 0)
    else
      var r := Run(b, m, chunks[0], 0);
      if !r.ok then r
      else
        var rest := Feed(b, r.m, chunks[1..]);
        rest.(pos := |chunks[0]| + rest.pos)
  }

  function Concat(chunks: seq<seq<byte>>): seq<byte> {
    if chunks == [] then [] else chunks[0] + Concat(chunks[1..])
  }

  lemma {:induction false} RunSuffix(b: cstring, m: Machine, x: seq<byte>, y: seq<byte>, q: nat)
    requires q <= |y|
    ensures var r := Run(b, m, y, q);
            Run(b, m, x + y, |x| + q) == r.(pos := |x| + r.pos)
    decreases |y| - q
  {
    hide Step, Push;
    if q < |y| {
      assert (x + y)[|x| + q] == y[q];
      RunSuffix(b, Step(b, m, y[q]).0, x, y, q + 1);
    }
  }

  lemma {:induction false} RunAppend(b: cstring, m: Machine, x: seq<byte>, y: seq<byte>, p: nat)
    requires p <= |x|
    ensures var r := Run(b, m, x, p);
            Run(b, m, x + y, p) == if r.ok then Run(b, r.m, x + y, |x|) else r
    decreases |x| - p
  {
    hide Step, Push;
    if p < |x| {
      assert (x + y)[p] == x[p];
      RunAppend(b, Step(b, m, x[p]).0, x, y, p + 1);
    }
  }

  /** However a body is cut into chunks, the parser ends in the same state, with the same joined
      trace and the same number of accepted bytes. */
  lemma {:induction false} ChunkingInvisible(b: cstring, m: Machine, chunks: seq<seq<byte>>)
    ensures Feed(b, m, chunks) == Run(b, m, Concat(chunks), 0)
    decreases |chunks|
  {
    hide Step, Push;
    if chunks != [] {
      var x, y := chunks[0], Concat(chunks[1..]);
      var r := Run(b, m, x, 0);
      RunAppend(b, m, x, y, 0);
      if r.ok {
        ChunkingInvisible(b, r.m, chunks[1..]);
        RunSuffix(b, r.m, x, y, 0);
      }
    }
  }
}
