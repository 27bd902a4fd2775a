/**
 * The incremental request parser (httpfromtcp/internal/request/request.go). A request moves
 * through four states: it reads the request line, then header lines until an empty one, then
 * body bytes until the reader reports end of input. `parse` consumes only whole CR LF
 * terminated lines and reports how many bytes it consumed, so that `RequestFromReader` can
 * drop them from its 4096-byte buffer and read more.
 *
 * The pure functions below (the three step functions and `Run`) are the specification; the
 * class `Request` performs the same steps by updating its fields, and its methods are proved
 * equal to these functions.
 */
module Requests {
  import opened Wrappers
  import opened GoText
  import opened HeaderFields
  import opened RequestLines

  const BufferSize: nat := 4096
  const CRLFBytes: nat := 2
  const ContentLengthKey: string := "Content-Length"
  const LineEnd: seq<byte> := "\r\n"

  datatype State = ReadingRequestLine | ReadingHeaders | ReadingBody | Done

  /** The position of a state in the order the parser moves through them. */
  function Rank(s: State): nat
  {
    match s
    case ReadingRequestLine => 0
    case ReadingHeaders => 1
    case ReadingBody => 2
    case Done => 3
  }

  /** The states in which only whole lines are consumed. */
  predicate InLinePhase(s: State)
  {
    s == ReadingRequestLine || s == ReadingHeaders
  }

  /** A Content-Length header, when present, holds an integer. */
  predicate ContentLengthOk(headers: map<string, string>)
  {
    ContentLengthKey !in headers || Atoi(headers[ContentLengthKey]).Some?
  }

  /** Why parsing a request fails. */
  datatype ParseError =
    | LineError(lineError: RequestLineError)
    | FieldLineError(fieldError: HeaderError)
    | BadContentLength    // the Content-Length value is not an integer
    | BodyLengthMismatch  // at end of input the body length differs from Content-Length

  /** The parser's state as values: the fields of a Request. */
  datatype Machine = Machine(state: State, line: RequestLineFields, headers: map<string, string>, body: seq<byte>)

  /** A fresh request: reading the request line, empty fields, no headers, no body. */
  function Init(): (m: Machine)
    ensures m.state == ReadingRequestLine && InLinePhase(m.state)
    ensures m.line == RequestLineFields("", "", "") && m.headers == map[] && m.body == []
  {
    Machine(ReadingRequestLine, RequestLineFields("", "", ""), map[], [])
  }

  /** The machine after a step or a run, the bytes consumed and the error, if any. */
  datatype Outcome = Outcome(m: Machine, consumed: nat, err: Option<ParseError>)

  /** The bytes of a line end, or a run, consumed in front of another run's. */
  function Shift(r: Outcome, k: nat): (s: Outcome)
    ensures s.m == r.m && s.err == r.err
    ensures s.consumed == if r.err.None? then r.consumed + k else r.consumed
  {
    if r.err.None? then r.(consumed := r.consumed + k) else r
  }

  // ---------------------------------------------------------------------------
  // findNextCRLF and the three steps
  // ---------------------------------------------------------------------------

  /**
   * findNextCRLF: the position just past the first CR LF at or after `start`, or None.
   * A bare LF never ends a line.
   */
  function FindNextCRLF(data: seq<byte>, start: nat): (r: Option<nat>)
    requires start <= |data|
    ensures r.Some? ==> start + CRLFBytes <= r.value <= |data| && CRLFAt(data, r.value - CRLFBytes)
    ensures r.Some? ==> forall j :: start <= j < r.value - CRLFBytes ==> !CRLFAt(data, j)
  {
    match IndexCRLF(data[start..])
    case None => None
    case Some(i) =>
      assert forall j :: start <= j < start + i ==> !CRLFAt(data, j) by {
        forall j | start <= j < start + i ensures !CRLFAt(data, j) {
          assert !CRLFAt(data[start..], j - start);
        }
      }
      assert CRLFAt(data[start..], i);
      Some(start + i + CRLFBytes)
  }

  /** The line in front of the first CR LF, without it. */
  function LineBefore(data: seq<byte>, lineEnd: nat): seq<byte>
    requires CRLFBytes <= lineEnd <= |data|
  {
    data[..lineEnd - CRLFBytes]
  }

  /**
   * parseRequestLine: with no complete line nothing changes; otherwise the line is parsed
   * and, when valid, stored, the state moves to ReadingHeaders and the line and its CR LF
   * are consumed.
   */
  function RequestLineStep(m: Machine, data: seq<byte>): (r: Outcome)
    ensures r.consumed <= |data| && (r.err.Some? ==> r.consumed == 0)
    ensures r.consumed == 0 && r.err.None? ==> r.m == m
    ensures r.consumed > 0 ==> r.m.state == ReadingHeaders && r.m.headers == m.headers && r.m.body == m.body
  {
    match FindNextCRLF(data, 0)
    case None => Outcome(m, 0, None)
    case Some(lineEnd) =>
      match ParseRequestLine(LineBefore(data, lineEnd))
      case Err(e) => Outcome(m, 0, Some(LineError(e)))
      case Ok(fields) => Outcome(m.(state := ReadingHeaders, line := fields), lineEnd, None)
  }

  /**
   * parseHeader: with no complete line nothing changes; an empty line moves the state to
   * ReadingBody; any other line is parsed and its field recorded.
   */
  function HeaderStep(m: Machine, data: seq<byte>): (r: Outcome)
    ensures r.consumed <= |data| && (r.err.Some? ==> r.consumed == 0)
    ensures r.consumed == 0 && r.err.None? ==> r.m == m
    ensures r.m.line == m.line && r.m.body == m.body
    ensures r.consumed > 0 ==> r.m.state == ReadingBody || r.m.state == m.state
  {
    match FindNextCRLF(data, 0)
    case None => Outcome(m, 0, None)
    case Some(lineEnd) =>
      var line := LineBefore(data, lineEnd);
      if |line| == 0 then Outcome(m.(state := ReadingBody), lineEnd, None)
      else
        match ParseFieldLine(line)
        case Err(e) => Outcome(m, 0, Some(FieldLineError(e)))
        case Ok((name, value)) => Outcome(m.(headers := Combine(m.headers, name, value)), lineEnd, None)
  }

  /**
   * parseBody: appends every available byte to the body and, on the last chunk, moves to
   * Done. When a Content-Length header is present it must parse as an integer, and on the
   * last chunk the body length must equal it.
   */
  function BodyStep(m: Machine, data: seq<byte>, isLast: bool): (r: Outcome)
    ensures r.m == m.(body := m.body + data, state := if isLast then Done else m.state)
    ensures r.err.None? ==> r.consumed == |data|
    ensures r.err.Some? ==> r.consumed == 0
    ensures r.err == Some(BadContentLength) <==>
      ContentLengthKey in m.headers && Atoi(m.headers[ContentLengthKey]).None?
    ensures r.err == Some(BodyLengthMismatch) <==>
      ContentLengthKey in m.headers && Atoi(m.headers[ContentLengthKey]).Some? &&
      isLast && |m.body| + |data| != Atoi(m.headers[ContentLengthKey]).value
    ensures r.err == None || r.err == Some(BadContentLength) || r.err == Some(BodyLengthMismatch)
  {
    var m1 := m.(body := m.body + data, state := if isLast then Done else m.state);
    if ContentLengthKey !in m1.headers then Outcome(m1, |data|, None)
    else
      match Atoi(m1.headers[ContentLengthKey])
      case None => Outcome(m1, 0, Some(BadContentLength))
      case Some(contentLength) =>
        if isLast && |m1.body| != contentLength then Outcome(m1, 0, Some(BodyLengthMismatch))
        else Outcome(m1, |data|, None)
  }

  /** One turn of parse's loop: the step the current state selects. */
  function StepOnce(m: Machine, data: seq<byte>, isLast: bool): (r: Outcome)
    requires m.state != Done
    ensures r.consumed <= |data| && (r.err.Some? ==> r.consumed == 0)
    ensures Rank(m.state) <= Rank(r.m.state)
    ensures r.m.state == Done ==> isLast
    ensures r.consumed == 0 && r.err.None? && InLinePhase(m.state) ==> r.m == m
    ensures r.err.None? && !InLinePhase(m.state) ==> r.consumed == |data|
    ensures m.state == ReadingBody ==> r.m.state == (if isLast then Done else ReadingBody)
    ensures m.state == ReadingBody ==> r.m.headers == m.headers
    ensures m.state == ReadingBody && r.err.None? ==> ContentLengthOk(m.headers)
  {
    match m.state
    case ReadingRequestLine => RequestLineStep(m, data)
    case ReadingHeaders => HeaderStep(m, data)
    case ReadingBody => BodyStep(m, data, isLast)
  }

  /**
   * parse: steps until the request is Done, a step fails or a step consumes nothing. The
   * result counts the bytes consumed by all steps; a failure reports zero bytes.
   */
  function Run(m: Machine, data: seq<byte>, isLast: bool): (r: Outcome)
    ensures r.consumed <= |data| && (r.err.Some? ==> r.consumed == 0)
    ensures Rank(m.state) <= Rank(r.m.state)
    ensures r.m.state == Done ==> isLast || m.state == Done
    ensures r.err.None? && m.state != Done && !InLinePhase(r.m.state) ==> r.consumed == |data|
    ensures r.err.None? && m.state != Done && !InLinePhase(r.m.state) ==> ContentLengthOk(r.m.headers)
    ensures r.err.None? && r.m.state == ReadingBody ==> !isLast
    decreases |data|
  {
    if m.state == Done then Outcome(m, 0, None)
    else
      var st := StepOnce(m, data, isLast);
      if st.err.Some? then Outcome(st.m, 0, st.err)
      else if st.consumed == 0 then Outcome(st.m, 0, None)
      else Shift(Run(st.m, data[st.consumed..], isLast), st.consumed)
  }

  /** The outcome of parsing a whole input that ends with the reader's end of input. */
  function Final(input: seq<byte>): Outcome
  {
    Run(Init(), input, true)
  }

  // ---------------------------------------------------------------------------
  // Properties of parse
  // ---------------------------------------------------------------------------

  /** In the body phase a run is one body step: all the bytes are appended at once. */
  lemma RunBody(m: Machine, data: seq<byte>, isLast: bool)
    requires m.state == ReadingBody
    ensures Run(m, data, isLast) == BodyStep(m, data, isLast)
  {
    var st := BodyStep(m, data, isLast);
    if st.err.None? && st.consumed > 0 {
      assert data[st.consumed..] == [];
      if !isLast {
        assert st.m.body + [] == st.m.body;
        assert BodyStep(st.m, [], false) == Outcome(st.m, 0, None);
      }
      assert Run(st.m, [], isLast) == Outcome(st.m, 0, None);
    }
  }

  /** findNextCRLF finds no line end exactly when no CR LF starts at or after `start`. */
  lemma FindNextCRLFNone(data: seq<byte>, start: nat)
    requires start <= |data|
    ensures FindNextCRLF(data, start).None? <==> !HasCRLF(data[start..])
  {
  }

  /** A step in a line phase does something exactly when the data holds a complete line. */
  lemma LineStepNeedsCRLF(m: Machine, data: seq<byte>, isLast: bool)
    requires InLinePhase(m.state)
    ensures HasCRLF(data) <==> StepOnce(m, data, isLast) != Outcome(m, 0, None)
  {
    FindNextCRLFNone(data, 0);
    assert data[0..] == data;
  }

  /** A run that ends in a line phase without failure leaves no complete line unconsumed. */
  lemma {:induction false} RunLeavesNoLine(m: Machine, data: seq<byte>, isLast: bool)
    ensures Run(m, data, isLast).err.None? && InLinePhase(Run(m, data, isLast).m.state) ==>
      !HasCRLF(data[Run(m, data, isLast).consumed..])
    decreases |data|
  {
    var r := Run(m, data, isLast);
    if m.state != Done && r.err.None? && InLinePhase(r.m.state) {
      var st := StepOnce(m, data, isLast);
      if st.consumed == 0 {
        LineStepNeedsCRLF(m, data, isLast);
        assert data[0..] == data;
      } else {
        var c := st.consumed;
        RunLeavesNoLine(st.m, data[c..], isLast);
        SliceFacts(data, [], c, Run(st.m, data[c..], isLast).consumed);
      }
    }
  }

  /** Once a line phase finds a complete line, bytes after it do not change the step. */
  lemma StepPrefix(m: Machine, a: seq<byte>, b: seq<byte>, isLast1: bool, isLast2: bool)
    requires InLinePhase(m.state) && HasCRLF(a)
    ensures StepOnce(m, a + b, isLast2) == StepOnce(m, a, isLast1)
  {
    assert a[0..] == a && (a + b)[0..] == a + b;
    IndexCRLFPrefix(a, b);
    var e := FindNextCRLF(a, 0).value;
    assert LineBefore(a + b, e) == LineBefore(a, e);
  }

  /** Compose in the body phase, where each run is one body step. */
  lemma ComposeBody(m: Machine, a: seq<byte>, b: seq<byte>, isLast: bool)
    requires m.state == ReadingBody && Run(m, a, false).err.None?
    ensures Run(m, a + b, isLast) ==
      Shift(Run(Run(m, a, false).m, a[Run(m, a, false).consumed..] + b, isLast), Run(m, a, false).consumed)
  {
    var r1 := Run(m, a, false);
    RunBody(m, a, false);
    RunBody(m, a + b, isLast);
    assert a[|a|..] + b == b;
    RunBody(r1.m, b, isLast);
    assert r1.m.body + b == m.body + (a + b);
  }

  /**
   * Feeding input in two pieces gives what feeding it whole gives: when parsing `a` (not
   * the last chunk) fails nowhere, parsing `a + b` equals parsing `a`, then parsing what `a`
   * left unconsumed followed by `b`, with the two consumed counts added.
   */
  lemma {:induction false} Compose(m: Machine, a: seq<byte>, b: seq<byte>, isLast: bool)
    requires Run(m, a, false).err.None?
    ensures Run(m, a + b, isLast) ==
      Shift(Run(Run(m, a, false).m, a[Run(m, a, false).consumed..] + b, isLast), Run(m, a, false).consumed)
    decreases |a|
  {
    if m.state == Done {
      assert a[0..] == a;
    } else if m.state == ReadingBody {
      ComposeBody(m, a, b, isLast);
    } else if StepOnce(m, a, false).consumed == 0 {
      assert a[0..] == a;
    } else {
      var c := StepOnce(m, a, false).consumed;
      Compose(StepOnce(m, a, false).m, a[c..], b, isLast);
      ComposeLine(m, a, b, isLast);
    }
  }

  /** A run whose first step consumes bytes without failing continues on what that step left. */
  lemma RunStep(m: Machine, data: seq<byte>, isLast: bool)
    requires m.state != Done && StepOnce(m, data, isLast).err.None? && StepOnce(m, data, isLast).consumed > 0
    ensures Run(m, data, isLast) ==
      Shift(Run(StepOnce(m, data, isLast).m, data[StepOnce(m, data, isLast).consumed..], isLast), StepOnce(m, data, isLast).consumed)
  {
  }

  lemma SliceFacts(a: seq<byte>, b: seq<byte>, c: nat, d: nat)
    requires c + d <= |a|
    ensures (a + b)[c..] == a[c..] + b && a[c..][d..] == a[d + c..]
  {
  }

  /** What a run leaves of `a` after a step and the rest of the run, followed by `b`. */
  lemma SameRest(a: seq<byte>, b: seq<byte>, c: nat, d: nat, e: nat)
    requires e == d + c && e <= |a|
    ensures a[e..] + b == a[c..][d..] + b
  {
  }

  /** The step of Compose for a line phase whose first step consumes a line. */
  lemma ComposeLine(m: Machine, a: seq<byte>, b: seq<byte>, isLast: bool)
    requires InLinePhase(m.state) && Run(m, a, false).err.None?
    requires StepOnce(m, a, false).consumed > 0
    requires var st := StepOnce(m, a, false); var r2 := Run(st.m, a[st.consumed..], false);
      Run(st.m, a[st.consumed..] + b, isLast) == Shift(Run(r2.m, a[st.consumed..][r2.consumed..] + b, isLast), r2.consumed)
    ensures Run(m, a + b, isLast) ==
      Shift(Run(Run(m, a, false).m, a[Run(m, a, false).consumed..] + b, isLast), Run(m, a, false).consumed)
  {
    var st := StepOnce(m, a, false);
    var c := st.consumed;
    var r2 := Run(st.m, a[c..], false);
    SliceFacts(a, b, c, r2.consumed);
    assert Run(m, a, false) == Shift(r2, c) by {
      RunStep(m, a, false);
    }
    assert Run(m, a + b, isLast) == Shift(Run(st.m, a[c..] + b, isLast), c) by {
      LineStepNeedsCRLF(m, a, false);
      StepPrefix(m, a, b, false, isLast);
      RunStep(m, a + b, isLast);
    }
    var r1 := Run(m, a, false);
    assert r1.m == r2.m && r1.consumed == r2.consumed + c;
    SameRest(a, b, c, r2.consumed, r1.consumed);
    ShiftTwice(Run(r2.m, a[c..][r2.consumed..] + b, isLast), r2.consumed, c);
  }

  /**
   * One turn of parse's loop in terms of Run, after `k` bytes: when the step of the current
   * state consumes bytes without failing, the run continues after them.
   */
  lemma RunAdvance(m0: Machine, data: seq<byte>, isLast: bool, m: Machine, k: nat, st: Outcome, m2: Machine, k2: nat)
    requires k <= |data| && m.state != Done
    requires Run(m0, data, isLast) == Shift(Run(m, data[k..], isLast), k)
    requires st == StepOnce(m, data[k..], isLast) && st.err.None? && st.consumed > 0
    requires m2 == st.m && k2 == k + st.consumed
    ensures k2 <= |data| && Run(m0, data, isLast) == Shift(Run(m2, data[k2..], isLast), k2)
  {
    var c := st.consumed;
    var x := Run(m2, data[k2..], isLast);
    assert Run(m, data[k..], isLast) == Shift(x, c) by {
      assert data[k..][c..] == data[k2..];
      RunStep(m, data[k..], isLast);
    }
    ShiftTwice(x, c, k);
  }

  /**
   * The other turns: a step that fails makes the whole run fail the same way, with nothing
   * consumed; a step that consumes nothing ends the run after `k` bytes.
   */
  lemma RunStops(m0: Machine, data: seq<byte>, isLast: bool, m: Machine, k: nat, st: Outcome)
    requires k <= |data| && m.state != Done
    requires Run(m0, data, isLast) == Shift(Run(m, data[k..], isLast), k)
    requires st == StepOnce(m, data[k..], isLast) && (st.err.Some? || st.consumed == 0)
    ensures Run(m0, data, isLast) == if st.err.Some? then Outcome(st.m, 0, st.err) else Outcome(st.m, k, None)
  {
  }

  lemma ShiftTwice(r: Outcome, p: nat, c: nat)
    ensures Shift(Shift(r, p), c) == Shift(r, c + p)
  {
  }

  /** A failure found before the last chunk is the failure of any longer input, last or not. */
  lemma {:induction false} ErrorPersists(m: Machine, a: seq<byte>, b: seq<byte>, isLast: bool)
    requires Run(m, a, false).err.Some?
    ensures Run(m, a + b, isLast).err == Run(m, a, false).err
    decreases |a|
  {
    if m.state == ReadingBody {
      RunBody(m, a, false);
      RunBody(m, a + b, isLast);
    } else if InLinePhase(m.state) {
      var st := StepOnce(m, a, false);
      LineStepNeedsCRLF(m, a, false);
      StepPrefix(m, a, b, false, isLast);
      if st.err.None? && st.consumed > 0 {
        var c := st.consumed;
        SliceFacts(a, b, c, 0);
        ErrorPersists(st.m, a[c..], b, isLast);
      }
    }
  }

  /**
   * A run that ends without failure short of Done has consumed all it can: parsing the
   * unconsumed rest again with the same flag changes nothing and consumes nothing.
   */
  lemma RunIdle(m: Machine, data: seq<byte>, isLast: bool)
    requires Run(m, data, isLast).err.None? && Run(m, data, isLast).m.state != Done
    ensures Run(Run(m, data, isLast).m, data[Run(m, data, isLast).consumed..], isLast) ==
      Outcome(Run(m, data, isLast).m, 0, None)
  {
    var r := Run(m, data, isLast);
    if r.m.state == ReadingBody {
      assert data[r.consumed..] == [];
      RunBody(r.m, [], isLast);
      assert r.m.body + [] == r.m.body;
    } else {
      RunLeavesNoLine(m, data, isLast);
      LineStepNeedsCRLF(r.m, data[r.consumed..], isLast);
    }
  }

  /** A complete request line: parsed and stored, or the reason it is refused. */
  lemma RunRequestLine(m: Machine, line: seq<byte>, rest: seq<byte>, isLast: bool)
    requires m.state == ReadingRequestLine && !HasCRLF(line)
    ensures Run(m, line + LineEnd + rest, isLast) ==
      if ParseRequestLine(line).Err? then Outcome(m, 0, Some(LineError(ParseRequestLine(line).error)))
      else Shift(Run(m.(state := ReadingHeaders, line := ParseRequestLine(line).value), rest, isLast), |line| + CRLFBytes)
  {
    var data := line + LineEnd + rest;
    IndexCRLFAfterLine(line, rest);
    assert data[0..] == data;
    assert LineBefore(data, |line| + CRLFBytes) == line;
    assert data[|line| + CRLFBytes..] == rest;
  }

  /** A complete non-empty header line: its field recorded, or the reason it is refused. */
  lemma RunHeaderLine(m: Machine, line: seq<byte>, rest: seq<byte>, isLast: bool)
    requires m.state == ReadingHeaders && line != [] && !HasCRLF(line)
    ensures Run(m, line + LineEnd + rest, isLast) ==
      if ParseFieldLine(line).Err? then Outcome(m, 0, Some(FieldLineError(ParseFieldLine(line).error)))
      else
        var (name, value) := ParseFieldLine(line).value;
        Shift(Run(m.(headers := Combine(m.headers, name, value)), rest, isLast), |line| + CRLFBytes)
  {
    var data := line + LineEnd + rest;
    IndexCRLFAfterLine(line, rest);
    assert data[0..] == data;
    assert LineBefore(data, |line| + CRLFBytes) == line;
    assert data[|line| + CRLFBytes..] == rest;
  }

  /** The empty line ends the headers: the body phase starts after it, whatever the headers. */
  lemma RunBlankLine(m: Machine, rest: seq<byte>, isLast: bool)
    requires m.state == ReadingHeaders
    ensures Run(m, LineEnd + rest, isLast) ==
      Shift(Run(m.(state := ReadingBody), rest, isLast), CRLFBytes)
  {
    var data := LineEnd + rest;
    assert data == [] + LineEnd + rest;
    IndexCRLFAfterLine([], rest);
    assert data[0..] == data;
    assert LineBefore(data, CRLFBytes) == [];
    assert data[CRLFBytes..] == rest;
  }

  // ---------------------------------------------------------------------------
  // The Request object and its parse methods
  // ---------------------------------------------------------------------------

  /** A request being parsed: its state, request line, header map and body. */
  class Request {
    var state: State
    var requestLine: RequestLine
    var headers: Headers
    var body: seq<byte>

    /** The zero request: reading the request line, empty fields, no headers, no body. */
    constructor ()
      ensures Snapshot() == Init() && fresh(requestLine) && fresh(headers)
    {
      state := ReadingRequestLine;
      requestLine := new RequestLine();
      headers := new Headers();
      body := [];
    }

    /** The fields of the request, as a value. */
    function Snapshot(): Machine
      reads this, requestLine, headers
    {
      Machine(state, requestLine.Snapshot(), headers.fields, body)
    }

    /** parseRequestLine, updating the request as RequestLineStep says. */
    method ParseRequestLinePart(data: seq<byte>) returns (consumed: nat, err: Option<ParseError>)
      modifies this, requestLine
      ensures requestLine == old(requestLine) && headers == old(headers)
      ensures Outcome(Snapshot(), consumed, err) == RequestLineStep(old(Snapshot()), data)
    {
      var lineEnd := FindNextCRLF(data, 0);
      if lineEnd.None? {
        return 0, None;
      }
      var line := data[..lineEnd.value - CRLFBytes];
      var e := requestLine.ParseLine(line);
      if e.Some? {
        return 0, Some(LineError(e.value));
      }
      state := ReadingHeaders;
      return lineEnd.value, None;
    }

    /** parseHeader, updating the request as HeaderStep says. */
    method ParseHeaderPart(data: seq<byte>) returns (consumed: nat, err: Option<ParseError>)
      modifies this, headers
      ensures requestLine == old(requestLine) && headers == old(headers)
      ensures Outcome(Snapshot(), consumed, err) == HeaderStep(old(Snapshot()), data)
    {
      var lineEnd := FindNextCRLF(data, 0);
      if lineEnd.None? {
        return 0, None;
      }
      var line := data[..lineEnd.value - CRLFBytes];
      if |line| == 0 {
        state := ReadingBody;
        return lineEnd.value, None;
      }
      var e := headers.ParseLine(line);
      if e.Some? {
        return 0, Some(FieldLineError(e.value));
      }
      return lineEnd.value, None;
    }

    /** parseBody, updating the request as BodyStep says. */
    method ParseBodyPart(data: seq<byte>, isLastChunk: bool) returns (consumed: nat, err: Option<ParseError>)
      modifies this
      ensures requestLine == old(requestLine) && headers == old(headers)
      ensures Outcome(Snapshot(), consumed, err) == BodyStep(old(Snapshot()), data, isLastChunk)
    {
      body := body + data;
      if isLastChunk {
        state := Done;
      }
      var headerContentLength := headers.Get(ContentLengthKey);
      if headerContentLength.None? {
        return |data|, None;
      }
      var contentLength := Atoi(headerContentLength.value);
      if contentLength.None? {
        return 0, Some(BadContentLength);
      }
      if isLastChunk && |body| != contentLength.value {
        return 0, Some(BodyLengthMismatch);
      }
      return |data|, None;
    }

    /** The switch in parse's loop: the part parser of the current state. */
    method ParseStep(data: seq<byte>, isLastChunk: bool) returns (consumed: nat, err: Option<ParseError>)
      requires state != Done
      modifies this, requestLine, headers
      ensures requestLine == old(requestLine) && headers == old(headers)
      ensures Outcome(Snapshot(), consumed, err) == StepOnce(old(Snapshot()), data, isLastChunk)
    {
      if state == ReadingRequestLine {
        consumed, err := ParseRequestLinePart(data);
      } else if state == ReadingHeaders {
        consumed, err := ParseHeaderPart(data);
      } else {
        consumed, err := ParseBodyPart(data, isLastChunk);
      }
    }

    /**
     * parse: runs the step of the current state until Done, a failure or a step that
     * consumes nothing; the request and the result are those Run gives.
     */
    method Parse(data: seq<byte>, isLastChunk: bool) returns (consumed: nat, err: Option<ParseError>)
      modifies this, requestLine, headers
      ensures requestLine == old(requestLine) && headers == old(headers)
      ensures Outcome(Snapshot(), consumed, err) == Run(old(Snapshot()), data, isLastChunk)
    {
      ghost var m0 := Snapshot();
      consumed, err := 0, None;
      assert Run(m0, data, isLastChunk) == Shift(Run(Snapshot(), data[consumed..], isLastChunk), consumed) by {
        assert data[0..] == data;
      }
      while state != Done
        invariant requestLine == old(requestLine) && headers == old(headers)
        invariant consumed <= |data|
        invariant Run(m0, data, isLastChunk) == Shift(Run(Snapshot(), data[consumed..], isLastChunk), consumed)
        decreases |data| - consumed
      {
        ghost var before := Snapshot();
        var bytesConsumed, e := ParseStep(data[consumed..], isLastChunk);
        ghost var st := StepOnce(before, data[consumed..], isLastChunk);
        assert Snapshot() == st.m && bytesConsumed == st.consumed && e == st.err;
        if e.Some? {
          RunStops(m0, data, isLastChunk, before, consumed, st);
          return 0, e;
        }
        if bytesConsumed == 0 {
          RunStops(m0, data, isLastChunk, before, consumed, st);
          break;
        }
        ghost var k := consumed;
        consumed := consumed + bytesConsumed;
        RunAdvance(m0, data, isLastChunk, before, k, st, Snapshot(), consumed);
      }
    }
  }

  // ---------------------------------------------------------------------------
  // The reader and RequestFromReader
  // ---------------------------------------------------------------------------

  /** The smaller of two counts. */
  function Min(x: nat, y: nat): nat
  {
    if x < y then x else y
  }

  /**
   * The chunk reader of the request tests: each Read hands out at most `perRead` of the
   * bytes not yet read (fewer when the destination is shorter), and end of input once they
   * are all gone.
   */
  class ChunkReader {
    var data: seq<byte>
    var perRead: nat
    var pos: nat

    constructor (data: seq<byte>, perRead: nat)
      ensures this.data == data && this.perRead == perRead && pos == 0
    {
      this.data := data;
      this.perRead := perRead;
      pos := 0;
    }

    /** The bytes not read yet. */
    function Rest(): seq<byte>
      reads this
    {
      if pos < |data| then data[pos..] else []
    }

    /**
     * Read into `p` from index `from` on (the slice `p[from:]`): the next
     * min(perRead, unread, room) bytes are copied and no other element of `p` changes;
     * end of input is reported exactly when nothing was left to read.
     */
    method Read(p: array<byte>, from: nat) returns (n: nat, eof: bool)
      requires from <= p.Length
      modifies this, p
      ensures data == old(data) && perRead == old(perRead)
      ensures eof <==> old(Rest()) == []
      ensures n == Min(Min(perRead, |old(Rest())|), p.Length - from)
      ensures from + n <= p.Length
      ensures p[..from] == old(p[..from]) && p[from..from + n] == old(Rest())[..n]
      ensures p[from + n..] == old(p[from + n..])
      ensures Rest() == old(Rest())[n..]
    {
      if pos >= |data| {
        return 0, true;
      }
      var end := Min(pos + perRead, |data|);
      n := Min(end - pos, p.Length - from);
      forall i | 0 <= i < n {
        p[from + i] := data[pos + i];
      }
      pos := pos + n;
      eof := false;
      assert data[pos - n..][n..] == data[pos..];
    }
  }

  /** Why RequestFromReader gives up. */
  datatype RequestError =
    | BufferOverflow                     // the unparsed bytes filled the 4096-byte buffer
    | ParseFailure(parseError: ParseError)
    | OutOfFuel                          // the loop was still running when the fuel ran out

  /**
   * One turn of RequestFromReader in terms of Run, before end of input was seen. The request
   * is what parsing the input received so far (not as the last chunk) gives, with `k` bytes
   * consumed; the reader hands out `chunk`, and the request parses its unconsumed bytes
   * followed by the chunk, getting `out`. A failure is then the failure of parsing the whole
   * input at once; otherwise the request is what parsing the input received so far, chunk
   * included, gives.
   */
  lemma FeedChunk(input: seq<byte>, received: seq<byte>, k: nat, snap: Machine,
                  chunk: seq<byte>, rest: seq<byte>, eof: bool, out: Outcome)
    requires Run(Init(), received, false) == Outcome(snap, k, None)
    requires received + chunk + rest == input && (eof ==> rest == [])
    requires k <= |received| && out == Run(snap, received[k..] + chunk, eof)
    ensures out.err.Some? ==> Final(input).err == out.err && Run(Init(), received + chunk, eof).err == out.err
    ensures out.err.None? ==> Run(Init(), received + chunk, eof) == Outcome(out.m, k + out.consumed, None)
  {
    var whole := Run(Init(), received + chunk, eof);
    assert whole == Shift(out, k) by {
      Compose(Init(), received, chunk, eof);
    }
    if out.err.Some? {
      if eof {
        assert received + chunk == input;
      } else {
        ErrorPersists(Init(), received + chunk, rest, true);
      }
    }
  }

  /**
   * A turn after end of input was seen: the reader hands out nothing and the request, not
   * Done, parses its unconsumed bytes again without change.
   */
  lemma FeedAfterEnd(received: seq<byte>, k: nat, snap: Machine, out: Outcome)
    requires Run(Init(), received, true) == Outcome(snap, k, None) && snap.state != Done
    requires k <= |received| && out == Run(snap, received[k..], true)
    ensures out == Outcome(snap, 0, None)
  {
    RunIdle(Init(), received, true);
  }

  /** The input read so far, the chunk just read and the rest, regrouped. */
  lemma Regroup(received: seq<byte>, chunk: seq<byte>, rest: seq<byte>, input: seq<byte>)
    requires received + (chunk + rest) == input
    ensures received + chunk + rest == input
  {
  }

  /** Dropping the consumed bytes from the buffer. */
  lemma DropConsumed(received: seq<byte>, chunk: seq<byte>, k: nat, c: nat)
    requires k + c <= |received + chunk|
    requires k <= |received|
    ensures (received[k..] + chunk)[c..] == (received + chunk)[k + c..]
  {
  }

  /** A prefix followed by the next `n` elements. */
  lemma Extend(s: seq<byte>, fill: nat, n: nat, prefix: seq<byte>, next: seq<byte>)
    requires fill + n <= |s| && s[..fill] == prefix && s[fill..fill + n] == next
    ensures s[..fill + n] == prefix + next
  {
  }

  /** copy(buffer, buffer[from:to]): moves the elements from `from` up to `to` to the front. */
  method MoveToFront(buffer: array<byte>, from: nat, to: nat)
    requires from <= to <= buffer.Length
    modifies buffer
    ensures buffer[..to - from] == old(buffer[from..to])
    ensures buffer[to - from..] == old(buffer[to - from..])
  {
    forall i | 0 <= i < to - from {
      buffer[i] := buffer[from + i];
    }
  }

  /**
   * What RequestFromReader keeps true between turns of its loop: of the `input`, `received`
   * has been read and `rest` has not (nothing is left once end of input was seen); the request
   * is in state `snap`, which parsing `received` gives (as the last chunk once end of input was
   * seen) with `k` bytes consumed; and the buffer holds the `held` bytes that were not.
   */
  ghost predicate Tracks(input: seq<byte>, received: seq<byte>, k: nat, eofSeen: bool,
                         held: seq<byte>, rest: seq<byte>, snap: Machine)
  {
    Holds(input, received, k, eofSeen, held, rest) && Run(Init(), received, eofSeen) == Outcome(snap, k, None)
  }

  /** The part of Tracks about the bytes alone. */
  ghost predicate Holds(input: seq<byte>, received: seq<byte>, k: nat, eofSeen: bool,
                        held: seq<byte>, rest: seq<byte>)
  {
    received + rest == input && (eofSeen ==> rest == []) && k <= |received| && held == received[k..]
  }

  /** Receiving a chunk before end of input and dropping `c` more consumed bytes from those held. */
  lemma HoldsAfter(input: seq<byte>, received: seq<byte>, k: nat, held: seq<byte>,
                   chunk: seq<byte>, rest: seq<byte>, eof: bool, c: nat)
    requires Holds(input, received, k, false, held, chunk + rest)
    requires (eof <==> chunk + rest == []) && c <= |held + chunk|
    ensures Holds(input, received + chunk, k + c, eof, (held + chunk)[c..], rest)
  {
    assert received + chunk + rest == input;
    assert (held + chunk)[c..] == (received + chunk)[k + c..];
  }

  /** Before the first read: nothing received, nothing held, the request as created. */
  lemma StartRun(input: seq<byte>, held: seq<byte>)
    requires |held| == 0
    ensures Tracks(input, [], 0, false, held, input, Init())
  {
    assert [] + input == input;
  }

  /** The bytes received are part of the input. */
  lemma ReceivedWithin(input: seq<byte>, received: seq<byte>, k: nat, eofSeen: bool,
                       held: seq<byte>, rest: seq<byte>, snap: Machine)
    requires Tracks(input, received, k, eofSeen, held, rest, snap)
    ensures |received| <= |input|
  {
    assert |received + rest| == |input|;
  }

  /** The bytes held plus a chunk read next are part of the input. */
  lemma HeldWithin(input: seq<byte>, received: seq<byte>, k: nat, eofSeen: bool,
                   held: seq<byte>, chunk: seq<byte>, rest: seq<byte>, snap: Machine)
    requires Tracks(input, received, k, eofSeen, held, chunk + rest, snap)
    ensures |held + chunk| <= |input|
  {
    assert |received + (chunk + rest)| == |input|;
  }

  /** When the request is Done, it is what parsing the whole input at once gives. */
  lemma FinishedRun(input: seq<byte>, received: seq<byte>, k: nat, eofSeen: bool,
                    held: seq<byte>, rest: seq<byte>, snap: Machine)
    requires Tracks(input, received, k, eofSeen, held, rest, snap) && snap.state == Done
    ensures Final(input) == Outcome(snap, k, None)
  {
    assert eofSeen;
    assert received == received + rest == input;
  }

  /**
   * When end of input was seen and the request is not Done, parsing the whole input at once
   * stops short of Done without an error.
   */
  lemma StuckRun(input: seq<byte>, received: seq<byte>, k: nat,
                 held: seq<byte>, rest: seq<byte>, snap: Machine)
    requires Tracks(input, received, k, true, held, rest, snap) && snap.state != Done
    ensures Final(input).err.None? && Final(input).m.state != Done
  {
    assert received == received + rest == input;
  }

  /**
   * A parse in a turn of RequestFromReader, in terms of Run, before end of input was seen:
   * the request, keeping Tracks before the read of `chunk`, parses the bytes it holds followed
   * by the chunk, getting `out`. A failure is then the failure of parsing the whole input at
   * once; otherwise Tracks holds again with the chunk received and the bytes `out` consumed
   * dropped from those held.
   */
  lemma TurnBeforeEnd(input: seq<byte>, received: seq<byte>, k: nat, held: seq<byte>,
                      chunk: seq<byte>, rest: seq<byte>, eof: bool, snap: Machine, out: Outcome)
    requires Tracks(input, received, k, false, held, chunk + rest, snap)
    requires (eof <==> chunk + rest == []) && out == Run(snap, held + chunk, eof)
    ensures out.err.Some? ==> Final(input).err == out.err && Run(Init(), received + chunk, eof).err == out.err
    ensures out.err.Some? ==> received + chunk + rest == input
    ensures out.err.None? ==>
      Tracks(input, received + chunk, k + out.consumed, eof, (held + chunk)[out.consumed..], rest, out.m)
  {
    Regroup(received, chunk, rest, input);
    TurnParses(input, received, k, held, chunk, rest, eof, snap, out);
    TurnHolds(input, received, k, held, chunk, rest, eof, snap, out);
  }

  /** The bytes of a turn before end of input: the chunk received, the consumed bytes dropped. */
  lemma TurnHolds(input: seq<byte>, received: seq<byte>, k: nat, held: seq<byte>,
                  chunk: seq<byte>, rest: seq<byte>, eof: bool, snap: Machine, out: Outcome)
    requires Tracks(input, received, k, false, held, chunk + rest, snap)
    requires (eof <==> chunk + rest == []) && out == Run(snap, held + chunk, eof)
    ensures Holds(input, received + chunk, k + out.consumed, eof, (held + chunk)[out.consumed..], rest)
  {
    HoldsAfter(input, received, k, held, chunk, rest, eof, out.consumed);
  }

  /** The parse of a turn before end of input, against parsing the input received so far. */
  lemma TurnParses(input: seq<byte>, received: seq<byte>, k: nat, held: seq<byte>,
                   chunk: seq<byte>, rest: seq<byte>, eof: bool, snap: Machine, out: Outcome)
    requires Tracks(input, received, k, false, held, chunk + rest, snap)
    requires (eof <==> chunk + rest == []) && out == Run(snap, held + chunk, eof)
    ensures out.err.Some? ==> Final(input).err == out.err && Run(Init(), received + chunk, eof).err == out.err
    ensures out.err.None? ==> Run(Init(), received + chunk, eof) == Outcome(out.m, k + out.consumed, None)
  {
    Regroup(received, chunk, rest, input);
    FeedChunk(input, received, k, snap, chunk, rest, eof, out);
  }

  /**
   * A parse in a turn of RequestFromReader after end of input was seen: nothing is read and
   * the request, not Done, consumes nothing more, so Tracks holds unchanged.
   */
  lemma TurnAfterEnd(input: seq<byte>, received: seq<byte>, k: nat, held: seq<byte>,
                     chunk: seq<byte>, rest: seq<byte>, eof: bool, snap: Machine, out: Outcome)
    requires Tracks(input, received, k, true, held, chunk + rest, snap) && snap.state != Done
    requires (eof <==> chunk + rest == []) && out == Run(snap, held + chunk, eof)
    ensures out == Outcome(snap, 0, None)
    ensures Tracks(input, received + chunk, k + out.consumed, eof, (held + chunk)[out.consumed..], rest, out.m)
  {
    NothingMore(received, held, chunk, rest);
    FeedAfterEnd(received, k, snap, out);
  }

  /** A turn after end of input was seen reads nothing. */
  lemma NothingMore(received: seq<byte>, held: seq<byte>, chunk: seq<byte>, rest: seq<byte>)
    requires chunk + rest == []
    ensures chunk == [] && rest == [] && received + chunk == received && (held + chunk)[0..] == held
  {
  }

  /**
   * A parse in a turn of RequestFromReader, in terms of Run: the request, keeping Tracks before
   * the read of `chunk`, parses the bytes it holds followed by the chunk, getting `out`. A
   * failure is then the failure of parsing the whole input at once; otherwise Tracks holds
   * again with the chunk received and the bytes `out` consumed dropped from those held.
   */
  lemma TurnKeepsTracks(input: seq<byte>, received: seq<byte>, k: nat, eofSeen: bool, held: seq<byte>,
                        pending: seq<byte>, chunk: seq<byte>, rest: seq<byte>, eof: bool, snap: Machine,
                        data: seq<byte>, out: Outcome)
    returns (received2: seq<byte>)
    requires Tracks(input, received, k, eofSeen, held, pending, snap) && snap.state != Done
    requires pending == chunk + rest && (eof <==> pending == []) && data == held + chunk && out == Run(snap, data, eof)
    ensures |received2| == |received| + |chunk|
    ensures out.err.Some? ==> Final(input).err == out.err
    ensures out.err.Some? ==> received2 + rest == input && Run(Init(), received2, eof).err == out.err
    ensures out.err.None? ==> Tracks(input, received2, k + out.consumed, eof, data[out.consumed..], rest, out.m)
  {
    received2 := received + chunk;
    if eofSeen {
      TurnAfterEnd(input, received, k, held, chunk, rest, eof, snap, out);
    } else {
      TurnBeforeEnd(input, received, k, held, chunk, rest, eof, snap, out);
    }
  }

  /**
   * The read at the head of a turn of RequestFromReader's loop: reads into the buffer after
   * the `fill` bytes it holds. The buffer then holds those bytes followed by the `chunk` read,
   * which is the head of what the reader had left; end of input is reported exactly when the
   * reader had nothing left.
   */
  method ReadChunk(reader: ChunkReader, buffer: array<byte>, fill: nat, ghost held: seq<byte>)
    returns (newFill: nat, eof: bool, ghost chunk: seq<byte>)
    requires fill < buffer.Length && buffer[..fill] == held
    modifies reader, buffer
    ensures reader.data == old(reader.data) && reader.perRead == old(reader.perRead)
    ensures old(reader.Rest()) == chunk + reader.Rest() && (eof <==> old(reader.Rest()) == [])
    ensures |chunk| == Min(Min(reader.perRead, |old(reader.Rest())|), buffer.Length - fill)
    ensures reader.perRead > 0 && !eof ==> |chunk| > 0
    ensures newFill <= buffer.Length && buffer[..newFill] == held + chunk
  {
    ghost var rest := reader.Rest();
    var n;
    n, eof := reader.Read(buffer, fill);
    chunk := rest[..n];
    Extend(buffer[..], fill, n, held, chunk);
    newFill := fill + n;
  }

  /**
   * The end of a turn of RequestFromReader's loop: when bytes were consumed, moves the rest of
   * the `fill` bytes the buffer holds to its front.
   */
  method Compact(buffer: array<byte>, consumed: nat, fill: nat, ghost data: seq<byte>) returns (newFill: nat)
    requires consumed <= fill <= buffer.Length && buffer[..fill] == data
    modifies buffer
    ensures newFill == fill - consumed && buffer[..newFill] == data[consumed..]
  {
    newFill := fill;
    if consumed > 0 {
      MoveToFront(buffer, consumed, fill);
      newFill := fill - consumed;
    }
  }

  /**
   * The rest of a turn of RequestFromReader's loop, after a read of `chunk` that did not fill
   * the buffer: parses the `fill` bytes the buffer holds and, unless that fails, moves the
   * unconsumed bytes to the front. A failure is the failure of parsing the whole input at
   * once; otherwise the turn keeps Tracks, with the chunk received.
   */
  method ParseAndCompact(request: Request, buffer: array<byte>, fill: nat, eof: bool,
                         ghost input: seq<byte>, ghost received: seq<byte>, ghost k: nat, ghost eofSeen: bool,
                         ghost held: seq<byte>, ghost pending: seq<byte>, ghost chunk: seq<byte>,
                         ghost rest: seq<byte>, ghost snap: Machine)
    returns (newFill: nat, err: Option<ParseError>, ghost received2: seq<byte>, ghost k2: nat,
             ghost left: seq<byte>, ghost m2: Machine)
    requires fill <= buffer.Length && buffer[..fill] == held + chunk && request.Snapshot() == snap
    requires Tracks(input, received, k, eofSeen, held, pending, snap) && snap.state != Done
    requires pending == chunk + rest && (eof <==> pending == [])
    modifies buffer, request, request.requestLine, request.headers
    ensures request.requestLine == old(request.requestLine) && request.headers == old(request.headers)
    ensures |received2| == |received| + |chunk|
    ensures err.Some? ==> Final(input).err == err
    ensures err.Some? ==> received2 + rest == input && Run(Init(), received2, eof).err == err
    ensures err.None? ==> newFill <= fill && buffer[..newFill] == left && request.Snapshot() == m2
    ensures err.None? ==> Tracks(input, received2, k2, eof, left, rest, m2)
  {
    var data := buffer[..fill];
    var c, e := request.Parse(data, eof);
    m2 := request.Snapshot();
    k2 := k + c;
    left := data[c..];
    received2 := TurnKeepsTracks(input, received, k, eofSeen, held, pending, chunk, rest, eof, snap, data, Outcome(m2, c, e));
    if e.Some? {
      return fill, e, received2, k2, left, m2;
    }
    newFill := Compact(buffer, c, fill, data);
    err := None;
  }

  /**
   * One turn of RequestFromReader's loop: reads after the `fill` bytes the buffer holds, gives
   * up when the buffer is then full, and otherwise parses and compacts. The buffer overflows
   * exactly when the bytes held plus the chunk read (`perRead` bytes, or what is left) reach
   * BufferSize, and then nothing is parsed. A parse failure is the failure of parsing the
   * bytes received so far, and of the whole input at once; otherwise the turn keeps Tracks,
   * with the chunk read received and `consumed` more bytes consumed.
   */
  method Turn(reader: ChunkReader, request: Request, buffer: array<byte>, fill: nat,
              ghost input: seq<byte>, ghost received: seq<byte>, ghost k: nat, ghost eofSeen: bool,
              ghost held: seq<byte>, ghost pending: seq<byte>, ghost snap: Machine)
    returns (newFill: nat, eof: bool, err: Option<RequestError>, ghost received2: seq<byte>, ghost k2: nat,
             ghost left: seq<byte>, ghost rest: seq<byte>, ghost m2: Machine)
    requires buffer.Length == BufferSize && fill < BufferSize && snap.state != Done
    requires buffer[..fill] == held && reader.Rest() == pending && request.Snapshot() == snap
    requires Tracks(input, received, k, eofSeen, held, pending, snap)
    modifies reader, buffer, request, request.requestLine, request.headers
    ensures request.requestLine == old(request.requestLine) && request.headers == old(request.headers)
    ensures reader.data == old(reader.data) && reader.perRead == old(reader.perRead)
    ensures err == Some(BufferOverflow) <==> |held| + Min(reader.perRead, |pending|) >= BufferSize
    ensures err == Some(BufferOverflow) ==> |input| >= BufferSize && request.Snapshot() == snap
    ensures err.Some? && err != Some(BufferOverflow) ==> err.value.ParseFailure? && Final(input).err == Some(err.value.parseError)
    ensures err.Some? && err.value.ParseFailure? ==>
      received2 + rest == input && Run(Init(), received2, eof).err == Some(err.value.parseError)
    ensures err != Some(BufferOverflow) ==> |received2| == |received| + Min(reader.perRead, |pending|)
    ensures err.None? ==> newFill < BufferSize && buffer[..newFill] == left && reader.Rest() == rest && request.Snapshot() == m2
    ensures err.None? ==> Tracks(input, received2, k2, eof, left, rest, m2)
    ensures err.None? && !eof ==> !eofSeen && (reader.perRead > 0 ==> |received2| > |received|)
  {
    ghost var chunk;
    newFill, eof, chunk := ReadChunk(reader, buffer, fill, held);
    rest := reader.Rest();
    if newFill > BufferSize - 1 {
      HeldWithin(input, received, k, eofSeen, held, chunk, rest, snap);
      return newFill, eof, Some(BufferOverflow), received, k, held, rest, snap;
    }
    var e;
    newFill, e, received2, k2, left, m2 :=
      ParseAndCompact(request, buffer, newFill, eof, input, received, k, eofSeen, held, pending, chunk, rest, snap);
    if e.Some? {
      return newFill, eof, Some(ParseFailure(e.value)), received2, k2, left, rest, m2;
    }
    err := None;
  }

  /** Input without a CR LF leaves a request as created: no line is complete, nothing is consumed. */
  lemma RunWithoutLine(data: seq<byte>, isLast: bool)
    requires !HasCRLF(data)
    ensures Run(Init(), data, isLast) == Outcome(Init(), 0, None)
  {
    LineStepNeedsCRLF(Init(), data, isLast);
  }

  /**
   * While fewer than BufferSize bytes have been received from an input whose first
   * BufferSize bytes hold no CR LF, the request is still as created.
   */
  lemma NoLineYet(input: seq<byte>, received: seq<byte>, rest: seq<byte>, isLast: bool)
    ensures received + rest == input && |received| < BufferSize <= |input| && !HasCRLF(input[..BufferSize]) ==>
      Run(Init(), received, isLast) == Outcome(Init(), 0, None)
  {
    if received + rest == input && |received| < BufferSize <= |input| && !HasCRLF(input[..BufferSize]) {
      var head := input[..BufferSize];
      forall i | 0 <= i < |received| ensures !CRLFAt(received, i) {
        if i + 1 < |received| {
          assert received[i] == head[i] && received[i + 1] == head[i + 1];
          assert !CRLFAt(head, i);
        }
      }
      RunWithoutLine(received, isLast);
    }
  }

  /**
   * The loop of RequestFromReader, on a request as created and an empty buffer: runs turns
   * until the request is Done, a turn refuses the input or `fuel` turns have run. Unless
   * refused, it ends keeping Tracks, and when it stops short of Done with the reader handing
   * out bytes and more turns allowed than there are input bytes, end of input was seen. The
   * buffer overflows on an input whose first BufferSize bytes hold no CR LF, and on any input
   * of BufferSize bytes or more when one read can fill the buffer.
   */
  method ReadLoop(reader: ChunkReader, request: Request, buffer: array<byte>, fuel: nat, ghost input: seq<byte>)
    returns (err: Option<RequestError>, ghost received: seq<byte>, ghost k: nat, ghost eofSeen: bool,
             ghost held: seq<byte>, ghost rest: seq<byte>, ghost snap: Machine)
    requires buffer.Length == BufferSize && request.Snapshot() == Init() && reader.Rest() == input
    modifies reader, buffer, request, request.requestLine, request.headers
    ensures request.requestLine == old(request.requestLine) && request.headers == old(request.headers)
    ensures reader.perRead == old(reader.perRead)
    ensures err == Some(BufferOverflow) ==> |input| >= BufferSize
    ensures err.Some? && err != Some(BufferOverflow) ==> err.value.ParseFailure? && Final(input).err == Some(err.value.parseError)
    ensures err.None? ==> request.Snapshot() == snap && Tracks(input, received, k, eofSeen, held, rest, snap)
    ensures err.None? && snap.state != Done && reader.perRead > 0 && fuel > |input| ==> eofSeen
    ensures reader.perRead > 0 && fuel >= BufferSize && |input| >= BufferSize && !HasCRLF(input[..BufferSize]) ==>
      err == Some(BufferOverflow)
    ensures reader.perRead >= BufferSize && fuel > 0 && |input| >= BufferSize ==> err == Some(BufferOverflow)
  {
    var fill: nat := 0;
    received, k, eofSeen, held, rest, snap := [], 0, false, buffer[..fill], input, Init();
    var f: nat := fuel;
    ghost var noLine := reader.perRead > 0 && fuel >= BufferSize && |input| >= BufferSize && !HasCRLF(input[..BufferSize]);
    ghost var oneRead := reader.perRead >= BufferSize && fuel > 0 && |input| >= BufferSize;
    StartRun(input, held);
    while request.state != Done && f > 0
      invariant request.requestLine == old(request.requestLine) && request.headers == old(request.headers)
      invariant fill < BufferSize && reader.perRead == old(reader.perRead)
      invariant buffer[..fill] == held && reader.Rest() == rest && request.Snapshot() == snap
      invariant Tracks(input, received, k, eofSeen, held, rest, snap)
      invariant reader.perRead > 0 && !eofSeen ==> f + |received| >= fuel
      invariant noLine ==> snap == Init() && k == 0 && !eofSeen && |received| < BufferSize
      invariant oneRead ==> received == [] && snap == Init() && !eofSeen
      decreases f
    {
      f := f - 1;
      var eof;
      fill, eof, err, received, k, held, rest, snap :=
        Turn(reader, request, buffer, fill, input, received, k, eofSeen, held, rest, snap);
      NoLineYet(input, received, rest, eof);
      if err.Some? {
        return;
      }
      eofSeen := eof;
    }
    if snap.state != Done && reader.perRead > 0 && fuel > |input| {
      ReceivedWithin(input, received, k, eofSeen, held, rest, snap);
    }
    return None, received, k, eofSeen, held, rest, snap;
  }

  /**
   * RequestFromReader: reads chunks into a 4096-byte buffer, parses what it holds, drops the
   * consumed bytes and reads again, until the request is Done. Whatever the chunk sizes, a
   * request it returns is the one parsing the whole input at once gives, and a parse error it
   * reports is that parse's error; a refused input comes back with a zero request. `fuel`
   * bounds the turns of the loop, which in the source may run forever.
   */
  method RequestFromReader(reader: ChunkReader, fuel: nat) returns (request: Request, err: Option<RequestError>)
    modifies reader
    ensures fresh(request) && fresh(request.requestLine) && fresh(request.headers)
    ensures reader.perRead == old(reader.perRead)
    ensures err.None? ==> request.state == Done && Final(old(reader.Rest())).err.None? &&
                          request.Snapshot() == Final(old(reader.Rest())).m
    ensures err.Some? ==> request.Snapshot() == Init()
    ensures err == Some(BufferOverflow) ==> |old(reader.Rest())| >= BufferSize
    ensures err.Some? && err.value.ParseFailure? ==> Final(old(reader.Rest())).err == Some(err.value.parseError)
    ensures err == Some(OutOfFuel) && reader.perRead > 0 && fuel > |old(reader.Rest())| ==>
      Final(old(reader.Rest())).err.None? && Final(old(reader.Rest())).m.state != Done
    ensures (reader.perRead > 0 && fuel >= BufferSize && |old(reader.Rest())| >= BufferSize &&
             !HasCRLF(old(reader.Rest())[..BufferSize])) ==> err == Some(BufferOverflow)
    ensures reader.perRead >= BufferSize && fuel > 0 && |old(reader.Rest())| >= BufferSize ==>
      err == Some(BufferOverflow)
  {
    ghost var input := reader.Rest();
    request := new Request();
    var buffer := new byte[BufferSize];
    ghost var received, k, eofSeen, held, rest, snap;
    err, received, k, eofSeen, held, rest, snap := ReadLoop(reader, request, buffer, fuel, input);
    if err.Some? {
      request := new Request();
      return;
    }
    if request.state != Done {
      if reader.perRead > 0 && fuel > |input| {
        StuckRun(input, received, k, held, rest, snap);
      }
      request := new Request();
      return request, Some(OutOfFuel);
    }
    FinishedRun(input, received, k, eofSeen, held, rest, snap);
  }

  /**
   * RequestFromReader over a chunk reader that hands out `perRead` bytes per read, as the
   * request tests build it. Given enough fuel, a request under the buffer size is accepted
   * exactly when parsing the whole input at once finishes without error, and then with the
   * same request, whatever the chunk size: the outcome never depends on how the input is cut.
   * A longer input overflows the buffer whatever the chunk size when its first BufferSize
   * bytes hold no CR LF, and whatever its content when one read fills the buffer.
   */
  method ParseInChunks(input: seq<byte>, perRead: nat) returns (m: Machine, err: Option<RequestError>)
    ensures perRead > 0 && |input| < BufferSize ==>
      (err.None? <==> Final(input).err.None? && Final(input).m.state == Done)
    ensures err.None? ==> m == Final(input).m && m.state == Done
    ensures err.Some? ==> m == Init()
    ensures err.Some? && err.value.ParseFailure? ==> Final(input).err == Some(err.value.parseError)
    ensures err == Some(BufferOverflow) ==> |input| >= BufferSize
    ensures perRead > 0 && |input| >= BufferSize && !HasCRLF(input[..BufferSize]) ==> err == Some(BufferOverflow)
    ensures perRead >= BufferSize && |input| >= BufferSize ==> err == Some(BufferOverflow)
  {
    var reader := new ChunkReader(input, perRead);
    assert reader.Rest() == input;
    var request;
    request, err := RequestFromReader(reader, |input| + 1);
    m := request.Snapshot();
  }
}
