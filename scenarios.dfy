/**
 * Whole requests (httpfromtcp/internal/request/request_test.go): a request line, header
 * lines, the empty line and a body, and what parsing them gives — first for any request
 * whose lines are all accepted, then for the requests of the tests, whole and read through
 * the chunk reader.
 */
module RequestScenarios {
  import opened Wrappers
  import opened GoText
  import opened HeaderFields
  import opened RequestLines
  import opened Requests

  // ---------------------------------------------------------------------------
  // Requests built from accepted lines
  // ---------------------------------------------------------------------------

  /** Header lines, each followed by CR LF. */
  function HeaderBlock(lines: seq<seq<byte>>): seq<byte>
  {
    if lines == [] then [] else lines[0] + LineEnd + HeaderBlock(lines[1..])
  }

  /** The bytes of a request: request line, header lines, the empty line, then the body. */
  function RequestBytes(line: seq<byte>, lines: seq<seq<byte>>, body: seq<byte>): seq<byte>
  {
    line + LineEnd + (HeaderBlock(lines) + (LineEnd + body))
  }

  /** A complete header line that parse accepts, giving `field`: its canonical name and value. */
  predicate AcceptedLine(line: seq<byte>, field: (string, string))
  {
    line != [] && !HasCRLF(line) && ParseFieldLine(line) == Ok(field)
  }

  /** Each line is accepted, giving the field at the same position. */
  predicate AcceptedLines(lines: seq<seq<byte>>, fields: seq<(string, string)>)
  {
    |lines| == |fields| && forall i :: 0 <= i < |lines| ==> AcceptedLine(lines[i], fields[i])
  }

  /** The header map after the fields are combined into `h`, one after the other. */
  function CombineFields(h: map<string, string>, fields: seq<(string, string)>): map<string, string>
    decreases |fields|
  {
    if fields == [] then h else CombineFields(Combine(h, fields[0].0, fields[0].1), fields[1..])
  }

  /** The header lines of a block are consumed one by one, each field combined in order. */
  lemma {:induction false} RunHeaderBlock(m: Machine, lines: seq<seq<byte>>, fields: seq<(string, string)>,
                                          rest: seq<byte>, isLast: bool)
    requires m.state == ReadingHeaders && AcceptedLines(lines, fields)
    ensures var m' := m.(headers := CombineFields(m.headers, fields));
      && Run(m, HeaderBlock(lines) + rest, isLast).m == Run(m', rest, isLast).m
      && Run(m, HeaderBlock(lines) + rest, isLast).err == Run(m', rest, isLast).err
    decreases |lines|
  {
    if lines == [] {
      assert HeaderBlock(lines) + rest == rest;
      assert m.(headers := CombineFields(m.headers, fields)) == m;
    } else {
      assert AcceptedLine(lines[0], fields[0]);
      var m1 := m.(headers := Combine(m.headers, fields[0].0, fields[0].1));
      HeaderBlockCons(lines, rest);
      RunHeaderLine(m, lines[0], HeaderBlock(lines[1..]) + rest, isLast);
      AcceptedTail(lines, fields);
      RunHeaderBlock(m1, lines[1..], fields[1..], rest, isLast);
    }
  }

  /** Header lines of at most `k` bytes take at most `k + 2` bytes each, terminator included. */
  lemma {:induction false} HeaderBlockBound(lines: seq<seq<byte>>, k: nat)
    requires forall i :: 0 <= i < |lines| ==> |lines[i]| <= k
    ensures |HeaderBlock(lines)| <= |lines| * (k + 2)
    decreases |lines|
  {
    if lines != [] {
      assert forall i :: 0 <= i < |lines[1..]| ==> lines[1..][i] == lines[i + 1];
      HeaderBlockBound(lines[1..], k);
    }
  }

  lemma HeaderBlockCons(lines: seq<seq<byte>>, rest: seq<byte>)
    requires lines != []
    ensures HeaderBlock(lines) + rest == lines[0] + LineEnd + (HeaderBlock(lines[1..]) + rest)
  {
  }

  lemma AcceptedTail(lines: seq<seq<byte>>, fields: seq<(string, string)>)
    requires lines != [] && AcceptedLines(lines, fields)
    ensures AcceptedLines(lines[1..], fields[1..])
  {
    forall i | 0 <= i < |lines[1..]| ensures AcceptedLine(lines[1..][i], fields[1..][i]) {
      assert lines[1..][i] == lines[i + 1] && fields[1..][i] == fields[i + 1];
    }
  }

  /**
   * A request whose request line and header lines are all accepted parses, at end of input,
   * into that request line, the combined header fields and the whole body. It is refused
   * exactly when a Content-Length header does not hold the body's length: with
   * BadContentLength when its value is not a number, with BodyLengthMismatch when it is
   * another number.
   */
  lemma WellFormedRequest(line: seq<byte>, lines: seq<seq<byte>>, fields: seq<(string, string)>, body: seq<byte>)
    requires !HasCRLF(line) && ParseRequestLine(line).Ok? && AcceptedLines(lines, fields)
    ensures Final(RequestBytes(line, lines, body)).m ==
      Machine(Done, ParseRequestLine(line).value, CombineFields(map[], fields), body)
    ensures var headers := CombineFields(map[], fields);
      Final(RequestBytes(line, lines, body)).err.None? <==>
        ContentLengthKey !in headers || Atoi(headers[ContentLengthKey]) == Some(|body|)
    ensures var headers := CombineFields(map[], fields);
      Final(RequestBytes(line, lines, body)).err == Some(BadContentLength) <==>
        ContentLengthKey in headers && Atoi(headers[ContentLengthKey]).None?
    ensures var headers := CombineFields(map[], fields);
      Final(RequestBytes(line, lines, body)).err == Some(BodyLengthMismatch) <==>
        ContentLengthKey in headers && Atoi(headers[ContentLengthKey]).Some? &&
        Atoi(headers[ContentLengthKey]).value != |body|
    ensures Final(RequestBytes(line, lines, body)).err in {None, Some(BadContentLength), Some(BodyLengthMismatch)}
  {
    var m1 := Init().(state := ReadingHeaders, line := ParseRequestLine(line).value);
    RunRequestLine(Init(), line, HeaderBlock(lines) + (LineEnd + body), true);
    RunHeaderBlock(m1, lines, fields, LineEnd + body, true);
    var m2 := m1.(headers := CombineFields(map[], fields));
    RunBlankLine(m2, body, true);
    RunBody(m2.(state := ReadingBody), body, true);
    assert [] + body == body;
  }

  /**
   * A well-formed request with a numeric Content-Length `n`: Done with every byte consumed
   * when the body has `n` bytes, refused with BodyLengthMismatch otherwise.
   */
  lemma ContentLengthRequest(line: seq<byte>, lines: seq<seq<byte>>, fields: seq<(string, string)>, body: seq<byte>,
                             headers: map<string, string>, n: int)
    requires !HasCRLF(line) && ParseRequestLine(line).Ok? && AcceptedLines(lines, fields)
    requires CombineFields(map[], fields) == headers
    requires ContentLengthKey in headers && Atoi(headers[ContentLengthKey]) == Some(n)
    ensures var input := RequestBytes(line, lines, body);
      |body| == n ==> Final(input) == Outcome(Machine(Done, ParseRequestLine(line).value, headers, body), |input|, None)
    ensures |body| != n ==> Final(RequestBytes(line, lines, body)).err == Some(BodyLengthMismatch)
  {
    WellFormedRequest(line, lines, fields, body);
  }

  /** A refused request line refuses the whole request, whatever follows it, consuming nothing. */
  lemma RefusedRequestLine(line: seq<byte>, rest: seq<byte>)
    requires !HasCRLF(line) && ParseRequestLine(line).Err?
    ensures Final(line + LineEnd + rest) == Outcome(Init(), 0, Some(LineError(ParseRequestLine(line).error)))
  {
    RunRequestLine(Init(), line, rest, true);
  }

  /** The request line `verb target HTTP/1.1`. */
  function StartLine(verb: seq<byte>, target: seq<byte>): seq<byte>
  {
    verb + " " + target + " " + "HTTP/1.1"
  }

  /** A header line `name: value`, as the tests write them. */
  function FieldLine(name: seq<byte>, value: seq<byte>): seq<byte>
  {
    name + ": " + value
  }
}
