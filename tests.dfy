/**
 * The requests of the request and header tests (httpfromtcp/internal/request/request_test.go,
 * httpfromtcp/internal/headers/headers_test.go): their lines, and what parsing them whole
 * gives.
 */
module TestRequests {
  import opened Wrappers
  import opened GoText
  import opened HeaderFields
  import opened RequestLines
  import opened Requests
  import opened RequestScenarios

  // ---------------------------------------------------------------------------
  // The lines of the request tests
  // ---------------------------------------------------------------------------

  /** `method target HTTP/1.1` with an allowed method and a valid target is accepted verbatim. */
  lemma AcceptedRequestLine(verb: seq<byte>, target: seq<byte>)
    requires ValidMethod(verb) && ValidRequestTarget(target)
    requires NoSpace(verb) && NoSpace(target)
    ensures !HasCRLF(verb + " " + target + " " + "HTTP/1.1")
    ensures ParseRequestLine(verb + " " + target + " " + "HTTP/1.1") == Ok(RequestLineFields("1.1", target, verb))
  {
    var line := verb + " " + target + " " + "HTTP/1.1";
    NoSpaceHasNoBlank(verb);
    NoSpaceHasNoBlank(target);
    ParseRequestLineOfTokens(verb, target, "HTTP/1.1");
    forall i | 0 <= i < |line| ensures line[i] != '\r' {
      if i < |verb| {
        assert line[i] == verb[i];
      } else if |verb| < i < |verb| + 1 + |target| {
        assert line[i] == target[i - |verb| - 1];
      }
    }
    NoCRLFWithoutCR(line);
  }

  lemma NoSpaceHasNoBlank(s: seq<byte>)
    requires NoSpace(s)
    ensures ' ' !in s
  {
    forall i | 0 <= i < |s| ensures s[i] != ' ' {
      assert !IsSpace(s[i]);
    }
  }

  /** `name: value` with a valid, segment-complete name and a space-free value is accepted. */
  lemma AcceptedFieldLine(name: seq<byte>, value: seq<byte>)
    requires ValidFieldName(name) && NoEmptySegment(name) && NoSpace(name)
    requires value != [] && NoSpace(value)
    ensures AcceptedLine(FieldLine(name, value), (CanonicalChars(name), value))
  {
    FieldLineParses(name, value);
    FieldLineHasNoCRLF(name, value);
  }

  lemma FieldLineParses(name: seq<byte>, value: seq<byte>)
    requires ValidFieldName(name) && NoEmptySegment(name) && NoSpace(name)
    requires value != [] && NoSpace(value)
    ensures ParseFieldLine(FieldLine(name, value)) == Ok((CanonicalChars(name), value))
  {
    FieldLinePieces(name, value);
    ParseFieldLineByName("", name, " ", value, "");
  }

  lemma FieldLinePieces(name: seq<byte>, value: seq<byte>)
    ensures FieldLine(name, value) == "" + name + ":" + " " + value + ""
  {
  }

  lemma FieldLineHasNoCRLF(name: seq<byte>, value: seq<byte>)
    requires NoSpace(name) && NoSpace(value)
    ensures !HasCRLF(FieldLine(name, value))
  {
    var line := FieldLine(name, value);
    forall i | 0 <= i < |line| ensures line[i] != '\r' {
      if i < |name| {
        assert line[i] == name[i] && !IsSpace(name[i]);
      } else if i >= |name| + 2 {
        assert line[i] == value[i - |name| - 2] && !IsSpace(value[i - |name| - 2]);
      }
    }
    NoCRLFWithoutCR(line);
  }

  lemma HostName(name: seq<byte>)
    requires name == "Host"
    ensures ValidFieldName(name) && NoEmptySegment(name) && NoSpace(name) && CanonicalChars(name) == name
  {
    ValidFieldNameExamples();
    var c := CanonicalChars(name);
    assert c[0] == 'H' && c[1] == 'o' && c[2] == 's' && c[3] == 't';
  }

  lemma UserAgentName(name: seq<byte>)
    requires name == "User-Agent"
    ensures ValidFieldName(name) && NoEmptySegment(name) && NoSpace(name) && CanonicalChars(name) == name
  {
    assert IsTokenChar(name[4]);
    var c := CanonicalChars(name);
    assert c[0] == 'U' && c[1] == 's' && c[2] == 'e' && c[3] == 'r' && c[4] == '-';
    assert c[5] == 'A' && c[6] == 'g' && c[7] == 'e' && c[8] == 'n' && c[9] == 't';
  }

  lemma AcceptName(name: seq<byte>)
    requires name == "Accept"
    ensures ValidFieldName(name) && NoEmptySegment(name) && NoSpace(name) && CanonicalChars(name) == name
  {
    var c := CanonicalChars(name);
    assert c[0] == 'A' && c[1] == 'c' && c[2] == 'c' && c[3] == 'e' && c[4] == 'p' && c[5] == 't';
  }

  lemma ContentLengthName(name: seq<byte>)
    requires name == "Content-Length"
    ensures ValidFieldName(name) && NoEmptySegment(name) && NoSpace(name) && CanonicalChars(name) == name
  {
    assert IsTokenChar(name[7]);
    var c := CanonicalChars(name);
    assert c[0] == 'C' && c[1] == 'o' && c[2] == 'n' && c[3] == 't' && c[4] == 'e' && c[5] == 'n' && c[6] == 't';
    assert c[7] == '-' && c[8] == 'L' && c[9] == 'e' && c[10] == 'n' && c[11] == 'g' && c[12] == 't' && c[13] == 'h';
  }

  lemma HostLine(name: seq<byte>, value: seq<byte>)
    requires name == "Host" && value == "localhost:42069"
    ensures AcceptedLine(FieldLine(name, value), (name, value))
  {
    HostName(name);
    assert value != [] && NoSpace(value);
    AcceptedFieldLine(name, value);
  }

  lemma UserAgentLine(name: seq<byte>, value: seq<byte>)
    requires name == "User-Agent" && value == "curl/7.81.0"
    ensures AcceptedLine(FieldLine(name, value), (name, value))
  {
    UserAgentName(name);
    assert value != [] && NoSpace(value);
    AcceptedFieldLine(name, value);
  }

  lemma AcceptLine(name: seq<byte>, value: seq<byte>)
    requires name == "Accept" && value == "*/*"
    ensures AcceptedLine(FieldLine(name, value), (name, value))
  {
    AcceptName(name);
    assert value != [] && NoSpace(value);
    AcceptedFieldLine(name, value);
  }

  lemma ContentLengthLine(name: seq<byte>, value: seq<byte>)
    requires name == "Content-Length" && value == "13"
    ensures AcceptedLine(FieldLine(name, value), (name, value))
  {
    ContentLengthName(name);
    assert value != [] && NoSpace(value);
    AcceptedFieldLine(name, value);
  }

  /** Three fields under distinct names, combined into an empty map, are three entries. */
  lemma ThreeFields(hn: string, hv: string, un: string, uv: string, an: string, av: string)
    requires hn != un && un != an && hn != an
    ensures CombineFields(map[], [(hn, hv), (un, uv), (an, av)]) == map[hn := hv, un := uv, an := av]
  {
    var fields := [(hn, hv), (un, uv), (an, av)];
    assert fields[1..] == [(un, uv), (an, av)] && fields[1..][1..] == [(an, av)] && fields[1..][1..][1..] == [];
    var h1 := Combine(map[], hn, hv);
    assert h1 == map[hn := hv];
    var h2 := Combine(h1, un, uv);
    assert h2 == map[hn := hv, un := uv];
    var h3 := Combine(h2, an, av);
    assert h3 == map[hn := hv, un := uv, an := av];
    assert CombineFields(h3, fields[1..][1..][1..]) == h3;
    assert CombineFields(h2, fields[1..][1..]) == h3;
    assert CombineFields(h1, fields[1..]) == h3;
  }

  lemma ThreeAccepted(l0: seq<byte>, l1: seq<byte>, l2: seq<byte>, f0: (string, string), f1: (string, string), f2: (string, string))
    requires AcceptedLine(l0, f0) && AcceptedLine(l1, f1) && AcceptedLine(l2, f2)
    ensures AcceptedLines([l0, l1, l2], [f0, f1, f2])
  {
  }

  lemma TwoAccepted(l0: seq<byte>, l1: seq<byte>, f0: (string, string), f1: (string, string))
    requires AcceptedLine(l0, f0) && AcceptedLine(l1, f1)
    ensures AcceptedLines([l0, l1], [f0, f1])
  {
  }

  /** The three header lines of the GET tests: accepted, with names kept as written. */
  lemma CurlHeaders(hn: seq<byte>, hv: seq<byte>, un: seq<byte>, uv: seq<byte>, an: seq<byte>, av: seq<byte>)
    requires hn == "Host" && hv == "localhost:42069" && un == "User-Agent" && uv == "curl/7.81.0"
    requires an == "Accept" && av == "*/*"
    ensures AcceptedLines([FieldLine(hn, hv), FieldLine(un, uv), FieldLine(an, av)], [(hn, hv), (un, uv), (an, av)])
    ensures hn != un && un != an && hn != an
  {
    HostLine(hn, hv);
    UserAgentLine(un, uv);
    AcceptLine(an, av);
    ThreeAccepted(FieldLine(hn, hv), FieldLine(un, uv), FieldLine(an, av), (hn, hv), (un, uv), (an, av));
    assert |hn| == 4 && |un| == 10 && |an| == 6;
  }

  /** The two header lines of the POST test with a body: accepted, with names kept as written. */
  lemma BodyHeaders(hn: seq<byte>, hv: seq<byte>, cn: seq<byte>, cv: seq<byte>)
    requires hn == "Host" && hv == "localhost:42069" && cn == "Content-Length" && cv == "13"
    ensures AcceptedLines([FieldLine(hn, hv), FieldLine(cn, cv)], [(hn, hv), (cn, cv)])
    ensures hn != cn
  {
    HostLine(hn, hv);
    ContentLengthLine(cn, cv);
    TwoAccepted(FieldLine(hn, hv), FieldLine(cn, cv), (hn, hv), (cn, cv));
    assert |hn| == 4 && |cn| == 14;
  }

  /** Two fields under distinct names, combined into an empty map, are two entries. */
  lemma TwoFields(hn: string, hv: string, cn: string, cv: string)
    requires hn != cn
    ensures CombineFields(map[], [(hn, hv), (cn, cv)]) == map[hn := hv, cn := cv]
  {
    var fields := [(hn, hv), (cn, cv)];
    assert fields[1..] == [(cn, cv)] && fields[1..][1..] == [];
    var h1 := Combine(map[], hn, hv);
    assert h1 == map[hn := hv];
    var h2 := Combine(h1, cn, cv);
    assert h2 == map[hn := hv, cn := cv];
    assert CombineFields(h2, fields[1..][1..]) == h2;
    assert CombineFields(h1, fields[1..]) == h2;
  }

  // ---------------------------------------------------------------------------
  // The requests of the tests, parsed whole
  // ---------------------------------------------------------------------------

  /**
   * The GET tests' request: `verb target HTTP/1.1`, the Host, User-Agent and Accept lines
   * of curl and the empty line. Any allowed method and valid target give a Done request with
   * that method and target, version `1.1`, the three fields and an empty body, every byte
   * consumed.
   */
  lemma CurlRequest(verb: seq<byte>, target: seq<byte>,
                    hn: seq<byte>, hv: seq<byte>, un: seq<byte>, uv: seq<byte>, an: seq<byte>, av: seq<byte>)
    requires ValidMethod(verb) && ValidRequestTarget(target) && NoSpace(verb) && NoSpace(target)
    requires hn == "Host" && hv == "localhost:42069" && un == "User-Agent" && uv == "curl/7.81.0"
    requires an == "Accept" && av == "*/*"
    ensures var input := RequestBytes(StartLine(verb, target), [FieldLine(hn, hv), FieldLine(un, uv), FieldLine(an, av)], []);
      Final(input) == Outcome(Machine(Done, RequestLineFields("1.1", target, verb),
                                      map[hn := hv, un := uv, an := av], []), |input|, None)
  {
    CurlHeaders(hn, hv, un, uv, an, av);
    ThreeFields(hn, hv, un, uv, an, av);
    AcceptedRequestLine(verb, target);
    WellFormedRequest(StartLine(verb, target), [FieldLine(hn, hv), FieldLine(un, uv), FieldLine(an, av)],
                      [(hn, hv), (un, uv), (an, av)], []);
  }

  /**
   * The POST test with a body: `POST /submit`, a Host line, `Content-Length: 13`, the empty
   * line and the 13 bytes `hello world!` and LF. The request is Done with that body; a body
   * of any other length is refused with BodyLengthMismatch.
   */
  lemma BodyRequest(verb: seq<byte>, target: seq<byte>, hn: seq<byte>, hv: seq<byte>, cn: seq<byte>, cv: seq<byte>,
                    body: seq<byte>)
    requires verb == "POST" && target == "/submit"
    requires hn == "Host" && hv == "localhost:42069" && cn == "Content-Length" && cv == "13"
    ensures var input := RequestBytes(StartLine(verb, target), [FieldLine(hn, hv), FieldLine(cn, cv)], body);
      && (|body| == 13 ==> Final(input) == Outcome(Machine(Done, RequestLineFields("1.1", target, verb),
                                                           map[hn := hv, cn := cv], body), |input|, None))
      && (|body| != 13 ==> Final(input).err == Some(BodyLengthMismatch))
  {
    BodyHeaders(hn, hv, cn, cv);
    TwoFields(hn, hv, cn, cv);
    PostLine(verb, target);
    ThirteenDigits(cv);
    assert ContentLengthKey == cn;
    ContentLengthRequest(StartLine(verb, target), [FieldLine(hn, hv), FieldLine(cn, cv)], [(hn, hv), (cn, cv)], body,
                         map[hn := hv, cn := cv], 13);
  }

  lemma PostLine(verb: seq<byte>, target: seq<byte>)
    requires verb == "POST" && target == "/submit"
    ensures !HasCRLF(StartLine(verb, target))
    ensures ParseRequestLine(StartLine(verb, target)) == Ok(RequestLineFields("1.1", target, verb))
  {
    assert ValidMethod(verb) && ValidRequestTarget(target) by {
      assert HasPrefix(target, "/");
    }
    AcceptedRequestLine(verb, target);
  }

  lemma ThirteenDigits(cv: seq<byte>)
    requires cv == "13"
    ensures Atoi(cv) == Some(13)
  {
    assert cv == DecimalString(13);
    AtoiDecimal(13);
  }

  /**
   * The request tests whose request line is refused: a missing method, the method out of
   * order and version `HTTP/4`. Whatever follows, parsing fails on the request line.
   */
  lemma RefusedTestLines(line: seq<byte>, rest: seq<byte>)
    requires line in ["/coffee HTTP/1.1", "/coffee GET HTTP/1.1", "GET / HTTP/4"]
    ensures Final(line + LineEnd + rest).err ==
      Some(LineError(if line == "/coffee HTTP/1.1" then MalformedRequestLine
                     else if line == "GET / HTTP/4" then UnsupportedVersion
                     else InvalidMethod))
  {
    NoCRLFWithoutCR(line);
    if line == "/coffee HTTP/1.1" {
      MissingMethodExample(line);
    } else if line == "GET / HTTP/4" {
      UnsupportedVersionExample(line);
    } else {
      MethodOutOfOrderExample(line);
    }
    RefusedRequestLine(line, rest);
  }

  // ---------------------------------------------------------------------------
  // The requests of the tests, read through the chunk reader
  // ---------------------------------------------------------------------------

  /** A request of short lines fits the 4096-byte buffer. */
  lemma ThreeLinesFit(line: seq<byte>, l0: seq<byte>, l1: seq<byte>, l2: seq<byte>, body: seq<byte>)
    requires |line| <= 100 && |l0| <= 100 && |l1| <= 100 && |l2| <= 100 && |body| <= 100
    ensures |RequestBytes(line, [l0, l1, l2], body)| < BufferSize
    ensures |RequestBytes(line, [l0, l1], body)| < BufferSize
  {
    HeaderBlockBound([l0, l1, l2], 100);
    HeaderBlockBound([l0, l1], 100);
  }

  /**
   * The GET tests that read the request 3 bytes or 1 byte at a time (any positive chunk
   * size): Done, with method GET, the target, version `1.1`, the Host, User-Agent and Accept
   * fields and an empty body.
   */
  method ChunkedCurlTest(target: seq<byte>, perRead: nat) returns (m: Machine, err: Option<RequestError>)
    requires target == "/" || target == "/coffee"
    requires perRead > 0
    ensures err == None
    ensures m == Machine(Done, RequestLineFields("1.1", target, "GET"),
                         map["Host" := "localhost:42069", "User-Agent" := "curl/7.81.0", "Accept" := "*/*"], [])
  {
    var verb: seq<byte>, hn: seq<byte>, hv: seq<byte> := "GET", "Host", "localhost:42069";
    var un: seq<byte>, uv: seq<byte>, an: seq<byte>, av: seq<byte> := "User-Agent", "curl/7.81.0", "Accept", "*/*";
    assert ValidMethod(verb) && ValidRequestTarget(target) && NoSpace(verb) && NoSpace(target) by {
      assert HasPrefix(target, "/") by { assert target[..1] == "/"; }
    }
    CurlRequest(verb, target, hn, hv, un, uv, an, av);
    var lines: seq<seq<byte>> := [FieldLine(hn, hv), FieldLine(un, uv), FieldLine(an, av)];
    var input := RequestBytes(StartLine(verb, target), lines, []);
    ThreeLinesFit(StartLine(verb, target), FieldLine(hn, hv), FieldLine(un, uv), FieldLine(an, av), []);
    m, err := ParseInChunks(input, perRead);
  }

  /**
   * The POST test with a body, read 3 bytes at a time (any positive chunk size): Done, with
   * method POST, target `/submit`, the Host and Content-Length fields and the 13-byte body.
   */
  method ChunkedBodyTest(body: seq<byte>, perRead: nat) returns (m: Machine, err: Option<RequestError>)
    requires |body| == 13
    requires perRead > 0
    ensures err == None
    ensures m == Machine(Done, RequestLineFields("1.1", "/submit", "POST"),
                         map["Host" := "localhost:42069", "Content-Length" := "13"], body)
  {
    var verb: seq<byte>, target: seq<byte>, hn: seq<byte>, hv: seq<byte> := "POST", "/submit", "Host", "localhost:42069";
    var cn: seq<byte>, cv: seq<byte> := "Content-Length", "13";
    BodyRequest(verb, target, hn, hv, cn, cv, body);
    var lines: seq<seq<byte>> := [FieldLine(hn, hv), FieldLine(cn, cv)];
    var input := RequestBytes(StartLine(verb, target), lines, body);
    ThreeLinesFit(StartLine(verb, target), FieldLine(hn, hv), FieldLine(cn, cv), [], body);
    assert lines == [FieldLine(hn, hv), FieldLine(cn, cv), []][..2];
    m, err := ParseInChunks(input, perRead);
  }
}
