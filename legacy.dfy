/**
 * The earlier whole-input request parser
 * (learn-http-protocol-golang/httpfromtcp/internal/request/request.go): the reader is read
 * to its end, the text is split on CR LF and only the first piece, the request line, is
 * parsed. The request line is checked for three parts, an allowed method and version
 * `HTTP/1.1`; the request target is taken as it stands.
 */
module LegacyRequests {
  import opened Wrappers
  import opened GoText
  import opened RequestLines

  /** Why the whole-input parser refuses a request. */
  datatype LegacyError =
    | MissingRequestLine                // the text splits into no lines at all
    | LineRefused(cause: RequestLineError)

  /** The parsed request: its request line only. */
  datatype Request = Request(requestLine: RequestLineFields)

  /**
   * The request line checks of the whole-input parser: exactly three space-separated parts,
   * an allowed method, version `HTTP/1.1` (stored as `1.1`); the target is not checked.
   * It agrees with the later request line parser in every verdict except that a target
   * the later parser refuses is accepted here.
   */
  function ParseLegacyLine(line: string): (r: Result<RequestLineFields, LegacyError>)
    ensures ParseRequestLine(line).Ok? ==> r == Ok(ParseRequestLine(line).value)
    ensures ParseRequestLine(line).Err? && ParseRequestLine(line).error != InvalidTarget ==>
      r == Err(LineRefused(ParseRequestLine(line).error))
    ensures ParseRequestLine(line) == Err(InvalidTarget) ==>
      r.Ok? && r.value.httpVersion == "1.1" && !ValidRequestTarget(r.value.requestTarget)
  {
    var parts := Split(line, " ");
    if |parts| != 3 then Err(LineRefused(MalformedRequestLine))
    else if !ValidMethod(parts[0]) then Err(LineRefused(InvalidMethod))
    else
      match ValidateHttpVersion(parts[2])
      case Err(e) => Err(LineRefused(e))
      case Ok(version) => Ok(RequestLineFields(version, parts[1], parts[0]))
  }

  /**
   * RequestFromReader on the whole input: the first CR LF-separated piece is parsed as the
   * request line. Split always yields a piece, so MissingRequestLine never arises.
   */
  function RequestFromReader(input: string): (r: Result<Request, LegacyError>)
    ensures r != Err(MissingRequestLine)
  {
    var lines := Split(input, CRLF);
    if |lines| == 0 then Err(MissingRequestLine)
    else
      match ParseLegacyLine(lines[0])
      case Err(e) => Err(e)
      case Ok(fields) => Ok(Request(fields))
  }

  /** Whatever follows the first CR LF pair is never looked at. */
  lemma OnlyFirstLineMatters(line: string, rest: string)
    requires !HasCRLF(line)
    ensures RequestFromReader(line + CRLF + rest) == RequestFromReader(line)
    ensures RequestFromReader(line) == match ParseLegacyLine(line)
                                       case Err(e) => Err(e)
                                       case Ok(fields) => Ok(Request(fields))
  {
    SplitCRLFFirst(line, rest);
    SplitCRLFWithout(line);
  }

  /**
   * Any space-free target, the empty one and one without a `/` included, is accepted after
   * an allowed method and before `HTTP/1.1`, and kept verbatim.
   */
  lemma AnyTargetAccepted(verb: string, target: string)
    requires ValidMethod(verb) && ' ' !in target
    ensures ParseLegacyLine(verb + " " + target + " " + "HTTP/1.1") == Ok(RequestLineFields("1.1", target, verb))
  {
    assert ' ' !in verb;
    assert ' ' !in "HTTP/1.1";
    var parts := [verb, target, "HTTP/1.1"];
    JoinThree(verb, target, "HTTP/1.1", " ");
    SplitJoin(parts, ' ');
  }

  /**
   * The good requests of the whole-input parser's tests: an allowed method, a space-free
   * target and `HTTP/1.1`, then anything at all (the POST test has no empty line). The
   * request is accepted with version `1.1`, the stored form, not the `HTTP/1.1` those tests
   * expect.
   */
  lemma LegacyAccepted(verb: string, target: string, rest: string)
    requires ValidMethod(verb) && NoSpace(target)
    ensures RequestFromReader(verb + " " + target + " " + "HTTP/1.1" + CRLF + rest) ==
      Ok(Request(RequestLineFields("1.1", target, verb)))
  {
    var line := verb + " " + target + " " + "HTTP/1.1";
    assert ' ' !in target && '\r' !in target by {
      forall i | 0 <= i < |target| ensures target[i] != ' ' && target[i] != '\r' { assert !IsSpace(target[i]); }
    }
    assert '\r' !in verb;
    forall i | 0 <= i < |line| ensures line[i] != '\r' {
      if i < |verb| {
        assert line[i] == verb[i];
      } else if |verb| < i < |verb| + 1 + |target| {
        assert line[i] == target[i - |verb| - 1];
      }
    }
    NoCRLFWithoutCR(line);
    OnlyFirstLineMatters(line, rest);
    AnyTargetAccepted(verb, target);
  }

  /**
   * The refused requests of those tests: a missing method, the method out of order and
   * version `HTTP/4`, refused for the same reasons as by the later request line parser.
   */
  lemma LegacyRefusedLines(line: string, rest: string)
    requires line in ["/coffee HTTP/1.1", "/coffee GET HTTP/1.1", "GET / HTTP/4"]
    ensures RequestFromReader(line + CRLF + rest) ==
      Err(LineRefused(if line == "/coffee HTTP/1.1" then MalformedRequestLine
                      else if line == "GET / HTTP/4" then UnsupportedVersion
                      else InvalidMethod))
  {
    NoCRLFWithoutCR(line);
    if line == "/coffee HTTP/1.1" {
      MissingMethodExample(line);
    } else if line == "GET / HTTP/4" {
      UnsupportedVersionExample(line);
    } else {
      MethodOutOfOrderExample(line);
    }
    LegacyRefused(line, rest);
  }

  /** A request line refused other than for its target refuses the request, for that reason. */
  lemma LegacyRefused(line: string, rest: string)
    requires !HasCRLF(line) && ParseRequestLine(line).Err? && ParseRequestLine(line).error != InvalidTarget
    ensures RequestFromReader(line + CRLF + rest) == Err(LineRefused(ParseRequestLine(line).error))
  {
    OnlyFirstLineMatters(line, rest);
  }

  /** The request line `GET  HTTP/1.1`, with an empty target, is accepted. */
  lemma EmptyTargetAccepted(line: string)
    requires line == "GET  HTTP/1.1"
    ensures ParseLegacyLine(line) == Ok(RequestLineFields("1.1", "", "GET"))
    ensures ParseRequestLine(line) == Err(InvalidTarget)
  {
    assert ValidMethod("GET");
    AnyTargetAccepted("GET", "");
    ParseRequestLineOfTokens("GET", "", "HTTP/1.1");
    assert line == "GET" + " " + "" + " " + "HTTP/1.1";
  }

  /**
   * validateRequestTarget as written: the target is refused when it is empty or when it
   * lacks any one of the prefixes `/`, `http://`, `https://`.
   */
  predicate TargetRefusedAsWritten(target: string)
  {
    target == "" || !HasPrefix(target, "/") || !HasPrefix(target, "http://") || !HasPrefix(target, "https://")
  }

  /** No target starts with both `/` and `http://`, so the check as written refuses every target. */
  lemma EveryTargetRefusedAsWritten(target: string)
    ensures TargetRefusedAsWritten(target)
  {
    if HasPrefix(target, "/") {
      assert target[0] == '/' by { assert target[..1][0] == target[0]; }
    }
  }

  /** validateRequestTarget with the intended `&&`: refused when empty or when it has none of the three prefixes. */
  predicate TargetRefusedCorrected(target: string)
  {
    target == "" || (!HasPrefix(target, "/") && !HasPrefix(target, "http://") && !HasPrefix(target, "https://"))
  }

  /**
   * The corrected check refuses exactly the targets the later request line parser refuses:
   * `/` and `http://localhost` pass, the empty target and `coffee` do not.
   */
  lemma TargetCheckCorrected(target: string)
    ensures TargetRefusedCorrected(target) <==> !ValidRequestTarget(target)
    ensures !TargetRefusedCorrected("/") && !TargetRefusedCorrected("http://localhost")
    ensures TargetRefusedCorrected("") && TargetRefusedCorrected("coffee")
  {
    assert HasPrefix("/", "/");
    assert HasPrefix("http://localhost", "http://") by { assert "http://localhost"[..7] == "http://"; }
    assert !HasPrefix("coffee", "/") by { assert "coffee"[..1][0] == 'c'; }
  }
}
