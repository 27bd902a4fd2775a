/**
 * The request line (httpfromtcp/internal/requestline/requestline.go): `method SP target SP
 * version` as in section 3 of RFC 9112, split on single spaces, with the method taken from an
 * allow-list, the version required to be `HTTP/1.1` and stored as `1.1`, and the target
 * required to start with `/`, `http://` or `https://`.
 */
module RequestLines {
  import opened Wrappers
  import opened GoText

  /** Why a request line is refused; the first failing check decides. */
  datatype RequestLineError =
    | MalformedRequestLine  // not exactly three space-separated parts
    | InvalidMethod
    | UnsupportedVersion
    | InvalidTarget

  /** The three fields of a parsed request line. */
  datatype RequestLineFields = RequestLineFields(httpVersion: string, requestTarget: string, requestMethod: string)

  const ValidMethods: seq<string> := ["GET", "POST", "PUT", "DELETE"]
  const ValidHttpVersions: seq<string> := ["HTTP/1.1"]

  /**
   * validateMethod: exact, case-sensitive membership in the allow-list. Every allowed method
   * is upper-case letters only, so a lower-case spelling such as `get` is refused.
   */
  predicate ValidMethod(m: string)
    ensures ValidMethod(m) ==> m != [] && forall i :: 0 <= i < |m| ==> 'A' <= m[i] <= 'Z'
  {
    m in ValidMethods
  }

  /** validateHttpVersion: the version token, with its `HTTP/` prefix removed, or the refusal. */
  function ValidateHttpVersion(raw: string): (r: Result<string, RequestLineError>)
    ensures r.Ok? <==> raw == "HTTP/1.1"
    ensures r.Ok? ==> r.value == "1.1"
    ensures r.Err? ==> r.error == UnsupportedVersion
  {
    if raw in ValidHttpVersions then
      assert HasPrefix(raw, "HTTP/") && raw[5..] == "1.1";
      Ok(ReplaceFirst(raw, "HTTP/", ""))
    else Err(UnsupportedVersion)
  }

  /**
   * validateRequestTarget: non-empty and starting with `/`, `http://` or `https://`; the
   * emptiness check is subsumed by the prefix check.
   */
  predicate ValidRequestTarget(target: string)
    ensures ValidRequestTarget(target) <==>
      HasPrefix(target, "/") || HasPrefix(target, "http://") || HasPrefix(target, "https://")
  {
    target != "" && (HasPrefix(target, "/") || HasPrefix(target, "http://") || HasPrefix(target, "https://"))
  }

  /**
   * ParseLine as a function of the line: the fields, or the first failing check in the
   * order parts, method, version, target. A line that parses has a valid method and target,
   * no space in the target, and its version is stored as `1.1`.
   */
  function ParseRequestLine(line: string): (r: Result<RequestLineFields, RequestLineError>)
    ensures r.Ok? ==> ValidMethod(r.value.requestMethod) && ValidRequestTarget(r.value.requestTarget)
    ensures r.Ok? ==> r.value.httpVersion == "1.1" && ' ' !in r.value.requestTarget
  {
    var parts := Split(line, " ");
    if |parts| != 3 then Err(MalformedRequestLine)
    else if !ValidMethod(parts[0]) then Err(InvalidMethod)
    else
      match ValidateHttpVersion(parts[2])
      case Err(e) => Err(e)
      case Ok(version) =>
        if !ValidRequestTarget(parts[1]) then Err(InvalidTarget)
        else
          assert ' ' !in parts[1] by { assert " "[0] == ' '; }
          Ok(RequestLineFields(version, parts[1], parts[0]))
  }

  /** A line that parses is exactly `method + " " + target + " HTTP/1.1"`. */
  lemma ParseRequestLineRebuilds(line: string)
    requires ParseRequestLine(line).Ok?
    ensures line == ParseRequestLine(line).value.requestMethod + " " +
                    ParseRequestLine(line).value.requestTarget + " " + "HTTP/1.1"
  {
    var parts := Split(line, " ");
    JoinSplit(line, " ");
    assert parts == [parts[0], parts[1], parts[2]];
    JoinThree(parts[0], parts[1], parts[2], " ");
  }

  /**
   * A line built from three space-free tokens is judged by the checks in order: method,
   * then version, then target; when all pass the tokens are stored verbatim and the
   * version as `1.1`.
   */
  lemma ParseRequestLineOfTokens(m: string, target: string, version: string)
    requires ' ' !in m && ' ' !in target && ' ' !in version
    ensures ParseRequestLine(m + " " + target + " " + version) ==
      if !ValidMethod(m) then Err(InvalidMethod)
      else if version != "HTTP/1.1" then Err(UnsupportedVersion)
      else if !ValidRequestTarget(target) then Err(InvalidTarget)
      else Ok(RequestLineFields("1.1", target, m))
  {
    var parts := [m, target, version];
    JoinThree(m, target, version, " ");
    SplitJoin(parts, ' ');
  }

  /** A line is refused as malformed exactly when it does not hold two spaces. */
  lemma MalformedIffNotTwoSpaces(line: string)
    ensures ParseRequestLine(line) == Err(MalformedRequestLine) <==> Count(line, ' ') != 2
  {
    SplitCount(line, ' ');
  }

  /** The request test's line without a method has one space: it is malformed. */
  lemma MissingMethodExample(line: string)
    requires line == "/coffee HTTP/1.1"
    ensures ParseRequestLine(line) == Err(MalformedRequestLine)
  {
    MalformedIffNotTwoSpaces(line);
    OneSpace(line);
  }

  lemma OneSpace(line: string)
    requires line == "/coffee HTTP/1.1"
    ensures Count(line, ' ') == 1
  {
    assert line == "/coffee" + [' '] + "HTTP/1.1";
    SplitAtFirst("/coffee", ' ', "HTTP/1.1");
    SplitWithoutSep("HTTP/1.1", ' ');
    SplitCount(line, ' ');
  }

  /** The request test's line with the method out of order fails the method check. */
  lemma MethodOutOfOrderExample(line: string)
    requires line == "/coffee GET HTTP/1.1"
    ensures ParseRequestLine(line) == Err(InvalidMethod)
  {
    ParseRequestLineOfTokens("/coffee", "GET", "HTTP/1.1");
    assert line == "/coffee" + " " + "GET" + " " + "HTTP/1.1";
  }

  /** The request test's line with version `HTTP/4` fails the version check. */
  lemma UnsupportedVersionExample(line: string)
    requires line == "GET / HTTP/4"
    ensures ParseRequestLine(line) == Err(UnsupportedVersion)
  {
    ParseRequestLineOfTokens("GET", "/", "HTTP/4");
    assert line == "GET" + " " + "/" + " " + "HTTP/4";
  }

  /** The request line of a request: its three fields, written only by a successful parse. */
  class RequestLine {
    var httpVersion: string
    var requestTarget: string
    var requestMethod: string

    constructor ()
      ensures httpVersion == "" && requestTarget == "" && requestMethod == ""
    {
      httpVersion, requestTarget, requestMethod := "", "", "";
    }

    function Snapshot(): RequestLineFields
      reads this
    {
      RequestLineFields(httpVersion, requestTarget, requestMethod)
    }

    /**
     * Parses `line` (no CR LF) and, only when every check passes, stores its fields;
     * a refused line leaves the fields as they were.
     */
    method ParseLine(line: string) returns (err: Option<RequestLineError>)
      modifies this
      ensures ParseRequestLine(line).Err? ==> err == Some(ParseRequestLine(line).error) && Snapshot() == old(Snapshot())
      ensures ParseRequestLine(line).Ok? ==> err == None && Snapshot() == ParseRequestLine(line).value
    {
      var requestLineParts := Split(line, " ");
      if |requestLineParts| != 3 {
        return Some(MalformedRequestLine);
      }
      var m := requestLineParts[0];
      var target := requestLineParts[1];
      var versionRaw := requestLineParts[2];
      if !ValidMethod(m) {
        return Some(InvalidMethod);
      }
      var version := ValidateHttpVersion(versionRaw);
      if version.Err? {
        return Some(version.error);
      }
      if !ValidRequestTarget(target) {
        return Some(InvalidTarget);
      }
      httpVersion := version.value;
      requestTarget := target;
      requestMethod := m;
      return None;
    }
  }
}
