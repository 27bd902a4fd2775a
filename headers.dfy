/**
 * Header field lines (httpfromtcp/internal/headers/headers.go): a line `Name: value`
 * without its CR LF is split on runs of white space, the name is checked against a
 * token character class and put in canonical case, and the pair is stored in the
 * header map, a repeated name getting its values joined with ", " (section 5.3 of
 * RFC 9110).
 */
module HeaderFields {
  import opened Wrappers
  import opened GoText

  /** Why a header line is refused. */
  datatype HeaderError =
    | MalformedHeaderLine   // not exactly two white-space separated fields
    | MissingColon          // the first field does not end in ':'
    | InvalidFieldName      // empty name, or a character outside the token class
    | EmptyNameSegment      // canonicalisation slices an empty '-' segment: a run-time panic in Go

  // ---------------------------------------------------------------------------
  // Field-name validation
  // ---------------------------------------------------------------------------

  /**
   * The characters the name pattern admits: letters, digits and ! # $ % & ' * + - . ^ _ | ~.
   * Section 5.6.2 of RFC 9110 also admits the backtick in a token; this class does not.
   */
  predicate IsTokenChar(c: char)
    ensures IsTokenChar(c) ==> !IsSpace(c) && c != ':'
  {
    'a' <= c <= 'z' || 'A' <= c <= 'Z' || '0' <= c <= '9' || c in "!#$%&'*+-.^_|~"
  }

  /**
   * validateFieldName: the name is one or more token characters, so it holds neither white
   * space nor ':'.
   */
  predicate ValidFieldName(name: string)
    ensures ValidFieldName(name) ==> name != [] && NoSpace(name) && ':' !in name
  {
    |name| > 0 && forall i :: 0 <= i < |name| ==> IsTokenChar(name[i])
  }

  /** What the pattern accepts and refuses, including the names of the header tests. */
  lemma ValidFieldNameExamples()
    ensures ValidFieldName("Host") && ValidFieldName("content-type") && ValidFieldName("X-")
    ensures !ValidFieldName("H@st") && !ValidFieldName("H,st") && !ValidFieldName("")
    ensures !ValidFieldName("Host:") && !ValidFieldName("X`Y")
  {
    assert !IsTokenChar("H@st"[1]);
    assert !IsTokenChar("H,st"[1]);
    assert !IsTokenChar("Host:"[4]);
    assert !IsTokenChar("X`Y"[1]);
  }

  // ---------------------------------------------------------------------------
  // Canonical case
  // ---------------------------------------------------------------------------

  /** A non-empty segment with its first character upper-cased and the rest lower-cased. */
  function CanonicalSegment(part: string): string
    requires part != []
  {
    UpperString(part[..1]) + LowerString(part[1..])
  }

  /** Every segment in canonical case, or None when some segment is empty. */
  function CanonicalParts(parts: seq<string>): (r: Option<seq<string>>)
    ensures r.Some? <==> forall i :: 0 <= i < |parts| ==> parts[i] != []
    ensures r.Some? ==> |r.value| == |parts| &&
                        forall i :: 0 <= i < |parts| ==> parts[i] != [] && r.value[i] == CanonicalSegment(parts[i])
  {
    if parts == [] then Some([])
    else if parts[0] == [] then None
    else
      match CanonicalParts(parts[1..])
      case None => None
      case Some(ps) => Some([CanonicalSegment(parts[0])] + ps)
  }

  /** The canonical form of a field name, or None where the Go code panics on an empty segment. */
  function CanonicalForm(name: string): (r: Option<string>)
    ensures r.Some? ==> forall i :: 0 <= i < |Split(name, "-")| ==> Split(name, "-")[i] != []
    ensures r.None? ==> exists i :: 0 <= i < |Split(name, "-")| && Split(name, "-")[i] == []
  {
    match CanonicalParts(Split(name, "-"))
    case None => None
    case Some(ps) => Some(Join(ps, "-"))
  }

  /**
   * convertFieldNameToConanocalForm: rewrites the '-' segments one by one in a local
   * slice and joins them; an empty segment ends the loop where Go's `part[:1]` panics.
   */
  method ConvertFieldNameToCanonicalForm(fieldName: string) returns (r: Option<string>)
    ensures r == CanonicalForm(fieldName)
  {
    var parts := Split(fieldName, "-");
    ghost var original := parts;
    var i := 0;
    while i < |parts|
      invariant 0 <= i <= |parts| == |original|
      invariant forall j :: 0 <= j < i ==> original[j] != [] && parts[j] == CanonicalSegment(original[j])
      invariant forall j :: i <= j < |parts| ==> parts[j] == original[j]
    {
      var part := parts[i];
      if part == [] {
        return None;
      }
      parts := parts[i := UpperString(part[..1]) + LowerString(part[1..])];
      i := i + 1;
    }
    var canonical := CanonicalParts(original);
    assert canonical.Some?;
    assert canonical.value == parts;
    return Some(Join(parts, "-"));
  }

  /** No '-' segment is empty: the name is non-empty, neither starts nor ends with '-', and has no "--". */
  predicate NoEmptySegment(name: string)
  {
    && name != []
    && name[0] != '-'
    && name[|name| - 1] != '-'
    && forall i :: 0 <= i < |name| - 1 ==> !(name[i] == '-' && name[i + 1] == '-')
  }

  /** Character-wise reference: upper case at the start of each segment, lower case elsewhere. */
  function CanonicalChars(name: string): string
  {
    seq(|name|, i requires 0 <= i < |name| =>
      if i == 0 || name[i - 1] == '-' then ToUpper(name[i]) else ToLower(name[i]))
  }

  lemma SegmentIsCanonicalChars(part: string)
    requires part != [] && '-' !in part
    ensures CanonicalSegment(part) == CanonicalChars(part)
  {
    var x, y := CanonicalSegment(part), CanonicalChars(part);
    assert |x| == |y|;
    forall i | 0 <= i < |x| ensures x[i] == y[i] {
      if i > 0 { assert part[i - 1] != '-'; }
    }
  }

  lemma CanonicalCharsCons(a: string, t: string)
    ensures CanonicalChars(a + "-" + t) == CanonicalChars(a) + "-" + CanonicalChars(t)
  {
    var s := a + "-" + t;
    var x, y := CanonicalChars(s), CanonicalChars(a) + "-" + CanonicalChars(t);
    assert |x| == |y|;
    forall i | 0 <= i < |x| ensures x[i] == y[i] {
      if i < |a| {
        assert s[i] == a[i];
        if i > 0 { assert s[i - 1] == a[i - 1]; }
      } else if i == |a| {
        assert s[i] == '-';
      } else {
        assert s[i] == t[i - |a| - 1];
        if i > |a| + 1 { assert s[i - 1] == t[i - |a| - 2]; } else { assert s[i - 1] == '-'; }
      }
    }
  }

  lemma NoEmptySegmentCons(a: string, t: string)
    requires '-' !in a
    ensures NoEmptySegment(a + "-" + t) <==> a != [] && NoEmptySegment(t)
  {
    var s := a + "-" + t;
    assert s[|a|] == '-';
    if NoEmptySegment(s) {
      assert a != [];
      assert t != [];
      assert t[0] == s[|a| + 1];
      assert t[|t| - 1] == s[|s| - 1];
      forall i | 0 <= i < |t| - 1 ensures !(t[i] == '-' && t[i + 1] == '-') {
        assert t[i] == s[|a| + 1 + i] && t[i + 1] == s[|a| + 2 + i];
      }
    }
    if a != [] && NoEmptySegment(t) {
      assert s[0] == a[0];
      assert s[|s| - 1] == t[|t| - 1];
      forall i | 0 <= i < |s| - 1 ensures !(s[i] == '-' && s[i + 1] == '-') {
        if i < |a| - 1 {
          assert s[i] == a[i];
        } else if i == |a| - 1 {
          assert s[i] == a[i];
        } else if i == |a| {
          assert s[i + 1] == t[0];
        } else {
          assert s[i] == t[i - |a| - 1] && s[i + 1] == t[i - |a|];
        }
      }
    }
  }

  /** Canonicalising `a-t`, where `a` has no '-': the first segment, then the rest. */
  lemma CanonicalFormCons(a: string, t: string)
    requires '-' !in a
    ensures CanonicalForm(a + "-" + t) ==
      if a == [] then None
      else match CanonicalForm(t) { case None => None case Some(x) => Some(CanonicalSegment(a) + "-" + x) }
  {
    assert a + "-" + t == a + ['-'] + t;
    SplitAtFirst(a, '-', t);
    var rest := Split(t, "-");
    assert Split(a + "-" + t, "-") == [a] + rest;
    assert ([a] + rest)[0] == a && ([a] + rest)[1..] == rest;
    match CanonicalParts(rest) {
      case None =>
      case Some(ps) =>
        if a != [] {
          var all := [CanonicalSegment(a)] + ps;
          assert all[1..] == ps;
        }
    }
  }

  /**
   * Canonicalisation agrees with the character-wise reference wherever no segment is
   * empty, and fails exactly when one is.
   */
  lemma {:induction false} CanonicalFormIsCharwise(name: string)
    ensures CanonicalForm(name) == if NoEmptySegment(name) then Some(CanonicalChars(name)) else None
    decreases |name|
  {
    match IndexOfChar(name, '-')
    case None =>
      SplitWithoutSep(name, '-');
      assert Split(name, "-") == [name];
      if name != [] {
        SegmentIsCanonicalChars(name);
        assert [name][1..] == [];
      } else {
        assert CanonicalParts([name]) == None;
      }
    case Some(k) =>
      var a, t := name[..k], name[k + 1..];
      assert name == a + "-" + t;
      CanonicalFormCons(a, t);
      CanonicalFormIsCharwise(t);
      NoEmptySegmentCons(a, t);
      CanonicalCharsCons(a, t);
      if a != [] {
        SegmentIsCanonicalChars(a);
      }
  }

  lemma CaseMappingFacts(c: char)
    ensures ToUpper(ToUpper(c)) == ToUpper(c) && ToLower(ToLower(c)) == ToLower(c)
    ensures ToUpper(ToLower(c)) == ToUpper(c) && ToLower(ToUpper(c)) == ToLower(c)
    ensures (ToUpper(c) == '-' <==> c == '-') && (ToLower(c) == '-' <==> c == '-')
    ensures IsTokenChar(c) ==> IsTokenChar(ToUpper(c)) && IsTokenChar(ToLower(c))
  {
  }

  /** Case mapping keeps the positions of '-', hence the segments. */
  lemma CanonicalCharsKeepsDashes(name: string)
    ensures |CanonicalChars(name)| == |name|
    ensures forall i :: 0 <= i < |name| ==> (CanonicalChars(name)[i] == '-' <==> name[i] == '-')
  {
    forall i | 0 <= i < |name| ensures CanonicalChars(name)[i] == '-' <==> name[i] == '-' {
      CaseMappingFacts(name[i]);
    }
  }

  lemma CanonicalCharsCases(name: string)
    ensures forall i :: 0 <= i < |name| && (i == 0 || name[i - 1] == '-') ==> CanonicalChars(name)[i] == ToUpper(name[i])
    ensures forall i :: 0 < i < |name| && name[i - 1] != '-' ==> CanonicalChars(name)[i] == ToLower(name[i])
  {
    var r := CanonicalChars(name);
    forall i | 0 <= i < |name|
      ensures r[i] == if i == 0 || name[i - 1] == '-' then ToUpper(name[i]) else ToLower(name[i])
    {
    }
  }

  lemma CanonicalCharsKeepsValid(name: string)
    requires ValidFieldName(name)
    ensures ValidFieldName(CanonicalChars(name))
  {
    var r := CanonicalChars(name);
    forall i | 0 <= i < |r| ensures IsTokenChar(r[i]) {
      CaseMappingFacts(name[i]);
    }
  }

  lemma CanonicalCharsIdempotent(name: string)
    ensures NoEmptySegment(name) ==> NoEmptySegment(CanonicalChars(name))
    ensures CanonicalChars(CanonicalChars(name)) == CanonicalChars(name)
  {
    var r := CanonicalChars(name);
    CanonicalCharsKeepsDashes(name);
    if NoEmptySegment(name) {
      assert r[0] != '-' && r[|r| - 1] != '-';
      forall i | 0 <= i < |r| - 1 ensures !(r[i] == '-' && r[i + 1] == '-') {
        assert !(name[i] == '-' && name[i + 1] == '-');
      }
    }
    var rr := CanonicalChars(r);
    forall i | 0 <= i < |r| ensures rr[i] == r[i] {
      CaseMappingFacts(name[i]);
    }
  }

  /**
   * Canonicalisation keeps the length and the positions of '-', upper-cases the first
   * character of each segment and lower-cases the others, keeps the name valid, and is
   * idempotent.
   */
  lemma CanonicalFormProperties(name: string, r: string)
    requires NoEmptySegment(name)
    ensures CanonicalForm(name).Some?
    ensures CanonicalForm(name) == Some(r) ==> |r| == |name|
    ensures CanonicalForm(name) == Some(r) ==> forall i :: 0 <= i < |r| ==> (r[i] == '-' <==> name[i] == '-')
    ensures CanonicalForm(name) == Some(r) ==>
      forall i :: 0 <= i < |r| && (i == 0 || name[i - 1] == '-') ==> r[i] == ToUpper(name[i])
    ensures CanonicalForm(name) == Some(r) ==>
      forall i :: 0 < i < |r| && name[i - 1] != '-' ==> r[i] == ToLower(name[i])
    ensures CanonicalForm(name) == Some(r) && ValidFieldName(name) ==> ValidFieldName(r)
    ensures CanonicalForm(name) == Some(r) ==> CanonicalForm(r) == Some(r)
  {
    CanonicalFormIsCharwise(name);
    CanonicalCharsKeepsDashes(name);
    CanonicalCharsCases(name);
    CanonicalCharsIdempotent(name);
    if ValidFieldName(name) {
      CanonicalCharsKeepsValid(name);
    }
    CanonicalFormIsCharwise(CanonicalChars(name));
  }

  /** The header test's name: `content-type` is stored as `Content-Type`. */
  lemma CanonicalFormExample(name: string)
    requires name == "content-type"
    ensures CanonicalForm(name) == Some("Content-Type")
  {
    CanonicalFormIsCharwise(name);
    assert name[7] == '-';
    assert NoEmptySegment(name);
    var c := CanonicalChars(name);
    assert c[0] == 'C' && c[8] == 'T';
    assert c[1] == 'o' && c[2] == 'n' && c[3] == 't' && c[4] == 'e' && c[5] == 'n' && c[6] == 't' && c[7] == '-';
    assert c[9] == 'y' && c[10] == 'p' && c[11] == 'e';
    assert c == "Content-Type";
  }

  /** The validator admits names whose canonicalisation panics: `X-`, `-X` and `a--b`. */
  lemma ValidNameCanPanic()
    ensures ValidFieldName("X-") && CanonicalForm("X-").None?
    ensures ValidFieldName("-X") && CanonicalForm("-X").None?
    ensures ValidFieldName("a--b") && CanonicalForm("a--b").None?
  {
    CanonicalFormIsCharwise("X-");
    CanonicalFormIsCharwise("-X");
    DoubleDashPanics("a--b");
  }

  lemma DoubleDashPanics(name: string)
    requires name == "a--b"
    ensures ValidFieldName(name) && CanonicalForm(name).None?
  {
    CanonicalFormIsCharwise(name);
    assert name[1] == '-' && name[2] == '-';
  }

  // ---------------------------------------------------------------------------
  // One header line
  // ---------------------------------------------------------------------------

  /**
   * parseLine as a function of the line: the canonical name and the value, or the reason
   * the line is refused. The checks run in the order of the Go code; the canonical name is
   * given character-wise, which CanonicalFormIsCharwise shows is what the segment-wise
   * conversion computes.
   */
  function ParseFieldLine(line: string): (r: Result<(string, string), HeaderError>)
    ensures r.Ok? ==> ValidFieldName(r.value.0) && r.value.1 != [] && NoSpace(r.value.1)
  {
    var parts := Fields(line);
    if |parts| != 2 then Err(MalformedHeaderLine)
    else if !HasSuffix(parts[0], ":") then Err(MissingColon)
    else
      var name := parts[0][..|parts[0]| - 1];
      if !ValidFieldName(name) then Err(InvalidFieldName)
      else if !NoEmptySegment(name) then Err(EmptyNameSegment)
      else
        CanonicalCharsKeepsValid(name);
        Ok((CanonicalChars(name), parts[1]))
  }

  /**
   * The name of an accepted line is stored in canonical form: canonicalising it again
   * changes nothing, and it is the canonical form of the name as written, which exists.
   */
  lemma ParseFieldLineCanonical(line: string)
    requires ParseFieldLine(line).Ok?
    ensures var key := ParseFieldLine(line).value.0;
      CanonicalForm(key) == Some(key) && NoEmptySegment(key)
  {
    var parts := Fields(line);
    var name := parts[0][..|parts[0]| - 1];
    CanonicalFormProperties(name, CanonicalChars(name));
    CanonicalFormIsCharwise(name);
    CanonicalCharsIdempotent(name);
  }

  /**
   * The converse of ParseFieldLineByName: an accepted line is white space, a valid name
   * without empty '-' segments, ':', white space, the value and white space, and nothing
   * else; the stored name is the canonical form of that name.
   */
  lemma ParseFieldLineShape(line: string) returns (lead: string, name: string, sep: string, trail: string)
    requires ParseFieldLine(line).Ok?
    ensures AllSpace(lead) && AllSpace(sep) && sep != [] && AllSpace(trail)
    ensures ValidFieldName(name) && NoEmptySegment(name)
    ensures line == lead + name + ":" + sep + ParseFieldLine(line).value.1 + trail
    ensures ParseFieldLine(line).value.0 == CanonicalChars(name)
  {
    var parts := Fields(line);
    lead, sep, trail := FieldsTwoShape(line);
    name := parts[0][..|parts[0]| - 1];
    assert parts[0] == name + ":";
    assert lead + parts[0] == lead + name + ":";
  }

  /** White space between the name and the colon makes three fields: the line is refused. */
  lemma ParseFieldLineSpaceBeforeColon(lead: string, name: string, sp: string, sep: string, value: string, trail: string)
    requires AllSpace(lead) && AllSpace(sp) && sp != [] && AllSpace(sep) && sep != [] && AllSpace(trail)
    requires name != [] && NoSpace(name) && value != [] && NoSpace(value)
    ensures ParseFieldLine(lead + name + sp + ":" + sep + value + trail) == Err(MalformedHeaderLine)
  {
    var tail := ":" + (sep + (value + trail));
    assert Fields(tail) == [":", value] by {
      FieldsSkipSpace(trail, []);
      assert trail + [] == trail;
      FieldsWord(value, trail);
      FieldsWordSpace(":", sep, value + trail);
    }
    assert Fields(lead + (name + (sp + tail))) == [name, ":", value] by {
      FieldsWordSpace(name, sp, tail);
      FieldsSkipSpace(lead, name + (sp + tail));
    }
    Reassociate(lead, name, sp, sep, value, trail);
  }

  lemma Reassociate(lead: string, name: string, sp: string, sep: string, value: string, trail: string)
    ensures lead + name + sp + ":" + sep + value + trail == lead + (name + (sp + (":" + (sep + (value + trail)))))
  {
  }

  lemma SpacingLineParts(line: string)
    requires line == "       Host : localhost:42069       "
    ensures line == "       " + "Host" + " " + ":" + " " + "localhost:42069" + "       "
  {
  }

  /** The header test's line with white space around the name. */
  lemma ParseFieldLineSpacingExample(line: string)
    requires line == "       Host : localhost:42069       "
    ensures ParseFieldLine(line) == Err(MalformedHeaderLine)
  {
    SpacingLineParts(line);
    ParseFieldLineSpaceBeforeColon("       ", "Host", " ", " ", "localhost:42069", "       ");
  }

  /**
   * A line of two fields whose first one ends in ':' is judged by its name: refused when
   * the name is not a token, refused as a panic when a '-' segment is empty, and
   * otherwise accepted with the canonical name.
   */
  lemma ParseFieldLineByName(lead: string, name: string, sep: string, value: string, trail: string)
    requires AllSpace(lead) && AllSpace(sep) && sep != [] && AllSpace(trail)
    requires NoSpace(name) && value != [] && NoSpace(value)
    ensures var r := ParseFieldLine(lead + name + ":" + sep + value + trail);
      && (!ValidFieldName(name) ==> r == Err(InvalidFieldName))
      && (ValidFieldName(name) && !NoEmptySegment(name) ==> r == Err(EmptyNameSegment))
      && (ValidFieldName(name) && NoEmptySegment(name) ==> r == Ok((CanonicalChars(name), value)))
  {
    var first := name + ":";
    assert NoSpace(first) by {
      forall i | 0 <= i < |first| ensures !IsSpace(first[i]) {
        if i < |name| { assert first[i] == name[i]; }
      }
    }
    assert lead + name + ":" + sep + value + trail == lead + first + sep + value + trail;
    FieldsOfTwo(lead, first, sep, value, trail);
    assert first[..|first| - 1] == name;
    CanonicalFormIsCharwise(name);
  }

  lemma AtSignLineParts(line: string)
    requires line == "H@st: loclahost:42069"
    ensures line == "" + "H@st" + ":" + " " + "loclahost:42069" + ""
  {
  }

  /** The header test's name with '@' is refused. */
  lemma ParseFieldLineAtSign(line: string)
    requires line == "H@st: loclahost:42069"
    ensures ParseFieldLine(line) == Err(InvalidFieldName)
  {
    AtSignLineParts(line);
    ValidFieldNameExamples();
    ParseFieldLineByName("", "H@st", " ", "loclahost:42069", "");
  }

  lemma CommaLineParts(line: string)
    requires line == "H,st: loclahost:42069"
    ensures line == "" + "H,st" + ":" + " " + "loclahost:42069" + ""
  {
  }

  /** The header test's name with ',' is refused. */
  lemma ParseFieldLineComma(line: string)
    requires line == "H,st: loclahost:42069"
    ensures ParseFieldLine(line) == Err(InvalidFieldName)
  {
    CommaLineParts(line);
    ValidFieldNameExamples();
    ParseFieldLineByName("", "H,st", " ", "loclahost:42069", "");
  }

  lemma NoColonLineParts(line: string)
    requires line == "Host localhost:42069"
    ensures line == "" + "Host" + " " + "localhost:42069" + ""
  {
  }

  /** Two fields, but the first does not end in ':'. */
  lemma ParseFieldLineNoColon(line: string)
    requires line == "Host localhost:42069"
    ensures ParseFieldLine(line) == Err(MissingColon)
  {
    NoColonLineParts(line);
    FieldsOfTwo("", "Host", " ", "localhost:42069", "");
  }

  /** A valid name whose canonicalisation would panic is refused. */
  lemma ParseFieldLinePanic(line: string)
    requires line == "X-: 1"
    ensures ParseFieldLine(line) == Err(EmptyNameSegment)
  {
    ParseFieldLineByName("", "X-", " ", "1", "");
    assert line == "" + "X-" + ":" + " " + "1" + "";
    assert !NoEmptySegment("X-");
  }

  // ---------------------------------------------------------------------------
  // The header map
  // ---------------------------------------------------------------------------

  /**
   * Stores `value` under `key`: a new key is inserted with the value, a known key gets ", "
   * and the value appended, and every other key keeps its value.
   */
  function Combine(h: map<string, string>, key: string, value: string): (r: map<string, string>)
    ensures r.Keys == h.Keys + {key}
    ensures key !in h ==> r[key] == value
    ensures key in h ==> r[key] == h[key] + ", " + value
    ensures forall k :: k in h && k != key ==> r[k] == h[k]
  {
    h[key := if key in h then h[key] + ", " + value else value]
  }

  /** The values of one key received in order, combined one after the other. */
  function CombineAll(h: map<string, string>, key: string, values: seq<string>): map<string, string>
    decreases |values|
  {
    if values == [] then h else CombineAll(Combine(h, key, values[0]), key, values[1..])
  }

  lemma {:induction false} CombineAllPresent(h: map<string, string>, key: string, values: seq<string>)
    requires key in h && |values| >= 1
    ensures CombineAll(h, key, values) == h[key := h[key] + ", " + Join(values, ", ")]
    decreases |values|
  {
    var h1 := Combine(h, key, values[0]);
    if |values| > 1 {
      CombineAllPresent(h1, key, values[1..]);
      assert h1[key] + ", " + Join(values[1..], ", ") == h[key] + ", " + Join(values, ", ");
      assert h1[key := h1[key] + ", " + Join(values[1..], ", ")] == h[key := h[key] + ", " + Join(values, ", ")];
    } else {
      assert CombineAll(h1, key, values[1..]) == h1;
    }
  }

  /**
   * Repeated values of a key end up as one value, joined with ", " in the order they
   * were received; no other key changes.
   */
  lemma CombineInOrder(h: map<string, string>, key: string, values: seq<string>)
    requires key !in h && |values| >= 1
    ensures CombineAll(h, key, values) == h[key := Join(values, ", ")]
  {
    var h1 := Combine(h, key, values[0]);
    if |values| > 1 {
      CombineAllPresent(h1, key, values[1..]);
      assert h1[key] + ", " + Join(values[1..], ", ") == Join(values, ", ");
      assert h1[key := Join(values, ", ")] == h[key := Join(values, ", ")];
    } else {
      assert CombineAll(h1, key, values[1..]) == h1;
    }
  }

  /** The header map of a request: canonical field name to value. */
  class Headers {
    var fields: map<string, string>

    constructor ()
      ensures fields == map[]
    {
      fields := map[];
    }

    /** The value stored under a canonical name, if any. */
    function Get(key: string): (r: Option<string>)
      reads this
      ensures r.Some? <==> key in fields
      ensures r.Some? ==> r.value == fields[key]
    {
      if key in fields then Some(fields[key]) else None
    }

    /**
     * Parses one header line (no CR LF) and records it: a new name is inserted, a known
     * one gets ", " and the new value appended, and no other entry changes. A refused
     * line leaves the map as it was.
     */
    method ParseLine(line: string) returns (err: Option<HeaderError>)
      modifies this
      ensures ParseFieldLine(line).Err? ==> err == Some(ParseFieldLine(line).error) && fields == old(fields)
      ensures ParseFieldLine(line).Ok? ==>
        err == None && fields == Combine(old(fields), ParseFieldLine(line).value.0, ParseFieldLine(line).value.1)
    {
      var parts := Fields(line);
      if |parts| != 2 {
        return Some(MalformedHeaderLine);
      }
      if !HasSuffix(parts[0], ":") {
        return Some(MissingColon);
      }
      var fieldName := parts[0][..|parts[0]| - 1];
      if !ValidFieldName(fieldName) {
        return Some(InvalidFieldName);
      }
      CanonicalFormIsCharwise(fieldName);
      var canonical := ConvertFieldNameToCanonicalForm(fieldName);
      if canonical.None? {
        return Some(EmptyNameSegment);
      }
      fieldName := canonical.value;
      var fieldValue := parts[1];
      if fieldName in fields {
        fields := fields[fieldName := fields[fieldName] + ", " + fieldValue];
      } else {
        fields := fields[fieldName := fieldValue];
      }
      return None;
    }
  }
}
