/**
 * Stand-ins for the parts of Go's `strings`, `bytes` and `strconv` packages that the
 * request parser calls: `strings.Split`/`Join`, `strings.Fields` (ASCII white space),
 * ASCII `ToUpper`/`ToLower`, `HasPrefix`/`HasSuffix`, `strings.Replace(_, _, _, 1)`,
 * `bytes.Index(_, "\r\n")` and `strconv.Atoi` (64-bit `int`).
 *
 * A byte of the wire is the character with the same code, so Go's conversion
 * `string(b)` from bytes to a string is the identity in this model.
 */
module GoText {
  import opened Wrappers

  /** One byte, seen as the character with the same code (0 to 255). */
  type byte = c: char | c as int < 256 witness '\0'

  /** The two-byte line terminator of HTTP/1.1. */
  const CRLF: string := "\r\n"

  // ---------------------------------------------------------------------------
  // strings.Split and strings.Join
  // ---------------------------------------------------------------------------

  /** The pieces of `s` between the non-overlapping occurrences of `sep`, found left to right. */
  function Split(s: string, sep: string): (parts: seq<string>)
    requires sep != []
    ensures |parts| >= 1
    ensures |sep| == 1 ==> forall i :: 0 <= i < |parts| ==> sep[0] !in parts[i]
    decreases |s|
  {
    if |s| < |sep| then [s]
    else if s[..|sep|] == sep then [""] + Split(s[|sep|..], sep)
    else
      var rest := Split(s[1..], sep);
      assert |sep| == 1 ==> s[..|sep|] == [s[0]] && sep == [sep[0]];
      [[s[0]] + rest[0]] + rest[1..]
  }

  /** The pieces glued back together with `sep` between neighbours. */
  function Join(parts: seq<string>, sep: string): string
    requires |parts| >= 1
  {
    if |parts| == 1 then parts[0] else parts[0] + sep + Join(parts[1..], sep)
  }

  /** Number of occurrences of `c` in `s`. */
  function Count(s: string, c: char): nat
  {
    if s == [] then 0 else (if s[0] == c then 1 else 0) + Count(s[1..], c)
  }

  lemma {:induction false} JoinConsHead(x: string, parts: seq<string>, sep: string)
    requires |parts| >= 1
    ensures Join([x + parts[0]] + parts[1..], sep) == x + Join(parts, sep)
  {
    var ps := [x + parts[0]] + parts[1..];
    if |parts| > 1 {
      assert ps[1..] == parts[1..];
    }
  }

  lemma JoinThree(a: string, b: string, c: string, sep: string)
    ensures Join([a, b, c], sep) == a + sep + b + sep + c
  {
    var parts := [a, b, c];
    assert parts[1..] == [b, c] && parts[1..][1..] == [c];
    assert Join([c], sep) == c;
    assert Join([b, c], sep) == b + sep + c;
    assert Join(parts, sep) == a + sep + (b + sep + c);
  }

  /** Splitting and joining again gives the input back. */
  lemma {:induction false} JoinSplit(s: string, sep: string)
    requires sep != []
    ensures Join(Split(s, sep), sep) == s
    decreases |s|
  {
    if |s| < |sep| {
    } else if s[..|sep|] == sep {
      var t := s[|sep|..];
      JoinSplit(t, sep);
      var rest := Split(t, sep);
      assert Split(s, sep) == [""] + rest;
      assert ([""] + rest)[1..] == rest;
      assert Join([""] + rest, sep) == "" + sep + Join(rest, sep);
      assert s == sep + t;
    } else {
      var rest := Split(s[1..], sep);
      JoinSplit(s[1..], sep);
      assert Split(s, sep) == [[s[0]] + rest[0]] + rest[1..];
      JoinConsHead([s[0]], rest, sep);
      assert s == [s[0]] + s[1..];
    }
  }

  /** A string without the one-character separator is a single piece. */
  lemma {:induction false} SplitWithoutSep(a: string, c: char)
    requires c !in a
    ensures Split(a, [c]) == [a]
    decreases |a|
  {
    if |a| >= 1 {
      assert a[..1] != [c] by { assert a[..1][0] == a[0]; }
      SplitWithoutSep(a[1..], c);
      assert [a[0]] + a[1..] == a;
    }
  }

  /** The first piece ends at the first occurrence of the one-character separator. */
  lemma {:induction false} SplitAtFirst(a: string, c: char, t: string)
    requires c !in a
    ensures Split(a + [c] + t, [c]) == [a] + Split(t, [c])
    decreases |a|
  {
    var s := a + [c] + t;
    if a == [] {
      assert s[..1] == [c];
      assert s[1..] == t;
    } else {
      assert s[..1] != [c] by { assert s[..1][0] == a[0]; }
      assert s[1..] == a[1..] + [c] + t;
      SplitAtFirst(a[1..], c, t);
      assert [a[0]] + a[1..] == a;
    }
  }

  /** Joining pieces free of the separator and splitting again gives the pieces back. */
  lemma {:induction false} SplitJoin(parts: seq<string>, c: char)
    requires |parts| >= 1
    requires forall i :: 0 <= i < |parts| ==> c !in parts[i]
    ensures Split(Join(parts, [c]), [c]) == parts
    decreases |parts|
  {
    if |parts| == 1 {
      SplitWithoutSep(parts[0], c);
    } else {
      SplitJoin(parts[1..], c);
      SplitAtFirst(parts[0], c, Join(parts[1..], [c]));
      assert [parts[0]] + parts[1..] == parts;
    }
  }

  /** Splitting on one character gives one piece more than there are occurrences of it. */
  lemma {:induction false} SplitCount(s: string, c: char)
    ensures |Split(s, [c])| == Count(s, c) + 1
    decreases |s|
  {
    if s != [] {
      SplitCount(s[1..], c);
      if s[0] == c {
        assert s[..1] == [c];
      } else {
        assert s[..1] != [c] by { assert s[..1][0] == s[0]; }
      }
    }
  }

  /** The position of the first occurrence of `c` in `s`, if any (strings.IndexByte). */
  function IndexOfChar(s: string, c: char): (r: Option<nat>)
    ensures r.Some? ==> r.value < |s| && s[r.value] == c && c !in s[..r.value]
    ensures r.None? ==> c !in s
    decreases |s|
  {
    if s == [] then None
    else if s[0] == c then Some(0)
    else
      match IndexOfChar(s[1..], c)
      case None => None
      case Some(i) =>
        assert s[..i + 1] == [s[0]] + s[1..][..i];
        Some(i + 1)
  }

  // ---------------------------------------------------------------------------
  // strings.Fields, with ASCII white space
  // ---------------------------------------------------------------------------

  /** ASCII white space as `strings.Fields` sees it: space, tab, LF, VT, FF, CR. */
  predicate IsSpace(c: char)
  {
    c == ' ' || '\t' <= c <= '\r'
  }

  predicate NoSpace(s: string)
  {
    forall i :: 0 <= i < |s| ==> !IsSpace(s[i])
  }

  predicate AllSpace(s: string)
  {
    forall i :: 0 <= i < |s| ==> IsSpace(s[i])
  }

  /** The longest prefix of `s` without white space. */
  function Word(s: string): (w: string)
    ensures |w| <= |s| && w == s[..|w|] && NoSpace(w)
    ensures |w| < |s| ==> IsSpace(s[|w|])
    ensures s != [] && !IsSpace(s[0]) ==> |w| >= 1
    decreases |s|
  {
    if s == [] || IsSpace(s[0]) then [] else [s[0]] + Word(s[1..])
  }

  /** The maximal runs of non-space characters of `s`, in order. */
  function Fields(s: string): (fs: seq<string>)
    ensures forall i :: 0 <= i < |fs| ==> fs[i] != [] && NoSpace(fs[i])
    decreases |s|
  {
    if s == [] then []
    else if IsSpace(s[0]) then Fields(s[1..])
    else
      var w := Word(s);
      [w] + Fields(s[|w|..])
  }

  /** Leading white space does not change the fields. */
  lemma {:induction false} FieldsSkipSpace(sp: string, s: string)
    requires AllSpace(sp)
    ensures Fields(sp + s) == Fields(s)
    decreases |sp|
  {
    if sp != [] {
      var t := sp + s;
      assert t != [] && t[0] == sp[0] && IsSpace(sp[0]);
      assert Fields(t) == Fields(t[1..]);
      assert t[1..] == sp[1..] + s;
      FieldsSkipSpace(sp[1..], s);
    } else {
      assert sp + s == s;
    }
  }

  lemma {:induction false} WordOfPrefix(w: string, s: string)
    requires w != [] && NoSpace(w)
    requires s == [] || IsSpace(s[0])
    ensures Word(w + s) == w
    decreases |w|
  {
    assert (w + s)[1..] == w[1..] + s;
    if |w| > 1 {
      WordOfPrefix(w[1..], s);
      assert [w[0]] + w[1..] == w;
    } else {
      assert w[1..] + s == s;
    }
  }

  /** A word followed by white space or by nothing is the first field. */
  lemma {:induction false} FieldsWord(w: string, s: string)
    requires w != [] && NoSpace(w)
    requires s == [] || IsSpace(s[0])
    ensures Fields(w + s) == [w] + Fields(s)
  {
    WordOfPrefix(w, s);
    assert (w + s)[|w|..] == s;
  }

  /** A word, then white space, then anything: the word is the first field. */
  lemma FieldsWordSpace(w: string, sp: string, rest: string)
    requires w != [] && NoSpace(w) && sp != [] && AllSpace(sp)
    ensures Fields(w + (sp + rest)) == [w] + Fields(rest)
  {
    var t := sp + rest;
    assert t[0] == sp[0];
    FieldsWord(w, t);
    FieldsSkipSpace(sp, rest);
  }

  /** A word followed by white space only is the only field. */
  lemma FieldsOfWordTrail(b: string, trail: string)
    requires b != [] && NoSpace(b) && AllSpace(trail)
    ensures Fields(b + trail) == [b]
  {
    FieldsSkipSpace(trail, []);
    assert trail + [] == trail;
    FieldsWord(b, trail);
  }

  /** Two words separated and surrounded by white space are exactly two fields. */
  lemma FieldsOfTwo(lead: string, a: string, sep: string, b: string, trail: string)
    requires AllSpace(lead) && AllSpace(sep) && AllSpace(trail) && sep != []
    requires a != [] && NoSpace(a) && b != [] && NoSpace(b)
    ensures Fields(lead + a + sep + b + trail) == [a, b]
  {
    var tail := b + trail;
    var body := a + (sep + tail);
    assert Fields(tail) == [b] by {
      FieldsOfWordTrail(b, trail);
    }
    assert Fields(body) == [a, b] by {
      FieldsWordSpace(a, sep, tail);
    }
    assert Fields(lead + body) == [a, b] by {
      FieldsSkipSpace(lead, body);
    }
    Reassociate5(lead, a, sep, b, trail);
  }

  lemma Reassociate5(lead: string, a: string, sep: string, b: string, trail: string)
    ensures lead + a + sep + b + trail == lead + (a + (sep + (b + trail)))
  {
  }

  /** The white space `s` starts with and what follows it, which has the same fields. */
  lemma {:induction false} SplitLeadingSpace(s: string) returns (sp: string, t: string)
    ensures AllSpace(sp) && s == sp + t && (t == [] || !IsSpace(t[0]))
    ensures Fields(s) == Fields(t)
    decreases |s|
  {
    if s == [] || !IsSpace(s[0]) {
      sp, t := [], s;
      assert [] + s == s;
    } else {
      var sp1, t1 := SplitLeadingSpace(s[1..]);
      sp, t := [s[0]] + sp1, t1;
      assert s == [s[0]] + s[1..];
      assert Fields(s) == Fields(s[1..]);
    }
  }

  /** Text without fields is white space only. */
  lemma {:induction false} NoFieldsAllSpace(s: string)
    requires Fields(s) == []
    ensures AllSpace(s)
    decreases |s|
  {
    if s != [] {
      assert IsSpace(s[0]);
      NoFieldsAllSpace(s[1..]);
      forall i | 0 < i < |s| ensures IsSpace(s[i]) {
        assert s[i] == s[1..][i - 1];
      }
    }
  }

  /**
   * The converse of FieldsOfTwo: text with exactly two fields is white space, the first
   * field, white space (at least one character), the second field and white space.
   */
  lemma FieldsTwoShape(s: string) returns (lead: string, sep: string, trail: string)
    requires |Fields(s)| == 2
    ensures AllSpace(lead) && AllSpace(sep) && sep != [] && AllSpace(trail)
    ensures s == lead + Fields(s)[0] + sep + Fields(s)[1] + trail
  {
    var t, t2;
    lead, t := SplitLeadingSpace(s);
    assert t != [];
    var a := Word(t);
    var rest := t[|a|..];
    assert Fields(t) == [a] + Fields(rest);
    assert rest != [] && IsSpace(rest[0]);
    sep, t2 := SplitLeadingSpace(rest);
    assert sep != [];
    assert t2 != [];
    var b := Word(t2);
    trail := t2[|b|..];
    assert Fields(t2) == [b] + Fields(trail);
    NoFieldsAllSpace(trail);
    assert Fields(s) == [a, b];
    assert t == a + rest && t2 == b + trail;
    Reassociate5(lead, a, sep, b, trail);
  }

  // ---------------------------------------------------------------------------
  // ASCII case mapping, prefixes, suffixes, strings.Replace(s, old, new, 1)
  // ---------------------------------------------------------------------------

  function ToUpper(c: char): char
  {
    if 'a' <= c <= 'z' then (c as int - 32) as char else c
  }

  function ToLower(c: char): char
  {
    if 'A' <= c <= 'Z' then (c as int + 32) as char else c
  }

  function LowerString(s: string): string
  {
    seq(|s|, i requires 0 <= i < |s| => ToLower(s[i]))
  }

  function UpperString(s: string): string
  {
    seq(|s|, i requires 0 <= i < |s| => ToUpper(s[i]))
  }

  predicate HasPrefix(s: string, prefix: string)
  {
    |prefix| <= |s| && s[..|prefix|] == prefix
  }

  predicate HasSuffix(s: string, suffix: string)
  {
    |suffix| <= |s| && s[|s| - |suffix|..] == suffix
  }

  /** `s` with its first occurrence of `pattern` replaced by `replacement`. */
  function ReplaceFirst(s: string, pattern: string, replacement: string): string
    requires pattern != []
    decreases |s|
  {
    if HasPrefix(s, pattern) then replacement + s[|pattern|..]
    else if s == [] then []
    else [s[0]] + ReplaceFirst(s[1..], pattern, replacement)
  }

  // ---------------------------------------------------------------------------
  // bytes.Index(s, "\r\n")
  // ---------------------------------------------------------------------------

  predicate CRLFAt(s: string, i: int)
  {
    0 <= i && i + 1 < |s| && s[i] == '\r' && s[i + 1] == '\n'
  }

  predicate HasCRLF(s: string)
  {
    exists i :: 0 <= i < |s| && CRLFAt(s, i)
  }

  /** The position of the first CR LF pair in `s`, if there is one. */
  function IndexCRLF(s: string): (r: Option<nat>)
    ensures r.Some? ==> CRLFAt(s, r.value) && forall j :: 0 <= j < r.value ==> !CRLFAt(s, j)
    ensures r.None? <==> !HasCRLF(s)
    decreases |s|
  {
    if |s| < 2 then None
    else if s[0] == '\r' && s[1] == '\n' then Some(0)
    else
      match IndexCRLF(s[1..])
      case None =>
        assert forall i :: CRLFAt(s, i) ==> CRLFAt(s[1..], i - 1);
        None
      case Some(i) =>
        assert forall j :: 1 <= j <= i ==> (CRLFAt(s, j) <==> CRLFAt(s[1..], j - 1));
        assert CRLFAt(s, i + 1);
        Some(i + 1)
  }

  /** Bytes appended after a CR LF pair do not move the first one. */
  lemma IndexCRLFPrefix(a: string, b: string)
    requires HasCRLF(a)
    ensures IndexCRLF(a + b) == IndexCRLF(a)
  {
    var i := IndexCRLF(a).value;
    var s := a + b;
    assert CRLFAt(s, i);
    forall j | 0 <= j < i
      ensures !CRLFAt(s, j)
    {
      assert !CRLFAt(a, j);
    }
  }

  /** Without a CR there is no CR LF pair. */
  lemma NoCRLFWithoutCR(s: string)
    requires '\r' !in s
    ensures !HasCRLF(s)
  {
    forall i | 0 <= i < |s|
      ensures !CRLFAt(s, i)
    {
      assert s[i] in s;
    }
  }

  /** A text without a CR LF pair splits on CR LF into itself alone. */
  lemma {:induction false} SplitCRLFWithout(s: string)
    requires !HasCRLF(s)
    ensures Split(s, CRLF) == [s]
    decreases |s|
  {
    if |s| >= 2 {
      assert !CRLFAt(s, 0);
      assert s[..2] != CRLF by { assert s[..2][0] == s[0] && s[..2][1] == s[1]; }
      assert !HasCRLF(s[1..]) by {
        forall i | 0 <= i < |s[1..]| ensures !CRLFAt(s[1..], i) { assert !CRLFAt(s, i + 1); }
      }
      SplitCRLFWithout(s[1..]);
      assert [s[0]] + s[1..] == s;
    }
  }

  /** The first piece of a split on CR LF is the text before the first CR LF pair. */
  lemma {:induction false} SplitCRLFFirst(line: string, rest: string)
    requires !HasCRLF(line)
    ensures Split(line + CRLF + rest, CRLF)[0] == line
    decreases |line|
  {
    var s := line + CRLF + rest;
    if line == [] {
      assert s[..2] == CRLF;
    } else {
      assert s[..2] != CRLF by {
        if |line| >= 2 {
          assert !CRLFAt(line, 0);
          assert s[..2][0] == line[0] && s[..2][1] == line[1];
        } else {
          assert s[..2][1] == s[1] == '\r';
        }
      }
      assert !HasCRLF(line[1..]) by {
        forall i | 0 <= i < |line[1..]| ensures !CRLFAt(line[1..], i) { assert !CRLFAt(line, i + 1); }
      }
      assert s[1..] == line[1..] + CRLF + rest;
      SplitCRLFFirst(line[1..], rest);
      assert [line[0]] + line[1..] == line;
    }
  }

  /** The terminator of a line free of CR LF is the first CR LF pair. */
  lemma IndexCRLFAfterLine(line: string, rest: string)
    requires !HasCRLF(line)
    ensures IndexCRLF(line + CRLF + rest) == Some(|line|)
  {
    var s := line + CRLF + rest;
    assert CRLFAt(s, |line|);
    forall j | 0 <= j < |line|
      ensures !CRLFAt(s, j)
    {
      if j + 1 < |line| {
        assert !CRLFAt(line, j);
      } else {
        assert s[j + 1] == '\r';
      }
    }
  }

  // ---------------------------------------------------------------------------
  // strconv.Atoi, for a 64-bit int
  // ---------------------------------------------------------------------------

  const MinInt64: int := -0x8000_0000_0000_0000
  const MaxInt64: int := 0x7FFF_FFFF_FFFF_FFFF

  predicate IsDigit(c: char)
  {
    '0' <= c <= '9'
  }

  predicate AllDigits(s: string)
  {
    forall i :: 0 <= i < |s| ==> IsDigit(s[i])
  }

  /** The value of a string of decimal digits. */
  function DigitsValue(s: string): nat
    requires AllDigits(s)
    decreases |s|
  {
    if s == [] then 0 else DigitsValue(s[..|s| - 1]) * 10 + (s[|s| - 1] as int - '0' as int)
  }

  /**
   * An optional `+` or `-`, then at least one decimal digit, with a value that fits
   * a 64-bit int; anything else is an error.
   */
  function Atoi(s: string): (r: Option<int>)
    ensures r.Some? ==> MinInt64 <= r.value <= MaxInt64
    ensures r.Some? ==> s != [] && (IsDigit(s[0]) || s[0] == '+' || s[0] == '-') && AllDigits(s[1..])
    ensures r.Some? && IsDigit(s[0]) ==> AllDigits(s) && r.value == DigitsValue(s)
    ensures r.Some? && s[0] == '+' ==> r.value == DigitsValue(s[1..])
    ensures r.Some? && s[0] == '-' ==> r.value == -(DigitsValue(s[1..]) as int)
  {
    var signed := |s| > 0 && (s[0] == '+' || s[0] == '-');
    var digits := if signed then s[1..] else s;
    if digits == [] || !AllDigits(digits) then None
    else
      var v := if signed && s[0] == '-' then -(DigitsValue(digits) as int) else DigitsValue(digits);
      if MinInt64 <= v <= MaxInt64 then Some(v) else None
  }

  /** The shortest decimal spelling of `n`. */
  function DecimalString(n: nat): (s: string)
    ensures s != [] && AllDigits(s)
  {
    (if n < 10 then [] else DecimalString(n / 10)) + ['0' + (n % 10) as char]
  }

  lemma {:induction false} DigitsValueOfDecimal(n: nat)
    ensures DigitsValue(DecimalString(n)) == n
  {
    var s := DecimalString(n);
    if n >= 10 {
      DigitsValueOfDecimal(n / 10);
      assert s[..|s| - 1] == DecimalString(n / 10);
    } else {
      assert s[..|s| - 1] == [];
    }
  }

  /** Atoi reads back every decimal spelling of a value that fits, with or without a sign. */
  lemma AtoiDecimal(n: nat)
    requires n <= MaxInt64
    ensures Atoi(DecimalString(n)) == Some(n)
    ensures Atoi("+" + DecimalString(n)) == Some(n)
    ensures Atoi("-" + DecimalString(n)) == Some(-(n as int))
  {
    DigitsValueOfDecimal(n);
    var d := DecimalString(n);
    assert IsDigit(d[0]);
    var plus, minus := "+" + d, "-" + d;
    assert plus[0] == '+' && plus[1..] == d;
    assert minus[0] == '-' && minus[1..] == d;
  }
  /**
   * Atoi by the shape of its input: with an optional sign in front (no sign when the rest
   * does not start with one), the input is accepted exactly when the rest is one or more
   * decimal digits whose signed value fits a 64-bit int, and then that value is returned.
   */
  lemma AtoiSpelling(sign: string, ds: string)
    requires sign == "+" || sign == "-" || (sign == "" && (ds == [] || (ds[0] != '+' && ds[0] != '-')))
    ensures Atoi(sign + ds).Some? <==>
      ds != [] && AllDigits(ds) && (if sign == "-" then DigitsValue(ds) <= -MinInt64 else DigitsValue(ds) <= MaxInt64)
    ensures Atoi(sign + ds).Some? ==>
      Atoi(sign + ds).value == if sign == "-" then -(DigitsValue(ds) as int) else DigitsValue(ds)
  {
    var s := sign + ds;
    if sign == "" {
      assert s == ds;
    } else {
      assert s[0] == sign[0] && s[1..] == ds;
    }
  }

  /** A leading zero does not change the value of a digit string. */
  lemma {:induction false} DigitsValueLeadingZero(ds: string)
    requires AllDigits(ds)
    ensures AllDigits("0" + ds) && DigitsValue("0" + ds) == DigitsValue(ds)
    decreases |ds|
  {
    var z := "0" + ds;
    assert AllDigits(z) by {
      forall i | 0 <= i < |z| ensures IsDigit(z[i]) {
        if i > 0 { assert z[i] == ds[i - 1]; }
      }
    }
    if ds != [] {
      var init := ds[..|ds| - 1];
      DigitsValueLeadingZero(init);
      assert z[..|z| - 1] == "0" + init;
      assert z[|z| - 1] == ds[|ds| - 1];
    }
  }

  /** Leading zeros are accepted and ignored, with or without a sign: `007` reads as 7. */
  lemma AtoiLeadingZero(sign: string, ds: string)
    requires sign == "" || sign == "+" || sign == "-"
    requires ds != [] && AllDigits(ds)
    ensures Atoi(sign + ("0" + ds)) == Atoi(sign + ds)
  {
    assert IsDigit(ds[0]);
    DigitsValueLeadingZero(ds);
    AtoiSpelling(sign, ds);
    AtoiSpelling(sign, "0" + ds);
  }

  /** Content-Length spellings: accepted with their value, or refused. */
  lemma AtoiExamples()
    ensures Atoi("13") == Some(13) && Atoi("+5") == Some(5) && Atoi("-0") == Some(0)
    ensures Atoi("") == None && Atoi("+") == None && Atoi("1a") == None && Atoi(" 1") == None
  {
    AtoiSpelling("", "13");
    assert DigitsValue("13") == 13 by { assert "13"[..1] == "1"; }
    AtoiSpelling("+", "5");
    AtoiSpelling("-", "0");
    AtoiSpelling("", "");
    AtoiSpelling("+", "");
    assert !IsDigit("1a"[1]);
    AtoiSpelling("", "1a");
    assert !IsDigit(" 1"[0]);
    AtoiSpelling("", " 1");
  }
}
