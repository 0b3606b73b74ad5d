/**
 * Course code and title taken from an event's SUMMARY by the two fixed patterns
 * of the derivation stage, and the clean-up applied to the title.
 */
module Summary {
  import opened Results
  import opened Text

  /** The length of the `\d+\.\d+` match at the start of `t`, if any. */
  function DottedNumber(t: string): (r: Option<nat>)
    ensures r.Some? ==> 3 <= r.value <= |t|
  {
    var a := Span(t, Digits);
    if 0 < a < |t| && t[a] == '.' then
      var b := Span(t[a + 1..], Digits);
      if b > 0 then Some(a + 1 + b) else None
    else None
  }

  /** The length of `\d+\.\d+(\.[A-Z])?` at the start of `t`, the part of a `SAÉ` code after its prefix. */
  function SaeNumberLength(t: string): (r: Option<nat>)
    ensures r.Some? ==> 3 <= r.value <= |t|
  {
    match DottedNumber(t)
    case None => None
    case Some(n) =>
      if n + 1 < |t| && t[n] == '.' && IsUpper(t[n + 1]) then Some(n + 2) else Some(n)
  }

  const SaePrefix := "SAÉ "

  /**
   * The length of the course code a summary starts with: `R\d+\.\d+`, or
   * `SAÉ \d+\.\d+` with an optional `.` and capital letter, each run taken greedily.
   */
  function CodeLength(s: string): (r: Option<nat>)
    ensures r.Some? ==> 0 < r.value <= |s|
  {
    if s != [] && s[0] == 'R' then
      match DottedNumber(s[1..])
      case None => None
      case Some(n) => Some(1 + n)
    else if SaePrefix <= s then
      match SaeNumberLength(s[|SaePrefix|..])
      case None => None
      case Some(n) => Some(|SaePrefix| + n)
    else None
  }

  /**
   * `^(code)\s+(.*)$`: the code and the text of the second group. `.` stops at a
   * newline and `$` also matches before a final newline, so the text after the
   * spaces must be free of newlines except for one at the very end, which is not captured.
   */
  function CourseMatch(s: string): (r: Option<(string, string)>)
    ensures r.Some? ==> r.value.0 <= s && '\n' !in r.value.1
  {
    match CodeLength(s)
    case None => None
    case Some(n) => AfterCode(s, n)
  }

  /** The `\s+(.*)$` part of the course pattern, once the code `s[..n]` is matched. */
  function AfterCode(s: string, n: nat): (r: Option<(string, string)>)
    requires n <= |s|
    ensures r.Some? ==> r.value.0 == s[..n] && '\n' !in r.value.1
  {
    var w := Span(s[n..], Spaces);
    var rest := s[n + w..];
    var body := if rest != [] && rest[|rest| - 1] == '\n' then rest[..|rest| - 1] else rest;
    if w > 0 && '\n' !in body then Some((s[..n], body)) else None
  }

  // ----- What a course match looks like -----

  /** `\d+\.\d+` and nothing else: a digit run, a dot, a digit run. */
  predicate IsDotted(c: string) {
    exists a :: 0 < a < |c| - 1 && c[a] == '.' && AllOf(c[..a], Digits) && AllOf(c[a + 1..], Digits)
  }

  /** `SAÉ \d+\.\d+(\.[A-Z])?` after the prefix: a dotted number, possibly followed by a dot and a capital. */
  predicate IsSaeNumber(t: string) {
    IsDotted(t) || (|t| >= 2 && t[|t| - 2] == '.' && IsUpper(t[|t| - 1]) && IsDotted(t[..|t| - 2]))
  }

  /** A course code the pattern accepts: `R` and a dotted number, or `SAÉ ` and an SAÉ number. */
  predicate IsCourseCode(c: string) {
    (c != [] && c[0] == 'R' && IsDotted(c[1..])) || (SaePrefix <= c && IsSaeNumber(c[|SaePrefix|..]))
  }

  /** A dotted-number match is a dotted number and stops before a digit. */
  lemma DottedNumberShape(t: string, n: nat)
    requires DottedNumber(t) == Some(n)
    ensures IsDotted(t[..n]) && (n == |t| || !IsDigit(t[n]))
  {
    var a := Span(t, Digits);
    var u := t[a + 1..];
    var b := Span(u, Digits);
    SpanRun(t, Digits);
    SpanRun(u, Digits);
    assert n == a + 1 + b;
    assert t[..n][..a] == t[..a];
    assert t[..n][a + 1..] == u[..b];
    assert t[..n][a] == '.';
    assert n < |t| ==> t[n] == u[b];
  }

  /** An SAÉ-number match is an SAÉ number. */
  lemma SaeNumberLengthShape(t: string, n: nat)
    requires SaeNumberLength(t) == Some(n)
    ensures IsSaeNumber(t[..n])
  {
    var m := DottedNumber(t).value;
    DottedNumberShape(t, m);
    if n != m {
      assert n == m + 2;
      assert t[..n][..n - 2] == t[..m];
    }
  }

  /** A code-length match is a course code. */
  lemma CodeLengthShape(s: string, n: nat)
    requires CodeLength(s) == Some(n)
    ensures IsCourseCode(s[..n])
  {
    if s != [] && s[0] == 'R' {
      DottedNumberShape(s[1..], n - 1);
      assert s[..n][1..] == s[1..][..n - 1];
    } else {
      var k := |SaePrefix|;
      SaeNumberLengthShape(s[k..], n - k);
      assert s[..n][..k] == s[..k];
      assert s[..n][k..] == s[k..][..n - k];
    }
  }

  /**
   * Every course match has the pattern's shape: a course code, a non-empty run
   * of spaces, then the newline-free text, with at most a final newline after it.
   */
  lemma CourseMatchShape(s: string)
    requires CourseMatch(s).Some?
    ensures IsCourseCode(CourseMatch(s).value.0)
    ensures var (code, body) := CourseMatch(s).value;
      '\n' !in body && (body == [] || !IsPcreSpace(body[0])) &&
      exists ws :: ws != [] && AllOf(ws, Spaces) && (s == code + ws + body || s == code + ws + body + "\n")
  {
    var n := CodeLength(s).value;
    CodeLengthShape(s, n);
    AfterCodeShape(s, n, CourseMatch(s).value.0, CourseMatch(s).value.1);
  }

  /** What `\s+(.*)$` accepts after the code: spaces, then the text, with at most a final newline. */
  lemma AfterCodeShape(s: string, n: nat, code: string, body: string)
    requires n <= |s| && AfterCode(s, n) == Some((code, body))
    ensures '\n' !in body && (body == [] || !IsPcreSpace(body[0]))
    ensures exists ws :: ws != [] && AllOf(ws, Spaces) && (s == code + ws + body || s == code + ws + body + "\n")
  {
    var t := s[n..];
    var w := Span(t, Spaces);
    var rest := s[n + w..];
    assert code == s[..n] && w > 0 && '\n' !in body;
    assert body == if rest != [] && rest[|rest| - 1] == '\n' then rest[..|rest| - 1] else rest;
    AfterSpacesShape(s, n, t, w, rest, code, body);
  }

  /** `AfterCodeShape` once the run of spaces and the rest are named. */
  lemma AfterSpacesShape(s: string, n: nat, t: string, w: nat, rest: string, code: string, body: string)
    requires n <= |s| && t == s[n..] && w == Span(t, Spaces) && 0 < w && rest == s[n + w..] && code == s[..n]
    requires body == if rest != [] && rest[|rest| - 1] == '\n' then rest[..|rest| - 1] else rest
    ensures body != [] ==> !IsPcreSpace(body[0])
    ensures exists ws :: ws != [] && AllOf(ws, Spaces) && (s == code + ws + body || s == code + ws + body + "\n")
  {
    assert rest == t[w..];
    SpanRun(t, Spaces);
    var ws := t[..w];
    SpacesLineShape(t, w, ws, rest, body);
    PrefixAndParts(s, n, t, ws, rest);
    ShapeWitness(s, code, ws, rest, body);
  }

  /** The run of spaces, the rest and the text `(.*)$` takes from it. */
  lemma SpacesLineShape(t: string, w: nat, ws: string, rest: string, body: string)
    requires w == Span(t, Spaces) && ws == t[..w] && rest == t[w..]
    requires body == if rest != [] && rest[|rest| - 1] == '\n' then rest[..|rest| - 1] else rest
    ensures t == ws + rest && (rest == body || rest == body + "\n")
    ensures body != [] ==> !IsPcreSpace(body[0])
  {
    SplitFinalNewline(rest, body);
    assert body != [] ==> body[0] == t[w];
  }

  /** The spaces of a decomposition witness the shape of `CourseMatchShape`. */
  lemma ShapeWitness(s: string, code: string, ws: string, rest: string, body: string)
    requires s == code + ws + rest && (rest == body || rest == body + "\n")
    requires ws != [] && AllOf(ws, Spaces)
    ensures exists v :: v != [] && AllOf(v, Spaces) && (s == code + v + body || s == code + v + body + "\n")
  {
    if rest == body {
      assert s == code + ws + body;
    } else {
      assert s == code + ws + body + "\n";
    }
  }

  /** `(.*)$`: the text is the rest, or the rest without its final newline. */
  lemma SplitFinalNewline(rest: string, body: string)
    requires body == if rest != [] && rest[|rest| - 1] == '\n' then rest[..|rest| - 1] else rest
    ensures rest == body || rest == body + "\n"
  {
    if rest != [] && rest[|rest| - 1] == '\n' {
      assert rest == rest[..|rest| - 1] + "\n";
    }
  }

  /** The two digit runs of a dotted number. */
  lemma DottedParts(c: string) returns (major: string, minor: string)
    requires IsDotted(c)
    ensures major != [] && AllOf(major, Digits) && minor != [] && AllOf(minor, Digits)
    ensures c == major + "." + minor
  {
    var a :| 0 < a < |c| - 1 && c[a] == '.' && AllOf(c[..a], Digits) && AllOf(c[a + 1..], Digits);
    major, minor := c[..a], c[a + 1..];
    assert c == major + "." + minor;
  }

  /** `R` and a dotted number, followed by a space, are matched in full. */
  lemma CodeLengthOfR(code: string, rest: string)
    requires code != [] && code[0] == 'R' && IsDotted(code[1..])
    requires rest != [] && IsPcreSpace(rest[0])
    ensures CodeLength(code + rest) == Some(|code|)
  {
    var major, minor := DottedParts(code[1..]);
    var s := code + rest;
    assert s[0] == 'R' && s[1..] == major + "." + minor + rest;
    DottedNumberOf(major, minor, rest);
  }

  /** The dotted number and the optional suffix of an SAÉ number. */
  lemma SaeParts(t: string) returns (major: string, minor: string, suffix: string)
    requires IsSaeNumber(t)
    ensures major != [] && AllOf(major, Digits) && minor != [] && AllOf(minor, Digits)
    ensures suffix == [] || (|suffix| == 2 && suffix[0] == '.' && IsUpper(suffix[1]))
    ensures t == major + "." + minor + suffix
  {
    if IsDotted(t) {
      major, minor := DottedParts(t);
      suffix := [];
    } else {
      major, minor := DottedParts(t[..|t| - 2]);
      suffix := t[|t| - 2..];
      assert t == t[..|t| - 2] + suffix;
    }
  }

  /** `SAÉ ` and an SAÉ number, followed by a space, are matched in full. */
  lemma CodeLengthOfSae(code: string, rest: string, prefix: string)
    requires prefix == SaePrefix && prefix <= code && IsSaeNumber(code[|prefix|..])
    requires rest != [] && IsPcreSpace(rest[0])
    ensures CodeLength(code + rest) == Some(|code|)
  {
    var t := code[|prefix|..];
    var major, minor, suffix := SaeParts(t);
    var s := code + rest;
    assert code == prefix + t;
    assert s[..|prefix|] == prefix && s[|prefix|..] == t + rest;
    assert s != [] && s[0] == prefix[0] != 'R';
    SaeNumberLengthOf(major, minor, suffix, rest, t + rest);
    CodeLengthAtSae(s, t + rest, |t|);
  }

  /** A course code followed by a space is matched in full by the code pattern. */
  lemma CodeLengthOf(code: string, rest: string)
    requires IsCourseCode(code)
    requires rest != [] && IsPcreSpace(rest[0])
    ensures CodeLength(code + rest) == Some(|code|)
  {
    if code != [] && code[0] == 'R' && IsDotted(code[1..]) {
      CodeLengthOfR(code, rest);
    } else {
      CodeLengthOfSae(code, rest, SaePrefix);
    }
  }

  /** Spaces, then a text with no newline before its last character, satisfy `\s+(.*)$`. */
  lemma AfterCodeSome(s: string, n: nat, ws: string, u: string)
    requires n <= |s| && s[n..] == ws + u
    requires ws != [] && AllOf(ws, Spaces)
    requires forall i :: 0 <= i < |u| - 1 ==> u[i] != '\n'
    ensures AfterCode(s, n).Some?
  {
    var t := s[n..];
    SpanAfterPlain(ws, u, Spaces);
    var v := Span(u, Spaces);
    var w := |ws| + v;
    assert Span(t, Spaces) == w;
    var rest := s[n + w..];
    assert rest == u[v..] by {
      assert rest == t[w..];
      assert t[w..] == (ws + u)[|ws| + v..] == u[v..];
    }
    LineBodyClean(u, v, rest);
    AfterCodeWhen(s, n, w, rest);
  }

  /**
   * Spaces, then a text that starts with a non-space and has no newline, with
   * at most a final newline: `\s+(.*)$` captures exactly that text.
   */
  lemma AfterCodeBody(s: string, n: nat, ws: string, u: string, body: string)
    requires n <= |s| && s[n..] == ws + u
    requires ws != [] && AllOf(ws, Spaces)
    requires u == body || u == body + "\n"
    requires '\n' !in body && (body == [] || !IsPcreSpace(body[0]))
    ensures AfterCode(s, n) == Some((s[..n], body))
  {
    var t := s[n..];
    SpanAfterPlain(ws, u, Spaces);
    var v := Span(u, Spaces);
    var w := |ws| + v;
    assert Span(t, Spaces) == w;
    var rest := s[n + w..];
    assert rest == u[v..] by {
      assert rest == t[w..];
      assert t[w..] == (ws + u)[|ws| + v..] == u[v..];
    }
    LineBodyIs(u, v, rest, body);
    AfterCodeIs(s, n, w, rest, body);
  }

  /** What `(.*)$` captures from the rest after the spaces. */
  lemma LineBodyIs(u: string, v: nat, rest: string, body: string)
    requires v == Span(u, Spaces) && rest == u[v..]
    requires u == body || u == body + "\n"
    requires '\n' !in body && (body == [] || !IsPcreSpace(body[0]))
    ensures body == if rest != [] && rest[|rest| - 1] == '\n' then rest[..|rest| - 1] else rest
  {
    if body != [] {
      assert u[0] == body[0];
      assert v == 0 && rest == u;
      if u == body {
        assert body[|body| - 1] != '\n';
      } else {
        assert rest[..|rest| - 1] == body;
      }
    } else if u != [] {
      assert u == "\n";
      assert v == 1;
    }
  }

  /** The value of `\s+(.*)$` from the run of spaces and the rest after it. */
  lemma AfterCodeIs(s: string, n: nat, w: nat, rest: string, body: string)
    requires n <= |s| && w == Span(s[n..], Spaces) && 0 < w && rest == s[n + w..]
    requires body == (if rest != [] && rest[|rest| - 1] == '\n' then rest[..|rest| - 1] else rest) && '\n' !in body
    ensures AfterCode(s, n) == Some((s[..n], body))
  {
  }

  /** The conditions of `\s+(.*)$` on the run of spaces and the rest after it. */
  lemma AfterCodeWhen(s: string, n: nat, w: nat, rest: string)
    requires n <= |s| && w == Span(s[n..], Spaces) && 0 < w && rest == s[n + w..]
    requires '\n' !in if rest != [] && rest[|rest| - 1] == '\n' then rest[..|rest| - 1] else rest
    ensures AfterCode(s, n).Some?
  {
  }

  /** A suffix of a text with no newline before its last character, less a final newline, has none. */
  lemma LineBodyClean(u: string, v: nat, rest: string)
    requires v <= |u| && rest == u[v..]
    requires forall i :: 0 <= i < |u| - 1 ==> u[i] != '\n'
    ensures '\n' !in if rest != [] && rest[|rest| - 1] == '\n' then rest[..|rest| - 1] else rest
  {
    assert forall i :: 0 <= i < |rest| ==> rest[i] == u[v + i];
  }

  /**
   * The converse of `CourseMatchShape`: a course code, a run of spaces and a
   * newline-free text, with at most a final newline, always match.
   */
  lemma CourseMatchComplete(s: string, code: string, ws: string, body: string)
    requires IsCourseCode(code)
    requires ws != [] && AllOf(ws, Spaces) && '\n' !in body
    requires s == code + ws + body || s == code + ws + body + "\n"
    ensures CourseMatch(s).Some? && CourseMatch(s).value.0 == code
  {
    var u := if s == code + ws + body then body else body + "\n";
    var tail := ws + u;
    assert s == code + tail;
    CodeLengthOf(code, tail);
    assert s[..|code|] == code && s[|code|..] == tail;
    AfterCodeSome(s, |code|, ws, u);
  }

  /** A digit run stops at the first non-digit. */
  lemma DigitsThen(d: string, rest: string)
    requires AllOf(d, Digits)
    requires rest == [] || !IsDigit(rest[0])
    ensures Span(d + rest, Digits) == |d|
  {
    SpanAfterPlain(d, rest, Digits);
  }

  lemma DottedNumberOf(major: string, minor: string, rest: string)
    requires major != [] && AllOf(major, Digits)
    requires minor != [] && AllOf(minor, Digits)
    requires rest == [] || !IsDigit(rest[0])
    ensures DottedNumber(major + "." + minor + rest) == Some(|major| + 1 + |minor|)
  {
    var t := major + "." + minor + rest;
    DottedShape(major, minor, rest, t);
    DigitsThen(major, "." + minor + rest);
    DigitsThen(minor, rest);
  }

  lemma DottedShape(major: string, minor: string, rest: string, t: string)
    requires t == major + "." + minor + rest
    ensures t == major + ("." + minor + rest) && ("." + minor + rest)[0] == '.'
    ensures t[|major|] == '.' && t[|major| + 1..] == minor + rest
  {
  }

  /** The text after the code and its spaces, as the pattern leaves it. */
  lemma CourseMatchAfterCode(s: string, n: nat, ws: string, body: string)
    requires CodeLength(s) == Some(n)
    requires s[n..] == ws + body
    requires ws != [] && AllOf(ws, Spaces)
    requires '\n' !in body && (body == [] || !IsPcreSpace(body[0]))
    ensures CourseMatch(s) == Some((s[..n], body))
  {
    SpanAfterPlain(ws, body, Spaces);
    assert Span(body, Spaces) == 0;
    DropTwice(s, n, |ws|, ws, body);
    AfterCodeOf(s, n, |ws|, body);
  }

  lemma AfterCodeOf(s: string, n: nat, w: nat, body: string)
    requires n <= |s| && Span(s[n..], Spaces) == w && 0 < w
    requires n + w <= |s| && s[n + w..] == body && '\n' !in body
    ensures AfterCode(s, n) == Some((s[..n], body))
  {
    assert body == [] || body[|body| - 1] != '\n';
  }

  lemma DropTwice(s: string, n: nat, w: nat, ws: string, body: string)
    requires n <= |s| && s[n..] == ws + body && w == |ws|
    ensures n + w <= |s| && s[n + w..] == body
  {
    assert s[n + w..] == s[n..][w..];
  }

  /** An `R` code followed by spaces and a one-line title is recognised as such. */
  lemma CourseMatchR(major: string, minor: string, ws: string, body: string)
    requires major != [] && AllOf(major, Digits)
    requires minor != [] && AllOf(minor, Digits)
    requires ws != [] && AllOf(ws, Spaces)
    requires '\n' !in body && (body == [] || !IsPcreSpace(body[0]))
    ensures CourseMatch("R" + major + "." + minor + ws + body) == Some(("R" + major + "." + minor, body))
  {
    var code := "R" + major + "." + minor;
    var s := code + ws + body;
    RShape(major, minor, ws + body, code, s);
    assert (ws + body)[0] == ws[0];
    DottedNumberOf(major, minor, ws + body);
    assert CodeLength(s) == Some(|code|);
    CourseMatchAfterCode(s, |code|, ws, body);
  }

  lemma RShape(major: string, minor: string, rest: string, code: string, s: string)
    requires code == "R" + major + "." + minor && s == code + rest
    ensures s != [] && s[0] == 'R' && s[1..] == major + "." + minor + rest
    ensures |code| <= |s| && s[..|code|] == code && s[|code|..] == rest
  {
  }

  /** A `SAÉ` code, with or without its letter suffix, followed by spaces and a one-line title. */
  lemma CourseMatchSae(major: string, minor: string, suffix: string, ws: string, body: string)
    requires major != [] && AllOf(major, Digits)
    requires minor != [] && AllOf(minor, Digits)
    requires suffix == [] || (|suffix| == 2 && suffix[0] == '.' && IsUpper(suffix[1]))
    requires ws != [] && AllOf(ws, Spaces)
    requires '\n' !in body && (body == [] || !IsPcreSpace(body[0]))
    ensures CourseMatch(SaePrefix + major + "." + minor + suffix + ws + body)
         == Some((SaePrefix + major + "." + minor + suffix, body))
  {
    var number := major + "." + minor + suffix;
    var code := SaePrefix + number;
    var s := code + ws + body;
    SaeShape(major, minor, suffix, ws, body, number, code, s);
    assert (ws + body)[0] == ws[0];
    SaeNumberLengthOf(major, minor, suffix, ws + body, number + (ws + body));
    CodeLengthAtSae(s, number + (ws + body), |number|);
    CourseMatchAfterCode(s, |code|, ws, body);
  }

  lemma CodeLengthAtSae(s: string, t: string, n: nat)
    requires s != [] && s[0] != 'R' && SaePrefix <= s && s[|SaePrefix|..] == t
    requires SaeNumberLength(t) == Some(n)
    ensures CodeLength(s) == Some(|SaePrefix| + n)
  {
  }

  lemma SaeShape(major: string, minor: string, suffix: string, ws: string, body: string, number: string, code: string, s: string)
    requires number == major + "." + minor + suffix && code == SaePrefix + number && s == code + ws + body
    ensures s == SaePrefix + major + "." + minor + suffix + ws + body
    ensures code == SaePrefix + major + "." + minor + suffix
    ensures |number| == |major| + 1 + |minor| + |suffix|
    ensures s != [] && s[0] != 'R' && SaePrefix <= s && s[|SaePrefix|..] == number + (ws + body)
    ensures |code| == |SaePrefix| + |number| && s[..|code|] == code && s[|code|..] == ws + body
  {
  }

  lemma SaeNumberLengthOf(major: string, minor: string, suffix: string, rest: string, t: string)
    requires major != [] && AllOf(major, Digits)
    requires minor != [] && AllOf(minor, Digits)
    requires suffix == [] || (|suffix| == 2 && suffix[0] == '.' && IsUpper(suffix[1]))
    requires rest != [] && IsPcreSpace(rest[0])
    requires t == major + "." + minor + suffix + rest
    ensures SaeNumberLength(t) == Some(|major| + 1 + |minor| + |suffix|)
  {
    var n := |major| + 1 + |minor|;
    SaeNumberShape(major, minor, suffix, rest, t, n);
    assert !IsDigit((suffix + rest)[0]);
    DottedNumberOf(major, minor, suffix + rest);
  }

  lemma SaeNumberShape(major: string, minor: string, suffix: string, rest: string, t: string, n: nat)
    requires rest != []
    requires t == major + "." + minor + suffix + rest && n == |major| + 1 + |minor|
    ensures t == major + "." + minor + (suffix + rest)
    ensures suffix == [] ==> n < |t| && t[n] == rest[0]
    ensures |suffix| == 2 ==> n + 1 < |t| && t[n] == suffix[0] && t[n + 1] == suffix[1]
  {
    var p := major + "." + minor;
    assert t == p + (suffix + rest) && |p| == n;
    assert t[n] == (suffix + rest)[0];
    if suffix == [] {
      assert suffix + rest == rest;
    } else {
      assert t[n + 1] == (suffix + rest)[1];
    }
  }

  // ----- `\s*\([A-Z]+\)|\s* - [A-Z].*` replaced by nothing -----

  /** The length of a `\s*\([A-Z]+\)` match at the start of `t`, if any. */
  function TagMatch(t: string): (r: Option<nat>)
    ensures r.Some? ==> 3 <= r.value <= |t|
  {
    var w := Span(t, Spaces);
    if w < |t| && t[w] == '(' then
      var u := Span(t[w + 1..], Uppers);
      if u > 0 && w + 1 + u < |t| && t[w + 1 + u] == ')' then Some(w + u + 2) else None
    else None
  }

  /**
   * The length of a `\s* - [A-Z].*` match at the start of `t`, if any: the spaces
   * must end in a blank followed by `- ` and a capital letter; `.*` runs to the end of the line.
   */
  function DashTailMatch(t: string): (r: Option<nat>)
    ensures r.Some? ==> 4 <= r.value <= |t|
  {
    var w := Span(t, Spaces);
    if 0 < w && t[w - 1] == ' ' && w + 2 < |t| && t[w] == '-' && t[w + 1] == ' ' && IsUpper(t[w + 2]) then
      Some(w + 3 + Span(t[w + 3..], NotNewlines))
    else None
  }

  /** The title clean-up: every match of either alternative removed, leftmost first. */
  function CleanTitle(s: string): (r: string)
    ensures |r| <= |s|
    ensures '(' !in s && '-' !in s ==> r == s
    decreases |s|
  {
    if s == [] then []
    else
      match TagMatch(s)
      case Some(n) => CleanTitle(s[n..])
      case None =>
        match DashTailMatch(s)
        case Some(n) => CleanTitle(s[n..])
        case None => [s[0]] + CleanTitle(s[1..])
  }

  lemma CleanTitleAtTag(t: string, n: nat)
    requires t != [] && TagMatch(t) == Some(n)
    ensures CleanTitle(t) == CleanTitle(t[n..])
  {
  }

  lemma CleanTitleAtDash(t: string, n: nat)
    requires t != [] && TagMatch(t).None? && DashTailMatch(t) == Some(n)
    ensures CleanTitle(t) == CleanTitle(t[n..])
  {
  }

  lemma CleanTitleAtPlain(t: string)
    requires t != [] && TagMatch(t).None? && DashTailMatch(t).None?
    ensures CleanTitle(t) == [t[0]] + CleanTitle(t[1..])
  {
  }

  /** Neither alternative matches where the spaces are followed by a character other than `(` or `-`. */
  lemma NoMatchBeforeSolid(t: string)
    requires Span(t, Spaces) < |t|
    requires t[Span(t, Spaces)] != '(' && t[Span(t, Spaces)] != '-'
    ensures TagMatch(t).None? && DashTailMatch(t).None?
  {
  }

  /** A title part without brackets or dashes that ends in a non-space is kept whole. */
  lemma {:induction false} CleanTitlePlainPrefix(x: string, y: string)
    requires '(' !in x && '-' !in x
    requires x == [] || !IsPcreSpace(x[|x| - 1])
    ensures CleanTitle(x + y) == x + CleanTitle(y)
    decreases |x|
  {
    if x == [] {
      assert x + y == y;
    } else {
      assert '(' !in x[1..] && '-' !in x[1..];
      assert x[1..] == [] || x[1..][|x[1..]| - 1] == x[|x| - 1];
      CleanTitlePlainStep(x, y);
      CleanTitlePlainPrefix(x[1..], y);
      ConsAppend(x, CleanTitle(y));
    }
  }

  /**
   * A `-` that does not start a ` - <A-Z>` tail is kept, with the spaces before
   * it: hyphenated words such as `Web-Dev` and a dash before a lower-case word stay.
   */
  lemma {:induction false} CleanTitleDashKept(ws: string, y: string)
    requires AllOf(ws, Spaces)
    requires !(|y| >= 2 && y[0] == ' ' && IsUpper(y[1]))
    ensures CleanTitle(ws + "-" + y) == ws + "-" + CleanTitle(y)
    decreases |ws|
  {
    DashKeptStep(ws, y);
    if ws == [] {
      assert ws + "-" + y == "-" + y;
      assert ws + "-" + CleanTitle(y) == "-" + CleanTitle(y);
    } else {
      var rest := ws[1..];
      assert AllOf(rest, Spaces);
      CleanTitleDashKept(rest, y);
      ConsAppendTwo(ws, "-", CleanTitle(y));
    }
  }

  /** The first character before or at such a dash is kept. */
  lemma DashKeptStep(ws: string, y: string)
    requires AllOf(ws, Spaces)
    requires !(|y| >= 2 && y[0] == ' ' && IsUpper(y[1]))
    ensures ws == [] ==> CleanTitle(ws + "-" + y) == "-" + CleanTitle(y)
    ensures ws != [] ==> CleanTitle(ws + "-" + y) == [ws[0]] + CleanTitle(ws[1..] + "-" + y)
  {
    var t := ws + "-" + y;
    DashKeptShape(ws, y, t);
    DashNoMatch(t, |ws|);
    CleanTitleAtPlain(t);
  }

  /** Where the spaces before the dash end, and what follows it. */
  lemma DashKeptShape(ws: string, y: string, t: string)
    requires AllOf(ws, Spaces) && t == ws + "-" + y
    requires !(|y| >= 2 && y[0] == ' ' && IsUpper(y[1]))
    ensures Span(t, Spaces) == |ws| && t[|ws|] == '-'
    ensures !(|ws| + 2 < |t| && t[|ws| + 1] == ' ' && IsUpper(t[|ws| + 2]))
    ensures ws == [] ==> [t[0]] == "-" && t[1..] == y
    ensures ws != [] ==> t[0] == ws[0] && t[1..] == ws[1..] + "-" + y
  {
    var v := "-" + y;
    assert t == ws + v;
    SpanAfterPlain(ws, v, Spaces);
    assert Span(v, Spaces) == 0;
    AfterPrefix(ws, v);
    var z := t[|ws| + 1..];
    assert z == v[1..] == y;
    assert |ws| + 2 < |t| ==> t[|ws| + 1] == z[0] && t[|ws| + 2] == z[1];
    HeadAndTail(ws, "-", y, t);
  }

  /** Neither alternative matches at a dash that is not followed by a blank and a capital. */
  lemma DashNoMatch(t: string, w: nat)
    requires Span(t, Spaces) == w && w < |t| && t[w] == '-'
    requires !(w + 2 < |t| && t[w + 1] == ' ' && IsUpper(t[w + 2]))
    ensures TagMatch(t).None? && DashTailMatch(t).None?
  {
  }

  /**
   * A `(` that does not open a `([A-Z]+)` tag is kept, with the spaces before it:
   * `Maths (remise à niveau)` and `(TD2)` keep their brackets.
   */
  lemma {:induction false} CleanTitleParenKept(ws: string, y: string)
    requires AllOf(ws, Spaces)
    requires !(0 < Span(y, Uppers) < |y| && y[Span(y, Uppers)] == ')')
    ensures CleanTitle(ws + "(" + y) == ws + "(" + CleanTitle(y)
    decreases |ws|
  {
    if ws == [] {
      ParenKeptStep(ws, y);
      assert ws + "(" + CleanTitle(y) == "(" + CleanTitle(y);
    } else {
      var rest := ws[1..];
      assert AllOf(rest, Spaces) by { assert forall k :: 0 <= k < |rest| ==> rest[k] == ws[k + 1]; }
      CleanTitleParenKept(rest, y);
      ParenKeptStep(ws, y);
      KeptCons(ws, "(", CleanTitle(ws + "(" + y), CleanTitle(rest + "(" + y), CleanTitle(y));
    }
  }

  /** A kept first character followed by a kept rest gives the whole, kept. */
  lemma KeptCons(ws: string, c: string, whole: string, tail: string, cleaned: string)
    requires ws != []
    requires whole == [ws[0]] + tail && tail == ws[1..] + c + cleaned
    ensures whole == ws + c + cleaned
  {
    ConsAppendTwo(ws, c, cleaned);
  }

  /** The first character before or at such a bracket is kept. */
  lemma ParenKeptStep(ws: string, y: string)
    requires AllOf(ws, Spaces)
    requires !(0 < Span(y, Uppers) < |y| && y[Span(y, Uppers)] == ')')
    ensures ws == [] ==> CleanTitle(ws + "(" + y) == "(" + CleanTitle(y)
    ensures ws != [] ==> CleanTitle(ws + "(" + y) == [ws[0]] + CleanTitle(ws[1..] + "(" + y)
  {
    var t := ws + "(" + y;
    ParenKeptShape(ws, y, t);
    ParenNoMatch(t, |ws|, y);
    CleanTitleAtPlain(t);
  }

  /** Where the spaces before the bracket end, and what follows it. */
  lemma ParenKeptShape(ws: string, y: string, t: string)
    requires AllOf(ws, Spaces) && t == ws + "(" + y
    ensures Span(t, Spaces) == |ws| && t[|ws|] == '(' && t[|ws| + 1..] == y
    ensures ws == [] ==> [t[0]] == "(" && t[1..] == y
    ensures ws != [] ==> t[0] == ws[0] && t[1..] == ws[1..] + "(" + y
  {
    var v := "(" + y;
    assert t == ws + v;
    SpanAfterPlain(ws, v, Spaces);
    assert Span(v, Spaces) == 0;
    AfterPrefix(ws, v);
    assert v[1..] == y;
    HeadAndTail(ws, "(", y, t);
  }

  /** Neither alternative matches at a bracket whose capitals are not closed by `)`. */
  lemma ParenNoMatch(t: string, w: nat, y: string)
    requires Span(t, Spaces) == w && w < |t| && t[w] == '(' && t[w + 1..] == y
    requires !(0 < Span(y, Uppers) < |y| && y[Span(y, Uppers)] == ')')
    ensures TagMatch(t).None? && DashTailMatch(t).None?
  {
    var u := Span(y, Uppers);
    assert w + 1 + u < |t| ==> t[w + 1 + u] == y[u];
  }

  /** One character of such a title part is kept. */
  lemma CleanTitlePlainStep(x: string, y: string)
    requires x != [] && '(' !in x && '-' !in x && !IsPcreSpace(x[|x| - 1])
    ensures CleanTitle(x + y) == [x[0]] + CleanTitle(x[1..] + y)
  {
    var t := x + y;
    var w := Span(t, Spaces);
    SpanRun(t, Spaces);
    assert t[|x| - 1] == x[|x| - 1];
    assert w < |x|;
    assert t[w] == x[w];
    NoMatchBeforeSolid(t);
    CleanTitleAtPlain(t);
    assert t[1..] == x[1..] + y;
  }

  lemma TagMatchOf(ws: string, tag: string, y: string)
    requires AllOf(ws, Spaces)
    requires tag != [] && AllOf(tag, Uppers)
    ensures TagMatch(ws + "(" + tag + ")" + y) == Some(|ws| + |tag| + 2)
  {
    var t := ws + "(" + tag + ")" + y;
    var u := "(" + tag + ")" + y;
    TagShape(ws, tag, y, t, u);
    SpanAfterPlain(ws, u, Spaces);
    assert Span(u, Spaces) == 0;
    SpanAfterPlain(tag, ")" + y, Uppers);
    assert Span(")" + y, Uppers) == 0;
    TagMatchAt(t, |ws|, |tag|);
  }

  lemma TagShape(ws: string, tag: string, y: string, t: string, u: string)
    requires t == ws + "(" + tag + ")" + y && u == "(" + tag + ")" + y
    ensures t == ws + u && u != [] && u[0] == '(' && (")" + y)[0] == ')'
    ensures |ws| + 1 + |tag| < |t| && t[|ws|] == '(' && t[|ws| + 1 + |tag|] == ')'
    ensures t[|ws| + 1..] == tag + (")" + y)
  {
  }

  lemma TagMatchAt(t: string, w: nat, u: nat)
    requires Span(t, Spaces) == w && w < |t| && t[w] == '('
    requires Span(t[w + 1..], Uppers) == u && 0 < u && w + 1 + u < |t| && t[w + 1 + u] == ')'
    ensures TagMatch(t) == Some(w + u + 2)
  {
  }

  /** A bracketed capital-letter tag, with the spaces before it, is removed. */
  lemma CleanTitleDropsTag(ws: string, tag: string, y: string)
    requires AllOf(ws, Spaces)
    requires tag != [] && AllOf(tag, Uppers)
    ensures CleanTitle(ws + "(" + tag + ")" + y) == CleanTitle(y)
  {
    var t := ws + "(" + tag + ")" + y;
    TagMatchOf(ws, tag, y);
    CleanTitleAtTag(t, |ws| + |tag| + 2);
    assert t[|ws| + |tag| + 2..] == y;
  }

  lemma DashTailMatchOf(ws: string, c: char, z: string)
    requires AllOf(ws, Spaces)
    requires IsUpper(c)
    requires '\n' !in z
    ensures TagMatch(ws + " - " + [c] + z).None?
    ensures DashTailMatch(ws + " - " + [c] + z) == Some(|ws| + 4 + |z|)
  {
    var t := ws + " - " + [c] + z;
    var ws' := ws + " ";
    var v := "- " + [c] + z;
    DashShape(ws, c, z, t, ws', v);
    SpanAfterPlain(ws', v, Spaces);
    assert Span(v, Spaces) == 0;
    var w := |ws'|;
    assert AllOf(z, NotNewlines);
    SpanAll(z, NotNewlines);
    TagMatchNoneAt(t);
    DashTailMatchAt(t, w, |z|);
  }

  lemma DashShape(ws: string, c: char, z: string, t: string, ws': string, v: string)
    requires t == ws + " - " + [c] + z && ws' == ws + " " && v == "- " + [c] + z
    ensures t == ws' + v && v != [] && v[0] == '-'
    ensures AllOf(ws, Spaces) ==> AllOf(ws', Spaces)
    ensures var w := |ws'|; w + 2 < |t| && t[w - 1] == ' ' && t[w] == '-' && t[w + 1] == ' ' && t[w + 2] == c
    ensures t[|ws'| + 3..] == z && |t| == |ws| + 4 + |z|
  {
  }

  lemma TagMatchNoneAt(t: string)
    requires Span(t, Spaces) < |t| && t[Span(t, Spaces)] != '('
    ensures TagMatch(t).None?
  {
  }

  lemma DashTailMatchAt(t: string, w: nat, k: nat)
    requires Span(t, Spaces) == w && 0 < w && w + 2 < |t|
    requires t[w - 1] == ' ' && t[w] == '-' && t[w + 1] == ' ' && IsUpper(t[w + 2])
    requires Span(t[w + 3..], NotNewlines) == k
    ensures DashTailMatch(t) == Some(w + 3 + k)
  {
  }

  /** A ` - ` followed by a capital letter removes the rest of the line. */
  lemma CleanTitleDropsDashTail(ws: string, c: char, z: string)
    requires AllOf(ws, Spaces)
    requires IsUpper(c)
    requires '\n' !in z
    ensures CleanTitle(ws + " - " + [c] + z) == []
  {
    var t := ws + " - " + [c] + z;
    DashTailMatchOf(ws, c, z);
    CleanTitleAtDash(t, |t|);
    assert t[|t|..] == [];
  }

  // ----- `^Autonomie (.*?) -` -----

  /** The lazy `(.*?) -`: the shortest newline-free prefix of `t` that is followed by ` -`. */
  function LazyUntilDash(t: string): (r: Option<nat>)
    ensures r.Some? ==> OccursAt(t, " -", r.value) && '\n' !in t[..r.value]
    ensures r.Some? ==> forall j :: 0 <= j < r.value ==> !OccursAt(t, " -", j)
    ensures r.None? ==> forall j :: 0 <= j <= |t| && OccursAt(t, " -", j) ==> '\n' in t[..j]
    decreases |t|
  {
    if |t| >= 2 && t[0] == ' ' && t[1] == '-' then
      assert t[..2] == " -";
      Some(0)
    else if t != [] && t[0] != '\n' then
      assert !OccursAt(t, " -", 0);
      var r := LazyUntilDash(t[1..]);
      forall j | 1 <= j <= |t|
        ensures OccursAt(t, " -", j) <==> OccursAt(t[1..], " -", j - 1)
        ensures t[..j] == [t[0]] + t[1..][..j - 1]
      {
        OccursAtTail(t, " -", j);
      }
      match r
      case None =>
        forall j | 0 <= j <= |t| && OccursAt(t, " -", j)
          ensures '\n' in t[..j]
        {
          assert '\n' in t[1..][..j - 1];
        }
        None
      case Some(i) =>
        assert '\n' !in t[..i + 1] by {
          assert '\n' !in t[1..][..i];
        }
        assert OccursAt(t, " -", i + 1);
        Some(i + 1)
    else
      assert t != [] ==> t[..1] == "\n";
      None
  }

  const AutonomiePrefix := "Autonomie "

  /** `^Autonomie (.*?) -`: the captured code. */
  function AutonomieCode(s: string): (r: Option<string>)
    ensures r.Some? ==> AutonomiePrefix + r.value + " -" <= s && '\n' !in r.value
    ensures r.Some? ==> forall j :: |AutonomiePrefix| <= j < |AutonomiePrefix| + |r.value| ==> !OccursAt(s, " -", j)
    ensures r.None? && AutonomiePrefix <= s ==>
      forall j :: |AutonomiePrefix| <= j && OccursAt(s, " -", j) ==> '\n' in s[|AutonomiePrefix|..j]
  {
    if AutonomiePrefix <= s then
      var k := |AutonomiePrefix|;
      var t := s[k..];
      forall j | k <= j
        ensures OccursAt(s, " -", j) <==> OccursAt(t, " -", j - k)
      {
        OccursShift(s, k, " -", j);
      }
      match LazyUntilDash(t)
      case None =>
        forall j | k <= j && OccursAt(s, " -", j)
          ensures '\n' in s[k..j]
        {
          assert t[..j - k] == s[k..j];
        }
        None
      case Some(j) =>
        assert s[..k + j + 2] == AutonomiePrefix + t[..j] + " -";
        Some(t[..j])
    else None
  }

  /** An occurrence at or after `k` is an occurrence in `s[k..]`. */
  lemma OccursShift(s: string, k: nat, needle: string, j: int)
    requires k <= |s| && k <= j
    ensures OccursAt(s, needle, j) <==> OccursAt(s[k..], needle, j - k)
  {
    if j + |needle| <= |s| {
      assert s[k..][j - k..j - k + |needle|] == s[j..j + |needle|];
    }
  }

  datatype CodeTitle = CodeTitle(code: Option<string>, title: Option<string>)

  /**
   * The course code and title of a summary: the course pattern first, the
   * `Autonomie` pattern only when it fails, and neither when both fail.
   */
  function SummaryLabels(summary: string): (r: CodeTitle)
    ensures r.code.Some? <==> r.title.Some?
    ensures r.code.Some? <==> CourseMatch(summary).Some? || AutonomieCode(summary).Some?
    ensures CourseMatch(summary).None? && AutonomieCode(summary).Some? ==> r.title == Some("Autonomie")
    ensures CourseMatch(summary).Some? ==> r.code.Some? && IsCourseCode(r.code.value)
    ensures CourseMatch(summary).Some? ==>
      r == CodeTitle(Some(CourseMatch(summary).value.0), Some(CleanTitle(CourseMatch(summary).value.1)))
    ensures CourseMatch(summary).None? ==> r.code == AutonomieCode(summary)
  {
    match CourseMatch(summary)
    case Some((code, body)) =>
      CourseMatchShape(summary);
      CodeTitle(Some(code), Some(CleanTitle(body)))
    case None =>
      match AutonomieCode(summary)
      case Some(code) => CodeTitle(Some(code), Some("Autonomie"))
      case None => CodeTitle(None, None)
  }

  /**
   * A summary made of a course code, spaces and a one-line text gets that code,
   * whatever an `Autonomie` reading would give.
   */
  lemma SummaryLabelsOfCode(summary: string, code: string, ws: string, body: string)
    requires IsCourseCode(code)
    requires ws != [] && AllOf(ws, Spaces) && '\n' !in body
    requires summary == code + ws + body || summary == code + ws + body + "\n"
    ensures SummaryLabels(summary).code == Some(code) && SummaryLabels(summary).title.Some?
    ensures body == [] || !IsPcreSpace(body[0]) ==> SummaryLabels(summary).title == Some(CleanTitle(body))
  {
    CourseMatchComplete(summary, code, ws, body);
    if body == [] || !IsPcreSpace(body[0]) {
      CourseMatchBody(summary, code, ws, body);
    }
  }

  /** A course-shaped summary whose text starts with a non-space captures exactly that text. */
  lemma CourseMatchBody(s: string, code: string, ws: string, body: string)
    requires IsCourseCode(code)
    requires ws != [] && AllOf(ws, Spaces) && '\n' !in body && (body == [] || !IsPcreSpace(body[0]))
    requires s == code + ws + body || s == code + ws + body + "\n"
    ensures CourseMatch(s) == Some((code, body))
  {
    var u := if s == code + ws + body then body else body + "\n";
    assert s == code + (ws + u);
    CodeLengthOf(code, ws + u);
    assert s[..|code|] == code && s[|code|..] == ws + u;
    AfterCodeBody(s, |code|, ws, u, body);
  }

  /** A title that starts with ` - X` is removed entirely. */
  lemma CleanTitleDashTail(tail: string, c: char, z: string)
    requires IsUpper(c) && '\n' !in z
    requires tail == " - " + [c] + z
    ensures CleanTitle(tail) == []
  {
    CleanTitleDropsDashTail([], c, z);
    assert [] + " - " + [c] + z == tail;
  }

  /**
   * A course summary such as `R1.01 Intro (A) - B`: the code is kept, and the
   * title loses its `(TAG)` and everything from its ` - X` onwards.
   */
  lemma SummaryLabelsCourse(major: string, minor: string, ws: string, title: string, rest: string, ws2: string, tag: string, c: char, z: string)
    requires major != [] && AllOf(major, Digits)
    requires minor != [] && AllOf(minor, Digits)
    requires ws != [] && AllOf(ws, Spaces)
    requires title != [] && !IsPcreSpace(title[0]) && !IsPcreSpace(title[|title| - 1])
    requires '(' !in title && '-' !in title && '\n' !in title
    requires AllOf(ws2, Spaces) && '\n' !in ws2
    requires tag != [] && AllOf(tag, Uppers)
    requires IsUpper(c) && '\n' !in z
    requires rest == ws2 + "(" + tag + ")" + " - " + [c] + z
    ensures SummaryLabels("R" + major + "." + minor + ws + title + rest) == CodeTitle(Some("R" + major + "." + minor), Some(title))
  {
    var s := "R" + major + "." + minor + ws + title + rest;
    var body := title + rest;
    assert s == "R" + major + "." + minor + ws + body;
    assert body[0] == title[0];
    var tail := " - " + [c] + z;
    assert rest == ws2 + "(" + tag + ")" + tail;
    assert '\n' !in rest by {
      assert '\n' !in tag && '\n' !in tail;
      assert rest == ws2 + ("(" + tag + ")" + tail);
    }
    CourseMatchR(major, minor, ws, body);
    CleanTitleOfCourse(title, rest, ws2, tag, tail, c, z);
  }

  /** The title part of `SummaryLabelsCourse`. */
  lemma CleanTitleOfCourse(title: string, rest: string, ws2: string, tag: string, tail: string, c: char, z: string)
    requires title == [] || !IsPcreSpace(title[|title| - 1])
    requires '(' !in title && '-' !in title
    requires AllOf(ws2, Spaces)
    requires tag != [] && AllOf(tag, Uppers)
    requires IsUpper(c) && '\n' !in z
    requires rest == ws2 + "(" + tag + ")" + tail && tail == " - " + [c] + z
    ensures CleanTitle(title + rest) == title
  {
    CleanTitlePlainPrefix(title, rest);
    CleanTitleDropsTag(ws2, tag, tail);
    CleanTitleDashTail(tail, c, z);
    AppendEmpty(title);
  }

  /** A summary `Autonomie CODE - ...` gives the code and the title `Autonomie`. */
  lemma SummaryLabelsAutonomie(code: string, rest: string)
    requires '-' !in code && '\n' !in code
    ensures SummaryLabels(AutonomiePrefix + code + " -" + rest) == CodeTitle(Some(code), Some("Autonomie"))
  {
    var s := AutonomiePrefix + code + " -" + rest;
    var t := code + " -" + rest;
    assert s[0] == 'A';
    assert CodeLength(s).None?;
    assert AutonomiePrefix <= s && s[|AutonomiePrefix|..] == t;
    assert OccursAt(t, " -", |code|) by { assert t[|code|..|code| + 2] == " -"; }
    assert t[..|code|] == code;
    forall j | 0 <= j < |code|
      ensures !OccursAt(t, " -", j)
    {
      assert t[j + 1] == (if j + 1 < |code| then code[j + 1] else ' ');
    }
    match LazyUntilDash(t)
    case Some(j) =>
      assert j == |code|;
    case None =>
  }
}
