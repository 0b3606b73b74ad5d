/**
 * The PHP string builtins the parser relies on, over strings of characters:
 * `strpos`, `explode`, `trim` and `stripcslashes`.
 */
module Text {
  import opened Results

  /** `needle` occurs in `s` starting at position `i`. */
  predicate OccursAt(s: string, needle: string, i: int) {
    0 <= i && i + |needle| <= |s| && s[i..i + |needle|] == needle
  }

  predicate Contains(s: string, needle: string) {
    exists i :: 0 <= i <= |s| && OccursAt(s, needle, i)
  }

  /** An occurrence after the first character is an occurrence in the tail. */
  lemma OccursAtTail(s: string, needle: string, j: int)
    requires s != [] && 1 <= j
    ensures OccursAt(s, needle, j) <==> OccursAt(s[1..], needle, j - 1)
  {
    if j + |needle| <= |s| {
      assert s[1..][j - 1..j - 1 + |needle|] == s[j..j + |needle|];
    }
  }

  /** `strpos`: the first position at which `needle` occurs, if any. */
  function Find(s: string, needle: string): (r: Option<nat>)
    ensures r.Some? ==> OccursAt(s, needle, r.value)
    ensures r.Some? ==> forall j :: 0 <= j < r.value ==> !OccursAt(s, needle, j)
    ensures r.None? <==> !Contains(s, needle)
    decreases |s|
  {
    if |s| < |needle| then None
    else if s[..|needle|] == needle then Some(0)
    else
      var r := Find(s[1..], needle);
      forall j | 1 <= j <= |s|
        ensures OccursAt(s, needle, j) <==> OccursAt(s[1..], needle, j - 1)
      {
        OccursAtTail(s, needle, j);
      }
      match r
      case None => None
      case Some(i) =>
        assert OccursAt(s, needle, i + 1);
        Some(i + 1)
  }

  /** The first position of character `c` in `s`, if any. */
  function IndexOfChar(s: string, c: char): (r: Option<nat>)
    ensures r.Some? ==> r.value < |s| && s[r.value] == c && c !in s[..r.value]
    ensures r.None? <==> c !in s
    decreases |s|
  {
    if s == [] then None
    else if s[0] == c then Some(0)
    else
      match IndexOfChar(s[1..], c)
      case None => None
      case Some(i) =>
        assert s[..i + 1] == [s[0]] + s[1..][..i];
        Some(i + 1)
  }

  /** `explode($sep, $s)`: the pieces of `s` between occurrences of `sep`. */
  function Split(s: string, sep: char): (parts: seq<string>)
    ensures |parts| >= 1
    ensures forall k :: 0 <= k < |parts| ==> sep !in parts[k]
    decreases |s|
  {
    match IndexOfChar(s, sep)
    case None => [s]
    case Some(i) => [s[..i]] + Split(s[i + 1..], sep)
  }

  /** `implode($sep, $parts)`, the inverse of `Split`. */
  function Join(parts: seq<string>, sep: char): string
    requires |parts| >= 1
  {
    if |parts| == 1 then parts[0] else parts[0] + [sep] + Join(parts[1..], sep)
  }

  /** Joining the pieces of `s` gives `s` back: nothing is lost by splitting. */
  lemma {:induction false} JoinSplit(s: string, sep: char)
    ensures Join(Split(s, sep), sep) == s
    decreases |s|
  {
    match IndexOfChar(s, sep)
    case None =>
    case Some(i) =>
      var rest := Split(s[i + 1..], sep);
      assert Split(s, sep) == [s[..i]] + rest;
      JoinSplit(s[i + 1..], sep);
      calc {
        Join(Split(s, sep), sep);
        s[..i] + [sep] + Join(rest, sep);
        s[..i] + [sep] + s[i + 1..];
        s;
      }
  }

  /** Splitting a join of separator-free pieces gives the pieces back. */
  lemma {:induction false} SplitJoin(parts: seq<string>, sep: char)
    requires |parts| >= 1
    requires forall k :: 0 <= k < |parts| ==> sep !in parts[k]
    ensures Split(Join(parts, sep), sep) == parts
    decreases |parts|
  {
    if |parts| > 1 {
      var a, b := parts[0], Join(parts[1..], sep);
      assert Join(parts, sep) == a + [sep] + b;
      SplitAt(a, b, sep);
      SplitJoin(parts[1..], sep);
      assert parts == [a] + parts[1..];
    }
  }

  /** A text whose first separator follows `a` splits into `a` and the pieces of the rest. */
  lemma SplitAt(a: string, b: string, sep: char)
    requires sep !in a
    ensures Split(a + [sep] + b, sep) == [a] + Split(b, sep)
  {
    IndexOfCharAfter(a, b, sep);
    SeparatorShape(a, b, sep);
  }

  /** The two sides of a separator placed between `a` and `b`. */
  lemma SeparatorShape(a: string, b: string, sep: char)
    ensures (a + [sep] + b)[..|a|] == a && (a + [sep] + b)[|a| + 1..] == b
  {
  }

  /** `explode($sep, $s, 2)`: the text before the first separator and everything after it. */
  function ExplodeTwo(s: string, sep: char): (parts: seq<string>)
    ensures 1 <= |parts| <= 2
    ensures |parts| == 2 <==> sep in s
    ensures sep !in parts[0]
    ensures |parts| == 1 ==> parts[0] == s
    ensures |parts| == 2 ==> s == parts[0] + [sep] + parts[1]
  {
    match IndexOfChar(s, sep)
    case None => [s]
    case Some(i) =>
      assert s == s[..i] + [sep] + s[i + 1..];
      [s[..i], s[i + 1..]]
  }

  /** The first `sep` of `a + [sep] + b` is the one after `a` when `a` has none. */
  lemma {:induction false} IndexOfCharAfter(a: string, b: string, sep: char)
    requires sep !in a
    ensures IndexOfChar(a + [sep] + b, sep) == Some(|a|)
    decreases |a|
  {
    if a != [] {
      assert (a + [sep] + b)[1..] == a[1..] + [sep] + b;
      IndexOfCharAfter(a[1..], b, sep);
    }
  }

  /** `explode($sep, $s, 2)` cuts at the first separator. */
  lemma ExplodeTwoAt(a: string, b: string, sep: char)
    requires sep !in a
    ensures ExplodeTwo(a + [sep] + b, sep) == [a, b]
  {
    var s := a + [sep] + b;
    IndexOfCharAfter(a, b, sep);
    assert s[..|a|] == a && s[|a| + 1..] == b;
  }

  /** An occurrence cuts `s` into what precedes it, the needle and what follows it. */
  lemma OccursSplit(s: string, needle: string, i: int)
    requires OccursAt(s, needle, i)
    ensures s == s[..i] + needle + s[i + |needle|..]
  {
    assert s == s[..i] + s[i..i + |needle|] + s[i + |needle|..];
  }

  /** An occurrence inside a prefix of `s` is an occurrence in `s`. */
  lemma OccursInPrefix(s: string, n: nat, needle: string, j: int)
    requires n <= |s| && OccursAt(s[..n], needle, j)
    ensures OccursAt(s, needle, j)
  {
    assert s[..n][j..j + |needle|] == s[j..j + |needle|];
  }

  /** Nothing before the first occurrence contains the needle. */
  lemma NothingBeforeFind(s: string, needle: string, e: nat)
    requires needle != [] && Find(s, needle) == Some(e)
    ensures !Contains(s[..e], needle)
  {
    forall j | 0 <= j <= e && OccursAt(s[..e], needle, j)
      ensures OccursAt(s, needle, j) && j < e
    {
      OccursInPrefix(s, e, needle, j);
    }
  }

  /** No proper suffix of `p` is also a prefix of it: two occurrences of `p` never overlap. */
  predicate NoBorder(p: string) {
    forall d :: 0 < d < |p| ==> p[d..] != p[..|p| - d]
  }

  /** A word whose last character appears nowhere else in it has no border. */
  lemma LastCharUniqueNoBorder(p: string)
    requires p != [] && p[|p| - 1] !in p[..|p| - 1]
    ensures NoBorder(p)
  {
    forall d | 0 < d < |p|
      ensures p[d..] != p[..|p| - d]
    {
      assert p[d..][|p| - d - 1] == p[|p| - 1];
      assert p[..|p| - d][|p| - d - 1] == p[..|p| - 1][|p| - d - 1];
    }
  }

  /** When `g` does not contain a border-free `p`, the first `p` in `g + p + x` is the one after `g`. */
  lemma FindAfterClean(g: string, p: string, x: string)
    requires p != [] && NoBorder(p) && !Contains(g, p)
    ensures Find(g + p + x, p) == Some(|g|)
  {
    var s := g + p + x;
    assert s[|g|..|g| + |p|] == p;
    assert OccursAt(s, p, |g|);
    forall i | 0 <= i < |g|
      ensures !OccursAt(s, p, i)
    {
      if i + |p| <= |g| {
        assert s[i..i + |p|] == g[i..i + |p|];
        assert !OccursAt(g, p, i);
      } else {
        var d := |g| - i;
        assert p[d..] != p[..|p| - d];
        assert s[i..i + |p|][d..] == s[|g|..i + |p|];
        assert s[|g|..i + |p|] == p[..|p| - d];
      }
    }
  }

  /** The characters PHP's `trim` strips by default: space, tab, LF, CR, NUL and vertical tab. */
  predicate IsTrimSpace(c: char) {
    c == ' ' || c == '\t' || c == '\n' || c == '\r' || c == 0 as char || c == 11 as char
  }

  // Sequence algebra, stated once so that the larger proofs need not rediscover it.

  lemma ConsAppend<T>(x: seq<T>, c: seq<T>)
    requires x != []
    ensures [x[0]] + (x[1..] + c) == x + c
  {
    assert [x[0]] + x[1..] == x;
  }

  /** `ConsAppend` with two pieces after the tail. */
  lemma ConsAppendTwo<T>(x: seq<T>, c: seq<T>, d: seq<T>)
    requires x != []
    ensures [x[0]] + (x[1..] + c + d) == x + c + d
  {
    assert x == [x[0]] + x[1..];
  }

  /** The first character of `x + c + d` and what follows it. */
  lemma TailAppendTwo<T>(x: seq<T>, c: seq<T>, d: seq<T>)
    requires x != []
    ensures (x + c + d)[0] == x[0] && (x + c + d)[1..] == x[1..] + c + d
  {
    ConsAppendTwo(x, c, d);
  }

  /** A sequence is its prefix followed by the two parts its suffix is made of. */
  lemma PrefixAndParts<T>(s: seq<T>, n: nat, t: seq<T>, a: seq<T>, b: seq<T>)
    requires n <= |s| && t == s[n..] && t == a + b
    ensures s == s[..n] + a + b
  {
    assert s == s[..n] + s[n..];
  }

  /** The first element of `x + c + d`, for a one-element `c`, and what follows it. */
  lemma HeadAndTail<T>(x: seq<T>, c: seq<T>, d: seq<T>, t: seq<T>)
    requires |c| == 1 && t == x + c + d
    ensures x == [] ==> [t[0]] == c && t[1..] == d
    ensures x != [] ==> t[0] == x[0] && t[1..] == x[1..] + c + d
  {
    if x == [] {
      assert t == c + d;
    } else {
      TailAppendTwo(x, c, d);
    }
  }

  /** The element just after `x` in `x + v`, and what follows it. */
  lemma AfterPrefix<T>(x: seq<T>, v: seq<T>)
    requires v != []
    ensures (x + v)[|x|] == v[0] && (x + v)[|x| + 1..] == v[1..]
  {
    assert (x + v)[|x|..] == v;
  }

  lemma AppendEmpty<T>(s: seq<T>)
    ensures [] + s == s && s + [] == s
  {
  }

  lemma PrefixOfAppend<T>(a: seq<T>, b: seq<T>)
    ensures a <= a + b && (a + b)[|a|..] == b
  {
  }

  /** A needle absent from `s` is absent from its tail. */
  lemma NotContainsTail(s: string, needle: string)
    requires s != [] && !Contains(s, needle)
    ensures !Contains(s[1..], needle)
  {
    forall j | 0 <= j <= |s[1..]| && OccursAt(s[1..], needle, j)
      ensures OccursAt(s, needle, j + 1)
    {
      assert s[1..][j..j + |needle|] == s[j + 1..j + 1 + |needle|];
    }
  }

  /** `ltrim`: `s` without its leading trim characters. */
  function TrimStart(s: string): (r: string)
    ensures |r| <= |s| && r == s[|s| - |r|..]
    ensures r == [] || !IsTrimSpace(r[0])
    ensures forall k :: 0 <= k < |s| - |r| ==> IsTrimSpace(s[k])
    decreases |s|
  {
    if s != [] && IsTrimSpace(s[0]) then TrimStart(s[1..]) else s
  }

  /** `rtrim`: `s` without its trailing trim characters. */
  function TrimEnd(s: string): (r: string)
    ensures |r| <= |s| && r == s[..|r|]
    ensures r == [] || !IsTrimSpace(r[|r| - 1])
    ensures forall k :: |r| <= k < |s| ==> IsTrimSpace(s[k])
    decreases |s|
  {
    if s != [] && IsTrimSpace(s[|s| - 1]) then TrimEnd(s[..|s| - 1]) else s
  }

  /** `trim`: `s` without its leading and trailing trim characters. */
  function Trim(s: string): (r: string)
    ensures |r| <= |TrimStart(s)| <= |s|
    ensures r <= TrimStart(s) && TrimStart(s) == s[|s| - |TrimStart(s)|..]
    ensures r == [] || (!IsTrimSpace(r[0]) && !IsTrimSpace(r[|r| - 1]))
    ensures forall k :: 0 <= k < |s| - |TrimStart(s)| ==> IsTrimSpace(s[k])
    ensures forall k :: |s| - |TrimStart(s)| + |r| <= k < |s| ==> IsTrimSpace(s[k])
  {
    var u := TrimStart(s);
    var r := TrimEnd(u);
    TrimPieces(s, u, r, |s| - |u|);
    r
  }

  /** For a prefix `r` of a suffix `u` of `s`, what follows `r` in `u` follows it in `s`. */
  lemma TrimPieces(s: string, u: string, r: string, i: nat)
    requires i <= |s| && u == s[i..] && |r| <= |u| && r == u[..|r|]
    requires u == [] || !IsTrimSpace(u[0])
    requires forall k :: |r| <= k < |u| ==> IsTrimSpace(u[k])
    ensures r <= u
    ensures r == [] || !IsTrimSpace(r[0])
    ensures forall k :: i + |r| <= k < |s| ==> IsTrimSpace(s[k])
  {
    forall k | i + |r| <= k < |s|
      ensures IsTrimSpace(s[k])
    {
      assert s[k] == u[k - i];
    }
  }

  /** Anything that ends in a non-space character keeps its trailing spaces out of `TrimEnd`. */
  lemma {:induction false} TrimEndAfterSolid(a: string, b: string)
    requires a != [] && !IsTrimSpace(a[|a| - 1])
    ensures TrimEnd(a + b) == a + TrimEnd(b)
    decreases |b|
  {
    if b == [] {
      assert a + b == a;
    } else if IsTrimSpace(b[|b| - 1]) {
      assert (a + b)[..|a + b| - 1] == a + b[..|b| - 1];
      TrimEndAfterSolid(a, b[..|b| - 1]);
    } else {
      assert (a + b)[|a + b| - 1] == b[|b| - 1];
    }
  }

  /** The character `stripcslashes` produces for the two-character escape `\c`. */
  function EscapedChar(c: char): char {
    match c
    case 'n' => '\n'
    case 't' => '\t'
    case 'r' => '\r'
    case 'a' => 7 as char
    case 'v' => 11 as char
    case 'b' => 8 as char
    case 'f' => 12 as char
    case _ => c
  }

  /**
   * `stripcslashes` on the simple escapes: a backslash followed by a character is
   * replaced by `EscapedChar` of that character; a lone trailing backslash stays.
   */
  function Unescape(s: string): (r: string)
    ensures |r| <= |s|
    ensures '\\' !in s ==> r == s
    decreases |s|
  {
    if s == [] then []
    else if s[0] == '\\' && |s| >= 2 then [EscapedChar(s[1])] + Unescape(s[2..])
    else [s[0]] + Unescape(s[1..])
  }

  /** A prefix without backslashes passes through `Unescape` unchanged. */
  lemma {:induction false} UnescapePlainPrefix(p: string, s: string)
    requires '\\' !in p
    ensures Unescape(p + s) == p + Unescape(s)
    decreases |p|
  {
    if p != [] {
      assert (p + s)[0] == p[0] && (p + s)[1..] == p[1..] + s;
      UnescapePlainPrefix(p[1..], s);
      ConsAppend(p, Unescape(s));
    } else {
      AppendEmpty(s);
    }
  }

  /** How a calendar generator writes one character of a TEXT value (section 3.3.11 of RFC 5545). */
  function EscapeChar(c: char): string {
    match c
    case '\\' => "\\\\"
    case '\n' => "\\n"
    case ';' => "\\;"
    case ',' => "\\,"
    case _ => [c]
  }

  /** Escaping of a whole TEXT value. */
  function EscapeText(s: string): string
    decreases |s|
  {
    if s == [] then [] else EscapeChar(s[0]) + EscapeText(s[1..])
  }

  /** Un-escaping undoes the generator's TEXT escaping. */
  lemma {:induction false} UnescapeInvertsEscapeText(s: string)
    ensures Unescape(EscapeText(s)) == s
    decreases |s|
  {
    if s != [] {
      var rest := EscapeText(s[1..]);
      UnescapeInvertsEscapeText(s[1..]);
      UnescapeEscapeChar(s[0], rest);
      ConsAppend(s, []);
      AppendEmpty(s[1..]);
      AppendEmpty(s);
    }
  }

  /** One escaped character comes back first, ahead of whatever follows. */
  lemma UnescapeEscapeChar(c: char, rest: string)
    ensures Unescape(EscapeChar(c) + rest) == [c] + Unescape(rest)
  {
    var e := EscapeChar(c) + rest;
    if c in "\\\n;," {
      assert e[0] == '\\' && EscapedChar(e[1]) == c && e[2..] == rest;
    } else {
      assert e[0] == c && e[1..] == rest;
    }
  }

  // ----- The character classes of the parser's patterns -----

  /** `[A-Z0-9_-]`, the characters of a property name. */
  predicate IsKeyChar(c: char) {
    'A' <= c <= 'Z' || '0' <= c <= '9' || c == '_' || c == '-'
  }

  /** `\s` without the `u` modifier: space, tab, LF, VT, FF and CR. */
  predicate IsPcreSpace(c: char) {
    c == ' ' || '\t' <= c <= '\r'
  }

  /** `\S`. */
  predicate IsSolid(c: char) {
    !IsPcreSpace(c)
  }

  /** `\d` without the `u` modifier. */
  predicate IsDigit(c: char) {
    '0' <= c <= '9'
  }

  predicate IsUpper(c: char) {
    'A' <= c <= 'Z'
  }

  /** `.` without the `s` modifier. */
  predicate IsNotNewline(c: char) {
    c != '\n'
  }

  datatype CharClass = KeyChars | Spaces | NonSpaces | Digits | Uppers | NotNewlines

  predicate InClass(c: char, k: CharClass) {
    match k
    case KeyChars => IsKeyChar(c)
    case Spaces => IsPcreSpace(c)
    case NonSpaces => IsSolid(c)
    case Digits => IsDigit(c)
    case Uppers => IsUpper(c)
    case NotNewlines => IsNotNewline(c)
  }

  predicate AllOf(s: string, k: CharClass) {
    forall i :: 0 <= i < |s| ==> InClass(s[i], k)
  }

  /** The length of the longest prefix of `s` made of characters of class `k`: a greedy `[...]*`. */
  function Span(s: string, k: CharClass): (n: nat)
    ensures n <= |s|
    ensures n < |s| ==> !InClass(s[n], k)
    decreases |s|
  {
    if s != [] && InClass(s[0], k) then 1 + Span(s[1..], k) else 0
  }

  /** Every character of the run is of the class. */
  lemma {:induction false} SpanRun(s: string, k: CharClass)
    ensures AllOf(s[..Span(s, k)], k)
    decreases |s|
  {
    if s != [] && InClass(s[0], k) {
      SpanRun(s[1..], k);
      assert s[..Span(s, k)] == [s[0]] + s[1..][..Span(s[1..], k)];
    }
  }

  /** A string all of whose characters are of the class is one run. */
  lemma {:induction false} SpanAll(s: string, k: CharClass)
    requires AllOf(s, k)
    ensures Span(s, k) == |s|
    decreases |s|
  {
    if s != [] {
      SpanAll(s[1..], k);
    }
  }

  /** A greedy run passes through a prefix all of whose characters are of its class. */
  lemma {:induction false} SpanAfterPlain(a: string, b: string, k: CharClass)
    requires AllOf(a, k)
    ensures Span(a + b, k) == |a| + Span(b, k)
    decreases |a|
  {
    if a == [] {
      AppendEmpty(b);
    } else {
      assert (a + b)[0] == a[0] && (a + b)[1..] == a[1..] + b;
      SpanAfterPlain(a[1..], b, k);
    }
  }

  /** `strrpos` for one character: the last position of `c` in `s`, if any. */
  function LastIndexOfChar(s: string, c: char): (r: Option<nat>)
    ensures r.Some? ==> r.value < |s| && s[r.value] == c && c !in s[r.value + 1..]
    ensures r.None? <==> c !in s
    decreases |s|
  {
    if s == [] then None
    else if s[|s| - 1] == c then Some(|s| - 1)
    else
      match LastIndexOfChar(s[..|s| - 1], c)
      case None =>
        assert s == s[..|s| - 1] + [s[|s| - 1]];
        None
      case Some(i) =>
        assert s[i + 1..] == s[..|s| - 1][i + 1..] + [s[|s| - 1]];
        Some(i)
  }

  /** `s` with every occurrence of `c` deleted; the other characters keep their order. */
  function Without(s: string, c: char): (r: string)
    ensures c !in r
    decreases |s|
  {
    if s == [] then [] else (if s[0] == c then [] else [s[0]]) + Without(s[1..], c)
  }
}
