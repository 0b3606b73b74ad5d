/**
 * The fixed regular expressions of the block and description stages, each written
 * as the scanner that its PCRE match amounts to.
 */
module Patterns {
  import opened Results
  import opened Text

  // ----- `^([A-Z0-9_-]+)(?=:)`: the property name at the start of a content line -----

  /** A property name as the parser stores it: a non-empty run of `[A-Z0-9_-]`. */
  predicate IsKey(k: string) {
    |k| > 0 && forall i :: 0 <= i < |k| ==> IsKeyChar(k[i])
  }

  /**
   * The property name a line starts with: the run of name characters at its start,
   * when that run is non-empty and followed by `:`.
   */
  function KeyPrefix(line: string): (r: Option<string>)
    ensures r.Some? ==> IsKey(r.value) && |r.value| < |line|
    ensures r.Some? ==> line[..|r.value|] == r.value && line[|r.value|] == ':'
    ensures r.None? ==> forall n :: 0 < n < |line| && line[n] == ':' ==> !IsKey(line[..n])
  {
    var n := Span(line, KeyChars);
    SpanRun(line, KeyChars);
    if 0 < n < |line| && line[n] == ':' then Some(line[..n]) else None
  }

  // ----- `^(\S+)(?:\s|$)`: the class code at the start of a description -----

  /**
   * The first whitespace-delimited token of `desc`; there is one exactly when `desc`
   * starts with a non-space character.
   */
  function ClassToken(desc: string): (r: Option<string>)
    ensures r.Some? <==> desc != [] && !IsPcreSpace(desc[0])
    ensures r.Some? ==> r.value != [] && r.value <= desc
    ensures r.Some? ==> forall i :: 0 <= i < |r.value| ==> !IsPcreSpace(r.value[i])
    ensures r.Some? ==> |r.value| == |desc| || IsPcreSpace(desc[|r.value|])
  {
    var n := Span(desc, NonSpaces);
    SpanRun(desc, NonSpaces);
    if n > 0 then Some(desc[..n]) else None
  }

  // ----- `^<class> - TP [A-Z]$`, then `substr($item, -1)`: a group line of a description -----

  /**
   * The group letter of a description line: the line must be exactly the class,
   * the text ` - TP ` and one capital letter, which is the result.
   */
  function GroupLetter(item: string, cls: string): (r: Option<string>)
    ensures r.Some? ==> |r.value| == 1 && 'A' <= r.value[0] <= 'Z' && item == cls + " - TP " + r.value
    ensures r.None? ==> forall tail :: item == cls + " - TP " + tail ==> !(|tail| == 1 && 'A' <= tail[0] <= 'Z')
  {
    var n := |cls|;
    if |item| == n + 7 && item[..n] == cls && item[n..n + 6] == " - TP " && 'A' <= item[n + 6] <= 'Z'
    then
      assert item == item[..n] + item[n..n + 6] + item[n + 6..];
      Some(item[n + 6..])
    else
      assert forall tail :: item == cls + " - TP " + tail ==> item[..n] == cls && item[n..n + 6] == " - TP " && item[n + 6..] == tail;
      None
  }

  // ----- `\(Exported.*\)` replaced by nothing -----

  const ExportedOpen := "(Exported"

  /** Where `.*\)` ends in `rest`: just past the last `)` of its first line, if there is one. */
  function LineToLastParen(rest: string): (r: Option<nat>)
    ensures r.Some? ==> 0 < r.value <= |rest| && rest[r.value - 1] == ')' && '\n' !in rest[..r.value]
  {
    var line := rest[..Span(rest, NotNewlines)];
    SpanRun(rest, NotNewlines);
    match LastIndexOfChar(line, ')')
    case None => None
    case Some(q) =>
      assert rest[..q + 1] == line[..q + 1];
      Some(q + 1)
  }

  /**
   * The length of the `\(Exported.*\)` match at the start of `t`, if there is one:
   * it runs to the last `)` of the line (`.` does not cross a newline).
   */
  function ExportedMatch(t: string): (r: Option<nat>)
    ensures r.Some? ==> |ExportedOpen| < r.value <= |t| && t[..|ExportedOpen|] == ExportedOpen
    ensures r.Some? ==> t[r.value - 1] == ')' && '\n' !in t[..r.value]
  {
    if ExportedOpen <= t then
      var rest := t[|ExportedOpen|..];
      match LineToLastParen(rest)
      case None => None
      case Some(q) =>
        assert t[..|ExportedOpen| + q] == ExportedOpen + rest[..q];
        Some(|ExportedOpen| + q)
    else None
  }

  /** Every `(Exported` up to the last `)` on its line removed, matches taken leftmost first. */
  function StripExported(s: string): (r: string)
    ensures |r| <= |s|
    ensures '(' !in s ==> r == s
    decreases |s|
  {
    if s == [] then []
    else
      match ExportedMatch(s)
      case Some(n) => StripExported(s[n..])
      case None => [s[0]] + StripExported(s[1..])
  }

  /** Text without the opening `(Exported` passes through unchanged. */
  lemma {:induction false} StripExportedNoMarker(s: string)
    requires !Contains(s, ExportedOpen)
    ensures StripExported(s) == s
    decreases |s|
  {
    if s != [] {
      assert !OccursAt(s, ExportedOpen, 0);
      NotContainsTail(s, ExportedOpen);
      StripExportedNoMarker(s[1..]);
      ConsAppend(s, []);
      AppendEmpty(s[1..]);
      AppendEmpty(s);
    }
  }

  /** Removal never crosses a line break: every newline of the input survives. */
  lemma {:induction false} StripExportedKeepsNewlines(s: string)
    ensures multiset(StripExported(s))['\n'] == multiset(s)['\n']
    decreases |s|
  {
    if s != [] {
      match ExportedMatch(s)
      case Some(n) =>
        StripExportedKeepsNewlines(s[n..]);
        NewlinesSplit(s, n);
      case None =>
        StripExportedKeepsNewlines(s[1..]);
        NewlinesCons(s[0], s[1..], StripExported(s[1..]));
        assert s == [s[0]] + s[1..];
    }
  }

  lemma NewlinesSplit(s: string, n: nat)
    requires n <= |s| && '\n' !in s[..n]
    ensures multiset(s)['\n'] == multiset(s[n..])['\n']
  {
    assert s == s[..n] + s[n..];
  }

  lemma NewlinesCons(c: char, s: string, r: string)
    requires multiset(r)['\n'] == multiset(s)['\n']
    ensures multiset([c] + r)['\n'] == multiset([c] + s)['\n']
  {
  }

  /** Text before the first `(Exported` is copied as it is. */
  lemma {:induction false} StripExportedPlainPrefix(pre: string, t: string)
    requires !Contains(pre, ExportedOpen)
    requires t == [] || t[0] == '('
    ensures StripExported(pre + t) == pre + StripExported(t)
    decreases |pre|
  {
    if pre == [] {
      AppendEmpty(t);
    } else {
      var s := pre + t;
      NoMarkerAtStart(pre, t);
      assert s[0] == pre[0] && s[1..] == pre[1..] + t;
      NotContainsTail(pre, ExportedOpen);
      StripExportedPlainPrefix(pre[1..], t);
      ConsAppend(pre, StripExported(t));
    }
  }

  /** Before the first `(Exported`, no match can start. */
  lemma NoMarkerAtStart(pre: string, t: string)
    requires pre != [] && !Contains(pre, ExportedOpen)
    requires t == [] || t[0] == '('
    ensures ExportedMatch(pre + t).None?
  {
    var s := pre + t;
    assert !(ExportedOpen <= s) by {
      if |pre| >= |ExportedOpen| {
        assert s[..|ExportedOpen|] == pre[..|ExportedOpen|];
        assert !OccursAt(pre, ExportedOpen, 0);
      } else if |s| >= |ExportedOpen| {
        assert s[|pre|] == '(';
        assert ExportedOpen[|pre|] != '(';
      }
    }
  }

  /**
   * `(Exported` removes everything up to the last `)` on its line: with no earlier
   * marker, the text up to that `)` goes and scanning resumes after it.
   */
  lemma StripExportedToLastParen(pre: string, mid: string, post: string)
    requires !Contains(pre, ExportedOpen)
    requires '\n' !in mid
    requires ')' !in post[..Span(post, NotNewlines)]
    ensures StripExported(pre + ExportedOpen + mid + ")" + post) == pre + StripExported(post)
  {
    var rest := mid + ")" + post;
    var t := ExportedOpen + rest;
    ConcatShape(pre, mid, post, rest, t);
    StripExportedPlainPrefix(pre, t);
    ExportedMatchToLastParen(t, rest, mid, post);
  }

  lemma ConcatShape(pre: string, mid: string, post: string, rest: string, t: string)
    requires rest == mid + ")" + post && t == ExportedOpen + rest
    ensures pre + ExportedOpen + mid + ")" + post == pre + t
    ensures t != [] && t[0] == '(' && t[|ExportedOpen| + |mid| + 1..] == post
  {
  }

  lemma ExportedMatchToLastParen(t: string, rest: string, mid: string, post: string)
    requires '\n' !in mid
    requires ')' !in post[..Span(post, NotNewlines)]
    requires rest == mid + ")" + post && t == ExportedOpen + rest
    ensures ExportedMatch(t) == Some(|ExportedOpen| + |mid| + 1)
  {
    PrefixOfAppend(ExportedOpen, rest);
    LineToLastParenOf(rest, mid, post);
  }

  lemma LineToLastParenOf(rest: string, mid: string, post: string)
    requires '\n' !in mid
    requires ')' !in post[..Span(post, NotNewlines)]
    requires rest == mid + ")" + post
    ensures LineToLastParen(rest) == Some(|mid| + 1)
  {
    var k := Span(post, NotNewlines);
    assert rest == (mid + ")") + post;
    SpanAfterPlain(mid + ")", post, NotNewlines);
    var line := rest[..Span(rest, NotNewlines)];
    assert line == mid + ")" + post[..k];
    assert line[|mid|] == ')' && line[|mid| + 1..] == post[..k];
    assert LastIndexOfChar(line, ')') == Some(|mid|);
  }

  // ----- `\n\n` replaced by nothing -----

  /** Every pair of consecutive newline characters removed, pairs taken leftmost first. */
  function RemoveNewlinePairs(s: string): (r: string)
    ensures |r| <= |s|
    ensures '\n' !in s ==> r == s
    decreases |s|
  {
    if |s| >= 2 && s[0] == '\n' && s[1] == '\n' then RemoveNewlinePairs(s[2..])
    else if s == [] then []
    else [s[0]] + RemoveNewlinePairs(s[1..])
  }

  predicate NoNewlinePair(s: string) {
    forall i :: 0 <= i < |s| - 1 ==> !(s[i] == '\n' && s[i + 1] == '\n')
  }

  /** After the removal no two newlines are adjacent. */
  lemma {:induction false} RemoveNewlinePairsLeavesNoPair(s: string)
    ensures NoNewlinePair(RemoveNewlinePairs(s))
    decreases |s|
  {
    if |s| >= 2 && s[0] == '\n' && s[1] == '\n' {
      RemoveNewlinePairsLeavesNoPair(s[2..]);
    } else if s != [] {
      var tail := RemoveNewlinePairs(s[1..]);
      RemoveNewlinePairsLeavesNoPair(s[1..]);
      assert s[0] == '\n' && tail != [] ==> tail[0] != '\n' by {
        if s[0] == '\n' && tail != [] {
          assert |s| >= 2 && s[1] != '\n';
          assert tail == [s[1]] + RemoveNewlinePairs(s[2..]);
        }
      }
      var r := [s[0]] + tail;
      assert forall i :: 1 <= i < |r| - 1 ==> r[i] == tail[i - 1] && r[i + 1] == tail[i];
    }
  }

  /** Text already free of newline pairs is left as it is. */
  lemma {:induction false} RemoveNewlinePairsClean(s: string)
    requires NoNewlinePair(s)
    ensures RemoveNewlinePairs(s) == s
    decreases |s|
  {
    if s != [] {
      assert !(|s| >= 2 && s[0] == '\n' && s[1] == '\n');
      assert NoNewlinePair(s[1..]) by {
        forall i | 0 <= i < |s| - 2
          ensures !(s[1..][i] == '\n' && s[1..][i + 1] == '\n')
        {
          assert s[1..][i] == s[i + 1] && s[1..][i + 1] == s[i + 2];
        }
      }
      RemoveNewlinePairsClean(s[1..]);
    }
  }

  function Newlines(k: nat): (r: string)
    ensures |r| == k && forall i :: 0 <= i < k ==> r[i] == '\n'
  {
    seq(k, _ => '\n')
  }

  /** A run of k newlines becomes k mod 2 newlines. */
  lemma {:induction false} RemoveNewlinePairsRun(k: nat)
    ensures RemoveNewlinePairs(Newlines(k)) == Newlines(k % 2)
    decreases k
  {
    if k >= 2 {
      assert Newlines(k)[2..] == Newlines(k - 2);
      RemoveNewlinePairsRun(k - 2);
    } else if k == 1 {
      assert Newlines(1)[1..] == [];
    }
  }

  /** Only newlines are removed: every other character stays, in order. */
  lemma {:induction false} RemoveNewlinePairsKeepsText(s: string)
    ensures Without(RemoveNewlinePairs(s), '\n') == Without(s, '\n')
    decreases |s|
  {
    if |s| >= 2 && s[0] == '\n' && s[1] == '\n' {
      RemoveNewlinePairsKeepsText(s[2..]);
      assert Without(s, '\n') == Without(s[1..], '\n');
      assert s[1..][1..] == s[2..];
    } else if s != [] {
      RemoveNewlinePairsKeepsText(s[1..]);
      var tail := RemoveNewlinePairs(s[1..]);
      assert ([s[0]] + tail)[1..] == tail;
    }
  }
}
