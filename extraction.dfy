/**
 * The first stage of the parser: cutting the calendar text into `VEVENT` blocks and
 * folding each block's content lines into a raw event, a map from property name to value.
 */
module Extraction {
  import opened Results
  import opened Text
  import opened Patterns

  // ----- `open(.*?)close` with the `s` modifier, matched globally -----

  /**
   * The captured bodies of a lazy global match `open(.*?)close`, in order: from the
   * first `open`, the shortest text up to a `close`; the search resumes after that
   * `close` and ends at an `open` that no `close` follows.
   */
  function Blocks(s: string, open: string, close: string): (blocks: seq<string>)
    requires open != [] && close != []
    ensures forall k :: 0 <= k < |blocks| ==> !Contains(blocks[k], close)
    decreases |s|
  {
    match Find(s, open)
    case None => []
    case Some(b) =>
      var rest := s[b + |open|..];
      match Find(rest, close)
      case None => []
      case Some(e) =>
        NothingBeforeFind(rest, close, e);
        [rest[..e]] + Blocks(rest[e + |close|..], open, close)
  }

  /** A text in which no block starts: no `open`, or none with a `close` after it. */
  predicate Unmatched(g: string, open: string, close: string) {
    match Find(g, open)
    case None => true
    case Some(b) => b + |open| <= |g| && !Contains(g[b + |open|..], close)
  }

  /** The text the global match skips: what precedes each block's `open`, and what follows the last `close`. */
  function Gaps(s: string, open: string, close: string): (gaps: seq<string>)
    requires open != [] && close != []
    ensures |gaps| >= 1
    decreases |s|
  {
    match Find(s, open)
    case None => [s]
    case Some(b) =>
      var rest := s[b + |open|..];
      match Find(rest, close)
      case None => [s]
      case Some(e) => [s[..b]] + Gaps(rest[e + |close|..], open, close)
  }

  // One step of the scan each, so that the inductive proofs below need not unfold `Find`.

  lemma ScanNoOpen(s: string, open: string, close: string)
    requires open != [] && close != [] && Find(s, open) == None
    ensures Blocks(s, open, close) == [] && Gaps(s, open, close) == [s]
  {
  }

  lemma ScanNoClose(s: string, open: string, close: string, b: nat)
    requires open != [] && close != []
    requires Find(s, open) == Some(b) && Find(s[b + |open|..], close) == None
    ensures Blocks(s, open, close) == [] && Gaps(s, open, close) == [s]
  {
  }

  lemma ScanStep(s: string, open: string, close: string, b: nat, e: nat)
    requires open != [] && close != []
    requires Find(s, open) == Some(b) && Find(s[b + |open|..], close) == Some(e)
    ensures Blocks(s, open, close) == [s[b + |open|..][..e]] + Blocks(s[b + |open|..][e + |close|..], open, close)
    ensures Gaps(s, open, close) == [s[..b]] + Gaps(s[b + |open|..][e + |close|..], open, close)
  {
  }

  /** There is one gap more than blocks. */
  lemma {:induction false} GapsLength(s: string, open: string, close: string)
    requires open != [] && close != []
    ensures |Gaps(s, open, close)| == |Blocks(s, open, close)| + 1
    decreases |s|
  {
    match Find(s, open)
    case None =>
      ScanNoOpen(s, open, close);
    case Some(b) =>
      var rest := s[b + |open|..];
      match Find(rest, close)
      case None =>
        ScanNoClose(s, open, close, b);
      case Some(e) =>
        ScanStep(s, open, close, b, e);
        GapsLength(rest[e + |close|..], open, close);
  }

  /** No gap but the last holds `open`, and the last one opens no closed block. */
  lemma {:induction false} GapsClean(s: string, open: string, close: string)
    requires open != [] && close != []
    ensures |Gaps(s, open, close)| == |Blocks(s, open, close)| + 1
    ensures forall k :: 0 <= k < |Blocks(s, open, close)| ==> !Contains(Gaps(s, open, close)[k], open)
    ensures Unmatched(Gaps(s, open, close)[|Blocks(s, open, close)|], open, close)
    decreases |s|
  {
    GapsLength(s, open, close);
    match Find(s, open)
    case None =>
      ScanNoOpen(s, open, close);
    case Some(b) =>
      var rest := s[b + |open|..];
      match Find(rest, close)
      case None =>
        ScanNoClose(s, open, close, b);
      case Some(e) =>
        var tail := rest[e + |close|..];
        ScanStep(s, open, close, b, e);
        GapsClean(tail, open, close);
        NothingBeforeFind(s, open, b);
        CleanCons(s[..b], Gaps(tail, open, close), Blocks(tail, open, close), rest[..e], open, close);
  }

  lemma CleanCons(g: string, gaps: seq<string>, blocks: seq<string>, blk: string, open: string, close: string)
    requires |gaps| == |blocks| + 1 && !Contains(g, open)
    requires forall k :: 0 <= k < |blocks| ==> !Contains(gaps[k], open)
    ensures forall k :: 0 <= k < |[blk] + blocks| ==> !Contains(([g] + gaps)[k], open)
  {
    forall k | 1 <= k < |[blk] + blocks|
      ensures ([g] + gaps)[k] == gaps[k - 1]
    {
    }
  }

  /** The text made of the gaps with the blocks, each in its markers, between them. */
  function Render(gaps: seq<string>, blocks: seq<string>, open: string, close: string): string
    requires |gaps| == |blocks| + 1
    decreases |blocks|
  {
    if blocks == [] then gaps[0]
    else gaps[0] + open + blocks[0] + close + Render(gaps[1..], blocks[1..], open, close)
  }

  lemma MarkerShape(s: string, g: string, rest: string, blk: string, tail: string, open: string, close: string)
    requires s == g + open + rest && rest == blk + close + tail
    ensures s == g + open + blk + close + tail
  {
  }

  /** The global match loses nothing: the gaps and the blocks make up the whole text. */
  lemma {:induction false} BlocksDecompose(s: string, open: string, close: string)
    requires open != [] && close != []
    ensures |Gaps(s, open, close)| == |Blocks(s, open, close)| + 1
    ensures Render(Gaps(s, open, close), Blocks(s, open, close), open, close) == s
    decreases |s|
  {
    GapsLength(s, open, close);
    match Find(s, open)
    case None =>
      ScanNoOpen(s, open, close);
    case Some(b) =>
      var rest := s[b + |open|..];
      match Find(rest, close)
      case None =>
        ScanNoClose(s, open, close, b);
      case Some(e) =>
        var tail := rest[e + |close|..];
        ScanStep(s, open, close, b, e);
        BlocksDecompose(tail, open, close);
        OccursSplit(s, open, b);
        OccursSplit(rest, close, e);
        MarkerShape(s, s[..b], rest, rest[..e], tail, open, close);
  }

  lemma UnmatchedScan(g: string, open: string, close: string)
    requires open != [] && close != [] && Unmatched(g, open, close)
    ensures Blocks(g, open, close) == [] && Gaps(g, open, close) == [g]
  {
    match Find(g, open)
    case None =>
      ScanNoOpen(g, open, close);
    case Some(b) =>
      ScanNoClose(g, open, close, b);
  }

  /** Scanning a rendered text finds the first gap's block first. */
  lemma RenderScan(s: string, g: string, blk: string, tail: string, open: string, close: string, b: nat, e: nat)
    requires open != [] && close != [] && NoBorder(open) && NoBorder(close)
    requires !Contains(blk, close) && !Contains(g, open)
    requires s == g + open + blk + close + tail && b == |g| && e == |blk|
    ensures Find(s, open) == Some(b) && Find(s[b + |open|..], close) == Some(e)
    ensures s[..b] == g && s[b + |open|..][..e] == blk && s[b + |open|..][e + |close|..] == tail
  {
    var rest := blk + close + tail;
    FramedShape(s, g, blk, tail, open, close);
    FindAfterClean(g, open, rest);
    FindAfterClean(blk, close, tail);
  }

  lemma FramedShape(s: string, g: string, blk: string, tail: string, open: string, close: string)
    requires s == g + open + blk + close + tail
    ensures s == g + open + (blk + close + tail) && s[..|g|] == g
    ensures s[|g| + |open|..] == blk + close + tail
    ensures (blk + close + tail)[..|blk|] == blk && (blk + close + tail)[|blk| + |close|..] == tail
  {
    assert s == (g + open) + (blk + close + tail);
    assert (blk + close + tail) == (blk + close) + tail;
  }

  /** The conditions under which a rendered text scans back, for the text after the first block. */
  predicate CleanFrame(gaps: seq<string>, blocks: seq<string>, open: string, close: string) {
    |gaps| == |blocks| + 1 &&
    (forall k :: 0 <= k < |blocks| ==> !Contains(blocks[k], close)) &&
    (forall k :: 0 <= k < |blocks| ==> !Contains(gaps[k], open)) &&
    Unmatched(gaps[|blocks|], open, close)
  }

  /** Dropping the first gap and block keeps a frame clean. */
  lemma CleanFrameTail(gaps: seq<string>, blocks: seq<string>, open: string, close: string)
    requires CleanFrame(gaps, blocks, open, close) && blocks != []
    ensures CleanFrame(gaps[1..], blocks[1..], open, close)
    ensures !Contains(blocks[0], close) && !Contains(gaps[0], open)
  {
    assert gaps[1..][|blocks[1..]|] == gaps[|blocks|];
  }

  /** One scan step over a rendered text: the first block, then the rendering of the rest. */
  lemma RenderStep(gaps: seq<string>, blocks: seq<string>, open: string, close: string)
    requires open != [] && close != [] && NoBorder(open) && NoBorder(close)
    requires CleanFrame(gaps, blocks, open, close) && blocks != []
    ensures Blocks(Render(gaps, blocks, open, close), open, close) ==
      [blocks[0]] + Blocks(Render(gaps[1..], blocks[1..], open, close), open, close)
    ensures Gaps(Render(gaps, blocks, open, close), open, close) ==
      [gaps[0]] + Gaps(Render(gaps[1..], blocks[1..], open, close), open, close)
  {
    CleanFrameTail(gaps, blocks, open, close);
    FramedStep(Render(gaps, blocks, open, close), gaps[0], blocks[0], Render(gaps[1..], blocks[1..], open, close), open, close);
  }

  /** The scan of a text that starts with a clean gap and a framed clean block. */
  lemma FramedStep(s: string, g: string, blk: string, tail: string, open: string, close: string)
    requires open != [] && close != [] && NoBorder(open) && NoBorder(close)
    requires !Contains(blk, close) && !Contains(g, open)
    requires s == g + open + blk + close + tail
    ensures Blocks(s, open, close) == [blk] + Blocks(tail, open, close)
    ensures Gaps(s, open, close) == [g] + Gaps(tail, open, close)
  {
    var b, e := |g|, |blk|;
    RenderScan(s, g, blk, tail, open, close, b, e);
    ScanStepAt(s, open, close, g, blk, tail, b, e);
  }

  lemma ScanStepAt(s: string, open: string, close: string, g: string, blk: string, tail: string, b: nat, e: nat)
    requires open != [] && close != [] && b == |g| && e == |blk|
    requires Find(s, open) == Some(b) && Find(s[b + |open|..], close) == Some(e)
    requires s[..b] == g && s[b + |open|..][..e] == blk && s[b + |open|..][e + |close|..] == tail
    ensures Blocks(s, open, close) == [blk] + Blocks(tail, open, close)
    ensures Gaps(s, open, close) == [g] + Gaps(tail, open, close)
  {
    ScanStep(s, open, close, b, e);
  }

  /**
   * The match recovers exactly the blocks a text was written with, provided the
   * markers have no border, no block holds `close`, no gap but the last holds `open`
   * and the last opens no closed block.
   */
  lemma {:induction false} BlocksOfRender(gaps: seq<string>, blocks: seq<string>, open: string, close: string)
    requires open != [] && close != [] && NoBorder(open) && NoBorder(close)
    requires CleanFrame(gaps, blocks, open, close)
    ensures Blocks(Render(gaps, blocks, open, close), open, close) == blocks
    decreases |blocks|
  {
    if blocks == [] {
      UnmatchedScan(gaps[0], open, close);
    } else {
      RenderStep(gaps, blocks, open, close);
      CleanFrameTail(gaps, blocks, open, close);
      BlocksOfRender(gaps[1..], blocks[1..], open, close);
      assert blocks == [blocks[0]] + blocks[1..];
    }
  }

  /** Under the same conditions the skipped text is recovered too. */
  lemma {:induction false} GapsOfRender(gaps: seq<string>, blocks: seq<string>, open: string, close: string)
    requires open != [] && close != [] && NoBorder(open) && NoBorder(close)
    requires CleanFrame(gaps, blocks, open, close)
    ensures Gaps(Render(gaps, blocks, open, close), open, close) == gaps
    decreases |blocks|
  {
    if blocks == [] {
      UnmatchedScan(gaps[0], open, close);
    } else {
      RenderStep(gaps, blocks, open, close);
      CleanFrameTail(gaps, blocks, open, close);
      GapsOfRender(gaps[1..], blocks[1..], open, close);
      assert gaps == [gaps[0]] + gaps[1..];
    }
  }

  // The markers of an iCalendar event component (section 3.6.1 of RFC 5545).

  const BeginEvent := "BEGIN:VEVENT"
  const EndEvent := "END:VEVENT"

  /** The text between each `BEGIN:VEVENT` and the nearest following `END:VEVENT`, newlines included, left to right. */
  function EventBlocks(s: string): (blocks: seq<string>)
    ensures forall k :: 0 <= k < |blocks| ==> !Contains(blocks[k], EndEvent)
  {
    Blocks(s, BeginEvent, EndEvent)
  }

  lemma MarkersHaveNoBorder()
    ensures NoBorder(BeginEvent) && NoBorder(EndEvent)
  {
    LastCharUniqueNoBorder(BeginEvent);
    LastCharUniqueNoBorder(EndEvent);
  }

  /** Every calendar text is its event blocks, framed by markers, between the skipped gaps. */
  lemma ExtractDecomposes(s: string)
    ensures |Gaps(s, BeginEvent, EndEvent)| == |EventBlocks(s)| + 1
    ensures Render(Gaps(s, BeginEvent, EndEvent), EventBlocks(s), BeginEvent, EndEvent) == s
  {
    BlocksDecompose(s, BeginEvent, EndEvent);
  }

  /** Writing blocks out between clean gaps and extracting them gives the same blocks back. */
  lemma ExtractRender(gaps: seq<string>, blocks: seq<string>)
    requires |gaps| == |blocks| + 1
    requires forall k :: 0 <= k < |blocks| ==> !Contains(blocks[k], EndEvent)
    requires forall k :: 0 <= k < |gaps| ==> !Contains(gaps[k], BeginEvent)
    ensures EventBlocks(Render(gaps, blocks, BeginEvent, EndEvent)) == blocks
    ensures Gaps(Render(gaps, blocks, BeginEvent, EndEvent), BeginEvent, EndEvent) == gaps
  {
    MarkersHaveNoBorder();
    assert Unmatched(gaps[|blocks|], BeginEvent, EndEvent);
    BlocksOfRender(gaps, blocks, BeginEvent, EndEvent);
    GapsOfRender(gaps, blocks, BeginEvent, EndEvent);
  }

  // ----- The content lines of one block -----

  /** The trimmed, unescaped line of a property line holds the name, then `:`. */
  lemma KeyLineText(line: string, key: string)
    requires KeyPrefix(line) == Some(key)
    ensures Unescape(Trim(line)) == key + [':'] + Unescape(TrimEnd(line[|key| + 1..]))
  {
    var head, tail := key + [':'], line[|key| + 1..];
    assert line[..|key| + 1] == head by {
      assert line[..|key| + 1] == line[..|key|] + [line[|key|]];
    }
    assert line == line[..|key| + 1] + tail;
    assert forall i :: 0 <= i < |head| ==> head[i] != '\\' && !IsTrimSpace(head[i]);
    SolidHeadText(line, head, tail);
  }

  /** A line that starts with a backslash-free run without trim spaces keeps that run. */
  lemma SolidHeadText(line: string, head: string, tail: string)
    requires line == head + tail && head != []
    requires forall i :: 0 <= i < |head| ==> head[i] != '\\' && !IsTrimSpace(head[i])
    ensures Unescape(Trim(line)) == head + Unescape(TrimEnd(tail))
  {
    assert TrimStart(line) == line;
    TrimEndAfterSolid(head, tail);
    UnescapePlainPrefix(head, TrimEnd(tail));
  }

  /**
   * The value a property line stores: what follows the first `:` of the trimmed,
   * unescaped line, which is the rest of the line after the name and `:`,
   * without trailing spaces, unescaped.
   */
  function KeyLineValue(line: string): (v: string)
    requires KeyPrefix(line).Some?
    ensures v == Unescape(TrimEnd(line[|KeyPrefix(line).value| + 1..]))
  {
    var key := KeyPrefix(line).value;
    KeyLineText(line, key);
    assert ':' !in key;
    ExplodeTwoAt(key, Unescape(TrimEnd(line[|key| + 1..])), ':');
    ExplodeTwo(Unescape(Trim(line)), ':')[1]
  }

  /** What the loop makes of one line: a property with its value, or text that continues one. */
  datatype Line = Property(key: string, value: string) | Continuation(text: string)

  /** A line starting with a property name and `:` is a property; any other line is a continuation. */
  function ClassifyLine(line: string): (l: Line)
    ensures l.Property? <==> KeyPrefix(line).Some?
    ensures l.Property? ==> IsKey(l.key) && |l.key| < |line| && line == l.key + [':'] + line[|l.key| + 1..]
    ensures l.Property? ==> l.value == Unescape(TrimEnd(line[|l.key| + 1..]))
    ensures l.Continuation? ==> l.text == Unescape(Trim(line))
  {
    match KeyPrefix(line)
    case Some(key) =>
      assert line == line[..|key|] + [':'] + line[|key| + 1..];
      Property(key, KeyLineValue(line))
    case None => Continuation(Unescape(Trim(line)))
  }

  /** A raw event: property name to value, as the block states them (PHP's key order is not kept). */
  type RawEvent = map<string, string>

  /** The state of the line loop: the event so far and the last property name seen. */
  datatype LineState = LineState(event: RawEvent, lastKey: Option<string>)

  const NoLines := LineState(map[], None)

  /**
   * One line of the loop. A property sets its name to its value and becomes the last
   * name; a continuation is appended to the last name's value, or dropped when no
   * name has been seen.
   */
  function Step(st: LineState, l: Line): LineState {
    match l
    case Property(key, value) => LineState(st.event[key := value], Some(key))
    case Continuation(text) =>
      if st.lastKey.Some? && st.lastKey.value in st.event then
        var k := st.lastKey.value;
        LineState(st.event[k := st.event[k] + text], st.lastKey)
      else st
  }

  /** The loop over a block's lines, from the front. */
  function FoldLines(ls: seq<Line>, st: LineState): (r: LineState)
    ensures st.event.Keys <= r.event.Keys
    ensures ls != [] && ls[|ls| - 1].Property? ==> r.lastKey == Some(ls[|ls| - 1].key)
    decreases |ls|
  {
    if ls == [] then st else FoldLines(ls[1..], Step(st, ls[0]))
  }

  /** Folding two runs of lines is folding the first, then the second. */
  lemma {:induction false} FoldLinesAppend(a: seq<Line>, b: seq<Line>, st: LineState)
    ensures FoldLines(a + b, st) == FoldLines(b, FoldLines(a, st))
    decreases |a|
  {
    if a == [] {
      assert a + b == b;
    } else {
      assert (a + b)[0] == a[0] && (a + b)[1..] == a[1..] + b;
      FoldLinesAppend(a[1..], b, Step(st, a[0]));
    }
  }

  /** The names the properties among `ls` set. */
  function LineKeys(ls: seq<Line>): (keys: set<string>)
    ensures forall k :: k in keys <==> exists i :: 0 <= i < |ls| && ls[i].Property? && ls[i].key == k
    decreases |ls|
  {
    if ls == [] then {}
    else
      var rest := LineKeys(ls[1..]);
      assert forall i :: 1 <= i < |ls| ==> ls[i] == ls[1..][i - 1];
      assert forall i :: 0 <= i < |ls[1..]| ==> ls[1..][i] == ls[i + 1];
      match ls[0]
      case Property(k, _) => {k} + rest
      case Continuation(_) => rest
  }

  /** A name is stored exactly when it was stored before or some property sets it. */
  lemma {:induction false} FoldLinesKeys(ls: seq<Line>, st: LineState)
    ensures FoldLines(ls, st).event.Keys == st.event.Keys + LineKeys(ls)
    decreases |ls|
  {
    if ls != [] {
      FoldLinesKeys(ls[1..], Step(st, ls[0]));
    }
  }

  /** The state the loop keeps: the last name seen is stored. */
  predicate LastKeyStored(st: LineState) {
    st.lastKey.Some? ==> st.lastKey.value in st.event
  }

  lemma {:induction false} FoldLinesLastKeyStored(ls: seq<Line>, st: LineState)
    requires LastKeyStored(st)
    ensures LastKeyStored(FoldLines(ls, st))
    decreases |ls|
  {
    if ls != [] {
      FoldLinesLastKeyStored(ls[1..], Step(st, ls[0]));
    }
  }

  /** Continuations that follow no property are dropped. */
  lemma {:induction false} LeadingContinuationsDropped(pre: seq<Line>)
    requires forall i :: 0 <= i < |pre| ==> pre[i].Continuation?
    ensures FoldLines(pre, NoLines) == NoLines
    decreases |pre|
  {
    if pre != [] {
      LeadingContinuationsDropped(pre[1..]);
    }
  }

  /** The text a run of continuations carries, in order. */
  function Texts(cs: seq<Line>): string
    requires forall i :: 0 <= i < |cs| ==> cs[i].Continuation?
    decreases |cs|
  {
    if cs == [] then [] else cs[0].text + Texts(cs[1..])
  }

  /** Continuations after a stored name append to that name's value and to nothing else. */
  lemma {:induction false} ContinuationsAppend(cs: seq<Line>, event: RawEvent, k: string)
    requires k in event
    requires forall i :: 0 <= i < |cs| ==> cs[i].Continuation?
    ensures FoldLines(cs, LineState(event, Some(k))) == LineState(event[k := event[k] + Texts(cs)], Some(k))
    decreases |cs|
  {
    if cs == [] {
      AppendEmpty(event[k]);
      assert event[k := event[k]] == event;
    } else {
      var next := event[k := event[k] + cs[0].text];
      ContinuationsAppend(cs[1..], next, k);
      assert next[k] + Texts(cs[1..]) == event[k] + Texts(cs);
      assert next[k := next[k] + Texts(cs[1..])] == event[k := event[k] + Texts(cs)];
    }
  }

  /** Lines that neither set `k` nor continue it leave the value of `k` alone. */
  lemma {:induction false} OtherLinesKeep(ls: seq<Line>, st: LineState, k: string)
    requires st.lastKey != Some(k)
    requires forall i :: 0 <= i < |ls| ==> !(ls[i].Property? && ls[i].key == k)
    ensures FoldLines(ls, st).lastKey != Some(k)
    ensures (k in FoldLines(ls, st).event) == (k in st.event)
    ensures k in st.event ==> FoldLines(ls, st).event[k] == st.event[k]
    decreases |ls|
  {
    if ls != [] {
      OtherLinesKeep(ls[1..], Step(st, ls[0]), k);
    }
  }

  /**
   * The value of a property is set by its last property line and the continuation lines
   * right after it: what comes before is overwritten, and what follows, starting with
   * another property, leaves it alone.
   */
  lemma LastPropertyWins(pre: seq<Line>, k: string, v: string, cs: seq<Line>, post: seq<Line>, st: LineState)
    requires forall i :: 0 <= i < |cs| ==> cs[i].Continuation?
    requires post != [] ==> post[0].Property?
    requires forall i :: 0 <= i < |post| ==> !(post[i].Property? && post[i].key == k)
    ensures k in FoldLines(pre + ([Property(k, v)] + cs) + post, st).event
    ensures FoldLines(pre + ([Property(k, v)] + cs) + post, st).event[k] == v + Texts(cs)
  {
    FoldLinesAppend(pre + ([Property(k, v)] + cs), post, st);
    FoldLinesAppend(pre, [Property(k, v)] + cs, st);
    var mid := FoldLines(pre, st);
    FoldLinesAppend([Property(k, v)], cs, mid);
    assert FoldLines([Property(k, v)], mid) == LineState(mid.event[k := v], Some(k));
    ContinuationsAppend(cs, mid.event[k := v], k);
    var after := FoldLines([Property(k, v)] + cs, mid);
    assert after.event[k] == v + Texts(cs);
    if post != [] {
      var next := Step(after, post[0]);
      assert next.lastKey == Some(post[0].key) && next.event[k] == after.event[k];
      OtherLinesKeep(post[1..], next, k);
      assert post == [post[0]] + post[1..];
      FoldLinesAppend([post[0]], post[1..], after);
    }
  }

  /** The classified lines of a block, in order. */
  function ClassifyAll(lines: seq<string>): (ls: seq<Line>)
    ensures |ls| == |lines|
    decreases |lines|
  {
    if lines == [] then [] else [ClassifyLine(lines[0])] + ClassifyAll(lines[1..])
  }

  lemma {:induction false} ClassifyAllAt(lines: seq<string>, i: nat)
    requires i < |lines|
    ensures ClassifyAll(lines)[i] == ClassifyLine(lines[i])
    decreases i
  {
    if i > 0 {
      ClassifyAllAt(lines[1..], i - 1);
    }
  }

  lemma ClassifyAllStep(lines: seq<string>, i: nat)
    requires i < |lines|
    ensures ClassifyAll(lines[i..]) == [ClassifyLine(lines[i])] + ClassifyAll(lines[i + 1..])
  {
    assert lines[i..][0] == lines[i] && lines[i..][1..] == lines[i + 1..];
  }

  lemma FoldLinesCons(l: Line, ls: seq<Line>, st: LineState)
    ensures FoldLines([l] + ls, st) == FoldLines(ls, Step(st, l))
  {
    assert ([l] + ls)[1..] == ls;
  }

  lemma StepPropertyLine(st: LineState, line: string, key: string)
    requires KeyPrefix(line) == Some(key)
    ensures Step(st, ClassifyLine(line)) == LineState(st.event[key := KeyLineValue(line)], Some(key))
  {
  }

  lemma StepContinuationLine(st: LineState, line: string)
    requires KeyPrefix(line).None?
    ensures Step(st, ClassifyLine(line)) == Step(st, Continuation(Unescape(Trim(line))))
  {
  }

  /** The clean-up of `DESCRIPTION`: the export note, then every pair of newlines, removed. */
  function CleanDescription(event: RawEvent): (r: RawEvent)
    ensures r.Keys == event.Keys
    ensures forall k :: k in event && k != "DESCRIPTION" ==> r[k] == event[k]
  {
    if "DESCRIPTION" in event then
      event["DESCRIPTION" := RemoveNewlinePairs(StripExported(event["DESCRIPTION"]))]
    else event
  }

  /** The raw event of one block: its `\n`-separated lines folded, then the description cleaned. */
  function RawEventOf(vevent: string): (r: RawEvent)
    ensures r.Keys == FoldLines(ClassifyAll(Split(vevent, '\n')), NoLines).event.Keys
    ensures "DESCRIPTION" in r ==> NoNewlinePair(r["DESCRIPTION"])
  {
    var event := FoldLines(ClassifyAll(Split(vevent, '\n')), NoLines).event;
    if "DESCRIPTION" in event then
      RemoveNewlinePairsLeavesNoPair(StripExported(event["DESCRIPTION"]));
      CleanDescription(event)
    else CleanDescription(event)
  }

  /** Folding a block's lines stores exactly the names that some line starts with. */
  lemma FoldedKeys(lines: seq<string>, k: string)
    ensures k in FoldLines(ClassifyAll(lines), NoLines).event <==>
      exists i :: 0 <= i < |lines| && KeyPrefix(lines[i]) == Some(k)
  {
    var ls := ClassifyAll(lines);
    FoldLinesKeys(ls, NoLines);
    if k in LineKeys(ls) {
      var i :| 0 <= i < |ls| && ls[i].Property? && ls[i].key == k;
      ClassifyAllAt(lines, i);
    }
    if exists i :: 0 <= i < |lines| && KeyPrefix(lines[i]) == Some(k) {
      var i :| 0 <= i < |lines| && KeyPrefix(lines[i]) == Some(k);
      ClassifyAllAt(lines, i);
    }
  }

  /** A raw event holds exactly the names that some line of its block starts with. */
  lemma RawEventKeys(vevent: string, k: string)
    ensures k in RawEventOf(vevent) <==>
      exists i :: 0 <= i < |Split(vevent, '\n')| && KeyPrefix(Split(vevent, '\n')[i]) == Some(k)
  {
    FoldedKeys(Split(vevent, '\n'), k);
    RawEventFoldedKeys(vevent);
  }

  lemma RawEventFoldedKeys(vevent: string)
    ensures RawEventOf(vevent).Keys == FoldLines(ClassifyAll(Split(vevent, '\n')), NoLines).event.Keys
  {
  }

  /** Every name in a raw event is a property name. */
  lemma RawEventNames(vevent: string)
    ensures forall k :: k in RawEventOf(vevent) ==> IsKey(k)
  {
    forall k | k in RawEventOf(vevent)
      ensures IsKey(k)
    {
      RawEventKeys(vevent, k);
    }
  }

  /** The raw events of a calendar text, one per block, in order. */
  function RawEventsOf(file: string): (events: seq<RawEvent>)
    ensures |events| == |EventBlocks(file)|
    ensures forall k :: 0 <= k < |events| ==> events[k] == RawEventOf(EventBlocks(file)[k])
    ensures !Contains(file, BeginEvent) ==> events == []
  {
    var blocks := EventBlocks(file);
    seq(|blocks|, k requires 0 <= k < |blocks| => RawEventOf(blocks[k]))
  }

  /** The loop of lines 99-122 over one block, proved to compute `RawEventOf`. */
  method ParseEvent(vevent: string) returns (event: RawEvent)
    ensures event == RawEventOf(vevent)
  {
    var lines := Split(vevent, '\n');
    event := map[];
    var lastKey: Option<string> := None;
    var i := 0;
    assert lines[0..] == lines;
    while i < |lines|
      invariant 0 <= i <= |lines|
      invariant FoldLines(ClassifyAll(lines[i..]), LineState(event, lastKey)) == FoldLines(ClassifyAll(lines), NoLines)
    {
      var line := lines[i];
      ghost var before := LineState(event, lastKey);
      ClassifyAllStep(lines, i);
      FoldLinesCons(ClassifyLine(line), ClassifyAll(lines[i + 1..]), before);
      match KeyPrefix(line) {
        case None =>
          StepContinuationLine(before, line);
          if lastKey.Some? && lastKey.value in event {
            event := event[lastKey.value := event[lastKey.value] + Unescape(Trim(line))];
          }
        case Some(key) =>
          StepPropertyLine(before, line, key);
          event := event[key := KeyLineValue(line)];
          lastKey := Some(key);
      }
      i := i + 1;
    }
    assert lines[i..] == [];
    if "DESCRIPTION" in event {
      event := event["DESCRIPTION" := RemoveNewlinePairs(StripExported(event["DESCRIPTION"]))];
    }
  }
}
