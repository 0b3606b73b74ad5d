/**
 * The per-event derivation of `parseParsedEvents` (IcsParser.php:131-248):
 * group letters, group format, trainer, course labels, times and
 * location of one raw event, and the group, period and location filters
 * that decide whether the event is kept. Also the period check
 * `verifyPeriod` (58-71) and the index-aligned join of
 * `eventsReconciliation` (250-271).
 */
module Derivation {
  import opened Results
  import opened Text
  import opened Patterns
  import opened Summary
  import opened Extraction

  // ---------------------------------------------------------------------
  // Period check
  // ---------------------------------------------------------------------

  /**
   * `verifyPeriod`: the period is active when both bounds are set and in
   * order, inactive when a bound is missing, and an error when both are
   * set and out of order.
   */
  function VerifyPeriod(from: Option<int>, to: Option<int>): (r: Result<bool>)
    ensures r == Ok(true) <==> from.Some? && to.Some? && from.value <= to.value
    ensures r == Ok(false) <==> from.None? || to.None?
    ensures r.Err? ==> r.error == InvalidPeriod
  {
    if from.Some? && to.Some? then
      if from.value <= to.value then Ok(true) else Err(InvalidPeriod)
    else
      Ok(false)
  }

  /** The only way the period check fails: both bounds set, `from` after `to`. */
  lemma VerifyPeriodError(from: Option<int>, to: Option<int>)
    ensures VerifyPeriod(from, to).Err? <==> from.Some? && to.Some? && from.value > to.value
  {
  }

  // ---------------------------------------------------------------------
  // Group letters and trainer
  // ---------------------------------------------------------------------

  /** `item` is exactly the line `<cls> - TP <x>` for one capital letter `x`. */
  predicate GroupLine(item: string, cls: string, x: string) {
    |x| == 1 && 'A' <= x[0] <= 'Z' && item == cls + " - TP " + x
  }

  /** The scanner `GroupLetter` recognises exactly the group lines. */
  lemma GroupLetterExact(item: string, cls: string, x: string)
    ensures GroupLetter(item, cls) == Some(x) <==> GroupLine(item, cls, x)
  {
    if GroupLine(item, cls, x) {
      match GroupLetter(item, cls)
      case None =>
      case Some(y) =>
        var p := cls + " - TP ";
        assert item == p + x && item == p + y;
        assert x == item[|p|..] == y;
    }
  }

  /** The letters of the group lines among `items`, in line order. */
  function GroupLetters(items: seq<string>, cls: string): (letters: seq<string>)
    ensures |letters| <= |items|
    ensures forall k :: 0 <= k < |letters| ==> |letters[k]| == 1 && 'A' <= letters[k][0] <= 'Z'
  {
    if items == [] then []
    else
      var rest := GroupLetters(items[..|items| - 1], cls);
      match GroupLetter(items[|items| - 1], cls)
      case Some(x) => rest + [x]
      case None => rest
  }

  /** The letters of `items + [item]` extend those of `items` by at most the new line's letter. */
  lemma GroupLettersSnoc(items: seq<string>, item: string, cls: string)
    ensures GroupLetters(items + [item], cls)
         == GroupLetters(items, cls) + (match GroupLetter(item, cls) case Some(x) => [x] case None => [])
  {
    assert (items + [item])[..|items|] == items;
  }

  /** The letters of two runs of lines are the letters of the first, then those of the second. */
  lemma {:induction false} GroupLettersAppend(a: seq<string>, b: seq<string>, cls: string)
    ensures GroupLetters(a + b, cls) == GroupLetters(a, cls) + GroupLetters(b, cls)
    decreases |b|
  {
    if b == [] {
      assert a + b == a;
    } else {
      var init, last := b[..|b| - 1], b[|b| - 1];
      assert b == init + [last];
      assert a + b == (a + init) + [last];
      GroupLettersAppend(a, init, cls);
      GroupLettersSnoc(a + init, last, cls);
      GroupLettersSnoc(init, last, cls);
    }
  }

  /** The positions of the group lines among `items`. */
  function GroupLinePositions(items: seq<string>, cls: string): set<nat> {
    set k: nat | k < |items| && GroupLetter(items[k], cls).Some?
  }

  /** One letter per group line: repeated lines are not merged, so the count is that of the lines. */
  lemma {:induction false} GroupLettersCount(items: seq<string>, cls: string)
    ensures |GroupLetters(items, cls)| == |GroupLinePositions(items, cls)|
  {
    if items != [] {
      var init, last := items[..|items| - 1], items[|items| - 1];
      assert items == init + [last];
      GroupLettersCount(init, cls);
      GroupLettersSnoc(init, last, cls);
      PositionsSnoc(init, last, cls);
      assert |init| !in GroupLinePositions(init, cls);
    }
  }

  /** A new last line adds its own position exactly when it is a group line. */
  lemma PositionsSnoc(init: seq<string>, last: string, cls: string)
    ensures GroupLinePositions(init + [last], cls)
         == GroupLinePositions(init, cls) + (if GroupLetter(last, cls).Some? then {|init|} else {})
  {
    var items := init + [last];
    forall k: nat | k < |init|
      ensures items[k] == init[k]
    {
    }
    assert items[|init|] == last;
  }

  /** A letter is in the group exactly when some line is that letter's group line. */
  lemma {:induction false} GroupLettersMember(items: seq<string>, cls: string, x: string)
    ensures x in GroupLetters(items, cls) <==> exists k :: 0 <= k < |items| && GroupLine(items[k], cls, x)
  {
    if items != [] {
      var init := items[..|items| - 1];
      var last := items[|items| - 1];
      assert items == init + [last];
      GroupLettersMember(init, cls, x);
      GroupLetterExact(last, cls, x);
      if exists k :: 0 <= k < |items| && GroupLine(items[k], cls, x) {
        var k :| 0 <= k < |items| && GroupLine(items[k], cls, x);
        if k < |init| {
          assert GroupLine(init[k], cls, x);
        }
      }
      if exists k :: 0 <= k < |init| && GroupLine(init[k], cls, x) {
        var k :| 0 <= k < |init| && GroupLine(init[k], cls, x);
        assert GroupLine(items[k], cls, x);
      }
    }
  }

  /** The group is empty exactly when no line is a group line. */
  lemma {:induction false} GroupLettersEmpty(items: seq<string>, cls: string)
    ensures GroupLetters(items, cls) == [] <==> forall k :: 0 <= k < |items| ==> GroupLetter(items[k], cls).None?
  {
    if items != [] {
      var init := items[..|items| - 1];
      GroupLettersEmpty(init, cls);
      assert forall k :: 0 <= k < |init| ==> init[k] == items[k];
    }
  }

  /** The last line that is not a group line, if there is one. */
  function Trainer(items: seq<string>, cls: string): (t: Option<string>)
    ensures t.Some? ==> t.value in items && GroupLetter(t.value, cls).None?
  {
    if items == [] then None
    else if GroupLetter(items[|items| - 1], cls).None? then Some(items[|items| - 1])
    else Trainer(items[..|items| - 1], cls)
  }

  /** There is no trainer exactly when every line is a group line. */
  lemma {:induction false} TrainerNone(items: seq<string>, cls: string)
    ensures Trainer(items, cls).None? <==> forall k :: 0 <= k < |items| ==> GroupLetter(items[k], cls).Some?
  {
    if items != [] {
      var init := items[..|items| - 1];
      TrainerNone(init, cls);
      assert forall k :: 0 <= k < |init| ==> init[k] == items[k];
    }
  }

  /** The trainer is the non-group line that only group lines follow. */
  lemma {:induction false} TrainerIsLast(items: seq<string>, cls: string, k: nat)
    requires k < |items| && GroupLetter(items[k], cls).None?
    requires forall j :: k < j < |items| ==> GroupLetter(items[j], cls).Some?
    ensures Trainer(items, cls) == Some(items[k])
  {
    if k < |items| - 1 {
      var init := items[..|items| - 1];
      assert init[k] == items[k];
      assert forall j :: k < j < |init| ==> init[j] == items[j];
      TrainerIsLast(init, cls, k);
    }
  }

  /** The loop of lines 164-170 over the description's lines. */
  method SplitGroupsAndTrainer(items: seq<string>, cls: string) returns (group: seq<string>, trainer: Option<string>)
    ensures group == GroupLetters(items, cls)
    ensures trainer == Trainer(items, cls)
  {
    group := [];
    trainer := None;
    var i := 0;
    while i < |items|
      invariant 0 <= i <= |items|
      invariant group == GroupLetters(items[..i], cls)
      invariant trainer == Trainer(items[..i], cls)
    {
      var item := items[i];
      assert items[..i + 1] == items[..i] + [item];
      GroupLettersSnoc(items[..i], item, cls);
      assert items[..i + 1][..i] == items[..i];
      match GroupLetter(item, cls) {
        case Some(x) =>
          group := group + [x];
        case None =>
          trainer := Some(item);
      }
      i := i + 1;
    }
    assert items[..i] == items;
  }

  datatype GroupFormat = TP | TD | CM

  /** Lines 172-186: TP for one group, TD for two, CM for more, nothing for none. */
  function GroupFormatOf(count: nat): (r: Option<GroupFormat>)
    ensures r.None? <==> count == 0
    ensures r == Some(TP) <==> count == 1
    ensures r == Some(TD) <==> count == 2
    ensures r == Some(CM) <==> count > 2
  {
    if count == 0 then None
    else if count == 1 then Some(TP)
    else if count == 2 then Some(TD)
    else Some(CM)
  }

  // ---------------------------------------------------------------------
  // One event
  // ---------------------------------------------------------------------

  /**
   * A parsed event. Every field but `group` is `None` when the source
   * leaves its key out of the record; `group` is empty then.
   */
  datatype ParsedEvent = ParsedEvent(
    group: seq<string>,
    groupFormat: Option<GroupFormat>,
    trainer: Option<string>,
    code: Option<string>,
    title: Option<string>,
    start: Option<int>,
    end: Option<int>,
    location: Option<seq<string>>)

  /** The group, location and period settings of the parser. `""` and `None` mean unset. */
  datatype Filters = Filters(group: string, location: string, from: Option<int>, to: Option<int>)

  /** The description of a raw event; a missing one reads as empty text. */
  function Description(raw: RawEvent): string {
    if "DESCRIPTION" in raw then raw["DESCRIPTION"] else ""
  }

  /** The time of property `key`, converted by `timestampOf`, when it is present. */
  function Stamp(raw: RawEvent, key: string, timestampOf: string -> int): (t: Option<int>)
    ensures t.Some? <==> key in raw
    ensures t.Some? ==> t.value == timestampOf(raw[key])
  {
    if key in raw then Some(timestampOf(raw[key])) else None
  }

  /** The course labels of a raw event; none without a summary. */
  function Labels(raw: RawEvent): (r: CodeTitle)
    ensures r.code.Some? <==> r.title.Some?
    ensures r.code.Some? ==> "SUMMARY" in raw
  {
    if "SUMMARY" in raw then SummaryLabels(raw["SUMMARY"]) else CodeTitle(None, None)
  }

  /** The comma-separated parts of the location (line 233), when present. */
  function Locations(raw: RawEvent): (r: Option<seq<string>>)
    ensures r.Some? <==> "LOCATION" in raw
    ensures r.Some? ==> |r.value| >= 1
    ensures r.Some? ==> Join(r.value, ',') == raw["LOCATION"]
    ensures r.Some? ==> forall k :: 0 <= k < |r.value| ==> ',' !in r.value[k]
  {
    if "LOCATION" in raw then
      JoinSplit(raw["LOCATION"], ',');
      Some(Split(raw["LOCATION"], ','))
    else None
  }

  /** The full record of a raw event for class `cls`, before any filter. */
  function Record(raw: RawEvent, cls: string, timestampOf: string -> int): (e: ParsedEvent)
    ensures e.groupFormat.None? <==> e.group == []
    ensures e.groupFormat == GroupFormatOf(|e.group|)
    ensures e.start.Some? <==> "DTSTART" in raw
    ensures e.end.Some? <==> "DTEND" in raw
    ensures e.location.Some? <==> "LOCATION" in raw
    ensures e.location.Some? ==> |e.location.value| >= 1 && Join(e.location.value, ',') == raw["LOCATION"]
  {
    var items := Split(Description(raw), '\n');
    var group := GroupLetters(items, cls);
    var labels := Labels(raw);
    ParsedEvent(group, GroupFormatOf(|group|), Trainer(items, cls), labels.code, labels.title,
                Stamp(raw, "DTSTART", timestampOf), Stamp(raw, "DTEND", timestampOf), Locations(raw))
  }

  /** A letter is in a record's group exactly when a line of the description is that letter's group line. */
  lemma RecordGroup(raw: RawEvent, cls: string, timestampOf: string -> int, items: seq<string>, x: string)
    requires items == Split(Description(raw), '\n')
    ensures x in Record(raw, cls, timestampOf).group <==> exists k :: 0 <= k < |items| && GroupLine(items[k], cls, x)
  {
    GroupLettersMember(items, cls, x);
  }

  /**
   * A record's group holds the letters of its description's group lines in
   * line order, one per line, and its format counts those lines.
   */
  lemma RecordGroupFormat(raw: RawEvent, cls: string, timestampOf: string -> int, items: seq<string>)
    requires items == Split(Description(raw), '\n')
    ensures Record(raw, cls, timestampOf).group == GroupLetters(items, cls)
    ensures Record(raw, cls, timestampOf).groupFormat == GroupFormatOf(|GroupLinePositions(items, cls)|)
  {
    GroupLettersCount(items, cls);
  }

  /** A record has no trainer exactly when every line of the description is a group line. */
  lemma RecordTrainer(raw: RawEvent, cls: string, timestampOf: string -> int, items: seq<string>)
    requires items == Split(Description(raw), '\n')
    ensures Record(raw, cls, timestampOf).trainer.None? <==> forall k :: 0 <= k < |items| ==> GroupLetter(items[k], cls).Some?
  {
    TrainerNone(items, cls);
  }

  /** A time lies in the period, or the period or the time is absent. */
  function WithinPeriod(t: Option<int>, from: Option<int>, to: Option<int>): (b: bool)
    ensures !b <==> t.Some? && from.Some? && to.Some? && (t.value < from.value || to.value < t.value)
  {
    t.None? || from.None? || to.None? || from.value <= t.value <= to.value
  }

  /** The group filter (lines 188-193) lets a record with these group letters through. */
  function GroupAdmits(filter: string, group: seq<string>): (b: bool)
    ensures !b <==> filter != "" && forall k :: 0 <= k < |group| ==> group[k] != filter
  {
    filter == "" || filter in group
  }

  /** The location filter (lines 236-241) lets a record with these locations through. */
  function LocationAdmits(filter: string, location: Option<seq<string>>): (b: bool)
    ensures !b <==> filter != "" && location.Some? && forall k :: 0 <= k < |location.value| ==> location.value[k] != filter
  {
    filter == "" || location.None? || filter in location.value
  }

  /** A record passes every filter and the period is not out of order. */
  function Admitted(e: ParsedEvent, f: Filters): (b: bool)
    ensures b ==> f.from.None? || f.to.None? || f.from.value <= f.to.value
    ensures b && f.group != "" ==> f.group in e.group
    ensures b && f.location != "" && e.location.Some? ==> f.location in e.location.value
    ensures b && f.from.Some? && f.to.Some? && e.start.Some? ==> f.from.value <= e.start.value <= f.to.value
    ensures b && f.from.Some? && f.to.Some? && e.end.Some? ==> f.from.value <= e.end.value <= f.to.value
    ensures !b ==> || (f.group != "" && f.group !in e.group)
                   || (f.from.Some? && f.to.Some? && f.from.value > f.to.value)
                   || !WithinPeriod(e.start, f.from, f.to)
                   || !WithinPeriod(e.end, f.from, f.to)
                   || (f.location != "" && e.location.Some? && f.location !in e.location.value)
  {
    && GroupAdmits(f.group, e.group)
    && VerifyPeriod(f.from, f.to).Ok?
    && WithinPeriod(e.start, f.from, f.to)
    && WithinPeriod(e.end, f.from, f.to)
    && LocationAdmits(f.location, e.location)
  }

  /**
   * One iteration of the loop of lines 146-244 with the class already
   * known: `Ok(None)` when the event is dropped, an error when the period
   * check fails for an event the group filter lets through.
   */
  function DeriveEvent(raw: RawEvent, cls: string, f: Filters, timestampOf: string -> int): (r: Result<Option<ParsedEvent>>)
    ensures r.Err? ==> r.error == InvalidPeriod
    ensures r.Ok? && r.value.Some? ==> Admitted(r.value.value, f)
  {
    var items := Split(Description(raw), '\n');
    var group := GroupLetters(items, cls);
    if f.group != "" && f.group !in group then Ok(None)
    else
      var labels := Labels(raw);
      match VerifyPeriod(f.from, f.to)
      case Err(e) => Err(e)
      case Ok(active) =>
        var start := Stamp(raw, "DTSTART", timestampOf);
        var end := Stamp(raw, "DTEND", timestampOf);
        var location := Locations(raw);
        if active && start.Some? && !(f.from.value <= start.value <= f.to.value) then Ok(None)
        else if active && end.Some? && !(f.from.value <= end.value <= f.to.value) then Ok(None)
        else if f.location != "" && location.Some? && f.location !in location.value then Ok(None)
        else Ok(Some(ParsedEvent(group, GroupFormatOf(|group|), Trainer(items, cls), labels.code, labels.title, start, end, location)))
  }

  /** An event is kept exactly when its record passes every filter, and then it is that record. */
  lemma DeriveEventKept(raw: RawEvent, cls: string, f: Filters, timestampOf: string -> int)
    ensures DeriveEvent(raw, cls, f, timestampOf) == Ok(Some(Record(raw, cls, timestampOf)))
        <==> Admitted(Record(raw, cls, timestampOf), f)
    ensures DeriveEvent(raw, cls, f, timestampOf).Ok? && DeriveEvent(raw, cls, f, timestampOf).value.Some?
        ==> DeriveEvent(raw, cls, f, timestampOf).value.value == Record(raw, cls, timestampOf)
  {
  }

  /**
   * The filters of lines 188-241 in terms of the raw event itself: a record is
   * admitted exactly when the group filter is unset or some description line is
   * that group's line, the period is in order, each present start and end time
   * lies in a set period, and a set location filter names one of the parts of a
   * present location.
   */
  lemma RecordAdmitted(raw: RawEvent, cls: string, f: Filters, timestampOf: string -> int, items: seq<string>)
    requires items == Split(Description(raw), '\n')
    ensures Admitted(Record(raw, cls, timestampOf), f)
        <==> && (f.group == "" || exists k :: 0 <= k < |items| && GroupLine(items[k], cls, f.group))
             && (f.from.None? || f.to.None? || f.from.value <= f.to.value)
             && ("DTSTART" in raw && f.from.Some? && f.to.Some? ==> f.from.value <= timestampOf(raw["DTSTART"]) <= f.to.value)
             && ("DTEND" in raw && f.from.Some? && f.to.Some? ==> f.from.value <= timestampOf(raw["DTEND"]) <= f.to.value)
             && ("LOCATION" in raw && f.location != "" ==> f.location in Split(raw["LOCATION"], ','))
  {
    RecordGroup(raw, cls, timestampOf, items, f.group);
  }

  /** The event fails exactly when the group filter lets it through and the period is out of order. */
  lemma DeriveEventError(raw: RawEvent, cls: string, f: Filters, timestampOf: string -> int)
    ensures DeriveEvent(raw, cls, f, timestampOf).Err?
        <==> GroupAdmits(f.group, Record(raw, cls, timestampOf).group)
             && f.from.Some? && f.to.Some? && f.from.value > f.to.value
    ensures DeriveEvent(raw, cls, f, timestampOf).Err? ==> DeriveEvent(raw, cls, f, timestampOf).error == InvalidPeriod
  {
  }

  /** Under a group filter, a kept event's description holds that group's line. */
  lemma GroupFilterKeeps(raw: RawEvent, cls: string, f: Filters, timestampOf: string -> int)
    requires f.group != ""
    requires DeriveEvent(raw, cls, f, timestampOf).Ok? && DeriveEvent(raw, cls, f, timestampOf).value.Some?
    ensures exists k :: 0 <= k < |Split(Description(raw), '\n')| && GroupLine(Split(Description(raw), '\n')[k], cls, f.group)
  {
    DeriveEventKept(raw, cls, f, timestampOf);
    RecordGroup(raw, cls, timestampOf, Split(Description(raw), '\n'), f.group);
  }

  /** Under a location filter, a kept event with a location names it as one of its comma-separated parts. */
  lemma LocationFilterKeeps(raw: RawEvent, cls: string, f: Filters, timestampOf: string -> int)
    requires f.location != "" && "LOCATION" in raw
    requires DeriveEvent(raw, cls, f, timestampOf).Ok? && DeriveEvent(raw, cls, f, timestampOf).value.Some?
    ensures f.location in Split(raw["LOCATION"], ',')
  {
    DeriveEventKept(raw, cls, f, timestampOf);
  }

  /** Under an active period, a kept event's present start and end times lie in it. */
  lemma PeriodFilterKeeps(raw: RawEvent, cls: string, f: Filters, timestampOf: string -> int)
    requires f.from.Some? && f.to.Some?
    requires DeriveEvent(raw, cls, f, timestampOf).Ok? && DeriveEvent(raw, cls, f, timestampOf).value.Some?
    ensures "DTSTART" in raw ==> f.from.value <= timestampOf(raw["DTSTART"]) <= f.to.value
    ensures "DTEND" in raw ==> f.from.value <= timestampOf(raw["DTEND"]) <= f.to.value
    ensures var e := DeriveEvent(raw, cls, f, timestampOf).value.value;
      e.start.Some? ==> e.start.value == timestampOf(raw["DTSTART"]) && f.from.value <= e.start.value <= f.to.value
    ensures var e := DeriveEvent(raw, cls, f, timestampOf).value.value;
      e.end.Some? ==> e.end.value == timestampOf(raw["DTEND"]) && f.from.value <= e.end.value <= f.to.value
  {
    DeriveEventKept(raw, cls, f, timestampOf);
  }

  /** The program text of one iteration, proved to compute `DeriveEvent`. */
  method BuildEvent(raw: RawEvent, cls: string, f: Filters, timestampOf: string -> int) returns (r: Result<Option<ParsedEvent>>)
    ensures r == DeriveEvent(raw, cls, f, timestampOf)
  {
    var items := Split(Description(raw), '\n');
    var group, trainer := SplitGroupsAndTrainer(items, cls);
    if f.group != "" && f.group !in group {
      return Ok(None);
    }
    var labels := Labels(raw);
    var period := VerifyPeriod(f.from, f.to);
    if period.Err? {
      return Err(period.error);
    }
    var start: Option<int> := None;
    if "DTSTART" in raw {
      start := Some(timestampOf(raw["DTSTART"]));
      if period.value && !(f.from.value <= start.value <= f.to.value) {
        return Ok(None);
      }
    }
    var end: Option<int> := None;
    if "DTEND" in raw {
      end := Some(timestampOf(raw["DTEND"]));
      if period.value && !(f.from.value <= end.value <= f.to.value) {
        return Ok(None);
      }
    }
    var location: Option<seq<string>> := None;
    if "LOCATION" in raw {
      location := Some(Split(raw["LOCATION"], ','));
      if f.location != "" && f.location !in location.value {
        return Ok(None);
      }
    }
    return Ok(Some(ParsedEvent(group, GroupFormatOf(|group|), trainer, labels.code, labels.title, start, end, location)));
  }

  // ---------------------------------------------------------------------
  // All events
  // ---------------------------------------------------------------------

  /** A kept event under the index of its raw event (the source's sparse array). */
  datatype Indexed = Indexed(index: nat, event: ParsedEvent)

  /** What one iteration gives: a kept record, a drop (`Ok(None)`) or an error. */
  type Outcome = Result<Option<ParsedEvent>>

  /** The outcome of every raw event with the class known. */
  function Outcomes(raws: seq<RawEvent>, cls: string, f: Filters, timestampOf: string -> int): (outs: seq<Outcome>)
    ensures |outs| == |raws|
    ensures forall k :: 0 <= k < |raws| ==> outs[k] == DeriveEvent(raws[k], cls, f, timestampOf)
  {
    seq(|raws|, k requires 0 <= k < |raws| => DeriveEvent(raws[k], cls, f, timestampOf))
  }

  /**
   * The loop of lines 146-244 over the outcomes in order: the kept records
   * under their indices, or the first error.
   */
  function Collect(outs: seq<Outcome>): (r: Result<seq<Indexed>>)
    ensures r.Ok? ==> |r.value| <= |outs|
    ensures r.Err? ==> exists k :: 0 <= k < |outs| && outs[k] == Err(r.error)
  {
    if outs == [] then Ok([])
    else
      var n := |outs| - 1;
      match Collect(outs[..n])
      case Err(e) => Err(e)
      case Ok(acc) =>
        match outs[n]
        case Err(e) => Err(e)
        case Ok(None) => Ok(acc)
        case Ok(Some(e)) => Ok(acc + [Indexed(n, e)])
  }

  /** One more iteration of the loop. */
  lemma CollectSnoc(outs: seq<Outcome>, o: Outcome)
    ensures Collect(outs + [o]) == match Collect(outs)
      case Err(e) => Err(e)
      case Ok(acc) => (match o
        case Err(e) => Err(e)
        case Ok(None) => Ok(acc)
        case Ok(Some(e)) => Ok(acc + [Indexed(|outs|, e)]))
  {
    assert (outs + [o])[..|outs|] == outs;
  }

  /** Kept indices are indices of the outcomes, in strictly increasing order. */
  lemma {:induction false} CollectIndices(outs: seq<Outcome>)
    requires Collect(outs).Ok?
    ensures forall j :: 0 <= j < |Collect(outs).value| ==> Collect(outs).value[j].index < |outs|
    ensures forall i, j :: 0 <= i < j < |Collect(outs).value| ==> Collect(outs).value[i].index < Collect(outs).value[j].index
  {
    if outs != [] {
      CollectIndices(outs[..|outs| - 1]);
    }
  }

  /** Every entry is the record of the outcome at its index. */
  lemma {:induction false} CollectEntries(outs: seq<Outcome>)
    requires Collect(outs).Ok?
    ensures forall j :: 0 <= j < |Collect(outs).value| ==>
              Collect(outs).value[j].index < |outs| && outs[Collect(outs).value[j].index] == Ok(Some(Collect(outs).value[j].event))
  {
    if outs != [] {
      var init := outs[..|outs| - 1];
      CollectEntries(init);
      assert forall k :: 0 <= k < |init| ==> init[k] == outs[k];
    }
  }

  /** The loop succeeds exactly when every outcome is a success. */
  lemma {:induction false} CollectError(outs: seq<Outcome>)
    ensures Collect(outs).Ok? <==> forall k :: 0 <= k < |outs| ==> outs[k].Ok?
  {
    if outs != [] {
      var init := outs[..|outs| - 1];
      CollectError(init);
      assert forall k :: 0 <= k < |init| ==> init[k] == outs[k];
    }
  }

  /** A failing loop reports the first failing outcome's error. */
  lemma {:induction false} CollectFirstError(outs: seq<Outcome>, k: nat)
    requires k < |outs| && outs[k].Err?
    requires forall j :: 0 <= j < k ==> outs[j].Ok?
    ensures Collect(outs) == Err(outs[k].error)
  {
    var init := outs[..|outs| - 1];
    if k < |init| {
      assert forall j :: 0 <= j < k ==> init[j] == outs[j];
      CollectFirstError(init, k);
    } else {
      assert forall j :: 0 <= j < |init| ==> init[j] == outs[j];
      CollectError(init);
    }
  }

  /** An outcome has an entry exactly when it keeps its record. */
  lemma {:induction false} CollectKept(outs: seq<Outcome>, k: nat)
    requires k < |outs|
    requires Collect(outs).Ok?
    ensures (exists j :: 0 <= j < |Collect(outs).value| && Collect(outs).value[j].index == k)
        <==> outs[k].Ok? && outs[k].value.Some?
  {
    var n := |outs| - 1;
    var init := outs[..n];
    var all := Collect(outs).value;
    var acc := Collect(init).value;
    assert all == acc || all == acc + [Indexed(n, outs[n].value.value)];
    CollectIndices(init);
    if k < n {
      assert init[k] == outs[k];
      CollectKept(init, k);
      if exists j :: 0 <= j < |all| && all[j].index == k {
        var j :| 0 <= j < |all| && all[j].index == k;
        assert j < |acc| && acc[j] == all[j];
      }
      if exists j :: 0 <= j < |acc| && acc[j].index == k {
        var j :| 0 <= j < |acc| && acc[j].index == k;
        assert all[j] == acc[j];
      }
    } else {
      if outs[k].value.Some? {
        assert all[|acc|].index == k;
      } else {
        assert all == acc;
      }
    }
  }

  /**
   * The period error: the loop over all raw events fails exactly when
   * `from` is after `to` and the group filter lets at least one event
   * through, and the error is then `InvalidPeriod`.
   */
  lemma InvalidPeriodIff(raws: seq<RawEvent>, cls: string, f: Filters, timestampOf: string -> int)
    ensures Collect(Outcomes(raws, cls, f, timestampOf)).Err?
        <==> f.from.Some? && f.to.Some? && f.from.value > f.to.value
             && exists k :: 0 <= k < |raws| && GroupAdmits(f.group, Record(raws[k], cls, timestampOf).group)
    ensures Collect(Outcomes(raws, cls, f, timestampOf)).Err? ==> Collect(Outcomes(raws, cls, f, timestampOf)).error == InvalidPeriod
  {
    var outs := Outcomes(raws, cls, f, timestampOf);
    CollectError(outs);
    forall k | 0 <= k < |raws|
      ensures outs[k].Err?
          <==> GroupAdmits(f.group, Record(raws[k], cls, timestampOf).group)
               && f.from.Some? && f.to.Some? && f.from.value > f.to.value
      ensures outs[k].Err? ==> outs[k].error == InvalidPeriod
    {
      DeriveEventError(raws[k], cls, f, timestampOf);
    }
    if Collect(outs).Err? {
      var k := FirstError(outs);
      CollectFirstError(outs, k);
    }
  }

  /** The index of the first failing outcome. */
  function FirstError(outs: seq<Outcome>): (k: nat)
    requires exists k :: 0 <= k < |outs| && outs[k].Err?
    ensures k < |outs| && outs[k].Err?
    ensures forall j :: 0 <= j < k ==> outs[j].Ok?
  {
    if outs[0].Err? then 0
    else
      assert exists k :: 0 <= k < |outs[1..]| && outs[1..][k].Err? by {
        var k :| 0 <= k < |outs| && outs[k].Err?;
        assert outs[1..][k - 1] == outs[k];
      }
      FirstError(outs[1..]) + 1
  }

  /** The class used for the whole loop: the set one, else the first event's inferred one (lines 147-154). */
  function ResolveClass(cls: string, first: RawEvent): (r: Option<string>)
    ensures cls != "" ==> r == Some(cls)
    ensures r.Some? ==> r.value != ""
    ensures cls == "" ==> (r.Some? <==> Description(first) != [] && !IsPcreSpace(Description(first)[0]))
    ensures cls == "" && r.Some? ==> r.value <= Description(first)
  {
    if cls != "" then Some(cls) else ClassToken(Description(first))
  }

  /**
   * The result of `parseParsedEvents` over non-empty raw events: the
   * error of class inference, else the loop with the resolved class.
   */
  function ParsedEventsOf(raws: seq<RawEvent>, cls: string, f: Filters, timestampOf: string -> int): (r: Result<seq<Indexed>>)
    requires raws != []
    ensures ResolveClass(cls, raws[0]).None? ==> r == Err(ClassNotInferable)
    ensures r.Ok? ==> |r.value| <= |raws|
    ensures r.Err? ==> r.error == ClassNotInferable || r.error == InvalidPeriod
  {
    match ResolveClass(cls, raws[0])
    case None => Err(ClassNotInferable)
    case Some(c) => Collect(Outcomes(raws, c, f, timestampOf))
  }

  /** A failure in a prefix of the outcomes is the failure of them all. */
  lemma {:induction false} CollectPrefixError(outs: seq<Outcome>, n: nat)
    requires n <= |outs| && Collect(outs[..n]).Err?
    ensures Collect(outs) == Collect(outs[..n])
    decreases |outs| - n
  {
    if n < |outs| {
      CollectSnoc(outs[..n], outs[n]);
      assert outs[..n + 1] == outs[..n] + [outs[n]];
      CollectPrefixError(outs, n + 1);
    } else {
      assert outs[..n] == outs;
    }
  }

  /** One more iteration over a prefix of the outcomes. */
  lemma CollectStep(outs: seq<Outcome>, i: nat)
    requires i < |outs|
    ensures Collect(outs[..i + 1]) == match Collect(outs[..i])
      case Err(e) => Err(e)
      case Ok(acc) => (match outs[i]
        case Err(e) => Err(e)
        case Ok(None) => Ok(acc)
        case Ok(Some(e)) => Ok(acc + [Indexed(i, e)]))
  {
    assert outs[..i + 1] == outs[..i] + [outs[i]];
    CollectSnoc(outs[..i], outs[i]);
  }

  /**
   * The loop of lines 146-244: the class is inferred at the first event when
   * unset, then every event is derived in order until the first error.
   * `resolved` is the class the loop leaves behind, error or not.
   */
  method DeriveAll(raws: seq<RawEvent>, cls: string, f: Filters, timestampOf: string -> int)
    returns (r: Result<seq<Indexed>>, resolved: string)
    requires raws != []
    ensures r == ParsedEventsOf(raws, cls, f, timestampOf)
    ensures resolved == (if cls == "" && ClassToken(Description(raws[0])).Some? then ClassToken(Description(raws[0])).value else cls)
    ensures r.Ok? ==> r == Collect(Outcomes(raws, resolved, f, timestampOf))
  {
    resolved := cls;
    var events: seq<Indexed> := [];
    var i := 0;
    while i < |raws|
      invariant 0 <= i <= |raws|
      invariant i == 0 ==> resolved == cls && events == []
      invariant i > 0 ==> ResolveClass(cls, raws[0]) == Some(resolved)
      invariant i > 0 ==> Collect(Outcomes(raws, resolved, f, timestampOf)[..i]) == Ok(events)
    {
      var raw := raws[i];
      if resolved == "" {
        match ClassToken(Description(raw)) {
          case None =>
            return Err(ClassNotInferable), resolved;
          case Some(token) =>
            resolved := token;
        }
      }
      ghost var outs := Outcomes(raws, resolved, f, timestampOf);
      if i == 0 {
        assert outs[..0] == [];
        assert Collect(outs[..0]) == Ok(events);
      }
      var outcome := BuildEvent(raw, resolved, f, timestampOf);
      assert outcome == outs[i];
      CollectStep(outs, i);
      match outcome {
        case Err(e) =>
          CollectPrefixError(outs, i + 1);
          return Err(e), resolved;
        case Ok(None) =>
        case Ok(Some(e)) =>
          events := events + [Indexed(i, e)];
      }
      i := i + 1;
    }
    assert Outcomes(raws, resolved, f, timestampOf)[..i] == Outcomes(raws, resolved, f, timestampOf);
    return Ok(events), resolved;
  }

  // ---------------------------------------------------------------------
  // Reconciliation
  // ---------------------------------------------------------------------

  /** A parsed event with the raw event at its index, absent when there is none. */
  datatype Merged = Merged(parsed: ParsedEvent, raw: Option<RawEvent>)

  /** The raw event at index `i`, if there is one. */
  function RawAt(raws: seq<RawEvent>, i: nat): (r: Option<RawEvent>)
    ensures r.Some? <==> i < |raws|
    ensures r.Some? ==> r.value == raws[i]
  {
    if i < |raws| then Some(raws[i]) else None
  }

  /** The pairs built by `eventsReconciliation`, one per parsed event, in order. */
  function Reconcile(parsed: seq<Indexed>, raws: seq<RawEvent>): (r: seq<Merged>)
    ensures |r| == |parsed|
    ensures forall j :: 0 <= j < |r| ==> r[j].parsed == parsed[j].event && r[j].raw == RawAt(raws, parsed[j].index)
  {
    seq(|parsed|, j requires 0 <= j < |parsed| => Merged(parsed[j].event, RawAt(raws, parsed[j].index)))
  }

  /** The loop of lines 262-268, proved to compute `Reconcile`. */
  method MergeAll(parsed: seq<Indexed>, raws: seq<RawEvent>) returns (merged: seq<Merged>)
    ensures merged == Reconcile(parsed, raws)
  {
    merged := [];
    var i := 0;
    while i < |parsed|
      invariant 0 <= i <= |parsed|
      invariant |merged| == i
      invariant forall j :: 0 <= j < i ==> merged[j] == Reconcile(parsed, raws)[j]
    {
      var index := parsed[i].index;
      var raw := if index < |raws| then Some(raws[index]) else None;
      merged := merged + [Merged(parsed[i].event, raw)];
      i := i + 1;
    }
  }

  /**
   * Reconciling events parsed from the same raw events pairs every parsed
   * event with the raw event it was derived from.
   */
  lemma ReconcileAligned(raws: seq<RawEvent>, cls: string, f: Filters, timestampOf: string -> int)
    requires Collect(Outcomes(raws, cls, f, timestampOf)).Ok?
    ensures forall j :: 0 <= j < |Reconcile(Collect(Outcomes(raws, cls, f, timestampOf)).value, raws)| ==>
              var m := Reconcile(Collect(Outcomes(raws, cls, f, timestampOf)).value, raws)[j];
              m.raw.Some? && DeriveEvent(m.raw.value, cls, f, timestampOf) == Ok(Some(m.parsed))
  {
    CollectEntries(Outcomes(raws, cls, f, timestampOf));
  }
}
