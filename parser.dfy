/**
 * The parser object itself (IcsParser.php): its settings, the cached raw
 * and parsed events, and the public operations that fill them.
 */
module IcsParser {
  import opened Results
  import opened Text
  import opened Patterns
  import opened Extraction
  import opened Derivation

  /** The signature of an iCalendar object, section 3.4 of RFC 5545. */
  const CalendarMarker := "BEGIN:VCALENDAR"

  /** `isIcsFormat` (lines 273-276): the text holds the calendar signature somewhere. */
  function IsIcsFormat(content: string): (r: bool)
    ensures r <==> Contains(content, CalendarMarker)
  {
    Find(content, CalendarMarker).Some?
  }

  /**
   * The parser. `""` stands for an unset (falsy) text setting, `None` for an
   * unset bound, and `[]` for raw or parsed events not computed yet or empty,
   * which the source does not tell apart. `timestampOf` is the date parser
   * the source calls (`strtotime`), taken as given.
   */
  class IcsAdeParser {
    const timestampOf: string -> int
    var file: string
    var from: Option<int>
    var to: Option<int>
    var location: string
    var cls: string
    var group: string
    var rawEvents: seq<RawEvent>
    var parsedEvents: seq<Indexed>

    constructor(timestampOf: string -> int)
      ensures this.timestampOf == timestampOf
      ensures file == "" && from.None? && to.None? && location == "" && cls == "" && group == ""
      ensures rawEvents == [] && parsedEvents == []
    {
      this.timestampOf := timestampOf;
      file := "";
      from := None;
      to := None;
      location := "";
      cls := "";
      group := "";
      rawEvents := [];
      parsedEvents := [];
    }

    /** The group, location and period settings the derivation reads. */
    function Settings(): Filters
      reads this
    {
      Filters(group, location, from, to)
    }

    /**
     * The end of `fetchUrl` (lines 32-37) once the content is fetched: it is
     * kept as the file only when it is in ICS format.
     */
    method LoadContent(content: string) returns (r: Result<()>)
      modifies this
      ensures Contains(content, CalendarMarker) ==> r == Ok(()) && file == content
      ensures !Contains(content, CalendarMarker) ==> r == Err(NotIcsFormat) && file == old(file)
      ensures from == old(from) && to == old(to) && location == old(location) && cls == old(cls) && group == old(group)
      ensures rawEvents == old(rawEvents) && parsedEvents == old(parsedEvents)
    {
      if IsIcsFormat(content) {
        file := content;
        r := Ok(());
      } else {
        r := Err(NotIcsFormat);
      }
    }

    /** `setFrom` (lines 48-51). */
    method SetFrom(timestamp: int)
      modifies this
      ensures from == Some(timestamp)
      ensures file == old(file) && to == old(to) && location == old(location) && cls == old(cls) && group == old(group)
      ensures rawEvents == old(rawEvents) && parsedEvents == old(parsedEvents)
    {
      from := Some(timestamp);
    }

    /** `setTo` (lines 53-56). */
    method SetTo(timestamp: int)
      modifies this
      ensures to == Some(timestamp)
      ensures file == old(file) && from == old(from) && location == old(location) && cls == old(cls) && group == old(group)
      ensures rawEvents == old(rawEvents) && parsedEvents == old(parsedEvents)
    {
      to := Some(timestamp);
    }

    /** `setClass` (lines 73-76). */
    method SetClass(value: string)
      modifies this
      ensures cls == value
      ensures file == old(file) && from == old(from) && to == old(to) && location == old(location) && group == old(group)
      ensures rawEvents == old(rawEvents) && parsedEvents == old(parsedEvents)
    {
      cls := value;
    }

    /** `setGroup` (lines 78-81). */
    method SetGroup(value: string)
      modifies this
      ensures group == value
      ensures file == old(file) && from == old(from) && to == old(to) && location == old(location) && cls == old(cls)
      ensures rawEvents == old(rawEvents) && parsedEvents == old(parsedEvents)
    {
      group := value;
    }

    /** `setLocation` (lines 83-86). */
    method SetLocation(value: string)
      modifies this
      ensures location == value
      ensures file == old(file) && from == old(from) && to == old(to) && cls == old(cls) && group == old(group)
      ensures rawEvents == old(rawEvents) && parsedEvents == old(parsedEvents)
    {
      location := value;
    }

    /**
     * `parseRawEvents` (lines 88-129): one raw event per `VEVENT` block of
     * the file, in order, stored and returned; an error without a file.
     */
    method ParseRawEvents() returns (r: Result<seq<RawEvent>>)
      modifies this
      ensures file == "" ==> r == Err(NoFile) && rawEvents == old(rawEvents)
      ensures file != "" ==> rawEvents == RawEventsOf(file) && r == Ok(rawEvents)
      ensures file == old(file) && from == old(from) && to == old(to) && location == old(location) && cls == old(cls) && group == old(group)
      ensures parsedEvents == old(parsedEvents)
    {
      if file == "" {
        return Err(NoFile);
      }
      var blocks := EventBlocks(file);
      var events: seq<RawEvent> := [];
      var i := 0;
      while i < |blocks|
        invariant 0 <= i <= |blocks|
        invariant unchanged(this)
        invariant |events| == i
        invariant forall k :: 0 <= k < i ==> events[k] == RawEventOf(blocks[k])
      {
        var event := ParseEvent(blocks[i]);
        events := events + [event];
        i := i + 1;
      }
      assert events == RawEventsOf(file);
      rawEvents := events;
      return Ok(events);
    }

    /**
     * `parseParsedEvents` (lines 131-248). Raw events are parsed first when
     * there are none; the class, when unset, is inferred from the first raw
     * event and kept even when a later event fails; the parsed events are
     * stored only on success.
     */
    method ParseParsedEvents() returns (r: Result<seq<Indexed>>)
      modifies this
      ensures old(rawEvents) == [] && old(file) == "" ==> r == Err(NoFile)
      ensures rawEvents == (if old(rawEvents) != [] || old(file) == "" then old(rawEvents) else RawEventsOf(old(file)))
      ensures rawEvents == [] && (old(rawEvents) != [] || old(file) != "") ==> r == Err(NoRawEvents)
      ensures rawEvents != [] ==> r == ParsedEventsOf(rawEvents, old(cls), Settings(), timestampOf)
      ensures rawEvents != [] ==> cls == (if old(cls) == "" && ClassToken(Description(rawEvents[0])).Some?
                                          then ClassToken(Description(rawEvents[0])).value else old(cls))
      ensures rawEvents == [] ==> cls == old(cls)
      ensures r.Ok? ==> r == Collect(Outcomes(rawEvents, cls, Settings(), timestampOf))
      ensures r.Ok? ==> parsedEvents == r.value
      ensures r.Err? ==> parsedEvents == old(parsedEvents)
      ensures file == old(file) && from == old(from) && to == old(to) && location == old(location) && group == old(group)
    {
      if rawEvents == [] {
        var raw := ParseRawEvents();
        if raw.Err? {
          return Err(raw.error);
        }
        if rawEvents == [] {
          return Err(NoRawEvents);
        }
      }
      var outcome, resolved := DeriveAll(rawEvents, cls, Settings(), timestampOf);
      cls := resolved;
      if outcome.Ok? {
        parsedEvents := outcome.value;
      }
      return outcome;
    }

    /**
     * `eventsReconciliation` (lines 250-271): the parsed events, parsed
     * first when there are none, each paired with the raw event at its
     * index; nothing is stored.
     */
    method EventsReconciliation() returns (r: Result<seq<Merged>>)
      modifies this
      ensures old(parsedEvents) != [] ==> r == Ok(Reconcile(old(parsedEvents), old(rawEvents)))
      ensures old(parsedEvents) != [] ==> parsedEvents == old(parsedEvents) && rawEvents == old(rawEvents) && cls == old(cls)
      ensures old(parsedEvents) == [] ==> (r.Err? <==> parsedEvents == [])
      ensures old(parsedEvents) == [] ==>
                rawEvents == (if old(rawEvents) != [] || old(file) == "" then old(rawEvents) else RawEventsOf(old(file)))
      ensures old(parsedEvents) == [] && old(rawEvents) == [] && old(file) == "" ==> r == Err(NoFile)
      ensures old(parsedEvents) == [] && rawEvents == [] && (old(rawEvents) != [] || old(file) != "") ==> r == Err(NoRawEvents)
      ensures old(parsedEvents) == [] && rawEvents == [] ==> cls == old(cls)
      ensures old(parsedEvents) == [] && rawEvents != [] ==>
                cls == (if old(cls) == "" && ClassToken(Description(rawEvents[0])).Some?
                        then ClassToken(Description(rawEvents[0])).value else old(cls))
      ensures old(parsedEvents) == [] && rawEvents != [] && ParsedEventsOf(rawEvents, old(cls), Settings(), timestampOf).Err? ==>
                r == Err(ParsedEventsOf(rawEvents, old(cls), Settings(), timestampOf).error)
      ensures old(parsedEvents) == [] && rawEvents != [] && ParsedEventsOf(rawEvents, old(cls), Settings(), timestampOf).Ok? ==>
                parsedEvents == ParsedEventsOf(rawEvents, old(cls), Settings(), timestampOf).value
      ensures old(parsedEvents) == [] && rawEvents != [] && ParsedEventsOf(rawEvents, old(cls), Settings(), timestampOf) == Ok([]) ==>
                r == Err(NoParsedEvents)
      ensures r.Ok? ==> r.value == Reconcile(parsedEvents, rawEvents)
      ensures old(parsedEvents) == [] && r.Ok? ==>
                forall j :: 0 <= j < |r.value| ==>
                  r.value[j].raw.Some? && DeriveEvent(r.value[j].raw.value, cls, Settings(), timestampOf) == Ok(Some(r.value[j].parsed))
      ensures file == old(file) && from == old(from) && to == old(to) && location == old(location) && group == old(group)
    {
      if parsedEvents == [] {
        var parsed := ParseParsedEvents();
        if parsed.Err? {
          return Err(parsed.error);
        }
        if parsedEvents == [] {
          return Err(NoParsedEvents);
        }
        ReconcileAligned(rawEvents, cls, Settings(), timestampOf);
      }
      var merged := MergeAll(parsedEvents, rawEvents);
      return Ok(merged);
    }
  }
}
