# IcsAdeParser, modelled in Dafny

This project models `IcsAdeParser`, a PHP class that turns the iCalendar
export of a university timetabling tool into schedule records. Fetching
over HTTP aside, the class is a three-stage pipeline over one calendar text.
The first two stages cache their results in fields of the object; the
third returns its pairs without storing them.

1. **Raw events** (`parseRawEvents`).
   - The text is cut into the spans between `BEGIN:VEVENT` and the
     nearest following `END:VEVENT`; these are the markers of section 3.6.1
     of RFC 5545.
   - Each span is split into lines. A line that starts with a property name
     `[A-Z0-9_-]+` followed by `:` stores the rest of the line under that name
     (trimmed and C-unescaped) and makes that name current.
   - Any other line is trimmed, unescaped and appended with no separator to
     the value of the current name. This is a rough form of the content-line
     unfolding of section 3.1 of RFC 5545.
   - `DESCRIPTION` is then cleaned: every `(Exported…)` up to the last `)`
     on its line is removed, and so is every pair of consecutive newlines.
2. **Parsed events** (`parseParsedEvents`). Each raw event becomes a record
   with these fields:
   - group letters (lines `<class> - TP <X>`) and the group format (TP, TD
     or CM);
   - the trainer (the last other line);
   - a course code and title taken from `SUMMARY`;
   - start and end timestamps;
   - the comma-separated locations.

   Records that fail the group, period or location filter are dropped.
   Survivors keep the index of their raw event. When no class is set, it is
   inferred from the first event's description and written back into the
   object.
3. **Reconciliation** (`eventsReconciliation`) pairs every parsed record
   with the raw event at its index.

The project is laid out as follows:
- `results.dfy` (`Results`): `Option`, `Result` and one error constructor
  per `throw` of the class.
- `text.dfy` (`Text`): the PHP string built-ins the class relies on: `strpos`,
  `explode`, `trim` and the simple escapes of `stripcslashes`.
- `patterns.dfy` (`Patterns`) and `summary.dfy` (`Summary`): every fixed
  regular expression of the class, each written as the scanner its PCRE
  match amounts to.
- `extraction.dfy` (`Extraction`): block extraction and the line state
  machine. The state machine is a fold over classified lines, and the
  method `ParseEvent` is its loop, proved equal to that fold.
- `derivation.dfy` (`Derivation`): `verifyPeriod`, the derivation of one
  record, the loop over all raw events and the reconciliation join.
- `parser.dfy` (`IcsParser`): the class `IcsAdeParser` with its fields, its
  setters and its three cached operations. Each is proved against the
  specification functions above.

Modelling choices:
- **Unset values.** An unset text setting is `""`, and an unset period bound
  is `None`. Raw and parsed events that are missing or empty are `[]`: the
  source tests them only for truthiness, so it never distinguishes the two.
- **Sparse arrays.** The source's sparse PHP array of parsed events is a
  sequence of `Indexed(index, event)` pairs in insertion order.
- **Dates.** `strtotime` is the constant `timestampOf: string -> int` of the
  object. It is taken as given, and nothing is assumed about it.
- **Errors.** Every `throw` becomes `Err(e)`, and the failing operation
  returns no partial result. Whatever the code stored before the `throw`
  stays in the object, as it does in PHP:
  - raw events parsed by the nested `parseRawEvents` call stay when
    `parseParsedEvents` then fails;
  - a class inferred at the first event stays even when a later event
    raises the period error.
  The parsed events are stored only when every event has been derived.

### Behaviour worth noting

- **Newline pairs.** The pattern at IcsParser.php:121 is written in single
  quotes, so PCRE receives `\n\n`, which matches two real newline
  characters. A run of k newlines therefore keeps k mod 2 of them
  (`Patterns.RemoveNewlinePairsRun`).
- **Lines without a property name.** A line such as `Trainer X` that does
  not start with a name and `:` is appended, with no separator, to the
  value of the current property (IcsParser.php:108-111). When that property
  is `DESCRIPTION`, the line joins the previous description line: a group
  line followed by it ends in `ATrainer X` and no longer matches.
- **Period error.** `verifyPeriod` runs inside the loop over events, after
  the group filter (IcsParser.php:159-223). An out-of-order period is
  therefore an error only when at least one event passes the group filter
  (`Derivation.InvalidPeriodIff`).

## Model

| member | source | states |
|---|---|---|
| Text.Find | IcsParser.php:275 | `strpos`: the position returned is an occurrence, no earlier position is one, and `None` exactly when the needle does not occur |
| Text.Split | IcsParser.php:99 | `explode` (also used at lines 156 and 234): at least one piece, and no piece contains the separator |
| Text.JoinSplit | IcsParser.php:234 | joining the pieces of `explode` with the separator gives the text back |
| Text.SplitJoin | IcsParser.php:234 | splitting a join of separator-free pieces gives the pieces back |
| Text.ExplodeTwo | IcsParser.php:113 | `explode` with limit 2: two pieces exactly when the separator occurs; the first has no separator; one piece is the whole text; two pieces joined by the separator give the text back |
| Text.ExplodeTwoAt | IcsParser.php:113 | `explode(':', s, 2)` of `a:b`, where `a` has no colon, is `[a, b]` |
| Text.TrimStart | IcsParser.php:110 | a suffix of the text that does not start with a trim character, and every character cut off is a trim character |
| Text.TrimEnd | IcsParser.php:110 | a prefix of the text that does not end with a trim character, and every character cut off is a trim character |
| Text.Trim | IcsParser.php:113 | `trim`: a middle slice of the text that neither starts nor ends with a trim character, with only trim characters cut off on either side |
| Text.Unescape | IcsParser.php:113 | `stripcslashes`: never lengthens the text, and a text with no backslash is returned unchanged |
| Text.UnescapeInvertsEscapeText | IcsParser.php:110 | the modelled `stripcslashes` undoes backslash-escaping of any text |
| Patterns.KeyPrefix | IcsParser.php:106 | a found name is a non-empty `[A-Z0-9_-]` run followed by `:`; none found means no prefix before any `:` is a name |
| Patterns.ClassToken | IcsParser.php:147-149 | a token is found exactly when the description starts with a non-space; it is then the maximal non-space prefix |
| Patterns.GroupLetter | IcsParser.php:165-166 | a letter is found only for a line exactly `<class> - TP <A-Z>`, and it is that capital letter; none found means no such tail exists |
| Patterns.StripExported | IcsParser.php:120 | removes `(Exported` markers and never lengthens the text; a text with no `(` is returned unchanged |
| Patterns.StripExportedNoMarker | IcsParser.php:120 | a description without `(Exported` is not changed |
| Patterns.StripExportedKeepsNewlines | IcsParser.php:120 | the removal never crosses a line: the number of newlines is unchanged |
| Patterns.StripExportedToLastParen | IcsParser.php:120 | `(Exported` is removed together with the rest of its line up to the last `)` |
| Patterns.RemoveNewlinePairs | IcsParser.php:121 | never lengthens the text; a text with no newline is returned unchanged |
| Patterns.RemoveNewlinePairsLeavesNoPair | IcsParser.php:121 | after the clean-up no two newlines are adjacent |
| Patterns.RemoveNewlinePairsClean | IcsParser.php:121 | text without adjacent newlines is left as it is |
| Patterns.RemoveNewlinePairsRun | IcsParser.php:121 | a run of k newlines becomes k mod 2 newlines |
| Patterns.RemoveNewlinePairsKeepsText | IcsParser.php:121 | only newlines are removed; every other character stays, in order |
| Summary.CourseMatch | IcsParser.php:199 | a match's code is a prefix of the summary and its title text holds no newline |
| Summary.CourseMatchBody | IcsParser.php:199 | a course code, spaces and a one-line text not starting with a space (with at most a final newline) match with exactly that code and that text |
| Summary.CourseMatchR | IcsParser.php:199 | `R<d+>.<d+>`, then spaces and a one-line title, matches with that code and that title |
| Summary.CourseMatchSae | IcsParser.php:199 | `SAÉ <d+>.<d+>` with an optional `.<A-Z>`, then spaces and a title, matches with that code |
| Summary.CleanTitleDropsTag | IcsParser.php:201 | a `(UPPERCASE)` tag and the spaces before it are removed from the title |
| Summary.CleanTitle | IcsParser.php:201 | never lengthens the title; a title with neither `(` nor `-` is returned unchanged |
| Summary.CleanTitleDashKept | IcsParser.php:201 | a hyphen that does not begin a ` - <capital>` tail, as in `Web-Dev`, is kept with the spaces before it, and cleaning goes on after it |
| Summary.CleanTitleParenKept | IcsParser.php:201 | a `(` that does not open a bracketed capital-letter tag, as in `Maths (remise à niveau)` or `(TD2)`, is kept with the spaces before it, and cleaning goes on after it |
| Summary.CleanTitleDropsDashTail | IcsParser.php:201 | spaces, ` - `, a capital letter and the rest of the line are removed entirely |
| Summary.LazyUntilDash | IcsParser.php:202 | the lazy capture ends at the first ` -` and contains no newline; none found means every ` -` is behind a newline |
| Summary.SummaryLabels | IcsParser.php:199-205 | code and title are both set or both unset; set exactly when one of the two patterns matches; a course match gives a code of the `R`/`SAÉ` shape and, as the title, `CleanTitle` of the text after the code; otherwise the code is that of the `Autonomie` pattern, with `Autonomie` as the title |
| Summary.SummaryLabelsOfCode | IcsParser.php:199-201 | a summary made of a course code, spaces and a one-line text always gets that code and a title; when the text does not start with a space, the title is `CleanTitle` of that text |
| Summary.CourseMatchShape | IcsParser.php:199 | every course match is a code `R<d+>.<d+>` or `SAÉ <d+>.<d+>` with an optional `.<A-Z>`, then a non-empty run of spaces, then a newline-free text that does not start with a space, with at most one final newline after it |
| Summary.CourseMatchComplete | IcsParser.php:199 | conversely, any such code, spaces and newline-free text (with at most a final newline) match, with that code |
| Summary.CodeLengthShape | IcsParser.php:199 | the code the pattern takes is of the `R`/`SAÉ` shape |
| Summary.CodeLengthOf | IcsParser.php:199 | a code of that shape followed by a space is taken in full |
| Summary.DottedNumberShape | IcsParser.php:199 | a `\d+\.\d+` match is two digit runs around a dot and stops before a digit |
| Summary.AutonomieCode | IcsParser.php:202 | a match is the text between `Autonomie ` and the first following ` -`, newline-free; no match means the summary does not start with `Autonomie ` or every ` -` after it is behind a newline |
| Summary.SummaryLabelsCourse | IcsParser.php:199-201 | a summary `R<d+>.<d+>`, spaces, a title, a `(TAG)` and a ` - X…` tail (as in `R1.01 Intro (A) - B`) gives that code and exactly that title |
| Summary.SummaryLabelsAutonomie | IcsParser.php:202-204 | `Autonomie X - …` gives code `X` and title `Autonomie` |
| Extraction.GapsClean | IcsParser.php:95 | the global match is leftmost and non-overlapping: no skipped text before a block holds `BEGIN:VEVENT`, and no block starts in the text after the last one |
| Extraction.EventBlocks | IcsParser.php:95 | no extracted block contains `END:VEVENT`: every span is the shortest one |
| Extraction.ExtractDecomposes | IcsParser.php:95 | the text is exactly its gaps and blocks reassembled with the markers around each block |
| Extraction.ExtractRender | IcsParser.php:95 | assembling gaps without `BEGIN:VEVENT` and blocks without `END:VEVENT` and extracting again gives back those blocks and gaps, in order |
| Extraction.KeyLineValue | IcsParser.php:113 | the value stored for a property line is the rest of the line after the name and `:`, right-trimmed and unescaped |
| Extraction.ClassifyLine | IcsParser.php:106-116 | a line is a property exactly when it has a name prefix; a property's value is the unescaped right-trimmed rest; any other line contributes its trimmed, unescaped text |
| Extraction.FoldLinesAppend | IcsParser.php:105-117 | the line state machine over two runs of lines is the machine over the second run started from the first run's state |
| Extraction.LineKeys | IcsParser.php:114 | a name is in the set exactly when some line is a property line with that name |
| Extraction.FoldLinesKeys | IcsParser.php:105-117 | the names the line loop stores are those stored before plus the names of the property lines; continuations add none |
| Extraction.FoldLinesLastKeyStored | IcsParser.php:109-115 | the current name, when there is one, is always stored in the event |
| Extraction.LeadingContinuationsDropped | IcsParser.php:108-111 | lines before the first property line leave the event empty and no name current |
| Extraction.ContinuationsAppend | IcsParser.php:110 | continuation lines after a property append their texts to its value with no separator |
| Extraction.OtherLinesKeep | IcsParser.php:105-117 | lines that never name `k` do not change `k`'s value or make it current |
| Extraction.LastPropertyWins | IcsParser.php:105-117 | a property's value is that of its last line with that name, followed by the continuation lines directly after it |
| Extraction.CleanDescription | IcsParser.php:119-122 | the clean-up keeps the set of names and changes no property other than `DESCRIPTION` |
| Extraction.FoldLines | IcsParser.php:105-116 | a name once stored is never dropped; after a final property line, that line's name is the current one |
| Extraction.RawEventOf | IcsParser.php:99-124 | the raw event's names are exactly those the line loop stores; its cleaned DESCRIPTION has no two adjacent newlines |
| Extraction.RawEventKeys | IcsParser.php:103-122 | a name is in a raw event exactly when some line of the block starts with that name and `:` |
| Extraction.RawEventNames | IcsParser.php:106 | every stored name matches `[A-Z0-9_-]+` |
| Extraction.RawEventsOf | IcsParser.php:95-125 | one raw event per extracted block, in order; no `BEGIN:VEVENT` gives no events |
| Extraction.ParseEvent | IcsParser.php:99-124 | the line loop over one block computes exactly `RawEventOf` of that block |
| Derivation.VerifyPeriod | IcsParser.php:58-71 | true exactly when both bounds are set and in order; false exactly when a bound is missing; otherwise the period error |
| Derivation.VerifyPeriodError | IcsParser.php:64-66 | the check fails exactly when both bounds are set and `from` is after `to` |
| Derivation.GroupLetterExact | IcsParser.php:165 | the group scanner returns `x` exactly for the line `<class> - TP x` with `x` one capital letter |
| Derivation.GroupLetters | IcsParser.php:164-170 | at most one letter per line, and each group entry is one capital letter |
| Derivation.GroupLettersSnoc | IcsParser.php:164-170 | proof step: the one-line case of appending lines, on which `GroupLettersAppend`, `GroupLettersCount` and the group loop build |
| Derivation.GroupLettersAppend | IcsParser.php:164-170 | the letters of two runs of lines are those of the first run followed by those of the second: line order is kept and nothing is merged |
| Derivation.GroupLettersCount | IcsParser.php:164-170 | the group has exactly as many letters as the description has group lines, repeated lines included |
| Derivation.GroupLettersMember | IcsParser.php:164-170 | a letter is in the group exactly when some description line is that letter's group line |
| Derivation.GroupLettersEmpty | IcsParser.php:172 | the group is empty exactly when no line is a group line |
| Derivation.Trainer | IcsParser.php:168-169 | a trainer is one of the lines and is not a group line |
| Derivation.TrainerNone | IcsParser.php:159-197 | there is no trainer exactly when every line is a group line |
| Derivation.TrainerIsLast | IcsParser.php:164-170 | the trainer is the last line that is not a group line |
| Derivation.SplitGroupsAndTrainer | IcsParser.php:164-170 | the loop over the description lines computes exactly the group letters and the trainer |
| Derivation.GroupFormatOf | IcsParser.php:172-186 | TP exactly for one group, TD for two, CM for more than two, none for no group |
| Derivation.Stamp | IcsParser.php:209-223 | a time is present exactly when its property is, and then it is the timestamp of that property's value |
| Derivation.Labels | IcsParser.php:199-205 | code and title are both set or both unset, and only when there is a `SUMMARY` |
| Derivation.Locations | IcsParser.php:233-235 | locations are present exactly when `LOCATION` is; the pieces contain no comma and, joined with commas, give `LOCATION` back |
| Derivation.Record | IcsParser.php:156-235 | the record's group format is that of the number of its group letters (none, TP, TD, CM); start, end and location are present exactly when their properties are; the locations join back to `LOCATION` |
| Derivation.RecordGroupFormat | IcsParser.php:164-186 | a record's group is the letters of its description's group lines in line order, and its format is TP, TD or CM by the number of those lines |
| Derivation.RecordGroup | IcsParser.php:164-176 | a record's group holds a letter exactly when its description has the group line for that letter |
| Derivation.RecordTrainer | IcsParser.php:164-197 | a record has no trainer exactly when every description line is a group line |
| Derivation.DeriveEvent | IcsParser.php:146-244 | the only error an event can raise is the invalid-period error; a kept record is admitted by every filter |
| Derivation.GroupAdmits | IcsParser.php:188-193 | the event is dropped exactly when a group filter is set and none of the record's group letters equals it |
| Derivation.WithinPeriod | IcsParser.php:209-231 | a time is rejected exactly when it, `from` and `to` are all set and it lies before `from` or after `to` |
| Derivation.LocationAdmits | IcsParser.php:236-241 | the event is dropped exactly when a location filter is set, the event has a location, and no part of it equals the filter |
| Derivation.Admitted | IcsParser.php:188-241 | an admitted record has an ordered period, the filtered group, the filtered location among its parts and its start and end within a set period; a record that is not admitted fails one of those tests |
| Derivation.RecordAdmitted | IcsParser.php:188-241 | the record of a raw event is admitted exactly when the group filter is unset or some description line is that group's line, the period is in order, a present `DTSTART` and `DTEND` have timestamps in a set period, and a set location filter is one of the comma-separated parts of a present `LOCATION` |
| Derivation.DeriveEventKept | IcsParser.php:188-243 | an event is kept exactly when its record passes the group filter, the period check, both time windows and the location filter; kept, it is that record |
| Derivation.DeriveEventError | IcsParser.php:188-207 | one event fails exactly when the group filter lets it through and the period is out of order, and the error is the period error |
| Derivation.GroupFilterKeeps | IcsParser.php:188-193 | under a group filter, a kept event's description holds that group's line |
| Derivation.LocationFilterKeeps | IcsParser.php:233-243 | under a location filter, a kept event with a location lists the filter among its comma-separated parts |
| Derivation.PeriodFilterKeeps | IcsParser.php:209-231 | under a set period, a kept event's present start and end are the timestamps of its `DTSTART` and `DTEND` values and lie within `[from, to]` |
| Derivation.BuildEvent | IcsParser.php:156-243 | the statements of one iteration compute exactly `DeriveEvent` |
| Derivation.Collect | IcsParser.php:144-246 | at most one entry per event; an error is the error of one of the iterations |
| Derivation.ParsedEventsOf | IcsParser.php:131-248 | `ClassNotInferable` when no class can be inferred from the first event; at most one record per raw event; the only errors are class-not-inferable and invalid period |
| Derivation.CollectIndices | IcsParser.php:144-191 | kept entries carry raw indices, in strictly increasing order |
| Derivation.CollectEntries | IcsParser.php:144-246 | each kept entry is the record derived from the raw event at its index |
| Derivation.CollectKept | IcsParser.php:144-244 | a raw event has an entry exactly when its derivation keeps it |
| Derivation.CollectError | IcsParser.php:144-244 | the loop succeeds exactly when every event's derivation succeeds |
| Derivation.CollectFirstError | IcsParser.php:144-244 | a failing loop reports the first failing event's error |
| Derivation.CollectPrefixError | IcsParser.php:144-244 | once an iteration fails, the whole loop fails with that error |
| Derivation.InvalidPeriodIff | IcsParser.php:188-207 | the loop fails exactly when `from` is after `to` and at least one event passes the group filter; the error is the period error |
| Derivation.ResolveClass | IcsParser.php:147-154 | a set class is used as it is; otherwise a class exists exactly when the first description starts with a non-space, and it is a non-empty prefix of that description |
| Derivation.DeriveAll | IcsParser.php:144-244 | the loop, inferring the class at the first event, computes exactly `ParsedEventsOf` and leaves behind the inferred class |
| Derivation.Reconcile | IcsParser.php:261-270 | one pair per parsed event, in order, each holding that event and the raw event at its index |
| Derivation.MergeAll | IcsParser.php:261-270 | the merge loop computes exactly `Reconcile` |
| Derivation.ReconcileAligned | IcsParser.php:263-265 | reconciling events parsed from the current raw events pairs each record with the raw event it was derived from |
| IcsParser.IsIcsFormat | IcsParser.php:273-276 | true exactly when the content contains `BEGIN:VCALENDAR` |
| IcsParser.IcsAdeParser.constructor | IcsParser.php:5-18 | every setting starts unset and no events are cached |
| IcsParser.IcsAdeParser.LoadContent | IcsParser.php:32-37 | content is stored as the file only when it is in ICS format, and is an error otherwise; nothing else changes |
| IcsParser.IcsAdeParser.SetFrom | IcsParser.php:48-51 | sets the lower bound and nothing else |
| IcsParser.IcsAdeParser.SetTo | IcsParser.php:53-56 | sets the upper bound and nothing else |
| IcsParser.IcsAdeParser.SetClass | IcsParser.php:73-76 | sets the class and nothing else |
| IcsParser.IcsAdeParser.SetGroup | IcsParser.php:78-81 | sets the group filter and nothing else |
| IcsParser.IcsAdeParser.SetLocation | IcsParser.php:83-86 | sets the location filter and nothing else |
| IcsParser.IcsAdeParser.ParseRawEvents | IcsParser.php:88-129 | with no file, an error and no change; otherwise the raw events of the file are stored and returned |
| IcsParser.IcsAdeParser.ParseParsedEvents | IcsParser.php:131-248 | raw events are parsed first only when there are none, and there is an error when none result; the result is `ParsedEventsOf` with the settings; the class inferred at the first event persists; parsed events are stored only on success |
| IcsParser.IcsAdeParser.EventsReconciliation | IcsParser.php:250-271 | cached parsed events are reconciled with the raw events as they are; otherwise the events are parsed first, leaving raw events, class and parsed events as `parseParsedEvents` does and returning its error, or the missing-events error when no record results; each pair then holds the record derived from its raw event |

## Left out

- `fetchUrl` (IcsParser.php:20-46): URL validation, curl and network
  errors are I/O. Only its last step, keeping content that passes
  `isIcsFormat`, is modelled, as `LoadContent`.
- `strtotime` is an arbitrary total function `timestampOf`. Its date
  heuristics are not modelled. Nor is the boolean `false` it returns on
  failure, or the loose comparison of `false` with integers at lines 214
  and 226.
- `stripcslashes` octal and `\x` hexadecimal escapes are left out. The
  one-letter escapes `\n`, `\t`, `\r`, `\a`, `\v`, `\b` and `\f`, `\\`, and
  an unknown `\c` becoming `c` are modelled.
- The `/u` modifier's Unicode classes are left out. `\s` is ASCII
  whitespace here, and strings are sequences of `char` with no byte
  encoding.
- Extraction.KeyLineValue: the source splits the trimmed line at its first
  `:`. The model proves this equal to the text after the name. That holds
  because the name pattern has no `:` and no backslash.
- Patterns.GroupLetter: the class is spliced unquoted into the
  pattern at line 165. The model compares it as literal text, which
  differs when the class holds regular-expression metacharacters.
- PHP falsiness of `"0"` is not modelled. A file, class, group filter or
  location filter equal to `"0"` counts as unset in PHP. Here only `""`
  does, and an inferred class `"0"` would be re-inferred at every event in
  PHP.
- Loose `in_array` comparison is not modelled. For the location filter,
  PHP also treats numeric strings as equal by value (`"1"` and `"01"`).
  Here the comparison is exact text equality.
- A missing `DESCRIPTION` at lines 148 and 156 is read as empty text. PHP
  passes null there, with a warning, and gets the same result.
- The keys of a raw event are PHP strings, and their insertion order is
  not modelled, because a `map` has no order. A property name made only of
  digits would become an integer key in PHP, which makes no difference
  here.
- The empty `[]` record that line 145 creates for every event is not kept
  when the event is dropped, as in the source. The `mergedEvents` field
  is never assigned by the class and is not modelled.
- Raw events whose parsed events were computed from an earlier file: this
  happens when the file is reloaded and raw events are parsed again. The
  reconciliation pair then holds `None` where PHP reads a missing index as
  null.
