# cal-compare: the multi-calendar matcher

cal-compare is a browser-extension popup that fetches several people's
Google calendars for a date window and lists the time slots that are busy on
all of them. This project models in Dafny the logic of `popup.js` around that
listing and proves properties of it:

- **Event times** (`Events`). `getEventTime` resolves a start or end marker to
  a Date. It prefers `dateTime` and falls back to `date`; a missing marker, or
  one with neither field, gives null. `eventsOverlap` compares two events with
  these times, and the record builder uses it.
- **The matcher** (`Overlaps`).
  - `findMultiCalendarOverlaps` first drops events that lack a `start` or `end`
    object. Calendar 0 is then the base.
  - `isCommonOverlap` checks each base slot against every other calendar.
  - For each common slot, a record is pushed with one entry per calendar.
  - The method `FindMultiCalendarOverlaps` keeps the source's loop and `push`.
    It is proved equal to the function `MultiCalendarOverlaps`. That function
    is shown to agree with a filter/map reference definition, `Expected`,
    whenever it does not throw.
- **Inputs** (`Inputs`).
  - `saveEmail` appends an address only if it is non-empty and not yet known.
    Nothing in `popup.js` calls it (it is defined at popup.js:43; only
    `getSavedEmails` is used, at popup.js:94), so the model states what a
    call would do.
  - Participant collection in `findOverlappingMeetings` trims each box, drops
    the empty ones and needs at least two.

Instants are `int` milliseconds. `new Date(string)` yields either a valid
instant `At(ms)` or an `InvalidDate`, whose `getTime()` is NaN and equals
nothing. A marker field is `None` when it is absent or the empty string,
since both are falsy. JavaScript exceptions are values of
`Outcome<T> = Ok(value) | Thrown(TypeError | RangeError)`. Sources of
exceptions:
- `.getTime()` on a null time inside `isCommonOverlap` throws. Nothing in
  `findMultiCalendarOverlaps` catches it, so it aborts the whole computation.
- With no calendars, `validEvents[0]` is undefined, and the `.forEach` call
  on it (popup.js:265) throws a TypeError.
- `toISOString()` on an Invalid Date throws.

`eventsOverlap` catches its own exceptions and answers `false`.

The names `eventsOverlap` and `isCommonOverlap`, and the comment at
popup.js:235 ("overlaps with all calendars"), suggest an interval
intersection test. The code instead compares the start instants and the end
instants for exact equality (popup.js:242-243, 311-312), and the model
follows the code. An all-day event takes part through its `date` field.
`ExactSlotsOnly` shows the difference on a concrete pair of calendars:
events at 09:00-10:00 and 09:30-10:30 produce no record.

## Model

| member | source | states |
|---|---|---|
| `Events.EventTime` | popup.js:320-334 | null exactly when the marker is missing or has neither `dateTime` nor `date`; otherwise the `dateTime` Date if present, else the `date` Date |
| `Events.Span` | popup.js:305-312 | definition of the pair of valid instants compared by `eventsOverlap`; when defined, the event has both markers. `SpanResolves` states when it is defined |
| `Events.SpanResolves` | popup.js:320-334 | `Span` is defined exactly when both times resolve to valid Dates, and then it holds those two instants |
| `Events.EventsOverlap` | popup.js:302-317 | true exactly when both events' starts and ends resolve to valid instants and the two pairs are equal; null times and Invalid Dates give false, never an exception |
| `Events.EventsOverlapSymmetric` | popup.js:310-312 | the match does not depend on argument order |
| `Events.EventsOverlapReflexive` | popup.js:305-312 | an event whose times resolve to valid instants matches itself |
| `Events.EventsOverlapUnresolved` | popup.js:313-316 | an event with an unresolvable time matches nothing, on either side; the caught exception becomes false |
| `Events.HasMarkers` | popup.js:254 | definition of the filter callback: the event has a `start` and an `end` object; every event whose times resolve passes it |
| `Events.ValidEvents` | popup.js:252-260 | keeps exactly the events that have a `start` and an `end` object, and is never longer than its input |
| `Events.ValidEventsConcat` | popup.js:253-259 | the filter keeps order: it distributes over concatenation |
| `Events.ValidEventsKeepsValid` | popup.js:253-259 | a calendar whose events all have both markers is unchanged |
| `Overlaps.MatchesSlot` | popup.js:238-244 | answers true exactly when the event starts and ends at the slot's two valid instants; throws (TypeError) only if one of the event's times is null |
| `Overlaps.SomeMatch` | popup.js:237-244 | when it returns, it returns whether some event of the calendar matches the slot; it returns whenever every event's times resolve |
| `Overlaps.IsCommonOverlap` | popup.js:236-246 | when it returns, it returns whether every listed calendar has an event matching the slot; it returns whenever every event's times resolve |
| `Overlaps.Probe` | popup.js:278-281 | the event rebuilt from the slot's ISO strings has exactly the slot's instants |
| `Overlaps.Find` | popup.js:277-282 | `events.find`: nothing exactly when no event matches; otherwise the event at the first matching index |
| `Overlaps.TitleOf` | popup.js:285 | definition of the entry title: the title is never empty, and it is the summary or 'Busy' |
| `Overlaps.EntryFor` | popup.js:283-288 | definition of one record entry: it carries the calendar's label and a non-empty title, and for a found event with valid times it carries that event's instants. `RecordShape` states what it holds inside a record |
| `Overlaps.RecordOf` | popup.js:276-295 | definition of a record: it has one entry per calendar and the slot's start and end. `RecordShape` states each entry |
| `Overlaps.ValidCalendars` | popup.js:252-260 | definition of the per-calendar filter: one calendar out per calendar in, each no longer than before, holding only its own events with both markers. `FilterKeepsFind` and `FilterKeepsMatch` state what the filter preserves |
| `Overlaps.Step` | popup.js:266-296 | definition of the `forEach` body: it yields at most one record, and it throws only for a base event whose times resolve. `StepSpec` and `StepNoThrow` state which record and when it throws |
| `Overlaps.Scan` | popup.js:265-297 | definition of the `forEach` over the base events: no more records than base events. `ScanSpec`, `ScanAborts` and `ScanNoThrow` state its result |
| `Overlaps.ScanExtends` | popup.js:265-297 | one more base event either appends its records to those so far or ends the scan with its exception |
| `Overlaps.MultiCalendarOverlaps` | popup.js:248-300 | definition of the whole result: a returning call had at least one calendar and no more records than calendar 0 has events; with calendars, it throws only if calendar 0 has events. `OverlapsAreExpected` and `NoThrow` state its result |
| `Overlaps.FindMultiCalendarOverlaps` | popup.js:248-300 | the loop over the base events, pushing records, computes `MultiCalendarOverlaps`, exceptions included |
| `Overlaps.ScanAborts` | popup.js:265-297 | once one base event throws, every later one is skipped and the same exception comes out |
| `Overlaps.Expected` | popup.js:265-297 | the reference result has at most one record per base event |
| `Overlaps.ExpectedMembers` | popup.js:265-297 | every record is the record of a producing base event, and every producing base event's record is present |
| `Overlaps.ExpectedConcat` | popup.js:265-297 | records come out in the order of their base events |
| `Overlaps.ExpectedSingle` | popup.js:266-296 | one base event's reference result is its record when it produces one, and nothing otherwise |
| `Overlaps.StepSpec` | popup.js:266-296 | one base event, when it does not throw, yields exactly its record if it produces one and nothing otherwise |
| `Overlaps.ScanSpec` | popup.js:265-297 | the sequential scan, when it does not throw, equals the reference filter/map over the base events |
| `Overlaps.ScanPrefixOk` | popup.js:265-297 | a scan that returns normally returned normally on every earlier prefix |
| `Overlaps.ScanSpecStep` | popup.js:265-297 | one more base event keeps the scan equal to the reference result |
| `Overlaps.OverlapsAreExpected` | popup.js:248-300 | a returning call had at least one calendar and returns the reference records of the valid calendar-0 events: at most one per valid calendar-0 event |
| `Overlaps.FilterKeepsFind` | popup.js:252-282 | dropping events without markers does not change which event `find` returns |
| `Overlaps.FilterKeepsMatch` | popup.js:236-260 | dropping events without markers does not change whether a calendar holds the slot |
| `Overlaps.FindProbe` | popup.js:277-282 | `find` with the probe returns the first event with exactly the slot's instants, or nothing when there is none |
| `Overlaps.RecordShape` | popup.js:276-295 | a record has one entry per calendar; entry `i` has label `emails[i]`, the base slot's start and end, and the title (`summary`, or 'Busy' when absent or empty) of the first event of calendar `i` with exactly that slot; the record's start and end are the base event's |
| `Overlaps.ProducesIff` | popup.js:266-275 | a base event with valid times produces a record exactly when every calendar other than 0 holds, before filtering, an event with the same start and end instants |
| `Overlaps.StepNoThrow` | popup.js:266-289 | with two or more calendars, one base event cannot throw when all other calendars' times resolve |
| `Overlaps.ScanNoThrow` | popup.js:265-297 | the same, for every base event in turn |
| `Overlaps.NoThrow` | popup.js:236-300 | with two or more calendars, the matcher returns normally unless some event of a calendar other than 0 has a marker with neither `dateTime` nor `date` |
| `Overlaps.MorningNotCommon` | popup.js:236-246 | 09:00-10:00 against 09:30-10:30 produces no record |
| `Overlaps.AfternoonCommon` | popup.js:275-295 | the shared 14:00-15:00 slot produces a record, with 'Busy' shown for the untitled event |
| `Overlaps.ScanPair` | popup.js:265-297 | two base events processed in turn concatenate their records |
| `Overlaps.ExactSlotsOnly` | popup.js:248-300 | for the two example calendars on any day, exactly one record comes out: the identical 14:00-15:00 slot |
| `Overlaps.ScanSingle` | popup.js:265-297 | a calendar 0 with one event gives that event's step |
| `Overlaps.UndatedBeforeMatchThrows` | popup.js:236-246 | an event with neither `dateTime` nor `date` in calendar 1, before the matching event, makes the whole call throw a TypeError |
| `Overlaps.MatchBeforeUndatedReturns` | popup.js:237-244 | with the matching event first, `some` stops and the undated event is never looked at: one record comes back |
| `Overlaps.InvalidBaseThrows` | popup.js:275-281 | a single calendar whose event starts at an Invalid Date counts as common, and `toISOString()` throws a RangeError |
| `Inputs.SavedAfter` | popup.js:43-51 | the list after saving is the old list with possibly one address added at the end, which is the new address when it is non-empty and unknown; nothing else changes |
| `Inputs.SaveEmail` | popup.js:43-51 | the method that loads, conditionally pushes and stores computes `SavedAfter` |
| `Inputs.SavedStaysDistinct` | popup.js:47-48 | saving into a list without duplicates leaves it without duplicates |
| `Inputs.SavedIdempotent` | popup.js:43-51 | saving the same address twice is the same as saving it once |
| `Inputs.Lead` | popup.js:136 | the length of the maximal white-space prefix |
| `Inputs.Tail` | popup.js:136 | the start of the maximal white-space suffix |
| `Inputs.Trim` | popup.js:136 | the result has no white space at either end, and it is empty exactly when the input is all white space |
| `Inputs.TrimIsSlice` | popup.js:136 | the result is the slice of the input after its leading white space, followed only by white space |
| `Inputs.TrimIdempotent` | popup.js:136 | trimming twice is trimming once |
| `Inputs.Participants` | popup.js:135-137 | no longer than the input, and no participant is empty |
| `Inputs.ParticipantsMembers` | popup.js:135-137 | the participants are exactly the non-empty trimmed inputs, and each is already trimmed |
| `Inputs.ParticipantsConcat` | popup.js:135-137 | collection keeps the order of the input boxes |
| `Inputs.ParticipantsAtLeastOne` | popup.js:135-137 | there is a participant exactly when some box holds more than white space |
| `Inputs.ParticipantsAtLeastTwo` | popup.js:135-139 | there are at least two participants exactly when two different boxes hold more than white space |
| `Inputs.TwoWithFirst` | popup.js:135-137 | with a non-blank first box, two participants exactly when two boxes are non-blank |
| `Inputs.TwoWithoutFirst` | popup.js:135-137 | a blank first box changes neither the participant count nor which boxes are non-blank |
| `Inputs.CheckParticipants` | popup.js:135-142 | the check passes exactly when two different boxes hold more than white space, and then hands on the participants, at least two; otherwise it stops before any matching |

## Left out

- Token acquisition through `chrome.identity` (popup.js:144-163): a foreign API; the model starts from fetched events.
- `fetchCalendarEvents` and the fetch loop with its "at least two calendars" check (popup.js:165-184, 195-233): network I/O. Fetched calendars are the `allEvents` argument.
- The misaligned `emails` index after a failed fetch (popup.js:176-179, 186): the fetch loop is not modelled. `MultiCalendarOverlaps` instead requires at least as many emails as calendars.
- Page setup, date validation with `alert`, the autocomplete dropdown, `displayResults` and `addCalendarInput` (popup.js:1-35, 54-124, 336-366): DOM wiring and rendering.
- `localStorage` and JSON (popup.js:38-41, 46, 49): `saveEmail` takes the stored list as an argument and returns the new list.
- Parsing and formatting of dates (`new Date(string)`, `toISOString`, `setHours`, `formatDate`, `toLocaleString`): locale- and timezone-dependent library code. A marker field holds its already-parsed `Stamp`. The ISO round trip of a valid Date is taken as the identity. The ±8.64e15 ms range of JavaScript Dates is not modelled.
- Exact JavaScript truthiness of non-string marker fields and summaries: fields are modelled as absent, empty or a parsed value.
- `console` logging: diagnostics with no effect on results.
