/**
 * The multi-calendar matcher of popup.js: `isCommonOverlap` and
 * `findMultiCalendarOverlaps`. Calendar 0 is the base: each of its events
 * whose start and end resolve is looked up, by exact start and end instant,
 * in every other calendar, and yields one record when all of them hold it.
 */
module Overlaps {
  import opened Js
  import opened Events

  /** The `{ start, end }` slot handed to `isCommonOverlap`: the base event's two Dates. */
  datatype Slot = Slot(start: Stamp, end: Stamp)

  /** One per-calendar entry of a record: `{ email, title, start, end }`. */
  datatype Entry = Entry(email: string, title: string, start: Option<Stamp>, end: Option<Stamp>)

  /** One output record: `{ events, start, end }`, one entry per calendar. */
  datatype Overlap = Overlap(events: seq<Entry>, start: Stamp, end: Stamp)

  const Busy: string := "Busy"

  function SlotSpan(slot: Slot): Option<Instants>
  {
    if slot.start.At? && slot.end.At? then Some(Instants(slot.start.ms, slot.end.ms)) else None
  }

  function SlotOf(sp: Instants): Slot
  {
    Slot(At(sp.start), At(sp.end))
  }

  /** The event starts and ends at exactly the slot's two (valid) instants. */
  predicate InSlot(slot: Slot, e: Event)
  {
    SlotSpan(slot).Some? && Span(e) == SlotSpan(slot)
  }

  predicate HasMatch(slot: Slot, es: seq<Event>)
  {
    exists k :: 0 <= k < |es| && InSlot(slot, es[k])
  }

  /**
   * The callback of `events.some` in `isCommonOverlap`. Both times are looked
   * up first; the start comparison calls `getTime()` on the event's start,
   * which throws when it is null, and only an equal start goes on to the end.
   */
  function MatchesSlot(slot: Slot, e: Event): (r: Outcome<bool>)
    ensures r == Ok(true) <==> InSlot(slot, e)
    ensures r.Thrown? ==> r.error == TypeError && !Resolvable(e)
  {
    var eventStart, eventEnd := EventTime(e.start), EventTime(e.end);
    if eventStart.None? then Thrown(TypeError)
    else if !SameTime(slot.start, eventStart.value) then Ok(false)
    else if eventEnd.None? then Thrown(TypeError)
    else Ok(SameTime(slot.end, eventEnd.value))
  }

  /** `events.some(...)`: stops at the first match or the first exception. */
  function SomeMatch(slot: Slot, es: seq<Event>): (r: Outcome<bool>)
    ensures r.Ok? ==> (r.value <==> HasMatch(slot, es))
    ensures (forall k :: 0 <= k < |es| ==> Resolvable(es[k])) ==> r.Ok?
  {
    if es == [] then Ok(false)
    else
      match MatchesSlot(slot, es[0])
      case Thrown(err) => Thrown(err)
      case Ok(found) =>
        if found then Ok(true)
        else
          var rest := SomeMatch(slot, es[1..]);
          assert rest.Ok? ==> (HasMatch(slot, es) <==> HasMatch(slot, es[1..])) by {
            if rest.Ok? && HasMatch(slot, es) {
              var k :| 0 <= k < |es| && InSlot(slot, es[k]);
              assert k != 0;
              assert es[1..][k - 1] == es[k];
            }
          }
          rest
  }

  /**
   * `isCommonOverlap`: `eventsList.every(events => events.some(...))`; a
   * thrown exception leaves it and aborts the whole computation.
   */
  function IsCommonOverlap(slot: Slot, lists: seq<seq<Event>>): (r: Outcome<bool>)
    ensures r.Ok? ==> (r.value <==> forall i :: 0 <= i < |lists| ==> HasMatch(slot, lists[i]))
    ensures (forall i, k :: 0 <= i < |lists| && 0 <= k < |lists[i]| ==> Resolvable(lists[i][k])) ==> r.Ok?
  {
    if lists == [] then Ok(true)
    else
      match SomeMatch(slot, lists[0])
      case Thrown(err) => Thrown(err)
      case Ok(found) =>
        if !found then Ok(false)
        else
          var rest := IsCommonOverlap(slot, lists[1..]);
          assert forall i :: 1 <= i < |lists| ==> lists[1..][i - 1] == lists[i];
          rest
  }

  /** The event built from the base slot's ISO strings, re-parsed to the same instants. */
  function Probe(sp: Instants): (p: Event)
    ensures Span(p) == Some(sp)
  {
    Event(Some(Marker(Some(At(sp.start)), None)), Some(Marker(Some(At(sp.end)), None)), None)
  }

  /** `events.find(e => eventsOverlap(probe, e))`: the first matching event. */
  function Find(es: seq<Event>, probe: Event): (r: Option<Event>)
    ensures r.None? <==> forall k :: 0 <= k < |es| ==> !EventsOverlap(probe, es[k])
    ensures r.Some? ==> exists k :: 0 <= k < |es| && es[k] == r.value && EventsOverlap(probe, es[k])
                                    && forall j :: 0 <= j < k ==> !EventsOverlap(probe, es[j])
  {
    if es == [] then None
    else if EventsOverlap(probe, es[0]) then Some(es[0])
    else
      var r := Find(es[1..], probe);
      assert forall k :: 1 <= k < |es| ==> es[1..][k - 1] == es[k];
      r
  }

  /** `event?.summary || 'Busy'`: an absent or empty summary gives 'Busy'. */
  function TitleOf(e: Event): (r: string)
    ensures r != ""
    ensures r == Busy || e.summary == Some(r)
  {
    if e.summary.Some? && e.summary.value != "" then e.summary.value else Busy
  }

  /** The entry for one calendar, from the event `find` returned (or undefined). */
  function EntryFor(email: string, found: Option<Event>): (r: Entry)
    ensures r.email == email && r.title != ""
    ensures found.Some? && Span(found.value).Some? ==>
      r.start == Some(At(Span(found.value).value.start)) && r.end == Some(At(Span(found.value).value.end))
  {
    match found
    case None => Entry(email, Busy, None, None)
    case Some(e) => Entry(email, TitleOf(e), EventTime(e.start), EventTime(e.end))
  }

  /** The record for a base slot: `validEvents.map((events, index) => ...)`. */
  function RecordOf(sp: Instants, valid: seq<seq<Event>>, emails: seq<string>): (r: Overlap)
    requires |emails| >= |valid|
    ensures r.start == At(sp.start) && r.end == At(sp.end) && |r.events| == |valid|
  {
    Overlap(seq(|valid|, i requires 0 <= i < |valid| => EntryFor(emails[i], Find(valid[i], Probe(sp)))),
            At(sp.start), At(sp.end))
  }

  /** `allEvents.map(calendarEvents => calendarEvents.filter(...))`. */
  function ValidCalendars(allEvents: seq<seq<Event>>): (r: seq<seq<Event>>)
    ensures |r| == |allEvents|
    ensures forall i :: 0 <= i < |r| ==> |r[i]| <= |allEvents[i]|
    ensures forall i, k :: 0 <= i < |r| && 0 <= k < |r[i]| ==> HasMarkers(r[i][k]) && r[i][k] in allEvents[i]
  {
    seq(|allEvents|, i requires 0 <= i < |allEvents| => ValidEvents(allEvents[i]))
  }

  /**
   * The body of `validEvents[0].forEach` for one base event: no record when a
   * time is null, an exception from `isCommonOverlap` passed on, and on a
   * common slot the record. Building the probe calls `toISOString()`, which
   * throws on an Invalid Date; it runs because calendar 0 holds the base event.
   */
  function Step(b: Event, valid: seq<seq<Event>>, emails: seq<string>): (r: Outcome<seq<Overlap>>)
    requires |emails| >= |valid| >= 1
    ensures r.Ok? ==> |r.value| <= 1
    ensures r.Thrown? ==> Resolvable(b)
  {
    var start, end := EventTime(b.start), EventTime(b.end);
    if start.None? || end.None? then Ok([])
    else
      match IsCommonOverlap(Slot(start.value, end.value), valid[1..])
      case Thrown(err) => Thrown(err)
      case Ok(common) =>
        if !common then Ok([])
        else if !(start.value.At? && end.value.At?) then Thrown(RangeError)
        else Ok([RecordOf(Instants(start.value.ms, end.value.ms), valid, emails)])
  }

  /** The `forEach` over the first `|bases|` base events, in order; the first exception aborts. */
  function Scan(bases: seq<Event>, valid: seq<seq<Event>>, emails: seq<string>): (r: Outcome<seq<Overlap>>)
    requires |emails| >= |valid| >= 1
    ensures r.Ok? ==> |r.value| <= |bases|
    decreases |bases|
  {
    if bases == [] then Ok([])
    else
      match Scan(bases[..|bases| - 1], valid, emails)
      case Thrown(err) => Thrown(err)
      case Ok(done) =>
        match Step(bases[|bases| - 1], valid, emails)
        case Thrown(err) => Thrown(err)
        case Ok(recs) => Ok(done + recs)
  }

  /** What `findMultiCalendarOverlaps` returns or throws; `validEvents[0]` of no calendars is undefined. */
  function MultiCalendarOverlaps(allEvents: seq<seq<Event>>, emails: seq<string>): (r: Outcome<seq<Overlap>>)
    requires |emails| >= |allEvents|
    ensures r.Ok? ==> |allEvents| >= 1 && |r.value| <= |allEvents[0]|
    ensures r.Thrown? ==> |allEvents| == 0 || |allEvents[0]| != 0
  {
    if |allEvents| == 0 then Thrown(TypeError)
    else
      var valid := ValidCalendars(allEvents);
      Scan(valid[0], valid, emails)
  }

  /** `findMultiCalendarOverlaps`: pushes one record per common base slot onto `overlaps`. */
  method FindMultiCalendarOverlaps(allEvents: seq<seq<Event>>, emails: seq<string>)
    returns (r: Outcome<seq<Overlap>>)
    requires |emails| >= |allEvents|
    ensures r == MultiCalendarOverlaps(allEvents, emails)
  {
    if |allEvents| == 0 {
      return Thrown(TypeError);
    }
    var validEvents := ValidCalendars(allEvents);
    var base := validEvents[0];
    var overlaps: seq<Overlap> := [];
    var i := 0;
    while i < |base|
      invariant 0 <= i <= |base|
      invariant Scan(base[..i], validEvents, emails) == Ok(overlaps)
    {
      ScanExtends(base, validEvents, emails, i, overlaps);
      var start, end := EventTime(base[i].start), EventTime(base[i].end);
      if start.Some? && end.Some? {
        var common := IsCommonOverlap(Slot(start.value, end.value), validEvents[1..]);
        if common.Thrown? {
          ScanAborts(base, validEvents, emails, i + 1);
          return Thrown(common.error);
        }
        if common.value {
          if !(start.value.At? && end.value.At?) {
            ScanAborts(base, validEvents, emails, i + 1);
            return Thrown(RangeError);
          }
          var record := RecordOf(Instants(start.value.ms, end.value.ms), validEvents, emails);
          assert Step(base[i], validEvents, emails) == Ok([record]);
          overlaps := overlaps + [record];
        } else {
          assert Step(base[i], validEvents, emails) == Ok([]) && overlaps + [] == overlaps;
        }
      } else {
        assert Step(base[i], validEvents, emails) == Ok([]) && overlaps + [] == overlaps;
      }
      i := i + 1;
    }
    assert base[..i] == base;
    r := Ok(overlaps);
  }

  /** One more base event: the scan goes on from the records so far, or stops at its exception. */
  lemma ScanExtends(bases: seq<Event>, valid: seq<seq<Event>>, emails: seq<string>, i: nat, done: seq<Overlap>)
    requires |emails| >= |valid| >= 1
    requires i < |bases| && Scan(bases[..i], valid, emails) == Ok(done)
    ensures Scan(bases[..i + 1], valid, emails) ==
      match Step(bases[i], valid, emails)
      case Thrown(err) => Thrown(err)
      case Ok(recs) => Ok(done + recs)
  {
    assert bases[..i + 1][..i] == bases[..i] && bases[..i + 1][i] == bases[i];
  }

  /** Once a prefix of the base events throws, the whole scan throws the same exception. */
  lemma {:induction false} ScanAborts(bases: seq<Event>, valid: seq<seq<Event>>, emails: seq<string>, j: nat)
    requires |emails| >= |valid| >= 1
    requires j <= |bases| && Scan(bases[..j], valid, emails).Thrown?
    ensures Scan(bases, valid, emails) == Scan(bases[..j], valid, emails)
  {
    if j == |bases| {
      assert bases[..j] == bases;
    } else {
      var front := bases[..|bases| - 1];
      assert front[..j] == bases[..j];
      ScanAborts(front, valid, emails, j);
    }
  }

  // ---------------------------------------------------------------------
  // A reference definition of the result, and its properties

  /**
   * The base event yields a record: its times are valid instants and every
   * calendar other than calendar 0 holds an event with exactly those instants.
   */
  predicate Produces(b: Event, valid: seq<seq<Event>>)
  {
    Span(b).Some? && forall i :: 1 <= i < |valid| ==> HasMatch(SlotOf(Span(b).value), valid[i])
  }

  /** The records, as a filter and a map over the base events. */
  function Expected(bases: seq<Event>, valid: seq<seq<Event>>, emails: seq<string>): (r: seq<Overlap>)
    requires |emails| >= |valid|
    ensures |r| <= |bases|
  {
    if bases == [] then []
    else (if Produces(bases[0], valid) then [RecordOf(Span(bases[0]).value, valid, emails)] else [])
         + Expected(bases[1..], valid, emails)
  }

  /** Every record belongs to a producing base event, and every producing base event has its record. */
  lemma {:induction false} ExpectedMembers(bases: seq<Event>, valid: seq<seq<Event>>, emails: seq<string>, rec: Overlap)
    requires |emails| >= |valid|
    ensures rec in Expected(bases, valid, emails) <==>
      exists j :: 0 <= j < |bases| && Produces(bases[j], valid) && rec == RecordOf(Span(bases[j]).value, valid, emails)
  {
    if bases != [] {
      ExpectedMembers(bases[1..], valid, emails, rec);
      assert forall j :: 1 <= j < |bases| ==> bases[1..][j - 1] == bases[j];
    }
  }

  /** Records come out in the order of their base events. */
  lemma {:induction false} ExpectedConcat(a: seq<Event>, b: seq<Event>, valid: seq<seq<Event>>, emails: seq<string>)
    requires |emails| >= |valid|
    ensures Expected(a + b, valid, emails) == Expected(a, valid, emails) + Expected(b, valid, emails)
  {
    if a == [] {
      assert a + b == b;
    } else {
      var head := if Produces(a[0], valid) then [RecordOf(Span(a[0]).value, valid, emails)] else [];
      assert (a + b)[0] == a[0];
      assert (a + b)[1..] == a[1..] + b;
      calc {
        Expected(a + b, valid, emails);
        head + Expected(a[1..] + b, valid, emails);
        { ExpectedConcat(a[1..], b, valid, emails); }
        head + (Expected(a[1..], valid, emails) + Expected(b, valid, emails));
        (head + Expected(a[1..], valid, emails)) + Expected(b, valid, emails);
        Expected(a, valid, emails) + Expected(b, valid, emails);
      }
    }
  }

  lemma ExpectedSingle(b: Event, valid: seq<seq<Event>>, emails: seq<string>)
    requires |emails| >= |valid|
    ensures Expected([b], valid, emails) == if Produces(b, valid) then [RecordOf(Span(b).value, valid, emails)] else []
  {
    assert [b][1..] == [];
  }

  /** One base event: when it does not throw, it yields its record exactly when it produces one. */
  lemma StepSpec(b: Event, valid: seq<seq<Event>>, emails: seq<string>)
    requires |emails| >= |valid| >= 1
    requires Step(b, valid, emails).Ok?
    ensures Step(b, valid, emails).value
         == if Produces(b, valid) then [RecordOf(Span(b).value, valid, emails)] else []
  {
  }

  /** The sequential scan, when it does not throw, computes the reference result. */
  lemma {:induction false} ScanSpec(bases: seq<Event>, valid: seq<seq<Event>>, emails: seq<string>)
    requires |emails| >= |valid| >= 1
    requires Scan(bases, valid, emails).Ok?
    ensures Scan(bases, valid, emails).value == Expected(bases, valid, emails)
    decreases |bases|
  {
    if bases != [] {
      var front, last := bases[..|bases| - 1], bases[|bases| - 1];
      assert bases == front + [last];
      ScanPrefixOk(front, last, valid, emails);
      ScanSpec(front, valid, emails);
      ScanSpecStep(front, last, valid, emails);
    }
  }

  lemma ScanPrefixOk(front: seq<Event>, last: Event, valid: seq<seq<Event>>, emails: seq<string>)
    requires |emails| >= |valid| >= 1
    requires Scan(front + [last], valid, emails).Ok?
    ensures Scan(front, valid, emails).Ok?
  {
    assert (front + [last])[..|front|] == front;
  }

  lemma ScanSpecStep(front: seq<Event>, last: Event, valid: seq<seq<Event>>, emails: seq<string>)
    requires |emails| >= |valid| >= 1
    requires Scan(front, valid, emails) == Ok(Expected(front, valid, emails))
    requires Scan(front + [last], valid, emails).Ok?
    ensures Scan(front + [last], valid, emails).value == Expected(front + [last], valid, emails)
  {
    assert (front + [last])[..|front|] == front && (front + [last])[|front|] == last;
    assert Step(last, valid, emails).Ok?;
    StepSpec(last, valid, emails);
    ExpectedSingle(last, valid, emails);
    ExpectedConcat(front, [last], valid, emails);
  }

  /** `findMultiCalendarOverlaps`, when it returns, returns the reference records of the valid base events. */
  lemma OverlapsAreExpected(allEvents: seq<seq<Event>>, emails: seq<string>)
    requires |emails| >= |allEvents|
    requires MultiCalendarOverlaps(allEvents, emails).Ok?
    ensures |allEvents| >= 1
    ensures MultiCalendarOverlaps(allEvents, emails).value
         == Expected(ValidEvents(allEvents[0]), ValidCalendars(allEvents), emails)
    ensures |MultiCalendarOverlaps(allEvents, emails).value| <= |ValidEvents(allEvents[0])|
  {
    var valid := ValidCalendars(allEvents);
    ScanSpec(valid[0], valid, emails);
  }

  /** Dropping events without markers changes no `find`: such an event matches nothing. */
  lemma {:induction false} FilterKeepsFind(es: seq<Event>, probe: Event)
    ensures Find(ValidEvents(es), probe) == Find(es, probe)
  {
    if es != [] {
      var v := ValidEvents(es);
      FilterKeepsFind(es[1..], probe);
      if HasMarkers(es[0]) {
        assert v[0] == es[0] && v[1..] == ValidEvents(es[1..]);
        if !EventsOverlap(probe, es[0]) {
          assert Find(v, probe) == Find(v[1..], probe);
        }
      } else {
        assert v == ValidEvents(es[1..]);
        assert !EventsOverlap(probe, es[0]);
        assert Find(es, probe) == Find(es[1..], probe);
      }
    }
  }

  /** Dropping events without markers changes no `some`: such an event matches nothing. */
  lemma {:induction false} FilterKeepsMatch(es: seq<Event>, slot: Slot)
    ensures HasMatch(slot, ValidEvents(es)) <==> HasMatch(slot, es)
  {
    if es != [] {
      FilterKeepsMatch(es[1..], slot);
      var v := ValidEvents(es);
      assert forall k :: 1 <= k < |es| ==> es[1..][k - 1] == es[k];
      if HasMarkers(es[0]) {
        assert v[0] == es[0] && v[1..] == ValidEvents(es[1..]);
        assert forall k :: 1 <= k < |v| ==> v[1..][k - 1] == v[k];
      } else {
        assert !InSlot(slot, es[0]);
      }
    }
  }

  /** `k` is the index of the first event of `es` that starts and ends exactly at `sp`. */
  predicate FirstWithSpan(es: seq<Event>, sp: Instants, k: int)
  {
    0 <= k < |es| && Span(es[k]) == Some(sp) && forall j :: 0 <= j < k ==> Span(es[j]) != Some(sp)
  }

  /** `find` with the probe of `sp` finds the first event of exactly that span, or nothing. */
  lemma FindProbe(es: seq<Event>, sp: Instants)
    ensures Find(es, Probe(sp)).None? <==> forall k :: 0 <= k < |es| ==> Span(es[k]) != Some(sp)
    ensures Find(es, Probe(sp)).Some? ==>
      exists k :: FirstWithSpan(es, sp, k) && es[k] == Find(es, Probe(sp)).value
  {
  }

  /**
   * A record built for a producing base event has one entry per calendar:
   * entry `i` carries `emails[i]`, the base slot's instants, and the title of
   * the first event of calendar `i` with exactly that slot.
   */
  lemma RecordShape(b: Event, allEvents: seq<seq<Event>>, emails: seq<string>)
    requires |emails| >= |allEvents| >= 1
    requires b in ValidEvents(allEvents[0]) && Produces(b, ValidCalendars(allEvents))
    ensures var sp := Span(b).value;
      var rec := RecordOf(sp, ValidCalendars(allEvents), emails);
      rec.start == At(sp.start) && rec.end == At(sp.end) && |rec.events| == |allEvents| &&
      forall i :: 0 <= i < |allEvents| ==>
        rec.events[i].email == emails[i] &&
        rec.events[i].start == Some(At(sp.start)) && rec.events[i].end == Some(At(sp.end)) &&
        exists k :: FirstWithSpan(allEvents[i], sp, k) && rec.events[i].title == TitleOf(allEvents[i][k])
  {
    var sp := Span(b).value;
    var valid := ValidCalendars(allEvents);
    var rec := RecordOf(sp, valid, emails);
    forall i | 0 <= i < |allEvents|
      ensures rec.events[i].email == emails[i]
      ensures rec.events[i].start == Some(At(sp.start)) && rec.events[i].end == Some(At(sp.end))
      ensures exists k :: FirstWithSpan(allEvents[i], sp, k) && rec.events[i].title == TitleOf(allEvents[i][k])
    {
      FilterKeepsFind(allEvents[i], Probe(sp));
      FindProbe(allEvents[i], sp);
      FindProbe(valid[i], sp);
      if i == 0 {
        var k :| 0 <= k < |valid[0]| && valid[0][k] == b;
        assert Span(valid[i][k]) == Some(sp);
      } else {
        assert HasMatch(SlotOf(sp), valid[i]);
        var k :| 0 <= k < |valid[i]| && InSlot(SlotOf(sp), valid[i][k]);
        assert Span(valid[i][k]) == Some(sp);
      }
      var found := Find(valid[i], Probe(sp));
      assert found.Some?;
      var k :| FirstWithSpan(allEvents[i], sp, k) && allEvents[i][k] == found.value;
      assert rec.events[i] == EntryFor(emails[i], found);
    }
  }

  /** Some event of `es` starts and ends exactly at `sp`. */
  predicate HasSpan(es: seq<Event>, sp: Instants)
  {
    exists k :: 0 <= k < |es| && Span(es[k]) == Some(sp)
  }

  /**
   * A base event whose times are valid instants yields a record exactly when
   * every calendar other than calendar 0, before filtering, holds an event
   * with the same start and end instants.
   */
  lemma ProducesIff(b: Event, allEvents: seq<seq<Event>>)
    requires Span(b).Some?
    ensures Produces(b, ValidCalendars(allEvents)) <==>
      forall i :: 1 <= i < |allEvents| ==> HasSpan(allEvents[i], Span(b).value)
  {
    var slot := SlotOf(Span(b).value);
    var valid := ValidCalendars(allEvents);
    assert SlotSpan(slot) == Span(b);
    forall i | 1 <= i < |allEvents|
      ensures HasMatch(slot, valid[i]) <==> HasSpan(allEvents[i], Span(b).value)
    {
      FilterKeepsMatch(allEvents[i], slot);
      assert valid[i] == ValidEvents(allEvents[i]);
      assert forall k :: 0 <= k < |allEvents[i]| ==> (InSlot(slot, allEvents[i][k]) <==> Span(allEvents[i][k]) == Span(b));
    }
  }

  /** With at least two calendars, one base event throws only on an unresolvable time elsewhere. */
  lemma StepNoThrow(b: Event, valid: seq<seq<Event>>, emails: seq<string>)
    requires |emails| >= |valid| >= 2
    requires forall i, k :: 1 <= i < |valid| && 0 <= k < |valid[i]| ==> Resolvable(valid[i][k])
    ensures Step(b, valid, emails).Ok?
  {
  }

  lemma {:induction false} ScanNoThrow(bases: seq<Event>, valid: seq<seq<Event>>, emails: seq<string>)
    requires |emails| >= |valid| >= 2
    requires forall i, k :: 1 <= i < |valid| && 0 <= k < |valid[i]| ==> Resolvable(valid[i][k])
    ensures Scan(bases, valid, emails).Ok?
    decreases |bases|
  {
    if bases != [] {
      ScanNoThrow(bases[..|bases| - 1], valid, emails);
      StepNoThrow(bases[|bases| - 1], valid, emails);
    }
  }

  /**
   * With at least two calendars, `findMultiCalendarOverlaps` returns normally
   * unless some event of a calendar other than calendar 0 has a start or end
   * object with neither `dateTime` nor `date`.
   */
  lemma NoThrow(allEvents: seq<seq<Event>>, emails: seq<string>)
    requires |emails| >= |allEvents| >= 2
    requires forall i, k :: 1 <= i < |allEvents| && 0 <= k < |allEvents[i]| && HasMarkers(allEvents[i][k])
               ==> Resolvable(allEvents[i][k])
    ensures MultiCalendarOverlaps(allEvents, emails).Ok?
  {
    var valid := ValidCalendars(allEvents);
    forall i, k | 1 <= i < |valid| && 0 <= k < |valid[i]|
      ensures Resolvable(valid[i][k])
    {
      assert valid[i][k] in allEvents[i];
    }
    ScanNoThrow(valid[0], valid, emails);
  }

  /** A timed event from `s` to `t` milliseconds. */
  function Timed(s: int, t: int, title: string): Event
  {
    Event(Some(Marker(Some(At(s)), None)), Some(Marker(Some(At(t)), None)), Some(title))
  }

  // An example: two calendars on the day that starts at `day` milliseconds,
  // 09:00-10:00 and 14:00-15:00 on one, 09:30-10:30 and 14:00-15:00
  // (untitled) on the other.

  const Hour: int := 3600000

  function AnnCalendar(day: int): seq<Event>
  {
    [Timed(day + 9 * Hour, day + 10 * Hour, "Standup"), Timed(day + 14 * Hour, day + 15 * Hour, "1:1")]
  }

  function BobCalendar(day: int): seq<Event>
  {
    [Timed(day + 9 * Hour + Hour / 2, day + 10 * Hour + Hour / 2, "Sync"),
     Timed(day + 14 * Hour, day + 15 * Hour, "")]
  }

  /** The record both calendars share: 14:00-15:00, the untitled event shown as 'Busy'. */
  function AfternoonRecord(day: int): Overlap
  {
    var s, t := At(day + 14 * Hour), At(day + 15 * Hour);
    Overlap([Entry("ann", "1:1", Some(s), Some(t)), Entry("bob", Busy, Some(s), Some(t))], s, t)
  }

  /** The morning events overlap in time but are not the same slot: no record. */
  lemma MorningNotCommon(day: int)
    ensures Step(AnnCalendar(day)[0], [AnnCalendar(day), BobCalendar(day)], ["ann", "bob"]) == Ok([])
  {
  }

  /** The afternoon slot is on both calendars. */
  lemma AfternoonCommon(day: int)
    ensures Step(AnnCalendar(day)[1], [AnnCalendar(day), BobCalendar(day)], ["ann", "bob"])
         == Ok([AfternoonRecord(day)])
  {
    var a, b := AnnCalendar(day), BobCalendar(day);
    var valid := [a, b];
    var sp := Instants(day + 14 * Hour, day + 15 * Hour);
    var slot := SlotOf(sp);
    assert MatchesSlot(slot, b[0]) == Ok(false);
    assert MatchesSlot(slot, b[1]) == Ok(true);
    assert SomeMatch(slot, b) == Ok(true);
    assert valid[1..] == [b];
    assert IsCommonOverlap(slot, valid[1..]) == Ok(true);
    assert !EventsOverlap(Probe(sp), a[0]) && EventsOverlap(Probe(sp), a[1]);
    assert Find(a, Probe(sp)) == Some(a[1]);
    assert !EventsOverlap(Probe(sp), b[0]) && EventsOverlap(Probe(sp), b[1]);
    assert Find(b, Probe(sp)) == Some(b[1]);
    var rec := RecordOf(sp, valid, ["ann", "bob"]);
    assert rec.events[0] == AfternoonRecord(day).events[0];
    assert rec.events[1] == AfternoonRecord(day).events[1];
    assert rec.events == [rec.events[0], rec.events[1]];
    assert Step(a[1], valid, ["ann", "bob"]) == Ok([rec]);
  }

  /** Two base events in turn, neither throwing. */
  lemma ScanPair(x: Event, y: Event, valid: seq<seq<Event>>, emails: seq<string>)
    requires |emails| >= |valid| >= 1
    requires Step(x, valid, emails).Ok? && Step(y, valid, emails).Ok?
    ensures Scan([x, y], valid, emails) == Ok(Step(x, valid, emails).value + Step(y, valid, emails).value)
  {
    assert [x, y][..1] == [x] && [x][..0] == [];
    assert Scan([x], valid, emails) == Ok([] + Step(x, valid, emails).value);
    assert [] + Step(x, valid, emails).value == Step(x, valid, emails).value;
  }

  /**
   * Only the identical 14:00-15:00 slot is reported, once; the partly
   * overlapping morning events give nothing.
   */
  lemma ExactSlotsOnly(day: int)
    ensures MultiCalendarOverlaps([AnnCalendar(day), BobCalendar(day)], ["ann", "bob"])
         == Ok([AfternoonRecord(day)])
  {
    var a, b := AnnCalendar(day), BobCalendar(day);
    ValidEventsKeepsValid(a);
    ValidEventsKeepsValid(b);
    assert ValidCalendars([a, b]) == [a, b];
    MorningNotCommon(day);
    AfternoonCommon(day);
    ScanPair(a[0], a[1], [a, b], ["ann", "bob"]);
    assert a == [a[0], a[1]];
    var none: seq<Overlap> := [];
    assert none + [AfternoonRecord(day)] == [AfternoonRecord(day)];
  }

  /** A calendar of one base event: the scan is that event's step. */
  lemma ScanSingle(b: Event, valid: seq<seq<Event>>, emails: seq<string>)
    requires |emails| >= |valid| >= 1
    ensures Scan([b], valid, emails) == Step(b, valid, emails)
  {
    assert [b][..0] == [];
    if Step(b, valid, emails).Ok? {
      var none: seq<Overlap> := [];
      assert none + Step(b, valid, emails).value == Step(b, valid, emails).value;
    }
  }

  /** An event whose `start` and `end` objects carry neither `dateTime` nor `date`. */
  function Undated(title: string): Event
  {
    Event(Some(Marker(None, None)), Some(Marker(None, None)), Some(title))
  }

  /**
   * The second calendar holds an undated event before the matching one:
   * `some` reaches it first, `getTime()` on its null start throws, and the
   * whole computation ends in a TypeError.
   */
  lemma UndatedBeforeMatchThrows(day: int)
    ensures MultiCalendarOverlaps([[Timed(day + 9 * Hour, day + 10 * Hour, "Standup")],
                                   [Undated("Hold"), Timed(day + 9 * Hour, day + 10 * Hour, "Sync")]],
                                  ["ann", "bob"])
         == Thrown(TypeError)
  {
    var a := [Timed(day + 9 * Hour, day + 10 * Hour, "Standup")];
    var b := [Undated("Hold"), Timed(day + 9 * Hour, day + 10 * Hour, "Sync")];
    ValidEventsKeepsValid(a);
    ValidEventsKeepsValid(b);
    assert ValidCalendars([a, b]) == [a, b];
    var slot := Slot(At(day + 9 * Hour), At(day + 10 * Hour));
    assert MatchesSlot(slot, b[0]) == Thrown(TypeError);
    assert [a, b][1..] == [b];
    assert IsCommonOverlap(slot, [b]) == Thrown(TypeError);
    assert Step(a[0], [a, b], ["ann", "bob"]) == Thrown(TypeError);
    ScanSingle(a[0], [a, b], ["ann", "bob"]);
  }

  /**
   * The same two events the other way round: `some` stops at the match and
   * never looks at the undated event, so one record comes back.
   */
  lemma MatchBeforeUndatedReturns(day: int)
    ensures var r := MultiCalendarOverlaps([[Timed(day + 9 * Hour, day + 10 * Hour, "Standup")],
                                            [Timed(day + 9 * Hour, day + 10 * Hour, "Sync"), Undated("Hold")]],
                                           ["ann", "bob"]);
      r.Ok? && |r.value| == 1
  {
    var a := [Timed(day + 9 * Hour, day + 10 * Hour, "Standup")];
    var b := [Timed(day + 9 * Hour, day + 10 * Hour, "Sync"), Undated("Hold")];
    ValidEventsKeepsValid(a);
    ValidEventsKeepsValid(b);
    assert ValidCalendars([a, b]) == [a, b];
    var slot := Slot(At(day + 9 * Hour), At(day + 10 * Hour));
    assert MatchesSlot(slot, b[0]) == Ok(true);
    assert SomeMatch(slot, b) == Ok(true);
    assert [a, b][1..] == [b];
    assert IsCommonOverlap(slot, [b]) == Ok(true);
    var rec := RecordOf(Instants(day + 9 * Hour, day + 10 * Hour), [a, b], ["ann", "bob"]);
    assert Step(a[0], [a, b], ["ann", "bob"]) == Ok([rec]);
    ScanSingle(a[0], [a, b], ["ann", "bob"]);
  }

  /**
   * A single calendar whose event starts at an Invalid Date: with no other
   * calendar the slot is common, and `toISOString()` on the Invalid Date
   * throws a RangeError.
   */
  lemma InvalidBaseThrows(day: int)
    ensures MultiCalendarOverlaps([[Event(Some(Marker(Some(InvalidDate), None)), Some(Marker(Some(At(day)), None)), None)]],
                                  ["ann"])
         == Thrown(RangeError)
  {
    var e := Event(Some(Marker(Some(InvalidDate), None)), Some(Marker(Some(At(day)), None)), None);
    ValidEventsKeepsValid([e]);
    assert ValidCalendars([[e]]) == [[e]];
    assert [[e]][1..] == [];
    assert Step(e, [[e]], ["ann"]) == Thrown(RangeError);
    ScanSingle(e, [[e]], ["ann"]);
  }
}
