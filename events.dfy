/**
 * Calendar events as the Calendar API returns them, and the two helpers of
 * popup.js that read their times: `getEventTime` and `eventsOverlap`.
 */
module Events {
  import opened Js

  /**
   * What `new Date(string)` produces: a valid instant, in milliseconds since
   * the epoch, or an Invalid Date (whose `getTime()` is NaN).
   */
  datatype Stamp = At(ms: int) | InvalidDate

  /**
   * A start or end marker. `dateTime` is set for timed events and `date` for
   * all-day ones; each field holds the parsed string, and None stands for a
   * field that is absent or the empty string (both falsy in JavaScript).
   */
  datatype Marker = Marker(dateTime: Option<Stamp>, date: Option<Stamp>)

  /** An event record; a missing `start` or `end` object is None. */
  datatype Event = Event(start: Option<Marker>, end: Option<Marker>, summary: Option<string>)

  /** A pair of valid instants, in milliseconds. */
  datatype Instants = Instants(start: int, end: int)

  /**
   * `getEventTime`: null for a missing marker or a marker with neither field,
   * otherwise the Date of `dateTime`, falling back to `date`.
   */
  function EventTime(m: Option<Marker>): (r: Option<Stamp>)
    ensures r.Some? <==> m.Some? && (m.value.dateTime.Some? || m.value.date.Some?)
    ensures m.Some? && m.value.dateTime.Some? ==> r == m.value.dateTime
    ensures m.Some? && m.value.dateTime.None? ==> r == m.value.date
  {
    match m
    case None => None
    case Some(marker) =>
      if marker.dateTime.Some? then marker.dateTime else marker.date
  }

  /** `a.getTime() === b.getTime()` on two Dates: NaN equals nothing. */
  predicate SameTime(a: Stamp, b: Stamp)
  {
    a.At? && b.At? && a.ms == b.ms
  }

  /** The event's start and end as valid instants, when both resolve to one. */
  function Span(e: Event): (r: Option<Instants>)
    ensures r.Some? ==> HasMarkers(e)
  {
    match (EventTime(e.start), EventTime(e.end))
    case (Some(At(s)), Some(At(t))) => Some(Instants(s, t))
    case _ => None
  }

  /** `Span` is defined exactly when both times resolve to valid instants, and then holds them. */
  lemma SpanResolves(e: Event)
    ensures Span(e).Some? <==> Resolvable(e) && EventTime(e.start).value.At? && EventTime(e.end).value.At?
    ensures Span(e).Some? ==>
      EventTime(e.start) == Some(At(Span(e).value.start)) && EventTime(e.end) == Some(At(Span(e).value.end))
  {
  }

  /** Both markers resolve to a Date (possibly an Invalid Date), so `getTime()` can be called. */
  predicate Resolvable(e: Event)
  {
    EventTime(e.start).Some? && EventTime(e.end).Some?
  }

  /**
   * `eventsOverlap`: despite its name, true exactly when both starts and both
   * ends are the same instants. A `getTime()` call on a null time throws and
   * the catch answers false; an Invalid Date compares unequal to everything.
   */
  function EventsOverlap(a: Event, b: Event): (r: bool)
    ensures r <==> Span(a).Some? && Span(a) == Span(b)
  {
    var start1, end1 := EventTime(a.start), EventTime(a.end);
    var start2, end2 := EventTime(b.start), EventTime(b.end);
    if start1.None? || start2.None? then false           // TypeError, caught
    else if !SameTime(start1.value, start2.value) then false
    else if end1.None? || end2.None? then false          // TypeError, caught
    else SameTime(end1.value, end2.value)
  }

  lemma EventsOverlapSymmetric(a: Event, b: Event)
    ensures EventsOverlap(a, b) <==> EventsOverlap(b, a)
  {
  }

  lemma EventsOverlapReflexive(a: Event)
    requires Span(a).Some?
    ensures EventsOverlap(a, a)
  {
  }

  /** An event whose times do not resolve matches nothing, on either side, instead of failing. */
  lemma EventsOverlapUnresolved(a: Event, b: Event)
    requires Span(a).None? || Span(b).None?
    ensures !EventsOverlap(a, b) && !EventsOverlap(b, a)
  {
  }

  /** The filter of `findMultiCalendarOverlaps`: an event needs a `start` and an `end` object. */
  predicate HasMarkers(e: Event)
    ensures Resolvable(e) ==> HasMarkers(e)
  {
    e.start.Some? && e.end.Some?
  }

  /** `calendarEvents.filter(...)`: the events with both markers, in their order. */
  function ValidEvents(es: seq<Event>): (r: seq<Event>)
    ensures |r| <= |es|
    ensures forall k :: 0 <= k < |r| ==> HasMarkers(r[k])
    ensures forall e :: e in r <==> e in es && HasMarkers(e)
  {
    if es == [] then []
    else (if HasMarkers(es[0]) then [es[0]] else []) + ValidEvents(es[1..])
  }

  /** The filter keeps order: it distributes over concatenation. */
  lemma {:induction false} ValidEventsConcat(a: seq<Event>, b: seq<Event>)
    ensures ValidEvents(a + b) == ValidEvents(a) + ValidEvents(b)
  {
    if a == [] {
      assert a + b == b;
    } else {
      assert (a + b)[0] == a[0];
      assert (a + b)[1..] == a[1..] + b;
      ValidEventsConcat(a[1..], b);
    }
  }

  /** A calendar whose events all have both markers passes through unchanged. */
  lemma {:induction false} ValidEventsKeepsValid(es: seq<Event>)
    requires forall k :: 0 <= k < |es| ==> HasMarkers(es[k])
    ensures ValidEvents(es) == es
  {
    if es != [] {
      ValidEventsKeepsValid(es[1..]);
    }
  }
}
