/** The read side of server/controllers/eventController.js: the query builder
    of listEvents and the caller-relative fields listEvents and getEvent add to
    each record. */
module Listing {
  import opened Wrappers
  import opened EventModel
  import opened Http

  /** The caller-relative view of a record: `isAttending` and `isOwner` are
      false without a caller, `attendeeCount` is the roster's length. */
  function Project(id: EventId, e: Event, viewer: Option<UserId>): (b: Body)
    ensures b.View? && b.id == id && b.event == e
    ensures b.isAttending <==> viewer.Some? && viewer.value in e.attendees
    ensures b.isOwner <==> viewer.Some? && viewer.value == e.createdBy
    ensures b.attendeeCount == |e.attendees|
  {
    View(id, e, viewer.Some? && viewer.value in e.attendees, viewer.Some? && viewer.value == e.createdBy,
         |e.attendees|)
  }

  /** The query string of GET /events. An empty `search` stands for a missing
      one; `from` and `to` are the instants the dates parse to, None when absent
      or empty; `future` is compared with the literal "false". */
  datatype Query = Query(search: string, from: Option<Time>, to: Option<Time>, future: string)

  /** `$gte` and `$lte` on `dateTime`. */
  datatype Bounds = Bounds(gte: Option<Time>, lte: Option<Time>)

  /** The filter document: a `$text` search and a `dateTime` range, each optional. */
  datatype Filters = Filters(text: Option<string>, dateTime: Option<Bounds>)

  /** Whether the date part of a filter admits an event at instant `t`. */
  predicate Admits(f: Filters, t: Time)
  {
    f.dateTime.None? ||
    ((f.dateTime.value.gte.None? || f.dateTime.value.gte.value <= t) &&
     (f.dateTime.value.lte.None? || t <= f.dateTime.value.lte.value))
  }

  /** buildFilters. A search adds a text filter and `to` is the upper bound;
      unless `future` is "false" the lower bound is `from`, or now without one,
      so no event before that bound is listed; with `future` "false" and
      neither date there is no date filter at all. */
  method BuildFilters(query: Query, now: Time) returns (filters: Filters)
    ensures filters.text == (if query.search != "" then Some(query.search) else None)
    ensures filters.dateTime.None? <==> query.from.None? && query.to.None? && query.future == "false"
    ensures filters.dateTime.Some? ==> filters.dateTime.value.lte == query.to
    ensures filters.dateTime.Some? ==>
      filters.dateTime.value.gte == (if query.from.Some? then query.from
                                     else if query.future != "false" then Some(now) else None)
    ensures query.future != "false" ==>
      forall t :: Admits(filters, t) ==> t >= (if query.from.Some? then query.from.value else now)
  {
    filters := Filters(None, None);
    if query.search != "" {
      filters := filters.(text := Some(query.search));
    }
    if query.from.Some? || query.to.Some? {
      var range := Bounds(None, None);
      if query.from.Some? {
        range := range.(gte := query.from);
      }
      if query.to.Some? {
        range := range.(lte := query.to);
      }
      filters := filters.(dateTime := Some(range));
    }
    if query.future != "false" {
      var range := if filters.dateTime.Some? then filters.dateTime.value else Bounds(None, None);
      if range.gte.None? {
        range := range.(gte := Some(now));
      }
      filters := filters.(dateTime := Some(range));
    }
  }
}
