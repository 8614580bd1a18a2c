/** The handlers of server/controllers/eventController.js that change the
    Event collection (createEvent, updateEvent, deleteEvent, rsvpEvent,
    cancelRsvp) and getEvent. The caller's identity comes from authRequired or
    optionalAuth; the current instant and the result of an image upload are
    parameters. */
module EventController {
  import opened Wrappers
  import opened EventModel
  import opened Http
  import opened Store
  import Strings
  import ErrorHandler
  import Listing

  const EventNotFound := "Event not found"
  const PastEvent := "Cannot RSVP to past events"
  const AlreadyAttending := "You are already attending this event"
  const FullyBooked := "Event is fully booked. Please try again."
  const UnableToRsvp := "Unable to RSVP at this time. Please try again."
  const NotAttending := "You are not attending this event"
  const EditForbidden := "You can only edit your events"
  const DeleteForbidden := "You can only delete your events"
  const FieldsRequired := "All fields are required"
  const CapacityTooSmall := "Capacity must be at least 1"
  const InvalidDate := "Invalid date format"
  const DateInPast := "Event date must be in the future"
  const EventDeleted := "Event deleted"

  function BelowOccupancy(count: nat): string
  {
    "Cannot set capacity below current attendee count (" + Strings.Decimal(count) + ")"
  }

  /** What the error handler answers when Event.create or a validated update
      fails the schema. */
  const ValidationFailure: Response :=
    ErrorHandler.Handle(ErrorHandler.Error("ValidationError", "", "Event validation failed", None))

  /** What the error handler answers when the re-read record is gone and its
      `attendees` is read from null. */
  const NullRecordRead: Response :=
    ErrorHandler.Handle(ErrorHandler.Error("TypeError", "", "Cannot read properties of null (reading 'attendees')", None))

  /** A request body field as a string: absent, empty, unparsable by Number()
      or new Date(), or parsed. A present non-empty string is truthy. */
  datatype Field<T> = Missing | Blank | Unparsable | Parsed(value: T)

  predicate Truthy<T>(f: Field<T>)
  {
    f.Unparsable? || f.Parsed?
  }

  /** `isNaN(Number(capacity)) || Number(capacity) < 1` for a supplied field
      (Number("") is 0). */
  predicate CapacityInvalid(f: Field<int>)
  {
    f.Blank? || f.Unparsable? || (f.Parsed? && f.value < 1)
  }

  datatype CreateInput = CreateInput(
    title: string, description: string, dateTime: Field<Time>, location: string, capacity: Field<int>)

  datatype UpdateInput = UpdateInput(
    title: string, description: string, location: string, dateTime: Field<Time>, capacity: Field<int>)

  /** The outcome of storing an uploaded image: a Cloudinary URL and public id,
      or a file kept under /uploads when Cloudinary is not configured. */
  datatype Upload = Cloud(url: string, publicId: string) | Local(filename: string)

  function ImageUrlOf(upload: Option<Upload>): Option<string>
  {
    match upload
    case None => None
    case Some(Cloud(url, _)) => Some(url)
    case Some(Local(filename)) => Some("/uploads/" + filename)
  }

  function PublicIdOf(upload: Option<Upload>): Option<string>
  {
    match upload
    case Some(Cloud(_, publicId)) => Some(publicId)
    case _ => None
  }

  // ---------------------------------------------------------------- rsvpEvent

  /** The cheap checks rsvpEvent makes on its first read, in order: missing
      event, event strictly in the past, user already attending. It lets the
      request through exactly when none applies. */
  function PreCheck(snapshot: Option<Event>, user: UserId, now: Time): (rejection: Option<Response>)
    ensures snapshot.None? ==> rejection == Some(Fail(404, EventNotFound))
    ensures snapshot.Some? && snapshot.value.dateTime < now ==> rejection == Some(Fail(400, PastEvent))
    ensures snapshot.Some? && snapshot.value.dateTime >= now && user in snapshot.value.attendees ==>
      rejection == Some(Fail(400, AlreadyAttending))
    ensures rejection.None? <==>
      snapshot.Some? && snapshot.value.dateTime >= now && user !in snapshot.value.attendees
  {
    if snapshot.None? then Some(Fail(404, EventNotFound))
    else if snapshot.value.dateTime < now then Some(Fail(400, PastEvent))
    else if user in snapshot.value.attendees then Some(Fail(400, AlreadyAttending))
    else None
  }

  /** How rsvpEvent explains a conditional update that did not apply, from the
      record it reads again: already attending (400), else full (409), else a
      generic 400. Only a roster at or over capacity gets 409. A record deleted
      meanwhile makes the handler read from null, which ends as a 500. */
  function ClassifyJoinFailure(current: Option<Event>, user: UserId): (r: Response)
    ensures current.None? ==> r == NullRecordRead && r.status == 500
    ensures current.Some? && user in current.value.attendees ==> r == Fail(400, AlreadyAttending)
    ensures r.status == 409 <==>
      current.Some? && user !in current.value.attendees && |current.value.attendees| >= current.value.capacity
    ensures r.status == 409 ==> r == Fail(409, FullyBooked)
    ensures r == Fail(400, UnableToRsvp) <==>
      current.Some? && user !in current.value.attendees && |current.value.attendees| < current.value.capacity
  {
    if current.None? then NullRecordRead
    else if user in current.value.attendees then Fail(400, AlreadyAttending)
    else if |current.value.attendees| >= current.value.capacity then Fail(409, FullyBooked)
    else Fail(400, UnableToRsvp)
  }

  /** rsvpEvent's conditional update on its own. It applies exactly when the
      record exists, the user is absent and the roster is below capacity; the
      roster is then the old one plus the user, and the answer's fixed
      `isAttending: true` agrees with the projection getEvent would give.
      Otherwise nothing changes and there is no answer yet. */
  function JoinStep(db: Db, id: EventId, user: UserId): (res: (Db, Option<Response>))
    ensures ValidDb(db) ==> ValidDb(res.0)
    ensures res.1.Some? <==> id in db && CanJoin(db[id], user)
    ensures res.1.Some? ==>
      var joined := db[id].(attendees := db[id].attendees + [user]);
      res.0 == db[id := joined] && res.1.value == Response(200, Listing.Project(id, joined, Some(user)))
    ensures res.1.None? ==> res.0 == db
  {
    var step := JoinIfRoom(db, id, user);
    if step.1.Some? then
      var e := step.1.value;
      (step.0, Some(Response(200, View(id, e, true, e.createdBy == user, |e.attendees|))))
    else
      (db, None)
  }

  /** The conditional update followed by the second read with no write
      committed in between: the success answer, or the classification of the
      record the update did not apply to. */
  function AttemptStep(db: Db, id: EventId, user: UserId): (res: (Db, Response))
    ensures ValidDb(db) ==> ValidDb(res.0)
    ensures id in db && CanJoin(db[id], user) ==>
      var joined := db[id].(attendees := db[id].attendees + [user]);
      res.0 == db[id := joined] && res.1 == Response(200, Listing.Project(id, joined, Some(user)))
    ensures !(id in db && CanJoin(db[id], user)) ==>
      res.0 == db && res.1 == ClassifyJoinFailure(FindById(db, id), user)
  {
    var step := JoinStep(db, id, user);
    if step.1.Some? then (step.0, step.1.value)
    else (db, ClassifyJoinFailure(FindById(step.0, id), user))
  }

  /** "Unable to RSVP" needs a write between the two steps: read from the same
      collection the update failed on, the record is gone, lists the user or
      is full. Only a later collection that differs can give that answer. */
  lemma UnableToRsvpOnlyAfterWrite(db: Db, later: Db, id: EventId, user: UserId)
    requires JoinStep(db, id, user).1.None?
    requires ClassifyJoinFailure(FindById(later, id), user) == Fail(400, UnableToRsvp)
    ensures later != db
    ensures id in later && user !in later[id].attendees && |later[id].attendees| < later[id].capacity
  {
  }

  // --------------------------------------------------------------- cancelRsvp

  /** cancelRsvp: one conditional update. It applies exactly when the record
      exists and lists the user; the response then says `isAttending: false`,
      as the projection would, with one attendee fewer. Otherwise nothing
      changes and the answer is 400, for an unknown event too. */
  function CancelStep(db: Db, id: EventId, user: UserId): (res: (Db, Response))
    ensures ValidDb(db) ==> ValidDb(res.0)
    ensures id in db && user in db[id].attendees ==>
      var left := db[id].(attendees := Pull(db[id].attendees, user));
      res.0 == db[id := left] && res.1 == Response(200, Listing.Project(id, left, Some(user)))
    ensures ValidDb(db) && id in db && user in db[id].attendees ==>
      res.1.body.View? && res.1.body.attendeeCount == |db[id].attendees| - 1 && !res.1.body.isAttending
    ensures !(id in db && user in db[id].attendees) ==> res.0 == db && res.1 == Fail(400, NotAttending)
  {
    var step := PullIfAttending(db, id, user);
    if step.1.None? then
      (db, Fail(400, NotAttending))
    else
      var e := step.1.value;
      (step.0, Response(200, View(id, e, false, e.createdBy == user, |e.attendees|)))
  }

  // ------------------------------------------------------------ createEvent

  /** createEvent's first check: a falsy required field. */
  predicate MissingField(input: CreateInput)
  {
    input.title == "" || input.description == "" || !Truthy(input.dateTime) ||
    input.location == "" || !Truthy(input.capacity)
  }

  /** The record createEvent builds once its checks pass: trimmed text, the
      parsed date and capacity, the uploaded image, no attendees, and the
      requester as owner. */
  function NewEvent(input: CreateInput, requester: UserId, upload: Option<Upload>): (e: Event)
    requires input.dateTime.Parsed? && input.capacity.Parsed?
    ensures e.attendees == [] && e.createdBy == requester && Trimmed(e)
    ensures e.title == Strings.Trim(input.title) && e.description == Strings.Trim(input.description)
    ensures e.location == Strings.Trim(input.location)
    ensures e.dateTime == input.dateTime.value && e.capacity == input.capacity.value
  {
    Event(Strings.Trim(input.title), Strings.Trim(input.description), input.dateTime.value,
          Strings.Trim(input.location), input.capacity.value, ImageUrlOf(upload), PublicIdOf(upload),
          [], requester)
  }

  // ------------------------------------------------------------ updateEvent

  /** The schema's required validators on the text paths updateEvent supplies. */
  predicate TextValid(input: UpdateInput)
  {
    && (input.title != "" ==> Strings.Trim(input.title) != "")
    && (input.description != "" ==> Strings.Trim(input.description) != "")
    && (input.location != "" ==> Strings.Trim(input.location) != "")
  }

  /** Supplied fields take their new value, the others keep their old one; the
      roster and the owner are untouched. */
  predicate FieldsApplied(before: Event, input: UpdateInput, upload: Option<Upload>, after: Event)
  {
    && after.title == (if input.title != "" then Strings.Trim(input.title) else before.title)
    && after.description == (if input.description != "" then Strings.Trim(input.description) else before.description)
    && after.location == (if input.location != "" then Strings.Trim(input.location) else before.location)
    && after.dateTime == (if input.dateTime.Parsed? then input.dateTime.value else before.dateTime)
    && after.capacity == (if input.capacity.Parsed? then input.capacity.value else before.capacity)
    && after.imageUrl == (if upload.Some? then ImageUrlOf(upload) else before.imageUrl)
    && after.imagePublicId == (if upload.Some? && upload.value.Cloud? then PublicIdOf(upload) else before.imagePublicId)
    && after.attendees == before.attendees && after.createdBy == before.createdBy
  }

  /** The `updates` object holds exactly the supplied fields: trimmed text,
      the parsed date and capacity, and the uploaded image (a local file sets
      the URL alone). */
  predicate Collected(input: UpdateInput, upload: Option<Upload>, updates: Updates)
  {
    && updates.title == (if input.title != "" then Some(Strings.Trim(input.title)) else None)
    && updates.description == (if input.description != "" then Some(Strings.Trim(input.description)) else None)
    && updates.location == (if input.location != "" then Some(Strings.Trim(input.location)) else None)
    && updates.dateTime == (if input.dateTime.Parsed? then Some(input.dateTime.value) else None)
    && updates.capacity == (if input.capacity.Parsed? then Some(input.capacity.value) else None)
    && updates.imageUrl == ImageUrlOf(upload)
    && updates.imagePublicId == PublicIdOf(upload)
  }

  /** Writing the collected updates sets the supplied fields and keeps the rest. */
  lemma CollectedApplied(input: UpdateInput, upload: Option<Upload>, updates: Updates, before: Event)
    requires Collected(input, upload, updates)
    ensures FieldsApplied(before, input, upload, Merge(before, updates))
  {
    var after := Merge(before, updates);
    assert after.title == (if input.title != "" then Strings.Trim(input.title) else before.title) by {
      SuppliedText(input.title, updates.title);
    }
    assert after.description == (if input.description != "" then Strings.Trim(input.description) else before.description) by {
      SuppliedText(input.description, updates.description);
    }
    assert after.location == (if input.location != "" then Strings.Trim(input.location) else before.location) by {
      SuppliedText(input.location, updates.location);
    }
    assert after.imageUrl == (if upload.Some? then ImageUrlOf(upload) else before.imageUrl);
    assert after.imagePublicId == (if upload.Some? && upload.value.Cloud? then PublicIdOf(upload) else before.imagePublicId);
  }

  /** The validators accept the collected updates exactly when no supplied text
      trims to nothing and any new capacity is at least 1. */
  lemma CollectedValid(input: UpdateInput, upload: Option<Upload>, updates: Updates)
    requires Collected(input, upload, updates)
    ensures UpdateValid(updates) <==> TextValid(input) && (input.capacity.Parsed? ==> input.capacity.value >= 1)
  {
    SuppliedText(input.title, updates.title);
    SuppliedText(input.description, updates.description);
    SuppliedText(input.location, updates.location);
  }

  /** One text field: the stored value is the trimmed input, and the validator
      sees the same string the controller checked. */
  lemma SuppliedText(x: string, u: Option<string>)
    requires u == (if x != "" then Some(Strings.Trim(x)) else None)
    ensures u.Some? ==> Strings.Trim(u.value) == Strings.Trim(x)
    ensures (u.Some? ==> Strings.Trim(u.value) != "") <==> (x != "" ==> Strings.Trim(x) != "")
  {
    if u.Some? {
      Strings.TrimTwice(x);
    }
  }

  /** The part of updateEvent that builds the `updates` object field by field
      and checks the date and the capacity against the roster size `count` read
      before. A refusal comes in order: unparsable date, capacity not a number
      or below 1, capacity below `count`. Otherwise `updates` holds exactly the
      supplied fields. */
  method CollectUpdates(input: UpdateInput, upload: Option<Upload>, count: nat)
    returns (refusal: Option<Response>, updates: Updates)
    ensures input.dateTime.Unparsable? ==> refusal == Some(Fail(400, InvalidDate))
    ensures !input.dateTime.Unparsable? && CapacityInvalid(input.capacity) ==>
      refusal == Some(Fail(400, CapacityTooSmall))
    ensures !input.dateTime.Unparsable? && !CapacityInvalid(input.capacity) ==>
      input.capacity.Parsed? && input.capacity.value < count ==>
      refusal == Some(Fail(400, BelowOccupancy(count)))
    ensures refusal.None? <==>
      !input.dateTime.Unparsable? && !CapacityInvalid(input.capacity) &&
      !(input.capacity.Parsed? && input.capacity.value < count)
    ensures refusal.None? ==> Collected(input, upload, updates)
  {
    var title, description, location := None, None, None;
    var dateTime, capacity := None, None;
    var imageUrl, imagePublicId := None, None;
    if input.title != "" {
      title := Some(Strings.Trim(input.title));
    }
    if input.description != "" {
      description := Some(Strings.Trim(input.description));
    }
    if input.location != "" {
      location := Some(Strings.Trim(input.location));
    }
    if Truthy(input.dateTime) {
      if input.dateTime.Unparsable? {
        return Some(Fail(400, InvalidDate)), NoUpdates;
      }
      dateTime := Some(input.dateTime.value);
    }
    if !input.capacity.Missing? {
      if CapacityInvalid(input.capacity) {
        return Some(Fail(400, CapacityTooSmall)), NoUpdates;
      }
      if input.capacity.value < count {
        return Some(Fail(400, BelowOccupancy(count))), NoUpdates;
      }
      capacity := Some(input.capacity.value);
    }
    match upload {
      case Some(Cloud(url, publicId)) =>
        imageUrl, imagePublicId := Some(url), Some(publicId);
      case Some(Local(filename)) =>
        imageUrl := Some("/uploads/" + filename);
      case None =>
    }
    updates := Updates(title, description, location, dateTime, capacity, imageUrl, imagePublicId);
    refusal := None;
  }

  /** The collection of events with the handlers that change it. `nextId` stands
      for MongoDB's allocation of fresh ids. */
  class EventRegistry {
    var events: Db
    var nextId: EventId

    ghost predicate Valid()
      reads this
    {
      ValidDb(events) && forall id :: id in events ==> id < nextId
    }

    constructor ()
      ensures Valid() && events == map[]
    {
      events := map[];
      nextId := 0;
    }

    /** getEvent: 404 for an unknown id, otherwise the record with the
        caller-relative fields. */
    method GetEvent(id: EventId, viewer: Option<UserId>) returns (r: Response)
      ensures id !in events ==> r == Fail(404, EventNotFound)
      ensures id in events ==> r == Response(200, Listing.Project(id, events[id], viewer))
    {
      var event := FindById(events, id);
      if event.None? {
        return Fail(404, EventNotFound);
      }
      r := Response(200, Listing.Project(id, event.value, viewer));
    }

    /** createEvent: the checks in order (a missing field, a capacity that is not
        a number or below 1, an unparsable date, a date before now), then
        Event.create. A request that passes them gets a new record owned by the
        requester with no attendees and 201, unless its text trims to nothing,
        which the schema refuses. */
    method CreateEvent(input: CreateInput, requester: UserId, now: Time, upload: Option<Upload>)
      returns (r: Response)
      requires Valid()
      modifies this
      ensures Valid()
      ensures MissingField(input) ==> r == Fail(400, FieldsRequired) && events == old(events)
      ensures !MissingField(input) && CapacityInvalid(input.capacity) ==>
        r == Fail(400, CapacityTooSmall) && events == old(events)
      ensures !MissingField(input) && !CapacityInvalid(input.capacity) && input.dateTime.Unparsable? ==>
        r == Fail(400, InvalidDate) && events == old(events)
      ensures !MissingField(input) && !CapacityInvalid(input.capacity) && input.dateTime.Parsed? ==>
        input.dateTime.value < now ==> r == Fail(400, DateInPast) && events == old(events)
      ensures !MissingField(input) && !CapacityInvalid(input.capacity) && input.dateTime.Parsed? ==>
        input.dateTime.value >= now ==>
        var e := NewEvent(input, requester, upload);
        if SchemaValid(e) then
          r == Response(201, Record(old(nextId), e)) && events == old(events)[old(nextId) := e] &&
          nextId == old(nextId) + 1
        else
          r == ValidationFailure && events == old(events)
      ensures r.status != 201 ==> nextId == old(nextId)
    {
      if MissingField(input) {
        return Fail(400, FieldsRequired);
      }
      if CapacityInvalid(input.capacity) {
        return Fail(400, CapacityTooSmall);
      }
      if input.dateTime.Unparsable? {
        return Fail(400, InvalidDate);
      }
      if input.dateTime.value < now {
        return Fail(400, DateInPast);
      }
      r := Insert(NewEvent(input, requester, upload));
    }

    /** Event.create of a trimmed record without attendees under a fresh id. */
    method Insert(e: Event) returns (r: Response)
      requires Valid() && e.attendees == [] && Trimmed(e)
      modifies this
      ensures Valid()
      ensures SchemaValid(e) ==>
        r == Response(201, Record(old(nextId), e)) && events == old(events)[old(nextId) := e] &&
        nextId == old(nextId) + 1
      ensures !SchemaValid(e) ==> r == ValidationFailure && events == old(events) && nextId == old(nextId)
    {
      assert nextId !in events;
      InsertTrimmed(events, nextId, e);
      var created := InsertOne(events, nextId, e);
      if created.1.None? {
        return ValidationFailure;
      }
      events := created.0;
      r := Response(201, Record(nextId, e));
      nextId := nextId + 1;
    }

    /** updateEvent: 404, then 403 for anyone but the owner, then an unparsable
        date, a capacity that is not a number or below 1, and a capacity below
        the current roster are refused with 400 (a capacity equal to it is
        accepted). Otherwise supplied fields are written and the others left
        alone; text that trims to nothing is refused by the schema. */
    method UpdateEvent(id: EventId, requester: UserId, input: UpdateInput, upload: Option<Upload>)
      returns (r: Response)
      requires Valid()
      modifies this
      ensures Valid() && nextId == old(nextId)
      ensures id !in old(events) ==> r == Fail(404, EventNotFound) && events == old(events)
      ensures id in old(events) && old(events)[id].createdBy != requester ==>
        r == Fail(403, EditForbidden) && events == old(events)
      ensures id in old(events) && old(events)[id].createdBy == requester ==>
        var before := old(events)[id];
        if input.dateTime.Unparsable? then
          r == Fail(400, InvalidDate) && events == old(events)
        else if CapacityInvalid(input.capacity) then
          r == Fail(400, CapacityTooSmall) && events == old(events)
        else if input.capacity.Parsed? && input.capacity.value < |before.attendees| then
          r == Fail(400, BelowOccupancy(|before.attendees|)) && events == old(events)
        else if !TextValid(input) then
          r == ValidationFailure && events == old(events)
        else
          id in events && events == old(events)[id := events[id]] &&
          r == Response(200, Record(id, events[id])) && FieldsApplied(before, input, upload, events[id])
    {
      var event := FindById(events, id);
      if event.None? {
        return Fail(404, EventNotFound);
      }
      if event.value.createdBy != requester {
        return Fail(403, EditForbidden);
      }
      var refusal, updates := CollectUpdates(input, upload, |event.value.attendees|);
      if refusal.Some? {
        return refusal.value;
      }
      CollectedApplied(input, upload, updates, event.value);
      CollectedValid(input, upload, updates);
      r := WriteUpdates(id, updates);
    }

    /** updateEvent's findByIdAndUpdate, filtered on the id alone, issued with a
        capacity the record can hold; there it agrees with the guarded write, so
        the supplied paths are written, or the schema refuses them. The
        `{ event: null }` answer for a record that no longer matches is kept,
        although run without interruption it cannot arise. */
    method WriteUpdates(id: EventId, updates: Updates) returns (r: Response)
      requires Valid() && id in events && RoomFor(events[id], updates)
      modifies this
      ensures Valid() && nextId == old(nextId)
      ensures UpdateValid(updates) ==>
        events == old(events)[id := Merge(old(events)[id], updates)] &&
        r == Response(200, Record(id, Merge(old(events)[id], updates)))
      ensures !UpdateValid(updates) ==> r == ValidationFailure && events == old(events)
    {
      AsWrittenAgreesOnFreshRead(events, id, updates);
      var written := SetFieldsAsWritten(events, id, updates);
      events := written.0;
      if written.1.Updated? {
        r := Response(200, Record(id, written.1.event));
      } else {
        r := if written.1.Rejected? then ValidationFailure else Response(200, NullRecord);
      }
    }

    /** deleteEvent: 404, then 403 for anyone but the owner; the owner's request
        removes the record, and its roster with it. */
    method DeleteEvent(id: EventId, requester: UserId) returns (r: Response)
      requires Valid()
      modifies this
      ensures Valid() && nextId == old(nextId)
      ensures id !in old(events) ==> r == Fail(404, EventNotFound) && events == old(events)
      ensures id in old(events) && old(events)[id].createdBy != requester ==>
        r == Fail(403, DeleteForbidden) && events == old(events)
      ensures id in old(events) && old(events)[id].createdBy == requester ==>
        r == Response(200, Message(EventDeleted)) && events == old(events) - {id} && id !in events
    {
      var event := FindById(events, id);
      if event.None? {
        return Fail(404, EventNotFound);
      }
      if event.value.createdBy != requester {
        return Fail(403, DeleteForbidden);
      }
      events := events - {id};
      r := Response(200, Message(EventDeleted));
    }

    /** The part of rsvpEvent after its pre-checks, run without interruption:
        the conditional update, then, if it did not apply, the second read. */
    method RsvpAttempt(id: EventId, user: UserId) returns (r: Response)
      requires Valid()
      modifies this
      ensures Valid() && nextId == old(nextId)
      ensures (events, r) == AttemptStep(old(events), id, user)
    {
      var answer := RsvpJoin(id, user);
      if answer.None? {
        r := ExplainJoinFailure(id, user);
        return;
      }
      r := answer.value;
    }

    /** rsvpEvent's conditional findOneAndUpdate, one atomic step. */
    method RsvpJoin(id: EventId, user: UserId) returns (answer: Option<Response>)
      requires Valid()
      modifies this
      ensures Valid() && nextId == old(nextId)
      ensures (events, answer) == JoinStep(old(events), id, user)
    {
      var step := JoinIfRoom(events, id, user);
      events := step.0;
      if step.1.None? {
        return None;
      }
      var e := step.1.value;
      answer := Some(Response(200, View(id, e, true, e.createdBy == user, |e.attendees|)));
    }

    /** rsvpEvent's second read after a failed update, against the collection as
        it is when the read runs, which other requests may have changed. */
    method ExplainJoinFailure(id: EventId, user: UserId) returns (r: Response)
      ensures r == ClassifyJoinFailure(FindById(events, id), user)
      ensures r == Fail(400, UnableToRsvp) <==>
        id in events && user !in events[id].attendees && |events[id].attendees| < events[id].capacity
    {
      var current := FindById(events, id);
      r := ClassifyJoinFailure(current, user);
    }

    /** rsvpEvent run without interruption. A missing event gives 404, a past
        one 400, an attendee 400, a full roster 409, each leaving the collection
        as it was; otherwise the user is appended to the roster. */
    method Rsvp(id: EventId, user: UserId, now: Time) returns (r: Response)
      requires Valid()
      modifies this
      ensures Valid() && nextId == old(nextId)
      ensures id !in old(events) ==> r == Fail(404, EventNotFound) && events == old(events)
      ensures id in old(events) ==>
        var e := old(events)[id];
        if e.dateTime < now then
          r == Fail(400, PastEvent) && events == old(events)
        else if user in e.attendees then
          r == Fail(400, AlreadyAttending) && events == old(events)
        else if |e.attendees| < e.capacity then
          var joined := e.(attendees := e.attendees + [user]);
          events == old(events)[id := joined] && r == Response(200, Listing.Project(id, joined, Some(user)))
        else
          r == Fail(409, FullyBooked) && events == old(events)
    {
      var snapshot := FindById(events, id);
      var rejection := PreCheck(snapshot, user, now);
      if rejection.Some? {
        return rejection.value;
      }
      r := RsvpAttempt(id, user);
    }

    /** cancelRsvp. */
    method CancelRsvp(id: EventId, user: UserId) returns (r: Response)
      requires Valid()
      modifies this
      ensures Valid() && nextId == old(nextId)
      ensures (events, r) == CancelStep(old(events), id, user)
    {
      var step := PullIfAttending(events, id, user);
      if step.1.None? {
        return Fail(400, NotAttending);
      }
      events := step.0;
      var e := step.1.value;
      r := Response(200, View(id, e, false, e.createdBy == user, |e.attendees|));
    }
  }
}
