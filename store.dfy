/** The Event collection as the controller uses it: each MongoDB call the
    handlers issue (findById, the two conditional findOneAndUpdate calls,
    Event.create, findByIdAndUpdate, deleteOne) is one atomic step on a map from
    id to record. Any interleaving of concurrent requests is a sequence of these
    steps. */
module Store {
  import opened Wrappers
  import opened EventModel
  import Strings

  type Db = map<EventId, Event>

  predicate ValidDb(db: Db)
  {
    forall id :: id in db ==> ValidEvent(db[id])
  }

  /** findById. */
  function FindById(db: Db, id: EventId): (found: Option<Event>)
    ensures found.Some? <==> id in db
    ensures found.Some? ==> found.value == db[id]
  {
    if id in db then Some(db[id]) else None
  }

  /** The `$addToSet` update: the user is in the list afterwards, the list gains
      no other member, and it stays free of duplicates. */
  function AddToSet(s: seq<UserId>, u: UserId): (r: seq<UserId>)
    ensures forall x :: x in r <==> x in s || x == u
    ensures u in s ==> r == s
    ensures u !in s ==> r == s + [u]
    ensures NoDuplicates(s) ==> NoDuplicates(r)
  {
    if u in s then s else s + [u]
  }

  /** The `$pull` update: every occurrence of the user goes, every other member
      stays; on a list without duplicates that holds the user, exactly one
      element goes. */
  function Pull(s: seq<UserId>, u: UserId): (r: seq<UserId>)
    ensures u !in r
    ensures forall x :: x != u ==> (x in r <==> x in s)
    ensures u !in s ==> r == s
    ensures NoDuplicates(s) ==> NoDuplicates(r)
    ensures NoDuplicates(s) && u in s ==> |r| == |s| - 1
  {
    if s == [] then []
    else if s[0] == u then Pull(s[1..], u)
    else
      var tail := Pull(s[1..], u);
      assert NoDuplicates(s) ==> s[0] !in s[1..] && NoDuplicates(s[1..]) by {
        if NoDuplicates(s) {
          forall k | 0 <= k < |s[1..]| ensures s[1..][k] != s[0] {
            assert s[1..][k] == s[k + 1];
          }
        }
      }
      assert NoDuplicates(s) ==> NoDuplicates([s[0]] + tail) by {
        if NoDuplicates(s) {
          forall i, j | 0 <= i < j < |[s[0]] + tail| ensures ([s[0]] + tail)[i] != ([s[0]] + tail)[j] {
            if i == 0 {
              assert ([s[0]] + tail)[j] == tail[j - 1];
            }
          }
        }
      }
      [s[0]] + tail
  }

  /** The filter of rsvpEvent's conditional update: the user is not attending and
      the roster is strictly below capacity. The event's date is not part of it. */
  predicate CanJoin(e: Event, u: UserId)
  {
    u !in e.attendees && |e.attendees| < e.capacity
  }

  /** rsvpEvent's findOneAndUpdate: applies exactly when the record exists and
      the filter holds, then appends the user once; otherwise nothing changes. A
      consistent collection stays consistent. */
  function JoinIfRoom(db: Db, id: EventId, u: UserId): (res: (Db, Option<Event>))
    ensures res.1.Some? <==> id in db && CanJoin(db[id], u)
    ensures res.1.Some? ==>
      res.1.value == db[id].(attendees := db[id].attendees + [u]) && res.0 == db[id := res.1.value]
    ensures res.1.None? ==> res.0 == db
    ensures ValidDb(db) ==> ValidDb(res.0)
  {
    if id in db && CanJoin(db[id], u) then
      var e := db[id].(attendees := AddToSet(db[id].attendees, u));
      (db[id := e], Some(e))
    else
      (db, None)
  }

  /** cancelRsvp's findOneAndUpdate: applies exactly when the record exists and
      lists the user, then removes the user; otherwise nothing changes. On a
      consistent collection the roster shrinks by exactly one. */
  function PullIfAttending(db: Db, id: EventId, u: UserId): (res: (Db, Option<Event>))
    ensures res.1.Some? <==> id in db && u in db[id].attendees
    ensures res.1.Some? ==>
      res.1.value == db[id].(attendees := Pull(db[id].attendees, u)) && res.0 == db[id := res.1.value]
    ensures res.1.None? ==> res.0 == db
    ensures ValidDb(db) ==> ValidDb(res.0)
    ensures ValidDb(db) && res.1.Some? ==>
      |res.1.value.attendees| == |db[id].attendees| - 1 && u !in res.1.value.attendees
  {
    if id in db && u in db[id].attendees then
      var e := db[id].(attendees := Pull(db[id].attendees, u));
      (db[id := e], Some(e))
    else
      (db, None)
  }

  /** Event.create: the setters run, then the validators; a record that fails
      them, or an id already taken, is refused and nothing changes. A new record
      with no attendees keeps the collection consistent. */
  function InsertOne(db: Db, id: EventId, e: Event): (res: (Db, Option<Event>))
    ensures res.1.Some? <==> id !in db && SchemaValid(Normalize(e))
    ensures res.1.Some? ==> res.1.value == Normalize(e) && res.0 == db[id := Normalize(e)]
    ensures res.1.None? ==> res.0 == db
    ensures ValidDb(db) && e.attendees == [] ==> ValidDb(res.0)
  {
    var n := Normalize(e);
    if id !in db && SchemaValid(n) then (db[id := n], Some(n)) else (db, None)
  }

  /** Creating a trimmed record with no attendees under a free id: the setters
      change nothing, so the record is stored as given exactly when the
      validators accept it, and the collection stays consistent. */
  lemma InsertTrimmed(db: Db, id: EventId, e: Event)
    requires ValidDb(db) && id !in db && e.attendees == [] && Trimmed(e)
    ensures InsertOne(db, id, e) == if SchemaValid(e) then (db[id := e], Some(e)) else (db, None)
    ensures ValidDb(InsertOne(db, id, e).0)
  {
    assert Normalize(e) == e;
  }

  /** The `$set` paths of updateEvent's findByIdAndUpdate; None leaves a path alone. */
  datatype Updates = Updates(
    title: Option<string>,
    description: Option<string>,
    location: Option<string>,
    dateTime: Option<Time>,
    capacity: Option<int>,
    imageUrl: Option<string>,
    imagePublicId: Option<string>)

  const NoUpdates := Updates(None, None, None, None, None, None, None)

  function Pick<T>(o: Option<T>, current: T): T
  {
    if o.Some? then o.value else current
  }

  /** The record after `$set`, with the trim setter applied to the supplied text
      paths: supplied paths take the new value, every other path keeps its own,
      and the roster and the owner never change. */
  function Merge(e: Event, upd: Updates): (n: Event)
    ensures n.attendees == e.attendees && n.createdBy == e.createdBy
    ensures n.title == (if upd.title.Some? then Strings.Trim(upd.title.value) else e.title)
    ensures n.description == (if upd.description.Some? then Strings.Trim(upd.description.value) else e.description)
    ensures n.location == (if upd.location.Some? then Strings.Trim(upd.location.value) else e.location)
    ensures n.dateTime == Pick(upd.dateTime, e.dateTime) && n.capacity == Pick(upd.capacity, e.capacity)
    ensures n.imageUrl == (if upd.imageUrl.Some? then upd.imageUrl else e.imageUrl)
    ensures n.imagePublicId == (if upd.imagePublicId.Some? then upd.imagePublicId else e.imagePublicId)
  {
    e.(title := if upd.title.Some? then Strings.Trim(upd.title.value) else e.title,
       description := if upd.description.Some? then Strings.Trim(upd.description.value) else e.description,
       location := if upd.location.Some? then Strings.Trim(upd.location.value) else e.location,
       dateTime := Pick(upd.dateTime, e.dateTime),
       capacity := Pick(upd.capacity, e.capacity),
       imageUrl := if upd.imageUrl.Some? then upd.imageUrl else e.imageUrl,
       imagePublicId := if upd.imagePublicId.Some? then upd.imagePublicId else e.imagePublicId)
  }

  /** With `runValidators`, the validators run on the updated paths only. */
  predicate UpdateValid(upd: Updates)
  {
    && (upd.title.Some? ==> Strings.Trim(upd.title.value) != "")
    && (upd.description.Some? ==> Strings.Trim(upd.description.value) != "")
    && (upd.location.Some? ==> Strings.Trim(upd.location.value) != "")
    && (upd.capacity.Some? ==> upd.capacity.value >= 1)
  }

  datatype UpdateResult = Updated(event: Event) | NoMatch | Rejected

  /** findByIdAndUpdate as updateEvent issues it: the filter is the id alone, so
      the new capacity is compared with nothing in the record being written.
      With `runValidators` the update document is validated before the query is
      sent, so a refused update is refused whether or not the record exists. */
  function SetFieldsAsWritten(db: Db, id: EventId, upd: Updates): (res: (Db, UpdateResult))
    ensures !UpdateValid(upd) ==> res == (db, Rejected)
    ensures UpdateValid(upd) && id !in db ==> res == (db, NoMatch)
    ensures UpdateValid(upd) && id in db ==> res == (db[id := Merge(db[id], upd)], Updated(Merge(db[id], upd)))
  {
    if !UpdateValid(upd) then (db, Rejected)
    else if id !in db then (db, NoMatch)
    else (db[id := Merge(db[id], upd)], Updated(Merge(db[id], upd)))
  }

  /** The occupancy comparison updateEvent makes on its earlier read, here part
      of the atomic filter. */
  predicate RoomFor(e: Event, upd: Updates)
  {
    upd.capacity.None? || |e.attendees| <= upd.capacity.value
  }

  /** findByIdAndUpdate with the capacity guard in its filter. The validators
      run first, as for the write as issued; then it writes exactly when the
      record exists and the new capacity still covers its roster. A consistent
      collection stays consistent whatever the update. */
  function SetFields(db: Db, id: EventId, upd: Updates): (res: (Db, UpdateResult))
    ensures res.1.Rejected? <==> !UpdateValid(upd)
    ensures res.1.NoMatch? <==> UpdateValid(upd) && (id !in db || !RoomFor(db[id], upd))
    ensures res.1.Updated? ==> res.1.event == Merge(db[id], upd) && res.0 == db[id := res.1.event]
    ensures !res.1.Updated? ==> res.0 == db
    ensures ValidDb(db) ==> ValidDb(res.0)
  {
    if !UpdateValid(upd) then (db, Rejected)
    else if id !in db || !RoomFor(db[id], upd) then (db, NoMatch)
    else (db[id := Merge(db[id], upd)], Updated(Merge(db[id], upd)))
  }

  /** When the record still holds the roster updateEvent compared the capacity
      with, the write as issued and the guarded write agree. They differ only
      after a join commits in between. */
  lemma AsWrittenAgreesOnFreshRead(db: Db, id: EventId, upd: Updates)
    requires id in db && RoomFor(db[id], upd)
    ensures SetFieldsAsWritten(db, id, upd) == SetFields(db, id, upd)
  {
  }

  /** One write against the collection. The update write is the guarded
      SetFields; the one updateEvent issues is SetFieldsAsWritten, for which
      only runs without it keep the invariant. */
  datatype Write =
    | AddAttendee(id: EventId, user: UserId)
    | PullAttendee(id: EventId, user: UserId)
    | Insert(id: EventId, event: Event)
    | SetPaths(id: EventId, updates: Updates)
    | DeleteOne(id: EventId)

  function Apply(db: Db, w: Write): Db
  {
    match w
    case AddAttendee(id, u) => JoinIfRoom(db, id, u).0
    case PullAttendee(id, u) => PullIfAttending(db, id, u).0
    case Insert(id, e) => InsertOne(db, id, e).0
    case SetPaths(id, upd) => SetFields(db, id, upd).0
    case DeleteOne(id) => db - {id}
  }

  /** The collection after a sequence of writes, in commit order. */
  function Run(db: Db, ws: seq<Write>): Db
    decreases |ws|
  {
    if ws == [] then db else Run(Apply(db, ws[0]), ws[1..])
  }

  /** The writes the handlers issue create records with no attendees. */
  predicate HandlerIssued(w: Write)
  {
    w.Insert? ==> w.event.attendees == []
  }

  /** Any sequence of joins, cancels, creates, deletes and guarded updates, in
      any interleaving, keeps every record consistent: occupancy within
      capacity, no duplicate attendee, capacity at least 1, required text
      present and trimmed. */
  lemma {:induction false} RunPreservesValid(db: Db, ws: seq<Write>)
    requires ValidDb(db)
    requires forall i :: 0 <= i < |ws| ==> HandlerIssued(ws[i])
    ensures ValidDb(Run(db, ws))
    decreases |ws|
  {
    if ws != [] {
      var next := Apply(db, ws[0]);
      assert ValidDb(next) by {
        match ws[0]
        case AddAttendee(id, u) =>
        case PullAttendee(id, u) =>
        case Insert(id, e) =>
        case SetPaths(id, upd) =>
        case DeleteOne(id) =>
      }
      assert forall i :: 0 <= i < |ws[1..]| ==> HandlerIssued(ws[1..][i]) by {
        forall i | 0 <= i < |ws[1..]| ensures HandlerIssued(ws[1..][i]) {
          assert ws[1..][i] == ws[i + 1];
        }
      }
      RunPreservesValid(next, ws[1..]);
    }
  }

  /** updateEvent reads a record with three attendees and capacity 5 and accepts
      capacity 3, since 3 is not below 3. Before its write commits, a fourth user's
      rsvp commits (3 < 5). The unguarded write then leaves four attendees under
      capacity 3; the guarded one refuses to write. */
  lemma StaleCapacityCheckOverbooks()
    ensures var e := Event("Meetup", "Talks", 100, "Hall", 5, None, None, [1, 2, 3], 7);
      var db := map[0 := e];
      var upd := NoUpdates.(capacity := Some(3));
      var raced := JoinIfRoom(db, 0, 4).0;
      && ValidDb(db) && RoomFor(e, upd)
      && ValidDb(raced)
      && !ValidDb(SetFieldsAsWritten(raced, 0, upd).0)
      && SetFields(raced, 0, upd) == (raced, NoMatch)
  {
    var e := Event("Meetup", "Talks", 100, "Hall", 5, None, None, [1, 2, 3], 7);
    var db := map[0 := e];
    var upd := NoUpdates.(capacity := Some(3));
    assert ValidEvent(e);
    var raced := JoinIfRoom(db, 0, 4).0;
    assert raced[0].attendees == [1, 2, 3, 4];
    var after := SetFieldsAsWritten(raced, 0, upd).0;
    assert |after[0].attendees| == 4 && after[0].capacity == 3;
  }
}
