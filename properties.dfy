/** Properties that relate several handler steps: concurrent joins against the
    last seats, join and cancel undoing each other, cancelling twice, a delete
    that lands between an rsvp's pre-check and its update, a cancel between
    an rsvp's update and its second read, the date check that the atomic
    join does not repeat, and the cancel that has no date check. */
module RegistryProperties {
  import opened Wrappers
  import opened EventModel
  import opened Http
  import opened Store
  import opened EventController

  /** The atomic parts of several rsvp requests for one event, committed in the
      order of `users`, with the response each gets. Each failed update is taken
      together with its second read, as `AttemptStep`. In a race of joins alone
      this loses nothing: no join frees a seat, so a read made after later joins
      still finds the record full. */
  function AttemptAll(db: Db, id: EventId, users: seq<UserId>): (res: (Db, seq<Response>))
    ensures |res.1| == |users|
    decreases |users|
  {
    if users == [] then (db, [])
    else
      var first := AttemptStep(db, id, users[0]);
      var rest := AttemptAll(first.0, id, users[1..]);
      (rest.0, [first.1] + rest.1)
  }

  function Min(a: int, b: int): int
  {
    if a <= b then a else b
  }

  /** Distinct users, none on the roster yet, race for the free seats of a
      record within its capacity: the first `m` to commit get 200, where `m` is the
      smaller of their number and the free seats; every later one gets 409; the
      roster ends as the old one followed by those `m` users, and the record is
      otherwise unchanged. So capacity N admits exactly N attendees. */
  lemma {:induction false} ConcurrentJoins(db: Db, id: EventId, users: seq<UserId>)
    requires id in db && |db[id].attendees| <= db[id].capacity
    requires NoDuplicates(users)
    requires forall i :: 0 <= i < |users| ==> users[i] !in db[id].attendees
    ensures 0 <= Admitted(db[id], users) <= |users|
    ensures AttemptAll(db, id, users).0 ==
      db[id := db[id].(attendees := db[id].attendees + users[..Admitted(db[id], users)])]
    ensures forall i :: 0 <= i < Admitted(db[id], users) ==> AttemptAll(db, id, users).1[i].status == 200
    ensures forall i :: Admitted(db[id], users) <= i < |users| ==>
      AttemptAll(db, id, users).1[i] == Fail(409, FullyBooked)
    decreases |users|
  {
    var e := db[id];
    if users == [] {
      assert e.(attendees := e.attendees + users[..0]) == e;
      assert db[id := e] == db;
    } else if |e.attendees| < e.capacity {
      JoinsAfterFirst(db, id, users);
    } else {
      FullRejectsAll(db, id, users);
      assert e.(attendees := e.attendees + users[..0]) == e;
      assert db[id := e] == db;
    }
  }

  /** How many of `users` a record with this roster and capacity takes. */
  function Admitted(e: Event, users: seq<UserId>): int
  {
    Min(|users|, e.capacity - |e.attendees|)
  }

  /** The inductive step of ConcurrentJoins: the first user takes a seat, and
      the rest race for the seats that remain. */
  lemma {:induction false} JoinsAfterFirst(db: Db, id: EventId, users: seq<UserId>)
    requires id in db && |db[id].attendees| < db[id].capacity && users != []
    requires NoDuplicates(users)
    requires forall i :: 0 <= i < |users| ==> users[i] !in db[id].attendees
    ensures AttemptAll(db, id, users).0 ==
      db[id := db[id].(attendees := db[id].attendees + users[..Admitted(db[id], users)])]
    ensures forall i :: 0 <= i < Admitted(db[id], users) ==> AttemptAll(db, id, users).1[i].status == 200
    ensures forall i :: Admitted(db[id], users) <= i < |users| ==>
      AttemptAll(db, id, users).1[i] == Fail(409, FullyBooked)
    decreases |users|, 0
  {
    var e := db[id];
    var first := AttemptStep(db, id, users[0]);
    var tail := users[1..];
    var joined := e.(attendees := e.attendees + [users[0]]);
    assert first.0 == db[id := joined] && first.1.status == 200;
    assert first.0[id] == joined;
    TailStillOutside(e.attendees, users);
    ConcurrentJoins(first.0, id, tail);
    var m := Admitted(e, users);
    assert Admitted(joined, tail) == m - 1;
    var rest := AttemptAll(first.0, id, tail);
    var all := AttemptAll(db, id, users);
    assert all == (rest.0, [first.1] + rest.1);
    assert all.0 == db[id := e.(attendees := e.attendees + users[..m])] by {
      RosterAfterFirst(e, users, m);
      assert first.0[id := joined.(attendees := joined.attendees + tail[..m - 1])]
          == db[id := e.(attendees := e.attendees + users[..m])];
    }
    assert forall i :: 0 <= i < m ==> all.1[i].status == 200 by {
      forall i | 0 <= i < m ensures all.1[i].status == 200 {
        if i > 0 {
          assert all.1[i] == rest.1[i - 1];
        }
      }
    }
    assert forall i :: m <= i < |users| ==> all.1[i] == Fail(409, FullyBooked) by {
      forall i | m <= i < |users| ensures all.1[i] == Fail(409, FullyBooked) {
        assert all.1[i] == rest.1[i - 1];
      }
    }
  }

  /** After the first of distinct users joins, the others are still distinct
      and still off the roster. */
  lemma TailStillOutside(roster: seq<UserId>, users: seq<UserId>)
    requires users != [] && NoDuplicates(users)
    requires forall i :: 0 <= i < |users| ==> users[i] !in roster
    ensures NoDuplicates(users[1..])
    ensures forall i :: 0 <= i < |users[1..]| ==> users[1..][i] !in roster + [users[0]]
  {
    var tail := users[1..];
    forall i, j | 0 <= i < j < |tail| ensures tail[i] != tail[j] {
      assert tail[i] == users[i + 1] && tail[j] == users[j + 1];
    }
    forall i | 0 <= i < |tail| ensures tail[i] !in roster + [users[0]] {
      assert tail[i] == users[i + 1];
    }
  }

  /** The first user appended, then the next `m - 1`, is the first `m` appended. */
  lemma RosterAfterFirst(e: Event, users: seq<UserId>, m: int)
    requires 1 <= m <= |users|
    ensures var joined := e.(attendees := e.attendees + [users[0]]);
      joined.(attendees := joined.attendees + users[1..][..m - 1]) == e.(attendees := e.attendees + users[..m])
  {
    assert users[..m] == [users[0]] + users[1..][..m - 1];
  }

  /** Once a record is full, every further join is refused with 409 and leaves
      the collection alone. */
  lemma {:induction false} FullRejectsAll(db: Db, id: EventId, users: seq<UserId>)
    requires id in db && |db[id].attendees| >= db[id].capacity
    requires forall i :: 0 <= i < |users| ==> users[i] !in db[id].attendees
    ensures AttemptAll(db, id, users).0 == db
    ensures forall i :: 0 <= i < |users| ==> AttemptAll(db, id, users).1[i] == Fail(409, FullyBooked)
    decreases |users|
  {
    if users != [] {
      assert AttemptStep(db, id, users[0]) == (db, Fail(409, FullyBooked));
      var tail := users[1..];
      assert forall i :: 0 <= i < |tail| ==> tail[i] !in db[id].attendees by {
        forall i | 0 <= i < |tail| ensures tail[i] !in db[id].attendees {
          assert tail[i] == users[i + 1];
        }
      }
      FullRejectsAll(db, id, tail);
    }
  }

  /** The roster of a consistent record never exceeds its capacity, whatever
      number of users race for it. */
  lemma ConcurrentJoinsBounded(db: Db, id: EventId, users: seq<UserId>)
    requires ValidDb(db) && id in db
    ensures var after := AttemptAll(db, id, users).0;
      ValidDb(after) && id in after && |after[id].attendees| <= after[id].capacity
    decreases |users|
  {
    if users != [] {
      ConcurrentJoinsBounded(AttemptStep(db, id, users[0]).0, id, users[1..]);
    }
  }

  /** Removing a user appended to a roster that did not hold them gives the
      roster back. */
  lemma {:induction false} PullAppended(s: seq<UserId>, u: UserId)
    requires u !in s
    ensures Pull(s + [u], u) == s
  {
    if s == [] {
      assert [u][1..] == [];
    } else {
      assert (s + [u])[1..] == s[1..] + [u];
      PullAppended(s[1..], u);
      assert [s[0]] + s[1..] == s;
    }
  }

  /** A successful join followed by the same user's cancel leaves the collection
      exactly as it was. */
  lemma JoinCancelRoundTrip(db: Db, id: EventId, user: UserId)
    requires ValidDb(db) && id in db && CanJoin(db[id], user)
    ensures var joined := AttemptStep(db, id, user);
      joined.1.status == 200 && CancelStep(joined.0, id, user) ==
        (db, Response(200, Listing.Project(id, db[id], Some(user))))
  {
    var e := db[id];
    PullAppended(e.attendees, user);
    assert e.(attendees := e.attendees + [user]).(attendees := e.attendees) == e;
    assert db[id := e.(attendees := e.attendees + [user])][id := e] == db;
  }

  /** Cancelling twice: the first call removes the user and answers 200, the
      second finds nothing to remove and answers 400 without a change. */
  lemma CancelTwice(db: Db, id: EventId, user: UserId)
    requires ValidDb(db) && id in db && user in db[id].attendees
    ensures var first := CancelStep(db, id, user);
      var second := CancelStep(first.0, id, user);
      && first.1.status == 200 && first.0 != db
      && second == (first.0, Fail(400, NotAttending))
  {
    var first := CancelStep(db, id, user);
    assert |first.0[id].attendees| == |db[id].attendees| - 1;
  }

  /** For the two attendance updates a 200 answer and a change of the
      collection go together: every refusal leaves it as it was, and every
      success changes it. */
  lemma OkIffChanged(db: Db, id: EventId, user: UserId)
    requires ValidDb(db)
    ensures AttemptStep(db, id, user).1.status == 200 <==> AttemptStep(db, id, user).0 != db
    ensures CancelStep(db, id, user).1.status == 200 <==> CancelStep(db, id, user).0 != db
  {
    if id in db && CanJoin(db[id], user) {
      var joined := AttemptStep(db, id, user).0;
      assert |joined[id].attendees| == |db[id].attendees| + 1;
    }
    if id in db && user in db[id].attendees {
      var left := CancelStep(db, id, user).0;
      assert |left[id].attendees| == |db[id].attendees| - 1;
    }
  }

  /** A delete that commits between an rsvp's pre-check and its conditional
      update: the update matches nothing, the re-read finds null, and the
      request ends with the error handler's 500. */
  lemma DeletedDuringRsvp(db: Db, id: EventId, user: UserId, now: Time)
    requires PreCheck(FindById(db, id), user, now).None?
    ensures var after := AttemptStep(db - {id}, id, user);
      after.0 == db - {id} && after.1 == NullRecordRead && after.1.status == 500
  {
  }

  /** A cancel that commits between a failed join and its second read: the
      join failed because the record was full, the cancel frees a seat, and the
      second read explains the failure as "Unable to RSVP". */
  lemma CancelBeforeReread(db: Db, id: EventId, leaving: UserId, joining: UserId)
    requires ValidDb(db) && id in db
    requires leaving in db[id].attendees && joining !in db[id].attendees
    requires |db[id].attendees| == db[id].capacity
    ensures JoinStep(db, id, joining) == (db, None)
    ensures var later := CancelStep(db, id, leaving).0;
      ClassifyJoinFailure(FindById(later, id), joining) == Fail(400, UnableToRsvp)
  {
    var later := CancelStep(db, id, leaving).0;
    assert |later[id].attendees| == |db[id].attendees| - 1;
  }

  /** The date is checked only before the atomic update: an event whose date
      has passed still takes a join whose pre-check ran while it was upcoming. */
  lemma JoinIgnoresDate(db: Db, id: EventId, user: UserId, earlier: Time, now: Time)
    requires ValidDb(db) && id in db && CanJoin(db[id], user)
    requires PreCheck(FindById(db, id), user, earlier).None? && db[id].dateTime < now
    ensures AttemptStep(db, id, user).1.status == 200
    ensures PreCheck(FindById(db, id), user, now) == Some(Fail(400, PastEvent))
  {
  }

  /** cancelRsvp has no date check at all: an attendee of an event whose date
      has passed can still leave it, and its roster shrinks. */
  lemma CancelIgnoresDate(db: Db, id: EventId, user: UserId, now: Time)
    requires ValidDb(db) && id in db && user in db[id].attendees && db[id].dateTime < now
    ensures CancelStep(db, id, user).1.status == 200
    ensures |CancelStep(db, id, user).0[id].attendees| == |db[id].attendees| - 1
  {
  }

  /** Two requests for the last seat both pass their pre-checks before either
      update commits; the first to commit is admitted and the second is told the
      event is full. */
  method LastSeatRace(registry: EventRegistry, id: EventId, a: UserId, b: UserId, now: Time)
    returns (first: Response, second: Response)
    requires registry.Valid() && id in registry.events && a != b
    requires var e := registry.events[id];
      a !in e.attendees && b !in e.attendees && e.dateTime >= now && |e.attendees| + 1 == e.capacity
    modifies registry
    ensures registry.Valid()
    ensures first.status == 200 && second == Fail(409, FullyBooked)
    ensures var e := old(registry.events[id]);
      registry.events == old(registry.events)[id := e.(attendees := e.attendees + [a])]
  {
    var seenByA := PreCheck(FindById(registry.events, id), a, now);
    var seenByB := PreCheck(FindById(registry.events, id), b, now);
    assert seenByA.None? && seenByB.None?;
    first := registry.RsvpAttempt(id, a);
    second := registry.RsvpAttempt(id, b);
  }

  /** Three users and two seats, one request after another: A and B are
      admitted and C is refused with 409. */
  method TwoSeatsThreeUsers(registry: EventRegistry, id: EventId, now: Time)
    returns (ra: Response, rb: Response, rc: Response)
    requires registry.Valid() && id in registry.events
    requires var e := registry.events[id]; e.attendees == [] && e.capacity == 2 && e.dateTime >= now
    modifies registry
    ensures registry.Valid()
    ensures ra.status == 200 && rb.status == 200 && rc == Fail(409, FullyBooked)
    ensures id in registry.events && registry.events[id].attendees == [1, 2]
    ensures registry.events[id].capacity == 2 && registry.events[id].dateTime >= now
  {
    ra := registry.Rsvp(id, 1, now);
    assert registry.events[id].attendees == [1];
    rb := registry.Rsvp(id, 2, now);
    assert registry.events[id].attendees == [1, 2];
    rc := registry.Rsvp(id, 3, now);
  }

  /** Continuing: once B cancels, C's retry is admitted. */
  method CancelFreesSeat(registry: EventRegistry, id: EventId, now: Time)
    returns (cancel: Response, retry: Response)
    requires registry.Valid() && id in registry.events
    requires var e := registry.events[id]; e.attendees == [1, 2] && e.capacity == 2 && e.dateTime >= now
    modifies registry
    ensures registry.Valid()
    ensures cancel.status == 200 && retry.status == 200
    ensures id in registry.events && registry.events[id].attendees == [1, 3]
  {
    cancel := registry.CancelRsvp(id, 2);
    assert registry.events[id].attendees == [1];
    retry := registry.Rsvp(id, 3, now);
  }

  /** With capacity 2 and attendees A and B, C's update fails; A's cancel
      commits before C's second read, which then finds a free seat and answers
      "Unable to RSVP". */
  method CancelBetweenJoinSteps(registry: EventRegistry, id: EventId)
    returns (join: Option<Response>, cancel: Response, explained: Response)
    requires registry.Valid() && id in registry.events
    requires var e := registry.events[id]; e.attendees == [1, 2] && e.capacity == 2
    modifies registry
    ensures registry.Valid()
    ensures join.None? && cancel.status == 200 && explained == Fail(400, UnableToRsvp)
    ensures id in registry.events && registry.events[id].attendees == [2]
  {
    join := registry.RsvpJoin(id, 3);
    cancel := registry.CancelRsvp(id, 1);
    assert registry.events[id].attendees == [2];
    explained := registry.ExplainJoinFailure(id, 3);
  }
}
