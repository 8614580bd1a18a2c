/** The Event record of server/models/Event.js: its paths, the schema's trim
    setters and its validators, and the consistency every stored record keeps. */
module EventModel {
  import opened Wrappers
  import Strings

  type UserId = nat
  type EventId = nat
  /** An instant, in milliseconds; the source compares Date objects by this value. */
  type Time = int

  datatype Event = Event(
    title: string,
    description: string,
    dateTime: Time,
    location: string,
    capacity: int,
    imageUrl: Option<string>,
    imagePublicId: Option<string>,
    attendees: seq<UserId>,
    createdBy: UserId)

  /** The three text paths are declared with `trim: true`. */
  predicate Trimmed(e: Event)
  {
    Strings.IsTrimmed(e.title) && Strings.IsTrimmed(e.description) && Strings.IsTrimmed(e.location)
  }

  /** The schema's setters, applied whenever a record is written. They trim the
      text paths, touch nothing else, and change nothing in a trimmed record. */
  function Normalize(e: Event): (n: Event)
    ensures n.title == Strings.Trim(e.title) && n.description == Strings.Trim(e.description)
    ensures n.location == Strings.Trim(e.location)
    ensures Trimmed(n)
    ensures Trimmed(e) ==> n == e
    ensures n.dateTime == e.dateTime && n.capacity == e.capacity && n.imageUrl == e.imageUrl
    ensures n.imagePublicId == e.imagePublicId && n.attendees == e.attendees && n.createdBy == e.createdBy
  {
    e.(title := Strings.Trim(e.title), description := Strings.Trim(e.description),
       location := Strings.Trim(e.location))
  }

  /** The schema's validators: the required text paths must be non-empty and
      `capacity` has minimum 1. `dateTime` and `createdBy` are required too; the
      model's types make them always present. */
  predicate SchemaValid(e: Event)
  {
    e.title != "" && e.description != "" && e.location != "" && e.capacity >= 1
  }

  predicate NoDuplicates(s: seq<UserId>)
  {
    forall i, j :: 0 <= i < j < |s| ==> s[i] != s[j]
  }

  /** What every stored record satisfies: it passes the schema, its text is
      trimmed, nobody attends twice, and occupancy is within capacity. */
  predicate ValidEvent(e: Event)
  {
    SchemaValid(e) && Trimmed(e) && NoDuplicates(e.attendees) && |e.attendees| <= e.capacity
  }
}
