/** The JSON responses the handlers send: a status code and one of the body
    shapes the server produces. */
module Http {
  import opened EventModel

  datatype Body =
    | Message(text: string)
      // `{ event }` with the stored record
    | Record(id: EventId, event: Event)
      // `{ event: null }`
    | NullRecord
      // a record with the caller-relative fields `isAttending`, `isOwner`, `attendeeCount`
    | View(id: EventId, event: Event, isAttending: bool, isOwner: bool, attendeeCount: nat)

  datatype Response = Response(status: int, body: Body)

  function Fail(status: int, text: string): Response
  {
    Response(status, Message(text))
  }
}
