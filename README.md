# EventHub attendance registry, modelled in Dafny

EventHub is an Express and MongoDB service. Users publish events with a
capacity, and other users RSVP to them. This project models the part of the
server that keeps the roster of each event consistent:

- the `Event` record and its schema (trim setters; required and minimum
  validators);
- the handlers of `server/controllers/eventController.js` that read and change
  the collection: `createEvent`, `updateEvent`, `deleteEvent`, `rsvpEvent`,
  `cancelRsvp`, `getEvent`;
- the listing query builder `buildFilters`, and the caller-relative
  `isAttending` / `isOwner` / `attendeeCount` fields;
- bearer-token parsing and the two authentication middlewares;
- the fallback route and the error-to-status mapping.

Each MongoDB call a handler makes (`findById`, the conditional
`findOneAndUpdate` calls, `Event.create`, `findByIdAndUpdate`, `deleteOne`) is
one atomic step on a map from event id to record (module `Store`). Concurrent
requests interleave between those steps, so `rsvpEvent`'s conditional update
and the second read that explains its failure are two steps
(`EventController.JoinStep`, then the read in
`EventController.EventRegistry.ExplainJoinFailure`), and another request's
write may commit between them. A run of any number of requests is then a
sequence of writes. `Store.RunPreservesValid` proves that every record stays
consistent along any such sequence of joins, cancels, creates, deletes and
updates, where the update write is the guarded `Store.SetFields`. For the
update as written (`Store.SetFieldsAsWritten`) the invariant holds only along
runs without it, and `Store.StaleCapacityCheckOverbooks` shows why (see
"## Findings"). The invariant is:

- occupancy within capacity;
- no user listed twice;
- capacity at least 1;
- the required text present and trimmed.

The handlers are methods of the class `EventController.EventRegistry`. Each
one is specified against the pure atomic steps. The current instant, the
outcome of an image upload and `jwt.verify` are parameters.

Modules, one per file: `Wrappers` (Option), `Strings` (the JavaScript string
operations used: `trim`, `split`, `toLowerCase`, number rendering),
`EventModel` (server/models/Event.js), `Http` (responses), `ErrorHandler`,
`Auth`, `Listing`, `Store`, `EventController` and `RegistryProperties`.

Not every outcome has its own status code: `rsvpEvent` answers 400 for a past
event, for a user who already attends and for an update that applied to no
record. Those outcomes differ in their message. The model keeps every message
as the code writes it. `RegistryProperties.OkIffChanged` proves that for the
two attendance updates a 200 goes together with a change of the collection.

Neither attendance update looks at the event's date once its pre-checks have
run: `RegistryProperties.JoinIgnoresDate` shows a join the atomic update still
takes after the date has passed, and `RegistryProperties.CancelIgnoresDate`
shows that `cancelRsvp`, which has no date check at all, lets an attendee
leave a past event.

## Model

| member | source | states |
|---|---|---|
| `EventModel.Normalize` | server/models/Event.js:5-8 | the `trim: true` setters replace title, description and location by their trimmed values, touch no other path, and leave a trimmed record as it is |
| `EventModel.SchemaValid` | server/models/Event.js:5-13 | the `required` validators on the text paths (which refuse an empty string), and `min: 1` on capacity; the date and owner are always present in a record |
| `EventModel.ValidEvent` | server/models/Event.js:3-16 | the invariant of a stored record: the schema accepts it, its text is trimmed, no attendee is listed twice and the roster fits the capacity |
| `Strings.Trim` | server/controllers/eventController.js:127-130 | `String.prototype.trim`: the result has no leading or trailing JavaScript white space, is no longer than the input, is the input when that is already trimmed, and is empty exactly when every character is white space |
| `Strings.TrimStrips` | server/controllers/eventController.js:127-130 | the trimmed value is a contiguous slice of the input with only white space before and after it |
| `Strings.TrimTwice` | server/controllers/eventController.js:156-158 | trimming a value the controller already trimmed (the schema's setter on `findByIdAndUpdate`) changes nothing |
| `Strings.Split` | server/middleware/auth.js:4 | `split(' ')` yields at least one piece and no piece contains the separator |
| `Strings.JoinSplit` | server/middleware/auth.js:4 | joining the pieces of `split` with the separator gives the header back, so splitting loses nothing |
| `Strings.Lower` | server/middleware/auth.js:5 | `toLowerCase` keeps the length and lower-cases each ASCII letter in place |
| `Strings.Decimal` | server/controllers/eventController.js:178 | the attendee count in the capacity message is rendered as a non-empty string of decimal digits, "0" exactly for zero and otherwise without a leading zero |
| `Strings.DecimalRoundTrip` | server/controllers/eventController.js:178 | reading the rendered count back gives the count |
| `Store.FindById` | server/controllers/eventController.js:242-245 | `findById` finds a record exactly when the id is in the collection, and returns that record |
| `Store.AddToSet` | server/controllers/eventController.js:265 | `$addToSet` adds the user only if absent, adds no one else, and keeps the list free of duplicates |
| `Store.Pull` | server/controllers/eventController.js:304 | `$pull` removes every occurrence of the user and keeps everyone else; on a duplicate-free list that holds the user the length drops by exactly one |
| `Store.CanJoin` | server/controllers/eventController.js:260-264 | the filter of rsvpEvent's conditional update: the user is not on the roster and the roster is strictly below capacity, with no test of the date |
| `Store.JoinIfRoom` | server/controllers/eventController.js:259-267 | the conditional join applies exactly when the record exists, the user is absent and the roster is strictly below capacity; it then appends the user once, and otherwise changes nothing; consistency is preserved |
| `Store.PullIfAttending` | server/controllers/eventController.js:302-306 | the conditional cancel applies exactly when the record exists and lists the user; it removes exactly that user, and otherwise changes nothing; consistency is preserved |
| `Store.InsertOne` | server/controllers/eventController.js:126-135 | `Event.create` stores the record normalised by the setters exactly when the validators accept it, and otherwise stores nothing; a new record with no attendees keeps the collection consistent |
| `Store.InsertTrimmed` | server/controllers/eventController.js:126-135 | a new record whose text the controller already trimmed is stored unchanged when the validators accept it, and the collection stays consistent |
| `Store.UpdateValid` | server/controllers/eventController.js:205-208 | `runValidators` on the `$set` paths only: supplied text must not trim to empty and a supplied capacity must be at least 1 |
| `Store.Merge` | server/controllers/eventController.js:205-208 | `$set` writes the supplied paths, trimmed where the schema trims, and keeps every other path, the roster and the owner |
| `Store.SetFieldsAsWritten` | server/controllers/eventController.js:205-208 | `findByIdAndUpdate` as issued: the validators run before the query, so a refused update is a refusal even for a record deleted meanwhile; otherwise no record means no match, and a present record gets the paths written whatever its roster is now |
| `Store.AsWrittenAgreesOnFreshRead` | server/controllers/eventController.js:176-208 | when the roster the write meets still fits the new capacity (no join committed after the read), the write as issued and the guarded write agree |
| `Store.SetFields` | server/controllers/eventController.js:176-208 | the same write with the occupancy comparison moved into the atomic filter: a refusal exactly when the validators fail; otherwise no match exactly when the record is gone or its roster exceeds the new capacity, and a write of the merged record in every other case; a consistent collection stays consistent |
| `Store.RunPreservesValid` | server/controllers/eventController.js:257-258 | any sequence of joins, cancels, creates, deletes and guarded updates (`Store.SetFields`), in any interleaving, keeps every record consistent; the update as written is not among these writes |
| `Store.StaleCapacityCheckOverbooks` | server/controllers/eventController.js:147-208 | a join that commits between updateEvent's read and its write lets the write as issued leave four attendees under capacity 3, while the guarded write refuses |
| `Listing.Project` | server/controllers/eventController.js:69-72 | `isAttending` holds exactly when there is a caller on the roster, `isOwner` exactly when the caller created the event, and `attendeeCount` is the roster's length |
| `Listing.BuildFilters` | server/controllers/eventController.js:26-41 | a search adds the text filter; `to` is the upper bound; unless `future` is "false" the lower bound is `from`, or now without one, and no earlier event is admitted; with `future` "false" and neither date there is no date filter |
| `ErrorHandler.NotFound` | server/middleware/errorHandler.js:1-3 | every unmatched route gets 404 "Route not found" |
| `ErrorHandler.Handle` | server/middleware/errorHandler.js:5-22 | a Multer error gets 400, with the size message for LIMIT_FILE_SIZE, and takes precedence over a validation error, which also gets 400; any other error gets its non-zero status code or 500; the message falls back to a fixed text and is never empty |
| `Auth.ParseToken` | server/middleware/auth.js:3-7 | a token comes back exactly for a header whose first piece is "bearer" in any case and whose second piece is not empty; the token is that second piece; an absent header yields nothing |
| `Auth.ParseOfParts` | server/middleware/auth.js:3-7 | for a header made of a scheme, a token and any space-led tail, the result is the token when the scheme lower-cases to "bearer" and the token is not empty, and nothing otherwise; later pieces are ignored |
| `Auth.BearerParts` | server/middleware/auth.js:4-5 | with a bearer scheme in any case, the header yields a token exactly when the second piece is not empty, so "Bearer  x" yields nothing |
| `Auth.OtherSchemeParts` | server/middleware/auth.js:5 | a scheme that does not lower-case to "bearer" never yields a token |
| `Auth.Request.OptionalAuth` | server/middleware/auth.js:9-20 | optionalAuth always proceeds; it sets the user only from a token that verifies, and otherwise leaves the user unset |
| `Auth.Request.AuthRequired` | server/middleware/auth.js:22-35 | authRequired answers 401 "Authentication required" without a token and 401 "Invalid or expired token" for one that fails verification, leaving the user alone; otherwise it sets the user and proceeds, so a handler behind it always has one |
| `EventController.PreCheck` | server/controllers/eventController.js:242-255 | rsvpEvent's checks come in order: missing event 404, date strictly before now 400, already attending 400; the request gets through exactly when none applies |
| `EventController.ClassifyJoinFailure` | server/controllers/eventController.js:272-282 | a failed join is explained from the record read again: an attendee gets 400; otherwise a roster at or over capacity gets 409, and no other case does; anything else gets "Unable to RSVP"; a record deleted meanwhile ends as a 500 |
| `EventController.JoinStep` | server/controllers/eventController.js:259-267 | the conditional update matches exactly when the record exists, the user is not on its roster and a seat is free; then it appends the user and answers 200 with `isAttending` true and the projection of the joined record, and otherwise it changes nothing; consistency is preserved |
| `EventController.UnableToRsvpOnlyAfterWrite` | server/controllers/eventController.js:259-282 | "Unable to RSVP" can only be explained from a collection other than the one the failed update met, in which the record exists, the user is absent and a seat is free |
| `EventController.AttemptStep` | server/controllers/eventController.js:259-291 | the join update followed by its second read with no write committed in between: the atomic join either appends the user and answers 200 with `isAttending` true and the projection of the joined record, or changes nothing and answers with the classification; consistency is preserved |
| `EventController.CancelStep` | server/controllers/eventController.js:302-319 | cancel either removes the user and answers 200 with `isAttending` false and one attendee fewer, or changes nothing and answers 400 "You are not attending this event", for an unknown event too |
| `EventController.MissingField` | server/controllers/eventController.js:86-88 | createEvent's first check: title, description, date, location or capacity is falsy (empty or absent) |
| `EventController.CapacityInvalid` | server/controllers/eventController.js:91-94 | `isNaN(Number(capacity)) || Number(capacity) < 1` for a supplied field, the empty string counting as 0 |
| `EventController.NewEvent` | server/controllers/eventController.js:126-135 | the record createEvent builds has trimmed text, the parsed date and capacity, no attendees and the requester as owner |
| `EventController.CollectUpdates` | server/controllers/eventController.js:153-203 | updateEvent's checks in order (unparsable date, capacity not a number or below 1, capacity below the current roster, each 400); a capacity equal to the roster is accepted; otherwise `updates` holds exactly the supplied fields |
| `EventController.CollectedApplied` | server/controllers/eventController.js:153-208 | writing the collected updates sets every supplied field and leaves each field that was not supplied unchanged |
| `EventController.CollectedValid` | server/controllers/eventController.js:156-158 | the update validators accept the collected updates exactly when no supplied text trims to nothing and any new capacity is at least 1 |
| `EventController.SuppliedText` | server/controllers/eventController.js:156 | for one text field, the stored value is the trimmed input, and the validator sees the string the controller checked |
| `EventController.EventRegistry.GetEvent` | server/controllers/eventController.js:64-77 | 404 for an unknown id, otherwise 200 with the record and its caller-relative fields |
| `EventController.EventRegistry.CreateEvent` | server/controllers/eventController.js:79-141 | 400 for a missing field, then for a capacity that is not a number or below 1, then for an unparsable date, then for a date before now; otherwise a new record owned by the requester with no attendees and 201, or the validation error when its text trims to nothing; refusals change nothing and allocate no id, a 201 uses up one |
| `EventController.EventRegistry.Insert` | server/controllers/eventController.js:126-137 | a record accepted by the schema is stored under a fresh id, which is then used up, and answered with 201; a rejected one changes nothing, the next id included |
| `EventController.EventRegistry.UpdateEvent` | server/controllers/eventController.js:143-214 | 404, then 403 for anyone but the owner, then the 400 checks, each changing nothing; otherwise only that record changes, with the supplied fields set and the rest kept, unless the validators refuse |
| `EventController.EventRegistry.WriteUpdates` | server/controllers/eventController.js:205-210 | the id-only write as issued, on a record whose roster fits the new capacity: the update is written and returned when the validators pass; otherwise the validation error comes back and nothing changes |
| `EventController.EventRegistry.DeleteEvent` | server/controllers/eventController.js:216-234 | 404, then 403 for anyone but the owner, neither changing anything; the owner's request removes the record and its roster with it |
| `EventController.EventRegistry.RsvpJoin` | server/controllers/eventController.js:259-267 | the conditional update changes the collection and answers exactly as `JoinStep` |
| `EventController.EventRegistry.ExplainJoinFailure` | server/controllers/eventController.js:272-282 | the second read changes nothing and answers the classification of the record it finds; "Unable to RSVP" exactly when the record exists, the user is absent and a seat is free |
| `EventController.EventRegistry.RsvpAttempt` | server/controllers/eventController.js:259-282 | the part of rsvpEvent after its pre-checks, run without another request's write between its update and its second read, is `AttemptStep` |
| `EventController.EventRegistry.Rsvp` | server/controllers/eventController.js:236-295 | run without interruption: 404, past 400, attending 400, a full roster 409, each with no change; otherwise the user is appended and gets 200 with the projection |
| `EventController.EventRegistry.CancelRsvp` | server/controllers/eventController.js:297-323 | cancelRsvp is exactly the atomic cancel step |
| `RegistryProperties.ConcurrentJoins` | server/controllers/eventController.js:257-267 | distinct new users racing for a record: the first min(users, free seats) to commit get 200, every later one gets 409, and the roster ends as the old one plus exactly those users; capacity N admits exactly N |
| `RegistryProperties.JoinsAfterFirst` | server/controllers/eventController.js:259-267 | the first user to commit takes a seat, and the others race for the seats left |
| `RegistryProperties.FullRejectsAll` | server/controllers/eventController.js:278-279 | once a record is full, every further join gets 409 and changes nothing |
| `RegistryProperties.ConcurrentJoinsBounded` | server/controllers/eventController.js:263 | however many users race, the roster never exceeds capacity |
| `RegistryProperties.PullAppended` | server/controllers/eventController.js:304 | pulling a user just appended to a roster that lacked them gives the roster back |
| `RegistryProperties.JoinCancelRoundTrip` | server/controllers/eventController.js:259-306 | a join followed by the same user's cancel leaves the collection exactly as it was |
| `RegistryProperties.CancelTwice` | server/controllers/eventController.js:302-310 | cancelling twice gives 200 with a change, then 400 with none |
| `RegistryProperties.OkIffChanged` | server/controllers/eventController.js:259-319 | for join and cancel, a 200 answer and a change of the collection go together |
| `RegistryProperties.DeletedDuringRsvp` | server/controllers/eventController.js:272-275 | a delete between an rsvp's pre-check and its update makes the re-read find null, and the request ends as a 500 |
| `RegistryProperties.JoinIgnoresDate` | server/controllers/eventController.js:247-264 | the atomic join does not look at the date: an event that has since passed still takes a join whose pre-check ran while it was upcoming, though a fresh pre-check would refuse it |
| `RegistryProperties.CancelIgnoresDate` | server/controllers/eventController.js:302-312 | an attendee of an event whose date has passed can still cancel: 200, and the roster shrinks by one |
| `RegistryProperties.LastSeatRace` | server/controllers/eventController.js:257-282 | two requests for the last seat both pass their pre-checks; the first to commit gets 200 and the second 409 |
| `RegistryProperties.TwoSeatsThreeUsers` | server/controllers/eventController.js:259-282 | with two seats, A and B are admitted and C gets 409 |
| `RegistryProperties.CancelFreesSeat` | server/controllers/eventController.js:302-319 | after B cancels, C's retry is admitted |
| `RegistryProperties.CancelBeforeReread` | server/controllers/eventController.js:259-282 | on a full record, a join fails without a change, and if a cancel commits before its second read, that read answers "Unable to RSVP" |
| `RegistryProperties.CancelBetweenJoinSteps` | server/controllers/eventController.js:259-319 | with two seats held by A and B, C's update fails, A's cancel commits, and C's second read answers 400 "Unable to RSVP" while B alone remains |

## Left out

- Real concurrency, MongoDB's internals, `populate('createdBy', ...)`, `$text` search semantics, sorting and the compound index: each database call is one atomic step on an in-memory map. The interleavings are modelled as sequences of those steps.
- listEvents running its query: only `buildFilters` and the projection of each record are modelled, not `Event.find`.
- myOverview is not modelled at all. Its two queries are left out with `Event.find`, and its entries do not use the projection: the `created` list fixes `isAttending` false and `isOwner` true, and the `attending` list fixes `isAttending` true. An owner who has joined their own event (which rsvpEvent allows) is therefore listed under `created` as not attending.
- Event id allocation: `EventRegistry.nextId` stands for MongoDB's ObjectId generation. Ids are natural numbers, and so are user ids.
- The Cloudinary upload and delete, the local temporary file (`ensureUploadsDir`, `fs.unlink`) and multer's storage: the outcome of an upload is a parameter (`Upload`). An upload that throws, and so reaches the error handler, is not modelled.
- `generateDescription`: it calls an external service and formats dates by locale.
- `jwt.verify` and the secret: verification is a function parameter giving the payload, or nothing where it throws.
- Server start-up, CORS, the route table, User.js and the React client.
- `Number()` and `new Date()` parsing: a body field is either absent, empty, unparsable or parsed to an integer. Fractional capacities and instants finer than the integer `Time` are not modelled, and neither are JSON bodies whose fields are numbers rather than strings.
- The `from` and `to` query strings are given as the instants they parse to. Invalid dates (which `new Date` turns into an Invalid Date inside the filter) are not modelled.
- Strings.Lower: `toLowerCase` is modelled on ASCII letters only; other characters are kept as they are. No non-ASCII character lower-cases to a letter of "bearer", so parseToken's behaviour is unaffected.
- The exact message mongoose writes into a ValidationError: the model uses one fixed message, "Event validation failed", for every schema refusal.
- `timestamps: true` (createdAt and updatedAt) are not part of the record.
- EventController.EventRegistry.WriteUpdates answers `{ event: null }` when the write matches nothing. Inside one uninterrupted request that cannot happen, and its contract leaves that case unconstrained.

## Findings

| source | as written | input that shows it | evidently intended | confidence | as-written member | corrected member |
|---|---|---|---|---|---|---|
| server/controllers/eventController.js:176-208 | updateEvent compares the new capacity with the roster of the record read at line 147, then writes with `findByIdAndUpdate` filtered on the id alone | a record with capacity 5 and attendees [1, 2, 3]; the owner sets capacity 3 (accepted, since 3 is not below 3); user 4's rsvp commits before the update; the update then stores capacity 3 with four attendees | capacity never below occupancy, as the check at lines 175-180 and the race-safety comment at lines 257-258 promise; the occupancy test belongs in the atomic filter | not executed | `Store.SetFieldsAsWritten` (with `Store.StaleCapacityCheckOverbooks`) | `Store.SetFields` |
