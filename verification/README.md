# Meetup and subscription rules

A Dafny model of the business rules of a small meetup REST API. Organizers
create, update and delete meetups. Other users list the meetups of a day and
subscribe to them, and each subscription queues a confirmation mail for the
organizer. Each write runs a fixed chain of guards. It either answers with the
first failing guard's error and status, keeping the store as it was, or it
performs exactly one mutation.

The state (`Entities.Db`) is the users table (only read), the meetups table
keyed by primary key, the next key the table hands out, the subscription rows
in insertion order, and the queue of enqueued jobs. Time is integer
milliseconds. The request clock (`now`), the authenticated user (`caller`) and
the order in which the database scans the meetups table (`scan`) are
parameters. A refused write returns no store (`Outcome.Refused`), so on failure
nothing is created, changed or enqueued.

Modules:
- `Common`: optional values, error kinds and their HTTP statuses.
- `Clock`: start of hour and the hour-granular date check.
- `Guards`: a guard chain as a list of checks, and its first failure. This is
  the reference the controllers' nested conditionals are proved against.
- `Entities`: users, meetups, payloads, subscriptions, jobs, the store.
- `SubscriptionMail`: the job key `"SubscriptionMail"` and the mail's recipient.
- `MeetupController`: `index`, `store`, `update`, `delete`.
- `SubscriptionController`: `store` (subscribe).
- `Invariants`: store invariants, their preservation by each request and by
  any sequence of requests.

Three consequences of the code that are easy to miss:
- The date check refuses when the start of the date's hour is strictly before
  `now` (`isBefore`). A start of hour equal to `now` is accepted.
- As a consequence, a date later in the current hour is refused unless `now`
  is itself a whole hour. At 00:30, a meetup at 00:45 is refused.
  `Clock.DateAcceptedIff` shows that the accepted dates are exactly those from
  the next whole hour on.
- "No user holds two subscriptions at the same instant" is checked only when
  subscribing. It is not kept as an invariant: rescheduling a meetup can break
  it (`Invariants.UpdateCanCreateClash`).

Three answers are exceptions that escape a handler. The model answers them with 500 (see "Left out"):
- `SubscriberMissing`: subscribing reads the subscriber's own user row after the clash check. If the row is gone, destructuring it throws before anything is written.
- `QueryRejected`: the listing query is sent with a negative OFFSET.
- `SchemaTypeError`: building the `update` schema calls a method the validation library does not have (see "Findings").

## Model

| member | source | states |
|---|---|---|
| Clock.StartOfHour | src/app/controllers/MeetupController.js:62 | the start of the hour is a whole hour, at most the date and less than an hour before it |
| Clock.DateAcceptedIff | src/app/controllers/MeetupController.js:62-66 | the date check accepts a date exactly when it is at or after the first whole hour not before now; later in the current hour is refused |
| Clock.AcceptedDateNotPast | src/app/controllers/MeetupController.js:111-115 | a date that passes the check is not in the past |
| Clock.LaterInCurrentHourRefused | src/app/controllers/MeetupController.js:62-66 | a concrete future date in the current hour (00:45 at 00:30) is refused |
| Guards.FirstFailure | src/app/controllers/SubscriptionController.js:23-83 | a guard chain answers with no error iff every check passes, otherwise with the error of a check that fails after all earlier ones passed |
| Guards.FirstFailureAt | src/app/controllers/SubscriptionController.js:23-83 | the first failing check alone decides the error, whatever the later checks say |
| Common.Status | src/app/controllers/MeetupController.js:54-149 | validation failure, a missing meetup and a time clash answer 400; not owner, past meetup, invalid date, own meetup and already subscribed answer 401; exactly the escaping exceptions answer 500 |
| SubscriptionMail.NewJob | src/app/jobs/SubscriptionMail.js:6-11 | the confirmation job is queued under the key "SubscriptionMail" and its handler reads back exactly the meetup, name and email that were enqueued |
| SubscriptionMail.RecipientIsOrganizer | src/app/jobs/SubscriptionMail.js:14 | the mail is addressed to the organizer joined into the job's meetup, whatever the subscriber's name and email |
| MeetupController.DayMatches | src/app/controllers/MeetupController.js:34-38 | the where clause keeps exactly the scanned meetups whose date lies in the day window, in scan order, each once when the scan visits each row once |
| MeetupController.DayMatchesAscending | src/app/controllers/MeetupController.js:34-38 | the matches of a scan in ascending key order are in ascending key order |
| MeetupController.DayMatchesAppend | src/app/controllers/MeetupController.js:34-38 | filtering keeps the scan's order: the matches of two consecutive parts of a scan are the first part's matches followed by the second's |
| MeetupController.Index | src/app/controllers/MeetupController.js:16-39 | a page holds at most 10 meetups of the day window, joined with the organizer, and is the slice of the day's matches after the first (page-1)*10; an absent page means page 1 and a page below 1 makes the query fail |
| MeetupController.MatchListedOnItsPage | src/app/controllers/MeetupController.js:20-21 | match number i of the day appears on page i/10+1 at position i%10 |
| MeetupController.SameScanEveryMeetupListed | src/app/controllers/MeetupController.js:19-39 | if every page request saw the rows in the same order, every meetup of the day would be listed on some page; the query does not promise this order |
| MeetupController.SameScanPagesDisjoint | src/app/controllers/MeetupController.js:19-21 | if both page requests saw the rows in the same order, two different pages would never list the same meetup; the query does not promise this order |
| MeetupController.UnorderedPagesOverlapAndMiss | src/app/controllers/MeetupController.js:19-39 | as written, with 11 to 20 meetups on one day and the rows seen in opposite orders by the two requests, meetup 0 is on page 1 and page 2 and the last meetup is on neither |
| MeetupController.IndexByKey | src/app/controllers/MeetupController.js:19-39 | with an ascending key order added, a page holds at most 10 meetups in strictly ascending key order |
| MeetupController.KeyOrderPagesDisjoint | src/app/controllers/MeetupController.js:19-21 | with the key order, two different pages never list the same meetup |
| MeetupController.KeyOrderEveryMeetupListed | src/app/controllers/MeetupController.js:19-39 | with the key order, every meetup of the day is listed on some page |
| MeetupController.Store | src/app/controllers/MeetupController.js:44-70 | creation succeeds iff all five fields are present and the date is accepted; the new meetup is owned by the caller, carries the payload's fields, is not past, gets a key no existing meetup has, and no other row or queue entry changes |
| MeetupController.StoreFollowsChecks | src/app/controllers/MeetupController.js:45-66 | creation refuses with validation failure (400) before the date check (401), following its guard chain |
| MeetupController.Patch | src/app/controllers/MeetupController.js:117-123 | a partial update changes exactly the supplied fields and keeps id and owner |
| MeetupController.PatchLaws | src/app/controllers/MeetupController.js:117-123 | an empty payload changes nothing, a payload applied twice equals applied once, a complete payload replaces every editable field |
| MeetupController.Update | src/app/controllers/MeetupController.js:86-125 | a successful update was made by the owner on a meetup that is not past, patches only that meetup, leaves it not past, and changes nothing else |
| MeetupController.UpdateFollowsChecks | src/app/controllers/MeetupController.js:86-115 | update refuses with not-found, not-owner, past meetup, invalid date, in that order, the first failing guard deciding |
| MeetupController.UpdateAsWritten | src/app/controllers/MeetupController.js:74-84 | as written, every update request fails with a server error (500) |
| MeetupController.UpdateAsWrittenRefusesValidUpdate | src/app/controllers/MeetupController.js:74-84 | an owner's update of a future meetup succeeds in the intended model and fails as written |
| MeetupController.Delete | src/app/controllers/MeetupController.js:128-155 | a successful delete was made by the owner on a meetup that is not past and removes exactly that meetup, nothing else |
| MeetupController.DeleteFollowsChecks | src/app/controllers/MeetupController.js:129-150 | delete refuses with not-found, not-owner, past meetup, in that order |
| MeetupController.MissingMeetupReportedFirst | src/app/controllers/MeetupController.js:86-136 | update and delete of a missing id answer not-found before any other check |
| MeetupController.NonOwnerRefused | src/app/controllers/MeetupController.js:100-150 | update and delete by a non-owner answer 401 whatever the payload and whether or not the meetup is past |
| MeetupController.PastMeetupFrozen | src/app/controllers/MeetupController.js:107-150 | the organizer can neither update nor delete a past meetup (401) |
| MeetupController.UpdateToRefusedDate | src/app/controllers/MeetupController.js:111-115 | the organizer moving a future meetup to a refused date gets 401 |
| SubscriptionController.Subscribe | src/app/controllers/SubscriptionController.js:8-97 | a successful subscription passed every guard, appends exactly the pair (caller, meetup) and exactly one SubscriptionMail job with the meetup joined with its organizer and the subscriber's name and email; meetups and users are untouched |
| SubscriptionController.SubscribeFollowsChecks | src/app/controllers/SubscriptionController.js:23-88 | subscribing refuses with the first failing guard of: exists, not own, not past, not subscribed, no clash, subscriber row readable |
| SubscriptionController.SubscribeRefusals | src/app/controllers/SubscriptionController.js:23-83 | each refusal happens exactly when its guard fails and all earlier guards pass; success exactly when all pass |
| SubscriptionController.SubscribeStatus | src/app/controllers/SubscriptionController.js:23-83 | missing meetup and time clash answer 400; own, past and duplicate answer 401 |
| SubscriptionController.SubscribeTwiceRefused | src/app/controllers/SubscriptionController.js:48-59 | subscribing again to the same future meetup is refused as already subscribed |
| SubscriptionController.SameInstantRefused | src/app/controllers/SubscriptionController.js:64-83 | after subscribing, a different meetup at the same instant is refused as a time clash |
| SubscriptionController.MailGoesToOrganizer | src/app/jobs/SubscriptionMail.js:14 | the queued mail is addressed to the meetup's organizer, who is not the subscriber |
| SubscriptionController.SubscribeKeepsListing | src/app/controllers/SubscriptionController.js:90-95 | a subscription writes only the subscription rows and the queue, so every listing page is unchanged |
| Invariants.EmptyStoreValid | src/app/controllers/SubscriptionController.js:48-83 | the empty store satisfies every invariant |
| Invariants.StorePreserves | src/app/controllers/MeetupController.js:68-70 | creating a meetup keeps keys fresh, pairs unique, no self-subscription, one job per subscription, and no clash |
| Invariants.UpdatePreserves | src/app/controllers/MeetupController.js:117-123 | updating keeps every invariant except no-clash, which survives when the date is not supplied |
| Invariants.UpdateCanCreateClash | src/app/controllers/MeetupController.js:111-123 | a concrete reschedule by the organizer gives a subscriber two meetups at the same instant |
| Invariants.DeletePreserves | src/app/controllers/MeetupController.js:152-154 | deleting keeps every invariant, including no-clash |
| Invariants.SubscribePreserves | src/app/controllers/SubscriptionController.js:48-95 | subscribing keeps at most one subscription per pair, no self-subscription, one job per subscription in order, and no two subscriptions of a user at the same instant |
| Invariants.RunPreserves | src/app/controllers/SubscriptionController.js:23-95 | any sequence of requests keeps the store valid, and one that reschedules no meetup keeps it free of clashes |

## Findings

| source | as written | input that shows it | evidently intended | confidence | as-written member | corrected member |
|---|---|---|---|---|---|---|
| src/app/controllers/MeetupController.js:74 | the update schema is built with `Yup.object().schema({...})`; object schemas have no `schema` method, so the call throws a TypeError before any check | any update, e.g. the organizer renaming a future meetup | `Yup.object().shape({...})` with every field optional, then the guard chain of lines 86-125 | medium, not executed | MeetupController.UpdateAsWritten | MeetupController.Update |
| src/app/controllers/MeetupController.js:19-39 | the listing query pages with `limit` and `offset` but has no `order` clause, so each page request may see the rows in a different order | eleven meetups on one day; the database returns them in ascending key order for page 1 and in descending order for page 2: meetup 0 is listed twice and meetup 10 never | `order: [['id', 'ASC']]` (or any unique key), so that the pages partition the day's meetups | medium, not executed | MeetupController.UnorderedPagesOverlapAndMiss | MeetupController.IndexByKey |

## Left out

- src/routes.js registers only the session and user routes; routing, authentication and the way `req.userId` is obtained are not modelled (`caller` is a parameter).
- Schema validation is modelled as field presence only. Types, string emptiness and the `update` schema (whose fields are all optional, so every present-or-absent payload passes it) are not modelled.
- The day window: `startOfDay` and `endOfDay` of the parsed query date are parameters of `Index` (`lo`, `hi`), because calendar and time-zone arithmetic is outside the model. `StartOfHour` assumes a whole-hour offset from UTC.
- Invalid dates from `parseISO` and non-numeric or fractional page strings are not modelled. A page such as "1.5" gives an OFFSET of 5, which `page: Option<int>` cannot express. An invalid date is before no date, so it passes the date check whatever moment it names. This happens for an omitted update date, which the model treats as "no date check". It also happens for a supplied date that the schema accepts but `parseISO` cannot read, such as "December 31, 2019 10:00". Such a date is stored however far in the past it lies, and the model leaves this out because dates are integers.
- MeetupController.Store: the guarantee that the new meetup is not past holds only for dates `parseISO` can read (see the previous line).
- MeetupController.Update: the guarantee that the updated meetup is not past holds only for dates `parseISO` can read (see above).
- A negative OFFSET (page 0 or below) is modelled as a failing query. How the database reacts is outside the model.
- `findAll` has no order clause, so the scan order is a parameter of `Index`, chosen per request. What the listing promises across pages is proved only for the key-ordered `IndexByKey` (see "Findings").
- Common.Status: the 500 for `SubscriberMissing`, `QueryRejected` and `SchemaTypeError` is an assumption. These are exceptions that escape the handler, and the application's error handling is not part of this model.
- MeetupController.UpdateAsWritten: its 500 rests on the same assumption about escaping exceptions.
- The banner join of the listing is not modelled (the files table is not part of this model).
- Fields of the request body other than the five payload fields are not modelled. `Meetup.create` spreads the whole body but overrides `user_id`.
- `delete` leaves the deleted meetup's subscription rows in place. Foreign-key cascades are defined in migrations that are not part of this model. The clash check joins meetups as required, so such rows never cause a clash.
- Mail rendering, locale date formatting and the mail transport are not modelled, and neither is queue processing. Only the job key, its payload and the recipient are modelled.
- If enqueueing fails after the subscription row is created, the row stays. Queue failures are not modelled.
- Concurrency: each request is atomic. The check-then-act race between the duplicate/clash checks and the insert is not modelled, and neither is the unawaited `meetup.destroy()`.
- Response bodies and messages: only the error kind and its status are kept. Subscription row ids and timestamps are not modelled.
