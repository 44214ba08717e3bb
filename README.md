# Meetup subscriptions and meetup lifecycle: a Dafny model

This project models the business rules of a small meetup backend. Users create
meetups with a banner image, edit and delete their own meetups, list meetups by
day, and subscribe to other users' meetups. The model covers three parts of the
source:

- **Subscription eligibility** (`SubscriptionController.store`). Six checks run
  in a fixed order and the first one that fails decides the answer: the meetup
  exists, the user exists, the user is not the organiser, the meetup is not
  past, the user is not already subscribed, and no subscription of the user is
  in the same calendar hour. On success one Subscription row is inserted and
  one mail job is queued.
- **Meetup lifecycle** (`MeetupController.store`, `update`, `delete`). Presence,
  banner, ownership and date checks in a fixed order, then a write to the
  Meetup table. Also the two listings `index` (one calendar day, by date, 10
  per page) and `myMeetups` (the requester's meetups, by date).
- **Upload rules** (`src/config/multer.js`). The extension whitelist of
  `fileFilter`, and the stored name built by `filename` from 16 random bytes in
  hex plus the original extension. Extensions follow Node's POSIX
  `path.extname`.

## Layout

| file | module | what it holds |
|---|---|---|
| `wrappers.dfy` | `Wrappers` | `Option`, `Result` |
| `temporal.dfy` | `Temporal` | instants as integers, hour slots, days, `isBefore`, `isSameHour`, `startOfDay`/`endOfDay` |
| `models.dfy` | `Models` | the four row types, the mail job, primary-key lookups, and class `Db` holding the tables and the queue |
| `subscription_controller.dfy` | `SubscriptionController` | the check chain `CheckSubscribe`, the same-hour scan, the imperative `Store`, and their properties |
| `meetup_controller.dfy` | `MeetupController` | `Store`, `Update`, `Delete` with their check functions, and the listings `Index` and `MyMeetups` |
| `upload.dfy` | `Upload` | `Extname`, `FileFilter`, `Hex`, `StoredName` |
| `past_meetups.dfy` | `PastMeetups` | the date rule shared by both controllers |

## Modelling decisions

- An instant is an integer count of milliseconds. Its hour slot is
  `t / 3600000` and its day is `t / 86400000`. Time zones are not modelled.
  `now` is a parameter, one value per request.
- The database is class `Models.Db`. It holds one sequence per table in
  insertion order, the job queue as a sequence, and the auto-increment
  counters for meetup and subscription keys. `Db.Valid()` says primary keys are
  unique. The controller actions are methods that modify the `Db` and are
  proved against pure check functions (`CheckSubscribe`, `CheckCreate`,
  `CheckUpdate`, `CheckDelete`).
- The same-hour scan is a `while` loop over the user's joined subscriptions.
  Like the `forEach` in the source, it overwrites the conflict on every match,
  so the message names the LAST conflicting meetup in the order the rows come
  back. Naming the first conflict instead would take a loop that stops at its
  first match; the model follows the code.
- The subscription query joins each subscription to its meetup with an outer
  join. `delete` removes a meetup without touching its subscriptions, which
  assumes the Subscription table has no foreign key on `meetup_id` (see "Left
  out"). A subscription whose meetup is gone makes `meetup.Meetup.date` throw
  inside the loop. The model answers this with `SubscribeError.Fault` (500)
  and writes nothing.
- Yup's `string().required()` refuses the empty string as well as a missing
  field, and `store` is modelled that way. In `update` a missing `date` gives
  `parse(undefined)`, an invalid date, and `isBefore` on it is false, so the
  new-date check passes. `update` does not check that a supplied image exists,
  and neither does the model.
- `event.update(req.body)` writes every attribute the body carries. The
  schema of `update` does not list `user_id`, and Yup lets unknown keys
  through, so `UpdateRequest` carries an optional `userId` and `ApplyUpdate`
  writes it: an organiser can hand a meetup to any other user
  (`UpdateHandsOverMeetup`). The body's `id` equals the stored key, so the key
  never changes.
- `update` looks the meetup up by id and organiser together. With unique ids
  this is "the meetup with this id, if the requester organises it". A missing
  meetup and someone else's meetup give the same 401 answer.
- `delete` compares the requester with `meetup.organizer.id`, the eager-loaded
  User row, not with the `user_id` column. `Db.Valid()` does not require that
  a meetup's `user_id` names a stored user, and `update` can write any
  `user_id`. For a meetup without an organiser row, reading `organizer.id`
  throws and the handler's promise rejects. `CheckDelete` takes the users
  table and answers `HandlerFault` (500) there, before the ownership check.
- `index` takes `page` as 1 when it is absent. A page below 1 gives a negative
  `OFFSET`, which the model answers as a failed query (`HandlerFault`, 500). That
  is what PostgreSQL does; the database configuration is not part of this
  model.
- The listings are stated as multisets of stored rows: each meetup that
  passes the filter appears as often as it is stored, which is once, since
  keys are unique. A page holds 10 rows when that many remain, otherwise the
  rest.
- Sequelize's `order: ['date']` is modelled by a stable insertion sort. SQL
  leaves the order of equal dates open. The contracts of `SortByDate`,
  `MyMeetups` and `DayListing` state only "sorted by date and a permutation",
  so they hold for any order of equal dates. `IndexSpec` and
  `IndexPagesCoverDay` are about positions in one fixed listing, the one
  the sort produces (see "Left out").

## Model

| member | source | states |
|---|---|---|
| `Models.FindMeetup` | src/app/controllers/SubscriptionController.js:24 | `findByPk` finds a meetup with the key exactly when one is stored, and what it finds is a stored row with that key |
| `Models.MeetupIndex` | src/app/controllers/MeetupController.js:150 | the position found is the first row with the key, and none is found exactly when no row has it |
| `Models.FindUser` | src/app/controllers/SubscriptionController.js:30 | a user is found exactly when one with the id is stored |
| `Models.FindFile` | src/app/controllers/MeetupController.js:25 | a file is found exactly when one with the id is stored |
| `Models.FindSubscription` | src/app/controllers/SubscriptionController.js:50-55 | a subscription is found exactly when the user holds one for this meetup |
| `Models.Db.constructor` | src/app/controllers/SubscriptionController.js:4-9 | the initial state of the Meetup, User and Subscription tables and the job queue the controllers use: the given users and files, no meetups, no subscriptions, an empty queue, auto-increment keys starting at 1, unique keys |
| `Temporal.SameHourIffInOneSlot` | src/app/controllers/SubscriptionController.js:83 | two instants share a calendar hour exactly when both lie in the millisecond range of one hour slot |
| `Temporal.SameHourSameDay` | src/app/controllers/SubscriptionController.js:83 | instants in the same calendar hour are on the same calendar day |
| `Temporal.CalendarHourNotWindow` | src/app/controllers/SubscriptionController.js:83 | `hh:30` and `hh:45` share an hour, but `hh:30` and the next `:05`, 35 minutes later, do not |
| `Temporal.BetweenDayBoundsIffSameDay` | src/app/controllers/MeetupController.js:130 | the inclusive range from `startOfDay` to `endOfDay` holds exactly the instants of that calendar day |
| `SubscriptionController.SubscribeError.Status` | src/app/controllers/SubscriptionController.js:19-92 | 400 exactly for a malformed request, a missing meetup and a missing user; 500 exactly for a thrown handler; 401 exactly for the four business rules |
| `SubscriptionController.SubscribeError.Message` | src/app/controllers/SubscriptionController.js:19-92 | every refusal sent as JSON carries a non-empty text; only the thrown handler sends none |
| `SubscriptionController.SubscribeMessagesDistinct` | src/app/controllers/SubscriptionController.js:19-92 | two different refusals, other than two hour conflicts, have different texts |
| `SubscriptionController.Notification` | src/app/controllers/SubscriptionController.js:99-105 | the job names the meetup's organiser, its title and description, and the subscriber's name and e-mail |
| `SubscriptionController.Mine` | src/app/controllers/SubscriptionController.js:66-70 | the user's subscriptions are exactly the stored ones with that `user_id`, no more of them than rows |
| `SubscriptionController.UserRows` | src/app/controllers/SubscriptionController.js:66-77 | one row per subscription of the user, in table order: row `i` is the meetup joined to the user's `i`-th subscription, or `None` when that meetup is gone; so the rows are exactly those joined meetups, no more than there are subscriptions |
| `SubscriptionController.ScanRows` | src/app/controllers/SubscriptionController.js:78-85 | the loop over the rows ends with the outcome of the scan: it throws at a row without a meetup, and otherwise holds the last row in the target's hour |
| `SubscriptionController.Scan` | src/app/controllers/SubscriptionController.js:79-86 | the loop throws exactly when some row has no meetup |
| `SubscriptionController.CheckSubscribe` | src/app/controllers/SubscriptionController.js:19-92 | a granted request names a stored meetup with that key and a stored user; the user is not its organiser, it is not past, the user holds no subscription to it, every subscription of the user joins, and none is in its calendar hour |
| `SubscriptionController.Store` | src/app/controllers/SubscriptionController.js:12-108 | the answer is that of the check chain; a refusal changes no table and queues nothing; success appends exactly one subscription (new key, the meetup, the user) and exactly one job with the organiser id, meetup title, description, user name and email; keys stay unique |
| `SubscriptionController.SubscribeCheckOrder` | src/app/controllers/SubscriptionController.js:19-61 | checks run in order (validation, meetup, user, organiser, past, already subscribed) and the first failure decides |
| `SubscriptionController.OrganiserAlwaysRejected` | src/app/controllers/SubscriptionController.js:36-47 | the organiser is refused as organiser whatever the meetup's date and the other tables, unless the user itself is missing |
| `SubscriptionController.PastCheckIsStrict` | src/app/controllers/SubscriptionController.js:43-47 | the request is refused as past exactly when the earlier checks pass and the date is strictly before `now`; a meetup dated `now` is not past |
| `SubscriptionController.ScanCrashIff` | src/app/controllers/SubscriptionController.js:66-86 | the scan throws exactly when some subscription of the user no longer joins to a meetup |
| `SubscriptionController.ScanClearIff` | src/app/controllers/SubscriptionController.js:79-92 | the scan finds no conflict exactly when all the user's subscriptions join and none is in the target's hour |
| `SubscriptionController.ScanReportsLast` | src/app/controllers/SubscriptionController.js:79-86 | the reported conflict is a subscription of the user in the target's hour, and no later one in row order is |
| `SubscriptionController.SubscribeConflictIff` | src/app/controllers/SubscriptionController.js:66-92 | after the earlier checks, the request is refused for an hour conflict exactly when some subscription of the user is in the target's calendar hour; it succeeds exactly when none is; the message names the last one |
| `SubscriptionController.StorePreservesHoursDistinct` | src/app/controllers/SubscriptionController.js:66-97 | if no user held two subscriptions in one hour slot before, none does after a successful `store` |
| `SubscriptionController.StoreNeverDuplicates` | src/app/controllers/SubscriptionController.js:50-97 | in sequential execution `store` never adds a second subscription for one user and meetup |
| `SubscriptionController.ResubscribeRejected` | src/app/controllers/SubscriptionController.js:43-61 | after a success, the same request at the same or a later time is refused as already subscribed, or as past once the meetup has begun |
| `MeetupController.MeetupError.Status` | src/app/controllers/MeetupController.js:19-179 | 400 exactly for malformed requests, a missing banner and a missing meetup; 500 exactly for a rejected handler (a failed listing query, a missing organiser row); 401 exactly for the ownership and date rules |
| `MeetupController.MeetupError.Message` | src/app/controllers/MeetupController.js:19-179 | every refusal sent as JSON carries a non-empty text; only the rejected handler sends none |
| `MeetupController.MeetupMessagesDistinct` | src/app/controllers/MeetupController.js:19-179 | no two refusals share a text |
| `MeetupController.CheckCreate` | src/app/controllers/MeetupController.js:11-44 | a created meetup has the new key, the request's fields, an existing banner, a date not before `now`, and the requester as organiser |
| `MeetupController.Store` | src/app/controllers/MeetupController.js:10-47 | the answer is that of the create checks; a refusal changes nothing; success appends exactly the new meetup under the next key; keys stay unique |
| `MeetupController.CreateSpec` | src/app/controllers/MeetupController.js:11-36 | refusals in order: a missing or empty field (400), an image that is not a File (400), a date strictly before `now` (401); a request passing all three is accepted |
| `MeetupController.CheckUpdate` | src/app/controllers/MeetupController.js:59-85 | an accepted update names a stored meetup with the request's id, organised by the requester, not past, and any new date is not past |
| `MeetupController.Update` | src/app/controllers/MeetupController.js:49-90 | the answer is that of the update checks; a refusal changes nothing; success replaces that one row with its updated copy and changes no other table |
| `MeetupController.UpdateCheckOrder` | src/app/controllers/MeetupController.js:59-85 | refusals in order: no id (400), missing or someone else's meetup with one answer (401), current date past (401), supplied new date past (401); an update passing all four is accepted |
| `MeetupController.ApplyUpdate` | src/app/controllers/MeetupController.js:87 | the key never changes; the organiser becomes the body's `user_id` when one is sent and stays otherwise |
| `MeetupController.UpdateOverwritesSuppliedFields` | src/app/controllers/MeetupController.js:87 | each supplied field, `user_id` included, takes its new value and each absent field keeps its old one |
| `MeetupController.UpdateChangesOnlyTarget` | src/app/controllers/MeetupController.js:87 | after a successful update, its id finds the updated meetup, every other id finds what it found before, and ids stay unique |
| `MeetupController.UpdateHandsOverMeetup` | src/app/controllers/MeetupController.js:63-87 | an update whose body carries another user's `user_id` makes that user the organiser, and the former organiser's later edits of the meetup are refused as not theirs |
| `MeetupController.ApplyEdit` | src/app/controllers/MeetupController.js:87 | the update as evidently intended: the key and the organiser never change, and the other supplied fields overwrite the stored ones |
| `MeetupController.EditKeepsOrganiser` | src/app/controllers/MeetupController.js:63-87 | with `ApplyEdit`, the requester still organises the meetup after an accepted update, and their next edit of it is not refused as not theirs |
| `MeetupController.UpdateIdempotent` | src/app/controllers/MeetupController.js:87 | applying one partial update twice equals applying it once |
| `MeetupController.CheckDelete` | src/app/controllers/MeetupController.js:150-179 | an accepted delete names the stored meetup with that key, whose organiser row exists and is the requester, and which is not past |
| `MeetupController.RemoveAt` | src/app/controllers/MeetupController.js:182 | the table loses exactly that one row: one row fewer, and the multiset of the rest plus the removed row is the old table |
| `MeetupController.Delete` | src/app/controllers/MeetupController.js:149-187 | the answer is that of the delete checks; a refusal changes nothing; success removes that one row and changes no other table |
| `MeetupController.DeleteCheckOrder` | src/app/controllers/MeetupController.js:150-179 | refusals in order: missing meetup (400), no organiser row (500), requester not the organiser (401), past meetup (401); a delete passing all four is accepted |
| `MeetupController.DeleteRemovesExactlyTarget` | src/app/controllers/MeetupController.js:181-183 | after a successful delete the meetup can no longer be found, every other id finds what it found before, and exactly one row is gone |
| `MeetupController.SortByDate` | src/app/controllers/MeetupController.js:95 | the listing is sorted by date and is a permutation of its input |
| `MeetupController.InsertByDate` | src/app/controllers/MeetupController.js:133 | inserting into a date-sorted listing keeps it sorted and adds exactly that meetup |
| `MeetupController.OwnedBy` | src/app/controllers/MeetupController.js:94 | each meetup of that organiser is kept as many times as it is stored, and no other meetup is kept |
| `MeetupController.Between` | src/app/controllers/MeetupController.js:128-132 | each meetup dated within the inclusive bounds is kept as many times as it is stored, and no other meetup is kept |
| `MeetupController.MyMeetups` | src/app/controllers/MeetupController.js:93-95 | `myMeetups` lists each of the requester's meetups as often as it is stored, no other meetup, in date order |
| `MeetupController.Window` | src/app/controllers/MeetupController.js:135-136 | a page holds the rows at positions `offset` onward: `limit` of them when that many remain, all the remaining ones otherwise, none past the end |
| `MeetupController.DayListing` | src/app/controllers/MeetupController.js:127-133 | the day's listing holds each meetup on the query date's calendar day as often as it is stored, no other meetup, in date order |
| `MeetupController.DayListingMembers` | src/app/controllers/MeetupController.js:127-133 | every meetup of the day's listing is stored and on that day |
| `MeetupController.Index` | src/app/controllers/MeetupController.js:114-147 | a query without a date is refused (400), a page below 1 fails (500), and every other query is answered |
| `MeetupController.IndexSpec` | src/app/controllers/MeetupController.js:127-147 | an answered query holds at most 10 meetups, in date order, all stored and on the query's day, taken from position `(page - 1) * 10` of the day's listing |
| `MeetupController.IndexPagesCoverDay` | src/app/controllers/MeetupController.js:135-136 | every meetup of the day is reachable: position `k` of the listing is item `k % 10` of page `k / 10 + 1` |
| `MeetupController.PagePosition` | src/app/controllers/MeetupController.js:135-136 | position `k` of a listing is item `k % 10` of the 10-row page that starts at `(k / 10) * 10` |
| `PastMeetups.PastMeetupIsFrozen` | src/app/controllers/MeetupController.js:78-80 | a meetup dated before `now` cannot be updated, deleted or subscribed to: each is refused by the date rule or by the ownership or user check before it, and a delete fails outright when the organiser row is missing |
| `Upload.Basename` | src/config/multer.js:12 | the last path segment contains no slash |
| `Upload.BasenameIsLastSegment` | src/config/multer.js:12 | the basename is the longest slash-free suffix of the path without its trailing slashes: a suffix of it that is the whole trimmed path or follows a slash |
| `Upload.Extname` | src/config/multer.js:17 | an extension is empty, or a dot followed by characters that are neither dots nor slashes |
| `Upload.ExtnameOfJoin` | src/config/multer.js:17 | a plain stem, dots included, followed by an extension gives that extension |
| `Upload.ExtnameWithoutDot` | src/config/multer.js:17 | a name without a dot has an empty extension |
| `Upload.FileFilter` | src/config/multer.js:16-23 | a file is accepted exactly when its extension is `.png`, `.jpg`, `.gif` or `.jpeg`, and every refusal says "Only images are allowed" |
| `Upload.FileFilterByExtension` | src/config/multer.js:16-23 | for a stem followed by an extension, the filter accepts exactly the four image extensions |
| `Upload.FileFilterRejectsNoExtension` | src/config/multer.js:17-20 | a name without a dot is refused |
| `Upload.FileFilterUsesLastExtension` | src/config/multer.js:17-19 | only the last extension counts: `a.tar.png` is accepted and `a.png.exe` refused |
| `Upload.FileFilterIsCaseSensitive` | src/config/multer.js:19 | `photo.PNG` is refused while `photo.png` is accepted |
| `Upload.FileFilterRejectsDotfile` | src/config/multer.js:17-20 | a dot-file such as `.png` has no extension and is refused |
| `Upload.Hex` | src/config/multer.js:12 | the hex text has two lower-case hex digits per byte |
| `Upload.HexRoundTrip` | src/config/multer.js:12 | the random bytes can be read back from their hex text |
| `Upload.StoredName` | src/config/multer.js:9-13 | an error from the random generator is passed on and no name is produced; otherwise the name is the hex text, which reads back as the random bytes, followed by the original extension |
| `Upload.StoredNameSpec` | src/config/multer.js:9-13 | with 16 bytes the name starts with 32 lower-case hex digits, and its own extension is the original one |
| `Upload.AcceptedFileKeepsImageExtension` | src/config/multer.js:12-23 | a file the filter accepts is stored under an image extension |

## Left out

- HTTP plumbing (src/app.js, src/routes.js): middleware, static files, the 404
  and 500 handlers. `Fault` and `HandlerFault` stand for a rejected handler
  promise. Whether it reaches the 500 handler depends on the Express version,
  which is not part of this model.
- Yup beyond presence: type coercion of text to numbers and dates. Requests
  are typed records. Of the unknown body fields only `user_id` in `update` is
  modelled; a foreign-key check on the `user_id` written there is not, since
  the database schema is not part of this model. A meetup may therefore name
  an organiser who is not stored, which `delete` answers with a fault.
- Eager-loaded joins and attribute projections in the listings (organiser
  name, banner). The listings return whole meetup rows. In `delete` only the
  organiser join is modelled, as the users-table lookup in `CheckDelete`.
- `delete` with a non-numeric id, and the `try`/`catch` around
  `meetup.destroy()`. The call is not awaited, so the model treats the removal
  as completing.
- The queue and the mail: `Queue.add` is an append that always succeeds.
  Delivery, retries and a failing enqueue are not modelled.
  src/app/jobs/SubscriptionMail.js as shown has no `key` member, and the queue
  library is not part of this model, so the job's queue name is not modelled.
- Concurrency: the read-then-write race between two subscribes of one user is
  out of scope, so `StoreNeverDuplicates` holds for sequential execution only.
- Multer's disk storage, upload directory and 5 MB size limit
  (src/config/multer.js:6-7, 25-27) are enforced inside the library.
- Row order of `Subscription.findAll`
  (src/app/controllers/SubscriptionController.js:66-77): the query has no
  `order`, so the database chooses the order of the rows. The model assumes
  insertion order, so "the last conflict" in `ScanReportsLast` and
  `SubscribeConflictIff` means the last in insertion order.
- The database schema: the migrations are not part of this model. The model
  assumes no foreign key from Subscription to Meetup. With `ON DELETE CASCADE`
  a delete would also remove the meetup's subscriptions; with a restricting
  key the un-awaited `destroy()` would fail unseen and leave the meetup in
  place. Neither is modelled.
- MeetupController.IndexPagesCoverDay: assumes every page query returns
  meetups with equal dates in the same order. SQL does not promise this, so
  separate queries for two pages could skip or repeat a meetup among equal
  dates.
- MeetupController.IndexSpec: positions are those of the model's own
  listing, which keeps equal dates in insertion order. The database may order
  them differently; the other facts (at most 10 rows, date order, all on the
  day) hold for any order.
- Cancelling a subscription: the source has no handler for it.
- Creating users and files: their controllers are not part of this model. The
  `Db` constructor takes them as given.

## Findings

| source | as written | input that shows it | evidently intended | confidence | as-written member | corrected member |
|---|---|---|---|---|---|---|
| src/app/controllers/MeetupController.js:87 | `event.update(req.body)` writes every key of the body; the schema at lines 50-57 neither lists nor strips `user_id` | the organiser of meetup 3 sends `{ id: 3, user_id: 9 }` to `update`; user 9 becomes the organiser, and the sender's next edit of meetup 3 is answered 401 "You can only edit your events" | an update changes the meetup's fields, not who organises it | not executed | `MeetupController.UpdateHandsOverMeetup` | `MeetupController.EditKeepsOrganiser` |

`Update` and the other lemmas keep `ApplyUpdate`, the code as written, since
the handler does write `user_id`. `ApplyEdit` is the corrected update, and
`EditKeepsOrganiser` proves the intended property about it.
