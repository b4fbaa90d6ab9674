# Email Scheduler core, modelled in Dafny

This project models the core of the Email Scheduler. The service takes a batch of recipients, a subject and a body, and delivers them over time.

- **Planning.** The batch is spread from `max(startTime, now)` at a fixed spacing. The spacing and the hourly limit are adjusted by the chosen delivery zone (`deliveryZones.ts`, `routes/emails.ts`). One `scheduled` record and one delayed job `email-<id>` are written per recipient (`services/scheduler.ts`).
- **The worker handler.** Each due job is run by a handler (`workers/emailWorker.ts`). It skips records that are gone or already `sent`. It asks an hourly per-sender quota gate for a slot (`services/rateLimiter.ts`). On refusal it postpones the record and its job to the next UTC hour. Otherwise it sends the message and marks the record `sent` or `failed`.
- **The routes.** They list a user's scheduled and finished records, and delete a record together with its pending job.
- **The frontend.** The model covers the dashboard's search, its failed-only filter and the avatar initials (`Dashboard.tsx`). It also covers the compose form: recipient de-duplication, validity and the submit transitions (`ComposeModal.tsx`).

The model is functional: immutable datatypes and pure functions.

- **Time.** Time is integer milliseconds. `now` is a parameter.
- **JSON numbers.** Numbers that come from JSON (spacing, hourly limit, zone multipliers) are exact rationals (`real`). `Math.round(x)` is `floor(x + 1/2)`.
- **The databases.** The record table and the job store are maps inside `Store.Db`. The Redis counter store is a map of buckets, and the Lua script is one atomic function from map to map.
- **Validity.** `Store.Valid` states the consistency every operation keeps:
  - records are stored under their own ids, below `nextId`;
  - every live job is keyed `email-<id>` by an allocated record;
  - records that left `scheduled` carry `sentAt`.

Modules and files:

| file | module | models |
|---|---|---|
| `options.dfy` | `Options` | optional values |
| `text.dfy` | `Text` | ASCII case mapping, JS whitespace `trim`, `includes`, decimal rendering and `padStart(2, "0")` |
| `seqs.dfy` | `Seqs` | order-preserving filter, first-occurrence de-duplication, a stable insertion sort |
| `zones.dfy` | `Config`, `DeliveryZones` | the global hourly cap; the zone table and its lookup |
| `store.dfy` | `Store` | records, jobs, job ids and the store invariant |
| `scheduler.dfy` | `Scheduler` | `scheduleEmails` |
| `rate_limiter.dfy` | `RateLimiter` | `checkHourlyLimit` and its script |
| `email_routes.dfy` | `EmailRoutes` | `POST /schedule`, `GET /scheduled`, `GET /sent`, `DELETE /:id` |
| `email_worker.dfy` | `EmailWorker` | the per-job handler |
| `dashboard.dfy` | `Dashboard` | `filteredScheduled`, `filteredSent` and the initials |
| `compose_modal.dfy` | `ComposeModal` | the dedupe step of `parseFile`, `isValid` and `handleSubmit` |

## Model

| member | source | states |
|---|---|---|
| Text.Lower | frontend/src/pages/Dashboard.tsx:50 | `toLowerCase` keeps the length and lower-cases each character. Upper-case ASCII letters map to lower case and every other character is kept. |
| Text.LowerIsLowerAndIdempotent | frontend/src/components/ComposeModal.tsx:45 | A lower-cased string has no upper-case letter, and lower-casing it again changes nothing. A string is unchanged by lower-casing exactly when it has no upper-case letter. |
| Text.Upper | frontend/src/pages/Dashboard.tsx:144 | `toUpperCase` keeps the length and upper-cases each character. |
| Text.Trim | frontend/src/pages/Dashboard.tsx:53 | `trim` returns a slice of the string that neither starts nor ends with whitespace. Everything before the slice and everything after it is whitespace. |
| Text.TrimEmptyIffBlank | frontend/src/components/ComposeModal.tsx:50 | A trimmed string is empty, and so falsy, exactly when the string holds nothing but whitespace. |
| Text.ContainsIffOccurs | frontend/src/pages/Dashboard.tsx:58 | `includes` holds exactly when the term occurs as a slice at some position. |
| Text.NatToStringInjective | backend/src/services/rateLimiter.ts:4-8 | Distinct numbers have distinct decimal renderings. |
| Text.NatToString | backend/src/services/rateLimiter.ts:4-8 | `String(n)` is a non-empty string of decimal digits ending in the digit `n mod 10`. It is one character long exactly when `n < 10`. |
| Text.FourDigitYear | backend/src/services/rateLimiter.ts:4 | Years 1000 to 9999 render as exactly four digits. |
| Text.PadStart2 | backend/src/services/rateLimiter.ts:5-7 | `padStart(2, "0")` renders a number below 100 as exactly two digits, tens then units. Larger numbers are left as they are. The result is all digits. |
| Seqs.Filter | frontend/src/pages/Dashboard.tsx:57 | `filter` never lengthens the list, and every element it keeps satisfies the predicate. |
| Seqs.FilterSpec | frontend/src/pages/Dashboard.tsx:57 | `filter` keeps exactly the elements that satisfy the predicate, in their original order. Each kept element occurs as often as in the input, and every other element occurs zero times. |
| Seqs.FilterFilter | frontend/src/pages/Dashboard.tsx:66-71 | Filtering twice is filtering once by the conjunction of the two predicates. |
| Seqs.Distinct | frontend/src/components/ComposeModal.tsx:45 | `Array.from(new Set(xs))` has no repeats and holds exactly the elements of `xs`. |
| Seqs.DistinctOrder | frontend/src/components/ComposeModal.tsx:45 | The de-duplicated list keeps each element at its first occurrence, in input order. |
| Seqs.Sort | backend/src/routes/emails.ts:61 | Sorting is a permutation of its input. |
| Seqs.SortSpec | backend/src/routes/emails.ts:61 | With a total comparison, sorting gives an ordered permutation of the same length. |
| Seqs.SortFilterMembers | backend/src/routes/emails.ts:59-71 | Every element of a sorted, filtered list satisfies the filter and comes from the input. |
| Seqs.FilterKeepsNoDuplicates | backend/src/routes/emails.ts:59-71 | Filtering a list without repeats gives a list without repeats. |
| Seqs.PermutationKeepsNoDuplicates | backend/src/routes/emails.ts:59-71 | A reordering of a list has repeats exactly when the list has them. |
| DeliveryZones.FindById | backend/src/services/deliveryZones.ts:26 | A map built from the table's entries returns an entry with the requested id. It returns nothing exactly when no entry has that id. |
| DeliveryZones.GetDeliveryZoneRule | backend/src/services/deliveryZones.ts:28-33 | The lookup never fails and always returns a table entry. A missing zone gives `anantnag`, a listed id gives the rule with that id, and an unknown id falls back to `anantnag`. |
| DeliveryZones.ZoneTableWellFormed | backend/src/services/deliveryZones.ts:1-24 | The table holds exactly the five zone ids, in order and without repeats. Every multiplier is at least 1 and every cap is positive. The caps are 200, 200, 150, 150 and 100. |
| DeliveryZones.LookupRuleBounds | backend/src/services/deliveryZones.ts:18-33 | Every rule the lookup can return has a multiplier of at least 1 and a cap between 1 and 200. |
| DeliveryZones.LookupListedId | backend/src/services/deliveryZones.ts:26-32 | Looking up the i-th listed id returns exactly the i-th table entry. |
| Store.JobId | backend/src/services/scheduler.ts:50 | A job id is `email-` followed by the decimal rendering of the record id. |
| Store.JobIdInjective | backend/src/services/scheduler.ts:50 | Two job ids are equal exactly when their record ids are equal, so a record has at most one job id. |
| Store.Enqueue | backend/src/services/scheduler.ts:42-53 | Adding a job whose id is already live leaves the job store unchanged. Otherwise the job is added, and no other job changes. |
| Store.AtMostOneJobPerRecord | backend/src/services/scheduler.ts:50 | In a consistent store, two live jobs for the same record are the same job. |
| Store.NoJobForUnallocatedId | backend/src/services/scheduler.ts:40-55 | No live job carries the id of a record that has not been allocated yet. |
| Scheduler.BaseTime | backend/src/services/scheduler.ts:14-15 | The base time is at least `now` and at least the requested start, and it is one of the two. |
| Scheduler.PlanTimes | backend/src/services/scheduler.ts:17-20 | The plan has one due time per recipient. |
| Scheduler.PlanSpacing | backend/src/services/scheduler.ts:17-20 | The plan starts at the base time, and consecutive due times differ by exactly `delay·1000` ms. |
| Scheduler.PlanTimesMonotone | backend/src/services/scheduler.ts:17-20 | With a non-negative spacing, due times never decrease along the batch and never fall before the base. |
| Scheduler.JobFor | backend/src/services/scheduler.ts:42-52 | A created record's job has id `email-<id>` and payload `{emailId, senderEmail, hourlyLimit}`. Its delay is `scheduledTime - now`, or 0 when that would be negative. |
| Scheduler.EnqueueAll | backend/src/services/scheduler.ts:40-55 | Adding a batch of jobs leaves exactly the old ids plus the new ones live, and every old job is kept. |
| Scheduler.EnqueueAllFresh | backend/src/services/scheduler.ts:40-55 | When the ids are fresh and distinct, every job of the batch lands in the store as given, due at `now + delay`. |
| Scheduler.CreateRecords | backend/src/services/scheduler.ts:17-36 | There is exactly one record per recipient, in recipient order. Each record keeps its recipient and is `scheduled`. Subject, body, sender and owner are copied from the request, and `sentAt` is empty. Record i is due at `base + i·delay·1000`. |
| Scheduler.AddRecords | backend/src/services/scheduler.ts:22-36 | The all-or-nothing write stores record i under id `firstId + i`. Every existing record is kept. |
| Scheduler.ScheduleEmails | backend/src/services/scheduler.ts:13-57 | The call returns one created record per recipient. It stores all of them and adds their jobs. |
| Scheduler.JobSpecs | backend/src/services/scheduler.ts:40-55 | There is one job per created record, in the same order. |
| Scheduler.CreatedTimesFromNow | backend/src/services/scheduler.ts:14-20 | Every record of a batch is due no earlier than `now`. Due times are non-decreasing in recipient order. |
| Scheduler.BatchJobIds | backend/src/services/scheduler.ts:45-50 | Job i of a batch is keyed by, and carries, the id of record `nextId + i`. |
| Scheduler.FreshFromNextId | backend/src/services/scheduler.ts:40-55 | The jobs for records `nextId`, `nextId+1`, … have distinct ids that are new to a consistent store. |
| Scheduler.BatchJobIdsFresh | backend/src/services/scheduler.ts:40-55 | A batch's job ids are distinct and not yet live. |
| Scheduler.EnqueueAllKeepsKeyed | backend/src/services/scheduler.ts:40-55 | Adding jobs that are keyed by their own record's job id keeps every live job keyed that way. |
| Scheduler.EnqueueBatchKeepsJobsValid | backend/src/services/scheduler.ts:40-55 | Adding the jobs of records `nextId ..` keeps every live job tied to an allocated record. |
| Scheduler.AddBatchKeepsRecordsValid | backend/src/services/scheduler.ts:22-36 | Writing new `scheduled` records under ids `nextId ..` keeps the record table consistent. |
| Scheduler.CreatedIdsAndStatus | backend/src/services/scheduler.ts:22-36 | The records of a batch take consecutive ids and all start `scheduled`. |
| Scheduler.BatchKeepsValid | backend/src/services/scheduler.ts:22-55 | A batch of new records and their fresh jobs leaves a consistent store consistent. |
| Scheduler.BatchRecordEntry | backend/src/services/scheduler.ts:22-36 | Record i is stored under id `nextId + i` exactly as created, and is due no earlier than `now`. |
| Scheduler.JobLands | backend/src/services/scheduler.ts:40-55 | When the ids are fresh and distinct, job i is live as given. |
| Scheduler.BatchJobEntry | backend/src/services/scheduler.ts:40-55 | The job for record `nextId + i` is live under that record's job id. It carries the record id, the sender and the limit, and is due when the record is. |
| Scheduler.ScheduleKeepsValid | backend/src/services/scheduler.ts:13-57 | Scheduling keeps the store consistent. |
| Scheduler.JobDelaysFollowPlan | backend/src/services/scheduler.ts:14-51 | Because the base is never before `now`, every job's delay is exactly its due time minus `now`. Delays are non-decreasing along the batch. |
| RateLimiter.NextHourStart | backend/src/services/rateLimiter.ts:45-46 | The next-hour instant lies on an hour boundary. It is strictly after `now`, at most an hour later, and in the following hour. |
| RateLimiter.SecondsUntilNextHour | backend/src/services/rateLimiter.ts:11-15 | The TTL lies between 1 and 3600 seconds. It is the whole seconds left in the hour, rounded down, or 1. |
| RateLimiter.BucketMayLapseBeforeHourEnds | backend/src/services/rateLimiter.ts:11-15 | Because the TTL rounds down, a bucket first used 300 ms into an hour expires 700 ms before that hour ends. |
| RateLimiter.BuildHourKey | backend/src/services/rateLimiter.ts:3-9 | The hour key is all digits. For a four-digit year and two-digit fields it is exactly `YYYYMMDDHH`: the year, then month, day and hour, each as tens then units. |
| RateLimiter.BuildHourKeyInjective | backend/src/services/rateLimiter.ts:3-9 | For four-digit years and two-digit fields, distinct (year, month, day, hour) give distinct hour keys. |
| RateLimiter.ColonAfterDigits | backend/src/services/rateLimiter.ts:20 | In a key `<digits>:<sender>`, the first colon comes right after the digits. |
| RateLimiter.CounterKey | backend/src/services/rateLimiter.ts:19-20 | The counter key starts with `email_count:` and ends with `:` followed by the sender. |
| RateLimiter.CounterKeyInjective | backend/src/services/rateLimiter.ts:17-20 | Two calls share a counter key exactly when they fall in the same hour and name the same sender. |
| RateLimiter.AdmitScript | backend/src/services/rateLimiter.ts:23-36 | The script admits exactly when the stored count is below the limit. A refusal changes nothing and reports the count. Admission adds exactly 1 and reports the new count. The TTL is set when the count becomes 1, and otherwise kept. Other keys never change. |
| RateLimiter.CheckHourlyLimit | backend/src/services/rateLimiter.ts:17-47 | The gate admits exactly when this hour's count for the sender is below the limit. On admission `retryAt` is null and the count rises by 1. A refusal leaves the store unchanged and carries the start of the next hour as `retryAt`. |
| RateLimiter.DenialRetriesNextHour | backend/src/services/rateLimiter.ts:45-47 | A denial's `retryAt` is `(floor(now/3600000)+1)·3600000`. That is strictly after `now` and in the next hour. |
| RateLimiter.TtlOnlyOnFirstIncrement | backend/src/services/rateLimiter.ts:31-34 | An increment of a bucket that already counts at least 1 keeps its TTL. |
| RateLimiter.CheckMany | backend/src/services/rateLimiter.ts:17-47 | A series of calls gives exactly one answer per call. |
| RateLimiter.CallsInOneHour | backend/src/services/rateLimiter.ts:27-35 | In the expiry-free gate, consider calls in one hour starting from count `start`, under any limit, fractional ones included. Call i is admitted exactly when `start + i` is below the limit, and every refusal carries the next hour. The count ends at `CountAfter(start, calls, limit)`: `start + calls` while that is below the limit, otherwise the limit rounded up if `start` was below it, otherwise `start`. No other sender's or hour's bucket changes. |
| RateLimiter.FreshBucketAdmitsExactlyLimit | backend/src/services/rateLimiter.ts:27-35 | In the expiry-free gate, call i of an hour from a fresh bucket is admitted exactly when i is below the limit L. The count ends at the number of calls while that is below L, and otherwise at L rounded up (0 when L is not positive). With an integral L the count never exceeds L. With a fractional L it stays below L + 1. |
| RateLimiter.FractionalLimitAdmitsCeiling | backend/src/services/rateLimiter.ts:27-35 | With the limit 2.5, three calls in one hour are all admitted and the count ends at 3. |
| RateLimiter.Ceil | backend/src/services/rateLimiter.ts:28 | The ceiling is the least integer not below its argument. |
| RateLimiter.NewHourStartsFromZero | backend/src/services/rateLimiter.ts:17-31 | In the expiry-free gate, however many calls a sender made in one hour, a call in a different hour is admitted exactly when the limit is positive. |
| RateLimiter.TimedAdmit | backend/src/services/rateLimiter.ts:23-36 | With keys that expire, the script admits exactly when the live count (0 once the key has expired) is below the limit. Admission leaves the count at the live count plus 1. A refusal changes nothing. Other keys never change. |
| RateLimiter.TimedCheckMany | backend/src/services/rateLimiter.ts:17-36 | A series of calls over an expiring store gives exactly one answer per call. |
| RateLimiter.SecondsUntilNextHourCeil | backend/src/services/rateLimiter.ts:11-15 | The TTL rounded up lies between 1 and 3600 seconds. A key given it expires at the end of the hour or less than a second after. |
| RateLimiter.FloorTtlAdmitsTwiceInOneHour | backend/src/services/rateLimiter.ts:11-35 | With the TTL rounded down as written, a limit of 1 admits two calls of the same hour, at 300 ms and at 3 599 500 ms. The first key expired at 3 599 300 ms, before the second call. |
| RateLimiter.CeilTtlKeepsHourlyLimit | backend/src/services/rateLimiter.ts:11-35 | With the TTL rounded up, and a key that lives through its hour, call i of the hour is admitted exactly when the stored count plus i is below the limit. This is the behaviour of the expiry-free gate. |
| EmailRoutes.JsRound | backend/src/routes/emails.ts:23 | `Math.round` returns the nearest integer, and a half rounds up. |
| EmailRoutes.NormalizeDelay | backend/src/routes/emails.ts:22-23 | The spacing is an integer of at least 1. It is the rounded product whenever that product is at least 1.5. |
| EmailRoutes.NormalizeHourlyLimit | backend/src/routes/emails.ts:25-26 | The limit is at most the requested limit, the zone cap and the global cap, and it equals one of them. |
| EmailRoutes.NormalizeDelayNeverShortens | backend/src/routes/emails.ts:22-23 | With a multiplier of at least 1, the spacing is never shorter than the requested one minus half a second. |
| EmailRoutes.NormalizeDelayExample | backend/src/routes/emails.ts:22-23 | A 5 s spacing in `south-kashmir` (×1.15) becomes 6 s. 1 s ×1.35 stays 1 s, and 2 s ×1.25 rounds the tie up to 3 s. |
| EmailRoutes.SchemaAccepts | backend/src/routes/emails.ts:12-20 | The schema accepts a non-empty subject and body, at least one recipient, each an e-mail address, a datetime start, a spacing and limit of at least 1, and an optional listed zone. |
| EmailRoutes.ParamsFor | backend/src/routes/emails.ts:34-52 | The planner receives the request's subject, body, recipients and start. The caller is passed as sender and owner. The spacing and limit are normalised by the selected zone and the global cap. |
| EmailRoutes.PostSchedule | backend/src/routes/emails.ts:28-55 | A body the schema refuses gets 400 and changes nothing. An accepted body schedules the batch and answers with the number of recipients, which is at least 1. |
| EmailRoutes.AcceptedParamsWithinCaps | backend/src/routes/emails.ts:17-41 | For an accepted request, every job's hourly limit lies between 1 and both caps, so at most 200, and the spacing is at least 1 s. |
| EmailRoutes.PostScheduleCreatesRecord | backend/src/routes/emails.ts:43-52 | Recipient i gets a `scheduled` record with id `nextId + i`, carrying the request's subject and body, owned and sent by the caller, and due no earlier than now. |
| EmailRoutes.PostScheduleCreatesJob | backend/src/routes/emails.ts:37-52 | Recipient i gets a live job keyed by its record's job id. The job carries the caller as sender and the capped limit, and is due when the record is. |
| EmailRoutes.PostScheduleKeepsValid | backend/src/routes/emails.ts:28-55 | The route keeps the store consistent. |
| EmailRoutes.RowsBelow | backend/src/routes/emails.ts:59 | The table scan lists exactly the stored records with ids below the bound. |
| EmailRoutes.RowsAreStored | backend/src/routes/emails.ts:59 | The table scan lists exactly the stored records. |
| EmailRoutes.RowsBelowDistinct | backend/src/routes/emails.ts:59 | When every record is stored under its own id, the scan lists rows in strictly increasing id order, so no row repeats. |
| EmailRoutes.ListingMembers | backend/src/routes/emails.ts:59-71 | A filtered, sorted listing holds exactly the stored records that pass the filter. |
| EmailRoutes.ScheduledView | backend/src/routes/emails.ts:57-64 | `GET /scheduled` answers with a listing whose every row is a stored record that is the caller's and `scheduled`. |
| EmailRoutes.SentView | backend/src/routes/emails.ts:66-73 | `GET /sent` answers with a listing whose every row is a stored record that is the caller's and `sent` or `failed`. |
| EmailRoutes.ScheduledViewSpec | backend/src/routes/emails.ts:57-64 | `GET /scheduled` lists exactly the caller's `scheduled` records, each once, in ascending `scheduledTime`. |
| EmailRoutes.SentViewSpec | backend/src/routes/emails.ts:66-73 | `GET /sent` lists exactly the caller's `sent` and `failed` records, each once, in descending `sentAt`. |
| EmailRoutes.SentViewHasTimes | backend/src/routes/emails.ts:68-71 | In a consistent store, every listed finished record has a `sentAt`, so the listing is strictly by time. |
| EmailRoutes.DeleteEmail | backend/src/routes/emails.ts:75-97 | A non-integer id gets 400 and changes nothing. A missing record, or another user's, gets 404 and changes nothing. Otherwise the record is deleted, together with its job `email-<id>` when it is still `scheduled`, and nothing else changes. |
| EmailRoutes.DeleteKeepsValid | backend/src/routes/emails.ts:75-97 | Deleting keeps the store consistent. |
| EmailRoutes.DeleteScheduledCancelsJob | backend/src/routes/emails.ts:91-94 | Once a `scheduled` record is deleted, no live job refers to it. |
| EmailRoutes.DeleteOnlyOwn | backend/src/routes/emails.ts:83-89 | A caller's attempt to delete another user's record gets 404 and leaves the store unchanged. |
| EmailWorker.EffectiveLimit | backend/src/workers/emailWorker.ts:22 | The job's hourly limit is used unless it is 0. A limit of 0 falls back to the global cap of 200. |
| EmailWorker.Finish | backend/src/workers/emailWorker.ts:41-49 | After a transport attempt the record is `sent` or `failed` with `sentAt = now`. Every other field is kept. |
| EmailWorker.RunJob | backend/src/workers/emailWorker.ts:10-52 | A run is skipped exactly when the record is gone or `sent`. It sends exactly when the record is pending and this hour's count is below the effective limit, and the message is the record's. It is deferred exactly when the record is pending and the count has reached the limit. A deferral keeps the job and names the start of the next hour; every other run removes the job. No run adds or removes records. |
| EmailWorker.SkipChangesNothing | backend/src/workers/emailWorker.ts:17-20 | A job whose record is gone or already `sent` ends without a send and without touching records or counters. |
| EmailWorker.RefusalDefersToNextHour | backend/src/workers/emailWorker.ts:22-31 | When the gate refuses, nothing is sent and the counters are unchanged. The record's due time and its job both move to the start of the next hour, strictly after `now`. The status is kept. |
| EmailWorker.AdmittedRunSends | backend/src/workers/emailWorker.ts:22-51 | When the gate admits, the record's message is sent once, from the job's sender. Success marks the record `sent` and failure marks it `failed`, stamped `now` either way. The job ends and this hour's count rises by 1. |
| EmailWorker.SendOnlyWithinQuota | backend/src/workers/emailWorker.ts:23-34 | A run that sends found the count below the effective limit and raised it by exactly 1. A run that does not send leaves every count unchanged. |
| EmailWorker.CountStaysWithinCap | backend/src/workers/emailWorker.ts:22-34 | A bound that every job's effective limit respects is never passed by any counter. |
| EmailWorker.SentIsFinal | backend/src/workers/emailWorker.ts:18-20 | No run changes a `sent` record. |
| EmailWorker.RunTouchesOnlyItsRecord | backend/src/workers/emailWorker.ts:10-52 | A run changes at most its own record and its own job. It adds no records or jobs. |
| EmailWorker.RunKeepsValid | backend/src/workers/emailWorker.ts:10-52 | A run keeps the store consistent. |
| EmailWorker.FailedIsRetried | backend/src/workers/emailWorker.ts:18 | A `failed` record is not skipped: only `sent` ends delivery. |
| Dashboard.NormalizeText | frontend/src/pages/Dashboard.tsx:50 | Normalising lower-cases each character in place, so the result has the same length and no upper-case letter. |
| Dashboard.FilteredScheduled | frontend/src/pages/Dashboard.tsx:52-60 | The filtered scheduled list is never longer than the input. |
| Dashboard.FilteredSent | frontend/src/pages/Dashboard.tsx:62-74 | The filtered sent list is never longer than the input. |
| Dashboard.MatchesIffOccurs | frontend/src/pages/Dashboard.tsx:56-67 | A row matches exactly when the lower-cased term occurs at some position of the lower-cased recipient or subject. |
| Dashboard.BlankSearchKeepsScheduled | frontend/src/pages/Dashboard.tsx:53-55 | A whitespace-only search returns the scheduled list unchanged. |
| Dashboard.ScheduledSearchSpec | frontend/src/pages/Dashboard.tsx:56-59 | A non-blank search keeps exactly the matching scheduled rows, in their original order, each as often as in the input. |
| Dashboard.SpaceInTermMustOccur | frontend/src/pages/Dashboard.tsx:56-58 | The term is not trimmed: a term containing a space matches no row whose recipient and subject have no space. |
| Dashboard.FilteredSentIsOneFilter | frontend/src/pages/Dashboard.tsx:62-74 | The sent list is a single filter by "matches the search when it is active, and failed when the toggle is on". |
| Dashboard.FilterSame | frontend/src/pages/Dashboard.tsx:66-71 | Filtering by two predicates that agree everywhere gives the same list. |
| Dashboard.FilteredSentSpec | frontend/src/pages/Dashboard.tsx:62-74 | The sent list keeps exactly the rows meeting both conditions, in their original order and each as often as in the input. With the toggle on, every row is `failed`. |
| Dashboard.Split | frontend/src/pages/Dashboard.tsx:140 | Splitting at single spaces gives at least one piece, and no piece contains a space. |
| Dashboard.JoinSplit | frontend/src/pages/Dashboard.tsx:140 | Joining the pieces with spaces gives the name back. |
| Dashboard.HeadsAreWordStarts | frontend/src/pages/Dashboard.tsx:140-142 | The first characters of the pieces are exactly the name's word-starting characters: non-spaces that begin the name or follow a space. |
| Dashboard.Take | frontend/src/pages/Dashboard.tsx:143 | `slice(0, n)` gives the first n characters, or the whole string when it is shorter. |
| Dashboard.Initials | frontend/src/pages/Dashboard.tsx:139-144 | The initials are at most two characters. |
| Dashboard.InitialsSpec | frontend/src/pages/Dashboard.tsx:139-144 | The initials are the upper-cased starting characters of the name's first two words, in order, and at most two. |
| ComposeModal.LowerAll | frontend/src/components/ComposeModal.tsx:45 | The matches are lower-cased one for one. |
| ComposeModal.DedupeLower | frontend/src/components/ComposeModal.tsx:44-46 | The uploaded list has no duplicates and is all lower-case. Its elements are exactly the lower-cased matches, kept at first occurrence. |
| ComposeModal.DedupeKeepsFirstOccurrenceOrder | frontend/src/components/ComposeModal.tsx:45 | The de-duplicated list keeps the upload order of each address's first occurrence. |
| ComposeModal.IsValid | frontend/src/components/ComposeModal.tsx:49-51 | The form is valid when trimmed subject and body are non-empty, recipients are loaded and a start time is set. |
| ComposeModal.IsValidIff | frontend/src/components/ComposeModal.tsx:49-51 | The form can be submitted exactly when subject and body are not blank, recipients are loaded and a start time is set. |
| ComposeModal.Submit | frontend/src/components/ComposeModal.tsx:53-81 | An invalid form only shows the hint and schedules nothing. A valid one sends the form's payload with the ISO start time. Success clears subject, body, recipients and start time and shows the success message. Failure, including a start time that cannot be converted, keeps every field and shows the error message. `loading` is false afterwards. |
| ComposeModal.NoDoubleSubmit | frontend/src/components/ComposeModal.tsx:71-75 | After a successful submit the form is not submittable, so a second click schedules nothing. Spacing, limit and zone are kept. |
| ComposeModal.RetryAfterFailureResends | frontend/src/components/ComposeModal.tsx:76-79 | After a failed submit the form is still valid, and retrying sends exactly the same payload. |
| ComposeModal.PayloadRecipientsAreDeduped | frontend/src/components/ComposeModal.tsx:44-70 | After an upload, the payload's recipients are free of repeats and include every lower-cased match. |

## Findings

| source | as written | input that shows it | evidently intended | confidence | as-written member | corrected member |
|---|---|---|---|---|---|---|
| backend/src/services/rateLimiter.ts:11-15 | The counter key's TTL rounds the seconds left in the hour down, so the key can expire up to 999 ms before the hour ends. A call in that window finds no count and is admitted. | Limit 1, calls at 300 ms and at 3 599 500 ms of the same hour: both are admitted. | The TTL rounded up, so the key outlives its hour and at most the limit (rounded up) is admitted per sender per hour. | medium, not executed | RateLimiter.FloorTtlAdmitsTwiceInOneHour | RateLimiter.CeilTtlKeepsHourlyLimit |

The rest of the model uses the expiry-free gate `RateLimiter.CheckHourlyLimit`, which behaves as the corrected TTL does.

## Left out

- `backend/dist/**` is compiled output that is older than the TypeScript sources: it has no zones, no delete route and a different job-id separator. Only the TypeScript sources are modelled.
- BullMQ's worker concurrency and its pool-wide limiter (`backend/src/workers/emailWorker.ts:53-60`, defaults 5 and 2000 ms) are concurrency and library internals. Handler runs are modelled one at a time.
- `moveToDelayed` and `emailQueue.remove` are modelled as updates to a map of live jobs. Job retention after completion or failure (`removeOnComplete` and the failed set) is not modelled: a finished job simply leaves the live store.
- Redis is not modelled directly. The script runs as one atomic step. In the gate the worker uses (`RateLimiter.CheckHourlyLimit`), key expiry is represented by the key changing with the hour: the bucket's TTL is recorded but never fires. This matches the source only when the TTL outlives the hour, which the rounded-down TTL does not guarantee (see Findings). The separate expiring store (`RateLimiter.TimedAdmit`) is used only to exhibit that difference.
- `RateLimiter.CallsInOneHour`, `RateLimiter.FreshBucketAdmitsExactlyLimit`, `RateLimiter.NewHourStartsFromZero`: these hold for the expiry-free gate, which is the corrected behaviour. With the source's rounded-down TTL, a key can expire in the last second of its hour and the count then restarts from 0 (`RateLimiter.FloorTtlAdmitsTwiceInOneHour`).
- The Prisma transaction is taken as all-or-nothing. The non-atomic gap between persisting the records and adding their jobs (`backend/src/services/scheduler.ts:22-55`) is not modelled: `Scheduler.ScheduleEmails` does both in one step.
- The calendar conversion inside `buildHourKey` (UTC year, month, day and hour) is replaced by the hour index `now / 3600000`. The `YYYYMMDDHH` rendering is modelled separately, with its injectivity lemma.
- IEEE-754 arithmetic is replaced by exact rationals. A product that is a rounding tie in rationals could differ from the double the source computes.
- The mail transport (`emailService.ts`) is the `sendOk` parameter. Its thrown error is the `SendFailed` outcome.
- The e-mail regular expression that extracts addresses from an uploaded file (`ComposeModal.tsx:3,44`) is not modelled. The list of matches is an input.
- zod's `.email()` and `.datetime()` checks, `Number(req.params.id)`, and `new Date(startTime).toISOString()` are parameters. These are the `isEmail` predicate, the optional start instant, the optional id and the optional ISO string.
- `toLowerCase` and `toUpperCase` are ASCII-only in the model. Unicode case mapping is not modelled.
- The worker stamps `sentAt` with the same `now` at which the gate was consulted. The source reads the clock twice.
- `listDeliveryZones` (`deliveryZones.ts:35`) only returns the table, which is `DeliveryZones.Zones`.
- `EmailRoutes.PostSchedule`: requires the record table to be keyed below `nextId`. This is the database's autoincrement guarantee, which the source relies on implicitly.
- `EmailRoutes.SentViewSpec`: a missing `sentAt` sorts first, as PostgreSQL orders nulls in a descending sort. `EmailRoutes.SentViewHasTimes` shows this case cannot arise in a consistent store.
- `Dashboard.FilteredScheduled`, `Dashboard.FilteredSent`: their own contracts state only the length bound. Their content is stated by `Dashboard.ScheduledSearchSpec`, `Dashboard.BlankSearchKeepsScheduled` and `Dashboard.FilteredSentSpec`.
- `Dashboard.InitialsSpec`: `part[0]` and `slice(0, 2)` work on UTF-16 code units, but the model works on code points (Dafny `char`). For a name starting with a character outside the Basic Multilingual Plane, the source takes half a surrogate pair and the model takes the whole character.
- `Scheduler.ScheduleEmails`, `EmailRoutes.PostSchedule`: JavaScript dates are limited to ±8.64e15 ms. A due time `base + i·delay·1000` beyond that is an Invalid Date (`backend/src/services/scheduler.ts:19`), so persisting it throws and the request fails. The model has unbounded integers and succeeds.
- Authentication, the other routes, the server set-up, the API client and the rest of the UI (tables, tabs, header, login) are outside the core.
