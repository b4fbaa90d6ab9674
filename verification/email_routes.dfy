/**
 * The e-mail HTTP routes: `POST /schedule` validates a request, applies
 * the delivery-zone policy to the spacing and hourly limit, and hands the
 * batch to the planner; `GET /scheduled` and `GET /sent` list the caller's
 * records; `DELETE /:id` removes one of the caller's records and, when it
 * is still `scheduled`, its job.
 */
module EmailRoutes {
  import opened Options
  import opened Store
  import Seqs
  import Config
  import DeliveryZones
  import Scheduler

  /** The authenticated caller. */
  datatype User = User(id: int, email: string)

  /**
   * A request body of the expected shape. `startTime` is the instant the
   * body's ISO-8601 string denotes, or `None` when the string is not a
   * datetime; the numbers are exact rationals.
   */
  datatype RawPayload = RawPayload(
    subject: string,
    body: string,
    recipients: seq<string>,
    startTime: Option<int>,
    delayBetween: real,
    hourlyLimit: real,
    zoneId: Option<string>)

  /** A route's reply. */
  datatype Response =
    | BadRequest(error: string)
    | NotFound(error: string)
    | ScheduledCount(scheduled: nat)
    | Listing(emails: seq<EmailRecord>)
    | Deleted

  // ---------------------------------------------------------------------
  // POST /schedule
  // ---------------------------------------------------------------------

  /**
   * The request schema: non-empty subject and body, at least one recipient
   * and every recipient an e-mail address (`isEmail`), a datetime start,
   * spacing and hourly limit at least 1, and a zone from the table if any.
   */
  predicate SchemaAccepts(raw: RawPayload, isEmail: string -> bool) {
    && |raw.subject| >= 1
    && |raw.body| >= 1
    && |raw.recipients| >= 1
    && (forall i :: 0 <= i < |raw.recipients| ==> isEmail(raw.recipients[i]))
    && raw.startTime.Some?
    && raw.delayBetween >= 1.0
    && raw.hourlyLimit >= 1.0
    && (raw.zoneId.None? || raw.zoneId.value in DeliveryZones.ZoneIds)
  }

  /** `Math.round`: the nearest integer, halves rounded up. */
  function JsRound(x: real): (n: int)
    ensures n as real - 0.5 <= x < n as real + 0.5
  {
    (x + 0.5).Floor
  }

  /** `Math.max(1, Math.round(delayBetween * multiplier))`. */
  function NormalizeDelay(delayBetween: real, multiplier: real): (s: int)
    ensures s >= 1
    ensures s == 1 || s as real - 0.5 <= delayBetween * multiplier < s as real + 0.5
    ensures delayBetween * multiplier >= 1.5 ==> s as real - 0.5 <= delayBetween * multiplier < s as real + 0.5
  {
    var r := JsRound(delayBetween * multiplier);
    if r >= 1 then r else 1
  }

  /** `Math.min(requested, zoneCap, globalCap)`. */
  function NormalizeHourlyLimit(requested: real, zoneCap: nat, globalCap: nat): (h: real)
    ensures h <= requested && h <= zoneCap as real && h <= globalCap as real
    ensures h == requested || h == zoneCap as real || h == globalCap as real
  {
    var m := if requested <= zoneCap as real then requested else zoneCap as real;
    if m <= globalCap as real then m else globalCap as real
  }

  /**
   * A zone multiplier of at least 1 never shortens the spacing by more than
   * the rounding: the normalized spacing is at least the requested one less
   * a half second.
   */
  lemma NormalizeDelayNeverShortens(delayBetween: real, multiplier: real)
    requires delayBetween >= 1.0 && multiplier >= 1.0
    ensures NormalizeDelay(delayBetween, multiplier) as real >= delayBetween - 0.5
  {
    var s := NormalizeDelay(delayBetween, multiplier);
    assert delayBetween * multiplier >= delayBetween * 1.0;
    if s == 1 {
      var r := JsRound(delayBetween * multiplier);
      assert r as real + 0.5 > delayBetween * multiplier;
    }
  }

  /** A 5-second spacing in a zone with multiplier 1.15 becomes 6 seconds (5.75 rounds up). */
  lemma NormalizeDelayExample()
    ensures NormalizeDelay(5.0, 1.15) == 6
    ensures NormalizeDelay(1.0, 1.35) == 1
    ensures NormalizeDelay(2.0, 1.25) == 3
  {
  }

  /** The zone policy a request selects. */
  function ZoneOf(raw: RawPayload): DeliveryZones.DeliveryZoneRule {
    DeliveryZones.GetDeliveryZoneRule(raw.zoneId)
  }

  /** The arguments the route passes to the planner for an accepted request. */
  function ParamsFor(raw: RawPayload, user: User): (p: Scheduler.ScheduleParams)
    requires raw.startTime.Some?
    ensures p.subject == raw.subject && p.body == raw.body
    ensures p.recipients == raw.recipients && p.startTime == raw.startTime.value
    ensures p.senderEmail == user.email && p.userId == Some(user.id)
    ensures p.delayBetweenSeconds == NormalizeDelay(raw.delayBetween, ZoneOf(raw).delayMultiplier)
    ensures p.hourlyLimit == NormalizeHourlyLimit(raw.hourlyLimit, ZoneOf(raw).hourlyLimitCap, Config.MaxEmailsPerHourPerSender)
  {
    var zone := ZoneOf(raw);
    Scheduler.ScheduleParams(
      raw.subject, raw.body, raw.recipients, raw.startTime.value,
      NormalizeDelay(raw.delayBetween, zone.delayMultiplier),
      user.email, Some(user.id),
      NormalizeHourlyLimit(raw.hourlyLimit, zone.hourlyLimitCap, Config.MaxEmailsPerHourPerSender))
  }

  /**
   * `POST /schedule` at time `now`: a body the schema refuses is answered
   * 400 and changes nothing; an accepted one schedules one record and one
   * job per recipient and answers with the number scheduled.
   */
  function PostSchedule(db: Db, user: User, raw: RawPayload, isEmail: string -> bool, now: nat): (res: (Response, Db))
    requires RecordsKeyed(db.records, db.nextId)
    ensures !SchemaAccepts(raw, isEmail) ==> res == (BadRequest("Invalid payload"), db)
    ensures SchemaAccepts(raw, isEmail) ==>
      && res.0 == ScheduledCount(|raw.recipients|)
      && res.0.scheduled >= 1
      && res.1 == Scheduler.ScheduleEmails(db, ParamsFor(raw, user), now).1
      && res.1.nextId == db.nextId + |raw.recipients|
  {
    if !SchemaAccepts(raw, isEmail) then (BadRequest("Invalid payload"), db)
    else
      var (created, after) := Scheduler.ScheduleEmails(db, ParamsFor(raw, user), now);
      (ScheduledCount(|created|), after)
  }

  /**
   * For an accepted request every job carries an hourly limit between 1
   * and both the zone's cap and the global cap of 200, and the spacing is
   * at least one second.
   */
  lemma AcceptedParamsWithinCaps(raw: RawPayload, user: User, isEmail: string -> bool)
    requires SchemaAccepts(raw, isEmail)
    ensures var p := ParamsFor(raw, user);
      && 1.0 <= p.hourlyLimit
      && p.hourlyLimit <= ZoneOf(raw).hourlyLimitCap as real
      && p.hourlyLimit <= Config.MaxEmailsPerHourPerSender as real
      && p.hourlyLimit <= 200.0
      && p.delayBetweenSeconds >= 1
  {
    DeliveryZones.LookupRuleBounds(raw.zoneId);
  }

  /**
   * An accepted request gives recipient `i` a `scheduled` record with id
   * `nextId + i`, carrying the request's subject and body, owned and sent
   * by the caller, due no earlier than now.
   */
  lemma PostScheduleCreatesRecord(db: Db, user: User, raw: RawPayload, isEmail: string -> bool, now: nat, i: nat)
    requires Valid(db)
    requires SchemaAccepts(raw, isEmail)
    requires i < |raw.recipients|
    ensures var records := PostSchedule(db, user, raw, isEmail, now).1.records;
      && db.nextId + i in records
      && records[db.nextId + i].recipient == raw.recipients[i]
      && records[db.nextId + i].subject == raw.subject
      && records[db.nextId + i].body == raw.body
      && records[db.nextId + i].senderEmail == user.email
      && records[db.nextId + i].userId == Some(user.id)
      && records[db.nextId + i].status == Scheduled
      && now <= records[db.nextId + i].scheduledTime
  {
    var p := ParamsFor(raw, user);
    AcceptedParamsWithinCaps(raw, user, isEmail);
    Scheduler.BatchRecordEntry(db, p, now, i);
  }

  /**
   * An accepted request gives recipient `i` a job keyed by its record's
   * job id, carrying the caller as sender and the capped hourly limit, and
   * due when the record is.
   */
  lemma PostScheduleCreatesJob(db: Db, user: User, raw: RawPayload, isEmail: string -> bool, now: nat, i: nat)
    requires Valid(db)
    requires SchemaAccepts(raw, isEmail)
    requires i < |raw.recipients|
    ensures var after := PostSchedule(db, user, raw, isEmail, now).1;
      var limit := NormalizeHourlyLimit(raw.hourlyLimit, ZoneOf(raw).hourlyLimitCap, Config.MaxEmailsPerHourPerSender);
      && JobId(db.nextId + i) in after.jobs
      && after.jobs[JobId(db.nextId + i)].data == JobData(db.nextId + i, user.email, limit)
      && db.nextId + i in after.records
      && after.jobs[JobId(db.nextId + i)].dueAt == after.records[db.nextId + i].scheduledTime
  {
    var p := ParamsFor(raw, user);
    AcceptedParamsWithinCaps(raw, user, isEmail);
    Scheduler.BatchRecordEntry(db, p, now, i);
    Scheduler.BatchJobEntry(db, p, now, i);
  }

  /** Accepting a request keeps the store consistent. */
  lemma PostScheduleKeepsValid(db: Db, user: User, raw: RawPayload, isEmail: string -> bool, now: nat)
    requires Valid(db)
    ensures Valid(PostSchedule(db, user, raw, isEmail, now).1)
  {
    if SchemaAccepts(raw, isEmail) {
      Scheduler.ScheduleKeepsValid(db, ParamsFor(raw, user), now);
    }
  }

  // ---------------------------------------------------------------------
  // GET /scheduled and GET /sent
  // ---------------------------------------------------------------------

  /** The records with ids below `n`, in increasing id order. */
  function RowsBelow(records: map<nat, EmailRecord>, n: nat): (rows: seq<EmailRecord>)
    ensures forall i :: 0 <= i < |rows| ==> rows[i].id < n || (exists id :: id < n && id in records && records[id] == rows[i])
    ensures forall id :: id < n && id in records ==> records[id] in rows
    ensures forall x :: x in rows ==> exists id :: id < n && id in records && records[id] == x
  {
    if n == 0 then []
    else
      var before := RowsBelow(records, n - 1);
      before + (if n - 1 in records then [records[n - 1]] else [])
  }

  /** When every record carries its own key as its id, the rows come in strictly increasing id order, so none repeats. */
  lemma {:induction false} RowsBelowDistinct(records: map<nat, EmailRecord>, n: nat)
    requires forall id :: id in records ==> records[id].id == id
    ensures var rows := RowsBelow(records, n);
      && (forall i :: 0 <= i < |rows| ==> rows[i].id < n)
      && (forall i, j :: 0 <= i < j < |rows| ==> rows[i].id < rows[j].id)
      && Seqs.NoDuplicates(rows)
  {
    if n > 0 {
      RowsBelowDistinct(records, n - 1);
      var before := RowsBelow(records, n - 1);
      var rows := RowsBelow(records, n);
      assert rows == before + (if n - 1 in records then [records[n - 1]] else []);
      forall i | 0 <= i < |rows| ensures rows[i].id < n {
        if i < |before| {
          assert rows[i] == before[i];
        }
      }
      forall i, j | 0 <= i < j < |rows| ensures rows[i].id < rows[j].id {
        assert rows[i] == before[i];
        if j >= |before| {
          assert rows[j] == records[n - 1];
        } else {
          assert rows[j] == before[j];
        }
      }
    }
  }

  /** The table as the query sees it: every stored record, in id order. */
  function Rows(db: Db): seq<EmailRecord> {
    RowsBelow(db.records, db.nextId)
  }

  /** Under the store's keying every stored record is a row and every row is stored. */
  lemma RowsAreStored(db: Db, x: EmailRecord)
    requires RecordsKeyed(db.records, db.nextId)
    ensures x in Rows(db) <==> x in db.records.Values
  {
    if x in db.records.Values {
      var id :| id in db.records && db.records[id] == x;
      assert id < db.nextId;
    }
  }

  /** `where: { userId, status: "scheduled" }`. */
  predicate IsScheduledOf(userId: int, r: EmailRecord) {
    r.userId == Some(userId) && r.status == Scheduled
  }

  /** `where: { userId, status: { in: ["sent", "failed"] } }`. */
  predicate IsFinishedOf(userId: int, r: EmailRecord) {
    r.userId == Some(userId) && (r.status == Sent || r.status == Failed)
  }

  /** `orderBy: { scheduledTime: "asc" }`. */
  predicate ByScheduledTime(a: EmailRecord, b: EmailRecord) {
    a.scheduledTime <= b.scheduledTime
  }

  /** `orderBy: { sentAt: "desc" }`; a missing `sentAt` sorts first, as PostgreSQL orders nulls in a descending sort. */
  predicate BySentAtDesc(a: EmailRecord, b: EmailRecord) {
    a.sentAt.None? || (b.sentAt.Some? && a.sentAt.value >= b.sentAt.value)
  }

  /** `GET /scheduled`. */
  function ScheduledView(db: Db, userId: int): (res: Response)
    ensures res.Listing?
    ensures forall i :: 0 <= i < |res.emails| ==> IsScheduledOf(userId, res.emails[i]) && res.emails[i] in Rows(db)
  {
    var rows := Rows(db);
    var keep := r => IsScheduledOf(userId, r);
    var sorted := Seqs.Sort(Seqs.Filter(rows, keep), ByScheduledTime);
    Seqs.SortFilterMembers(rows, keep, ByScheduledTime);
    assert forall i :: 0 <= i < |sorted| ==> keep(sorted[i]) && sorted[i] in rows;
    Listing(sorted)
  }

  /** `GET /sent`. */
  function SentView(db: Db, userId: int): (res: Response)
    ensures res.Listing?
    ensures forall i :: 0 <= i < |res.emails| ==> IsFinishedOf(userId, res.emails[i]) && res.emails[i] in Rows(db)
  {
    var rows := Rows(db);
    var keep := r => IsFinishedOf(userId, r);
    var sorted := Seqs.Sort(Seqs.Filter(rows, keep), BySentAtDesc);
    Seqs.SortFilterMembers(rows, keep, BySentAtDesc);
    assert forall i :: 0 <= i < |sorted| ==> keep(sorted[i]) && sorted[i] in rows;
    Listing(sorted)
  }

  /** Membership in a sorted, filtered listing of the table. */
  lemma ListingMembers(db: Db, keep: EmailRecord -> bool, le: (EmailRecord, EmailRecord) -> bool, x: EmailRecord)
    requires RecordsKeyed(db.records, db.nextId)
    ensures x in Seqs.Sort(Seqs.Filter(Rows(db), keep), le) <==> x in db.records.Values && keep(x)
  {
    var filtered := Seqs.Filter(Rows(db), keep);
    Seqs.FilterSpec(Rows(db), keep);
    RowsAreStored(db, x);
    assert x in Seqs.Sort(filtered, le) <==> x in multiset(Seqs.Sort(filtered, le));
    assert x in filtered <==> x in multiset(filtered);
  }

  /**
   * `GET /scheduled` lists exactly the caller's `scheduled` records, each
   * once per row, earliest due time first.
   */
  lemma ScheduledViewSpec(db: Db, userId: int)
    requires RecordsKeyed(db.records, db.nextId)
    ensures var emails := ScheduledView(db, userId).emails;
      && (forall x :: x in emails <==> x in db.records.Values && IsScheduledOf(userId, x))
      && (forall i :: 0 < i < |emails| ==> emails[i - 1].scheduledTime <= emails[i].scheduledTime)
      && Seqs.NoDuplicates(emails)
  {
    var emails := ScheduledView(db, userId).emails;
    var filtered := Seqs.Filter(Rows(db), r => IsScheduledOf(userId, r));
    RowsBelowDistinct(db.records, db.nextId);
    Seqs.FilterKeepsNoDuplicates(Rows(db), r => IsScheduledOf(userId, r));
    Seqs.SortSpec(filtered, ByScheduledTime);
    Seqs.PermutationKeepsNoDuplicates(filtered, emails);
    forall x ensures x in emails <==> x in db.records.Values && IsScheduledOf(userId, x) {
      ListingMembers(db, r => IsScheduledOf(userId, r), ByScheduledTime, x);
    }
  }

  /**
   * `GET /sent` lists exactly the caller's `sent` and `failed` records,
   * latest `sentAt` first.
   */
  lemma SentViewSpec(db: Db, userId: int)
    requires RecordsKeyed(db.records, db.nextId)
    ensures var emails := SentView(db, userId).emails;
      && (forall x :: x in emails <==> x in db.records.Values && IsFinishedOf(userId, x))
      && (forall i :: 0 < i < |emails| ==> BySentAtDesc(emails[i - 1], emails[i]))
      && Seqs.NoDuplicates(emails)
  {
    var emails := SentView(db, userId).emails;
    var filtered := Seqs.Filter(Rows(db), r => IsFinishedOf(userId, r));
    RowsBelowDistinct(db.records, db.nextId);
    Seqs.FilterKeepsNoDuplicates(Rows(db), r => IsFinishedOf(userId, r));
    Seqs.SortSpec(filtered, BySentAtDesc);
    Seqs.PermutationKeepsNoDuplicates(filtered, emails);
    forall x ensures x in emails <==> x in db.records.Values && IsFinishedOf(userId, x) {
      ListingMembers(db, r => IsFinishedOf(userId, r), BySentAtDesc, x);
    }
  }

  /** In a consistent store every listed finished record has its `sentAt`, so the null ordering never shows. */
  lemma SentViewHasTimes(db: Db, userId: int)
    requires Valid(db)
    ensures var emails := SentView(db, userId).emails;
      && (forall i :: 0 <= i < |emails| ==> emails[i].sentAt.Some?)
      && (forall i :: 0 < i < |emails| ==> emails[i - 1].sentAt.value >= emails[i].sentAt.value)
  {
    var emails := SentView(db, userId).emails;
    SentViewSpec(db, userId);
    forall i | 0 <= i < |emails| ensures emails[i].sentAt.Some? {
      assert emails[i] in emails;
      var id :| id in db.records && db.records[id] == emails[i];
    }
  }

  // ---------------------------------------------------------------------
  // DELETE /:id
  // ---------------------------------------------------------------------

  /** `Number.isInteger`: a finite number without a fractional part. */
  predicate IsInteger(x: real) {
    x.Floor as real == x
  }

  /**
   * `DELETE /:id` by the caller `userId`. `idParam` is `Number(id)`, `None`
   * for `NaN` and the infinities. A non-integer is answered 400; an id that
   * names no record of the caller 404; otherwise the record's job is
   * removed when the record is still `scheduled`, and the record is deleted.
   */
  function DeleteEmail(db: Db, userId: int, idParam: Option<real>): (res: (Response, Db))
    ensures idParam.None? || !IsInteger(idParam.value) ==> res == (BadRequest("Invalid email id"), db)
    ensures idParam.Some? && IsInteger(idParam.value) ==>
      var id := idParam.value.Floor;
      if id >= 0 && id as nat in db.records && db.records[id as nat].userId == Some(userId) then
        && res.0 == Deleted
        && res.1.records == db.records - {id as nat}
        && res.1.nextId == db.nextId
        && (db.records[id as nat].status == Scheduled ==> res.1.jobs == db.jobs - {JobId(id as nat)})
        && (db.records[id as nat].status != Scheduled ==> res.1.jobs == db.jobs)
      else
        res == (NotFound("Email not found"), db)
  {
    if idParam.None? || !IsInteger(idParam.value) then (BadRequest("Invalid email id"), db)
    else
      var id := idParam.value.Floor;
      if id < 0 || id as nat !in db.records || db.records[id as nat].userId != Some(userId) then
        (NotFound("Email not found"), db)
      else
        var jobs := if db.records[id as nat].status == Scheduled then db.jobs - {JobId(id as nat)} else db.jobs;
        (Deleted, Db(db.records - {id as nat}, db.nextId, jobs))
  }

  /** Deleting keeps the store consistent. */
  lemma DeleteKeepsValid(db: Db, userId: int, idParam: Option<real>)
    requires Valid(db)
    ensures Valid(DeleteEmail(db, userId, idParam).1)
  {
  }

  /**
   * After a `scheduled` record is deleted from a consistent store, no live
   * job refers to it any more: nothing can deliver it.
   */
  lemma DeleteScheduledCancelsJob(db: Db, userId: int, id: nat)
    requires Valid(db)
    requires id in db.records && db.records[id].userId == Some(userId) && db.records[id].status == Scheduled
    ensures var after := DeleteEmail(db, userId, Some(id as real)).1;
      && id !in after.records
      && (forall k :: k in after.jobs ==> after.jobs[k].data.emailId != id)
  {
    assert (id as real).Floor == id;
  }

  /** A caller can never delete another user's record: the store is left as it was. */
  lemma DeleteOnlyOwn(db: Db, userId: int, id: nat)
    requires id in db.records && db.records[id].userId != Some(userId)
    ensures DeleteEmail(db, userId, Some(id as real)) == (NotFound("Email not found"), db)
  {
    assert (id as real).Floor == id;
  }
}
