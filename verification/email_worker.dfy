/**
 * The delivery handler run for each due job: it looks the record up, skips
 * it when it is gone or already sent, asks the hourly gate for a slot,
 * postpones the record and its job to the next hour on refusal, and
 * otherwise hands the message to the transport and records the outcome.
 */
module EmailWorker {
  import opened Options
  import opened Store
  import Config
  import RateLimiter

  /** What the handler hands to the transport: `{from, to, subject, body}`. */
  datatype Mail = Mail(from: string, to: string, subject: string, body: string)

  /**
   * How a run ends. `SendFailed` is the run that marks the record failed
   * and rethrows the transport's error.
   */
  datatype Outcome =
    | Skipped
    | Deferred(retryAt: nat)
    | Delivered(mail: Mail)
    | SendFailed(mail: Mail)
  {
    /** Whether the run called the transport. */
    predicate Sends() { Delivered? || SendFailed? }
  }

  /** The state a run reads and writes: the database and job store, and the counter store. */
  datatype World = World(db: Db, counters: RateLimiter.Counters)

  /** `hourlyLimit || MAX_EMAILS_PER_HOUR_PER_SENDER`: a zero limit is falsy and falls back to the global cap. */
  function EffectiveLimit(hourlyLimit: real): (limit: real)
    ensures hourlyLimit != 0.0 ==> limit == hourlyLimit
    ensures hourlyLimit == 0.0 ==> limit == Config.MaxEmailsPerHourPerSender as real
  {
    if hourlyLimit != 0.0 then hourlyLimit else Config.MaxEmailsPerHourPerSender as real
  }

  /** The message the handler sends for a record: from the job's sender, the record's recipient, subject and body. */
  function MailFor(data: JobData, r: EmailRecord): Mail {
    Mail(data.senderEmail, r.recipient, r.subject, r.body)
  }

  /** The record after a transport attempt at `now`: `sent` or `failed`, stamped `sentAt = now`. */
  function Finish(r: EmailRecord, ok: bool, now: nat): (r': EmailRecord)
    ensures r'.status == (if ok then Sent else Failed) && r'.sentAt == Some(now)
    ensures r'.id == r.id && r'.recipient == r.recipient && r'.subject == r.subject && r'.body == r.body
    ensures r'.scheduledTime == r.scheduledTime && r'.userId == r.userId && r'.senderEmail == r.senderEmail
  {
    r.(status := if ok then Sent else Failed, sentAt := Some(now))
  }

  /**
   * One run of the handler for the live job `jobKey` at time `now`;
   * `sendOk` is the transport's outcome. The job leaves the live store when
   * the run ends, except on a refusal, when it waits again until `retryAt`.
   */
  function RunJob(w: World, jobKey: string, now: nat, sendOk: bool): (res: (Outcome, World))
    requires jobKey in w.db.jobs
    ensures var data := w.db.jobs[jobKey].data;
      var pending := data.emailId in w.db.records && w.db.records[data.emailId].status != Sent;
      var key := GateKey(data, now);
      var (out, after) := res;
      && (out == Skipped <==> !pending)
      && (out.Sends() <==> pending && (RateLimiter.CountOf(w.counters, key) as real) < EffectiveLimit(data.hourlyLimit))
      && (out.Deferred? <==> pending && !((RateLimiter.CountOf(w.counters, key) as real) < EffectiveLimit(data.hourlyLimit)))
      && (out.Deferred? ==> out.retryAt == RateLimiter.NextHourStart(now) && now < out.retryAt && jobKey in after.db.jobs)
      && (!out.Deferred? ==> after.db.jobs == w.db.jobs - {jobKey})
      && (out.Sends() ==> out.mail == MailFor(data, w.db.records[data.emailId]))
      && after.db.nextId == w.db.nextId && after.db.records.Keys == w.db.records.Keys
  {
    var db := w.db;
    var job := db.jobs[jobKey];
    var id := job.data.emailId;
    if id !in db.records || db.records[id].status == Sent then
      (Skipped, World(db.(jobs := db.jobs - {jobKey}), w.counters))
    else
      var email := db.records[id];
      var (check, counters) := RateLimiter.CheckHourlyLimit(w.counters, job.data.senderEmail, EffectiveLimit(job.data.hourlyLimit), now);
      if !check.allowed && check.retryAt.Some? && check.retryAt.value != 0 then
        var retryAt := check.retryAt.value;
        var records := db.records[id := email.(scheduledTime := retryAt)];
        var jobs := db.jobs[jobKey := job.(dueAt := retryAt)];
        (Deferred(retryAt), World(Db(records, db.nextId, jobs), counters))
      else
        var records := db.records[id := Finish(email, sendOk, now)];
        var mail := MailFor(job.data, email);
        (if sendOk then Delivered(mail) else SendFailed(mail),
         World(Db(records, db.nextId, db.jobs - {jobKey}), counters))
  }

  /** The counter key the run for `data` at `now` draws on. */
  function GateKey(data: JobData, now: nat): string {
    RateLimiter.CounterKey(RateLimiter.HourIndex(now), data.senderEmail)
  }

  /**
   * A job whose record is gone or already `sent` is dropped without a
   * transport call and without touching the records or the counters.
   */
  lemma SkipChangesNothing(w: World, jobKey: string, now: nat, sendOk: bool)
    requires jobKey in w.db.jobs
    requires var id := w.db.jobs[jobKey].data.emailId;
      id !in w.db.records || w.db.records[id].status == Sent
    ensures var (out, after) := RunJob(w, jobKey, now, sendOk);
      && out == Skipped
      && after.db.records == w.db.records
      && after.counters == w.counters
      && after.db.jobs == w.db.jobs - {jobKey}
  {
  }

  /**
   * A run for a pending record always consults the gate first, with the
   * job's limit or 200 when that is 0. When the gate refuses, the run sends
   * nothing, moves the record's due time and the job to the start of the
   * next hour (strictly later than `now`), and keeps the status.
   */
  lemma RefusalDefersToNextHour(w: World, jobKey: string, now: nat, sendOk: bool)
    requires jobKey in w.db.jobs
    requires var data := w.db.jobs[jobKey].data;
      && data.emailId in w.db.records && w.db.records[data.emailId].status != Sent
      && !RateLimiter.CheckHourlyLimit(w.counters, data.senderEmail, EffectiveLimit(data.hourlyLimit), now).0.allowed
    ensures var data := w.db.jobs[jobKey].data;
      var (out, after) := RunJob(w, jobKey, now, sendOk);
      && out == Deferred(RateLimiter.NextHourStart(now))
      && !out.Sends()
      && now < out.retryAt
      && after.counters == w.counters
      && after.db.records == w.db.records[data.emailId := w.db.records[data.emailId].(scheduledTime := out.retryAt)]
      && after.db.records[data.emailId].status == w.db.records[data.emailId].status
      && jobKey in after.db.jobs
      && after.db.jobs[jobKey] == QueuedJob(data, out.retryAt)
  {
    var data := w.db.jobs[jobKey].data;
    RateLimiter.DenialRetriesNextHour(w.counters, data.senderEmail, EffectiveLimit(data.hourlyLimit), now);
  }

  /**
   * When the gate admits the run, the transport is called exactly once
   * with the record's message; success marks the record `sent` and failure
   * `failed`, both stamped `now`, the job leaves the store and the sender's
   * count for this hour rises by one.
   */
  lemma AdmittedRunSends(w: World, jobKey: string, now: nat, sendOk: bool)
    requires jobKey in w.db.jobs
    requires var data := w.db.jobs[jobKey].data;
      && data.emailId in w.db.records && w.db.records[data.emailId].status != Sent
      && RateLimiter.CheckHourlyLimit(w.counters, data.senderEmail, EffectiveLimit(data.hourlyLimit), now).0.allowed
    ensures var data := w.db.jobs[jobKey].data;
      var email := w.db.records[data.emailId];
      var (out, after) := RunJob(w, jobKey, now, sendOk);
      && out == (if sendOk then Delivered(MailFor(data, email)) else SendFailed(MailFor(data, email)))
      && out.mail == Mail(data.senderEmail, email.recipient, email.subject, email.body)
      && data.emailId in after.db.records
      && after.db.records[data.emailId].status == (if sendOk then Sent else Failed)
      && after.db.records[data.emailId].sentAt == Some(now)
      && after.db.jobs == w.db.jobs - {jobKey}
      && RateLimiter.CountOf(after.counters, GateKey(data, now)) == RateLimiter.CountOf(w.counters, GateKey(data, now)) + 1
  {
  }

  /**
   * The transport is called only after the gate admitted the run: a run
   * that sends found the sender's count for this hour below the effective
   * limit and raised it by one; a run that does not send leaves every
   * count as it was.
   */
  lemma SendOnlyWithinQuota(w: World, jobKey: string, now: nat, sendOk: bool)
    requires jobKey in w.db.jobs
    ensures var data := w.db.jobs[jobKey].data;
      var key := GateKey(data, now);
      var (out, after) := RunJob(w, jobKey, now, sendOk);
      && (out.Sends() ==>
            && (RateLimiter.CountOf(w.counters, key) as real) < EffectiveLimit(data.hourlyLimit)
            && RateLimiter.CountOf(after.counters, key) == RateLimiter.CountOf(w.counters, key) + 1)
      && (!out.Sends() ==> forall k :: RateLimiter.CountOf(after.counters, k) == RateLimiter.CountOf(w.counters, k))
  {
  }

  /**
   * The sender's hourly count never passes a bound `cap` that every job's
   * effective limit respects: with a count at most `cap` before, it is at
   * most `cap` after, whatever the transport does.
   */
  lemma CountStaysWithinCap(w: World, jobKey: string, now: nat, sendOk: bool, cap: nat, key: string)
    requires jobKey in w.db.jobs
    requires EffectiveLimit(w.db.jobs[jobKey].data.hourlyLimit) <= cap as real
    requires RateLimiter.CountOf(w.counters, key) <= cap
    ensures RateLimiter.CountOf(RunJob(w, jobKey, now, sendOk).1.counters, key) <= cap
  {
    var data := w.db.jobs[jobKey].data;
    SendOnlyWithinQuota(w, jobKey, now, sendOk);
    var (check, c) := RateLimiter.CheckHourlyLimit(w.counters, data.senderEmail, EffectiveLimit(data.hourlyLimit), now);
    if key != GateKey(data, now) {
      assert RateLimiter.CountOf(c, key) == RateLimiter.CountOf(w.counters, key);
    }
  }

  /** A `sent` record stays `sent`, untouched: no run ever moves it out of that state. */
  lemma SentIsFinal(w: World, jobKey: string, now: nat, sendOk: bool, id: nat)
    requires jobKey in w.db.jobs
    requires id in w.db.records && w.db.records[id].status == Sent
    ensures var after := RunJob(w, jobKey, now, sendOk).1;
      id in after.db.records && after.db.records[id] == w.db.records[id]
  {
  }

  /** Only the job's own record can change, and the store keeps its set of record ids. */
  lemma RunTouchesOnlyItsRecord(w: World, jobKey: string, now: nat, sendOk: bool)
    requires jobKey in w.db.jobs
    ensures var after := RunJob(w, jobKey, now, sendOk).1;
      && after.db.records.Keys == w.db.records.Keys
      && after.db.nextId == w.db.nextId
      && (forall id :: id in w.db.records && id != w.db.jobs[jobKey].data.emailId ==>
            after.db.records[id] == w.db.records[id])
      && (forall k :: k in w.db.jobs && k != jobKey ==> k in after.db.jobs && after.db.jobs[k] == w.db.jobs[k])
      && after.db.jobs.Keys <= w.db.jobs.Keys
  {
  }

  /** A run keeps the store consistent. */
  lemma RunKeepsValid(w: World, jobKey: string, now: nat, sendOk: bool)
    requires Valid(w.db)
    requires jobKey in w.db.jobs
    ensures Valid(RunJob(w, jobKey, now, sendOk).1.db)
  {
    var after := RunJob(w, jobKey, now, sendOk).1;
    assert JobsKeyed(after.db.jobs, after.db.nextId) by {
      forall k | k in after.db.jobs
        ensures after.db.jobs[k].data.emailId < after.db.nextId && k == JobId(after.db.jobs[k].data.emailId)
      {
        assert k in w.db.jobs;
        assert after.db.jobs[k].data == w.db.jobs[k].data;
      }
    }
  }

  /**
   * A `failed` record is not skipped: a live job for it runs through the
   * gate again like a `scheduled` one (only `sent` ends delivery).
   */
  lemma FailedIsRetried(w: World, jobKey: string, now: nat, sendOk: bool)
    requires jobKey in w.db.jobs
    requires var id := w.db.jobs[jobKey].data.emailId;
      id in w.db.records && w.db.records[id].status == Failed
    ensures RunJob(w, jobKey, now, sendOk).0 != Skipped
  {
  }
}
