/**
 * The admission planner (`scheduleEmails`): spreads a batch over time from
 * `max(startTime, now)` at a fixed spacing, creates one `scheduled` record
 * per recipient in one all-or-nothing write, then adds one delayed job per
 * created record.
 */
module Scheduler {
  import opened Options
  import opened Store

  /** The arguments of `scheduleEmails`. Times in milliseconds; the spacing in seconds. */
  datatype ScheduleParams = ScheduleParams(
    subject: string,
    body: string,
    recipients: seq<string>,
    startTime: int,
    delayBetweenSeconds: int,
    senderEmail: string,
    userId: Option<int>,
    hourlyLimit: real)

  /** The arguments of one `emailQueue.add` call: the job id, the payload and the delay in ms. */
  datatype JobSpec = JobSpec(jobId: string, data: JobData, delay: nat)

  /** `Math.max(startTime, now)`: a batch never starts in the past. */
  function BaseTime(startTime: int, now: nat): (b: int)
    ensures b >= now && b >= startTime
    ensures b == now || b == startTime
  {
    if startTime >= now then startTime else now
  }

  /** The due time of each recipient: the base time plus `index · delay · 1000` ms. */
  function PlanTimes(base: int, delaySeconds: int, n: nat): (times: seq<int>)
    ensures |times| == n
  {
    seq(n, i requires 0 <= i < n => base + i * delaySeconds * 1000)
  }

  /**
   * The plan starts at the base time and consecutive entries are exactly
   * `delay · 1000` ms apart.
   */
  lemma PlanSpacing(base: int, delaySeconds: int, n: nat)
    ensures n > 0 ==> PlanTimes(base, delaySeconds, n)[0] == base
    ensures forall i :: 0 < i < n ==>
      PlanTimes(base, delaySeconds, n)[i] == PlanTimes(base, delaySeconds, n)[i - 1] + delaySeconds * 1000
  {
    var times := PlanTimes(base, delaySeconds, n);
    forall i | 0 < i < n ensures times[i] == times[i - 1] + delaySeconds * 1000 {
      assert times[i] == base + i * delaySeconds * 1000;
      assert times[i - 1] == base + (i - 1) * delaySeconds * 1000;
    }
  }

  /** With a non-negative spacing the plan never goes back in time. */
  lemma {:induction false} PlanTimesMonotone(base: int, delaySeconds: int, n: nat, i: nat, j: nat)
    requires delaySeconds >= 0
    requires i <= j < n
    ensures base <= PlanTimes(base, delaySeconds, n)[i] <= PlanTimes(base, delaySeconds, n)[j]
    decreases j - i, i
  {
    var times := PlanTimes(base, delaySeconds, n);
    PlanSpacing(base, delaySeconds, n);
    if i < j {
      PlanTimesMonotone(base, delaySeconds, n, i, j - 1);
    } else if i > 0 {
      PlanTimesMonotone(base, delaySeconds, n, i - 1, i - 1);
    }
  }

  /** The record created for recipient `i`, before the store has it. */
  function NewRecord(id: nat, p: ScheduleParams, i: nat, time: int, now: nat): EmailRecord
    requires i < |p.recipients|
  {
    EmailRecord(id, p.recipients[i], p.subject, p.body, time, Scheduled, p.senderEmail, p.userId, None, now)
  }

  /** The job added for a created record: id `email-<id>`, delay `max(0, scheduledTime - now)`. */
  function JobFor(r: EmailRecord, hourlyLimit: real, now: nat): (spec: JobSpec)
    ensures spec.jobId == JobId(r.id)
    ensures spec.data == JobData(r.id, r.senderEmail, hourlyLimit)
    ensures r.scheduledTime >= now ==> now + spec.delay == r.scheduledTime
    ensures r.scheduledTime < now ==> spec.delay == 0
  {
    JobSpec(JobId(r.id), JobData(r.id, r.senderEmail, hourlyLimit),
            if r.scheduledTime - now > 0 then r.scheduledTime - now else 0)
  }

  /** Adds the jobs one after the other; the job store keeps the first job for any id. */
  function EnqueueAll(jobs: map<string, QueuedJob>, specs: seq<JobSpec>, now: nat): (r: map<string, QueuedJob>)
    ensures r.Keys == jobs.Keys + (set i | 0 <= i < |specs| :: specs[i].jobId)
    ensures forall k :: k in jobs ==> r[k] == jobs[k]
    decreases |specs|
  {
    if specs == [] then jobs
    else
      var r := EnqueueAll(Enqueue(jobs, specs[0].jobId, QueuedJob(specs[0].data, now + specs[0].delay)), specs[1..], now);
      assert (set i | 0 <= i < |specs| :: specs[i].jobId)
          == {specs[0].jobId} + (set i | 0 <= i < |specs[1..]| :: specs[1..][i].jobId) by {
        forall i | 0 <= i < |specs[1..]| ensures specs[1..][i].jobId == specs[i + 1].jobId { }
        forall i | 1 <= i < |specs| ensures specs[i].jobId in set i | 0 <= i < |specs[1..]| :: specs[1..][i].jobId {
          assert specs[i] == specs[1..][i - 1];
        }
      }
      r
  }

  /** Job ids that are pairwise distinct and new to the store. */
  predicate FreshDistinctIds(jobs: map<string, QueuedJob>, specs: seq<JobSpec>) {
    && (forall i :: 0 <= i < |specs| ==> specs[i].jobId !in jobs)
    && (forall i, j :: 0 <= i < j < |specs| ==> specs[i].jobId != specs[j].jobId)
  }

  /** With fresh, distinct ids every job lands in the store as given. */
  lemma {:induction false} EnqueueAllFresh(jobs: map<string, QueuedJob>, specs: seq<JobSpec>, now: nat)
    requires FreshDistinctIds(jobs, specs)
    ensures forall i :: 0 <= i < |specs| ==>
      EnqueueAll(jobs, specs, now)[specs[i].jobId] == QueuedJob(specs[i].data, now + specs[i].delay)
    decreases |specs|
  {
    if specs != [] {
      var first := QueuedJob(specs[0].data, now + specs[0].delay);
      var jobs1 := Enqueue(jobs, specs[0].jobId, first);
      assert FreshDistinctIds(jobs1, specs[1..]) by {
        forall i | 0 <= i < |specs[1..]| ensures specs[1..][i].jobId !in jobs1 {
          assert specs[1..][i] == specs[i + 1];
        }
        forall i, j | 0 <= i < j < |specs[1..]| ensures specs[1..][i].jobId != specs[1..][j].jobId {
          assert specs[1..][i] == specs[i + 1] && specs[1..][j] == specs[j + 1];
        }
      }
      EnqueueAllFresh(jobs1, specs[1..], now);
      forall i | 0 <= i < |specs|
        ensures EnqueueAll(jobs, specs, now)[specs[i].jobId] == QueuedJob(specs[i].data, now + specs[i].delay)
      {
        if i > 0 {
          assert specs[i] == specs[1..][i - 1];
        }
      }
    }
  }

  /**
   * The records of a batch, in recipient order: record `i` is recipient
   * `i`'s, `scheduled`, with id `firstId + i`, the request's subject, body,
   * sender and owner, no `sentAt`, and due time
   * `max(startTime, now) + i · delay · 1000`.
   */
  function CreateRecords(firstId: nat, p: ScheduleParams, now: nat): (created: seq<EmailRecord>)
    ensures |created| == |p.recipients|
    ensures forall i :: 0 <= i < |created| ==>
      && created[i].id == firstId + i
      && created[i].recipient == p.recipients[i]
      && created[i].status == Scheduled
      && created[i].subject == p.subject && created[i].body == p.body
      && created[i].senderEmail == p.senderEmail && created[i].userId == p.userId
      && created[i].sentAt == None
      && created[i].scheduledTime == PlanTimes(BaseTime(p.startTime, now), p.delayBetweenSeconds, |p.recipients|)[i]
  {
    var n := |p.recipients|;
    var times := PlanTimes(BaseTime(p.startTime, now), p.delayBetweenSeconds, n);
    seq(n, i requires 0 <= i < n => NewRecord(firstId + i, p, i, times[i], now))
  }

  /** The all-or-nothing write of a batch: record `i` is stored under id `firstId + i`. */
  function AddRecords(records: map<nat, EmailRecord>, created: seq<EmailRecord>, firstId: nat): (r: map<nat, EmailRecord>)
    requires forall id :: id in records ==> id < firstId
    ensures forall id :: id in r <==> id in records || firstId <= id < firstId + |created|
    ensures forall id :: id in records ==> r[id] == records[id]
    ensures forall i :: 0 <= i < |created| ==> firstId + i in r && r[firstId + i] == created[i]
    decreases |created|
  {
    if created == [] then records
    else
      var r := AddRecords(records[firstId := created[0]], created[1..], firstId + 1);
      assert forall i :: 1 <= i < |created| ==> created[i] == created[1..][i - 1];
      r
  }

  /**
   * `scheduleEmails(params)` at time `now`: the created records, in
   * recipient order, and the store after the record write and the job adds.
   */
  function ScheduleEmails(db: Db, p: ScheduleParams, now: nat): (res: (seq<EmailRecord>, Db))
    requires forall id :: id in db.records ==> id < db.nextId
    ensures var (created, after) := res;
      && |created| == |p.recipients|
      && created == CreateRecords(db.nextId, p, now)
      && after.nextId == db.nextId + |p.recipients|
      && after.records == AddRecords(db.records, created, db.nextId)
      && after.jobs == EnqueueAll(db.jobs, JobSpecs(created, p.hourlyLimit, now), now)
  {
    var created := CreateRecords(db.nextId, p, now);
    var records := AddRecords(db.records, created, db.nextId);
    (created, Db(records, db.nextId + |created|, EnqueueAll(db.jobs, JobSpecs(created, p.hourlyLimit, now), now)))
  }

  /** The job specs, one per created record, in order. */
  function JobSpecs(created: seq<EmailRecord>, hourlyLimit: real, now: nat): (specs: seq<JobSpec>)
    ensures |specs| == |created|
    ensures forall i :: 0 <= i < |created| ==> specs[i] == JobFor(created[i], hourlyLimit, now)
  {
    seq(|created|, i requires 0 <= i < |created| => JobFor(created[i], hourlyLimit, now))
  }

  /** Every record of a batch is due no earlier than `now`, and (spacing >= 0) in recipient order. */
  lemma CreatedTimesFromNow(firstId: nat, p: ScheduleParams, now: nat)
    requires p.delayBetweenSeconds >= 0
    ensures var created := CreateRecords(firstId, p, now);
      forall i, j :: 0 <= i <= j < |created| ==>
        now <= created[i].scheduledTime <= created[j].scheduledTime
  {
    var n := |p.recipients|;
    var base := BaseTime(p.startTime, now);
    var created := CreateRecords(firstId, p, now);
    forall i, j | 0 <= i <= j < n
      ensures now <= created[i].scheduledTime <= created[j].scheduledTime
    {
      PlanTimesMonotone(base, p.delayBetweenSeconds, n, i, j);
    }
  }

  /** Job `i` of a batch starting at `firstId` carries the job id of record `firstId + i`. */
  lemma BatchJobIds(firstId: nat, p: ScheduleParams, now: nat)
    ensures var specs := JobSpecs(CreateRecords(firstId, p, now), p.hourlyLimit, now);
      forall i :: 0 <= i < |specs| ==> specs[i].jobId == JobId(firstId + i) && specs[i].data.emailId == firstId + i
  {
  }

  /** Jobs for records `nextId`, `nextId + 1`, ... have ids that are distinct and new to a valid store. */
  lemma FreshFromNextId(db: Db, specs: seq<JobSpec>)
    requires JobsKeyed(db.jobs, db.nextId)
    requires forall i :: 0 <= i < |specs| ==> specs[i].jobId == JobId(db.nextId + i)
    ensures FreshDistinctIds(db.jobs, specs)
  {
    forall i | 0 <= i < |specs| ensures specs[i].jobId !in db.jobs {
      NoJobForUnallocatedId(db.jobs, db.nextId, db.nextId + i);
    }
    forall i, j | 0 <= i < j < |specs| ensures specs[i].jobId != specs[j].jobId {
      JobIdInjective(db.nextId + i, db.nextId + j);
    }
  }

  /** The job ids of a new batch are distinct and new to a valid store. */
  lemma BatchJobIdsFresh(db: Db, p: ScheduleParams, now: nat)
    requires Valid(db)
    ensures FreshDistinctIds(db.jobs, JobSpecs(CreateRecords(db.nextId, p, now), p.hourlyLimit, now))
  {
    BatchJobIds(db.nextId, p, now);
    FreshFromNextId(db, JobSpecs(CreateRecords(db.nextId, p, now), p.hourlyLimit, now));
  }

  /** Adding jobs that are each keyed by their own record's job id keeps the job store keyed. */
  lemma {:induction false} EnqueueAllKeepsKeyed(jobs: map<string, QueuedJob>, specs: seq<JobSpec>, now: nat, nextId: nat)
    requires JobsKeyed(jobs, nextId)
    requires forall i :: 0 <= i < |specs| ==>
      specs[i].data.emailId < nextId && specs[i].jobId == JobId(specs[i].data.emailId)
    ensures JobsKeyed(EnqueueAll(jobs, specs, now), nextId)
    decreases |specs|
  {
    if specs != [] {
      var jobs1 := Enqueue(jobs, specs[0].jobId, QueuedJob(specs[0].data, now + specs[0].delay));
      assert JobsKeyed(jobs1, nextId);
      assert forall i :: 0 <= i < |specs[1..]| ==> specs[1..][i] == specs[i + 1];
      EnqueueAllKeepsKeyed(jobs1, specs[1..], now, nextId);
    }
  }

  /** Adding the jobs of records `nextId ..` keeps every live job keyed by an allocated record's job id. */
  lemma EnqueueBatchKeepsJobsValid(db: Db, specs: seq<JobSpec>, now: nat)
    requires JobsKeyed(db.jobs, db.nextId)
    requires forall i :: 0 <= i < |specs| ==>
      specs[i].jobId == JobId(db.nextId + i) && specs[i].data.emailId == db.nextId + i
    ensures JobsKeyed(EnqueueAll(db.jobs, specs, now), db.nextId + |specs|)
  {
    assert JobsKeyed(db.jobs, db.nextId + |specs|);
    EnqueueAllKeepsKeyed(db.jobs, specs, now, db.nextId + |specs|);
  }

  /** Writing a batch of new `scheduled` records under ids `nextId ..` keeps the record table consistent. */
  lemma AddBatchKeepsRecordsValid(db: Db, created: seq<EmailRecord>)
    requires RecordsKeyed(db.records, db.nextId) && FinishedHaveSentAt(db.records)
    requires forall i :: 0 <= i < |created| ==> created[i].id == db.nextId + i && created[i].status == Scheduled
    ensures RecordsKeyed(AddRecords(db.records, created, db.nextId), db.nextId + |created|)
    ensures FinishedHaveSentAt(AddRecords(db.records, created, db.nextId))
  {
    var records := AddRecords(db.records, created, db.nextId);
    forall id | id in records
      ensures id < db.nextId + |created| && records[id].id == id
      ensures records[id].status != Scheduled ==> records[id].sentAt.Some?
    {
      if id !in db.records {
        assert records[id] == created[id - db.nextId];
      }
    }
  }

  /** The records of a batch take ids `firstId`, `firstId + 1`, ... and all start `scheduled`. */
  lemma CreatedIdsAndStatus(firstId: nat, p: ScheduleParams, now: nat)
    ensures var created := CreateRecords(firstId, p, now);
      forall i :: 0 <= i < |created| ==> created[i].id == firstId + i && created[i].status == Scheduled
  {
  }

  /** A batch of new records and their fresh jobs, written to a valid store, leaves it valid. */
  lemma BatchKeepsValid(db: Db, created: seq<EmailRecord>, specs: seq<JobSpec>, now: nat)
    requires Valid(db)
    requires |specs| == |created|
    requires forall i :: 0 <= i < |created| ==> created[i].id == db.nextId + i && created[i].status == Scheduled
    requires forall i :: 0 <= i < |specs| ==>
      specs[i].jobId == JobId(db.nextId + i) && specs[i].data.emailId == db.nextId + i
    ensures Valid(Db(AddRecords(db.records, created, db.nextId), db.nextId + |created|, EnqueueAll(db.jobs, specs, now)))
  {
    EnqueueBatchKeepsJobsValid(db, specs, now);
    AddBatchKeepsRecordsValid(db, created);
  }

  /**
   * Record `i` of a batch is stored under id `nextId + i` exactly as
   * created, and is due no earlier than `now`.
   */
  lemma BatchRecordEntry(db: Db, p: ScheduleParams, now: nat, i: nat)
    requires RecordsKeyed(db.records, db.nextId)
    requires p.delayBetweenSeconds >= 0
    requires i < |p.recipients|
    ensures var created := CreateRecords(db.nextId, p, now);
      var after := ScheduleEmails(db, p, now).1;
      && db.nextId + i in after.records
      && after.records[db.nextId + i] == created[i]
      && now <= created[i].scheduledTime
  {
    PlanTimesMonotone(BaseTime(p.startTime, now), p.delayBetweenSeconds, |p.recipients|, i, i);
  }

  /** With fresh, distinct ids job `i` lands in the store as given. */
  lemma JobLands(jobs: map<string, QueuedJob>, specs: seq<JobSpec>, now: nat, i: nat)
    requires FreshDistinctIds(jobs, specs)
    requires i < |specs|
    ensures var after := EnqueueAll(jobs, specs, now);
      specs[i].jobId in after && after[specs[i].jobId] == QueuedJob(specs[i].data, now + specs[i].delay)
  {
    EnqueueAllFresh(jobs, specs, now);
  }

  /**
   * In a valid store, the job of record `nextId + i` is keyed by that
   * record's job id, carries its id, the sender and the limit, and is due
   * at the record's scheduled time.
   */
  lemma BatchJobEntry(db: Db, p: ScheduleParams, now: nat, i: nat)
    requires Valid(db)
    requires p.delayBetweenSeconds >= 0
    requires i < |p.recipients|
    ensures var created := CreateRecords(db.nextId, p, now);
      var after := ScheduleEmails(db, p, now).1;
      && JobId(db.nextId + i) in after.jobs
      && after.jobs[JobId(db.nextId + i)] == QueuedJob(JobData(db.nextId + i, p.senderEmail, p.hourlyLimit), created[i].scheduledTime)
  {
    var created := CreateRecords(db.nextId, p, now);
    var specs := JobSpecs(created, p.hourlyLimit, now);
    PlanTimesMonotone(BaseTime(p.startTime, now), p.delayBetweenSeconds, |p.recipients|, i, i);
    BatchJobIdsFresh(db, p, now);
    JobLands(db.jobs, specs, now, i);
    assert specs[i] == JobFor(created[i], p.hourlyLimit, now);
  }

  /** Scheduling keeps the store valid. */
  lemma ScheduleKeepsValid(db: Db, p: ScheduleParams, now: nat)
    requires Valid(db)
    ensures Valid(ScheduleEmails(db, p, now).1)
  {
    var created := CreateRecords(db.nextId, p, now);
    var specs := JobSpecs(created, p.hourlyLimit, now);
    CreatedIdsAndStatus(db.nextId, p, now);
    BatchJobIds(db.nextId, p, now);
    BatchKeepsValid(db, created, specs, now);
  }

  /**
   * Every job delay is the record's due time minus `now` (never clipped,
   * because the base time is not before `now`), and with a non-negative
   * spacing the delays never decrease along the batch.
   */
  lemma JobDelaysFollowPlan(firstId: nat, p: ScheduleParams, now: nat)
    requires p.delayBetweenSeconds >= 0
    ensures var created := CreateRecords(firstId, p, now);
      var specs := JobSpecs(created, p.hourlyLimit, now);
      && (forall i :: 0 <= i < |specs| ==> specs[i].delay == created[i].scheduledTime - now)
      && (forall i, j :: 0 <= i <= j < |specs| ==> specs[i].delay <= specs[j].delay)
  {
    CreatedTimesFromNow(firstId, p, now);
  }
}
