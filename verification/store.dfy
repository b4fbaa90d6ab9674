/**
 * The persistent state the core works on: the e-mail record table and the
 * store of live delivery jobs, keyed by a job id derived from the record
 * id.
 */
module Store {
  import opened Options
  import Text

  datatype Status = Scheduled | Sent | Failed

  /** One row per (batch, recipient). Times are milliseconds since the epoch. */
  datatype EmailRecord = EmailRecord(
    id: nat,
    recipient: string,
    subject: string,
    body: string,
    scheduledTime: int,
    status: Status,
    senderEmail: string,
    userId: Option<int>,
    sentAt: Option<int>,
    createdAt: int)

  /** The payload of a delivery job: `{emailId, senderEmail, hourlyLimit}`. */
  datatype JobData = JobData(emailId: nat, senderEmail: string, hourlyLimit: real)

  /** A job waiting in the job store, due at `dueAt`. */
  datatype QueuedJob = QueuedJob(data: JobData, dueAt: int)

  /**
   * The record table (ids are handed out in increasing order from
   * `nextId`) and the live jobs, keyed by job id.
   */
  datatype Db = Db(records: map<nat, EmailRecord>, nextId: nat, jobs: map<string, QueuedJob>)

  /** The job id of the record `emailId`: `email-<id>`. */
  function JobId(emailId: nat): (k: string)
    ensures |k| > 6 && k[..6] == "email-"
    ensures k[6..] == Text.NatToString(emailId)
  {
    "email-" + Text.NatToString(emailId)
  }

  /** Distinct records get distinct job ids, so a record has at most one live job. */
  lemma JobIdInjective(a: nat, b: nat)
    ensures JobId(a) == JobId(b) <==> a == b
  {
    if JobId(a) == JobId(b) {
      assert Text.NatToString(a) == JobId(a)[6..] == JobId(b)[6..] == Text.NatToString(b);
      Text.NatToStringInjective(a, b);
    }
  }

  /**
   * Adding a job: a job id already present leaves the store as it was (no
   * second live job for the same id); otherwise the job is added.
   */
  function Enqueue(jobs: map<string, QueuedJob>, jobId: string, job: QueuedJob): (r: map<string, QueuedJob>)
    ensures r.Keys == jobs.Keys + {jobId}
    ensures r[jobId] == (if jobId in jobs then jobs[jobId] else job)
    ensures forall k :: k in jobs ==> r[k] == jobs[k]
  {
    if jobId in jobs then jobs else jobs[jobId := job]
  }

  /**
   * The consistency the operations maintain: each record is stored under
   * its own id below `nextId`; each live job is keyed by the job id of an
   * allocated record; and a record that left `scheduled` carries `sentAt`.
   */
  predicate Valid(db: Db) {
    RecordsKeyed(db.records, db.nextId) && JobsKeyed(db.jobs, db.nextId) && FinishedHaveSentAt(db.records)
  }

  /** Each record is stored under its own id, and that id is below `nextId`. */
  predicate RecordsKeyed(records: map<nat, EmailRecord>, nextId: nat) {
    forall id :: id in records ==> id < nextId && records[id].id == id
  }

  /** Each live job belongs to an allocated record and is keyed by that record's job id. */
  predicate JobsKeyed(jobs: map<string, QueuedJob>, nextId: nat) {
    forall k :: k in jobs ==> jobs[k].data.emailId < nextId && k == JobId(jobs[k].data.emailId)
  }

  /** A record that is no longer `scheduled` carries its `sentAt` time. */
  predicate FinishedHaveSentAt(records: map<nat, EmailRecord>) {
    forall id :: id in records && records[id].status != Scheduled ==> records[id].sentAt.Some?
  }

  /** In a valid store two live jobs for the same record are the same job. */
  lemma AtMostOneJobPerRecord(db: Db, k1: string, k2: string)
    requires Valid(db)
    requires k1 in db.jobs && k2 in db.jobs
    requires db.jobs[k1].data.emailId == db.jobs[k2].data.emailId
    ensures k1 == k2
  {
  }

  /** No live job has the id of a record not yet allocated. */
  lemma NoJobForUnallocatedId(jobs: map<string, QueuedJob>, nextId: nat, id: nat)
    requires JobsKeyed(jobs, nextId)
    requires id >= nextId
    ensures JobId(id) !in jobs
  {
    if JobId(id) in jobs {
      JobIdInjective(id, jobs[JobId(id)].data.emailId);
    }
  }
}
