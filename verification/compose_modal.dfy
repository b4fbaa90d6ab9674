/**
 * The compose form: recipients read from an uploaded file are lower-cased
 * and de-duplicated in first-occurrence order; the form is submittable when
 * subject, body, start time and recipients are all present; submitting
 * hands one payload to the scheduling call and updates the form from the
 * outcome.
 */
module ComposeModal {
  import opened Options
  import Text
  import Seqs

  // ---------------------------------------------------------------------
  // Recipient de-duplication
  // ---------------------------------------------------------------------

  /** `matches.map(value => value.toLowerCase())`. */
  function LowerAll(matches: seq<string>): (r: seq<string>)
    ensures |r| == |matches|
    ensures forall i :: 0 <= i < |r| ==> r[i] == Text.Lower(matches[i])
  {
    seq(|matches|, i requires 0 <= i < |matches| => Text.Lower(matches[i]))
  }

  /**
   * `Array.from(new Set(matches.map(toLowerCase)))`, computed as the page
   * does it: one pass that remembers what it has already kept.
   */
  method DedupeLower(matches: seq<string>) returns (unique: seq<string>)
    ensures unique == Seqs.Distinct(LowerAll(matches))
    ensures Seqs.NoDuplicates(unique)
    ensures forall i :: 0 <= i < |unique| ==> Text.IsLowerString(unique[i])
    ensures forall i :: 0 <= i < |matches| ==> Text.Lower(matches[i]) in unique
    ensures forall i :: 0 <= i < |unique| ==> exists j :: 0 <= j < |matches| && unique[i] == Text.Lower(matches[j])
  {
    unique := [];
    var seen: set<string> := {};
    var i := 0;
    while i < |matches|
      invariant 0 <= i <= |matches|
      invariant unique == Seqs.Distinct(LowerAll(matches[..i]))
      invariant forall x :: x in seen <==> x in unique
    {
      var value := Text.Lower(matches[i]);
      assert LowerAll(matches[..i + 1]) == LowerAll(matches[..i]) + [value];
      assert LowerAll(matches[..i + 1])[..i] == LowerAll(matches[..i]);
      if value !in seen {
        unique := unique + [value];
        seen := seen + {value};
      }
      i := i + 1;
    }
    assert matches[..i] == matches;
    var lowered := LowerAll(matches);
    forall k | 0 <= k < |unique| ensures Text.IsLowerString(unique[k]) {
      var j :| 0 <= j < |lowered| && lowered[j] == unique[k];
      Text.LowerIsLowerAndIdempotent(matches[j]);
    }
  }

  /** De-duplication keeps each address at its first occurrence, in upload order. */
  lemma DedupeKeepsFirstOccurrenceOrder(matches: seq<string>)
    ensures Seqs.InFirstOccurrenceOrder(Seqs.Distinct(LowerAll(matches)), LowerAll(matches))
  {
    Seqs.DistinctOrder(LowerAll(matches));
  }

  // ---------------------------------------------------------------------
  // The form and its submission
  // ---------------------------------------------------------------------

  /** The form's state. `startTime` is the raw value of the date-time input. */
  datatype ComposeState = ComposeState(
    subject: string,
    body: string,
    startTime: string,
    delayBetween: real,
    hourlyLimit: real,
    zoneId: string,
    fileEmails: seq<string>,
    status: Option<string>,
    loading: bool)

  /** What the form hands to the scheduling call. */
  datatype Payload = Payload(
    subject: string,
    body: string,
    recipients: seq<string>,
    startTime: string,
    delayBetween: real,
    hourlyLimit: real,
    zoneId: string)

  const HintMessage: string := "Add a subject, body, start time, and upload recipients."
  const SuccessMessage: string := "All set. Scheduled."
  const FailureMessage: string := "Could not schedule emails."

  /** `isValid`: trimmed subject and body non-empty, some recipients, a start time. */
  predicate IsValid(s: ComposeState) {
    Text.Trim(s.subject) != "" && Text.Trim(s.body) != "" && |s.fileEmails| > 0 && s.startTime != ""
  }

  /** The form is submittable exactly when subject and body are not blank, recipients are loaded and a start time is set. */
  lemma IsValidIff(s: ComposeState)
    ensures IsValid(s) <==>
      !Text.IsBlank(s.subject) && !Text.IsBlank(s.body) && |s.fileEmails| > 0 && s.startTime != ""
  {
    Text.TrimEmptyIffBlank(s.subject);
    Text.TrimEmptyIffBlank(s.body);
  }

  /** The payload built from the form with the start time converted to ISO form. */
  function PayloadOf(s: ComposeState, isoStart: string): Payload {
    Payload(s.subject, s.body, s.fileEmails, isoStart, s.delayBetween, s.hourlyLimit, s.zoneId)
  }

  /**
   * `handleSubmit`. `isoStart` is `new Date(startTime).toISOString()`, or
   * `None` when that conversion throws; `scheduleOk` is whether the
   * scheduling call resolved. Returns the form afterwards and the payload
   * the scheduling call received, if it was called.
   */
  function Submit(s: ComposeState, isoStart: Option<string>, scheduleOk: bool): (res: (ComposeState, Option<Payload>))
    ensures !IsValid(s) ==> res == (s.(status := Some(HintMessage)), None)
    ensures IsValid(s) ==> !res.0.loading
    ensures IsValid(s) && isoStart.None? ==> res == (s.(status := Some(FailureMessage), loading := false), None)
    ensures IsValid(s) && isoStart.Some? ==> res.1 == Some(PayloadOf(s, isoStart.value))
    ensures IsValid(s) && isoStart.Some? && scheduleOk ==>
      res.0 == s.(subject := "", body := "", fileEmails := [], startTime := "", status := Some(SuccessMessage), loading := false)
    ensures IsValid(s) && isoStart.Some? && !scheduleOk ==>
      res.0 == s.(status := Some(FailureMessage), loading := false)
  {
    if !IsValid(s) then (s.(status := Some(HintMessage)), None)
    else
      var started := s.(loading := true, status := None);
      if isoStart.None? then (started.(status := Some(FailureMessage), loading := false), None)
      else
        var payload := PayloadOf(started, isoStart.value);
        if scheduleOk then
          (started.(status := Some(SuccessMessage), subject := "", body := "", fileEmails := [], startTime := "", loading := false),
           Some(payload))
        else
          (started.(status := Some(FailureMessage), loading := false), Some(payload))
  }

  /**
   * After a successful submit the form is no longer submittable: a second
   * click only shows the hint and schedules nothing. Spacing, hourly limit
   * and zone are kept for the next batch.
   */
  lemma NoDoubleSubmit(s: ComposeState, isoStart: string, isoStart': Option<string>, ok': bool)
    requires IsValid(s)
    ensures var after := Submit(s, Some(isoStart), true).0;
      && !IsValid(after)
      && after.delayBetween == s.delayBetween && after.hourlyLimit == s.hourlyLimit && after.zoneId == s.zoneId
      && Submit(after, isoStart', ok').1 == None
      && Submit(after, isoStart', ok').0.status == Some(HintMessage)
  {
  }

  /**
   * A failed submit keeps every field, so retrying with the same start
   * time sends exactly the same payload again.
   */
  lemma RetryAfterFailureResends(s: ComposeState, isoStart: string, ok': bool)
    requires IsValid(s)
    ensures var after := Submit(s, Some(isoStart), false).0;
      && IsValid(after)
      && Submit(after, Some(isoStart), ok').1 == Submit(s, Some(isoStart), false).1
  {
  }

  /**
   * The payload's recipients are the uploaded ones; after an upload they
   * are lower-case and free of repeats.
   */
  lemma PayloadRecipientsAreDeduped(s: ComposeState, matches: seq<string>, isoStart: string, ok: bool)
    requires s.fileEmails == Seqs.Distinct(LowerAll(matches))
    requires IsValid(s)
    ensures var sent := Submit(s, Some(isoStart), ok).1;
      && sent.Some?
      && Seqs.NoDuplicates(sent.value.recipients)
      && forall i :: 0 <= i < |matches| ==> Text.Lower(matches[i]) in sent.value.recipients
  {
    var lowered := LowerAll(matches);
    forall i | 0 <= i < |matches| ensures Text.Lower(matches[i]) in s.fileEmails {
      assert lowered[i] == Text.Lower(matches[i]);
    }
  }
}
