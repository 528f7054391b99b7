/**
 * The accounting loop of EmailController.sendBulkEmails: leads are visited
 * in batches, each lead's mail is personalised and handed to sendEmail with
 * the current delay, and the lead is recorded as a success or a failure.
 * What sendEmail (or anything before it) does for each lead is an input.
 */
module BulkSend {
  import opened PhpString
  import opened Personalize
  import opened OutgoingMessage

  /** What processing one lead came to: sendEmail returned, or an exception escaped. */
  datatype Outcome = Returned(result: SendResult) | Threw(message: bytes)

  datatype SuccessEntry = SuccessEntry(leadId: int, email: bytes, messageId: Option<bytes>)
  datatype FailedEntry = FailedEntry(leadId: int, email: bytes, error: bytes)

  /** The data of the bulk response. */
  datatype Report = Report(totalProcessed: nat, successCount: nat, failedCount: nat,
                           success: seq<SuccessEntry>, failed: seq<FailedEntry>)

  /** The arguments sendEmail receives for one lead. */
  datatype SendRequest = SendRequest(to: bytes, subject: bytes, body: bytes, leadId: int, delay: nat)

  const DEFAULT_BATCH_SIZE: nat := 10

  /** The success entry one lead contributes. */
  function SuccessStep(lead: Lead, outcome: Outcome): seq<SuccessEntry> {
    match outcome
    case Returned(Sent(id)) => [SuccessEntry(lead.id, lead.email, id)]
    case _ => []
  }

  /** The failed entry one lead contributes: a returned failure or an exception. */
  function FailedStep(lead: Lead, outcome: Outcome): seq<FailedEntry> {
    match outcome
    case Returned(NotSent(m)) => [FailedEntry(lead.id, lead.email, m)]
    case Threw(m) => [FailedEntry(lead.id, lead.email, m)]
    case _ => []
  }

  /** The success entries after the first k leads, in order. */
  function SuccessOf(leads: seq<Lead>, outcomes: seq<Outcome>, k: nat): seq<SuccessEntry>
    requires |outcomes| == |leads| && k <= |leads|
  {
    if k == 0 then [] else SuccessOf(leads, outcomes, k - 1) + SuccessStep(leads[k - 1], outcomes[k - 1])
  }

  /** The failed entries after the first k leads, in order. */
  function FailedOf(leads: seq<Lead>, outcomes: seq<Outcome>, k: nat): seq<FailedEntry>
    requires |outcomes| == |leads| && k <= |leads|
  {
    if k == 0 then [] else FailedOf(leads, outcomes, k - 1) + FailedStep(leads[k - 1], outcomes[k - 1])
  }

  /** The delay reached after the first k leads: the number of them for which sendEmail returned. */
  function ReturnedBefore(outcomes: seq<Outcome>, k: nat): nat
    requires k <= |outcomes|
  {
    if k == 0 then 0 else ReturnedBefore(outcomes, k - 1) + (if outcomes[k - 1].Returned? then 1 else 0)
  }

  /** The request for one lead, given the delay reached so far. */
  function RequestFor(lead: Lead, subject: bytes, body: bytes, personalize: bool, delay: nat): SendRequest {
    SendRequest(lead.email, PersonalizeSubject(subject, lead, personalize),
                PersonalizeEmail(body, lead, personalize), lead.id, delay)
  }

  /** The sendEmail calls for the first k leads, in order. */
  function RequestsOf(leads: seq<Lead>, subject: bytes, body: bytes, personalize: bool,
                      outcomes: seq<Outcome>, k: nat): seq<SendRequest>
    requires |outcomes| == |leads| && k <= |leads|
  {
    if k == 0 then []
    else RequestsOf(leads, subject, body, personalize, outcomes, k - 1) +
         [RequestFor(leads[k - 1], subject, body, personalize, ReturnedBefore(outcomes, k - 1))]
  }

  /** The lists, the delay and the calls made once the first k leads are processed. */
  predicate Reached(leads: seq<Lead>, subject: bytes, body: bytes, personalize: bool, outcomes: seq<Outcome>,
                    k: nat, success: seq<SuccessEntry>, failed: seq<FailedEntry>, delay: nat,
                    requests: seq<SendRequest>)
    requires |outcomes| == |leads| && k <= |leads|
  {
    && success == SuccessOf(leads, outcomes, k)
    && failed == FailedOf(leads, outcomes, k)
    && delay == ReturnedBefore(outcomes, k)
    && requests == RequestsOf(leads, subject, body, personalize, outcomes, k)
  }

  /**
   * sendBulkEmails after the leads have been fetched. `None` is the error
   * response for an empty lead list. The lead list is cut into batches of
   * batchSize (10 when absent) and processed batch by batch.
   */
  method SendBulkEmails(leads: seq<Lead>, subject: bytes, body: bytes, personalize: bool,
                        batchSize: Option<int>, outcomes: seq<Outcome>)
      returns (report: Option<Report>, requests: seq<SendRequest>)
    requires |outcomes| == |leads|
    requires batchSize.Some? ==> 1 <= batchSize.value <= 50
    ensures |leads| == 0 ==> report.None? && requests == []
    ensures |leads| > 0 ==>
      var success, failed := SuccessOf(leads, outcomes, |leads|), FailedOf(leads, outcomes, |leads|);
      report == Some(Report(|leads|, |success|, |failed|, success, failed))
    ensures requests == RequestsOf(leads, subject, body, personalize, outcomes, |leads|)
  {
    requests := [];
    if |leads| == 0 {
      return None, requests;
    }
    var size: int := if batchSize.Some? then batchSize.value else DEFAULT_BATCH_SIZE;
    var success: seq<SuccessEntry> := [];
    var failed: seq<FailedEntry> := [];
    var delay: nat := 0;
    var start := 0;
    while start < |leads|
      invariant 0 <= start <= |leads|
      invariant Reached(leads, subject, body, personalize, outcomes, start, success, failed, delay, requests)
      decreases |leads| - start
    {
      var end := if start + size < |leads| then start + size else |leads|;
      success, failed, delay, requests :=
        ProcessBatch(leads, subject, body, personalize, outcomes, start, end, success, failed, delay, requests);
      start := end;
    }
    report := Some(Report(|leads|, |success|, |failed|, success, failed));
  }

  /** One batch: each lead's call is made with the current delay and its outcome recorded. */
  method ProcessBatch(leads: seq<Lead>, subject: bytes, body: bytes, personalize: bool, outcomes: seq<Outcome>,
                      start: nat, end: nat, success0: seq<SuccessEntry>, failed0: seq<FailedEntry>, delay0: nat,
                      requests0: seq<SendRequest>)
      returns (success: seq<SuccessEntry>, failed: seq<FailedEntry>, delay: nat, requests: seq<SendRequest>)
    requires |outcomes| == |leads| && start <= end <= |leads|
    requires Reached(leads, subject, body, personalize, outcomes, start, success0, failed0, delay0, requests0)
    ensures Reached(leads, subject, body, personalize, outcomes, end, success, failed, delay, requests)
  {
    success, failed, delay, requests := success0, failed0, delay0, requests0;
    var k := start;
    while k < end
      invariant start <= k <= end
      invariant Reached(leads, subject, body, personalize, outcomes, k, success, failed, delay, requests)
    {
      var lead := leads[k];
      requests := requests + [RequestFor(lead, subject, body, personalize, delay)];
      match outcomes[k] {
        case Returned(result) =>
          match result {
            case Sent(id) =>
              success := success + [SuccessEntry(lead.id, lead.email, id)];
            case NotSent(message) =>
              failed := failed + [FailedEntry(lead.id, lead.email, message)];
          }
          delay := delay + 1;
        case Threw(message) =>
          failed := failed + [FailedEntry(lead.id, lead.email, message)];
      }
      k := k + 1;
    }
  }

  /**
   * Lead k is sent its own personalised subject and body, with a delay equal
   * to the number of earlier leads whose send returned.
   */
  lemma {:induction false} RequestsInLeadOrder(leads: seq<Lead>, subject: bytes, body: bytes, personalize: bool,
                                               outcomes: seq<Outcome>, k: nat)
    requires |outcomes| == |leads| && k <= |leads|
    ensures |RequestsOf(leads, subject, body, personalize, outcomes, k)| == k
    ensures forall j :: 0 <= j < k ==>
      RequestsOf(leads, subject, body, personalize, outcomes, k)[j] ==
      RequestFor(leads[j], subject, body, personalize, ReturnedBefore(outcomes, j))
  {
    if k > 0 {
      RequestsInLeadOrder(leads, subject, body, personalize, outcomes, k - 1);
    }
  }

  /** Every lead lands in exactly one list, so success_count + failed_count = total_processed. */
  lemma {:induction false} CountsAddUp(leads: seq<Lead>, outcomes: seq<Outcome>, k: nat)
    requires |outcomes| == |leads| && k <= |leads|
    ensures |SuccessOf(leads, outcomes, k)| + |FailedOf(leads, outcomes, k)| == k
  {
    if k > 0 {
      CountsAddUp(leads, outcomes, k - 1);
    }
  }

  /** The successes are exactly the leads whose send returned success, in input order. */
  lemma {:induction false} SuccessesAreSentLeads(leads: seq<Lead>, outcomes: seq<Outcome>, k: nat, e: SuccessEntry)
    requires |outcomes| == |leads| && k <= |leads|
    ensures e in SuccessOf(leads, outcomes, k) <==>
      exists j :: 0 <= j < k && outcomes[j] == Returned(Sent(e.messageId)) &&
                  leads[j].id == e.leadId && leads[j].email == e.email
  {
    if k > 0 {
      SuccessesAreSentLeads(leads, outcomes, k - 1, e);
    }
  }

  /** The failures are exactly the leads whose send returned failure or threw, with that message. */
  lemma {:induction false} FailuresAreFailedLeads(leads: seq<Lead>, outcomes: seq<Outcome>, k: nat, e: FailedEntry)
    requires |outcomes| == |leads| && k <= |leads|
    ensures e in FailedOf(leads, outcomes, k) <==>
      exists j :: 0 <= j < k && outcomes[j] in {Returned(NotSent(e.error)), Threw(e.error)} &&
                  leads[j].id == e.leadId && leads[j].email == e.email
  {
    if k > 0 {
      FailuresAreFailedLeads(leads, outcomes, k - 1, e);
    }
  }

  /** The delay never exceeds the number of leads before; with no exception it is exactly that number. */
  lemma {:induction false} DelayCountsReturnedSends(outcomes: seq<Outcome>, k: nat)
    requires k <= |outcomes|
    ensures ReturnedBefore(outcomes, k) <= k
    ensures (forall j :: 0 <= j < k ==> outcomes[j].Returned?) ==> ReturnedBefore(outcomes, k) == k
    ensures (exists j :: 0 <= j < k && outcomes[j].Threw?) ==> ReturnedBefore(outcomes, k) < k
  {
    if k > 0 {
      DelayCountsReturnedSends(outcomes, k - 1);
    }
  }
}
