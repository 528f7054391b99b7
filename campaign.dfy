/**
 * The EmailCampaign model: which statuses allow cancelling or editing,
 * which count as active, how updateStats recomputes the counters from the
 * campaign's scheduled emails and closes a finished campaign, and the
 * progress percentage. A campaign is an object whose fields updateStats
 * changes in place; its scheduled emails are given as their statuses.
 */
module Campaign {
  import opened PhpString

  const CANCELLABLE: set<string> := {"draft", "scheduled", "sending", "processing"}
  const UPDATABLE: set<string> := {"draft", "scheduled"}
  const ACTIVE: set<string> := {"scheduled", "sending", "processing"}
  /** The scheduled-email statuses that still wait for a send. */
  const WAITING: set<string> := {"pending", "scheduled", "processing"}
  /** The campaign statuses updateStats may close. */
  const RUNNING: set<string> := {"sending", "processing"}

  /** What the aggregate query over the scheduled emails returns. */
  datatype Stats = Stats(total: nat, sent: nat, failed: nat)

  /**
   * COUNT(*) and the two conditional sums, over the first k emails. A sum
   * over no rows is NULL in SQL; the source maps it to 0, which is what the
   * empty case gives here.
   */
  function Aggregate(emails: seq<string>, k: nat): (r: Stats)
    requires k <= |emails|
    ensures r.total == k
    ensures r.sent == multiset(emails[..k])["sent"]
    ensures r.failed == multiset(emails[..k])["failed"]
    ensures r.sent + r.failed <= r.total
  {
    if k == 0 then Stats(0, 0, 0)
    else
      var before := Aggregate(emails, k - 1);
      assert emails[..k] == emails[..k - 1] + [emails[k - 1]];
      Stats(k, before.sent + (if emails[k - 1] == "sent" then 1 else 0),
               before.failed + (if emails[k - 1] == "failed" then 1 else 0))
  }

  /** The number of the first k emails still waiting. */
  function Waiting(emails: seq<string>, k: nat): (r: nat)
    requires k <= |emails|
    ensures r <= k
    ensures r == 0 <==> forall i :: 0 <= i < k ==> emails[i] !in WAITING
  {
    if k == 0 then 0 else Waiting(emails, k - 1) + (if emails[k - 1] in WAITING then 1 else 0)
  }

  /** Whether updateStats closes a campaign in this status with these emails. */
  predicate Finishes(status: string, emails: seq<string>) {
    Waiting(emails, |emails|) == 0 && status in RUNNING
  }

  class EmailCampaign {
    var status: string
    var sentCount: int
    var failedCount: int
    var totalRecipients: int
    var lastProcessedAt: Option<int>
    var completedAt: Option<int>

    constructor(status: string)
      ensures this.status == status
      ensures sentCount == 0 && failedCount == 0 && totalRecipients == 0
      ensures lastProcessedAt.None? && completedAt.None?
    {
      this.status := status;
      sentCount := 0;
      failedCount := 0;
      totalRecipients := 0;
      lastProcessedAt := None;
      completedAt := None;
    }

    /** canBeCancelled: a campaign being edited or an active one can be cancelled, and no other. */
    function CanBeCancelled(): (r: bool)
      reads this
      ensures r <==> status in UPDATABLE + ACTIVE
    {
      status in CANCELLABLE
    }

    /** canBeUpdated: a cancellable campaign can be edited until it starts sending. */
    function CanBeUpdated(): (r: bool)
      reads this
      ensures r <==> status in CANCELLABLE - RUNNING
    {
      status in UPDATABLE
    }

    /** The active scope's condition on one campaign: every cancellable status but "draft". */
    function IsActive(): (r: bool)
      reads this
      ensures r <==> status in CANCELLABLE - {"draft"}
    {
      status in ACTIVE
    }

    /**
     * Processed recipients as a percentage of all: 0 for a campaign without
     * recipients, between 0 and 100 for consistent counters, and 100 once
     * every recipient is processed.
     */
    function ProgressPercentage(): (r: real)
      reads this
      ensures totalRecipients == 0 ==> r == 0.0
      ensures CountersAgree() ==> 0.0 <= r <= 100.0
      ensures totalRecipients > 0 && sentCount + failedCount == totalRecipients ==> r == 100.0
    {
      if totalRecipients == 0 then 0.0
      else
        var processed := (sentCount + failedCount) as real;
        RatioBounds(processed, totalRecipients as real);
        (processed / totalRecipients as real) * 100.0
    }

    /** The counters the statistics allow: none negative and no more processed than recipients. */
    predicate CountersAgree()
      reads this
    {
      0 <= sentCount && 0 <= failedCount && sentCount + failedCount <= totalRecipients
    }

    /**
     * updateStats: the counters become the aggregate over the scheduled
     * emails, and a sending or processing campaign with nothing left
     * waiting becomes completed.
     */
    method UpdateStats(emails: seq<string>, now: int)
      modifies this
      ensures var s := Aggregate(emails, |emails|);
        sentCount == s.sent && failedCount == s.failed && totalRecipients == s.total
      ensures lastProcessedAt == Some(now)
      ensures Finishes(old(status), emails) ==> status == "completed" && completedAt == Some(now)
      ensures !Finishes(old(status), emails) ==> status == old(status) && completedAt == old(completedAt)
      ensures CountersAgree()
      ensures 0.0 <= ProgressPercentage() <= 100.0
    {
      var stats := Aggregate(emails, |emails|);
      sentCount, failedCount, totalRecipients := stats.sent, stats.failed, stats.total;
      lastProcessedAt := Some(now);
      var pending := Waiting(emails, |emails|);
      if pending == 0 && status in RUNNING {
        status := "completed";
        completedAt := Some(now);
      }
    }
  }

  /** The campaigns the active scope selects: the active ones and only those. */
  function ActiveScope(campaigns: seq<EmailCampaign>): (r: seq<EmailCampaign>)
    reads campaigns
    ensures forall i :: 0 <= i < |r| ==> r[i] in campaigns && r[i].IsActive()
    ensures forall i :: 0 <= i < |campaigns| && campaigns[i].IsActive() ==> campaigns[i] in r
    ensures |r| <= |campaigns|
  {
    if |campaigns| == 0 then []
    else
      var rest := ActiveScope(campaigns[..|campaigns| - 1]);
      var last := campaigns[|campaigns| - 1];
      assert campaigns == campaigns[..|campaigns| - 1] + [last];
      if last.IsActive() then rest + [last] else rest
  }

  /** A share of a non-zero whole lies between 0 and 1 when it is at most the whole, and the whole is 1. */
  lemma RatioBounds(p: real, t: real)
    requires t != 0.0
    ensures 0.0 <= p <= t ==> 0.0 <= p / t <= 1.0
    ensures p == t ==> p / t == 1.0
  {
  }

  /** Every status that allows editing allows cancelling; of the active ones only "scheduled" allows editing. */
  lemma StatusRules(c: EmailCampaign)
    ensures c.CanBeUpdated() ==> c.CanBeCancelled()
    ensures c.IsActive() ==> c.CanBeCancelled()
    ensures c.IsActive() && c.CanBeUpdated() <==> c.status == "scheduled"
    ensures c.CanBeCancelled() && !c.IsActive() <==> c.status == "draft"
    ensures c.status in {"completed", "cancelled", "failed"} ==> !c.CanBeCancelled() && !c.CanBeUpdated() && !c.IsActive()
  {
  }

  /** The aggregate over all emails counts each status as often as it occurs. */
  lemma AggregateCounts(emails: seq<string>)
    ensures var s := Aggregate(emails, |emails|);
      && s.total == |emails|
      && s.sent == multiset(emails)["sent"]
      && s.failed == multiset(emails)["failed"]
  {
    assert emails[..|emails|] == emails;
  }

  /** Only a campaign with every email sent, failed or otherwise settled is closed; one still waiting is not. */
  lemma FinishedMeansNothingWaits(status: string, emails: seq<string>)
    ensures Finishes(status, emails) <==>
      status in RUNNING && forall i :: 0 <= i < |emails| ==> emails[i] !in WAITING
  {
  }

  /** The emails are all settled as sent or failed exactly when the counters cover all of them. */
  lemma {:induction false} AllSettled(emails: seq<string>, k: nat)
    requires k <= |emails|
    ensures (forall i :: 0 <= i < k ==> emails[i] in {"sent", "failed"}) <==>
      Aggregate(emails, k).sent + Aggregate(emails, k).failed == k
  {
    if k > 0 {
      AllSettled(emails, k - 1);
    }
  }
}
