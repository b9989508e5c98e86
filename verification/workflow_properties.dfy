/** What holds of every page the workflow can reach, and what a run must
    have gone through to show processing or a result. */
module WorkflowProperties {
  import opened Wrappers
  import opened Workflow
  import Decimal

  /** The shape every reachable page has: a request is outstanding exactly
      while loading; loading and processing show neither error nor result;
      while loading an interval runs exactly when the run captured its
      handle; processing implies an interval; completed shows a result and
      error shows a message; idle shows nothing and has no interval. */
  predicate Inv<R>(p: Page<R>)
  {
    && (p.awaiting.Some? <==> p.status == Loading)
    && (p.status == Loading ==> p.error.None? && p.result.None? && p.polling == p.captured)
    && (p.status == Processing ==> p.polling && p.error.None? && p.result.None?)
    && (p.status == Completed ==> p.result.Some?)
    && (p.status == Error ==> p.error.Some?)
    && (p.status == Idle ==> p.error.None? && p.result.None? && !p.polling && !p.captured)
  }

  lemma InitialInv<R>()
    ensures Inv(Initial<R>())
  {
  }

  /** Every event keeps the invariant. */
  lemma StepInv<R>(p: Page<R>, e: Event<R>)
    requires Inv(p)
    ensures Inv(Step(p, e))
  {
    match e
    case Click =>
    case SubmissionReplied(_) =>
    case PurchaseReplied(reply) =>
      if p.awaiting == Some(AwaitPurchase) && reply.PurchaseAccepted? {
        var loaded := p.(status := Processing, awaiting := None);
        assert Step(p, e) == ApplyPoll(loaded, reply.firstPoll).(polling := true);
      }
    case Polled(_) =>
  }

  /** Every page a run reaches from the first render has the shape. */
  lemma {:induction false} RunInv<R>(events: seq<Event<R>>)
    ensures Inv(Run(Initial(), events))
    decreases |events|
  {
    if |events| > 0 {
      RunInv(events[..|events| - 1]);
      StepInv(Run(Initial(), events[..|events| - 1]), events[|events| - 1]);
    }
  }

  /** A submission reply that carried a job id. */
  predicate AcceptsJob<R>(e: Event<R>)
  {
    e.SubmissionReplied? && e.submit.SubmitAccepted? && !MissingJobId(e.submit.jobId)
  }

  /** A purchase reply that was ok. */
  predicate AcceptsPurchase<R>(e: Event<R>)
  {
    e.PurchaseReplied? && e.purchase.PurchaseAccepted?
  }

  /** Event i is a job id that came back while the handler waited for it. */
  predicate TakenJob<R>(events: seq<Event<R>>, i: int)
  {
    && 0 <= i < |events| && AcceptsJob(events[i])
    && Run(Initial(), events[..i]).awaiting == Some(AwaitSubmission)
  }

  /** Event j is an ok purchase reply that came while the handler waited for it. */
  predicate TakenPurchase<R>(events: seq<Event<R>>, j: int)
  {
    && 0 <= j < |events| && AcceptsPurchase(events[j])
    && Run(Initial(), events[..j]).awaiting == Some(AwaitPurchase)
  }

  /** No click after event i started another run: every later click met a
      disabled button. */
  predicate NoRestartAfter<R>(events: seq<Event<R>>, i: int)
  {
    forall k | 0 <= k < |events| && i < k && events[k].Click? :: Disabled(Run(Initial(), events[..k]).status)
  }

  /** What was taken in a history stays taken when an event is added. */
  lemma TakenExtends<R>(events: seq<Event<R>>, i: int)
    requires |events| > 0
    ensures TakenJob(events[..|events| - 1], i) ==> TakenJob(events, i)
    ensures TakenPurchase(events[..|events| - 1], i) ==> TakenPurchase(events, i)
  {
    if 0 <= i < |events| - 1 {
      assert events[..|events| - 1][..i] == events[..i];
    }
  }

  /** No run restarts after event i when none did before the last event
      and the last event is not a click that took effect. */
  lemma NoRestartExtends<R>(events: seq<Event<R>>, i: int)
    requires |events| > 0 && NoRestartAfter(events[..|events| - 1], i)
    requires events[|events| - 1].Click? ==> Disabled(Run(Initial(), events[..|events| - 1]).status)
    ensures NoRestartAfter(events, i)
  {
    var before := events[..|events| - 1];
    forall k | 0 <= k < |events| && i < k && events[k].Click?
      ensures Disabled(Run(Initial(), events[..k]).status)
    {
      if k < |before| {
        assert before[..k] == events[..k];
        assert events[k] == before[k];
      }
    }
  }

  /** A run that waits for the purchase reply had its job id taken in the
      current run: no click since started another. */
  lemma {:induction false} AwaitPurchaseHistory<R>(events: seq<Event<R>>)
    requires Run(Initial(), events).awaiting == Some(AwaitPurchase)
    ensures exists i :: TakenJob(events, i) && NoRestartAfter(events, i)
    decreases |events|
  {
    var last := |events| - 1;
    var before := events[..last];
    var p := Run(Initial(), before);
    if p.awaiting == Some(AwaitPurchase) {
      AwaitPurchaseHistory(before);
      var i :| TakenJob(before, i) && NoRestartAfter(before, i);
      TakenExtends(events, i);
      NoRestartExtends(events, i);
    } else {
      assert TakenJob(events, last);
    }
  }

  /** An interval runs, or the page shows processing or completed. */
  predicate Engaged<R>(p: Page<R>)
  {
    p.polling || p.status in {Processing, Completed}
  }

  /** A run with a poll interval, or showing processing or completed, has
      had a job id and then an ok purchase taken by the handler. */
  lemma {:induction false} PollingHistory<R>(events: seq<Event<R>>)
    requires Engaged(Run(Initial(), events))
    ensures exists i, j :: i < j && TakenJob(events, i) && TakenPurchase(events, j)
    decreases |events|
  {
    var last := |events| - 1;
    var before := events[..last];
    var p := Run(Initial(), before);
    if Engaged(p) {
      PollingHistory(before);
      var i, j :| i < j && TakenJob(before, i) && TakenPurchase(before, j);
      TakenExtends(events, i);
      TakenExtends(events, j);
    } else {
      assert TakenPurchase(events, last);
      AwaitPurchaseHistory(before);
      var i :| TakenJob(before, i) && NoRestartAfter(before, i);
      TakenExtends(events, i);
    }
  }

  /** An interval runs, or the page shows processing or completed, and no
      request is outstanding. */
  predicate Settled<R>(p: Page<R>)
  {
    p.awaiting.None? && Engaged(p)
  }

  /** A settled page comes from the current run: its job id and its ok
      purchase were taken by the handler, and no click since started
      another run. A failed run has no interval left, so only a new click
      gets past it. */
  lemma {:induction false} CurrentRunHistory<R>(events: seq<Event<R>>)
    requires Settled(Run(Initial(), events))
    ensures exists i, j :: i < j && TakenJob(events, i) && TakenPurchase(events, j) && NoRestartAfter(events, i)
    decreases |events|
  {
    var last := |events| - 1;
    var before := events[..last];
    var p := Run(Initial(), before);
    if Settled(p) {
      CurrentRunHistory(before);
      var i, j :| i < j && TakenJob(before, i) && TakenPurchase(before, j) && NoRestartAfter(before, i);
      SettledStep(p, events[last]);
      TakenExtends(events, i);
      TakenExtends(events, j);
      NoRestartExtends(events, i);
    } else {
      RunInv(before);
      SettledStep(p, events[last]);
      assert TakenPurchase(events, last);
      AwaitPurchaseHistory(before);
      var i :| TakenJob(before, i) && NoRestartAfter(before, i);
      TakenExtends(events, i);
      NoRestartExtends(events, i);
    }
  }

  /** One step into a settled page: from a settled page only an event
      other than an effective click; from any other reachable page only an
      ok purchase reply the handler waited for, since a failed run has no
      interval left. */
  lemma SettledStep<R>(p: Page<R>, e: Event<R>)
    requires Settled(Step(p, e))
    ensures Settled(p) ==> (e.Click? ==> Disabled(p.status))
    ensures Inv(p) && !Settled(p) ==> p.awaiting == Some(AwaitPurchase) && AcceptsPurchase(e)
  {
  }

  /** Processing is shown, and a result is shown as completed, only after
      the current run's job id and ok purchase: a rejected submission, a
      missing job id or a rejected purchase of the latest run never gets
      there, whatever earlier runs did. */
  lemma ProgressNeedsJobAndPurchase<R>(events: seq<Event<R>>)
    requires Run(Initial(), events).status in {Processing, Completed}
    ensures exists i, j :: i < j && TakenJob(events, i) && TakenPurchase(events, j) && NoRestartAfter(events, i)
  {
    RunInv(events);
    CurrentRunHistory(events);
  }

  /** A failed request leaves no interval: while loading one runs only
      when the run captured it, and the failure clears it. */
  lemma FailLeavesNoInterval<R>(p: Page<R>, message: string)
    requires Inv(p) && p.status == Loading
    ensures Fail(p, message).status == Error && !Fail(p, message).polling
  {
  }

  /** With no request outstanding and no interval, every event but a click
      is ignored: a failed run stays as it is until the button is clicked. */
  lemma {:induction false} StoppedPageWaitsForClick<R>(p: Page<R>, ext: seq<Event<R>>)
    requires p.awaiting.None? && !p.polling
    requires forall k | 0 <= k < |ext| :: !ext[k].Click?
    ensures Run(p, ext) == p
    decreases |ext|
  {
    if |ext| > 0 {
      var before := ext[..|ext| - 1];
      StoppedPageWaitsForClick(p, before);
    }
  }

  /** A click answered by a rejected submission ends in error, with the
      HTTP status and body in the message and nothing else shown. */
  lemma RejectedSubmissionFails<R>(code: nat, body: string)
    ensures Run(Initial<R>(), [Click, SubmissionReplied(SubmitRejected(code, body))])
         == Page(Error, Some(RejectionMessage("Agent", code, body)), None, None, false, false)
  {
    var events: seq<Event<R>> := [Click, SubmissionReplied(SubmitRejected(code, body))];
    var p0 := Initial<R>();
    var p1 := Step(p0, Click);
    assert events[..1][..0] == [];
    assert Run(p0, events[..1]) == p1;
    assert Run(p0, events) == Step(p1, events[1]);
  }

  /** The happy path: click, a job id, an ok purchase and a completing
      first poll show the report at once. The first run captured no
      handle, so its interval keeps running. */
  lemma HappyPath<R>(jobId: string, report: R)
    requires jobId != ""
    ensures Run(Initial<R>(), HappyEvents(jobId, report))
         == Page(Completed, None, Some(report), None, true, false)
  {
    var events := HappyEvents(jobId, report);
    var p0 := Initial<R>();
    var p1 := Step(p0, Click);
    var p2 := Step(p1, events[1]);
    assert events[..2][..1][..0] == [];
    assert Run(p0, events[..2][..1]) == p1;
    assert Run(p0, events[..2]) == p2;
    assert Run(p0, events) == Step(p2, events[2]);
  }

  /** Click, a job id, and an ok purchase whose first poll completes. */
  function HappyEvents<R>(jobId: string, report: R): seq<Event<R>>
  {
    [Click, SubmissionReplied(SubmitAccepted(Some(jobId))),
     PurchaseReplied(PurchaseAccepted(Snapshot("completed", "completed", Some(report))))]
  }

  /** A retry after the happy path whose submission is rejected: this run
      captured the first run's handle, so its `catch` stops the interval.
      The click cleared the report. */
  lemma RetryFailureStopsPolling<R>(jobId: string, report: R, code: nat, body: string)
    requires jobId != ""
    ensures Run(Initial<R>(), HappyEvents(jobId, report) + [Click, SubmissionReplied(SubmitRejected(code, body))])
         == Page(Error, Some(RejectionMessage("Agent", code, body)), None, None, false, true)
  {
    var happy := HappyEvents(jobId, report);
    var events := happy + [Click, SubmissionReplied(SubmitRejected(code, body))];
    HappyPath(jobId, report);
    var p3 := Run(Initial<R>(), happy);
    var p4 := Step(p3, Click);
    assert events[..4][..3] == happy;
    assert Run(Initial<R>(), events[..4]) == p4;
    assert Run(Initial<R>(), events) == Step(p4, events[4]);
  }

  // ---------------------------------------------------------------------
  // The rejection message.

  /** The message determines the HTTP status and the response body: two
      rejections of the same step read the same only if both agree. */
  lemma RejectionMessageInjective(step: string, c1: nat, b1: string, c2: nat, b2: string)
    requires RejectionMessage(step, c1, b1) == RejectionMessage(step, c2, b2)
    ensures c1 == c2 && b1 == b2
  {
    var head := step + " request failed: ";
    var d1, d2 := Decimal.ToDecimal(c1), Decimal.ToDecimal(c2);
    var x1, x2 := " Response: " + b1, " Response: " + b2;
    assert RejectionMessage(step, c1, b1) == head + (d1 + x1);
    assert RejectionMessage(step, c2, b2) == head + (d2 + x2);
    assert d1 + x1 == (head + (d1 + x1))[|head|..];
    assert d2 + x2 == (head + (d2 + x2))[|head|..];
    Decimal.DigitsThenOther(d1, x1, d2, x2);
    Decimal.ToDecimalInjective(c1, c2);
    assert b1 == x1[11..] && b2 == x2[11..];
  }

  /** The two steps' messages never coincide. */
  lemma RejectionStepsDiffer(c1: nat, b1: string, c2: nat, b2: string)
    ensures RejectionMessage("Agent", c1, b1) != RejectionMessage("Purchase", c2, b2)
  {
    assert RejectionMessage("Agent", c1, b1)[0] == 'A';
    assert RejectionMessage("Purchase", c2, b2)[0] == 'P';
  }
}
