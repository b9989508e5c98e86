/** The execution workflow of the hedge-fund page: the click handler that
    submits an assessment request, then a purchase, then polls for the
    outcome, and the button that starts it.

    The page keeps three pieces of React state — a status word, an error
    message and a result — and the handler runs as an async function, so
    at any moment at most one request of the handler is outstanding. A
    `Page` holds the three variables as written, plus which reply the
    handler is waiting for, whether a polling interval is running, and
    whether the latest run of the handler captured an interval handle.
    Network replies, poll snapshots and the random draw are inputs. */
module Workflow {
  import opened Wrappers
  import Decimal

  /** The values `agentStatus` takes. */
  datatype Status = Idle | Loading | Processing | Completed | Error

  /** The reply the handler is suspended on. */
  datatype Pending = AwaitSubmission | AwaitPurchase

  /** The page's state: the status, error and result variables, the
      handler's suspension point, and whether a poll interval is running.

      `captured` records whether `agentPollingIntervalRef` held a handle
      when the latest run was clicked. That run and its `pollStatus` read
      the handle from that render, so only then do their clears fire:
      `clearInterval` stops the earlier interval, and the null they store
      makes the effect's cleanup clear whichever interval is current. */
  datatype Page<R> = Page(
    status: Status,
    error: Option<string>,
    result: Option<R>,
    awaiting: Option<Pending>,
    polling: bool,
    captured: bool)

  /** What a poll reports: a status snapshot, or an exception raised while
      polling. `result` is absent when the snapshot's result is null. */
  datatype Poll<R> =
    | Snapshot(status: string, paymentStatus: string, result: Option<R>)
    | Threw(message: string)

  /** The reply to the assessment request. An accepted reply carries the
      `job_id` field, which may be absent. */
  datatype SubmitReply =
    | SubmitRejected(httpStatus: nat, body: string)
    | SubmitAccepted(jobId: Option<string>)

  /** The reply to the purchase request. On acceptance the handler polls
      once at once, before the interval is set, so that first poll's
      outcome travels with the reply. */
  datatype PurchaseReply<R> =
    | PurchaseRejected(httpStatus: nat, body: string)
    | PurchaseAccepted(firstPoll: Poll<R>)

  datatype Event<R> =
    | Click
    | SubmissionReplied(submit: SubmitReply)
    | PurchaseReplied(purchase: PurchaseReply<R>)
    | Polled(poll: Poll<R>)

  /** The page when it first renders. */
  function Initial<R>(): Page<R>
  {
    Page(Idle, None, None, None, false, false)
  }

  // ---------------------------------------------------------------------
  // The button.

  /** The button is disabled while a request or the polling is under way. */
  predicate Disabled(s: Status)
  {
    s == Loading || s == Processing
  }

  /** The one label the button shows in each status. */
  function Label(s: Status): string
  {
    match s
    case Idle => "Execute Strategy"
    case Loading => "Initializing..."
    case Processing => "Executing... (Polling every 2 min)"
    case Completed => "Execution Complete"
    case Error => "Retry Execution"
  }

  /** Different statuses show different labels, so the label tells the
      status. */
  lemma LabelsDistinct(a: Status, b: Status)
    requires Label(a) == Label(b)
    ensures a == b
  {
    var n, c := |Label(a)|, Label(a)[0];
    assert n == |Label(b)| && c == Label(b)[0];
    assert (n, c) == match b
      case Idle => (16, 'E')
      case Loading => (15, 'I')
      case Processing => (34, 'E')
      case Completed => (18, 'E')
      case Error => (15, 'R');
  }

  // ---------------------------------------------------------------------
  // Messages.

  /** The message thrown when a request comes back not ok: the step, the
      HTTP status in decimal, and the response body. */
  function RejectionMessage(step: string, httpStatus: nat, body: string): string
  {
    step + " request failed: " + Decimal.ToDecimal(httpStatus) + " Response: " + body
  }

  const NoJobIdMessage: string := "No job_id received."

  /** `!jobId`: an absent or empty job id. */
  predicate MissingJobId(jobId: Option<string>)
  {
    jobId.None? || jobId.value == ""
  }

  // ---------------------------------------------------------------------
  // Transitions.

  /** The clear in a `catch` or after a completing poll: when the run
      captured a handle, the interval in place stops; otherwise the
      captured null skips the clear and the interval goes on. */
  function StopPolling<R>(p: Page<R>): (q: Page<R>)
    ensures q.polling == (p.polling && !p.captured)
    ensures q.(polling := p.polling) == p
  {
    if p.captured then p.(polling := false) else p
  }

  /** The handler's outer `catch`: error shown, status `error`, handler
      finished, and the interval stopped when the run captured one. The
      result is left as it was. */
  function Fail<R>(p: Page<R>, message: string): (q: Page<R>)
    ensures q.status == Error && q.error == Some(message) && q.awaiting.None?
    ensures q.result == p.result && q.captured == p.captured
    ensures q.polling == (p.polling && !p.captured)
  {
    StopPolling(p.(status := Error, error := Some(message), awaiting := None))
  }

  /** The snapshot test of `pollStatus`: both statuses `completed` and a
      result present. */
  predicate Completes<R>(o: Poll<R>)
  {
    o.Snapshot? && o.status == "completed" && o.paymentStatus == "completed" && o.result.Some?
  }

  /** One run of `pollStatus` against the page. It never looks at the
      current status: an exception shows its message as an error, a
      completing snapshot shows its result as completed, and either one
      stops the interval when the run captured a handle; any other
      snapshot changes nothing. */
  function ApplyPoll<R>(p: Page<R>, o: Poll<R>): (q: Page<R>)
    ensures o.Threw? ==> q.status == Error && q.error == Some(o.message) && q.result == p.result
    ensures Completes(o) ==> q.status == Completed && q.result == o.result && q.error == p.error
    ensures o.Snapshot? && !Completes(o) ==> q == p
    ensures q.awaiting == p.awaiting && q.captured == p.captured
    ensures q.polling == (p.polling && !(p.captured && (o.Threw? || Completes(o))))
  {
    match o
    case Threw(m) => StopPolling(p.(status := Error, error := Some(m)))
    case Snapshot(_, _, r) =>
      if Completes(o) then StopPolling(p.(status := Completed, result := r)) else p
  }

  /** One event. A click is ignored while the button is disabled; a reply
      is ignored unless the handler waits for it; a poll is taken only
      while an interval runs and no request is outstanding. */
  function Step<R>(p: Page<R>, e: Event<R>): (q: Page<R>)
    // The button: a click takes effect exactly in idle, error and
    // completed, and then clears error and result, starts a request and
    // notes whether an interval was running.
    ensures e.Click? ==> (q != p <==> p.status in {Idle, Error, Completed})
    ensures e.Click? && q != p ==>
      && q.status == Loading && q.error.None? && q.result.None? && q.awaiting == Some(AwaitSubmission)
      && q.polling == p.polling && q.captured == p.polling
    // A reply the handler is not waiting for changes nothing.
    ensures e.SubmissionReplied? && p.awaiting != Some(AwaitSubmission) ==> q == p
    ensures e.PurchaseReplied? && p.awaiting != Some(AwaitPurchase) ==> q == p
    // A rejected submission or purchase, or a missing job id, fails: the
    // message shows, the result stays, and a captured interval stops.
    ensures e.SubmissionReplied? && e.submit.SubmitRejected? && p.awaiting == Some(AwaitSubmission) ==>
      q == Fail(p, RejectionMessage("Agent", e.submit.httpStatus, e.submit.body))
    ensures e.SubmissionReplied? && e.submit.SubmitAccepted? && MissingJobId(e.submit.jobId)
            && p.awaiting == Some(AwaitSubmission) ==>
      q == Fail(p, NoJobIdMessage)
    ensures e.PurchaseReplied? && e.purchase.PurchaseRejected? && p.awaiting == Some(AwaitPurchase) ==>
      q == Fail(p, RejectionMessage("Purchase", e.purchase.httpStatus, e.purchase.body))
    // A job id moves the handler on to the purchase, and nothing else does.
    ensures e.SubmissionReplied? && e.submit.SubmitAccepted? && !MissingJobId(e.submit.jobId)
            && p.awaiting == Some(AwaitSubmission) ==>
      q == p.(awaiting := Some(AwaitPurchase))
    ensures q.awaiting == Some(AwaitPurchase) && p.awaiting != Some(AwaitPurchase) ==>
      p.awaiting == Some(AwaitSubmission) && e.SubmissionReplied? && e.submit.SubmitAccepted?
      && !MissingJobId(e.submit.jobId)
    // An accepted purchase ends the handler with an interval running; its
    // first poll decides between processing, completed and error.
    ensures e.PurchaseReplied? && e.purchase.PurchaseAccepted? && p.awaiting == Some(AwaitPurchase) ==>
      && q.awaiting.None? && q.polling && q.captured == p.captured
      && (var first := e.purchase.firstPoll;
          && (first.Threw? ==> q.status == Error && q.error == Some(first.message) && q.result == p.result)
          && (Completes(first) ==> q.status == Completed && q.result == first.result && q.error == p.error)
          && (first.Snapshot? && !Completes(first) ==>
                q.status == Processing && q.result == p.result && q.error == p.error))
    // Processing is entered only through an accepted purchase.
    ensures q.status == Processing && p.status != Processing ==>
      p.awaiting == Some(AwaitPurchase) && e.PurchaseReplied? && e.purchase.PurchaseAccepted?
    // A poll is ignored unless an interval runs and no request is
    // outstanding. One taken that throws shows its message; one that
    // completes shows its result; either stops a captured interval. Any
    // other snapshot changes nothing.
    ensures e.Polled? && !(p.polling && p.awaiting.None?) ==> q == p
    ensures e.Polled? && p.polling && p.awaiting.None? && e.poll.Threw? ==>
      q == p.(status := Error, error := Some(e.poll.message), polling := !p.captured)
    ensures e.Polled? && p.polling && p.awaiting.None? && e.poll.Snapshot? ==>
      if Completes(e.poll) then q == p.(status := Completed, result := e.poll.result, polling := !p.captured)
      else q == p
    // Only an accepted purchase starts an interval, and only a run that
    // captured a handle stops one, by failing, completing or throwing.
    ensures !p.polling && q.polling ==> e.PurchaseReplied? && e.purchase.PurchaseAccepted?
    ensures p.polling && !q.polling ==> p.captured && q.status in {Error, Completed}
  {
    match e
    case Click =>
      if Disabled(p.status) then p
      else p.(status := Loading, error := None, result := None, awaiting := Some(AwaitSubmission),
              captured := p.polling)
    case SubmissionReplied(reply) =>
      if p.awaiting != Some(AwaitSubmission) then p
      else (
        match reply
        case SubmitRejected(code, body) => Fail(p, RejectionMessage("Agent", code, body))
        case SubmitAccepted(jobId) =>
          if MissingJobId(jobId) then Fail(p, NoJobIdMessage)
          else p.(awaiting := Some(AwaitPurchase)))
    case PurchaseReplied(reply) =>
      if p.awaiting != Some(AwaitPurchase) then p
      else (
        match reply
        case PurchaseRejected(code, body) => Fail(p, RejectionMessage("Purchase", code, body))
        case PurchaseAccepted(first) =>
          // The first poll's clears act on the earlier interval; the one
          // set up after it is the one that runs.
          ApplyPoll(p.(status := Processing, awaiting := None), first).(polling := true))
    case Polled(o) =>
      if p.polling && p.awaiting.None? then ApplyPoll(p, o) else p
  }

  /** The page after a sequence of events. */
  function Run<R>(p: Page<R>, events: seq<Event<R>>): Page<R>
    decreases |events|
  {
    if |events| == 0 then p else Step(Run(p, events[..|events| - 1]), events[|events| - 1])
  }

  // ---------------------------------------------------------------------
  // The simulated poll.

  /** The snapshot the page fabricates from `Math.random()`: completed,
      with the report, when the draw exceeds 0.6; still processing,
      without a result, otherwise. */
  function SimulatedPoll<R>(draw: real, report: R): (o: Poll<R>)
    ensures o.Snapshot?
    ensures Completes(o) <==> draw > 0.6
    ensures Completes(o) ==> o.result == Some(report)
  {
    if draw > 0.6 then Snapshot("completed", "completed", Some(report))
    else Snapshot("processing", "processing", None)
  }
}
