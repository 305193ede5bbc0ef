/**
 * The action's main step: submit the approval request, fix the deadline once
 * from the `timeout` input, then poll the request's status until it is
 * approved or rejected or the clock reaches the deadline.
 *
 * Time and the remote service are inputs: `start` is the clock reading taken
 * before the loop, `clock[i]` the reading taken by the loop test of iteration
 * `i`, and `answers[i]` the reply to the status poll of iteration `i`. A finite
 * trace can end before the run does; the run is then still waiting.
 */
module Gate {
  import opened Common
  import opened JsText
  import opened Approvals

  /** The four ways the run can end. */
  datatype Outcome = Approved | Rejected | TimedOut | SubmissionFailed(reason: ApiError)

  /** The run's end, or `StillWaiting` when the observed trace ran out first. */
  datatype Conclusion = Concluded(outcome: Outcome) | StillWaiting

  /**
   * The `timeout` input in milliseconds: `None` (JavaScript's `Infinity`, no
   * deadline) when it parses to NaN or to a value that is not positive.
   */
  function NormalizeTimeout(input: string): (ms: Option<nat>)
    ensures ms.None? <==> ParseInt(input).None? || ParseInt(input).value <= 0
    ensures ms.Some? ==> ParseInt(input).Some? && ms.value == ParseInt(input).value * 1000 > 0
  {
    match ParseInt(input)
    case None => None
    case Some(t) => if t <= 0 then None else Some(t * 1000)
  }

  /** The absolute deadline, from the start reading and the normalised timeout. */
  function Deadline(start: int, timeout: Option<nat>): (end: Option<int>)
    ensures end.None? <==> timeout.None?
    ensures end.Some? ==> end.value - start == timeout.value
  {
    match timeout
    case None => None
    case Some(ms) => Some(start + ms)
  }

  /** The loop test `Date.now() < end`, where no deadline is `Infinity`. */
  predicate Before(now: int, end: Option<int>) {
    end.None? || now < end.value
  }

  /**
   * Against the deadline computed from a start reading and a timeout, the loop
   * test passes exactly while less than the timeout has elapsed since the start,
   * and always when there is no timeout.
   */
  lemma BeforeDeadline(now: int, start: int, timeout: Option<nat>)
    ensures Before(now, Deadline(start, timeout)) <==> timeout.None? || now - start < timeout.value
  {
  }

  /** Once a loop test finds the deadline reached, every later reading finds it reached too. */
  lemma DeadlineStaysReached(now: int, later: int, end: Option<int>)
    requires !Before(now, end) && now <= later
    ensures !Before(later, end)
  {
  }

  /**
   * What one poll decides: `approved` and `rejected` end the wait; a thrown
   * poll, `pending` and any other status decide nothing.
   */
  function Decision(reply: Exchange): (d: Option<Outcome>)
    ensures d == Some(Approved) <==> GetApprovalStatus(reply) == Ok("approved")
    ensures d == Some(Rejected) <==> GetApprovalStatus(reply) == Ok("rejected")
    ensures d.None? || d == Some(Approved) || d == Some(Rejected)
  {
    match GetApprovalStatus(reply)
    case Err(_) => None
    case Ok(status) =>
      if status == "approved" then Some(Approved)
      else if status == "rejected" then Some(Rejected)
      else None
  }

  /**
   * The poll loop from iteration `i` on: the conclusion and the number of
   * status polls made in all.
   */
  function WaitLoop(end: Option<int>, clock: seq<int>, answers: seq<Exchange>, i: nat): (r: (Conclusion, nat))
    requires i <= |clock| && i <= |answers|
    ensures i <= r.1 <= |clock| && r.1 <= |answers|
    ensures r.0.Concluded? ==> !r.0.outcome.SubmissionFailed?
    decreases |clock| - i
  {
    if i == |clock| then (StillWaiting, i)
    else if !Before(clock[i], end) then (Concluded(TimedOut), i)
    else if i == |answers| then (StillWaiting, i)
    else match Decision(answers[i])
      case Some(o) => (Concluded(o), i + 1)
      case None => WaitLoop(end, clock, answers, i + 1)
  }

  /**
   * `run`: request approval (`staged` is the id of the uploaded token artifact,
   * `None` when the upload threw; `submitReply` the reply to the request POST),
   * then wait on the deadline computed once from `start` and the timeout input.
   */
  method Run(ctx: RunContext, token: string, staged: Option<int>, submitReply: Exchange,
             timeoutInput: string, start: int, clock: seq<int>, answers: seq<Exchange>)
    returns (c: Conclusion, polls: nat)
    ensures var s := RequestApproval(ctx, token, staged, submitReply).id;
      s.Err? ==> c == Concluded(SubmissionFailed(s.error)) && polls == 0
    ensures var s := RequestApproval(ctx, token, staged, submitReply).id;
      s.Ok? ==> (c, polls) == WaitLoop(Deadline(start, NormalizeTimeout(timeoutInput)), clock, answers, 0)
  {
    var submission := RequestApproval(ctx, token, staged, submitReply);
    if submission.id.Err? {
      return Concluded(SubmissionFailed(submission.id.error)), 0;
    }
    var end := Deadline(start, NormalizeTimeout(timeoutInput));
    c, polls := Wait(end, clock, answers);
  }

  /**
   * The poll loop of `run` under the fixed deadline `end`: test the clock, poll,
   * return on `approved` or `rejected`, otherwise go round again.
   */
  method Wait(end: Option<int>, clock: seq<int>, answers: seq<Exchange>) returns (c: Conclusion, polls: nat)
    ensures (c, polls) == WaitLoop(end, clock, answers, 0)
  {
    var i := 0;
    while i < |clock| && Before(clock[i], end)
      invariant i <= |clock| && i <= |answers|
      invariant WaitLoop(end, clock, answers, i) == WaitLoop(end, clock, answers, 0)
      decreases |clock| - i
    {
      if i == |answers| {
        return StillWaiting, i;
      }
      var status := GetApprovalStatus(answers[i]);
      if status == Ok("approved") {
        return Concluded(Approved), i + 1;
      } else if status == Ok("rejected") {
        return Concluded(Rejected), i + 1;
      }
      i := i + 1;
    }
    if i == |clock| {
      return StillWaiting, i;
    }
    return Concluded(TimedOut), i;
  }

  // ---- An independent description of the loop's conclusions ----

  /** Iterations `from` up to `to` each passed the loop test and polled an answer that decided nothing. */
  ghost predicate KeptWaiting(end: Option<int>, clock: seq<int>, answers: seq<Exchange>, from: nat, to: nat) {
    from <= to <= |clock| && to <= |answers| &&
    forall j :: from <= j < to ==> Before(clock[j], end) && Decision(answers[j]).None?
  }

  /** The iteration at which a conclusion with `n` polls stopped. */
  function StopIndex(c: Conclusion, n: nat): nat {
    if c.Concluded? && (c.outcome.Approved? || c.outcome.Rejected?) && n > 0 then n - 1 else n
  }

  /**
   * Conclusion `c` with `n` polls, described by what the trace shows from
   * iteration `from` on: every earlier iteration kept waiting, and at the stop
   * iteration either the trace ended, the clock reached the deadline, or a
   * poll answered `approved`/`rejected`.
   */
  ghost predicate ExplainsFrom(end: Option<int>, clock: seq<int>, answers: seq<Exchange>, from: nat, c: Conclusion, n: nat) {
    var k := StopIndex(c, n);
    KeptWaiting(end, clock, answers, from, k) &&
    match c
    case StillWaiting => k == |clock| || (Before(clock[k], end) && k == |answers|)
    case Concluded(TimedOut) => k < |clock| && !Before(clock[k], end)
    case Concluded(SubmissionFailed(_)) => false
    case Concluded(o) =>
      n > 0 && k < |clock| && Before(clock[k], end) && k < |answers| && Decision(answers[k]) == Some(o)
  }

  ghost predicate Explains(end: Option<int>, clock: seq<int>, answers: seq<Exchange>, c: Conclusion, n: nat) {
    ExplainsFrom(end, clock, answers, 0, c, n)
  }

  lemma {:induction false} WaitLoopShape(end: Option<int>, clock: seq<int>, answers: seq<Exchange>, i: nat)
    requires i <= |clock| && i <= |answers|
    ensures var r := WaitLoop(end, clock, answers, i); ExplainsFrom(end, clock, answers, i, r.0, r.1)
    decreases |clock| - i
  {
    if i < |clock| && Before(clock[i], end) && i < |answers| && Decision(answers[i]).None? {
      WaitLoopShape(end, clock, answers, i + 1);
      var r := WaitLoop(end, clock, answers, i + 1);
      assert KeptWaiting(end, clock, answers, i, StopIndex(r.0, r.1));
    }
  }

  lemma ExplainsUnique(end: Option<int>, clock: seq<int>, answers: seq<Exchange>,
                       c1: Conclusion, n1: nat, c2: Conclusion, n2: nat)
    requires Explains(end, clock, answers, c1, n1) && Explains(end, clock, answers, c2, n2)
    requires StopIndex(c1, n1) <= StopIndex(c2, n2)
    ensures c1 == c2 && n1 == n2
  {
  }

  /**
   * The loop's conclusion is exactly the one the trace explains: both
   * directions, for every conclusion and poll count.
   */
  lemma WaitLoopExplained(end: Option<int>, clock: seq<int>, answers: seq<Exchange>, c: Conclusion, n: nat)
    ensures WaitLoop(end, clock, answers, 0) == (c, n) <==> Explains(end, clock, answers, c, n)
  {
    var r := WaitLoop(end, clock, answers, 0);
    WaitLoopShape(end, clock, answers, 0);
    if Explains(end, clock, answers, c, n) {
      if StopIndex(c, n) <= StopIndex(r.0, r.1) {
        ExplainsUnique(end, clock, answers, c, n, r.0, r.1);
      } else {
        ExplainsUnique(end, clock, answers, r.0, r.1, c, n);
      }
    }
  }

  // ---- Properties of the wait ----

  /**
   * Retry: any number of polls that threw, were malformed, or answered
   * `pending` or an unknown status, all before the deadline, followed by
   * `approved` (or `rejected`) before the deadline, conclude with that answer
   * after exactly that many polls; no later poll is made.
   */
  lemma RetriesUntilDecision(end: Option<int>, clock: seq<int>, answers: seq<Exchange>, k: nat, o: Outcome)
    requires k < |clock| && k < |answers|
    requires forall j :: 0 <= j <= k ==> Before(clock[j], end)
    requires forall j :: 0 <= j < k ==> Decision(answers[j]).None?
    requires Decision(answers[k]) == Some(o)
    ensures WaitLoop(end, clock, answers, 0) == (Concluded(o), k + 1)
  {
    assert o.Approved? || o.Rejected?;
    WaitLoopExplained(end, clock, answers, Concluded(o), k + 1);
  }

  /** Without a deadline the loop never concludes with a timeout. */
  lemma NoDeadlineNeverTimesOut(clock: seq<int>, answers: seq<Exchange>)
    ensures WaitLoop(None, clock, answers, 0).0 != Concluded(TimedOut)
  {
    var r := WaitLoop(None, clock, answers, 0);
    WaitLoopExplained(None, clock, answers, r.0, r.1);
  }

  /**
   * A timeout is concluded only by a loop test that found the clock at or past
   * the deadline, after polls that all decided nothing.
   */
  lemma TimedOutOnlyAtDeadline(end: Option<int>, clock: seq<int>, answers: seq<Exchange>)
    ensures var r := WaitLoop(end, clock, answers, 0);
      r.0 == Concluded(TimedOut) ==>
        end.Some? && r.1 < |clock| && clock[r.1] >= end.value &&
        forall j :: 0 <= j < r.1 ==> clock[j] < end.value && Decision(answers[j]).None?
  {
    var r := WaitLoop(end, clock, answers, 0);
    WaitLoopExplained(end, clock, answers, r.0, r.1);
  }

  /** A decided poll is never followed by a timeout: it ends the loop with its own outcome. */
  lemma DecisionBeatsTimeout(end: Option<int>, clock: seq<int>, answers: seq<Exchange>, k: nat)
    requires k < |answers| && Decision(answers[k]).Some?
    requires var r := WaitLoop(end, clock, answers, 0); r.0 != StillWaiting && r.1 > k
    ensures WaitLoop(end, clock, answers, 0) == (Concluded(Decision(answers[k]).value), k + 1)
  {
    var r := WaitLoop(end, clock, answers, 0);
    WaitLoopExplained(end, clock, answers, r.0, r.1);
  }

  /** Each iteration sleeps for at least `interval` between two loop tests. */
  ghost predicate Advancing(clock: seq<int>, interval: nat) {
    forall j :: 0 < j < |clock| ==> clock[j - 1] + interval <= clock[j]
  }

  lemma {:induction false} AdvancingSpan(clock: seq<int>, interval: nat, j: nat)
    requires Advancing(clock, interval) && j < |clock|
    ensures clock[0] + j * interval <= clock[j]
  {
    if j > 0 {
      AdvancingSpan(clock, interval, j - 1);
    }
  }

  /**
   * The deadline bounds the number of polls: every poll but the first starts
   * at least one more interval after the first loop test, and all of them
   * before the deadline.
   */
  lemma PollsBoundedByDeadline(e: int, clock: seq<int>, answers: seq<Exchange>, interval: nat)
    requires Advancing(clock, interval)
    ensures var n := WaitLoop(Some(e), clock, answers, 0).1;
      n == 0 || clock[0] + (n - 1) * interval < e
  {
    var r := WaitLoop(Some(e), clock, answers, 0);
    WaitLoopExplained(Some(e), clock, answers, r.0, r.1);
    if r.1 > 0 {
      AdvancingSpan(clock, interval, r.1 - 1);
    }
  }

  /**
   * The timeout always wins against an endless wait: once the clock has
   * advanced `k` intervals past the deadline's distance and the trace is long
   * enough, the loop has concluded.
   */
  lemma TimeoutWins(e: int, clock: seq<int>, answers: seq<Exchange>, interval: nat, k: nat)
    requires Advancing(clock, interval)
    requires clock != [] && clock[0] + k * interval >= e
    requires |clock| > k && |answers| >= k
    ensures WaitLoop(Some(e), clock, answers, 0).0.Concluded?
  {
    var r := WaitLoop(Some(e), clock, answers, 0);
    WaitLoopExplained(Some(e), clock, answers, r.0, r.1);
    if r.0 == StillWaiting {
      var n := r.1;
      if n == |clock| {
        MultiplyMonotone(k, n - 1, interval);
        AdvancingSpan(clock, interval, n - 1);
      } else {
        MultiplyMonotone(k, n, interval);
        AdvancingSpan(clock, interval, n);
      }
    }
  }

  lemma MultiplyMonotone(a: nat, b: nat, m: nat)
    requires a <= b
    ensures a * m <= b * m
  {
  }

  /** A successful reply carrying `status`. */
  function StatusReply(status: string): Exchange {
    Delivered(Response(200, Some(status)))
  }

  /** `pending`, `pending`, `approved`, one interval apart, all before the deadline: approved after three polls. */
  lemma PendingThenApproved(s: int, t: nat, e: int)
    requires s + 2 * t < e
    ensures WaitLoop(Some(e), [s, s + t, s + 2 * t],
                     [StatusReply("pending"), StatusReply("pending"), StatusReply("approved")], 0)
            == (Concluded(Approved), 3)
  {
    var answers := [StatusReply("pending"), StatusReply("pending"), StatusReply("approved")];
    assert Decision(answers[0]).None? && Decision(answers[1]).None?;
    RetriesUntilDecision(Some(e), [s, s + t, s + 2 * t], answers, 2, Approved);
  }

  /** Always `pending`, with the deadline two intervals after the start: timed out after two polls. */
  lemma PendingUntilTimeout(s: int, t: nat)
    requires t > 0
    ensures WaitLoop(Some(s + 2 * t), [s, s + t, s + 2 * t],
                     [StatusReply("pending"), StatusReply("pending"), StatusReply("pending")], 0)
            == (Concluded(TimedOut), 2)
  {
    var clock := [s, s + t, s + 2 * t];
    var answers := [StatusReply("pending"), StatusReply("pending"), StatusReply("pending")];
    assert Decision(answers[0]).None? && Decision(answers[1]).None?;
    WaitLoopExplained(Some(s + 2 * t), clock, answers, Concluded(TimedOut), 2);
  }

  /** A POST answered with status 500 fails the run before any poll. */
  method SubmissionRejectedScenario(ctx: RunContext, token: string, artifactId: int, timeoutInput: string,
                                    start: int, clock: seq<int>, answers: seq<Exchange>)
    returns (c: Conclusion, polls: nat)
    ensures c == Concluded(SubmissionFailed(BadStatus(500))) && polls == 0
  {
    c, polls := Run(ctx, token, Some(artifactId), Delivered(Response(500, None)), timeoutInput, start, clock, answers);
  }
}
