/** The RunPod side of bot_local and rus_bot_fast. bot_local submits an
    asynchronous job and polls its status every 5 seconds for at most 300
    seconds; rus_bot_fast calls the synchronous endpoint once. Both then
    look at the job's `output.status`. Every HTTP reply is an input. */
module RemoteJob {
  import opened Wrappers

  /** bot_local polling budget: `max_wait`, `poll_interval`, and the period
      of the "processing... (N s)" status edits. */
  const MaxWait: nat := 300
  const PollInterval: nat := 5
  const EditPeriod: nat := 15
  /** `MaxWait / PollInterval`: the most status requests one job gets. */
  const MaxPolls: nat := 60

  const CompletedStatus := "COMPLETED"
  const FailedStatus := "FAILED"
  const SuccessStatus := "success"
  const UnknownError := "Unknown error"

  /** The `output` object of a finished job (keys that may be missing). */
  datatype JobOutput = JobOutput(status: Option<string>, error: Option<string>, zipBase64: Option<string>)

  /** The JSON body of a status reply: `status`, `error` and `output`. */
  datatype JobStatus = JobStatus(status: Option<string>, error: Option<string>, output: Option<JobOutput>)

  /** One status request: a non-200 reply, a 200 with a JSON body, or an
      exception (the request raised, or the body was not JSON). */
  datatype StatusReply = NotOk | Ok(body: JobStatus) | Raised

  /** How polling ends. `Aborted`: a status request raised, which leaves the
      loop for the caller's exception handler. */
  datatype PollResult = Completed(result: JobStatus) | Failed(error: string) | Timeout | Aborted

  predicate IsCompleted(reply: StatusReply) {
    reply.Ok? && reply.body.status == Some(CompletedStatus)
  }

  predicate IsFailed(reply: StatusReply) {
    reply.Ok? && reply.body.status == Some(FailedStatus)
  }

  predicate Terminal(reply: StatusReply) {
    IsCompleted(reply) || IsFailed(reply)
  }

  /** A request after which the loop does not go round again. */
  predicate Stops(reply: StatusReply) {
    Terminal(reply) || reply.Raised?
  }

  /** Polling from request `i` on, with `replies(j)` the reply to request `j`:
      the outcome and how many requests were made in all. */
  function PollFrom(replies: nat -> StatusReply, i: nat): (r: (PollResult, nat))
    requires i <= MaxPolls
    ensures i <= r.1 <= MaxPolls
    decreases MaxPolls - i
  {
    if i == MaxPolls then (Timeout, i)
    else
      var reply := replies(i);
      if reply.Raised? then (Aborted, i + 1)
      else if IsCompleted(reply) then (Completed(reply.body), i + 1)
      else if IsFailed(reply) then (Failed(reply.body.error.GetOr(UnknownError)), i + 1)
      else PollFrom(replies, i + 1)
  }

  /** Polling times out exactly when no request in the budget raised or got
      a terminal reply; otherwise it stops at the first such request, is
      aborted exactly when that request raised, and reads the outcome and the
      error from that reply. */
  lemma {:induction false} PollOutcome(replies: nat -> StatusReply, i: nat)
    requires i <= MaxPolls
    ensures var r := PollFrom(replies, i);
      (r.0.Timeout? <==> forall j :: i <= j < MaxPolls ==> !Stops(replies(j))) &&
      (r.0.Timeout? ==> r.1 == MaxPolls) &&
      (!r.0.Timeout? ==> i < r.1 && Stops(replies(r.1 - 1))) &&
      (!r.0.Timeout? ==> forall j :: i <= j < r.1 - 1 ==> !Stops(replies(j))) &&
      (r.0.Aborted? <==> !r.0.Timeout? && replies(r.1 - 1).Raised?) &&
      (r.0.Completed? <==> !r.0.Timeout? && IsCompleted(replies(r.1 - 1))) &&
      (r.0.Completed? ==> replies(r.1 - 1) == Ok(r.0.result)) &&
      (r.0.Failed? ==> r.0.error == replies(r.1 - 1).body.error.GetOr(UnknownError))
    decreases MaxPolls - i
  {
    if i < MaxPolls && !Stops(replies(i)) {
      PollOutcome(replies, i + 1);
    }
  }

  /** The waited seconds at which the status message is edited, for the first
      `polls` requests: after request `p` the wait is `5 * p`, and the message
      is edited when that is a multiple of 15. */
  function EditTimes(polls: nat): seq<nat> {
    if polls == 0 then []
    else EditTimes(polls - 1) + (if (PollInterval * polls) % EditPeriod == 0 then [PollInterval * polls] else [])
  }

  lemma EditCadence(p: nat)
    ensures (PollInterval * p) % EditPeriod == 0 <==> p % 3 == 0
  {
    var q, m := p / 3, p % 3;
    assert p == 3 * q + m;
    assert PollInterval * p == EditPeriod * q + 5 * m;
  }

  lemma EditTimesStep(polls: nat, waited: nat)
    requires waited == PollInterval * (polls + 1)
    ensures EditTimes(polls + 1) == EditTimes(polls) + if waited % EditPeriod == 0 then [waited] else []
  {
  }

  /** Every third request edits the status message, at 15, 30, 45, ...
      seconds. */
  lemma {:induction false} EditTimesShape(polls: nat)
    ensures |EditTimes(polls)| == polls / 3
    ensures forall k :: 0 <= k < |EditTimes(polls)| ==> EditTimes(polls)[k] == EditPeriod * (k + 1)
  {
    if polls > 0 {
      EditTimesShape(polls - 1);
      EditCadence(polls);
      if polls % 3 == 0 {
        assert polls == 3 * ((polls - 1) / 3 + 1);
      }
    }
  }

  /** The whole budget: 60 requests, 20 edits, the last at 300 seconds. */
  lemma PollBudget()
    ensures MaxPolls * PollInterval == MaxWait
    ensures |EditTimes(MaxPolls)| == 20 && EditTimes(MaxPolls)[19] == MaxWait
  {
    EditTimesShape(MaxPolls);
  }

  /** The status edit after a sleep: the message shows the waited seconds
      when they are a multiple of 15. */
  method EditStatus(edits: seq<nat>, polls: nat, waited: nat) returns (next: seq<nat>)
    requires edits == EditTimes(polls) && waited == PollInterval * (polls + 1)
    ensures next == EditTimes(polls + 1)
  {
    EditTimesStep(polls, waited);
    next := edits;
    if waited % EditPeriod == 0 {
      next := next + [waited];
    }
  }

  /** Requests that neither raised nor got a terminal reply do not change
      where polling ends. */
  lemma {:induction false} PollSkips(replies: nat -> StatusReply, k: nat)
    requires k <= MaxPolls
    requires forall j :: 0 <= j < k ==> !Stops(replies(j))
    ensures PollFrom(replies, 0) == PollFrom(replies, k)
  {
    if k > 0 {
      PollSkips(replies, k - 1);
    }
  }

  /** The polling loop of bot_local `_process_url`: sleep, add 5 seconds,
      edit the status message on multiples of 15 seconds, request the status;
      a non-200 reply or a status that is neither COMPLETED nor FAILED goes
      round again; a request that raises leaves the loop; the loop gives up
      once 300 seconds have passed. */
  method PollJob(replies: nat -> StatusReply) returns (result: PollResult, polls: nat, edits: seq<nat>)
    ensures (result, polls) == PollFrom(replies, 0)
    ensures edits == EditTimes(polls)
  {
    var waited := 0;
    polls := 0;
    edits := [];
    while waited < MaxWait
      invariant polls <= MaxPolls && waited == PollInterval * polls
      invariant forall j :: 0 <= j < polls ==> !Stops(replies(j))
      invariant edits == EditTimes(polls)
      decreases MaxWait - waited
    {
      waited := waited + PollInterval;
      edits := EditStatus(edits, polls, waited);
      var reply := replies(polls);
      if reply.Raised? {
        result := Aborted;
        PollSkips(replies, polls);
        polls := polls + 1;
        return;
      } else if IsCompleted(reply) {
        result := Completed(reply.body);
        PollSkips(replies, polls);
        polls := polls + 1;
        return;
      } else if IsFailed(reply) {
        result := Failed(reply.body.error.GetOr(UnknownError));
        PollSkips(replies, polls);
        polls := polls + 1;
        return;
      }
      polls := polls + 1;
    }
    PollSkips(replies, polls);
    result := Timeout;
  }

  /** What the caller does with a finished job. */
  datatype Verdict = Delivered(zipBase64: Option<string>) | Reported(error: string)

  /** `result.get("output", {})`. */
  function OutputOf(output: Option<JobOutput>): JobOutput {
    output.GetOr(JobOutput(None, None, None))
  }

  /** bot_local after COMPLETED: success only on `output.status == "success"`;
      otherwise the error is `output.error`, else the job's own `error`, else
      "Unknown error". */
  function ClassifyLocal(result: JobStatus): (v: Verdict)
    ensures v.Delivered? <==> OutputOf(result.output).status == Some(SuccessStatus)
    ensures v.Delivered? ==> v.zipBase64 == OutputOf(result.output).zipBase64
    ensures v.Reported? && OutputOf(result.output).error.Some? ==> v.error == OutputOf(result.output).error.value
    ensures v.Reported? && OutputOf(result.output).error.None? && result.error.Some? ==> v.error == result.error.value
    ensures v.Reported? && OutputOf(result.output).error.None? && result.error.None? ==> v.error == UnknownError
  {
    var out := OutputOf(result.output);
    if out.status == Some(SuccessStatus) then Delivered(out.zipBase64)
    else Reported(out.error.GetOr(result.error.GetOr(UnknownError)))
  }

  /** rus_bot_fast after a 200 runsync reply: the same test, but the error
      falls back to "Unknown error" directly. */
  function ClassifyFast(output: Option<JobOutput>): (v: Verdict)
    ensures v.Delivered? <==> OutputOf(output).status == Some(SuccessStatus)
    ensures v.Reported? ==> v.error == OutputOf(output).error.GetOr(UnknownError)
  {
    var out := OutputOf(output);
    if out.status == Some(SuccessStatus) then Delivered(out.zipBase64)
    else Reported(out.error.GetOr(UnknownError))
  }

  /** The two front ends classify alike unless the job carries an error of its
      own outside `output`. */
  lemma ClassifiersAgree(status: Option<string>, output: Option<JobOutput>)
    ensures ClassifyLocal(JobStatus(status, None, output)) == ClassifyFast(output)
  {
  }

  /** ... and then only bot_local reports it. */
  lemma ClassifiersDifferOnJobError(status: Option<string>, error: string)
    requires error != UnknownError
    ensures ClassifyLocal(JobStatus(status, Some(error), None)) == Reported(error)
    ensures ClassifyFast(None) == Reported(UnknownError)
  {
  }

  /** A job whose `output.status` is anything but "success" (including a
      missing `output`) is never delivered. */
  lemma NoSuccessWithoutOutput(status: Option<string>, error: Option<string>)
    ensures ClassifyLocal(JobStatus(status, error, None)).Reported?
    ensures ClassifyFast(None).Reported?
  {
  }

  /** rus_bot_fast's file name for the archive: every '/' of the car name
      becomes '_'. */
  function SafeName(name: string): (r: string)
    ensures |r| == |name| && '/' !in r
    ensures forall i :: 0 <= i < |name| ==> r[i] == (if name[i] == '/' then '_' else name[i])
  {
    seq(|name|, i requires 0 <= i < |name| => if name[i] == '/' then '_' else name[i])
  }
}
