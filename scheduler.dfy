/** The URL queue shared by the two Telegram front ends. A message is
    stripped and must mention "beforward.jp" (in any letter case); accepted
    URLs wait in a first-in first-out queue, and a single drain loop, guarded
    by the `is_processing` flag, handles them one after another. rus_bot's
    queue is unbounded; bot_local's holds at most 20 entries, and a message
    arriving while it is full waits for room instead of being refused. */
module Scheduler {
  import opened Text

  const SiteMarker := "beforward.jp"
  /** `asyncio.Queue(maxsize=20)` of bot_local. */
  const LocalQueueCapacity := 20

  /** Which front end owns the queue. */
  datatype Frontend = TelegramBot | LocalBot

  /** The first reply to a message. */
  datatype Ack =
    | Rejected            // not a BeForward link; nothing is queued
    | Starting            // rus_bot: first in line and nothing running
    | QueuedAt(position: nat)  // rus_bot: queue length after the put
    | InQueue             // bot_local: "in the queue" status message
    | WaitingForRoom      // bot_local: status sent, the put is still waiting

  /** How handling one queued URL ended: normally, or with an exception the
      loop caught and reported. */
  datatype Outcome = Completed | Raised(error: string)

  predicate IsSiteLink(url: string) {
    IsInfix(SiteMarker, Lower(url))
  }

  predicate HasRoom(frontend: Frontend, pending: seq<string>) {
    frontend == TelegramBot || |pending| < LocalQueueCapacity
  }

  /** What `handle_url` does to the queue. */
  datatype Admission = Admission(ack: Ack, pending: seq<string>, startDrain: bool)

  /** `handle_url` of both front ends, given the queue and the flag as they
      are when the message arrives. A drain task is started after a put only
      when none is running. */
  function Admit(frontend: Frontend, pending: seq<string>, processing: bool, text: string): (r: Admission)
    ensures r.ack == Rejected <==> !IsSiteLink(Strip(text))
    ensures r.pending == pending || r.pending == pending + [Strip(text)]
    ensures r.pending != pending <==> IsSiteLink(Strip(text)) && HasRoom(frontend, pending)
    ensures r.startDrain <==> r.pending != pending && !processing
    ensures frontend == LocalBot && |pending| <= LocalQueueCapacity ==> |r.pending| <= LocalQueueCapacity
    ensures frontend == TelegramBot && r.ack != Rejected ==>
      (r.ack == Starting <==> pending == [] && !processing) &&
      (r.ack != Starting ==> r.ack == QueuedAt(|pending| + 1))
    ensures frontend == LocalBot && r.ack != Rejected ==> (r.ack == InQueue <==> |pending| < LocalQueueCapacity)
  {
    var url := Strip(text);
    if !IsSiteLink(url) then Admission(Rejected, pending, false)
    else if frontend == TelegramBot then
      var queue := pending + [url];
      var ack := if |queue| == 1 && !processing then Starting else QueuedAt(|queue|);
      Admission(ack, queue, !processing)
    else if |pending| < LocalQueueCapacity then Admission(InQueue, pending + [url], !processing)
    else Admission(WaitingForRoom, pending, false)
  }

  /** The record the drain keeps of the URLs it handled, in order. */
  function Handled(urls: seq<string>, process: string -> Outcome): (r: seq<(string, Outcome)>)
    ensures |r| == |urls|
    ensures forall i :: 0 <= i < |urls| ==> r[i].0 == urls[i]
  {
    seq(|urls|, i requires 0 <= i < |urls| => (urls[i], process(urls[i])))
  }

  lemma HandledAppend(a: seq<string>, b: seq<string>, process: string -> Outcome)
    ensures Handled(a + b, process) == Handled(a, process) + Handled(b, process)
  {
  }

  /** One front end's queue and its processing flag. `log` records, for every
      URL taken off the queue, how handling it ended. */
  class UrlQueue {
    const frontend: Frontend
    var pending: seq<string>
    var isProcessing: bool
    var log: seq<(string, Outcome)>

    ghost predicate Valid()
      reads this
    {
      frontend == LocalBot ==> |pending| <= LocalQueueCapacity
    }

    constructor(frontend: Frontend)
      ensures Valid()
      ensures this.frontend == frontend && pending == [] && !isProcessing && log == []
    {
      this.frontend := frontend;
      pending := [];
      isProcessing := false;
      log := [];
    }

    /** `handle_url`: answers the message and queues the stripped URL, and
        says whether a drain task must be started. */
    method HandleUrl(text: string) returns (ack: Ack, startDrain: bool)
      requires Valid()
      modifies this
      ensures Valid()
      ensures Admission(ack, pending, startDrain) == Admit(frontend, old(pending), old(isProcessing), text)
      ensures isProcessing == old(isProcessing) && log == old(log)
    {
      var url := Strip(text);
      if !IsSiteLink(url) {
        ack, startDrain := Rejected, false;
        return;
      }
      if frontend == LocalBot && |pending| >= LocalQueueCapacity {
        ack, startDrain := WaitingForRoom, false;
        return;
      }
      pending := pending + [url];
      if frontend == LocalBot {
        ack := InQueue;
      } else if |pending| == 1 && !isProcessing {
        ack := Starting;
      } else {
        ack := QueuedAt(|pending|);
      }
      startDrain := !isProcessing;
    }

    /** `process_queue`: returns at once when a drain is already running;
        otherwise sets the flag, handles every queued URL in arrival order
        (an exception ends only that URL's handling) and clears the flag. */
    method Drain(process: string -> Outcome)
      requires Valid()
      modifies this
      ensures Valid()
      ensures old(isProcessing) ==> pending == old(pending) && isProcessing && log == old(log)
      ensures !old(isProcessing) ==>
        pending == [] && !isProcessing && log == old(log) + Handled(old(pending), process)
    {
      if isProcessing {
        return;
      }
      isProcessing := true;
      ghost var taken: seq<string> := [];
      while pending != []
        invariant Valid()
        invariant isProcessing
        invariant taken + pending == old(pending)
        invariant log == old(log) + Handled(taken, process)
        decreases |pending|
      {
        var url := pending[0];
        pending := pending[1..];
        var outcome := process(url);
        log := log + [(url, outcome)];
        HandledAppend(taken, [url], process);
        taken := taken + [url];
      }
      isProcessing := false;
    }
  }

  /** `handle_url` followed by the `process_queue` task it schedules: a link
      accepted by an idle front end is handled after everything queued
      before it, and the flag is clear again afterwards. */
  method HandleUrlThenDrain(q: UrlQueue, text: string, process: string -> Outcome)
    requires q.Valid() && !q.isProcessing
    requires HasRoom(q.frontend, q.pending) && IsSiteLink(Strip(text))
    modifies q
    ensures q.Valid() && q.pending == [] && !q.isProcessing
    ensures q.log == old(q.log) + Handled(old(q.pending), process) + [(Strip(text), process(Strip(text)))]
  {
    var ack, start := q.HandleUrl(text);
    assert start;
    HandledAppend(old(q.pending), [Strip(text)], process);
    q.Drain(process);
  }
}
