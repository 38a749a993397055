/** bot_local `_process_url`: parse the listing (rus_bot's parser), format
    it, download and unpack the photo archive, submit at most 20 sorted photos
    as an asynchronous RunPod job, poll it, and answer with the cleaned
    archive or with the reason it failed. Network replies and the unpacked
    files are inputs; the temporary directory is tracked as a state. */
module LocalPipeline {
  import opened Wrappers
  import opened Text
  import opened StringOrder
  import opened PageFields
  import opened PhotoFiles
  import opened RemoteJob

  /** Fallback archive name used when the listing data has no car name. */
  const DefaultArchiveName := "cleaned_photos"

  /** The fields of rus_bot's listing data `_process_url` reads: the car name
      (None when no title was found) and the photo download link. */
  datatype CarData = CarData(carName: Option<string>, photoDownloadUrl: Option<string>)

  /** The unpacked photo archive, or the exception raised while fetching or
      unpacking it. */
  datatype DownloadResult = DownloadRaised | Downloaded(walked: seq<WalkEntry>)

  /** The job submission: a 200 reply with a JSON body, a non-200 reply, or
      an exception (the request raised, or the body was not JSON). */
  datatype Submission = Accepted | NotAccepted | SubmitRaised

  /** What became of a temporary directory. */
  datatype TempDir = NoTempDir | Removed | Leaked

  /** The reply the user finally gets. `text` is the formatted listing. */
  datatype LocalReply =
    | TextOnly(text: string)            // no downloadable photo archive
    | DownloadFailed(text: string)      // listing plus the download error
    | NoPhotos(text: string)            // listing plus "photos not found"
    | RunRejected(text: string)         // non-200 reply to the job submission
    | JobFailed(text: string, error: string)
    | TimedOut(text: string)
    | JobError(text: string, error: string)
    | ArchiveSent(fileName: string, caption: string)
    | ErrorReply                        // exception caught by the outer handler

  datatype LocalRun = LocalRun(reply: LocalReply, payload: Option<seq<string>>, polls: nat,
                               edits: seq<nat>, tempDir: TempDir)

  /** `if not photo_download_url or photo_download_url == "COLLECT_PHOTOS"`
      negated: a non-empty link other than the slider marker. */
  predicate HasArchiveLink(url: Option<string>) {
    url.Some? && url.value != [] && url.value != CollectMarker
  }

  /** The photo paths `_download_photos_sync` returns: the image paths sorted. */
  function SortedPhotos(walked: seq<WalkEntry>): (r: seq<string>)
    ensures Sorted(r) && multiset(r) == multiset(ImagePaths(walked))
    ensures |r| == |ImagePaths(walked)|
  {
    var r := Sort(ImagePaths(walked));
    assert |multiset(r)| == |multiset(ImagePaths(walked))|;
    r
  }

  /** The name of the sent archive, with the fallback name for a missing car
      name and every '/' replaced by '_'. */
  function ArchiveName(carName: Option<string>): (r: string)
    ensures '/' !in r
    ensures EndsWith(r, ".zip")
    ensures carName.None? ==> r == DefaultArchiveName + ".zip"
  {
    SafeName(carName.GetOr(DefaultArchiveName)) + ".zip"
  }

  /** The name as bot_local.py:315 computes it: `.get('car_name', ...)` only
      falls back when the key is missing, but rus_bot's listing data always
      has the key, with the value None when no title was found; `None.replace`
      then raises (None here). */
  function ArchiveNameAsWritten(carName: Option<string>): (r: Option<string>)
    ensures r.None? <==> carName.None?
    ensures r.Some? ==> r.value == ArchiveName(carName)
  {
    if carName.None? then None else Some(SafeName(carName.value) + ".zip")
  }

  /** A listing without a title makes the as-written name computation raise,
      after the job succeeded; the fallback name is never used. */
  lemma UntitledListingLosesArchive()
    ensures ArchiveNameAsWritten(None).None?
    ensures ArchiveName(None) == DefaultArchiveName + ".zip"
  {
  }

  /** The part of `_process_url` after the job was accepted: poll it, then
      answer with the failure, the timeout, the job's error or the archive.
      A status request that raises, and decoding a missing archive, reach
      the outer handler. */
  method AwaitJob(car: CarData, text: string, replies: nat -> StatusReply)
    returns (reply: LocalReply, polls: nat, edits: seq<nat>)
    ensures (polls, edits) == (PollFrom(replies, 0).1, EditTimes(PollFrom(replies, 0).1)) && polls > 0
    ensures PollFrom(replies, 0).0.Timeout? ==> reply == TimedOut(text)
    ensures PollFrom(replies, 0).0.Failed? ==> reply == JobFailed(text, PollFrom(replies, 0).0.error)
    ensures PollFrom(replies, 0).0.Aborted? ==> reply == ErrorReply
    ensures PollFrom(replies, 0).0.Completed? ==>
      var verdict := ClassifyLocal(PollFrom(replies, 0).0.result);
      (verdict.Reported? ==> reply == JobError(text, verdict.error)) &&
      (verdict.Delivered? && verdict.zipBase64.Some? ==> reply == ArchiveSent(ArchiveName(car.carName), text)) &&
      (verdict.Delivered? && verdict.zipBase64.None? ==> reply == ErrorReply)
    ensures reply.ArchiveSent? ==> IsCompleted(replies(polls - 1))
    ensures reply.TimedOut? ==> polls == MaxPolls && forall j :: 0 <= j < MaxPolls ==> !Stops(replies(j))
    ensures reply.TimedOut? || reply.JobFailed? || reply.JobError? || reply.ArchiveSent? || reply == ErrorReply
  {
    var result;
    result, polls, edits := PollJob(replies);
    PollOutcome(replies, 0);
    match result
    case Failed(e) =>
      reply := JobFailed(text, e);
    case Timeout =>
      reply := TimedOut(text);
    case Aborted =>
      reply := ErrorReply;
    case Completed(status) =>
      var verdict := ClassifyLocal(status);
      if verdict.Reported? {
        reply := JobError(text, verdict.error);
      } else if verdict.zipBase64.None? {
        reply := ErrorReply;  // decoding a missing archive raises
      } else {
        reply := ArchiveSent(ArchiveName(car.carName), text);
      }
  }

  /** The part of `_process_url` from the job submission on: a non-200 reply
      is reported, an exception reaches the outer handler, and an accepted
      job is awaited. */
  method SubmitJob(car: CarData, text: string, submit: Submission, replies: nat -> StatusReply)
    returns (reply: LocalReply, polls: nat, edits: seq<nat>)
    ensures polls > 0 <==> submit.Accepted?
    ensures submit.NotAccepted? ==> reply == RunRejected(text)
    ensures submit.SubmitRaised? ==> reply == ErrorReply
    ensures submit.Accepted? ==>
      var p := PollFrom(replies, 0);
      (polls, edits) == (p.1, EditTimes(p.1)) &&
      (p.0.Timeout? ==> reply == TimedOut(text)) &&
      (p.0.Failed? ==> reply == JobFailed(text, p.0.error)) &&
      (p.0.Aborted? ==> reply == ErrorReply)
    ensures submit.Accepted? && PollFrom(replies, 0).0.Completed? ==>
      var verdict := ClassifyLocal(PollFrom(replies, 0).0.result);
      (verdict.Reported? ==> reply == JobError(text, verdict.error)) &&
      (verdict.Delivered? && verdict.zipBase64.Some? ==> reply == ArchiveSent(ArchiveName(car.carName), text)) &&
      (verdict.Delivered? && verdict.zipBase64.None? ==> reply == ErrorReply)
    ensures reply.ArchiveSent? ==> polls > 0 && IsCompleted(replies(polls - 1))
    ensures reply.TimedOut? ==> polls == MaxPolls && forall j :: 0 <= j < MaxPolls ==> !Stops(replies(j))
  {
    polls, edits := 0, [];
    if submit.NotAccepted? {
      reply := RunRejected(text);
    } else if submit.SubmitRaised? {
      reply := ErrorReply;
    } else {
      reply, polls, edits := AwaitJob(car, text, replies);
    }
  }

  /** `_process_url` with the listing already formatted as `text`, `submit`
      the outcome of the job submission, and `replies(j)` the outcome of the
      j-th status request. An exception raised by the submission or by a
      status request reaches the outer handler, which answers with an error.
      The temporary directory of a download that returned is removed by the
      `finally` clause on every later path; a download that raised leaves the
      directory it made. */
  method ProcessUrl(car: CarData, text: string, download: DownloadResult, read: string -> string,
                    submit: Submission, replies: nat -> StatusReply) returns (run: LocalRun)
    ensures run.payload.Some? <==>
      HasArchiveLink(car.photoDownloadUrl) && download.Downloaded? && ImagePaths(download.walked) != []
    ensures run.payload.Some? ==>
      |run.payload.value| == (if |ImagePaths(download.walked)| < LocalPayloadLimit then |ImagePaths(download.walked)| else LocalPayloadLimit) &&
      forall i :: 0 <= i < |run.payload.value| ==> run.payload.value[i] == read(SortedPhotos(download.walked)[i])
    ensures !HasArchiveLink(car.photoDownloadUrl) ==> run.reply == TextOnly(text)
    ensures HasArchiveLink(car.photoDownloadUrl) && download.DownloadRaised? ==> run.reply == DownloadFailed(text)
    ensures HasArchiveLink(car.photoDownloadUrl) && download.Downloaded? && ImagePaths(download.walked) == [] ==>
      run.reply == NoPhotos(text)
    ensures run.polls > 0 <==> run.payload.Some? && submit.Accepted?
    ensures run.payload.Some? && submit.NotAccepted? ==> run.reply == RunRejected(text)
    ensures run.payload.Some? && submit.SubmitRaised? ==> run.reply == ErrorReply
    ensures run.payload.Some? && submit.Accepted? ==>
      var p := PollFrom(replies, 0);
      (run.polls, run.edits) == (p.1, EditTimes(p.1)) &&
      (p.0.Timeout? ==> run.reply == TimedOut(text)) &&
      (p.0.Failed? ==> run.reply == JobFailed(text, p.0.error)) &&
      (p.0.Aborted? ==> run.reply == ErrorReply)
    ensures run.payload.Some? && submit.Accepted? && PollFrom(replies, 0).0.Completed? ==>
      var verdict := ClassifyLocal(PollFrom(replies, 0).0.result);
      (verdict.Reported? ==> run.reply == JobError(text, verdict.error)) &&
      (verdict.Delivered? && verdict.zipBase64.Some? ==> run.reply == ArchiveSent(ArchiveName(car.carName), text)) &&
      (verdict.Delivered? && verdict.zipBase64.None? ==> run.reply == ErrorReply)
    ensures run.reply.ArchiveSent? ==> run.polls > 0 && IsCompleted(replies(run.polls - 1))
    ensures run.reply.TimedOut? ==>
      run.polls == MaxPolls && forall j :: 0 <= j < MaxPolls ==> !Stops(replies(j))
    ensures run.reply == ErrorReply ==> run.payload.Some? && run.tempDir == Removed
    ensures run.tempDir == Removed <==> HasArchiveLink(car.photoDownloadUrl) && download.Downloaded?
    ensures run.tempDir == Leaked <==> HasArchiveLink(car.photoDownloadUrl) && download.DownloadRaised?
  {
    // try:
    if !HasArchiveLink(car.photoDownloadUrl) {
      run := LocalRun(TextOnly(text), None, 0, [], NoTempDir);
    } else if download.DownloadRaised? {
      run := LocalRun(DownloadFailed(text), None, 0, [], Leaked);
    } else {
      // `temp_dir` is set from here on; the `finally` clause removes it
      var photos := DownloadPhotosSync(download.walked);
      SortedPermutationUnique(photos, SortedPhotos(download.walked));
      if photos == [] {
        run := LocalRun(NoPhotos(text), None, 0, [], Removed);
      } else {
        var data := BuildPayload(photos, LocalPayloadLimit, read);
        var reply, polls, edits := SubmitJob(car, text, submit, replies);
        run := LocalRun(reply, Some(data), polls, edits, Removed);
      }
    }
  }

  /** `_process_url` as bot_local.py:166 writes it: rus_bot's formatter takes
      only the listing data, so the two-argument call raises TypeError right
      after parsing; the outer handler answers with an error, no photo is
      downloaded, no job is submitted and no temporary directory exists. */
  method ProcessUrlAsWritten(car: CarData, download: DownloadResult, read: string -> string,
                             submit: Submission, replies: nat -> StatusReply) returns (run: LocalRun)
    ensures run.reply == ErrorReply && run.payload.None? && run.polls == 0 && run.tempDir == NoTempDir
  {
    run := LocalRun(ErrorReply, None, 0, [], NoTempDir);
  }

  /** With the formatter called as rus_bot defines it, a listing with an
      archive of photos, an accepted job and a successful first status reply
      is answered with the archive. */
  method ArchiveDelivered(car: CarData, text: string, walked: seq<WalkEntry>, read: string -> string,
                          replies: nat -> StatusReply) returns (run: LocalRun)
    requires HasArchiveLink(car.photoDownloadUrl) && ImagePaths(walked) != []
    requires IsCompleted(replies(0)) && ClassifyLocal(replies(0).body).Delivered?
    requires ClassifyLocal(replies(0).body).zipBase64.Some?
    ensures run.reply == ArchiveSent(ArchiveName(car.carName), text)
    ensures run.polls == 1 && run.tempDir == Removed
  {
    assert PollFrom(replies, 0) == (Completed(replies(0).body), 1);
    run := ProcessUrl(car, text, Downloaded(walked), read, Accepted, replies);
  }
}
