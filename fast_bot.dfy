/** rus_bot_fast: one message is handled start to finish with no queue. The
    listing page is fetched with the Zambia country parameter appended, the
    message text is built, the photo archive is downloaded and unpacked, at
    most 30 photos (in walk order) go to RunPod's synchronous endpoint, and
    the user gets the cleaned archive or the error. Pages, archives and HTTP
    replies are inputs. */
module FastBot {
  import opened Wrappers
  import opened Text
  import opened OrderedDict
  import opened CountryParam
  import opened SpecRows
  import opened PageFields
  import opened PhotoFiles
  import opened RemoteJob
  import Scheduler

  /** What the selectors found on the listing page. */
  datatype FastPage = FastPage(
    primaryTitle: Option<string>, secondaryTitle: Option<string>,
    rows: seq<HeaderRow>, shownPrice: Option<string>, photoLink: Option<Option<string>>)

  /** The dict `parse` returns. */
  datatype ListingData = ListingData(url: string, carName: string, specs: Dict, price: string, photoUrl: Option<string>)

  /** `parse`: `requested` is the address the page is fetched from (and the
      price read from), the others are the fields of the data dict. */
  method Parse(url: string, page: FastPage) returns (requested: string, data: ListingData)
    ensures requested == FastParseUrl(url) && StartsWith(requested, url)
    ensures data.url == url
    ensures data.carName == CarName(page.primaryTitle, page.secondaryTitle)
    ensures data.specs == FastSpecs(page.rows)
    ensures data.price == Price(page.shownPrice) && data.price != []
    ensures data.photoUrl == PhotoUrl(page.photoLink)
  {
    requested := FastParseUrl(url);
    var specs := GetSpecs(page.rows);
    data := ListingData(url, CarName(page.primaryTitle, page.secondaryTitle), specs,
                        Price(page.shownPrice), PhotoUrl(page.photoLink));
  }

  /** The runsync request: a non-200 reply, a 200 with the JSON `output`
      object (None when missing), or an exception (the request raised, or
      the body was not JSON). */
  datatype RunsyncReply = RunsyncNotOk | RunsyncOk(output: Option<JobOutput>) | RunsyncRaised

  /** The text `format_message` builds for a page fetched for `url`. */
  function MessageText(url: string, page: FastPage): string {
    Join(MessageLines(CarName(page.primaryTitle, page.secondaryTitle), Price(page.shownPrice),
                      FastSpecs(page.rows), url), "\n")
  }

  /** `if not data['photo_url']` negated: an href was found and is not empty. */
  predicate HasPhotoUrl(page: FastPage) {
    PhotoUrl(page.photoLink).Some? && PhotoUrl(page.photoLink).value != []
  }

  datatype FastReply =
    | NotAListing                       // text without "beforward.jp"
    | TextOnly(message: string)         // no photo link
    | NoPhotos(message: string)
    | JobError(message: string, error: string)
    | ArchiveSent(fileName: string, caption: string)
    | ErrorReply                        // exception caught by the handler

  /** `requested` is the page address when the page was requested; `tempDirLeft`
      tells that an archive was unpacked into a temporary directory, which
      rus_bot_fast never removes. */
  datatype FastRun = FastRun(reply: FastReply, requested: Option<string>,
                             payload: Option<seq<string>>, tempDirLeft: bool)

  /** `handle_url`. `page` is None when fetching the page raised; `walked` is
      None when downloading or unpacking the archive raised. */
  method HandleUrl(text: string, page: Option<FastPage>, walked: Option<seq<WalkEntry>>,
                   read: string -> string, runsync: RunsyncReply) returns (run: FastRun)
    ensures run.reply == NotAListing <==> !Scheduler.IsSiteLink(Strip(text))
    ensures run.requested.Some? <==> Scheduler.IsSiteLink(Strip(text))
    ensures run.requested.Some? ==> run.requested.value == FastParseUrl(Strip(text))
    ensures Scheduler.IsSiteLink(Strip(text)) && page.None? ==> run.reply == ErrorReply
    ensures Scheduler.IsSiteLink(Strip(text)) && page.Some? && !HasPhotoUrl(page.value) ==>
      run.reply == TextOnly(MessageText(Strip(text), page.value))
    ensures Scheduler.IsSiteLink(Strip(text)) && page.Some? && HasPhotoUrl(page.value) && walked.None? ==>
      run.reply == ErrorReply
    ensures run.tempDirLeft <==>
      Scheduler.IsSiteLink(Strip(text)) && page.Some? && HasPhotoUrl(page.value) && walked.Some?
    ensures run.tempDirLeft && ImagePaths(walked.value) == [] ==>
      run.reply == NoPhotos(MessageText(Strip(text), page.value))
    ensures run.payload.Some? <==> run.tempDirLeft && ImagePaths(walked.value) != []
    ensures run.payload.Some? ==>
      |run.payload.value| == (if |ImagePaths(walked.value)| < FastPayloadLimit then |ImagePaths(walked.value)| else FastPayloadLimit) &&
      forall i :: 0 <= i < |run.payload.value| ==> run.payload.value[i] == read(ImagePaths(walked.value)[i])
    ensures run.payload.Some? && !runsync.RunsyncOk? ==> run.reply == ErrorReply
    ensures run.payload.Some? && runsync.RunsyncOk? ==>
      var v := ClassifyFast(runsync.output);
      var m := MessageText(Strip(text), page.value);
      (v.Reported? ==> run.reply == JobError(m, v.error)) &&
      (v.Delivered? && v.zipBase64.Some? ==>
        run.reply == ArchiveSent(SafeName(CarName(page.value.primaryTitle, page.value.secondaryTitle)) + ".zip", m)) &&
      (v.Delivered? && v.zipBase64.None? ==> run.reply == ErrorReply)
    ensures run.reply.JobError? ==>
      runsync.RunsyncOk? && run.reply.error == OutputOf(runsync.output).error.GetOr(UnknownError)
    ensures run.reply.ArchiveSent? ==>
      run.payload.Some? && runsync.RunsyncOk? && ClassifyFast(runsync.output).Delivered? &&
      run.reply.fileName == SafeName(CarName(page.value.primaryTitle, page.value.secondaryTitle)) + ".zip"
  {
    var url := Strip(text);
    if !Scheduler.IsSiteLink(url) {
      return FastRun(NotAListing, None, None, false);
    }
    if page.None? {
      return FastRun(ErrorReply, Some(FastParseUrl(url)), None, false);
    }
    var requested, data := Parse(url, page.value);
    var message := FormatMessage(data.carName, data.price, data.specs, data.url);
    if data.photoUrl.None? || data.photoUrl.value == [] {
      return FastRun(TextOnly(message), Some(requested), None, false);
    }
    if walked.None? {
      return FastRun(ErrorReply, Some(requested), None, false);
    }
    var photos := WalkPhotos(walked.value);
    if photos == [] {
      return FastRun(NoPhotos(message), Some(requested), None, true);
    }
    var payload := BuildPayload(photos, FastPayloadLimit, read);
    if !runsync.RunsyncOk? {
      return FastRun(ErrorReply, Some(requested), Some(payload), true);
    }
    var verdict := ClassifyFast(runsync.output);
    var reply;
    if verdict.Reported? {
      reply := JobError(message, verdict.error);
    } else if verdict.zipBase64.None? {
      reply := ErrorReply;  // decoding a missing archive raises
    } else {
      reply := ArchiveSent(SafeName(data.carName) + ".zip", message);
    }
    run := FastRun(reply, Some(requested), Some(payload), true);
  }

  /** The file name never contains '/', whatever the title. */
  lemma ArchiveFileNameIsFlat(page: FastPage)
    ensures '/' !in SafeName(CarName(page.primaryTitle, page.secondaryTitle)) + ".zip"
  {
  }
}
