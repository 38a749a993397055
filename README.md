# idi_motors_bot in Dafny

idi_motors_bot is a set of Telegram bots for a car dealer. A user sends a link
to a BeForward.jp listing. The bot reads the listing (name, price,
specification table, photo archive link) and answers with a text message. It
then gets the listing photos with the watermark removed and, below Full HD,
upscaled.

There are three front ends:

- **rus_bot.py** cleans the photos itself through a local IOPaint server and
  offers inline buttons to download them.
- **bot_local.py** sends at most 20 sorted photos to a RunPod job and polls it.
- **rus_bot_fast.py** sends at most 30 photos in walk order to RunPod's
  synchronous endpoint.

The two queued front ends share one admission and drain discipline: a FIFO
queue guarded by an `is_processing` flag.

This project models the deterministic core beneath the Telegram, HTTP, PIL
and zip glue, and proves what that core promises. Every remote reply, every
page text and every unpacked archive is an input:

- an `Option`;
- a reply datatype;
- a function from the request number to the reply;
- a list of walked files.

Modules, one per file:

| file | module | what it models |
|---|---|---|
| wrappers.dfy | Wrappers | `Option` |
| text.dfy | Text | `str.strip`, `lower`, `in`, `replace`, `split`, `join`, decimal ids |
| ordered_dict.dfy | OrderedDict | a Python dict as an insertion-ordered list of pairs |
| string_order.dfy | StringOrder | `list.sort()` on strings: order and insertion sort |
| country_param.dfy | CountryParam | the Zambia country parameter of both parsers, and `re.sub(r'tp_country_id=\d+', ...)` |
| watermark.dfy | Watermark | the watermark mask rectangle |
| image_pipeline.dfy | ImagePipeline | rus_bot's per-image and per-batch photo cleaning |
| spec_rows.dfy | SpecRows | specification-row filtering of both parsers |
| page_fields.dfy | PageFields | name and price fallbacks, link absolutisation, slider photos, `format_message` |
| callbacks.dfy | Callbacks | rus_bot inline-button data and its dispatch |
| scheduler.dfy | Scheduler | `handle_url` and `process_queue` of both queued bots (the `UrlQueue` class) |
| remote_job.dfy | RemoteJob | RunPod polling, its status-edit cadence and result classification |
| photo_files.dfy | PhotoFiles | photo discovery in the unpacked archive and the payload |
| local_pipeline.dfy | LocalPipeline | bot_local `_process_url` end to end |
| fast_bot.dfy | FastBot | rus_bot_fast `parse` and `handle_url` end to end |

## Model

| member | source | states |
|---|---|---|
| Text.Strip | bot_local.py:59 | the stripped text is no longer than the input and neither starts nor ends with whitespace |
| Text.StripSlice | bot_local.py:59 | the stripped text is a contiguous slice of the input, and everything cut off before and after it is whitespace |
| Text.StripEmptyIff | rus_bot_fast.py:127-129 | stripping gives the empty string exactly when every character is whitespace |
| Text.ReplaceCanLeaveOccurrence | rus_bot.py:249-250 | one `replace(pat, "")` pass can leave `pat` behind: the two sides of a removed copy join into a new one |
| Text.ReplaceCharByNothing | rus_bot.py:706 | replacing a one-character string by nothing deletes exactly the occurrences of that character and keeps the rest in order |
| Text.ReplacePairThenChar | rus_bot.py:706 | removing `**` first changes nothing about what removing `*` afterwards leaves |
| Text.Split | rus_bot.py:1053 | `split('_')` gives one more piece than there are separators, and no piece holds one |
| Text.SplitJoin | rus_bot_fast.py:181 | splitting a `join` of separator-free parts gives the parts back |
| Text.DecimalRoundTrip | rus_bot.py:1238-1240 | a message id written in decimal reads back as the same number |
| OrderedDict.Put | rus_bot.py:254 | `d[k] = v` keeps keys unique, keeps the key order, appends a new key at the end, and stores `(k, v)` |
| OrderedDict.PutPairs | rus_bot.py:254 | after `d[k] = v` every pair is `(k, v)` or an old pair, and every old pair of another key survives |
| OrderedDict.PutThenGet | rus_bot_fast.py:95 | reading a key just assigned gives the assigned value |
| OrderedDict.PutThenGetOther | rus_bot_fast.py:95 | assigning one key leaves every other key's value unchanged |
| StringOrder.Sort | bot_local.py:147 | the sorted list is ordered and a permutation of the input |
| StringOrder.SortedPermutationUnique | bot_local.py:147 | two sorted permutations of one list are equal, so the sort result is determined |
| CountryParam.FastParseUrl | rus_bot_fast.py:57 | the user's URL is a prefix of the page address, followed by `&` when it has a `?` (else `?`) and then `tp_country_id=88` |
| CountryParam.FastParseDuplicatesParam | rus_bot_fast.py:57 | rus_bot_fast appends the parameter even when it is already there, where rus_bot leaves such a URL alone |
| CountryParam.CountryPatternIsGood | rus_bot.py:136 | the parameter is `tp_country_id=` followed by the decimal of config.py's 88, and the pattern meets what the rewriting lemmas need |
| CountryParam.DigitRun | rus_bot.py:141 | the greedy `\d+` run: all digits, and followed by a non-digit or the end |
| CountryParam.SubIdempotent | rus_bot.py:141 | rewriting ids to 88 twice is rewriting once |
| CountryParam.SubSplits | rus_bot.py:141 | no match crosses a `?` or `&`, so each side is rewritten on its own |
| CountryParam.SubWithoutKey | rus_bot.py:141 | a text without `tp_country_id` is not changed by the rewrite |
| CountryParam.SubKeepsKeyPrefix | rus_bot.py:141 | the rewrite never removes an occurrence of `tp_country_id` |
| CountryParam.SubKeepsSeparator | rus_bot.py:141 | the rewrite keeps a `?` present |
| CountryParam.AddZambiaAppendsWhenAbsent | rus_bot.py:138-142 | without `?`, or without `tp_country_id`, the parameter is appended after `?` or `&`, as rus_bot_fast does |
| CountryParam.AddZambiaTwiceWithoutQuery | rus_bot.py:138-142 | on a URL without `?`, a second call rewrites the ids of the URL's own text and keeps the appended parameter |
| CountryParam.AddZambiaTwiceAppended | rus_bot.py:138-140 | with `?` but no `tp_country_id`, a second call changes nothing |
| CountryParam.AddZambiaTwiceRewritten | rus_bot.py:138-141 | with `?` and `tp_country_id`, a second call changes nothing |
| CountryParam.AddZambiaIdempotentIff | rus_bot.py:127-142 | applying the function twice equals applying it once exactly when the URL has a `?`, or rewriting its `tp_country_id=<digits>` to 88 leaves it unchanged |
| CountryParam.AddZambiaNotAlwaysIdempotent | rus_bot.py:136-142 | `tp_country_id=5` changes on the second call |
| Watermark.MaskRect | rus_bot.py:347-350 | the band is 300 by 30 and flush with the bottom; the left and right margins differ by 0 or 1, and the band lies inside a large enough photo |
| Watermark.MaskPaintsBottomBand | rus_bot.py:344-353 | the painted pixels are exactly the bottom 30 rows between `x1` and `x2` inclusive |
| ImagePipeline.ServiceImage | rus_bot.py:406-423 | IOPaint yields an image only for a 200 reply with a decodable body; other statuses and exceptions give None |
| ImagePipeline.ProcessSingleImage | rus_bot.py:469-547 | an undecodable file sends nothing; the inpaint request comes first; at most two requests; a photo is saved exactly when watermark removal gave an image |
| ImagePipeline.UpscaleOnlyBelowFullHd | rus_bot.py:512-527 | upscaling is requested exactly when the cleaned photo has strictly fewer than 1920*1080 pixels, and the cleaned photo is what is sent |
| ImagePipeline.FullHdNotUpscaled | rus_bot.py:514 | a cleaned photo of exactly 1920 by 1080 is saved without an upscale request |
| ImagePipeline.FailedUpscaleKeepsCleaned | rus_bot.py:516-524 | a failed upscale saves the cleaned photo |
| ImagePipeline.SavedIsCleanedOrUpscaled | rus_bot.py:499-541 | what is saved is the upscaled or the cleaned photo; a failed watermark removal saves nothing |
| ImagePipeline.GlobOne | rus_bot.py:611 | one pattern finds exactly the visible files whose name ends with its extension |
| ImagePipeline.GlobAll | rus_bot.py:608-612 | the six patterns together find exactly the files some pattern matches |
| ImagePipeline.AtMostOneExtension | config.py:56 | no name ends with two of the supported extensions, so no file is found twice by a case-sensitive glob |
| ImagePipeline.GlobAllEmpty | rus_bot.py:608-616 | when no file matches any pattern, nothing is found |
| ImagePipeline.GlobPattern | rus_bot.py:611 | the loop for one pattern computes that pattern's matches |
| ImagePipeline.CollectImageFiles | rus_bot.py:608-612 | the extend loop finds exactly the visible files with a supported extension |
| ImagePipeline.OutputDir | rus_bot.py:627-667 | only names of processed files appear in the output directory |
| ImagePipeline.OutputDirHasName | rus_bot.py:627-667 | a name is in the output directory exactly when a processed file of that name was saved |
| ImagePipeline.OutputDirSize | rus_bot.py:685-702 | the output holds at most one photo per saved file, and exactly one when names are distinct |
| ImagePipeline.StripStars | rus_bot.py:706 | the stored listing text holds no asterisk |
| ImagePipeline.StripStarsRemovesAsterisks | rus_bot.py:706 | the two replacements delete every asterisk and keep every other character in order |
| ImagePipeline.Take | rus_bot.py:621 | `s[:n]` is the first `min(len(s), n)` elements |
| ImagePipeline.MakeArchive | rus_bot.py:685-718 | an empty output gives None, never an empty archive; otherwise the archive holds the output and, for non-empty text, the text without asterisks |
| ImagePipeline.DownloadAndProcessPhotos | rus_bot.py:571-718 | an unreachable server or a failed download gives None; otherwise the archive is built from the first 20 images found, in order; an archive holds between 1 and 20 photos |
| ImagePipeline.NoImagesNoArchive | rus_bot.py:614-616 | an archive without image files gives None |
| ImagePipeline.ArchivePhotos | rus_bot.py:697-702 | a name is in the new archive exactly when one of the first 20 images of that name was cleaned |
| SpecRows.PairEntry | rus_bot.py:227-254 | a stored pair has a non-empty key free of excluded keywords (ignoring case) and a value that is neither empty nor `-`; `Find parts for this model code` is removed; clean pairs are stored unchanged |
| SpecRows.RowPairs | rus_bot.py:225-256 | cells are read in pairs `(2k, 2k+1)`, `len(cells) // 2` of them |
| SpecRows.TrailingCellIgnored | rus_bot.py:226 | a trailing odd cell is ignored |
| SpecRows.StoreRow | rus_bot.py:225-256 | the while loop over a row's cells stores what the pair filter accepts, in order |
| SpecRows.ExtractSpecs | rus_bot.py:207-258 | the loop over the rows builds the dict of all accepted pairs in row order |
| SpecRows.StoreAllGet | rus_bot.py:254 | each key holds the value of its last accepted pair |
| SpecRows.LastEntryClean | rus_bot.py:231-254 | the last accepted pair of a key meets the filter and comes from the rows |
| SpecRows.ExtractedSpecsClean | rus_bot.py:231-254 | every stored key and value meets the filter and comes from a pair of the table |
| SpecRows.FindPartsPhraseCanRemain | rus_bot.py:249-250 | a value built around the phrase still holds it after the removal |
| SpecRows.FastSpecs | rus_bot_fast.py:84-96 | the fast parser's dict has unique keys |
| SpecRows.GetSpecs | rus_bot_fast.py:84-96 | the loop over the rows builds that dict |
| SpecRows.FastSpecsKeys | rus_bot_fast.py:87-95 | a key is stored exactly when some row has both cells and the key is not exactly one of the four excluded names |
| SpecRows.ParsersDisagree | rus_bot_fast.py:94 | the fast parser keeps `Chassis No.` and a value `-`, which rus_bot drops |
| PageFields.CarName | rus_bot_fast.py:76-82 | the first title found, else `Неизвестная модель` |
| PageFields.Price | rus_bot_fast.py:98-133 | never empty: the stripped price text, or `ASK` |
| PageFields.PriceAskIff | rus_bot_fast.py:127-133 | the price is `ASK` exactly when reading failed, the text is blank, or the text is `ASK` |
| PageFields.PriceKeepsVisibleText | rus_bot_fast.py:127-129 | a non-blank price text is shown stripped |
| PageFields.Absolutise | rus_bot_fast.py:142-145 | an href starting with `/` gets `https://www.beforward.jp` in front; any other href is kept as it is; the result never starts with `/` |
| PageFields.AbsolutiseIdempotent | rus_bot_fast.py:142-145 | absolutising twice is absolutising once |
| PageFields.PhotoUrl | rus_bot_fast.py:138-146 | a link with an href gives the href, with the site address in front when it starts with `/` and unchanged otherwise; no link or no href gives None |
| PageFields.PhotoDownloadUrl | rus_bot.py:260-280 | a download link decides alone; without one, `COLLECT_PHOTOS` exactly when the slider has slides |
| PageFields.PhotoLinkParsersAgree | rus_bot.py:266-270 | both parsers treat a found link alike |
| PageFields.NormaliseSrc | rus_bot.py:293-298 | a source starting with `//` gets `https:` in front, one starting with a single `/` gets the site address, and any other is kept; the result never starts with `/` |
| PageFields.AddSlide | rus_bot.py:291-308 | one slide adds its normalised `src`, then its normalised `data-src`, each only when present and non-empty |
| PageFields.CollectPhotoUrls | rus_bot.py:282-310 | the result is the set of all slide addresses |
| PageFields.CollectedUrlsNeverSiteRelative | rus_bot.py:292-308 | every collected address is non-empty and never starts with `/`; other relative addresses are kept as they are |
| PageFields.SlideSrcCollected | rus_bot.py:292-299 | each slide's `src` is collected |
| PageFields.SpecLines | rus_bot_fast.py:177-178 | one line per spec |
| PageFields.FormatMessage | rus_bot_fast.py:173-181 | the message is the name, price, empty, spec and link lines joined with line breaks |
| PageFields.MessageLinesReadBack | rus_bot_fast.py:175-181 | splitting the message at line breaks gives the name line, the price line, an empty line, the spec lines in dict order, an empty line and the link line |
| Callbacks.Dispatch | rus_bot.py:1051-1277 | data is unhandled exactly when it starts with none of the four prefixes |
| Callbacks.DispatchReadsSplitIndex | rus_bot.py:1051-1277 | the cleaned and ready branches read the id at `split('_')[3]`, the zip and photos branches at `[2]` |
| Callbacks.AtMostOnePrefix | rus_bot.py:1051-1275 | no data starts with two of the dispatch prefixes |
| Callbacks.ButtonRoundTrip | rus_bot.py:959-963 | the button for an id without `_` is dispatched to its own branch with that id |
| Callbacks.MessageIdRoundTrip | rus_bot.py:1224-1240 | a message id put into a ready or zip button is read back as the same number |
| Scheduler.Admit | rus_bot.py:869-897 | a non-BeForward text is rejected and not queued; an accepted URL is appended; rus_bot answers "starting" exactly when it is alone and nothing runs, otherwise its position; a drain starts exactly when a URL was queued and none runs |
| Scheduler.UrlQueue.constructor | bot_local.py:43-44 | an empty queue, not processing |
| Scheduler.UrlQueue.HandleUrl | bot_local.py:57-80 | the new queue, reply and drain start are those of `Admit`; bot_local's queue stays within 20 |
| Scheduler.UrlQueue.Drain | bot_local.py:82-112 | a running drain returns at once and changes nothing; otherwise every queued URL is handled in FIFO order whatever its outcome, the queue ends empty and the flag clear |
| Scheduler.HandleUrlThenDrain | bot_local.py:78-80 | a link accepted by an idle bot is handled after everything queued before it, and the flag is clear again |
| RemoteJob.PollFrom | bot_local.py:259-299 | polling makes at most 60 requests |
| RemoteJob.PollOutcome | bot_local.py:267-299 | timeout exactly when none of the 60 replies is terminal or raised; otherwise polling stops at the first COMPLETED, FAILED or raised request; a raised request aborts; a FAILED error defaults to `Unknown error` |
| RemoteJob.EditTimesShape | bot_local.py:259-265 | the status message is edited every third request, at 15, 30, 45, ... seconds |
| RemoteJob.PollBudget | bot_local.py:255-256 | 60 requests of 5 seconds fill the 300 seconds, with 20 edits, the last at 300 |
| RemoteJob.EditStatus | bot_local.py:264-265 | one sleep adds an edit exactly on multiples of 15 seconds |
| RemoteJob.PollJob | bot_local.py:255-299 | the loop's outcome and request count are those of `PollFrom`, a request that raises leaves the loop, and its edits are the cadence above |
| RemoteJob.ClassifyLocal | bot_local.py:302-325 | success exactly when `output.status` is `success`; the error is `output.error`, else the job's `error`, else `Unknown error` |
| RemoteJob.ClassifyFast | rus_bot_fast.py:258-279 | success exactly when `output.status` is `success`; the error is `output.error`, else `Unknown error` |
| RemoteJob.ClassifiersAgree | rus_bot_fast.py:278-279 | the two classifications agree when the job has no error outside `output` |
| RemoteJob.ClassifiersDifferOnJobError | bot_local.py:325 | only bot_local reports an error the job carries outside `output` |
| RemoteJob.NoSuccessWithoutOutput | bot_local.py:302-304 | a job without `output` is never a success |
| RemoteJob.SafeName | rus_bot_fast.py:269 | the name keeps its length, every `/` becomes `_`, and no `/` remains |
| PhotoFiles.ImagePathsMembers | bot_local.py:140-144 | a path is listed exactly when some walked file has that path and an image name |
| PhotoFiles.WalkPhotos | rus_bot_fast.py:164-168 | the walk loop lists the image paths in walk order |
| PhotoFiles.DownloadPhotosSync | bot_local.py:140-147 | the result is sorted and is a permutation of the image paths |
| PhotoFiles.DownloadedPhotosDetermined | bot_local.py:147 | any sorted arrangement of those paths is the result |
| PhotoFiles.BuildPayload | bot_local.py:211-217 | the payload holds `min(n, limit)` items, item `i` being the read of photo `i` |
| PhotoFiles.GlobNameIsImageName | bot_local.py:142 | every name rus_bot's patterns accept is an image name here |
| PhotoFiles.MixedCaseOnlyHere | bot_local.py:142 | `a.Jpg` is an image name here but matches none of rus_bot's patterns |
| LocalPipeline.SortedPhotos | bot_local.py:140-147 | the photo list is sorted and a permutation of the image paths |
| LocalPipeline.ArchiveName | bot_local.py:315 | the file name holds no `/`, ends in `.zip`, and is `cleaned_photos.zip` when there is no car name |
| LocalPipeline.ArchiveNameAsWritten | bot_local.py:315 | the name computation as written fails exactly when the car name is None |
| LocalPipeline.UntitledListingLosesArchive | bot_local.py:315 | a listing without a title loses its archive where the fallback name was meant |
| LocalPipeline.SubmitJob | bot_local.py:222-330 | only an accepted submission is polled; a rejected one gives the rejection reply and one that raises gives the error reply; an accepted one ends as the polling model says |
| LocalPipeline.AwaitJob | bot_local.py:255-330 | a timeout gives the timeout reply, FAILED its error, an aborted poll the error reply; a COMPLETED job gives the job error, the archive named after the car, or the error reply when the zip is missing |
| LocalPipeline.ProcessUrl | bot_local.py:151-348 | no job without a usable photo link or without photos; the payload is the first `min(n, 20)` sorted photos; a rejected submission is not polled and gets the rejection reply; a submission or status request that raises gives the error reply; the timeout and FAILED replies carry the listing text and the job's error; the classification decides between job error and archive; an archive is sent only after a COMPLETED reply; the temp dir is removed exactly when the download returned and left when it raised |
| LocalPipeline.ProcessUrlAsWritten | bot_local.py:163-166 | as written, every request ends in the error reply, with nothing downloaded or submitted |
| LocalPipeline.ArchiveDelivered | bot_local.py:259-320 | a listing with photos, an accepted job and a successful first status reply gets the archive after one request |
| FastBot.Parse | rus_bot_fast.py:54-74 | the page address is the fast parse URL; the dict holds the URL, the name fallback, the fast specs, the price fallback and the photo link |
| FastBot.HandleUrl | rus_bot_fast.py:201-288 | a non-BeForward text is refused; a page failure gives the error reply; no or an empty photo link gives the formatted listing text alone; a failed download or unpacking gives the error reply; an archive without images gives the text with the no-photos reply; the payload is the first `min(n, 30)` photos in walk order; a non-200 or raising request gives the error reply; a reported error gives the job error with the listing text, a delivered zip the archive named after the car with the text as caption; the temporary directory is left behind exactly when the archive was unpacked |
| FastBot.ArchiveFileNameIsFlat | rus_bot_fast.py:269-272 | the sent file name never contains `/` |

## Left out

- HTTP, Telegram, IOPaint, RunPod and Selenium calls are replaced by their results, given as parameters: replies, `Option` values, or a function from the request number to the reply. Message edits, chat actions and media groups are not modelled, apart from the polling status edits.
- PIL, base64, zip files and `shutil.rmtree` are not modelled. An image is a record of its size and pixels, file reads are a parameter `read`, and the temporary directory is a `TempDir` state or a flag.
- BeautifulSoup and Selenium scraping are not modelled. Each selector's result is an input text or its absence, and `get_text(strip=True)` is assumed already applied.
- The listing order of `os.listdir` in rus_bot is not modelled: the output directory is a map, and the new archive's photo order is not stated.
- PhotoFiles.PathOf: `os.path.join(root, name)` is modelled as `root + "/" + name`.
- `str.lower()` and `\d` are modelled on ASCII only.
- asyncio is not modelled: `create_task`, `run_in_executor`, `asyncio.sleep`, items queued while a drain runs, and the check-then-set race on `is_processing`. Drains and polling run as sequential loops.
- Scheduler.UrlQueue.HandleUrl: when bot_local's queue is full, `await put` waits for room. The model answers `WaitingForRoom` and does not queue the URL, because the wait would need a concurrent drain.
- Scheduler.UrlQueue.Drain: the handling of one URL is a parameter `process` that returns how it ended. rus_bot's per-item body (parsing, cleaning, previews, buttons) is not modelled as one step.
- The float progress bar of rus_bot.py:632-635 is not modelled.
- rus_bot's temporary directories, which are removed only when the zip button is pressed, are not modelled.
- The button handlers' bodies are not modelled. Only the dispatch and the id parsing of `handle_download` are: sending albums, storing `user_data`, and the slider-photo download loop of the `download_photos_` branch are left out.
- OpenAI description generation, the prompts in config.py, handler.py and handler_simple.py are not part of this model.
- rus_bot's `_extract_car_name`, `_extract_lusaka_price` and `format_car_data` are not modelled. bot_local's `_process_url` takes the formatted listing text as an input.
- RemoteJob.ClassifyLocal and RemoteJob.ClassifyFast: a JSON `null` in place of the `output` object raises in the source. It is modelled as a missing `output`.
- ImagePipeline.GlobOne: `glob` is modelled as case-sensitive, as on POSIX systems. On Windows (rus_bot.py:331 names a `.bat` script) `*.jpg` and `*.JPG` would both list the same file, and the cap of 20 at rus_bot.py:621 would count it twice.
- ImagePipeline.AtMostOneExtension: "no file is found twice" holds for the case-sensitive `glob` of the model, not for Windows' case-insensitive one.
- PhotoFiles.MixedCaseOnlyHere: that `a.Jpg` matches none of rus_bot's patterns holds for a case-sensitive `glob` only.
- Scheduler.UrlQueue.Drain: `process` is a function of the URL alone. The HTTP session, the network and the clock that the source's handler shares across URLs are not modelled.
- Reading a photo file (`open`) is assumed not to raise.
- A status-message edit that raises is not modelled.
- FastBot.HandleUrl: a download that fails before `mkdtemp` and an unpacking that fails after it are one input (`walked` is None), so a temporary directory left by a failed unpacking is not reported.

## Findings

| source | as written | input that shows it | evidently intended | confidence | as-written member | corrected member |
|---|---|---|---|---|---|---|
| bot_local.py:166 | `format_car_data(car_data, url)` passes two arguments, but rus_bot.py:740 takes only the listing data. The `TypeError` is caught at bot_local.py:332. | any BeForward link | format the listing and go on to download and clean its photos | high; not executed | LocalPipeline.ProcessUrlAsWritten | LocalPipeline.ProcessUrl |
| bot_local.py:315 | `car_data.get('car_name', 'cleaned_photos').replace('/', '_')`: rus_bot always stores the key `car_name` (rus_bot.py:63, 72), and `_extract_car_name` returns None (rus_bot.py:125) for a listing without a title. `None.replace` raises after the job succeeded, and the user gets an error instead of the archive. It is reachable once the first finding is fixed. | a listing page without any title element whose job succeeds | send the archive as `cleaned_photos.zip` | medium; not executed | LocalPipeline.UntitledListingLosesArchive | LocalPipeline.ArchiveName |

`_add_zambia_country_param` (rus_bot.py:127-142) is not idempotent on every URL. A URL without `?` that already holds `tp_country_id=<digits>` in its path changes on a second call. `CountryParam.AddZambiaIdempotentIff` states exactly when it is idempotent, and `CountryParam.AddZambiaNotAlwaysIdempotent` gives such a URL. This is listed here as a fact about the code, not as a defect, since such URLs are not the site's.
