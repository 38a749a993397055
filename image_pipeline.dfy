/** rus_bot.py's photo pipeline: the archive of listing photos is unpacked,
    the image files in it are found by extension, at most
    `PHOTO_PROCESSING_LIMIT` of them are sent one by one to the IOPaint
    service (watermark removal, then RealESRGAN upscaling below Full HD),
    and every photo that was saved goes into a new archive together with the
    listing text. The IOPaint service and the file system are parameters. */
module ImagePipeline {
  import opened Wrappers
  import opened Text
  import opened Watermark

  /** config.py PHOTO_PROCESSING_LIMIT. */
  const PhotoProcessingLimit: nat := 20

  /** config.py MIN_RESOLUTION: photos with fewer pixels are upscaled. */
  const MinResolution: nat := 1920 * 1080

  /** config.py UPSCALE_FACTOR and the plugin named in `_upscale_image`. */
  const UpscaleFactor: nat := 2
  const UpscaleModel: string := "RealESRGAN"

  /** config.py SUPPORTED_IMAGE_EXTENSIONS, each the suffix after `*`. */
  const SupportedExtensions: seq<string> := [".jpg", ".jpeg", ".png", ".JPG", ".JPEG", ".PNG"]

  /** A decoded photo; the pixel data stands for whatever PIL holds. */
  datatype Image = Image(width: nat, height: nat, pixels: seq<int>)

  /** What the bot asks IOPaint for. */
  datatype ServiceRequest =
    | Inpaint(image: Image, mask: Rect)
    | Upscale(image: Image, model: string, factor: nat)

  /** What comes back: an HTTP status and a body PIL may or may not decode,
      or an exception (connection refused, timeout). */
  datatype ServiceReply =
    | Reply(status: int, body: Option<Image>)
    | Raised

  /** `_remove_watermark` and `_upscale_image` turn a reply into an image the
      same way: only a 200 with a decodable body counts; every other status
      and every exception becomes `None`. */
  function ServiceImage(reply: ServiceReply): (r: Option<Image>)
    ensures r.Some? <==> reply.Reply? && reply.status == 200 && reply.body.Some?
    ensures r.Some? ==> r == reply.body
  {
    match reply
    case Raised => None
    case Reply(status, body) => if status != 200 then None else body
  }

  /** The inpainting request for a photo carries the mask built from the
      photo's own size. */
  function InpaintRequest(img: Image): ServiceRequest {
    Inpaint(img, MaskRect(img.width, img.height))
  }

  /** The outcome of `_process_single_image`: the photo written to the output
      directory, if any, and the requests sent to IOPaint in order. */
  datatype ImageStep = ImageStep(saved: Option<Image>, sent: seq<ServiceRequest>)

  /** `_process_single_image` for a file that PIL decodes to `loaded` (`None`
      when `Image.open` raises). The result is `True` exactly when `saved`
      holds a photo. */
  function ProcessSingleImage(loaded: Option<Image>, service: ServiceRequest -> ServiceReply): (r: ImageStep)
    ensures r.sent == [] <==> loaded.None?
    ensures loaded.Some? ==> r.sent[0] == InpaintRequest(loaded.value)
    ensures |r.sent| <= 2
    ensures r.saved.Some? <==> loaded.Some? && ServiceImage(service(InpaintRequest(loaded.value))).Some?
  {
    match loaded
    case None => ImageStep(None, [])
    case Some(img) =>
      var first := InpaintRequest(img);
      match ServiceImage(service(first))
      case None => ImageStep(None, [first])
      case Some(cleaned) =>
        if cleaned.width * cleaned.height < MinResolution then
          var second := Upscale(cleaned, UpscaleModel, UpscaleFactor);
          match ServiceImage(service(second))
          case None => ImageStep(Some(cleaned), [first, second])
          case Some(upscaled) => ImageStep(Some(upscaled), [first, second])
        else
          ImageStep(Some(cleaned), [first])
  }

  /** Upscaling is asked for exactly when the photo IOPaint returned without
      the watermark has fewer pixels than Full HD, and it is the cleaned
      photo, not the original, that is sent. */
  lemma UpscaleOnlyBelowFullHd(loaded: Option<Image>, service: ServiceRequest -> ServiceReply)
    requires loaded.Some?
    requires ServiceImage(service(InpaintRequest(loaded.value))).Some?
    ensures var cleaned := ServiceImage(service(InpaintRequest(loaded.value))).value;
            var r := ProcessSingleImage(loaded, service);
            (|r.sent| == 2 <==> cleaned.width * cleaned.height < MinResolution) &&
            (|r.sent| == 2 ==> r.sent[1] == Upscale(cleaned, UpscaleModel, UpscaleFactor))
  {
  }

  /** A cleaned photo of exactly 1920 by 1080 is saved as it is. */
  lemma FullHdNotUpscaled(loaded: Option<Image>, service: ServiceRequest -> ServiceReply)
    requires loaded.Some?
    requires var c := ServiceImage(service(InpaintRequest(loaded.value)));
             c.Some? && c.value.width == 1920 && c.value.height == 1080
    ensures var r := ProcessSingleImage(loaded, service);
            |r.sent| == 1 && r.saved == ServiceImage(service(InpaintRequest(loaded.value)))
  {
  }

  /** A failed upscale does not lose the photo: the cleaned one is saved. */
  lemma FailedUpscaleKeepsCleaned(loaded: Option<Image>, service: ServiceRequest -> ServiceReply)
    requires loaded.Some?
    requires var r := ProcessSingleImage(loaded, service);
             |r.sent| == 2 && ServiceImage(service(r.sent[1])).None?
    ensures ProcessSingleImage(loaded, service).saved == ServiceImage(service(InpaintRequest(loaded.value)))
  {
  }

  /** What is saved is the upscaled photo when upscaling was asked for and
      succeeded, and the cleaned photo otherwise; a photo whose watermark
      could not be removed is never saved. */
  lemma SavedIsCleanedOrUpscaled(loaded: Option<Image>, service: ServiceRequest -> ServiceReply)
    ensures var r := ProcessSingleImage(loaded, service);
            r.saved.Some? ==>
              (|r.sent| == 2 && ServiceImage(service(r.sent[1])).Some? && r.saved == ServiceImage(service(r.sent[1]))) ||
              r.saved == ServiceImage(service(r.sent[0]))
    ensures var r := ProcessSingleImage(loaded, service);
            loaded.Some? && ServiceImage(service(InpaintRequest(loaded.value))).None? ==> r.saved.None? && |r.sent| == 1
  {
  }

  // ---------------------------------------------------------------------
  // Finding the images in the unpacked archive

  /** A file of the unpacked archive: the directories on its path below the
      extraction directory, its name, and what PIL would decode from it. */
  datatype Entry = Entry(dirs: seq<string>, name: string, image: Option<Image>)

  /** `glob` with `**` does not enter directories whose name starts with a
      dot, and `*` does not match a name that starts with one. */
  predicate Visible(e: Entry) {
    !StartsWith(e.name, ".") && forall i :: 0 <= i < |e.dirs| ==> !StartsWith(e.dirs[i], ".")
  }

  /** `glob.glob(os.path.join(extract_dir, '**', '*' + ext), recursive=True)`
      matches a file at any depth whose name ends with `ext`, case-sensitively. */
  predicate GlobMatches(e: Entry, ext: string) {
    Visible(e) && EndsWith(e.name, ext)
  }

  /** The files one pattern matches, in the order the directory walk lists them. */
  function GlobOne(files: seq<Entry>, ext: string): (r: seq<Entry>)
    ensures forall e :: e in r <==> e in files && GlobMatches(e, ext)
    ensures |r| <= |files|
  {
    if files == [] then []
    else (if GlobMatches(files[0], ext) then [files[0]] else []) + GlobOne(files[1..], ext)
  }

  /** `image_files` after the loop over the extensions: the matches of each
      pattern in turn. */
  function GlobAll(files: seq<Entry>, exts: seq<string>): (r: seq<Entry>)
    ensures forall e :: e in r <==> e in files && exists k :: 0 <= k < |exts| && GlobMatches(e, exts[k])
  {
    if exts == [] then []
    else
      var r := GlobOne(files, exts[0]) + GlobAll(files, exts[1..]);
      assert forall e :: e in r <==> e in files && exists k :: 0 <= k < |exts| && GlobMatches(e, exts[k]) by {
        forall e ensures e in r <==> e in files && exists k :: 0 <= k < |exts| && GlobMatches(e, exts[k]) {
          if e in files && exists k :: 0 <= k < |exts| && GlobMatches(e, exts[k]) {
            var k :| 0 <= k < |exts| && GlobMatches(e, exts[k]);
            if k > 0 {
              assert exts[1..][k - 1] == exts[k];
            }
          }
          if e in GlobAll(files, exts[1..]) {
            var k :| 0 <= k < |exts[1..]| && GlobMatches(e, exts[1..][k]);
            assert exts[k + 1] == exts[1..][k];
          }
        }
      }
      r
  }

  /** A file name ends with at most one of the supported extensions, so no
      photo is listed twice by the six patterns. */
  lemma AtMostOneExtension(name: string, i: nat, j: nat)
    requires i < j < |SupportedExtensions|
    ensures !(EndsWith(name, SupportedExtensions[i]) && EndsWith(name, SupportedExtensions[j]))
  {
    var a := SupportedExtensions[i];
    var b := SupportedExtensions[j];
    if EndsWith(name, a) && EndsWith(name, b) {
      if |a| <= |b| {
        SuffixOfSuffix(name, a, b);
      } else {
        SuffixOfSuffix(name, b, a);
      }
    }
  }

  /** Two suffixes of one name: the shorter is a suffix of the longer. */
  lemma SuffixOfSuffix(name: string, a: string, b: string)
    requires EndsWith(name, a) && EndsWith(name, b) && |a| <= |b|
    ensures EndsWith(b, a)
  {
    assert b[|b| - |a|..] == name[|name| - |a|..];
  }

  /** No pattern matching any file, the glob finds nothing. */
  lemma {:induction false} GlobOneEmpty(files: seq<Entry>, ext: string)
    requires forall e :: e in files ==> !GlobMatches(e, ext)
    ensures GlobOne(files, ext) == []
  {
    if files != [] {
      assert files[0] in files;
      assert forall e :: e in files[1..] ==> e in files;
      GlobOneEmpty(files[1..], ext);
    }
  }

  lemma {:induction false} GlobAllEmpty(files: seq<Entry>, exts: seq<string>)
    requires forall e, k :: e in files && 0 <= k < |exts| ==> !GlobMatches(e, exts[k])
    ensures GlobAll(files, exts) == []
  {
    if exts != [] {
      forall e | e in files ensures !GlobMatches(e, exts[0]) {
      }
      GlobOneEmpty(files, exts[0]);
      forall e, k | e in files && 0 <= k < |exts[1..]| ensures !GlobMatches(e, exts[1..][k]) {
        assert exts[1..][k] == exts[k + 1];
      }
      GlobAllEmpty(files, exts[1..]);
    }
  }

  /** One `glob.glob` call: the files that one pattern matches. */
  method GlobPattern(files: seq<Entry>, ext: string) returns (matched: seq<Entry>)
    ensures matched == GlobOne(files, ext)
  {
    matched := [];
    var i := |files|;
    while i > 0
      invariant 0 <= i <= |files|
      invariant matched == GlobOne(files[i..], ext)
    {
      i := i - 1;
      assert files[i..] == [files[i]] + files[i + 1..];
      if GlobMatches(files[i], ext) {
        matched := [files[i]] + matched;
      }
    }
    assert files[0..] == files;
  }

  /** The glob loop of `download_and_process_photos`, pattern by pattern. */
  method CollectImageFiles(files: seq<Entry>) returns (found: seq<Entry>)
    ensures found == GlobAll(files, SupportedExtensions)
    ensures forall e :: e in found <==>
              e in files && Visible(e) && exists k :: 0 <= k < |SupportedExtensions| && EndsWith(e.name, SupportedExtensions[k])
  {
    found := [];
    var k := 0;
    while k < |SupportedExtensions|
      invariant 0 <= k <= |SupportedExtensions|
      invariant found + GlobAll(files, SupportedExtensions[k..]) == GlobAll(files, SupportedExtensions)
    {
      var matched := GlobPattern(files, SupportedExtensions[k]);
      assert SupportedExtensions[k..][1..] == SupportedExtensions[k + 1..];
      found := found + matched;
      k := k + 1;
    }
    assert SupportedExtensions[0..] == SupportedExtensions;
  }

  // ---------------------------------------------------------------------
  // The batch

  /** The output directory after processing `files` in order: each saved
      photo is written under its base name, so a later photo with the same
      name replaces an earlier one. */
  function OutputDir(files: seq<Entry>, service: ServiceRequest -> ServiceReply): (dir: map<string, Image>)
    ensures forall name :: name in dir ==> exists i :: 0 <= i < |files| && files[i].name == name
  {
    if files == [] then map[]
    else
      var dir := OutputDir(files[..|files| - 1], service);
      var e := files[|files| - 1];
      match ProcessSingleImage(e.image, service).saved
      case None => dir
      case Some(img) => dir[e.name := img]
  }

  /** A file name is in the output directory exactly when some file of that
      name was processed successfully. */
  lemma {:induction false} OutputDirHasName(files: seq<Entry>, service: ServiceRequest -> ServiceReply, name: string)
    ensures name in OutputDir(files, service) <==>
              exists i :: 0 <= i < |files| && files[i].name == name &&
                          ProcessSingleImage(files[i].image, service).saved.Some?
  {
    if files != [] {
      var init := files[..|files| - 1];
      OutputDirHasName(init, service, name);
      if exists i :: 0 <= i < |init| && init[i].name == name && ProcessSingleImage(init[i].image, service).saved.Some? {
        var i :| 0 <= i < |init| && init[i].name == name && ProcessSingleImage(init[i].image, service).saved.Some?;
        assert files[i] == init[i];
      }
      if exists i :: 0 <= i < |files| && files[i].name == name && ProcessSingleImage(files[i].image, service).saved.Some? {
        var i :| 0 <= i < |files| && files[i].name == name && ProcessSingleImage(files[i].image, service).saved.Some?;
        if i < |files| - 1 {
          assert init[i] == files[i];
        }
      }
    }
  }

  /** Number of files processed successfully. */
  function Successes(files: seq<Entry>, service: ServiceRequest -> ServiceReply): (n: nat)
    ensures n <= |files|
  {
    if files == [] then 0
    else Successes(files[..|files| - 1], service) +
         (if ProcessSingleImage(files[|files| - 1].image, service).saved.Some? then 1 else 0)
  }

  predicate DistinctNames(files: seq<Entry>) {
    forall i, j :: 0 <= i < j < |files| ==> files[i].name != files[j].name
  }

  /** With distinct file names the new archive holds one photo per success;
      in general it holds at most that many. */
  lemma {:induction false} OutputDirSize(files: seq<Entry>, service: ServiceRequest -> ServiceReply)
    ensures |OutputDir(files, service)| <= Successes(files, service)
    ensures DistinctNames(files) ==> |OutputDir(files, service)| == Successes(files, service)
  {
    if files != [] {
      var init := files[..|files| - 1];
      var e := files[|files| - 1];
      OutputDirSize(init, service);
      var dir := OutputDir(init, service);
      if DistinctNames(files) {
        assert DistinctNames(init);
      }
    }
  }

  /** Everything the new archive holds. */
  datatype Archive = Archive(photos: map<string, Image>, carData: Option<string>)

  /** The listing text stored as `car_data.txt`: `replace('**', '')` then
      `replace('*', '')`. */
  function StripStars(t: string): (r: string)
    ensures '*' !in r
  {
    ReplaceCharByNothing(ReplaceAll(t, "**", ""), '*');
    ReplaceAll(ReplaceAll(t, "**", ""), "*", "")
  }

  /** The two replacements together remove every asterisk and keep every
      other character in order. */
  lemma StripStarsRemovesAsterisks(t: string)
    ensures StripStars(t) == RemoveChar(t, '*')
  {
    ReplaceCharByNothing(ReplaceAll(t, "**", ""), '*');
    ReplacePairThenChar(t, '*');
  }

  /** `download_and_process_photos` from the reachability check to the
      returned archive. `archive` is `None` when downloading or unpacking
      raises; `carText` is `car_data_text`. */
  method DownloadAndProcessPhotos(serverUp: bool, archive: Option<seq<Entry>>,
                                  service: ServiceRequest -> ServiceReply,
                                  carText: Option<string>)
    returns (r: Option<Archive>)
    ensures !serverUp || archive.None? ==> r.None?
    ensures serverUp && archive.Some? ==>
              var limited := Take(GlobAll(archive.value, SupportedExtensions), PhotoProcessingLimit);
              r == MakeArchive(OutputDir(limited, service), carText)
    ensures r.Some? ==> 0 < |r.value.photos| <= PhotoProcessingLimit
  {
    if !serverUp || archive.None? {
      return None;
    }
    var found := CollectImageFiles(archive.value);
    if found == [] {
      return None;
    }
    var limited := Take(found, PhotoProcessingLimit);
    var dir: map<string, Image> := map[];
    var i := 0;
    while i < |limited|
      invariant 0 <= i <= |limited|
      invariant dir == OutputDir(limited[..i], service)
    {
      var e := limited[i];
      assert limited[..i + 1][..i] == limited[..i];
      var step := ProcessSingleImage(e.image, service);
      if step.saved.Some? {
        dir := dir[e.name := step.saved.value];
      }
      i := i + 1;
    }
    assert limited[..|limited|] == limited;
    OutputDirSize(limited, service);
    r := MakeArchive(dir, carText);
  }

  /** Python's slice `s[:n]`: the first `n` elements, or all of them. */
  function Take<T>(s: seq<T>, n: nat): (r: seq<T>)
    ensures |r| == if |s| < n then |s| else n
    ensures r == s[..|r|]
  {
    if |s| <= n then s else s[..n]
  }

  /** The end of `download_and_process_photos`: no archive when nothing was
      saved, otherwise every saved photo and, for a non-empty listing text,
      that text without asterisks. */
  function MakeArchive(dir: map<string, Image>, carText: Option<string>): (r: Option<Archive>)
    ensures r.None? <==> |dir| == 0
    ensures r.Some? ==> r.value.photos == dir
    ensures r.Some? ==> (r.value.carData.Some? <==> carText.Some? && carText.value != [])
    ensures r.Some? && r.value.carData.Some? ==> r.value.carData.value == RemoveChar(carText.value, '*')
  {
    if |dir| == 0 then None
    else
      var text := if carText.Some? && carText.value != [] then
                    StripStarsRemovesAsterisks(carText.value);
                    Some(StripStars(carText.value))
                  else None;
      Some(Archive(dir, text))
  }

  /** An archive without a single image file gives no result, whatever else
      it holds. */
  lemma NoImagesNoArchive(files: seq<Entry>, service: ServiceRequest -> ServiceReply, carText: Option<string>)
    requires forall e :: e in files ==>
               (!Visible(e) || forall k :: 0 <= k < |SupportedExtensions| ==> !EndsWith(e.name, SupportedExtensions[k]))
    ensures var limited := Take(GlobAll(files, SupportedExtensions), PhotoProcessingLimit);
            MakeArchive(OutputDir(limited, service), carText).None?
  {
    GlobAllEmpty(files, SupportedExtensions);
  }

  /** A photo name is in the new archive exactly when a file of that name
      among the first `PhotoProcessingLimit` images had its watermark
      removed; with distinct names there is one photo per such file. */
  lemma ArchivePhotos(files: seq<Entry>, service: ServiceRequest -> ServiceReply, carText: Option<string>, name: string)
    ensures var limited := Take(GlobAll(files, SupportedExtensions), PhotoProcessingLimit);
            var r := MakeArchive(OutputDir(limited, service), carText);
            (r.Some? && name in r.value.photos) <==>
              exists i :: 0 <= i < |limited| && limited[i].name == name &&
                          ProcessSingleImage(limited[i].image, service).saved.Some?
    ensures var limited := Take(GlobAll(files, SupportedExtensions), PhotoProcessingLimit);
            var r := MakeArchive(OutputDir(limited, service), carText);
            DistinctNames(limited) && r.Some? ==> |r.value.photos| == Successes(limited, service)
  {
    var limited := Take(GlobAll(files, SupportedExtensions), PhotoProcessingLimit);
    OutputDirHasName(limited, service, name);
    OutputDirSize(limited, service);
  }
}
