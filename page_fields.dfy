/** Field helpers of the two scrapers: the car-name and price fallbacks of
    rus_bot_fast, turning site-relative links into absolute ones, the
    photo-link decision of both parsers, the slider photo collection of
    rus_bot, and the rus_bot_fast message layout. Scraping itself is not
    modelled: every input is the text (or absence of text) that a page
    selector already produced. */
module PageFields {
  import opened Wrappers
  import opened Text
  import opened OrderedDict

  const SiteBase := "https://www.beforward.jp"
  /** Name shown when neither title selector matches ("unknown model"). */
  const UnknownModel := "Неизвестная модель"
  /** Price shown when the price cannot be read. */
  const Ask := "ASK"
  /** Marker returned by rus_bot when photos must be collected from the slider. */
  const CollectMarker := "COLLECT_PHOTOS"

  /** `_get_car_name`: the text of the first title selector that matched,
      otherwise the fixed fallback. `primary` and `secondary` are the texts of
      the two selectors, None when a selector found nothing. */
  function CarName(primary: Option<string>, secondary: Option<string>): (r: string)
    ensures r == UnknownModel <==>
      (primary.Some? && primary.value == UnknownModel) ||
      (primary.None? && (secondary.None? || secondary.value == UnknownModel))
    ensures r != UnknownModel ==> Some(r) == primary || (primary.None? && Some(r) == secondary)
  {
    if primary.Some? then primary.value
    else if secondary.Some? then secondary.value
    else UnknownModel
  }

  /** `_get_price_selenium`: `shown` is the text of the price element, None
      when loading the page or waiting for the element raised. The text is
      stripped; an empty result and every exception give "ASK". */
  function Price(shown: Option<string>): (r: string)
    ensures r != []
    ensures r != Ask ==> shown.Some? && r == Strip(shown.value)
  {
    if shown.None? then Ask
    else
      var t := Strip(shown.value);
      if t == [] then Ask else t
  }

  /** The price falls back to "ASK" exactly when there was no element, or its
      text is blank (only whitespace), or its text already read "ASK". */
  lemma PriceAskIff(shown: Option<string>)
    ensures Price(shown) == Ask <==>
      shown.None? ||
      (forall i :: 0 <= i < |shown.value| ==> IsSpace(shown.value[i])) ||
      Strip(shown.value) == Ask
  {
    if shown.Some? {
      StripEmptyIff(shown.value);
    }
  }

  /** A readable price is passed on stripped. */
  lemma PriceKeepsVisibleText(t: string)
    requires Strip(t) != []
    ensures Price(Some(t)) == Strip(t)
  {
  }

  /** An href that starts with '/' is relative to the site and gets the site
      address in front; any other href, relative or not, is used as it is. */
  function Absolutise(href: string): (r: string)
    ensures !StartsWith(r, "/")
    ensures EndsWith(r, href)
    ensures r == href <==> !StartsWith(href, "/")
    ensures StartsWith(href, "/") ==> r == SiteBase + href
  {
    if StartsWith(href, "/") then
      assert (SiteBase + href)[..1] == "h";
      SiteBase + href
    else href
  }

  lemma AbsolutiseIdempotent(href: string)
    ensures Absolutise(Absolutise(href)) == Absolutise(href)
  {
  }

  /** `_get_photo_url` of rus_bot_fast: `link` is None when the download
      anchor is missing, Some(None) when it has no href attribute. */
  function PhotoUrl(link: Option<Option<string>>): (r: Option<string>)
    ensures r.Some? <==> link.Some? && link.value.Some?
    ensures r.Some? ==> !StartsWith(r.value, "/") && EndsWith(r.value, link.value.value)
    ensures r.Some? && StartsWith(link.value.value, "/") ==> r.value == SiteBase + link.value.value
    ensures r.Some? && !StartsWith(link.value.value, "/") ==> r.value == link.value.value
  {
    if link.Some? && link.value.Some? then Some(Absolutise(link.value.value)) else None
  }

  /** `_extract_photo_download_url` of rus_bot. A download anchor decides on its
      own, even when its href is missing or empty (those are returned as they
      are); only without an anchor does a non-empty photo slider give the
      collect marker. `slides` is the number of slides, None without a slider. */
  function PhotoDownloadUrl(link: Option<Option<string>>, slides: Option<nat>): (r: Option<string>)
    ensures link.Some? ==> r == PhotoUrl(link)
    ensures link.None? ==> (r.Some? <==> slides.Some? && slides.value > 0)
    ensures r == Some(CollectMarker) <==>
      link == Some(Some(CollectMarker)) || (link.None? && slides.Some? && slides.value > 0)
  {
    if link.Some? then
      var href := link.value;
      if href.Some? && href.value != [] && StartsWith(href.value, "/") then Some(SiteBase + href.value)
      else href
    else if slides.Some? && slides.value > 0 then Some(CollectMarker)
    else None
  }

  /** The two parsers agree whenever the page has a download anchor. */
  lemma PhotoLinkParsersAgree(href: Option<string>, slides: Option<nat>)
    ensures PhotoDownloadUrl(Some(href), slides) == PhotoUrl(Some(href))
  {
  }

  /** One `img` of a slide: its `src` and `data-src` attributes. */
  datatype SlideImage = SlideImage(src: Option<string>, dataSrc: Option<string>)

  /** A slide image address: protocol-relative ("//") gets "https:", a
      site-relative one ("/") gets the site address. */
  function NormaliseSrc(src: string): (r: string)
    ensures src != [] ==> r != [] && !StartsWith(r, "/")
    ensures EndsWith(r, src)
    ensures StartsWith(src, "//") ==> r == "https:" + src
    ensures StartsWith(src, "/") && !StartsWith(src, "//") ==> r == SiteBase + src
    ensures !StartsWith(src, "/") ==> r == src
  {
    if StartsWith(src, "//") then
      assert ("https:" + src)[..1] == "h";
      "https:" + src
    else if StartsWith(src, "/") then
      assert (SiteBase + src)[..1] == "h";
      SiteBase + src
    else src
  }

  /** The addresses one slide contributes: its `src`, then its `data-src`,
      each only when present and non-empty. */
  function SlideUrls(img: Option<SlideImage>): seq<string> {
    if img.None? then []
    else
      var i := img.value;
      (if i.src.Some? && i.src.value != [] then [NormaliseSrc(i.src.value)] else []) +
      (if i.dataSrc.Some? && i.dataSrc.value != [] then [NormaliseSrc(i.dataSrc.value)] else [])
  }

  /** The addresses of all slides, in slide order. */
  function AllSlideUrls(slides: seq<Option<SlideImage>>): seq<string> {
    if slides == [] then [] else AllSlideUrls(slides[..|slides| - 1]) + SlideUrls(slides[|slides| - 1])
  }

  /** One round of the loop of `_collect_photo_urls`: the slide's `src`, then
      its `data-src`, each normalised and appended when present and not empty. */
  method AddSlide(urls: seq<string>, img: Option<SlideImage>) returns (next: seq<string>)
    ensures next == urls + SlideUrls(img)
  {
    next := urls;
    if img.Some? && img.value.src.Some? && img.value.src.value != [] {
      next := next + [NormaliseSrc(img.value.src.value)];
    }
    if img.Some? && img.value.dataSrc.Some? && img.value.dataSrc.value != [] {
      next := next + [NormaliseSrc(img.value.dataSrc.value)];
    }
  }

  /** `_collect_photo_urls`: the loop over the slides appends their addresses;
      the result is the set of them (`list(set(...))` keeps no order). */
  method CollectPhotoUrls(slides: seq<Option<SlideImage>>) returns (r: set<string>)
    ensures forall u :: u in r <==> u in AllSlideUrls(slides)
  {
    var urls: seq<string> := [];
    for i := 0 to |slides|
      invariant urls == AllSlideUrls(slides[..i])
    {
      assert slides[..i + 1][..i] == slides[..i];
      urls := AddSlide(urls, slides[i]);
    }
    assert slides[..|slides|] == slides;
    r := set u | u in urls;
  }

  /** Every collected address is non-empty and none is left relative to the
      site (starting with '/'); other relative addresses are kept as found. */
  lemma {:induction false} CollectedUrlsNeverSiteRelative(slides: seq<Option<SlideImage>>)
    ensures forall u :: u in AllSlideUrls(slides) ==> u != [] && !StartsWith(u, "/")
  {
    if slides != [] {
      CollectedUrlsNeverSiteRelative(slides[..|slides| - 1]);
    }
  }

  /** A slide whose image has a non-empty `src` contributes its address. */
  lemma {:induction false} SlideSrcCollected(slides: seq<Option<SlideImage>>, k: nat)
    requires k < |slides| && slides[k].Some?
    requires slides[k].value.src.Some? && slides[k].value.src.value != []
    ensures NormaliseSrc(slides[k].value.src.value) in AllSlideUrls(slides)
  {
    if k < |slides| - 1 {
      SlideSrcCollected(slides[..|slides| - 1], k);
    }
  }

  /** Lines of the rus_bot_fast message. */
  function CarLine(name: string): string { "🚗 " + name }
  function PriceLine(price: string): string { "💰 Цена: " + price }
  function SpecLine(key: string, value: string): string { "▫️ " + key + ": " + value }
  function LinkLine(url: string): string { "🔗 " + url }

  function SpecLines(specs: Dict): (r: seq<string>)
    ensures |r| == |specs|
  {
    seq(|specs|, i requires 0 <= i < |specs| => SpecLine(specs[i].0, specs[i].1))
  }

  /** The lines `format_message` collects: title, price, an empty line, one
      line per specification in dict order, and the link preceded by a line
      break of its own. */
  function MessageLines(name: string, price: string, specs: Dict, url: string): seq<string> {
    [CarLine(name), PriceLine(price), ""] + SpecLines(specs) + ["\n" + LinkLine(url)]
  }

  /** `format_message`: builds the line list in a loop and joins it with
      line breaks. */
  method FormatMessage(name: string, price: string, specs: Dict, url: string) returns (r: string)
    ensures r == Join(MessageLines(name, price, specs, url), "\n")
  {
    var lines := [CarLine(name), PriceLine(price), ""];
    for i := 0 to |specs|
      invariant lines == [CarLine(name), PriceLine(price), ""] + SpecLines(specs)[..i]
    {
      assert SpecLines(specs)[..i + 1] == SpecLines(specs)[..i] + [SpecLine(specs[i].0, specs[i].1)];
      lines := lines + [SpecLine(specs[i].0, specs[i].1)];
    }
    assert SpecLines(specs)[..|specs|] == SpecLines(specs);
    lines := lines + ["\n" + LinkLine(url)];
    r := Join(lines, "\n");
  }

  predicate OneLine(s: string) {
    '\n' !in s
  }

  /** The link's own leading line break makes the message the join of the
      head lines, an empty line and the link line. */
  lemma MessageJoinShape(name: string, price: string, specs: Dict, url: string)
    ensures Join(MessageLines(name, price, specs, url), "\n") ==
      Join([CarLine(name), PriceLine(price), ""] + SpecLines(specs) + ["", LinkLine(url)], "\n")
  {
    var head := [CarLine(name), PriceLine(price), ""] + SpecLines(specs);
    JoinAppend(head, "\n" + LinkLine(url), "\n");
    assert MessageLines(name, price, specs, url) == head + ["\n" + LinkLine(url)];
    JoinAppend(head, "", "\n");
    JoinAppend(head + [""], LinkLine(url), "\n");
    assert head + [""] + [LinkLine(url)] == head + ["", LinkLine(url)];
  }

  lemma SpecLinesOneLine(specs: Dict)
    requires forall i :: 0 <= i < |specs| ==> OneLine(specs[i].0) && OneLine(specs[i].1)
    ensures forall k :: 0 <= k < |specs| ==> OneLine(SpecLines(specs)[k])
  {
  }

  /** When no field holds a line break, the message reads back, line by line,
      as: title, price, an empty line, the specification lines, an empty
      line, and the link. */
  lemma MessageLinesReadBack(name: string, price: string, specs: Dict, url: string)
    requires OneLine(name) && OneLine(price) && OneLine(url)
    requires forall i :: 0 <= i < |specs| ==> OneLine(specs[i].0) && OneLine(specs[i].1)
    ensures Split(Join(MessageLines(name, price, specs, url), "\n"), '\n') ==
      [CarLine(name), PriceLine(price), ""] + SpecLines(specs) + ["", LinkLine(url)]
  {
    var specLines := SpecLines(specs);
    var lines := [CarLine(name), PriceLine(price), ""] + specLines + ["", LinkLine(url)];
    MessageJoinShape(name, price, specs, url);
    SpecLinesOneLine(specs);
    assert forall k :: 0 <= k < |lines| ==> OneLine(lines[k]) by {
      forall k | 0 <= k < |lines| ensures OneLine(lines[k]) {
        if 3 <= k < 3 + |specs| {
          assert lines[k] == specLines[k - 3];
        }
      }
    }
    SplitJoin(lines, '\n');
  }
}
