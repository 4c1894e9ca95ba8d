/** The Heise scraper (internal/news/scraper.go). The HTTP exchange and the
    HTML document are inputs: a page is a function from a CSS selector to the
    elements it matches, and each teaser element is reduced to what the
    scraper reads from it. time.Parse is a parameter. */
module Scraper {
  import opened Wrappers
  import opened Models
  import opened Text

  /** An anchor: its href ("" when absent), the text of its first h2/h3/span
      ("" when none) and its whole text. */
  datatype Anchor = Anchor(href: string, headingText: string, text: string)

  /** What the scraper reads from one teaser: the first
      a[data-component='TeaserLinkContainer'], the first a, the text of the
      first description element, and the datetime attribute of the first
      element carrying one. */
  datatype Element = Element(
    teaserLink: Option<Anchor>,
    firstLink: Option<Anchor>,
    description: Option<string>,
    datetime: Option<string>)

  datatype Page = Page(find: string -> seq<Element>)

  datatype Response = Response(status: int, page: Result<Page>)

  /** time.Parse(layout, value). */
  type Parser = (string, string) -> Option<Instant>

  const Selectors: seq<string> := [
    "article[data-component='TeaserContainer']",
    "[data-component='TeaserContainer']",
    "article[data-teaser-name]",
    "article"]

  const MillisLayout := "2006-01-02T15:04:05.000Z"
  const Rfc3339Layout := "2006-01-02T15:04:05Z07:00"
  const SecondsLayout := "2006-01-02T15:04:05Z"

  const HeiseOrigin := "https://www.heise.de"
  const MinTitleLength := 10
  const StatusOK := 200

  // ---------------------------------------------------------------------------
  // Selector cascade

  /** The first selector of sels that matches something on the page. */
  function FirstMatching(page: Page, sels: seq<string>): (r: Option<string>)
    ensures r.Some? ==> r.value in sels && |page.find(r.value)| > 0
    ensures r.None? <==> forall k | 0 <= k < |sels| :: |page.find(sels[k])| == 0
    decreases |sels|
  {
    if sels == [] then None
    else if |page.find(sels[0])| > 0 then Some(sels[0])
    else FirstMatching(page, sels[1..])
  }

  /** The selector loop: the first selector with at least one match, "" when none. */
  method FindSelector(page: Page) returns (foundSelector: string)
    ensures FirstMatching(page, Selectors).None? ==> foundSelector == ""
    ensures FirstMatching(page, Selectors).Some? ==> foundSelector == FirstMatching(page, Selectors).value
  {
    foundSelector := "";
    for i := 0 to |Selectors|
      invariant foundSelector == ""
      invariant FirstMatching(page, Selectors) == FirstMatching(page, Selectors[i..])
    {
      assert Selectors[i..][1..] == Selectors[i + 1..];
      var count := |page.find(Selectors[i])|;
      if count > 0 {
        foundSelector := Selectors[i];
        return;
      }
    }
  }

  /** The selector used is the first that matches: every selector before it
      matches nothing. */
  lemma FirstMatchingIsFirst(page: Page, k: int)
    requires FirstMatching(page, Selectors).Some?
    requires 0 <= k < |Selectors| && Selectors[k] == FirstMatching(page, Selectors).value
    ensures forall j | 0 <= j < k :: |page.find(Selectors[j])| == 0
  {
    var p := page.find;
    if |p(Selectors[0])| == 0 {
      if |p(Selectors[1])| == 0 {
        if |p(Selectors[2])| == 0 {
          assert FirstMatching(page, Selectors) == FirstMatching(page, Selectors[3..]);
        }
      }
    }
  }

  // ---------------------------------------------------------------------------
  // Date cascade

  /** The first value present in a list of options. */
  function FirstSome<T>(options: seq<Option<T>>): (r: Option<T>)
    ensures r.Some? ==> r in options
    ensures r.None? <==> forall k | 0 <= k < |options| :: options[k].None?
    decreases |options|
  {
    if options == [] then None
    else if options[0].Some? then options[0]
    else
      var r := FirstSome(options[1..]);
      assert r.Some? ==> r in options;
      assert options == [options[0]] + options[1..];
      r
  }

  lemma FirstSomeOfThree<T>(a: Option<T>, b: Option<T>, c: Option<T>)
    ensures FirstSome([a, b, c]) == if a.Some? then a else if b.Some? then b else c
  {
    assert [a, b, c][1..] == [b, c];
    assert [b, c][1..] == [c];
    assert [c][1..] == [];
    assert FirstSome([c]) == c;
    assert FirstSome([b, c]) == if b.Some? then b else c;
  }

  /** The three time.Parse attempts: with milliseconds, RFC 3339, without
      milliseconds; the first that succeeds wins. */
  method ParseDatetime(datetime: string, parse: Parser) returns (r: Option<Instant>)
    ensures r == FirstSome([parse(MillisLayout, datetime), parse(Rfc3339Layout, datetime),
      parse(SecondsLayout, datetime)])
  {
    FirstSomeOfThree(parse(MillisLayout, datetime), parse(Rfc3339Layout, datetime), parse(SecondsLayout, datetime));
    var parsedTime := parse(MillisLayout, datetime);
    if parsedTime.None? {
      parsedTime := parse(Rfc3339Layout, datetime);
    }
    if parsedTime.None? {
      parsedTime := parse(SecondsLayout, datetime);
    }
    r := parsedTime;
  }

  // ---------------------------------------------------------------------------
  // One teaser

  /** The link element: the teaser link container, else the first anchor. */
  function LinkOf(el: Element): Option<Anchor>
  {
    if el.teaserLink.Some? then el.teaserLink else el.firstLink
  }

  /** The heading inside the link, trimmed, else the whole link text, trimmed. */
  function TitleOf(a: Anchor): string
  {
    if TrimSpace(a.headingText) != "" then TrimSpace(a.headingText) else TrimSpace(a.text)
  }

  /** The publication date: the zero time when there is no datetime or no
      layout parses it. */
  function DateOf(el: Element, parse: Parser): Instant
  {
    if el.datetime.None? then ZeroTime
    else
      var dt := el.datetime.value;
      var parsed := FirstSome([parse(MillisLayout, dt), parse(Rfc3339Layout, dt), parse(SecondsLayout, dt)]);
      if parsed.Some? then parsed.value else ZeroTime
  }

  /** Relative links are made absolute on www.heise.de. */
  function AbsoluteLink(link: string): (r: string)
    ensures HasPrefix(r, "http")
    ensures HasPrefix(link, "http") ==> r == link
    ensures !HasPrefix(link, "http") ==> r == HeiseOrigin + link
  {
    if HasPrefix(link, "http") then link
    else
      assert (HeiseOrigin + link)[..4] == "http";
      HeiseOrigin + link
  }

  function RawLink(el: Element): string
  {
    if LinkOf(el).Some? then LinkOf(el).value.href else ""
  }

  function RawTitle(el: Element): string
  {
    if LinkOf(el).Some? then TitleOf(LinkOf(el).value) else ""
  }

  function DescriptionOf(el: Element): string
  {
    if el.description.Some? then TrimSpace(el.description.value) else ""
  }

  /** The news item a teaser yields, or None when it is skipped. */
  function Candidate(el: Element, source: ScrapeSource, oneWeekAgo: Instant, parse: Parser): Option<NewsItem>
  {
    var link := RawLink(el);
    var title := RawTitle(el);
    var desc := DescriptionOf(el);
    var pubDate := DateOf(el, parse);
    if pubDate == ZeroTime || pubDate < oneWeekAgo then None
    else if title == "" || link == "" then None
    else
      var cleanTitle := CollapseSpaces(title);
      if |cleanTitle| < MinTitleLength then None
      else Some(NewsItem(cleanTitle, AbsoluteLink(link), source.name, desc, pubDate, "news"))
  }

  /** The Each callback, step by step. */
  method ExtractCandidate(el: Element, source: ScrapeSource, oneWeekAgo: Instant, parse: Parser)
    returns (item: Option<NewsItem>)
    ensures item == Candidate(el, source, oneWeekAgo, parse)
  {
    var link, title, desc := "", "", "";
    var pubDate := ZeroTime;

    var linkSel := el.teaserLink;
    if linkSel.None? {
      linkSel := el.firstLink;
    }
    if linkSel.Some? {
      link := linkSel.value.href;
      title := TrimSpace(linkSel.value.headingText);
      if title == "" {
        title := TrimSpace(linkSel.value.text);
      }
    }

    assert link == RawLink(el) && title == RawTitle(el);
    if el.description.Some? {
      desc := TrimSpace(el.description.value);
    }
    assert desc == DescriptionOf(el);

    if el.datetime.Some? {
      var parsedTime := ParseDatetime(el.datetime.value, parse);
      if parsedTime.Some? {
        pubDate := parsedTime.value;
      }
    }
    assert pubDate == DateOf(el, parse);

    if pubDate == ZeroTime || pubDate < oneWeekAgo {
      return None;
    }
    if title == "" || link == "" {
      return None;
    }
    ghost var rawTitle, rawLink := title, link;
    title := CollapseSpaces(title);
    if !HasPrefix(link, "http") {
      link := HeiseOrigin + link;
    }
    assert link == AbsoluteLink(rawLink);
    if |title| < MinTitleLength {
      return None;
    }
    item := Some(NewsItem(title, link, source.name, desc, pubDate, "news"));
  }

  /** The items of a list of teasers, in document order. */
  function Scraped(els: seq<Element>, source: ScrapeSource, oneWeekAgo: Instant, parse: Parser): seq<NewsItem>
    decreases |els|
  {
    if els == [] then []
    else
      Scraped(els[..|els| - 1], source, oneWeekAgo, parse) + Kept(Candidate(els[|els| - 1], source, oneWeekAgo, parse))
  }

  /** The item a teaser contributes: none, or the one it gives. */
  function Kept(c: Option<NewsItem>): seq<NewsItem>
  {
    if c.Some? then [c.value] else []
  }

  /** The result of the scrape of a page. */
  function PageItems(page: Page, source: ScrapeSource, now: Instant, parse: Parser): seq<NewsItem>
  {
    var sel := FirstMatching(page, Selectors);
    if sel.None? then [] else Scraped(page.find(sel.value), source, now - 7 * SecondsPerDay, parse)
  }

  /** ScrapeHeise: a failed request or an unparsable page is an error; any
      status other than 200 gives no items and no error. */
  method ScrapeHeise(response: Result<Response>, source: ScrapeSource, now: Instant, parse: Parser)
    returns (items: seq<NewsItem>, err: Option<string>)
    ensures response.Failure? ==> items == [] && err == Some(response.error)
    ensures response.Success? && response.value.status != StatusOK ==> items == [] && err == None
    ensures response.Success? && response.value.status == StatusOK && response.value.page.Failure? ==>
      items == [] && err == Some(response.value.page.error)
    ensures response.Success? && response.value.status == StatusOK && response.value.page.Success? ==>
      err == None && items == PageItems(response.value.page.value, source, now, parse)
  {
    if response.Failure? {
      return [], Some(response.error);
    }
    var resp := response.value;
    if resp.status != StatusOK {
      return [], None;
    }
    if resp.page.Failure? {
      return [], Some(resp.page.error);
    }
    var doc := resp.page.value;

    items := [];
    var oneWeekAgo := now - 7 * SecondsPerDay;
    var foundSelector := FindSelector(doc);
    if foundSelector == "" {
      return items, None;
    }

    var els := doc.find(foundSelector);
    for i := 0 to |els|
      invariant items == Scraped(els[..i], source, oneWeekAgo, parse)
    {
      assert els[..i + 1][..i] == els[..i];
      var item := ExtractCandidate(els[i], source, oneWeekAgo, parse);
      if item.Some? {
        items := items + [item.value];
      }
    }
    assert els[..|els|] == els;
    err := None;
  }

  // ---------------------------------------------------------------------------
  // Properties

  /** Every emitted item: dated no earlier than one week ago (with no upper
      bound), a collapsed title of at least ten bytes, an absolute http link,
      the source's name and category "news". */
  lemma CandidateFacts(el: Element, source: ScrapeSource, oneWeekAgo: Instant, parse: Parser)
    requires Candidate(el, source, oneWeekAgo, parse).Some?
    ensures var item := Candidate(el, source, oneWeekAgo, parse).value;
      item.publishedAt != ZeroTime && item.publishedAt >= oneWeekAgo &&
      Collapsed(item.title) && |item.title| >= MinTitleLength &&
      HasPrefix(item.url, "http") && item.source == source.name && item.category == "news" &&
      LinkOf(el).Some? && item.title == CollapseSpaces(TitleOf(LinkOf(el).value))
  {
  }

  /** A teaser is kept exactly when it is dated no earlier than one week ago
      (a date in the future passes), has a link, and its collapsed title has
      at least ten bytes. */
  lemma CandidateKeptIff(el: Element, source: ScrapeSource, oneWeekAgo: Instant, parse: Parser)
    ensures Candidate(el, source, oneWeekAgo, parse).Some? <==>
      DateOf(el, parse) != ZeroTime && DateOf(el, parse) >= oneWeekAgo &&
      LinkOf(el).Some? && LinkOf(el).value.href != "" &&
      |CollapseSpaces(TitleOf(LinkOf(el).value))| >= MinTitleLength
  {
    var title := RawTitle(el);
    if LinkOf(el).Some? && title == "" {
      assert CollapseSpaces(title) == "";
    }
  }

  /** A heading made only of white space does not count, even when that white
      space is a NO-BREAK SPACE: the title falls back to the link text. */
  lemma NoBreakSpaceHeadingFallsBack(href: string, text: string)
    ensures TitleOf(Anchor(href, "\U{C2}\U{A0}", text)) == TrimSpace(text)
  {
    NoBreakSpaceTrimmed();
  }

  /** "abcd", NO-BREAK SPACE, "efgh" is eleven bytes but collapses to the nine
      bytes "abcd efgh", so the teaser is skipped. */
  lemma NoBreakSpaceTitleDropped(el: Element, source: ScrapeSource, oneWeekAgo: Instant, parse: Parser)
    requires LinkOf(el).Some? && LinkOf(el).value.headingText == "abcd" + "\U{C2}\U{A0}" + "efgh"
    ensures Candidate(el, source, oneWeekAgo, parse).None?
  {
    var h := "abcd" + "\U{C2}\U{A0}" + "efgh";
    assert SpaceWidth(h) == 0 && TrailingSpaceWidth(h) == 0;
    assert TrimLeftSpace(h) == h;
    assert TrimRightSpace(h) == h;
    assert TitleOf(LinkOf(el).value) == h;
    NoBreakSpaceSeparates();
    CandidateKeptIff(el, source, oneWeekAgo, parse);
  }

  /** What every scraped item satisfies. */
  predicate EmittedItem(item: NewsItem, source: ScrapeSource, oneWeekAgo: Instant)
  {
    item.publishedAt >= oneWeekAgo && Collapsed(item.title) && |item.title| >= MinTitleLength &&
    HasPrefix(item.url, "http") && item.source == source.name && item.category == "news"
  }

  lemma ScrapedFacts(els: seq<Element>, source: ScrapeSource, oneWeekAgo: Instant, parse: Parser)
    ensures |Scraped(els, source, oneWeekAgo, parse)| <= |els|
    ensures forall item | item in Scraped(els, source, oneWeekAgo, parse) :: EmittedItem(item, source, oneWeekAgo)
  {
    ScrapedLength(els, source, oneWeekAgo, parse);
    ScrapedEmitted(els, source, oneWeekAgo, parse);
  }

  lemma {:induction false} ScrapedLength(els: seq<Element>, source: ScrapeSource, oneWeekAgo: Instant, parse: Parser)
    ensures |Scraped(els, source, oneWeekAgo, parse)| <= |els|
    decreases |els|
  {
    if els != [] {
      ScrapedLength(els[..|els| - 1], source, oneWeekAgo, parse);
    }
  }

  lemma {:induction false} ScrapedEmitted(els: seq<Element>, source: ScrapeSource, oneWeekAgo: Instant, parse: Parser)
    ensures forall item | item in Scraped(els, source, oneWeekAgo, parse) :: EmittedItem(item, source, oneWeekAgo)
    decreases |els|
  {
    if els != [] {
      var n := |els| - 1;
      ScrapedEmitted(els[..n], source, oneWeekAgo, parse);
      CandidateEmitted(els[n], source, oneWeekAgo, parse);
      EmittedConcat(Scraped(els[..n], source, oneWeekAgo, parse), Kept(Candidate(els[n], source, oneWeekAgo, parse)),
        source, oneWeekAgo);
    }
  }

  lemma EmittedConcat(a: seq<NewsItem>, b: seq<NewsItem>, source: ScrapeSource, oneWeekAgo: Instant)
    requires forall item | item in a :: EmittedItem(item, source, oneWeekAgo)
    requires forall item | item in b :: EmittedItem(item, source, oneWeekAgo)
    ensures forall item | item in a + b :: EmittedItem(item, source, oneWeekAgo)
  {
  }

  lemma CandidateEmitted(el: Element, source: ScrapeSource, oneWeekAgo: Instant, parse: Parser)
    ensures forall item | item in Kept(Candidate(el, source, oneWeekAgo, parse)) :: EmittedItem(item, source, oneWeekAgo)
  {
    if Candidate(el, source, oneWeekAgo, parse).Some? {
      CandidateFacts(el, source, oneWeekAgo, parse);
    }
  }

  /** Items keep document order: scraping two runs of teasers gives the items of
      the first run, then those of the second. */
  lemma {:induction false} ScrapedAppend(a: seq<Element>, b: seq<Element>, source: ScrapeSource, oneWeekAgo: Instant, parse: Parser)
    ensures Scraped(a + b, source, oneWeekAgo, parse) ==
      Scraped(a, source, oneWeekAgo, parse) + Scraped(b, source, oneWeekAgo, parse)
    decreases |b|
  {
    if b == [] {
      assert a + b == a;
    } else {
      var n := |b| - 1;
      assert (a + b)[..|a + b| - 1] == a + b[..n];
      ScrapedAppend(a, b[..n], source, oneWeekAgo, parse);
    }
  }

  /** A page none of whose selectors matches gives no items. */
  lemma NoSelectorNoItems(page: Page, source: ScrapeSource, now: Instant, parse: Parser)
    requires forall k | 0 <= k < |Selectors| :: |page.find(Selectors[k])| == 0
    ensures PageItems(page, source, now, parse) == []
  {
  }
}
