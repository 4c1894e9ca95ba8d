/** The feed client (internal/news/rss.go). The gofeed parser is a parameter:
    given a feed URL it yields the parsed entries or an error. */
module Rss {
  import opened Wrappers
  import opened Models
  import opened Seqs

  /** A parsed feed entry; `published` is None when the feed gave no
      parseable publication date. */
  datatype FeedEntry = FeedEntry(title: string, link: string, description: string, published: Option<Instant>)

  type FeedParser = string -> Result<seq<FeedEntry>>

  /** The publication date used for an entry: its own, else now. */
  function PubDate(e: FeedEntry, now: Instant): (t: Instant)
    ensures e.published.None? ==> t == now
    ensures e.published.Some? ==> t == e.published.value
  {
    if e.published.Some? then e.published.value else now
  }

  function OneWeekAgo(now: Instant): Instant
  {
    now - 7 * SecondsPerDay
  }

  /** The freshness filter: not before one week ago. */
  function IsFresh(now: Instant): FeedEntry -> bool
  {
    (e: FeedEntry) => !(PubDate(e, now) < OneWeekAgo(now))
  }

  function ToItem(source: RssSource, now: Instant): FeedEntry -> NewsItem
  {
    (e: FeedEntry) => NewsItem(e.title, e.link, source.name, e.description, PubDate(e, now), "news")
  }

  /** The items one successfully parsed feed contributes, in feed order. */
  function FeedItems(entries: seq<FeedEntry>, source: RssSource, now: Instant): seq<NewsItem>
  {
    Map(Filter(entries, IsFresh(now)), ToItem(source, now))
  }

  /** FetchFeed: a parse error is returned with no items; otherwise every
      fresh entry becomes an item. */
  method FetchFeed(parse: FeedParser, source: RssSource, now: Instant)
    returns (items: seq<NewsItem>, err: Option<string>)
    ensures parse(source.url).Failure? ==> items == [] && err == Some(parse(source.url).error)
    ensures parse(source.url).Success? ==> err == None && items == FeedItems(parse(source.url).value, source, now)
  {
    var feed := parse(source.url);
    if feed.Failure? {
      return [], Some(feed.error);
    }
    var entries := feed.value;
    var oneWeekAgo := now - 7 * SecondsPerDay;
    items := [];
    var i := 0;
    while i < |entries|
      invariant 0 <= i <= |entries|
      invariant items == Map(Filter(entries[..i], IsFresh(now)), ToItem(source, now))
    {
      var item := entries[i];
      var next := i + 1;
      FilterPrefix(entries, i, next, IsFresh(now));
      var pubDate := now;
      if item.published.Some? {
        pubDate := item.published.value;
      }
      if pubDate < oneWeekAgo {
        i := next;
        continue;
      }
      MapSnoc(Filter(entries[..i], IsFresh(now)), item, ToItem(source, now));
      items := items + [NewsItem(item.title, item.link, source.name, item.description, pubDate, "news")];
      i := next;
    }
    assert entries[..|entries|] == entries;
    err := None;
  }

  /** An entry is kept iff its date (or now, when undated) is not before one
      week ago; an undated entry is therefore always kept, and a future date
      is kept too. */
  lemma FreshIff(e: FeedEntry, now: Instant)
    ensures IsFresh(now)(e) <==> (e.published.None? || e.published.value >= now - 7 * SecondsPerDay)
    ensures e.published.None? ==> IsFresh(now)(e)
  {
  }

  /** Every item comes from a fresh entry of the feed, copies its title, link
      and description, carries the source's name and the "news" category,
      and is dated no earlier than one week ago; every fresh entry yields an
      item; feed order is kept. */
  lemma FeedItemsFacts(entries: seq<FeedEntry>, source: RssSource, now: Instant)
    ensures forall x | x in FeedItems(entries, source, now) ::
      x.source == source.name && x.category == "news" && x.publishedAt >= now - 7 * SecondsPerDay &&
      exists e :: e in entries && x == NewsItem(e.title, e.link, source.name, e.description, PubDate(e, now), "news")
    ensures forall e | e in entries && (e.published.None? || e.published.value >= now - 7 * SecondsPerDay) ::
      NewsItem(e.title, e.link, source.name, e.description, PubDate(e, now), "news") in FeedItems(entries, source, now)
    ensures IsSubsequence(FeedItems(entries, source, now), Map(entries, ToItem(source, now)))
  {
    var kept := Filter(entries, IsFresh(now));
    var out := FeedItems(entries, source, now);
    forall x | x in out
      ensures x.source == source.name && x.category == "news" && x.publishedAt >= now - 7 * SecondsPerDay &&
        exists e :: e in entries && x == NewsItem(e.title, e.link, source.name, e.description, PubDate(e, now), "news")
    {
      var k :| 0 <= k < |out| && out[k] == x;
      assert kept[k] in kept;
    }
    forall e | e in entries && (e.published.None? || e.published.value >= now - 7 * SecondsPerDay)
      ensures NewsItem(e.title, e.link, source.name, e.description, PubDate(e, now), "news") in out
    {
      assert IsFresh(now)(e);
      var k :| 0 <= k < |kept| && kept[k] == e;
      assert out[k] == ToItem(source, now)(e);
    }
    MapFilterSubsequence(entries, IsFresh(now), ToItem(source, now));
  }

  /** What one source contributes to FetchAllFeeds: nothing when its feed
      fails to parse. */
  function SourceItems(parse: FeedParser, source: RssSource, now: Instant): seq<NewsItem>
  {
    var feed := parse(source.url);
    if feed.Failure? then [] else FeedItems(feed.value, source, now)
  }

  function AllFeedItems(parse: FeedParser, sources: seq<RssSource>, now: Instant): seq<NewsItem>
    decreases |sources|
  {
    if sources == [] then []
    else AllFeedItems(parse, sources[..|sources| - 1], now) + SourceItems(parse, sources[|sources| - 1], now)
  }

  /** FetchAllFeeds: failed feeds are skipped, the rest concatenated in source
      order, and the error is always nil. */
  method FetchAllFeeds(parse: FeedParser, sources: seq<RssSource>, now: Instant)
    returns (allItems: seq<NewsItem>, err: Option<string>)
    ensures err == None
    ensures allItems == AllFeedItems(parse, sources, now)
  {
    allItems := [];
    for i := 0 to |sources|
      invariant allItems == AllFeedItems(parse, sources[..i], now)
    {
      var source := sources[i];
      assert sources[..i + 1][..i] == sources[..i];
      var items, e := FetchFeed(parse, source, now);
      if e.Some? {
        continue;
      }
      allItems := allItems + items;
    }
    assert sources[..|sources|] == sources;
    err := None;
  }

  /** Everything FetchAllFeeds returns is a "news" item from one of the
      sources, dated no earlier than one week ago. */
  lemma {:induction false} AllFeedItemsFacts(parse: FeedParser, sources: seq<RssSource>, now: Instant)
    ensures forall x | x in AllFeedItems(parse, sources, now) ::
      x.category == "news" && x.publishedAt >= now - 7 * SecondsPerDay &&
      exists s :: s in sources && x.source == s.name
    decreases |sources|
  {
    if sources != [] {
      var n := |sources| - 1;
      AllFeedItemsFacts(parse, sources[..n], now);
      var s := sources[n];
      var feed := parse(s.url);
      if feed.Success? {
        FeedItemsFacts(feed.value, s, now);
      }
      forall x | x in AllFeedItems(parse, sources, now)
        ensures x.category == "news" && x.publishedAt >= now - 7 * SecondsPerDay &&
          exists s :: s in sources && x.source == s.name
      {
        if x in AllFeedItems(parse, sources[..n], now) {
          var q :| q in sources[..n] && x.source == q.name;
          assert q in sources;
        } else {
          assert s in sources;
        }
      }
    }
  }
}
