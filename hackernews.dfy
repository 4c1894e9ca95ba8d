/** The Hacker News collector (internal/news/hackernews.go). The Algolia search
    service is a parameter `api` from queries to results; its JSON decoding,
    HTTP status handling and transport failures all surface as a Failure. */
module HackerNews {
  import opened Wrappers
  import opened Models
  import opened Text
  import opened Seqs

  /** One search hit, already decoded; createdAt is the RFC 3339 timestamp
      after parsing, None when it does not parse. */
  datatype Hit = Hit(
    title: string,
    url: string,
    storyText: string,
    objectID: string,
    createdAt: Option<Instant>,
    points: int,
    numComments: int)

  /** The two requests the collector makes: a story search for a query, and the
      front page, both limited to stories created after `since`. */
  datatype Query = KeywordQuery(text: string, since: Instant) | FrontPageQuery(since: Instant)

  type Api = Query -> Result<seq<Hit>>

  const SourceName := "Hacker News"
  const ItemUrlPrefix := "https://news.ycombinator.com/item?id="
  const DescriptionLimit := 200

  /** The combined queries of the second strategy, in the order they are sent. */
  const CombinedQueries: seq<string> := ["kubernetes OR k8s", "docker container", "cloud infrastructure", "devops platform"]

  /** A search hit is kept when it has at least 3 points or at least 2 comments. */
  predicate IsEngaged(h: Hit)
  {
    !(h.points < 3 && h.numComments < 2)
  }

  /** The hit's own URL, or its discussion page when it has none. */
  function ItemUrl(h: Hit): (u: string)
    ensures h.url != "" ==> u == h.url
    ensures h.url == "" ==> u == ItemUrlPrefix + h.objectID
    ensures u != ""
  {
    if h.url == "" then ItemUrlPrefix + h.objectID else h.url
  }

  /** The news item built from a hit. */
  function ToItem(h: Hit): (n: NewsItem)
    ensures n.title == h.title && n.url == ItemUrl(h)
    ensures n.source == SourceName && n.category == "community"
    ensures n.description == Truncate(h.storyText, DescriptionLimit)
    ensures n.publishedAt == (if h.createdAt.Some? then h.createdAt.value else ZeroTime)
  {
    var pubTime := if h.createdAt.Some? then h.createdAt.value else ZeroTime;
    NewsItem(h.title, ItemUrl(h), SourceName, Truncate(h.storyText, DescriptionLimit), pubTime, "community")
  }

  /** The item loop of searchKeyword: engaged hits only, in hit order. */
  method KeywordItems(hits: seq<Hit>) returns (items: seq<NewsItem>)
    ensures items == Map(Filter(hits, IsEngaged), ToItem)
  {
    items := [];
    for i := 0 to |hits|
      invariant items == Map(Filter(hits[..i], IsEngaged), ToItem)
    {
      var hit := hits[i];
      FilterPrefix(hits, i, i + 1, IsEngaged);
      if hit.points < 3 && hit.numComments < 2 {
        continue;
      }
      MapSnoc(Filter(hits[..i], IsEngaged), hit, ToItem);
      items := items + [ToItem(hit)];
    }
    assert hits[..|hits|] == hits;
  }

  /** The item loop of searchFrontPage: every hit, with no engagement threshold. */
  method FrontPageItems(hits: seq<Hit>) returns (items: seq<NewsItem>)
    ensures items == Map(hits, ToItem)
  {
    items := [];
    for i := 0 to |hits|
      invariant items == Map(hits[..i], ToItem)
    {
      MapSnoc(hits[..i], hits[i], ToItem);
      assert hits[..i + 1] == hits[..i] + [hits[i]];
      items := items + [ToItem(hits[i])];
    }
    assert hits[..|hits|] == hits;
  }

  /** searchKeyword: the engaged items of one query, or the failure. */
  method SearchKeyword(api: Api, keyword: string, since: Instant) returns (r: Result<seq<NewsItem>>)
    ensures api(KeywordQuery(keyword, since)).Failure? <==> r.Failure?
    ensures r.Success? ==> r.value == Map(Filter(api(KeywordQuery(keyword, since)).value, IsEngaged), ToItem)
  {
    var response := api(KeywordQuery(keyword, since));
    if response.Failure? {
      return Failure(response.error);
    }
    var items := KeywordItems(response.value);
    return Success(items);
  }

  /** searchFrontPage: every front-page item, or the failure. */
  method SearchFrontPage(api: Api, since: Instant) returns (r: Result<seq<NewsItem>>)
    ensures api(FrontPageQuery(since)).Failure? <==> r.Failure?
    ensures r.Success? ==> r.value == Map(api(FrontPageQuery(since)).value, ToItem)
  {
    var response := api(FrontPageQuery(since));
    if response.Failure? {
      return Failure(response.error);
    }
    var items := FrontPageItems(response.value);
    return Success(items);
  }

  // ---------------------------------------------------------------------------
  // Keyword relevance

  /** The keyword, lower-cased, occurs in the lower-cased title or description. */
  predicate KeywordMatches(item: NewsItem, kw: string)
  {
    Contains(Lower(item.title), Lower(kw)) || Contains(Lower(item.description), Lower(kw))
  }

  predicate IsRelevant(item: NewsItem, keywords: seq<string>)
  {
    exists k :: 0 <= k < |keywords| && KeywordMatches(item, keywords[k])
  }

  /** No keyword among the first j matches item. */
  predicate NoneMatch(item: NewsItem, keywords: seq<string>, j: nat)
    requires j <= |keywords|
  {
    forall k | 0 <= k < j :: !KeywordMatches(item, keywords[k])
  }

  /** Keyword j does not match either, so none of the first next = j + 1 do. */
  lemma NoneMatchNext(item: NewsItem, keywords: seq<string>, j: nat, next: nat)
    requires j < |keywords| && next == j + 1
    requires NoneMatch(item, keywords, j) && !KeywordMatches(item, keywords[j])
    ensures NoneMatch(item, keywords, next)
  {
  }

  /** filterRelevant: the items some keyword matches, each once, in input order. */
  method FilterRelevant(items: seq<NewsItem>, keywords: seq<string>) returns (relevant: seq<NewsItem>)
    ensures relevant == Filter(items, (item: NewsItem) => IsRelevant(item, keywords))
  {
    ghost var p := (item: NewsItem) => IsRelevant(item, keywords);
    relevant := [];
    for i := 0 to |items|
      invariant relevant == Filter(items[..i], p)
    {
      var item := items[i];
      FilterPrefix(items, i, i + 1, p);
      var titleLower := Lower(item.title);
      var descLower := Lower(item.description);
      var j := 0;
      while j < |keywords|
        invariant 0 <= j <= |keywords|
        invariant NoneMatch(item, keywords, j)
      {
        var kwLower := Lower(keywords[j]);
        if Contains(titleLower, kwLower) || Contains(descLower, kwLower) {
          relevant := relevant + [item];
          break;
        }
        var next := j + 1;
        NoneMatchNext(item, keywords, j, next);
        j := next;
      }
    }
    assert items[..|items|] == items;
  }

  /** With no keywords nothing is relevant. */
  lemma NoKeywordsNothingRelevant(items: seq<NewsItem>)
    ensures Filter(items, (item: NewsItem) => IsRelevant(item, [])) == []
  {
    FilterNone(items, (item: NewsItem) => IsRelevant(item, []));
  }

  /** An empty keyword matches every item. */
  lemma EmptyKeywordKeepsAll(items: seq<NewsItem>, keywords: seq<string>)
    requires "" in keywords
    ensures Filter(items, (item: NewsItem) => IsRelevant(item, keywords)) == items
  {
    var k :| 0 <= k < |keywords| && keywords[k] == "";
    forall item | item in items ensures IsRelevant(item, keywords) {
      ContainsEmpty(Lower(item.title));
      assert Lower(keywords[k]) == "";
      assert KeywordMatches(item, keywords[k]);
    }
    FilterAll(items, (item: NewsItem) => IsRelevant(item, keywords));
  }

  // ---------------------------------------------------------------------------
  // Deduplication

  /** Items count as duplicates when their lower-cased titles agree. */
  function Key(item: NewsItem): string
  {
    Lower(item.title)
  }

  function Keys(items: seq<NewsItem>): set<string>
  {
    set k | 0 <= k < |items| :: Key(items[k])
  }

  /** The items whose key has not appeared earlier: the first item of every key. */
  function Dedup(items: seq<NewsItem>): (r: seq<NewsItem>)
    decreases |items|
  {
    if items == [] then []
    else
      var init, last := items[..|items| - 1], items[|items| - 1];
      Dedup(init) + (if Key(last) in Keys(init) then [] else [last])
  }

  lemma KeysSnoc(items: seq<NewsItem>, x: NewsItem)
    ensures Keys(items + [x]) == Keys(items) + {Key(x)}
  {
    var s := items + [x];
    forall key | key in Keys(s) ensures key in Keys(items) + {Key(x)} {
      var k :| 0 <= k < |s| && Key(s[k]) == key;
      if k < |items| { assert s[k] == items[k]; }
    }
    forall key | key in Keys(items) ensures key in Keys(s) {
      var k :| 0 <= k < |items| && Key(items[k]) == key;
      assert s[k] == items[k];
    }
    assert Key(s[|items|]) == Key(x);
  }

  /** deduplicate: a seen-set of keys and the kept items, built in one pass. */
  method Deduplicate(items: seq<NewsItem>) returns (result: seq<NewsItem>)
    ensures result == Dedup(items)
  {
    var seen: set<string> := {};
    result := [];
    for i := 0 to |items|
      invariant seen == Keys(items[..i])
      invariant result == Dedup(items[..i])
    {
      var item := items[i];
      var key := Lower(item.title);
      assert items[..i + 1][..i] == items[..i];
      assert items[..i + 1] == items[..i] + [item];
      KeysSnoc(items[..i], item);
      if key !in seen {
        seen := seen + {key};
        result := result + [item];
      }
    }
    assert items[..|items|] == items;
  }

  /** Every key of the input is represented in the output, and no other. */
  lemma {:induction false} DedupKeys(items: seq<NewsItem>)
    ensures Keys(Dedup(items)) == Keys(items)
    decreases |items|
  {
    if items != [] {
      var init, last := items[..|items| - 1], items[|items| - 1];
      DedupKeys(init);
      assert init + [last] == items;
      KeysSnoc(init, last);
      if Key(last) !in Keys(init) {
        assert Dedup(items) == Dedup(init) + [last];
        KeysSnoc(Dedup(init), last);
      } else {
        assert Dedup(items) == Dedup(init) + [];
        assert Dedup(init) + [] == Dedup(init);
      }
    }
  }

  /** No two output items share a key. */
  lemma {:induction false} DedupDistinct(items: seq<NewsItem>)
    ensures forall i, j | 0 <= i < j < |Dedup(items)| :: Key(Dedup(items)[i]) != Key(Dedup(items)[j])
    decreases |items|
  {
    if items != [] {
      var init, last := items[..|items| - 1], items[|items| - 1];
      DedupDistinct(init);
      DedupKeys(init);
      var d := Dedup(init);
      if Key(last) !in Keys(init) {
        var r := d + [last];
        assert Dedup(items) == r;
        forall i, j | 0 <= i < j < |r| ensures Key(r[i]) != Key(r[j]) {
          if j == |d| {
            assert Key(d[i]) in Keys(d);
          } else {
            assert r[i] == d[i] && r[j] == d[j];
          }
        }
      }
    }
  }

  /** Items with pairwise distinct keys pass unchanged. */
  lemma {:induction false} DedupOfDistinct(items: seq<NewsItem>)
    requires forall i, j | 0 <= i < j < |items| :: Key(items[i]) != Key(items[j])
    ensures Dedup(items) == items
    decreases |items|
  {
    if items != [] {
      var init, last := items[..|items| - 1], items[|items| - 1];
      DedupOfDistinct(init);
      forall k | 0 <= k < |init| ensures Key(init[k]) != Key(last) {
        assert init[k] == items[k];
      }
      assert Key(last) !in Keys(init);
      assert init + [last] == items;
    }
  }

  /** Deduplicating twice is deduplicating once. */
  lemma DedupIdempotent(items: seq<NewsItem>)
    ensures Dedup(Dedup(items)) == Dedup(items)
  {
    DedupDistinct(items);
    DedupOfDistinct(Dedup(items));
  }

  /** The output keeps input order (it is a subsequence), and each output item is
      the first input item with its key. */
  lemma {:induction false} DedupKeepsFirst(items: seq<NewsItem>)
    ensures IsSubsequence(Dedup(items), items)
    ensures forall x | x in Dedup(items) :: exists j :: (0 <= j < |items| && items[j] == x &&
      forall k | 0 <= k < j :: Key(items[k]) != Key(x))
    decreases |items|
  {
    if items != [] {
      var n := |items| - 1;
      var init, last := items[..n], items[n];
      DedupKeepsFirst(init);
      assert init + [last] == items;
      var keep := Key(last) !in Keys(init);
      SubsequenceSnoc(Dedup(init), init, last, keep);
      forall x | x in Dedup(items) ensures exists j :: (0 <= j < |items| && items[j] == x &&
        forall k | 0 <= k < j :: Key(items[k]) != Key(x))
      {
        if x in Dedup(init) {
          var j :| 0 <= j < |init| && init[j] == x && forall k | 0 <= k < j :: Key(init[k]) != Key(x);
          assert items[j] == x;
        } else {
          assert keep && x == last;
          forall k | 0 <= k < n ensures Key(items[k]) != Key(x) {
            assert items[k] == init[k];
            assert Key(init[k]) in Keys(init);
          }
        }
      }
    }
  }

  // ---------------------------------------------------------------------------
  // The three strategies together

  /** The items one keyword query contributes: nothing when it fails. */
  function QueryItems(api: Api, text: string, since: Instant): seq<NewsItem>
  {
    var response := api(KeywordQuery(text, since));
    if response.Failure? then [] else Map(Filter(response.value, IsEngaged), ToItem)
  }

  /** The items of several keyword queries, in query order. */
  function QueriesItems(api: Api, queries: seq<string>, since: Instant): seq<NewsItem>
    decreases |queries|
  {
    if queries == [] then []
    else QueriesItems(api, queries[..|queries| - 1], since) + QueryItems(api, queries[|queries| - 1], since)
  }

  /** The relevant front-page items: nothing when the front page fails. */
  function FrontPageRelevant(api: Api, keywords: seq<string>, since: Instant): seq<NewsItem>
  {
    var response := api(FrontPageQuery(since));
    if response.Failure? then []
    else Filter(Map(response.value, ToItem), (item: NewsItem) => IsRelevant(item, keywords))
  }

  /** Everything the three strategies collect before deduplication. */
  function Candidates(api: Api, keywords: seq<string>, since: Instant): seq<NewsItem>
  {
    QueriesItems(api, keywords, since) + QueriesItems(api, CombinedQueries, since) +
    FrontPageRelevant(api, keywords, since)
  }

  lemma QueriesItemsPrefix(api: Api, queries: seq<string>, i: int, since: Instant)
    requires 0 <= i < |queries|
    ensures QueriesItems(api, queries[..i + 1], since) ==
      QueriesItems(api, queries[..i], since) + QueryItems(api, queries[i], since)
  {
    assert queries[..i + 1][..i] == queries[..i];
  }

  /** The loop over a list of keyword queries: each query that fails is
      skipped, the items of the others are appended in order. */
  method SearchQueries(api: Api, queries: seq<string>, since: Instant) returns (items: seq<NewsItem>)
    ensures items == QueriesItems(api, queries, since)
  {
    items := [];
    for i := 0 to |queries|
      invariant items == QueriesItems(api, queries[..i], since)
    {
      QueriesItemsPrefix(api, queries, i, since);
      var r := SearchKeyword(api, queries[i], since);
      if r.Failure? {
        continue;
      }
      items := items + r.value;
    }
    assert queries[..|queries|] == queries;
  }

  /** Search: the keyword queries, then the combined queries, then the relevant
      front-page stories, deduplicated. A failed request contributes nothing and
      the search itself never fails. */
  method Search(api: Api, keywords: seq<string>, now: Instant) returns (items: seq<NewsItem>, err: Option<string>)
    ensures err == None
    ensures items == Dedup(Candidates(api, keywords, now - 7 * SecondsPerDay))
  {
    var since := now - 7 * SecondsPerDay;
    var keywordItems := SearchQueries(api, keywords, since);
    var combinedItems := SearchQueries(api, CombinedQueries, since);
    var allItems := keywordItems + combinedItems;

    var frontPage := SearchFrontPage(api, since);
    var relevantItems: seq<NewsItem> := [];
    if frontPage.Success? {
      relevantItems := FilterRelevant(frontPage.value, keywords);
    }
    assert relevantItems == FrontPageRelevant(api, keywords, since);
    allItems := allItems + relevantItems;

    items := Deduplicate(allItems);
    err := None;
  }

  /** Every collected item is a Hacker News community item. */
  lemma {:induction false} QueriesItemsLabelled(api: Api, queries: seq<string>, since: Instant)
    ensures forall x | x in QueriesItems(api, queries, since) ::
      x.source == SourceName && x.category == "community" && x.url != ""
    decreases |queries|
  {
    if queries != [] {
      QueriesItemsLabelled(api, queries[..|queries| - 1], since);
    }
  }

  /** Every item Search returns is labelled "Hacker News" / "community" and carries
      the item URL rule. */
  lemma SearchItemsLabelled(api: Api, keywords: seq<string>, since: Instant)
    ensures forall x | x in Dedup(Candidates(api, keywords, since)) ::
      x.source == SourceName && x.category == "community" && x.url != ""
  {
    var c := Candidates(api, keywords, since);
    QueriesItemsLabelled(api, keywords, since);
    QueriesItemsLabelled(api, CombinedQueries, since);
    var front := FrontPageRelevant(api, keywords, since);
    forall x | x in front ensures x.source == SourceName && x.category == "community" && x.url != "" {
      var hits := api(FrontPageQuery(since)).value;
      var i :| 0 <= i < |Map(hits, ToItem)| && Map(hits, ToItem)[i] == x;
    }
    DedupKeepsFirst(c);
    forall x | x in Dedup(c) ensures x in c {
      var j :| 0 <= j < |c| && c[j] == x && forall k | 0 <= k < j :: Key(c[k]) != Key(x);
    }
  }
}
