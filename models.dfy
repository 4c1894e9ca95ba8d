/** The pipeline's records (internal/models). A time.Time is an `Instant`:
    whole seconds of wall-clock time in one fixed zone, counted from
    1970-01-01 00:00:00. */
module Models {

  type Instant = int

  /** Go's zero time.Time, 0001-01-01 00:00:00, in the same count. */
  const ZeroTime: Instant := -62135596800

  const SecondsPerDay := 86400

  datatype Release = Release(
    repoOwner: string,
    repoName: string,
    tagName: string,
    name: string,
    body: string,
    url: string,
    publishedAt: Instant,
    category: string,
    isPrerelease: bool)

  datatype Repository = Repository(owner: string, repo: string, name: string, category: string)

  datatype NewsItem = NewsItem(
    title: string,
    url: string,
    source: string,
    description: string,
    publishedAt: Instant,
    category: string)

  datatype RssSource = RssSource(name: string, url: string)

  datatype ScrapeSource = ScrapeSource(name: string, url: string, selector: string)

  datatype HackerNewsConfig = HackerNewsConfig(enabled: bool, keywords: seq<string>)

  datatype NewsSourceConfig = NewsSourceConfig(
    rssFeeds: seq<RssSource>,
    scrapeSources: seq<ScrapeSource>,
    hackerNews: HackerNewsConfig)

  datatype Newsletter = Newsletter(
    title: string,
    weekStart: Instant,
    weekEnd: Instant,
    content: string,
    summary: string,
    highlights: seq<string>,
    releases: seq<Release>,
    newsItems: seq<NewsItem>)
}
