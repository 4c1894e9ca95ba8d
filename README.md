# Last Week in Cloud Native — verified model of the newsletter rules

LWCN collects a week of cloud-native news and software releases and turns
them into a weekly newsletter. GitHub releases come from a list of
repositories. News comes from RSS feeds, from the heise.de front page and
from Hacker News search. An LLM writes the prose, and the pipeline saves a
Markdown draft with front matter, an "all articles" page and a LinkedIn post.

This project models the deterministic rules that sit between the fetched
records and those files. The rules are:

- how each source's raw records are filtered and normalised into news items
  and releases;
- how pre-releases and major releases are recognised from their tags;
- the ISO 8601 week arithmetic of the backfill tool (ISO 8601:2004, sections
  2.2.10 and 4.1.4: week 1 is the week that holds 4 January);
- the UTF-8 sanitiser (the well-formed byte sequences of section 4 of RFC 3629);
- the assembly of the draft, its summary, highlights, keywords and articles
  page, and its file names;
- the choice of the newest data file.

Modules:

- `Models`: the records of `internal/models`.
- `Wrappers`: `Option` and `Result`.
- `Seqs`: filter, map, take and subsequences.
- `Text`: the byte-string functions of Go's `strings`, `strconv` and `sort.Strings` that the pipeline calls, with white space as `unicode.IsSpace` defines it.
- `Calendar`: proleptic Gregorian days and ISO weeks.
- `Gemini`: `internal/ai/gemini.go`.
- `Backfill` and `Utf8`: `cmd/backfill-newsletter/main.go`.
- `HackerNews`, `Rss` and `Scraper`: `internal/news`.
- `GitHub`: `internal/github/client.go`.
- `Draft`: `internal/ai/draft.go`.
- `AiProcessor`: `cmd/ai-processor/main.go`.

Where the source works step by step, the model does too. Each method that
loops is proved equal to a specification function, and the promised
properties are lemmas about that function.

Representation:

- An instant is a whole number of seconds in one fixed zone, counted from
  1970-01-01.
- A Go string is a `seq<char>` with one char per byte. Non-ASCII literals,
  such as the books emoji and the arrows, are written as their UTF-8 bytes.
- The sanitiser works on `seq<byte>`, where `byte` is the integers 0..255.
- White space for `strings.TrimSpace` and `strings.Fields` is `unicode.IsSpace`. That is the six ASCII
  white-space bytes and U+0085, U+00A0, U+1680, U+2000 to U+200A, U+2028, U+2029, U+202F, U+205F
  and U+3000. `Text.SpaceWidth` matches their UTF-8 encodings byte by byte, and
  `Utf8.SpaceWidthDecodes` proves the match is the rune Go decodes there.
- Network and parser libraries are parameters of the operations: the
  go-github list call, the gofeed parser, the Algolia search, goquery's
  element lookup, `time.Parse` and `os.ReadDir`.

## Model

| member | source | states |
|---|---|---|
| Gemini.ContainsAnyOfIff | internal/ai/gemini.go:180-184 | the indicator loop answers true iff some indicator occurs in the tag |
| Gemini.ContainsSeparatedOfIff | internal/ai/gemini.go:190-195 | the pattern loop answers true iff "." + p or "-" + p occurs anywhere for some pattern p |
| Gemini.IsPreReleaseIff | internal/ai/gemini.go:172-198 | a tag is a pre-release iff its lowercase form contains one of the 17 indicators or a separated pattern from the 8 patterns |
| Gemini.IsPreReleaseCaseInsensitive | internal/ai/gemini.go:173 | the classification of a tag equals that of its lowercase form |
| Gemini.ReleaseCandidateIsPreRelease | internal/ai/gemini.go:174-184 | v1.2.0-rc.1 is a pre-release |
| Gemini.EdgeIsPreRelease | internal/ai/gemini.go:174-184 | v2.0.0-edge-20240101 is a pre-release |
| Gemini.UpperCaseIsPreRelease | internal/ai/gemini.go:173-184 | V3.1.0-RC2 is a pre-release, because the tag is lowercased first |
| Gemini.DotDevIsPreRelease | internal/ai/gemini.go:187-195 | v1.2.0.dev3 is a pre-release: the separated pattern may sit anywhere in the tag |
| Gemini.DottedVersionIsStable | internal/ai/gemini.go:172-198 | a tag without '-' whose dots all sit between digits is never a pre-release |
| Gemini.PlainVersionIsStable | internal/ai/gemini.go:180-197 | v1.2.0 is stable |
| Gemini.GluedAlphaIsStable | internal/ai/gemini.go:180-197 | v1.0.0alpha1 is stable, because no separator precedes "alpha" |
| Gemini.FilterStableReleases | internal/ai/gemini.go:152-168 | the kept releases are exactly those with a non-pre-release tag, in input order, whatever their prerelease flag; the log list names the rest; kept plus filtered equals the input length |
| Gemini.StableFilterIdempotent | internal/ai/gemini.go:152-168 | filtering the stable releases again changes nothing |
| Gemini.SelectLinkedInNews | internal/ai/gemini.go:268-275 | the selection is the first 15 items whose source is not "Hacker News" |
| Gemini.LinkedInSelectionFacts | internal/ai/gemini.go:268-275 | at most 15 items, none from Hacker News, a subsequence of the input; fewer than 15 only when every non-Hacker-News item is taken |
| Text.Truncate | internal/ai/gemini.go:200-205 | s itself when it has at most max bytes; otherwise the first max bytes followed by "...", max + 3 bytes in all |
| Text.Lower | internal/ai/gemini.go:173 | same length, each byte lowercased |
| Text.LowerIdempotent | internal/news/hackernews.go:227 | lowercasing twice equals lowercasing once |
| Text.TrimPrefix | internal/ai/draft.go:181 | with the prefix present, prefix + result is the input; otherwise the input is unchanged |
| Text.SplitJoin | internal/ai/draft.go:182 | joining the parts of a split with the separator gives back the input |
| Text.SplitPartsFree | internal/ai/draft.go:182 | no part of a split holds the separator |
| Text.TrimRightWhere | internal/ai/draft.go:51 | the result is the longest prefix of the input that does not end in a dropped byte; everything cut is dropped bytes |
| Text.SpaceWidth | internal/news/scraper.go:93 | the width of the white-space character a string starts with; a match never starts on a UTF-8 continuation byte |
| Utf8.SpaceWidthDecodes | internal/news/scraper.go:136 | a byte match of Text.SpaceWidth happens iff Go's decoder reads a rune there that unicode.IsSpace accepts, and the match is as wide as that rune |
| Utf8.DecodedTails | internal/news/scraper.go:136 | every byte after the first of a decoded rune is a continuation byte, so a rune starts at every other byte |
| Text.TrimLeftSpace | internal/news/scraper.go:93 | the result is a suffix of the input that starts with no white space and has the same fields |
| Text.TrimRightSpace | internal/news/scraper.go:93 | the result is a prefix of the input that ends with no white space and has the same fields; the cut starts a character |
| Text.TrimSpace | internal/news/scraper.go:93-101 | the result is a slice of the input that neither starts nor ends with white space and has the same fields |
| Text.TrimSpaceAround | internal/news/scraper.go:93 | a word with one white-space character of any kind on each side trims to the word |
| Text.NoBreakSpaceTrimmed | internal/news/scraper.go:93-95 | a lone NO-BREAK SPACE trims to "" |
| Text.WideSpacesTrimmed | internal/news/scraper.go:93 | IDEOGRAPHIC SPACE in front of and NARROW NO-BREAK SPACE after a word are trimmed |
| Text.FieldsAreWords | internal/news/scraper.go:136 | every part of strings.Fields is a non-empty run with no white space in it |
| Text.FieldsGaps | internal/news/scraper.go:136 | every input is its parts interleaved with gaps that are white space, the gaps between two parts not empty: nothing but white space is dropped and the parts are the maximal runs without it |
| Text.FieldsInterleave | internal/news/scraper.go:136 | conversely, any words interleaved with such gaps split into exactly those words, so the split is the only one of its kind |
| Text.FieldsSkipSpace | internal/news/scraper.go:136 | white space in front adds no part |
| Text.FieldsJoin | internal/news/scraper.go:136 | words joined by single spaces split back into the same words |
| Text.FieldsCons | internal/news/scraper.go:136 | a word followed by any one white-space character is the first part |
| Text.FieldsAppendSpace | internal/news/scraper.go:136 | a trailing white-space character adds no part |
| Text.CollapseSpaces | internal/news/scraper.go:136 | the result has the same words as the input, in order; every white-space character in it is a single ' ' between two words |
| Text.CollapseTwoWords | internal/news/scraper.go:136 | two words around any one white-space character collapse to the words around a single ' ' |
| Text.NoBreakSpaceSeparates | internal/news/scraper.go:136 | "abcd", NO-BREAK SPACE, "efgh" collapses to "abcd efgh", nine bytes |
| Text.ReplaceAllAbsent | internal/ai/draft.go:48-49 | replacing a pattern that does not occur changes nothing |
| Text.NatToStringRoundTrip | internal/ai/draft.go:28 | the decimal digits of n read back as n |
| Text.Pad2RoundTrip | internal/ai/draft.go:28 | a week below 100 is written as exactly two digits that read back as the week |
| Text.SortStrings | internal/ai/draft.go:115 | the result is sorted byte-wise and is a permutation of the input; distinct inputs come out strictly increasing |
| Text.StrictlySortedUnique | internal/ai/draft.go:111-115 | two strictly sorted lists with the same members are equal |
| Calendar.CivilRoundTrip | cmd/backfill-newsletter/main.go:189 | converting a day count to a civil date and back is the identity |
| Calendar.DateRoundTrip | cmd/backfill-newsletter/main.go:189 | converting a valid civil date to a day count and back is the identity |
| Calendar.IsoWeekBound | internal/ai/draft.go:25 | the ISO week number lies between 1 and the week count of its ISO year |
| Calendar.Week1MondayFacts | cmd/backfill-newsletter/main.go:188-196 | the Monday of week 1 is a Monday between 29 December of the year before and 4 January |
| Calendar.Week1MondayRoundTrip | cmd/backfill-newsletter/main.go:186-199 | counting week - 1 weeks on from the Monday of week 1 lands in ISO week (year, week), for every week the year has |
| Calendar.NextYearWeek1 | cmd/backfill-newsletter/main.go:199 | the weeks of a year end exactly at the Monday of week 1 of the next year |
| Calendar.SameWeekSameIsoWeek | cmd/backfill-newsletter/main.go:93-98 | all seven days from a Monday share one ISO week |
| Backfill.GetWeekStart | cmd/backfill-newsletter/main.go:172-184 | a Monday at 00:00, and now lies in the week that starts weeksAgo weeks after it; Sunday counts as day 7 |
| Backfill.GetWeekStartStep | cmd/backfill-newsletter/main.go:183 | one more week ago is exactly 7 days earlier |
| Backfill.GetWeekStartSameIsoWeek | cmd/backfill-newsletter/main.go:172-184 | with weeksAgo = 0 the result lies in the ISO week of now |
| Backfill.GetWeekStartForWeek | cmd/backfill-newsletter/main.go:186-200 | a Monday at 00:00, week - 1 weeks after the Monday of the week holding 4 January |
| Backfill.FirstWeekStartBounds | cmd/backfill-newsletter/main.go:188-196 | the start of week 1 lies between 29 December of the year before and 4 January |
| Backfill.GetWeekStartForWeekStep | cmd/backfill-newsletter/main.go:199 | consecutive week numbers start exactly 7 days apart, with no range check |
| Backfill.GetWeekStartForWeekRoundTrip | cmd/backfill-newsletter/main.go:186-200 | for 1 <= week <= the year's week count, the result's ISO (year, week) is the input |
| Backfill.GetWeekStartForWeekInverse | cmd/backfill-newsletter/main.go:186-200 | every Monday at 00:00 is the start of its own ISO week |
| Backfill.GetWeekStartForWeekOverflow | cmd/backfill-newsletter/main.go:199 | the week after the last one is week 1 of the next year |
| Backfill.WeeksToGenerate | cmd/backfill-newsletter/main.go:79-91 | [week] when a week is given; otherwise the past weeks currentWeek - weeks … currentWeek - 1 without non-positive ones |
| Backfill.PastWeeksShape | cmd/backfill-newsletter/main.go:84-90 | the past-week list is strictly increasing, has at most weeks entries, and each lies in [1, currentWeek) |
| Backfill.PastWeeksMembership | cmd/backfill-newsletter/main.go:84-90 | w is listed iff 1 <= w and currentWeek - weeks <= w < currentWeek |
| Backfill.WindowFor | cmd/backfill-newsletter/main.go:93-98 | the window starts on a Monday at 00:00, ends 7 days less one second later, and is labelled with the ISO week of its start |
| Backfill.WindowIsOneIsoWeek | cmd/backfill-newsletter/main.go:93-98 | every instant of the window lies in the window's ISO week |
| Backfill.PlanWeeks | cmd/backfill-newsletter/main.go:38-98 | weeks outside [1, 10] fail before anything else; otherwise one window per target week, in order |
| Backfill.PastWeekWindowsMatch | cmd/backfill-newsletter/main.go:93-98 | a past week of the current year gets a window labelled with that same week and year |
| Utf8.DecodeEncode | cmd/backfill-newsletter/main.go:288 | decoding a well-formed sequence and encoding the code point gives back the sequence |
| Utf8.EncodeDecode | cmd/backfill-newsletter/main.go:288 | encoding a Unicode scalar value and decoding the bytes gives back the value and length |
| Utf8.SanitizeUtf8 | cmd/backfill-newsletter/main.go:279-296 | the loop computes the sanitised byte string |
| Utf8.SanitizedValidUnchanged | cmd/backfill-newsletter/main.go:280-282 | valid UTF-8 is returned unchanged |
| Utf8.SanitizedIsValid | cmd/backfill-newsletter/main.go:284-296 | the output is valid UTF-8 |
| Utf8.SanitizedSubsequence | cmd/backfill-newsletter/main.go:284-296 | the output is a byte subsequence of the input: bytes are only dropped |
| Utf8.SanitizedIdempotent | cmd/backfill-newsletter/main.go:279-296 | sanitising twice equals sanitising once |
| Utf8.SanitizedExample | cmd/backfill-newsletter/main.go:287-292 | a stray 0xFF is dropped, a truncated sequence is dropped, and an encoded U+FFFD is kept |
| HackerNews.ItemUrl | internal/news/hackernews.go:126-129 | the hit's URL when it is non-empty, else the item page for its object id; never empty |
| HackerNews.ToItem | internal/news/hackernews.go:131-140 | title copied, URL as above, source "Hacker News", category "community", story text truncated to 200 bytes, unparseable date as the zero time |
| HackerNews.KeywordItems | internal/news/hackernews.go:119-141 | hits with at least 3 points or at least 2 comments become items, in hit order |
| HackerNews.FrontPageItems | internal/news/hackernews.go:176-193 | every front-page hit becomes an item, with no threshold |
| HackerNews.SearchKeyword | internal/news/hackernews.go:88-144 | fails iff the search fails; otherwise the engaged hits as items |
| HackerNews.SearchFrontPage | internal/news/hackernews.go:146-196 | fails iff the search fails; otherwise all hits as items |
| HackerNews.FilterRelevant | internal/news/hackernews.go:198-213 | keeps, in order and once each, the items whose lowercased title or description contains some lowercased keyword |
| HackerNews.NoKeywordsNothingRelevant | internal/news/hackernews.go:204-210 | with no keywords nothing is relevant |
| HackerNews.EmptyKeywordKeepsAll | internal/news/hackernews.go:204-210 | an empty keyword keeps every item |
| HackerNews.Deduplicate | internal/news/hackernews.go:222-234 | the loop computes the first-per-lowercased-title selection |
| HackerNews.DedupKeys | internal/news/hackernews.go:222-234 | every lowercased title of the input is represented in the output, and no other |
| HackerNews.DedupDistinct | internal/news/hackernews.go:222-234 | no two output items share a lowercased title |
| HackerNews.DedupOfDistinct | internal/news/hackernews.go:222-234 | an input with distinct keys is returned unchanged |
| HackerNews.DedupIdempotent | internal/news/hackernews.go:222-234 | deduplicating twice equals deduplicating once |
| HackerNews.DedupKeepsFirst | internal/news/hackernews.go:222-234 | the output is a subsequence of the input, and each output item is the first input item with its key |
| HackerNews.SearchQueries | internal/news/hackernews.go:48-72 | query results concatenated in query order, failed queries contributing nothing |
| HackerNews.Search | internal/news/hackernews.go:42-86 | no error; the deduplicated concatenation of keyword results, the four combined queries in their fixed order, and the relevant front-page items, all since one week before now |
| HackerNews.QueriesItemsLabelled | internal/news/hackernews.go:133-140 | every query item has source "Hacker News", category "community" and a non-empty URL |
| HackerNews.SearchItemsLabelled | internal/news/hackernews.go:42-86 | every item Search returns has source "Hacker News", category "community" and a non-empty URL |
| Scraper.FirstMatching | internal/news/scraper.go:63-71 | the chosen selector is one with matches; there is none iff no selector matches |
| Scraper.FindSelector | internal/news/scraper.go:63-71 | the loop picks the first selector with a match, or "" |
| Scraper.FirstMatchingIsFirst | internal/news/scraper.go:64-70 | every selector before the chosen one has no match |
| Scraper.NoSelectorNoItems | internal/news/scraper.go:73-76 | when no selector matches, the page yields no items |
| Scraper.FirstSome | internal/news/scraper.go:106-123 | the first present option of a list; none iff all are absent |
| Scraper.FirstSomeOfThree | internal/news/scraper.go:110-121 | the three-layout cascade takes the first layout that parses |
| Scraper.ParseDatetime | internal/news/scraper.go:106-123 | the datetime is parsed with the millisecond, RFC 3339 and seconds layouts in that order, and the first success wins |
| Scraper.AbsoluteLink | internal/news/scraper.go:139-141 | links not starting with "http" get the heise.de origin in front; others are unchanged; the result always starts with "http" |
| Scraper.ExtractCandidate | internal/news/scraper.go:78-156 | the per-teaser steps compute the candidate item or its rejection |
| Scraper.NoBreakSpaceHeadingFallsBack | internal/news/scraper.go:93-95 | a heading that is only a NO-BREAK SPACE counts as empty, and the title is the trimmed link text |
| Scraper.NoBreakSpaceTitleDropped | internal/news/scraper.go:134-146 | a title of "abcd", NO-BREAK SPACE, "efgh" collapses below ten bytes and the teaser is skipped |
| Scraper.CandidateKeptIff | internal/news/scraper.go:125-146 | a teaser yields an item iff its date parsed, is not before one week ago, it has a link with a non-empty href, and its collapsed title has at least 10 bytes |
| Scraper.CandidateFacts | internal/news/scraper.go:126-155 | an emitted item is dated (not the zero time) no earlier than one week ago, with no upper bound; it has a collapsed title of at least 10 bytes taken from the link, a URL starting with "http", the source's name and category "news" |
| Scraper.ScrapedFacts | internal/news/scraper.go:78-156 | no more items than teasers, and every item satisfies the facts above |
| Scraper.ScrapedAppend | internal/news/scraper.go:78-156 | teasers are processed independently in document order |
| Scraper.ScrapeHeise | internal/news/scraper.go:24-160 | request or parse errors are returned with no items; a non-200 status gives no items and no error; otherwise the page's items |
| GitHub.ToRelease | internal/github/client.go:65-80 | owner, repository and category come from the arguments; tag and prerelease flag are copied; the name falls back to the tag |
| GitHub.GetReleasesInRange | internal/github/client.go:35-84 | a list error returns no releases and the error; otherwise the non-draft, dated, in-range releases of the one page, converted, in provider order |
| GitHub.RangeReleasesFacts | internal/github/client.go:49-81 | no drafts and no undated releases; start <= date <= end; every eligible release is emitted; name fallback; provider order kept; no more than the page |
| GitHub.AtMostOnePage | internal/github/client.go:38-39 | with a provider that honours the page size of 100, at most 100 releases per repository |
| GitHub.FetchReleasesInRange | internal/github/client.go:92-120 | failing repositories are skipped, the rest concatenated in repository order, and the error is nil |
| GitHub.AllReleasesFacts | internal/github/client.go:97-119 | every fetched release lies in [start, end] and carries the owner, name and category of one of the repositories |
| Rss.PubDate | internal/news/rss.go:31-34 | an entry's own date, or now when it has none |
| Rss.FetchFeed | internal/news/rss.go:21-51 | a parse error is returned with no items; otherwise the fresh entries as items, in feed order |
| Rss.FreshIff | internal/news/rss.go:31-38 | an entry is kept iff it is undated or dated no earlier than one week ago; there is no upper bound |
| Rss.FeedItemsFacts | internal/news/rss.go:30-48 | items copy title, link and description, carry the source's name and category "news", are dated from one week ago on; every fresh entry is emitted; feed order kept |
| Rss.FetchAllFeeds | internal/news/rss.go:53-65 | failed feeds are skipped, the rest concatenated in source order, and the error is nil |
| Rss.AllFeedItemsFacts | internal/news/rss.go:53-65 | every item is a "news" item from one of the sources, dated from one week ago on |
| Draft.IsMajorReleaseIff | internal/ai/draft.go:180-187 | after one leading "v" is stripped, the tag is X.0, X.0.0 or X.0.0.Y with X free of dots |
| Draft.MajorReleaseShape | internal/ai/draft.go:180-187 | a major release has that shape |
| Draft.ShapeIsMajorRelease | internal/ai/draft.go:180-187 | every tag of that shape is a major release |
| Draft.TwoPartMajorIff | internal/ai/draft.go:180-187 | a tag (after an optional leading v) of two dot-free parts is a major release exactly when its second part is 0 |
| Draft.ThreePartMajorIff | internal/ai/draft.go:180-187 | a tag of three dot-free parts is a major release exactly when its second and third parts are both 0 |
| Draft.ThreePartMajorExample | internal/ai/draft.go:180-187 | v1.0.0 is a major release |
| Draft.TwoPartMajorExample | internal/ai/draft.go:180-187 | v2.0 is a major release |
| Draft.PatchReleaseExample | internal/ai/draft.go:180-187 | v1.0.1 is not a major release: its patch part is not 0 |
| Draft.MinorReleaseExample | internal/ai/draft.go:180-187 | v1.2.0 is not a major release: its minor part is not 0 |
| Draft.ReleaseCandidateExample | internal/ai/draft.go:180-187 | v1.0.0-rc1 is not a major release: its third part is 0-rc1 |
| Draft.SinglePartExample | internal/ai/draft.go:180-187 | 1 is not a major release: it has one part only |
| Draft.Min | internal/ai/draft.go:189-194 | the smaller of the two |
| Draft.CollectMajorReleases | internal/ai/draft.go:147-152 | "repo tag" labels of the major releases, in release order |
| Draft.GenerateSummary | internal/ai/draft.go:143-160 | the release and news counts, then up to three notable labels when there are any |
| Draft.NotableFacts | internal/ai/draft.go:147-157 | min(3, number of major releases) labels, each from a major release, in release order |
| Draft.SummaryWithoutMajors | internal/ai/draft.go:154-157 | without major releases the summary is only the counts sentence |
| Draft.ExtractHighlights | internal/ai/draft.go:162-178 | distinct repository names of the releases, exactly min(5, number of distinct names) of them |
| Draft.GenerateSeoDescription | internal/ai/draft.go:197-206 | the description names a highlight selection of at most 4 repositories |
| Draft.GenerateKeywords | internal/ai/draft.go:209-223 | the 3 fixed keywords followed by a highlight selection |
| Draft.KeywordsBounds | internal/ai/draft.go:209-223 | between 3 and 8 keywords, the fixed ones first, the rest repository names |
| Draft.WeekStemRoundTrip | internal/ai/draft.go:28 | "Y-week-WW" reads back as the year and the two-digit week |
| Draft.FilenamesShareStem | internal/ai/draft.go:81 | the draft "Y-week-WW.md" and the articles page "Y-week-WW-articles.md" share the stem and differ |
| Draft.DateTextRoundTrip | internal/ai/draft.go:32 | for years 0 to 9999 the date is ten characters reading back as year, month and day |
| Draft.DisplayTitle | internal/ai/draft.go:123-126 | the title, or "Untitled" when it is empty; never empty |
| Draft.GroupBySource | internal/ai/draft.go:84-87 | one entry per source present, holding that source's items in input order |
| Draft.SortedKeys | internal/ai/draft.go:111-115 | the map's keys, strictly ascending |
| Draft.WriteSection | internal/ai/draft.go:118-130 | a section is "## source (n)" followed by one line per item |
| Draft.WriteSections | internal/ai/draft.go:117-130 | the loop over the sorted sources writes the sections of the articles page, one per source in that order |
| Draft.GenerateArticlesPage | internal/ai/draft.go:77-141 | the articles file name, and the page: header, one section per source in ascending order, footer |
| Draft.ListsSourcesUnique | internal/ai/draft.go:110-115 | only one source order fits the page, so the page is determined by the items |
| Draft.EachItemInOneSection | internal/ai/draft.go:84-130 | every news item appears in exactly one section, its source's, and sections keep input order |
| Draft.SectionCountsTotal | internal/ai/draft.go:118-130 | the section counts add up to the number of news items |
| Draft.LinkArticles | internal/ai/draft.go:45-54 | the body with both placeholders removed and trailing whitespace trimmed, then one link to the week's articles page |
| Draft.LinkedBodyFacts | internal/ai/draft.go:48-51 | the body does not end in whitespace, and without placeholders it is the content minus its trailing whitespace |
| Draft.GenerateDraft | internal/ai/draft.go:23-75 | file names from the ISO week; title, date, summary, SEO description, keywords and highlights; linked body; articles page |
| AiProcessor.PathJoin | cmd/ai-processor/main.go:157 | dir and name joined by one slash; an empty element is dropped |
| AiProcessor.FindLatestFile | cmd/ai-processor/main.go:148-162 | the loop's result is the path of the last matching entry, or "" |
| AiProcessor.LastMatchFacts | cmd/ai-processor/main.go:154-161 | there is a last match iff some entry matches; it matches and nothing after it does |
| AiProcessor.LatestFileEmptyIff | cmd/ai-processor/main.go:148-162 | "" iff the directory cannot be read or no entry is a file whose name starts with and is longer than the prefix |
| AiProcessor.LastMatchIsGreatest | cmd/ai-processor/main.go:149-158 | on a name-sorted listing the result has the greatest matching name |
| AiProcessor.InputPath | cmd/ai-processor/main.go:113-115 | the given path, or the newest data file with the prefix when none is given |
| AiProcessor.DefaultPathShape | cmd/ai-processor/main.go:113-115 | a defaulted path is "" or data/ + a name longer than and starting with the prefix |
| AiProcessor.LoadReleases | cmd/ai-processor/main.go:112-128 | reads the given or newest "releases-" file and returns its records or the error |
| AiProcessor.LoadNews | cmd/ai-processor/main.go:130-146 | reads the given or newest "news-" file and returns its records or the error |
| AiProcessor.LinkedInPath | cmd/ai-processor/main.go:100-110 | the output directory joined with "Y-week-WW-linkedin.txt" for the ISO week of now |
| AiProcessor.IsoWeekTwoDigits | cmd/ai-processor/main.go:102 | an ISO week number lies between 1 and 53 |
| AiProcessor.LinkedInFilenameFacts | cmd/ai-processor/main.go:102-103 | the LinkedIn file shares the week stem with the draft, differs from both draft files, and reads back as ISO year and two-digit week |

## Left out

- HTTP requests, goquery HTML parsing, gofeed parsing, the go-github and OAuth2 client, and Algolia JSON decoding are foreign libraries. Their results are inputs: `Result` values, or functions from the request to the result.
- `time.Parse` is a parameter from layout and text to an optional instant. The scraper's three layouts are kept as constants.
- The Gemini client, `GenerateNewsletter`, `GenerateLinkedInPost` and all prompt text are calls to an LLM and free text.
- The releases-by-category grouping in `buildLinkedInPrompt` iterates a Go map, and it only feeds prompt text.
- YAML front-matter marshalling, JSON encoding and decoding, and file and directory writes are I/O. The draft's front matter is modelled as the metadata record it is marshalled from.
- `GenerateDraft`'s marshal, mkdir and write error returns are I/O failures and are not modelled.
- `internal/config/loader.go` and the backfill tool's `BackfillDraftGenerator` are configuration I/O and a second copy of the highlight code.
- `time.Sleep` between GitHub requests and between backfill weeks only paces the provider.
- Time zones, DST and the clock are not modelled. Every instant is in one fixed zone with whole seconds, and "now" is a parameter. `GenerateDraft` reads the clock twice (once for the draft, once for the articles page). The model uses one instant for both.
- `strings.ToLower` is modelled as ASCII lowercasing; full Unicode case folding is out.
- Go map iteration order is nondeterministic. `ExtractHighlights` picks names with `:|` and states only set and bound properties. Draft's source grouping is keyed by a `map` whose keys are then sorted, as in the source.
- `filepath.Join`'s lexical clean-up (collapsing "..", duplicate slashes) is not modelled; `PathJoin` only inserts one slash.
- `os.ReadDir` lists entries sorted by name. The model takes the listing as given and states that ordering as a precondition of `AiProcessor.LastMatchIsGreatest` only.
- `website/static/js/cookie-consent.js` is browser glue. `cmd/debug-heise`, `cmd/github-releases` and `cmd/release-crawler` are flag parsing and printing. The crawler only concatenates RSS, scrape and Hacker News results.
- The request for 100 releases per page is a request, not a guarantee. `GitHub.AtMostOnePage` needs a provider that honours it.
- `DraftMetadata` in `internal/models/newsletter.go` has no `Description` or `Keywords` fields, but `internal/ai/draft.go` sets both. The model follows `draft.go`.
- Draft.LinkedBodyFacts: does not claim the placeholders are absent afterwards. Removing one occurrence can join text around it into a new occurrence, as `strings.ReplaceAll` does.
- Draft.DateTextRoundTrip: stated for years 0 to 9999 only, where Go's four-digit year layout applies.
- Draft.WeekStemRoundTrip: stated for non-negative years and weeks below 100, the range an ISO week of a current instant falls in.
