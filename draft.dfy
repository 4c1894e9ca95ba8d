/** Draft assembly (internal/ai/draft.go): the summary, highlights, SEO
    description and keywords of the front matter, the articles page grouped
    by source, and the rewriting of the article link at the end of the
    generated newsletter body. */
module Draft {
  import opened Models
  import opened Text
  import opened Seqs
  import Calendar

  // ---------------------------------------------------------------------------
  // Major releases

  /** isMajorRelease: after one leading "v", the dot-separated parts are
      "X.0" or "X.0.0…" — the second part is "0" and a third part, if any, is "0". */
  predicate IsMajorRelease(tag: string)
  {
    var parts := Split(TrimPrefix(tag, "v"), '.');
    |parts| >= 2 && parts[1] == "0" && (|parts| < 3 || parts[2] == "0")
  }

  /** The shapes of a major version: X.0, X.0.0 or X.0.0.Y, X free of dots. */
  ghost predicate MajorShape(t: string)
  {
    exists x: string, y: string :: MajorShapeWith(t, x, y)
  }

  predicate MajorShapeWith(t: string, x: string, y: string)
  {
    '.' !in x && (t == x + ".0" || t == x + ".0.0" || t == x + ".0.0." + y)
  }

  lemma JoinTwo(a: string, b: string, rest: seq<string>, sep: string)
    ensures Join([a, b] + rest, sep) == a + sep + Join([b] + rest, sep)
  {
    assert ([a, b] + rest)[1..] == [b] + rest;
  }

  lemma SplitTwo(a: string, b: string)
    requires '.' !in a && '.' !in b
    ensures Split(a + "." + b, '.') == [a, b]
  {
    SplitFirst(a, '.', b);
    SplitNoSeparator(b, '.');
  }

  lemma SplitThree(a: string, b: string, c: string)
    requires '.' !in a && '.' !in b
    ensures Split(a + "." + b + "." + c, '.') == [a, b] + Split(c, '.')
  {
    var bc := b + "." + c;
    assert a + "." + b + "." + c == a + "." + bc;
    SplitFirst(a, '.', bc);
    SplitFirst(b, '.', c);
    assert [a] + ([b] + Split(c, '.')) == [a, b] + Split(c, '.');
  }

  /** A tag isMajorRelease accepts has a major shape. */
  lemma MajorReleaseShape(tag: string)
    requires IsMajorRelease(tag)
    ensures MajorShape(TrimPrefix(tag, "v"))
  {
    var t := TrimPrefix(tag, "v");
    var parts := Split(t, '.');
    SplitJoin(t, '.');
    SplitPartsFree(t, '.');
    var x := parts[0];
    assert '.' !in x;
    assert parts == [x, "0"] + parts[2..];
    JoinTwo(x, "0", parts[2..], ".");
    var rest := Join(["0"] + parts[2..], ".");
    if |parts| == 2 {
      assert rest == "0";
      ShapeTwo(t, x, rest);
    } else {
      assert ["0"] + parts[2..] == ["0", "0"] + parts[3..];
      JoinTwo("0", "0", parts[3..], ".");
      var rest2 := Join(["0"] + parts[3..], ".");
      if |parts| == 3 {
        assert rest2 == "0";
        ShapeThree(t, x, rest, rest2);
      } else {
        var y := Join(parts[3..], ".");
        assert ["0"] + parts[3..] == ["0", parts[3]] + parts[4..];
        JoinTwo("0", parts[3], parts[4..], ".");
        assert [parts[3]] + parts[4..] == parts[3..];
        ShapeFour(t, x, rest, rest2, y);
      }
    }
  }

  lemma ShapeTwo(t: string, x: string, rest: string)
    requires '.' !in x && t == x + "." + rest && rest == "0"
    ensures MajorShapeWith(t, x, "")
  {
    assert t == x + ".0";
  }

  lemma ShapeThree(t: string, x: string, rest: string, rest2: string)
    requires '.' !in x && t == x + "." + rest && rest == "0" + "." + rest2 && rest2 == "0"
    ensures MajorShapeWith(t, x, "")
  {
    assert t == x + ".0.0";
  }

  lemma ShapeFour(t: string, x: string, rest: string, rest2: string, y: string)
    requires '.' !in x && t == x + "." + rest && rest == "0" + "." + rest2 && rest2 == "0" + "." + y
    ensures MajorShapeWith(t, x, y)
  {
    assert t == x + ".0.0." + y;
  }

  /** Every major shape is accepted by isMajorRelease. */
  lemma ShapeIsMajorRelease(tag: string, x: string, y: string)
    requires '.' !in x
    requires var t := TrimPrefix(tag, "v"); t == x + ".0" || t == x + ".0.0" || t == x + ".0.0." + y
    ensures IsMajorRelease(tag)
  {
    var t := TrimPrefix(tag, "v");
    if t == x + ".0" {
      assert x + ".0" == x + "." + "0";
      TwoPartMajorIff(tag, x, "0");
    } else if t == x + ".0.0" {
      assert x + ".0.0" == x + "." + "0" + "." + "0";
      ThreePartMajorIff(tag, x, "0", "0");
    } else {
      assert x + ".0.0." + y == x + "." + "0" + "." + ("0" + "." + y);
      FourPartMajor(tag, x, y);
    }
  }

  /** x.0.0.y is a major release whatever y holds. */
  lemma FourPartMajor(tag: string, x: string, y: string)
    requires '.' !in x
    requires TrimPrefix(tag, "v") == x + "." + "0" + "." + ("0" + "." + y)
    ensures IsMajorRelease(tag)
  {
    SplitThree(x, "0", "0" + "." + y);
    SplitFirst("0", '.', y);
  }

  /** isMajorRelease holds exactly for the major shapes. */
  lemma IsMajorReleaseIff(tag: string)
    ensures IsMajorRelease(tag) <==> MajorShape(TrimPrefix(tag, "v"))
  {
    if IsMajorRelease(tag) {
      MajorReleaseShape(tag);
    }
    if MajorShape(TrimPrefix(tag, "v")) {
      var x: string, y: string :| MajorShapeWith(TrimPrefix(tag, "v"), x, y);
      ShapeIsMajorRelease(tag, x, y);
    }
  }

  /** A tag of two dot-free parts is a major release iff its second part is "0". */
  lemma TwoPartMajorIff(tag: string, a: string, b: string)
    requires '.' !in a && '.' !in b
    requires TrimPrefix(tag, "v") == a + "." + b
    ensures IsMajorRelease(tag) <==> b == "0"
  {
    SplitTwo(a, b);
  }

  /** A tag of three dot-free parts is a major release iff its second and third
      parts are "0". */
  lemma ThreePartMajorIff(tag: string, a: string, b: string, c: string)
    requires '.' !in a && '.' !in b && '.' !in c
    requires TrimPrefix(tag, "v") == a + "." + b + "." + c
    ensures IsMajorRelease(tag) <==> b == "0" && c == "0"
  {
    SplitThree(a, b, c);
    SplitNoSeparator(c, '.');
  }

  /** "v1.0.0" is a major release. */
  lemma ThreePartMajorExample()
    ensures IsMajorRelease("v1.0.0")
  {
    assert TrimPrefix("v1.0.0", "v") == "1" + "." + "0" + "." + "0";
    ThreePartMajorIff("v1.0.0", "1", "0", "0");
  }

  /** "v2.0" is a major release. */
  lemma TwoPartMajorExample()
    ensures IsMajorRelease("v2.0")
  {
    assert TrimPrefix("v2.0", "v") == "2" + "." + "0";
    TwoPartMajorIff("v2.0", "2", "0");
  }

  /** "v1.0.1" is not: a non-zero patch part. */
  lemma PatchReleaseExample()
    ensures !IsMajorRelease("v1.0.1")
  {
    assert TrimPrefix("v1.0.1", "v") == "1" + "." + "0" + "." + "1";
    ThreePartMajorIff("v1.0.1", "1", "0", "1");
  }

  /** "v1.2.0" is not: a non-zero minor part. */
  lemma MinorReleaseExample()
    ensures !IsMajorRelease("v1.2.0")
  {
    assert TrimPrefix("v1.2.0", "v") == "1" + "." + "2" + "." + "0";
    ThreePartMajorIff("v1.2.0", "1", "2", "0");
  }

  /** "v1.0.0-rc1" is not: its third part is "0-rc1". */
  lemma ReleaseCandidateExample()
    ensures !IsMajorRelease("v1.0.0-rc1")
  {
    assert TrimPrefix("v1.0.0-rc1", "v") == "1" + "." + "0" + "." + "0-rc1";
    ThreePartMajorIff("v1.0.0-rc1", "1", "0", "0-rc1");
  }

  /** "1" is not: it has one part only. */
  lemma SinglePartExample()
    ensures !IsMajorRelease("1")
  {
    assert "1"[..1][0] != "v"[0];
    SplitNoSeparator("1", '.');
  }

  /** min. */
  function Min(a: int, b: int): (r: int)
    ensures r <= a && r <= b && (r == a || r == b)
  {
    if a < b then a else b
  }

  // ---------------------------------------------------------------------------
  // Summary

  predicate IsMajor(r: Release)
  {
    IsMajorRelease(r.tagName)
  }

  /** "%s %s" of repository name and tag. */
  function MajorLabel(r: Release): string
  {
    r.repoName + " " + r.tagName
  }

  /** The labels of the major releases, in release order. */
  function MajorLabels(releases: seq<Release>): seq<string>
  {
    Map(Filter(releases, IsMajor), MajorLabel)
  }

  /** The major releases the summary names: the first three. */
  function Notable(releases: seq<Release>): seq<string>
  {
    var m := MajorLabels(releases);
    m[..Min(3, |m|)]
  }

  function SummaryText(releaseCount: int, newsCount: int, notable: seq<string>): string
  {
    "This week: " + Itoa(releaseCount) + " releases, " + Itoa(newsCount) + " news items." +
    (if notable == [] then "" else " Notable: " + Join(notable, ", ") + ".")
  }

  /** The loop of generateSummary that collects "repo tag" for each major release. */
  method CollectMajorReleases(releases: seq<Release>) returns (majorReleases: seq<string>)
    ensures majorReleases == MajorLabels(releases)
  {
    majorReleases := [];
    for i := 0 to |releases|
      invariant majorReleases == Map(Filter(releases[..i], IsMajor), MajorLabel)
    {
      FilterPrefix(releases, i, i + 1, IsMajor);
      MapSnoc(Filter(releases[..i], IsMajor), releases[i], MajorLabel);
      if IsMajor(releases[i]) {
        majorReleases := majorReleases + [MajorLabel(releases[i])];
      } else {
        assert Filter(releases[..i + 1], IsMajor) == Filter(releases[..i], IsMajor) + [];
      }
    }
    assert releases[..|releases|] == releases;
  }

  /** generateSummary: the release and news counts, then at most three major releases. */
  method GenerateSummary(nl: Newsletter) returns (summary: string)
    ensures summary == SummaryText(|nl.releases|, |nl.newsItems|, Notable(nl.releases))
  {
    var releaseCount := |nl.releases|;
    var newsCount := |nl.newsItems|;
    var majorReleases := CollectMajorReleases(nl.releases);

    summary := "This week: " + Itoa(releaseCount) + " releases, " + Itoa(newsCount) + " news items.";
    if |majorReleases| > 0 {
      summary := summary + (" Notable: " + Join(majorReleases[..Min(3, |majorReleases|)], ", ") + ".");
    } else {
      assert summary == summary + "";
    }
  }

  /** The summary names min(3, #major) releases, each a major release of the
      newsletter, in release order. */
  lemma NotableFacts(releases: seq<Release>)
    ensures |Notable(releases)| == Min(3, |Filter(releases, IsMajor)|)
    ensures forall k | 0 <= k < |Notable(releases)| ::
      exists i :: 0 <= i < |releases| && IsMajorRelease(releases[i].tagName) && Notable(releases)[k] == MajorLabel(releases[i])
    ensures IsSubsequence(Notable(releases), Map(releases, MajorLabel))
  {
    var m := MajorLabels(releases);
    var f := Filter(releases, IsMajor);
    forall k | 0 <= k < |Notable(releases)|
      ensures exists i :: 0 <= i < |releases| && IsMajorRelease(releases[i].tagName) && Notable(releases)[k] == MajorLabel(releases[i])
    {
      assert Notable(releases)[k] == MajorLabel(f[k]);
      assert f[k] in f;
      var i :| 0 <= i < |releases| && releases[i] == f[k];
    }
    PrefixSubsequence(m, Min(3, |m|));
    MapFilterSubsequence(releases, IsMajor, MajorLabel);
    SubsequenceTrans(Notable(releases), m, Map(releases, MajorLabel));
  }

  /** Without a major release the summary is the counts sentence alone. */
  lemma SummaryWithoutMajors(releases: seq<Release>, newsCount: int)
    requires forall r | r in releases :: !IsMajorRelease(r.tagName)
    ensures SummaryText(|releases|, newsCount, Notable(releases)) ==
      "This week: " + Itoa(|releases|) + " releases, " + Itoa(newsCount) + " news items."
  {
    FilterNone(releases, IsMajor);
  }

  // ---------------------------------------------------------------------------
  // Highlights, SEO description and keywords

  function RepoNames(releases: seq<Release>): set<string>
  {
    set r | r in releases :: r.repoName
  }

  /** A highlight list: distinct repository names of the releases, as many as
      the limit allows. Which names is left to Go's map order. */
  predicate IsHighlightSelection(hs: seq<string>, releases: seq<Release>, limit: int)
  {
    Distinct(hs) && (forall h | h in hs :: h in RepoNames(releases)) &&
    |hs| == Min(limit, |RepoNames(releases)|)
  }

  /** extractHighlights: the repository names go into a set, then at most five
      of them are taken in the set's (unspecified) iteration order. */
  method ExtractHighlights(releases: seq<Release>) returns (result: seq<string>)
    ensures IsHighlightSelection(result, releases, 5)
  {
    var highlights: set<string> := {};
    for i := 0 to |releases|
      invariant highlights == RepoNames(releases[..i])
    {
      assert releases[..i + 1] == releases[..i] + [releases[i]];
      highlights := highlights + {releases[i].repoName};
    }
    assert releases[..|releases|] == releases;

    result := [];
    var remaining := highlights;
    while remaining != {}
      invariant remaining <= highlights
      invariant Distinct(result)
      invariant forall h | h in result :: h in highlights && h !in remaining
      invariant |result| + |remaining| == |highlights|
      invariant |result| < 5
      decreases remaining
    {
      var name :| name in remaining;
      result := result + [name];
      assert remaining == (remaining - {name}) + {name};
      remaining := remaining - {name};
      if |result| >= 5 {
        break;
      }
    }
  }

  function SeoDescription(week: int, year: int, highlights: seq<string>): string
  {
    "Cloud Native Newsletter Week " + Itoa(week) + " " + Itoa(year) + ": " +
    Join(highlights, ", ") + " and more Kubernetes ecosystem news."
  }

  /** generateSEODescription: names at most four highlights. */
  method GenerateSeoDescription(nl: Newsletter, week: int, year: int) returns (r: string)
    ensures exists used :: IsHighlightSelection(used, nl.releases, 4) && r == SeoDescription(week, year, used)
  {
    var highlights := ExtractHighlights(nl.releases);
    var highlightStr := "";
    ghost var used: seq<string> := [];
    if |highlights| > 0 {
      var maxHighlights := Min(4, |highlights|);
      used := highlights[..maxHighlights];
      highlightStr := Join(highlights[..maxHighlights], ", ");
    }
    r := "Cloud Native Newsletter Week " + Itoa(week) + " " + Itoa(year) + ": " + highlightStr +
      " and more Kubernetes ecosystem news.";
    assert forall h | h in used :: h in highlights;
    assert IsHighlightSelection(used, nl.releases, 4);
  }

  const FixedKeywords: seq<string> := ["Cloud Native Newsletter", "Kubernetes Releases", "CNCF Projects"]

  /** generateKeywords: the three fixed keywords, then the highlights. */
  method GenerateKeywords(nl: Newsletter) returns (keywords: seq<string>)
    ensures exists hs :: IsHighlightSelection(hs, nl.releases, 5) && keywords == FixedKeywords + hs
  {
    keywords := FixedKeywords;
    var highlights := ExtractHighlights(nl.releases);
    for i := 0 to |highlights|
      invariant keywords == FixedKeywords + highlights[..i]
    {
      assert highlights[..i + 1] == highlights[..i] + [highlights[i]];
      keywords := keywords + [highlights[i]];
    }
    assert highlights[..|highlights|] == highlights;
  }

  /** Whatever the map order, the keywords start with the fixed three and number
      between three and eight. */
  lemma KeywordsBounds(hs: seq<string>, releases: seq<Release>)
    requires IsHighlightSelection(hs, releases, 5)
    ensures 3 <= |FixedKeywords + hs| <= 8
    ensures (FixedKeywords + hs)[..3] == FixedKeywords
    ensures forall k | 3 <= k < |FixedKeywords + hs| :: (FixedKeywords + hs)[k] in RepoNames(releases)
  {
    forall k | 3 <= k < |FixedKeywords + hs| ensures (FixedKeywords + hs)[k] in RepoNames(releases) {
      assert (FixedKeywords + hs)[k] == hs[k - 3];
      assert hs[k - 3] in hs;
    }
  }

  // ---------------------------------------------------------------------------
  // File names and dates

  /** "%d-week-%02d". */
  function WeekStem(year: int, week: int): string
  {
    Itoa(year) + "-week-" + Pad2(week)
  }

  function DraftFilename(year: int, week: int): string
  {
    WeekStem(year, week) + ".md"
  }

  function ArticlesFilename(year: int, week: int): string
  {
    WeekStem(year, week) + "-articles.md"
  }

  function ArticlesUrl(year: int, week: int): string
  {
    "/newsletter/" + WeekStem(year, week) + "/articles/"
  }

  /** The stem reads back as its year and its two-digit week. */
  lemma WeekStemRoundTrip(year: nat, week: int)
    requires 0 <= week < 100
    ensures var s := WeekStem(year, week);
      var n := |s| - 8;
      0 <= n && (forall k | 0 <= k < n :: IsDigit(s[k])) && DigitsValue(s[..n]) == year &&
      s[n..n + 6] == "-week-" &&
      (forall k | n + 6 <= k < |s| :: IsDigit(s[k])) && DigitsValue(s[n + 6..]) == week
  {
    var s := WeekStem(year, week);
    Pad2RoundTrip(week);
    NatToStringRoundTrip(year);
    var n := |Itoa(year)|;
    assert s[..n] == Itoa(year);
    assert s[n..n + 6] == "-week-";
    assert s[n + 6..] == Pad2(week);
  }

  /** The draft and its articles page share the stem. */
  lemma FilenamesShareStem(year: int, week: int)
    ensures HasPrefix(DraftFilename(year, week), WeekStem(year, week))
    ensures HasPrefix(ArticlesFilename(year, week), WeekStem(year, week))
    ensures DraftFilename(year, week) != ArticlesFilename(year, week)
  {
    var n := |WeekStem(year, week)|;
    assert DraftFilename(year, week)[..n] == WeekStem(year, week);
    assert ArticlesFilename(year, week)[..n] == WeekStem(year, week);
    assert |DraftFilename(year, week)| != |ArticlesFilename(year, week)|;
  }

  const MonthNames: seq<string> := ["January", "February", "March", "April", "May", "June",
    "July", "August", "September", "October", "November", "December"]

  /** s with zeros in front up to width w. */
  function ZeroPad(s: string, w: int): (r: string)
    ensures |r| == if |s| >= w then |s| else w
    decreases w - |s|
  {
    if |s| >= w then s else ZeroPad("0" + s, w)
  }

  /** The "2006" layout: the year padded with zeros to four digits. */
  function FormatYear(y: int): string
  {
    if y < 0 then "-" + ZeroPad(NatToString(-y), 4) else ZeroPad(NatToString(y), 4)
  }

  /** The "January 2006" layout. */
  function MonthYear(t: Instant): string
  {
    var d := Calendar.CivilFromDays(Calendar.DayOf(t));
    MonthNames[d.month - 1] + " " + FormatYear(d.year)
  }

  /** The "2006-01-02" layout. */
  function DateText(t: Instant): string
  {
    var d := Calendar.CivilFromDays(Calendar.DayOf(t));
    FormatYear(d.year) + "-" + Pad2(d.month) + "-" + Pad2(d.day)
  }

  lemma {:induction false} DigitsValueLeadingZero(s: string)
    requires forall k | 0 <= k < |s| :: IsDigit(s[k])
    ensures forall k | 0 <= k < |"0" + s| :: IsDigit(("0" + s)[k])
    ensures DigitsValue("0" + s) == DigitsValue(s)
    decreases |s|
  {
    if s != [] {
      var n := |s| - 1;
      DigitsValueLeadingZero(s[..n]);
      assert ("0" + s)[..|s|] == "0" + s[..n];
    }
  }

  lemma {:induction false} ZeroPadValue(s: string, w: int)
    requires forall k | 0 <= k < |s| :: IsDigit(s[k])
    ensures forall k | 0 <= k < |ZeroPad(s, w)| :: IsDigit(ZeroPad(s, w)[k])
    ensures DigitsValue(ZeroPad(s, w)) == DigitsValue(s)
    decreases w - |s|
  {
    if |s| < w {
      DigitsValueLeadingZero(s);
      ZeroPadValue("0" + s, w);
    }
  }

  /** s is w decimal digits that read as v. */
  predicate DigitField(s: string, v: int, w: int)
  {
    |s| == w && (forall k | 0 <= k < |s| :: IsDigit(s[k])) && DigitsValue(s) == v
  }

  /** For years 0–9999 the date text is ten characters that read back as the
      civil date of the instant. */
  lemma DateTextRoundTrip(t: Instant)
    requires 0 <= Calendar.CivilFromDays(Calendar.DayOf(t)).year <= 9999
    ensures var s := DateText(t);
      var d := Calendar.CivilFromDays(Calendar.DayOf(t));
      |s| == 10 && s[4] == '-' && s[7] == '-' &&
      (forall k | 0 <= k < 4 :: IsDigit(s[k])) && DigitsValue(s[..4]) == d.year &&
      (forall k | 5 <= k < 7 :: IsDigit(s[k])) && DigitsValue(s[5..7]) == d.month &&
      (forall k | 8 <= k < 10 :: IsDigit(s[k])) && DigitsValue(s[8..]) == d.day
  {
    var d := Calendar.CivilFromDays(Calendar.DayOf(t));
    YearField(d.year);
    Pad2RoundTrip(d.month);
    Pad2RoundTrip(d.day);
    DateFields(FormatYear(d.year), Pad2(d.month), Pad2(d.day), d.year, d.month, d.day);
  }

  /** A year 0–9999 is formatted as four digits that read back as the year. */
  lemma YearField(year: int)
    requires 0 <= year <= 9999
    ensures DigitField(FormatYear(year), year, 4)
  {
    NatToStringRoundTrip(year);
    NatToStringLength(year);
    ZeroPadValue(NatToString(year), 4);
  }

  /** The three fields of "2006-01-02" are found back at their offsets. */
  lemma DateFields(y: string, m: string, dd: string, yv: int, mv: int, dv: int)
    requires DigitField(y, yv, 4) && DigitField(m, mv, 2) && DigitField(dd, dv, 2)
    ensures var s := y + "-" + m + "-" + dd;
      |s| == 10 && s[4] == '-' && s[7] == '-' &&
      (forall k | 0 <= k < 4 :: IsDigit(s[k])) && DigitsValue(s[..4]) == yv &&
      (forall k | 5 <= k < 7 :: IsDigit(s[k])) && DigitsValue(s[5..7]) == mv &&
      (forall k | 8 <= k < 10 :: IsDigit(s[k])) && DigitsValue(s[8..]) == dv
  {
    var s := y + "-" + m + "-" + dd;
    assert s[..4] == y;
    assert s[5..7] == m;
    assert s[8..] == dd;
  }

  lemma {:induction false} NatToStringLength(n: nat)
    ensures n < 10 ==> |NatToString(n)| <= 1
    ensures n < 100 ==> |NatToString(n)| <= 2
    ensures n < 1000 ==> |NatToString(n)| <= 3
    ensures n < 10000 ==> |NatToString(n)| <= 4
    decreases n
  {
    if n >= 10 { NatToStringLength(n / 10); }
  }

  // ---------------------------------------------------------------------------
  // The articles page

  const Books := "\U{F0}\U{9F}\U{93}\U{9A}"
  const RightArrow := "\U{E2}\U{86}\U{92}"
  const LeftArrow := "\U{E2}\U{86}\U{90}"

  function FromSource(source: string): NewsItem -> bool
  {
    (item: NewsItem) => item.source == source
  }

  /** The items of one source, in input order. */
  function ItemsOf(items: seq<NewsItem>, source: string): seq<NewsItem>
  {
    Filter(items, FromSource(source))
  }

  function SourcesOf(items: seq<NewsItem>): set<string>
  {
    set x | x in items :: x.source
  }

  /** An empty title renders as "Untitled". */
  function DisplayTitle(item: NewsItem): (t: string)
    ensures t != ""
    ensures item.title != "" ==> t == item.title
    ensures item.title == "" ==> t == "Untitled"
  {
    if item.title == "" then "Untitled" else item.title
  }

  function ItemLine(item: NewsItem): string
  {
    "- [" + DisplayTitle(item) + "](" + item.url + ")\n"
  }

  function ItemLines(items: seq<NewsItem>): string
    decreases |items|
  {
    if items == [] then "" else ItemLines(items[..|items| - 1]) + ItemLine(items[|items| - 1])
  }

  /** "## source (n)", a blank line, one line per item, a blank line. */
  function Section(source: string, items: seq<NewsItem>): string
  {
    "## " + source + " (" + Itoa(|items|) + ")\n\n" + ItemLines(items) + "\n"
  }

  function Sections(items: seq<NewsItem>, sources: seq<string>): string
    decreases |sources|
  {
    if sources == [] then ""
    else
      var s := sources[|sources| - 1];
      Sections(items, sources[..|sources| - 1]) + Section(s, ItemsOf(items, s))
  }

  function ArticlesHeader(year: int, week: int, now: Instant): string
  {
    "---\ntitle: \"Week " + Itoa(week) + " Articles - " + MonthYear(now) + "\"\n" +
    "date: \"" + DateText(now) + "\"\n" +
    "draft: false\n" +
    "url: \"" + ArticlesUrl(year, week) + "\"\n" +
    "build:\n  list: never\n  publishResources: true\n  render: always\n" +
    "outputs:\n  - html\n---\n\n" +
    "# " + Books + " All Articles from Week " + Itoa(week) + "\n\n" +
    "A complete list of all cloud native articles and news from this week.\n\n"
  }

  function ArticlesFooter(year: int, week: int): string
  {
    "\n---\n\n[" + LeftArrow + " Back to Newsletter](/" + WeekStem(year, week) + "/)\n"
  }

  /** sources lists every source of the items once, in ascending order. */
  predicate ListsSources(sources: seq<string>, items: seq<NewsItem>)
  {
    StrictlySorted(sources) &&
    (forall s | s in sources :: s in SourcesOf(items)) &&
    (forall x | x in items :: x.source in sources)
  }

  function ArticlesPage(items: seq<NewsItem>, sources: seq<string>, year: int, week: int, now: Instant): string
  {
    ArticlesHeader(year, week, now) + Sections(items, sources) + ArticlesFooter(year, week)
  }

  lemma ItemsOfSnoc(items: seq<NewsItem>, x: NewsItem, s: string)
    ensures ItemsOf(items + [x], s) == ItemsOf(items, s) + (if x.source == s then [x] else [])
  {
    FilterSnoc(items, x, FromSource(s));
  }

  lemma ItemsOfAbsent(items: seq<NewsItem>, s: string)
    requires s !in SourcesOf(items)
    ensures ItemsOf(items, s) == []
  {
    FilterNone(items, FromSource(s));
  }

  lemma SourcesOfSnoc(items: seq<NewsItem>, x: NewsItem)
    ensures SourcesOf(items + [x]) == SourcesOf(items) + {x.source}
  {
    var s := items + [x];
    forall src | src in SourcesOf(s) ensures src in SourcesOf(items) + {x.source} {
      var y :| y in s && y.source == src;
    }
    forall src | src in SourcesOf(items) ensures src in SourcesOf(s) {
      var y :| y in items && y.source == src;
      assert y in s;
    }
  }

  /** The grouping loop of generateArticlesPage: newsBySource[source] gathers the
      items of each source in input order. */
  method GroupBySource(items: seq<NewsItem>) returns (newsBySource: map<string, seq<NewsItem>>)
    ensures forall s :: s in newsBySource <==> s in SourcesOf(items)
    ensures forall s | s in newsBySource :: newsBySource[s] == ItemsOf(items, s)
  {
    newsBySource := map[];
    for i := 0 to |items|
      invariant forall s :: s in newsBySource <==> s in SourcesOf(items[..i])
      invariant forall s | s in newsBySource :: newsBySource[s] == ItemsOf(items[..i], s)
    {
      var item := items[i];
      assert items[..i + 1] == items[..i] + [item];
      SourcesOfSnoc(items[..i], item);
      if item.source !in newsBySource {
        ItemsOfAbsent(items[..i], item.source);
      }
      var group := if item.source in newsBySource then newsBySource[item.source] else [];
      forall s ensures ItemsOf(items[..i + 1], s) == ItemsOf(items[..i], s) + (if item.source == s then [item] else []) {
        ItemsOfSnoc(items[..i], item, s);
      }
      newsBySource := newsBySource[item.source := group + [item]];
    }
    assert items[..|items|] == items;
  }

  /** The keys of a map, listed in its (unspecified) iteration order, then sorted. */
  method SortedKeys(m: map<string, seq<NewsItem>>) returns (sources: seq<string>)
    ensures StrictlySorted(sources)
    ensures forall s :: s in sources <==> s in m
  {
    var keys: seq<string> := [];
    var remaining := m.Keys;
    while remaining != {}
      invariant remaining <= m.Keys
      invariant forall s :: s in keys <==> s in m && s !in remaining
      invariant Distinct(keys)
      decreases remaining
    {
      var s :| s in remaining;
      keys := keys + [s];
      remaining := remaining - {s};
    }
    sources := SortStrings(keys);
    forall s ensures s in sources <==> s in keys {
      assert s in sources <==> s in multiset(sources);
      assert s in keys <==> s in multiset(keys);
    }
  }

  /** One section: the header line with the count, then one line per item. */
  method WriteSection(source: string, sectionItems: seq<NewsItem>) returns (text: string)
    ensures text == Section(source, sectionItems)
  {
    text := "## " + source + " (" + Itoa(|sectionItems|) + ")\n\n";
    ghost var start := text;
    var j := 0;
    while j < |sectionItems|
      invariant 0 <= j <= |sectionItems|
      invariant text == start + ItemLines(sectionItems[..j])
    {
      var item := sectionItems[j];
      var title := item.title;
      if title == "" {
        title := "Untitled";
      }
      var line := "- [" + title + "](" + item.url + ")\n";
      var next := j + 1;
      ItemLinesNext(sectionItems, j, next, start, text, line);
      text := text + line;
      j := next;
    }
    assert sectionItems[..|sectionItems|] == sectionItems;
    text := text + "\n";
  }

  /** The section loop of generateArticlesPage: one section per source, in
      the order given, each listing that source's group. */
  method WriteSections(items: seq<NewsItem>, newsBySource: map<string, seq<NewsItem>>, sources: seq<string>)
    returns (body: string)
    requires forall s | s in sources :: s in newsBySource && newsBySource[s] == ItemsOf(items, s)
    ensures body == Sections(items, sources)
  {
    body := "";
    var k := 0;
    while k < |sources|
      invariant 0 <= k <= |sources|
      invariant body == Sections(items, sources[..k])
    {
      var source := sources[k];
      var section := WriteSection(source, newsBySource[source]);
      var next := k + 1;
      SectionsNext(items, sources, k, next, body, section);
      body := body + section;
      k := next;
    }
    assert sources[..|sources|] == sources;
  }

  /** generateArticlesPage: items grouped by source in a map, the map's keys
      collected and sorted, then one section per source. */
  method GenerateArticlesPage(nl: Newsletter, year: int, week: int, now: Instant)
    returns (filename: string, content: string)
    ensures filename == ArticlesFilename(year, week)
    ensures exists sources :: (ListsSources(sources, nl.newsItems) &&
      content == ArticlesPage(nl.newsItems, sources, year, week, now))
  {
    filename := ArticlesFilename(year, week);
    var items := nl.newsItems;
    var newsBySource := GroupBySource(items);
    var sources := SortedKeys(newsBySource);
    assert ListsSources(sources, items);
    var body := WriteSections(items, newsBySource, sources);
    content := ArticlesHeader(year, week, now) + body + ArticlesFooter(year, week);
    assert content == ArticlesPage(items, sources, year, week, now);
  }

  /** Appending the next item's line keeps the written text equal to the
      header followed by the lines of the items so far. */
  lemma ItemLinesNext(items: seq<NewsItem>, j: int, next: int, start: string, text: string, line: string)
    requires 0 <= j < |items| && next == j + 1
    requires text == start + ItemLines(items[..j]) && line == ItemLine(items[j])
    ensures text + line == start + ItemLines(items[..next])
  {
    var lines := ItemLines(items[..j]);
    assert items[..next][..j] == items[..j];
    assert ItemLines(items[..next]) == lines + line;
    AppendAssoc(start, lines, line);
  }

  /** Appending the next source's section keeps the body equal to the
      sections of the sources so far. */
  lemma SectionsNext(items: seq<NewsItem>, sources: seq<string>, k: int, next: int, body: string, section: string)
    requires 0 <= k < |sources| && next == k + 1
    requires body == Sections(items, sources[..k]) && section == Section(sources[k], ItemsOf(items, sources[k]))
    ensures body + section == Sections(items, sources[..next])
  {
    assert sources[..next][..k] == sources[..k];
  }

  /** The source order does not depend on the map's iteration order: there is
      only one ascending list of the sources. */
  lemma ListsSourcesUnique(a: seq<string>, b: seq<string>, items: seq<NewsItem>)
    requires ListsSources(a, items) && ListsSources(b, items)
    ensures a == b
  {
    forall s ensures s in a <==> s in b {
      if s in a { assert s in SourcesOf(items); }
      if s in b { assert s in SourcesOf(items); }
    }
    StrictlySortedUnique(a, b);
  }

  /** Every item lands in exactly one section, the one of its own source, and a
      section keeps its items in input order. */
  lemma EachItemInOneSection(items: seq<NewsItem>, sources: seq<string>, x: NewsItem)
    requires ListsSources(sources, items) && x in items
    ensures exists k :: (0 <= k < |sources| && sources[k] == x.source && x in ItemsOf(items, sources[k]) &&
      forall k' | 0 <= k' < |sources| && x in ItemsOf(items, sources[k']) :: k' == k)
    ensures IsSubsequence(ItemsOf(items, x.source), items)
  {
    var k :| 0 <= k < |sources| && sources[k] == x.source;
    forall k' | 0 <= k' < |sources| && x in ItemsOf(items, sources[k']) ensures k' == k {
      StrLessIrreflexive(sources[k]);
    }
    FilterSubsequence(items, FromSource(x.source));
  }

  /** The item counts of the section headers. */
  function Counts(items: seq<NewsItem>, sources: seq<string>): int
    decreases |sources|
  {
    if sources == [] then 0
    else Counts(items, sources[..|sources| - 1]) + |ItemsOf(items, sources[|sources| - 1])|
  }

  lemma {:induction false} CountsSnoc(items: seq<NewsItem>, x: NewsItem, sources: seq<string>)
    requires Distinct(sources)
    ensures Counts(items + [x], sources) == Counts(items, sources) + (if x.source in sources then 1 else 0)
    decreases |sources|
  {
    if sources != [] {
      var n := |sources| - 1;
      var init := sources[..n];
      CountsSnoc(items, x, init);
      ItemsOfSnoc(items, x, sources[n]);
      assert sources == init + [sources[n]];
      assert x.source in sources <==> x.source in init || x.source == sources[n];
      assert sources[n] !in init;
    }
  }

  /** The section counts add up to the number of items. */
  lemma {:induction false} CountsTotal(items: seq<NewsItem>, sources: seq<string>)
    requires Distinct(sources)
    requires forall x | x in items :: x.source in sources
    ensures Counts(items, sources) == |items|
    decreases |items|
  {
    if items == [] {
      CountsEmpty(sources);
    } else {
      var n := |items| - 1;
      CountsTotal(items[..n], sources);
      CountsSnoc(items[..n], items[n], sources);
      AppendLast(items);
    }
  }

  lemma {:induction false} CountsEmpty(sources: seq<string>)
    ensures Counts([], sources) == 0
    decreases |sources|
  {
    if sources != [] { CountsEmpty(sources[..|sources| - 1]); }
  }

  /** On the articles page the counts of the section headers add up to the
      number of news items. */
  lemma SectionCountsTotal(items: seq<NewsItem>, sources: seq<string>)
    requires ListsSources(sources, items)
    ensures Counts(items, sources) == |items|
  {
    forall i, j | 0 <= i < j < |sources| ensures sources[i] != sources[j] {
      StrLessIrreflexive(sources[i]);
    }
    CountsTotal(items, sources);
  }

  // ---------------------------------------------------------------------------
  // The article link and the draft

  const ArticlesPlaceholder := Books + " **[View all articles from this week " + RightArrow + "](articles/)**"
  const WeekPlaceholder := Books + " **[View all articles from this week " + RightArrow + "](2026-week-XX/)**"
  const TrailingCutset := "\n\r\t "

  function ArticlesLink(year: int, week: int): string
  {
    "\n\n" + Books + " **[View all articles from this week " + RightArrow + "](" + ArticlesUrl(year, week) + ")**\n"
  }

  /** The body before the link: both placeholders replaced by nothing, trailing
      white space trimmed. */
  function LinkedBody(content: string): string
  {
    TrimRight(ReplaceAll(ReplaceAll(content, ArticlesPlaceholder, ""), WeekPlaceholder, ""), TrailingCutset)
  }

  /** The link rewriting of GenerateDraft, step by step. */
  method LinkArticles(content: string, year: int, week: int) returns (r: string)
    ensures r == LinkedBody(content) + ArticlesLink(year, week)
  {
    r := content;
    r := ReplaceAll(r, ArticlesPlaceholder, "");
    r := ReplaceAll(r, WeekPlaceholder, "");
    r := TrimRight(r, TrailingCutset);
    var articlesUrl := ArticlesUrl(year, week);
    r := r + ("\n\n" + Books + " **[View all articles from this week " + RightArrow + "](" + articlesUrl + ")**\n");
  }

  /** The body before the link never ends in white space; when the generated
      content holds no placeholder, the body is that content with its trailing
      white space cut off. */
  lemma LinkedBodyFacts(content: string)
    ensures var b := LinkedBody(content); b == [] || b[|b| - 1] !in TrailingCutset
    ensures !Contains(content, ArticlesPlaceholder) && !Contains(content, WeekPlaceholder) ==>
      var b := LinkedBody(content);
      HasPrefix(content, b) && forall k | |b| <= k < |content| :: content[k] in TrailingCutset
  {
    if !Contains(content, ArticlesPlaceholder) && !Contains(content, WeekPlaceholder) {
      ReplaceAllAbsent(content, ArticlesPlaceholder, "");
      ReplaceAllAbsent(content, WeekPlaceholder, "");
    }
  }

  /** The front matter fields GenerateDraft sets. */
  datatype DraftMetadata = DraftMetadata(
    title: string,
    date: string,
    draft: bool,
    summary: string,
    description: string,
    keywords: seq<string>,
    highlights: seq<string>)

  /** GenerateDraft: the ISO week of now names the files and the link; the front
      matter and body are returned instead of written. */
  method GenerateDraft(nl: Newsletter, now: Instant)
    returns (filename: string, metadata: DraftMetadata, body: string, articlesFilename: string, articles: string)
    ensures var (year, week) := Calendar.IsoWeekOf(now);
      filename == DraftFilename(year, week) &&
      metadata.title == "Week " + Itoa(week) + " - " + MonthYear(now) &&
      metadata.date == DateText(now) && !metadata.draft &&
      metadata.summary == SummaryText(|nl.releases|, |nl.newsItems|, Notable(nl.releases)) &&
      (exists used :: IsHighlightSelection(used, nl.releases, 4) &&
        metadata.description == SeoDescription(week, year, used)) &&
      (exists hs :: IsHighlightSelection(hs, nl.releases, 5) && metadata.keywords == FixedKeywords + hs) &&
      IsHighlightSelection(metadata.highlights, nl.releases, 5) &&
      body == LinkedBody(nl.content) + ArticlesLink(year, week) &&
      articlesFilename == ArticlesFilename(year, week) &&
      exists sources :: (ListsSources(sources, nl.newsItems) &&
        articles == ArticlesPage(nl.newsItems, sources, year, week, now))
  {
    var (year, week) := Calendar.IsoWeekOf(now);
    var title := "Week " + Itoa(week) + " - " + MonthYear(now);
    filename := DraftFilename(year, week);
    var summary := GenerateSummary(nl);
    var description := GenerateSeoDescription(nl, week, year);
    var keywords := GenerateKeywords(nl);
    var highlights := ExtractHighlights(nl.releases);
    metadata := DraftMetadata(title, DateText(now), false, summary, description, keywords, highlights);
    body := LinkArticles(nl.content, year, week);
    articlesFilename, articles := GenerateArticlesPage(nl, year, week, now);
  }
}
