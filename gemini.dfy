/** The release-tag rules of the AI layer (internal/ai/gemini.go): which tags
    name pre-releases, the stable-release filter, the news selection of the
    LinkedIn prompt, and text truncation (Text.Truncate). */
module Gemini {
  import opened Models
  import opened Text
  import opened Seqs

  /** Substrings that mark a pre-release wherever they occur in the lower-cased tag. */
  const PreReleaseIndicators: seq<string> := [
    "-rc", "-alpha", "-beta", "-test", "-dev", "-preview", "-pre",
    "-next", "-canary", "-nightly", "-snapshot",
    "alpha.", "beta.", "test.", "dev.", "preview.",
    "edge-"]

  /** Words that mark a pre-release when a '.' or '-' precedes them. */
  const SuffixPatterns: seq<string> := ["rc", "alpha", "beta", "test", "dev", "preview", "pre", "next"]

  /** Some needle of the list is a substring of s. */
  predicate ContainsAnyOf(s: string, needles: seq<string>)
    decreases |needles|
  {
    needles != [] && (Contains(s, needles[0]) || ContainsAnyOf(s, needles[1..]))
  }

  /** "." + p or "-" + p is a substring of s for some pattern p of the list. */
  predicate ContainsSeparatedOf(s: string, patterns: seq<string>)
    decreases |patterns|
  {
    patterns != [] &&
    (Contains(s, "." + patterns[0]) || Contains(s, "-" + patterns[0]) || ContainsSeparatedOf(s, patterns[1..]))
  }

  lemma {:induction false} ContainsAnyOfIff(s: string, needles: seq<string>)
    ensures ContainsAnyOf(s, needles) <==> exists k :: 0 <= k < |needles| && Contains(s, needles[k])
    decreases |needles|
  {
    if needles != [] {
      ContainsAnyOfIff(s, needles[1..]);
      if exists k :: 0 <= k < |needles| && Contains(s, needles[k]) {
        var k :| 0 <= k < |needles| && Contains(s, needles[k]);
        if k > 0 { assert needles[1..][k - 1] == needles[k]; }
      }
    }
  }

  lemma {:induction false} ContainsSeparatedOfIff(s: string, patterns: seq<string>)
    ensures ContainsSeparatedOf(s, patterns) <==>
      exists k :: 0 <= k < |patterns| && (Contains(s, "." + patterns[k]) || Contains(s, "-" + patterns[k]))
    decreases |patterns|
  {
    if patterns != [] {
      ContainsSeparatedOfIff(s, patterns[1..]);
      if exists k :: 0 <= k < |patterns| && (Contains(s, "." + patterns[k]) || Contains(s, "-" + patterns[k])) {
        var k :| 0 <= k < |patterns| && (Contains(s, "." + patterns[k]) || Contains(s, "-" + patterns[k]));
        if k > 0 { assert patterns[1..][k - 1] == patterns[k]; }
      }
    }
  }

  /** isPreRelease: the tag, lower-cased, holds one of the indicators or a
      separator followed by one of the suffix patterns. */
  predicate IsPreRelease(tag: string)
  {
    var t := Lower(tag);
    ContainsAnyOf(t, PreReleaseIndicators) || ContainsSeparatedOf(t, SuffixPatterns)
  }

  /** The declarative reading of the two rules. */
  lemma IsPreReleaseIff(tag: string)
    ensures IsPreRelease(tag) <==>
      (exists k :: 0 <= k < |PreReleaseIndicators| && Contains(Lower(tag), PreReleaseIndicators[k])) ||
      (exists k :: 0 <= k < |SuffixPatterns| &&
        (Contains(Lower(tag), "." + SuffixPatterns[k]) || Contains(Lower(tag), "-" + SuffixPatterns[k])))
  {
    ContainsAnyOfIff(Lower(tag), PreReleaseIndicators);
    ContainsSeparatedOfIff(Lower(tag), SuffixPatterns);
  }

  /** The classification ignores letter case. */
  lemma IsPreReleaseCaseInsensitive(tag: string)
    ensures IsPreRelease(tag) == IsPreRelease(Lower(tag))
  {
    LowerIdempotent(tag);
  }

  // ---------------------------------------------------------------------------
  // Concrete tags

  /** An indicator anywhere in the tag: "-rc" in v1.2.0-rc.1. */
  lemma ReleaseCandidateIsPreRelease()
    ensures IsPreRelease("v1.2.0-rc.1")
  {
    assert Contains(Lower("v1.2.0-rc.1"), "-rc");
  }

  /** Linkerd's edge releases: "edge-" in v2.0.0-edge-20240101. */
  lemma EdgeIsPreRelease()
    ensures IsPreRelease("v2.0.0-edge-20240101")
  {
    var t := Lower("v2.0.0-edge-20240101");
    assert t == "v2.0.0-edge-20240101";
    assert t[7..12] == [t[7], t[8], t[9], t[10], t[11]];
    ContainsWitness(t, "edge-", 7);
    assert PreReleaseIndicators[16] == "edge-";
    IsPreReleaseIff("v2.0.0-edge-20240101");
  }

  /** The separator rule is not limited to the end of the tag: ".dev" in v1.2.0.dev3. */
  lemma DotDevIsPreRelease()
    ensures IsPreRelease("v1.2.0.dev3")
  {
    var t := Lower("v1.2.0.dev3");
    assert t == "v1.2.0.dev3";
    assert t[6..10] == ".dev";
    ContainsWitness(t, ".dev", 6);
    assert "." + SuffixPatterns[4] == ".dev";
    IsPreReleaseIff("v1.2.0.dev3");
  }

  /** Upper-case tags are classified like their lower-case form. */
  lemma UpperCaseIsPreRelease()
    ensures IsPreRelease("V3.1.0-RC2")
  {
    assert Lower("V3.1.0-RC2") == "v3.1.0-rc2";
    assert Contains("v3.1.0-rc2", "-rc");
  }

  /** Position j of needle n holds a '-', a non-digit before a '.', or a '.' before a
      non-digit: bytes or pairs that a plain dotted version number never holds. */
  predicate Blocks(n: string, j: nat)
  {
    j < |n| &&
    (n[j] == '-' ||
     (j + 1 < |n| && n[j + 1] == '.' && n[j] != '.' && !IsDigit(n[j])) ||
     (j + 1 < |n| && n[j] == '.' && !IsDigit(n[j + 1])))
  }

  predicate BlockedFrom(n: string, j: nat)
    decreases |n| - j
  {
    j < |n| && (Blocks(n, j) || BlockedFrom(n, j + 1))
  }

  /** Every '.' of s sits between two digits. */
  predicate DotsBetweenDigits(s: string)
  {
    forall k | 0 <= k < |s| && s[k] == '.' :: 0 < k < |s| - 1 && IsDigit(s[k - 1]) && IsDigit(s[k + 1])
  }

  lemma {:induction false} BlockedNotContained(s: string, n: string, j: nat)
    requires BlockedFrom(n, j)
    requires '-' !in s && DotsBetweenDigits(s)
    ensures !Contains(s, n)
    decreases |n| - j
  {
    if Blocks(n, j) {
      if n[j] == '-' {
        NotContainsCharAbsent(s, n, j);
      } else {
        NotContainsPairAbsent(s, n, j);
      }
    } else {
      BlockedNotContained(s, n, j + 1);
    }
  }

  lemma AllBlocked()
    ensures forall k | 0 <= k < |PreReleaseIndicators| :: BlockedFrom(PreReleaseIndicators[k], 0)
    ensures forall k | 0 <= k < |SuffixPatterns| :: BlockedFrom("." + SuffixPatterns[k], 0)
    ensures forall k | 0 <= k < |SuffixPatterns| :: BlockedFrom("-" + SuffixPatterns[k], 0)
  {
  }

  /** A tag with no '-' whose every '.' sits between digits is stable: neither rule
      can fire. This covers v1.2.0, v1.3.1 and v1.0.0alpha1 (no separator before "alpha"). */
  lemma DottedVersionIsStable(tag: string)
    requires '-' !in tag && DotsBetweenDigits(tag)
    ensures !IsPreRelease(tag)
  {
    var t := Lower(tag);
    assert '-' !in t by {
      forall k | 0 <= k < |t| ensures t[k] != '-' { assert tag[k] in tag; }
    }
    assert DotsBetweenDigits(t) by {
      forall k | 0 <= k < |t| && t[k] == '.'
        ensures 0 < k < |t| - 1 && IsDigit(t[k - 1]) && IsDigit(t[k + 1])
      {
        assert tag[k] == '.';
      }
    }
    AllBlocked();
    forall k | 0 <= k < |PreReleaseIndicators| ensures !Contains(t, PreReleaseIndicators[k]) {
      BlockedNotContained(t, PreReleaseIndicators[k], 0);
    }
    forall k | 0 <= k < |SuffixPatterns|
      ensures !Contains(t, "." + SuffixPatterns[k]) && !Contains(t, "-" + SuffixPatterns[k])
    {
      BlockedNotContained(t, "." + SuffixPatterns[k], 0);
      BlockedNotContained(t, "-" + SuffixPatterns[k], 0);
    }
    IsPreReleaseIff(tag);
  }

  /** A plain release tag is stable. */
  lemma PlainVersionIsStable()
    ensures !IsPreRelease("v1.2.0")
  {
    DottedVersionIsStable("v1.2.0");
  }

  /** "alpha" with no separator in front of it does not count. */
  lemma GluedAlphaIsStable()
    ensures !IsPreRelease("v1.0.0alpha1")
  {
    var tag := "v1.0.0alpha1";
    assert DotsBetweenDigits(tag) by {
      forall k | 0 <= k < |tag| && tag[k] == '.'
        ensures 0 < k < |tag| - 1 && IsDigit(tag[k - 1]) && IsDigit(tag[k + 1])
      {
        assert k == 2 || k == 4;
      }
    }
    DottedVersionIsStable(tag);
  }

  // ---------------------------------------------------------------------------
  // Stable releases

  /** A release is kept when its tag is not a pre-release tag; the provider's
      isPrerelease flag plays no part. */
  predicate IsStable(r: Release)
  {
    !IsPreRelease(r.tagName)
  }

  predicate IsPre(r: Release)
  {
    IsPreRelease(r.tagName)
  }

  /** The "owner/repo tag" entry logged for a dropped release. */
  function FilteredEntry(r: Release): string
  {
    r.repoOwner + "/" + r.repoName + " " + r.tagName
  }

  /** filterStableReleases: the stable releases in input order, together with the
      log entries of the dropped ones; every release lands in exactly one list. */
  method FilterStableReleases(releases: seq<Release>) returns (stable: seq<Release>, filtered: seq<string>)
    ensures stable == Filter(releases, IsStable)
    ensures filtered == Map(Filter(releases, IsPre), FilteredEntry)
    ensures |stable| + |filtered| == |releases|
    ensures forall r | r in stable :: r in releases && IsStable(r)
    ensures forall r | r in releases && IsStable(r) :: r in stable
  {
    stable := [];
    filtered := [];
    for i := 0 to |releases|
      invariant stable == Filter(releases[..i], IsStable)
      invariant filtered == Map(Filter(releases[..i], IsPre), FilteredEntry)
    {
      var r := releases[i];
      FilterPrefix(releases, i, i + 1, IsStable);
      FilterPrefix(releases, i, i + 1, IsPre);
      if IsStable(r) {
        stable := stable + [r];
      } else {
        MapSnoc(Filter(releases[..i], IsPre), r, FilteredEntry);
        filtered := filtered + [FilteredEntry(r)];
      }
    }
    assert releases[..|releases|] == releases;
    FilterPartition(releases, IsStable, IsPre);
  }

  /** Filtering an already filtered list changes nothing. */
  lemma StableFilterIdempotent(releases: seq<Release>)
    ensures Filter(Filter(releases, IsStable), IsStable) == Filter(releases, IsStable)
  {
    FilterIdempotent(releases, IsStable);
  }

  // ---------------------------------------------------------------------------
  // News for the LinkedIn prompt

  const LinkedInNewsLimit := 15

  predicate NotHackerNews(n: NewsItem)
  {
    n.source != "Hacker News"
  }

  lemma SelectionStep(news: seq<NewsItem>, i: int)
    requires 0 <= i < |news|
    ensures var before := Take(Filter(news[..i], NotHackerNews), LinkedInNewsLimit);
      Take(Filter(news[..i + 1], NotHackerNews), LinkedInNewsLimit) ==
        if NotHackerNews(news[i]) && |before| < LinkedInNewsLimit then before + [news[i]] else before
  {
    FilterPrefix(news, i, i + 1, NotHackerNews);
    var kept := Filter(news[..i], NotHackerNews);
    TakeSnoc(kept, news[i], LinkedInNewsLimit);
  }

  /** The news loop of buildLinkedInPrompt: the items it lists, in input order. */
  method SelectLinkedInNews(news: seq<NewsItem>) returns (selected: seq<NewsItem>)
    ensures selected == Take(Filter(news, NotHackerNews), LinkedInNewsLimit)
  {
    selected := [];
    var newsCount := 0;
    for i := 0 to |news|
      invariant newsCount == |selected|
      invariant selected == Take(Filter(news[..i], NotHackerNews), LinkedInNewsLimit)
    {
      var n := news[i];
      SelectionStep(news, i);
      if NotHackerNews(n) && newsCount < LinkedInNewsLimit {
        selected := selected + [n];
        newsCount := newsCount + 1;
      }
    }
    assert news[..|news|] == news;
  }

  /** The selection holds at most 15 items, none from Hacker News, drawn from the
      input in order; it falls short of 15 only when the input has fewer other items. */
  lemma LinkedInSelectionFacts(news: seq<NewsItem>)
    ensures var sel := Take(Filter(news, NotHackerNews), LinkedInNewsLimit);
      |sel| <= LinkedInNewsLimit &&
      (forall n | n in sel :: n.source != "Hacker News") &&
      IsSubsequence(sel, news) &&
      (|sel| < LinkedInNewsLimit ==> sel == Filter(news, NotHackerNews))
  {
    var kept := Filter(news, NotHackerNews);
    var sel := Take(kept, LinkedInNewsLimit);
    PrefixSubsequence(kept, |sel|);
    FilterSubsequence(news, NotHackerNews);
    SubsequenceTrans(sel, kept, news);
  }
}
