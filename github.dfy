/** The GitHub release client (internal/github/client.go). The go-github call
    is a parameter: given owner, repository and page size it yields one page of
    provider releases or an error. */
module GitHub {
  import opened Wrappers
  import opened Models
  import opened Seqs

  /** A provider release as the client reads it; the getters give "" and false
      for absent fields, and an absent publication time is None. */
  datatype GhRelease = GhRelease(
    draft: bool,
    publishedAt: Option<Instant>,
    name: string,
    tagName: string,
    body: string,
    htmlUrl: string,
    prerelease: bool)

  /** Repositories.ListReleases(owner, repo, {PerPage: n}). */
  type ListReleases = (string, string, int) -> Result<seq<GhRelease>>

  const PerPage := 100

  /** Both ends inclusive: neither before start nor after end. */
  predicate InRange(t: Instant, start: Instant, end: Instant)
  {
    !(t < start) && !(t > end)
  }

  /** The filter of GetReleasesInRange: not a draft, dated, and in range. */
  function Keeps(start: Instant, end: Instant): GhRelease -> bool
  {
    (r: GhRelease) => !r.draft && r.publishedAt.Some? && InRange(r.publishedAt.value, start, end)
  }

  /** The release record built for a kept provider release. */
  function ToRelease(owner: string, repo: string, category: string, r: GhRelease): (rel: Release)
    ensures rel.repoOwner == owner && rel.repoName == repo && rel.category == category
    ensures rel.tagName == r.tagName && rel.isPrerelease == r.prerelease
    ensures rel.name == if r.name != "" then r.name else r.tagName
  {
    var releaseName := if r.name != "" then r.name else r.tagName;
    Release(owner, repo, r.tagName, releaseName, r.body, r.htmlUrl,
      if r.publishedAt.Some? then r.publishedAt.value else ZeroTime, category, r.prerelease)
  }

  function Converter(owner: string, repo: string, category: string): GhRelease -> Release
  {
    (r: GhRelease) => ToRelease(owner, repo, category, r)
  }

  /** The releases one repository contributes when its page is fetched. */
  function RangeReleases(page: seq<GhRelease>, owner: string, repo: string, category: string,
                         start: Instant, end: Instant): seq<Release>
  {
    Map(Filter(page, Keeps(start, end)), Converter(owner, repo, category))
  }

  /** GetReleasesInRange: one page of at most 100 releases; drafts, undated
      releases and those outside [start, end] are skipped; an error from the
      provider is returned with no releases. */
  method GetReleasesInRange(api: ListReleases, owner: string, repo: string, category: string,
                            start: Instant, end: Instant)
    returns (releases: seq<Release>, err: Option<string>)
    ensures api(owner, repo, PerPage).Failure? ==> releases == [] && err == Some(api(owner, repo, PerPage).error)
    ensures api(owner, repo, PerPage).Success? ==>
      err == None && releases == RangeReleases(api(owner, repo, PerPage).value, owner, repo, category, start, end)
  {
    releases := [];
    var response := api(owner, repo, PerPage);
    if response.Failure? {
      return [], Some(response.error);
    }
    var ghReleases := response.value;
    ghost var keep := Keeps(start, end);
    var i := 0;
    while i < |ghReleases|
      invariant 0 <= i <= |ghReleases|
      invariant releases == Map(Filter(ghReleases[..i], keep), Converter(owner, repo, category))
    {
      var r := ghReleases[i];
      var next := i + 1;
      FilterPrefix(ghReleases, i, next, keep);
      if r.draft {
        i := next;
        continue;
      }
      if r.publishedAt.None? {
        i := next;
        continue;
      }
      var publishedAt := r.publishedAt.value;
      if publishedAt < start || publishedAt > end {
        i := next;
        continue;
      }
      var releaseName := r.name;
      if releaseName == "" {
        releaseName := r.tagName;
      }
      MapSnoc(Filter(ghReleases[..i], keep), r, Converter(owner, repo, category));
      releases := releases + [Release(owner, repo, r.tagName, releaseName, r.body, r.htmlUrl,
        r.publishedAt.value, category, r.prerelease)];
      i := next;
    }
    assert ghReleases[..|ghReleases|] == ghReleases;
    err := None;
  }

  /** Every emitted release comes from a non-draft, dated provider release in
      [start, end], carries the caller's owner, repository and category, and
      its name falls back to the tag; every such provider release is emitted;
      there are no more releases than the page holds; provider order is kept. */
  lemma RangeReleasesFacts(page: seq<GhRelease>, owner: string, repo: string, category: string,
                           start: Instant, end: Instant)
    ensures |RangeReleases(page, owner, repo, category, start, end)| <= |page|
    ensures forall x | x in RangeReleases(page, owner, repo, category, start, end) ::
      start <= x.publishedAt <= end && x.repoOwner == owner && x.repoName == repo && x.category == category &&
      exists g :: g in page && !g.draft && g.publishedAt == Some(x.publishedAt) &&
        x.tagName == g.tagName && x.name == (if g.name != "" then g.name else g.tagName) &&
        x.isPrerelease == g.prerelease
    ensures forall g | g in page && !g.draft && g.publishedAt.Some? && start <= g.publishedAt.value <= end ::
      ToRelease(owner, repo, category, g) in RangeReleases(page, owner, repo, category, start, end)
    ensures IsSubsequence(RangeReleases(page, owner, repo, category, start, end), Map(page, Converter(owner, repo, category)))
  {
    var kept := Filter(page, Keeps(start, end));
    var out := RangeReleases(page, owner, repo, category, start, end);
    forall x | x in out
      ensures start <= x.publishedAt <= end && x.repoOwner == owner && x.repoName == repo && x.category == category &&
        exists g :: g in page && !g.draft && g.publishedAt == Some(x.publishedAt) &&
          x.tagName == g.tagName && x.name == (if g.name != "" then g.name else g.tagName) &&
          x.isPrerelease == g.prerelease
    {
      var k :| 0 <= k < |out| && out[k] == x;
      var g := kept[k];
      assert g in kept;
      assert x == ToRelease(owner, repo, category, g);
    }
    forall g | g in page && !g.draft && g.publishedAt.Some? && start <= g.publishedAt.value <= end
      ensures ToRelease(owner, repo, category, g) in out
    {
      assert Keeps(start, end)(g);
      var k :| 0 <= k < |kept| && kept[k] == g;
      assert out[k] == ToRelease(owner, repo, category, g);
    }
    MapFilterSubsequence(page, Keeps(start, end), Converter(owner, repo, category));
  }

  /** A provider that honours the page size yields at most 100 releases per
      repository. */
  lemma AtMostOnePage(api: ListReleases, owner: string, repo: string, category: string, start: Instant, end: Instant)
    requires api(owner, repo, PerPage).Success? && |api(owner, repo, PerPage).value| <= PerPage
    ensures |RangeReleases(api(owner, repo, PerPage).value, owner, repo, category, start, end)| <= PerPage
  {
    RangeReleasesFacts(api(owner, repo, PerPage).value, owner, repo, category, start, end);
  }

  /** The releases of one repository as FetchReleasesInRange sees them: none
      when its request fails. */
  function RepoReleases(api: ListReleases, r: Repository, start: Instant, end: Instant): seq<Release>
  {
    var response := api(r.owner, r.repo, PerPage);
    if response.Failure? then [] else RangeReleases(response.value, r.owner, r.repo, r.category, start, end)
  }

  /** The releases of several repositories, in repository order. */
  function AllReleases(api: ListReleases, repos: seq<Repository>, start: Instant, end: Instant): seq<Release>
    decreases |repos|
  {
    if repos == [] then []
    else AllReleases(api, repos[..|repos| - 1], start, end) + RepoReleases(api, repos[|repos| - 1], start, end)
  }

  /** FetchReleasesInRange: failing repositories are skipped, the rest are
      concatenated in repository order, and the error is always nil. */
  method FetchReleasesInRange(api: ListReleases, repos: seq<Repository>, start: Instant, end: Instant)
    returns (allReleases: seq<Release>, err: Option<string>)
    ensures err == None
    ensures allReleases == AllReleases(api, repos, start, end)
  {
    allReleases := [];
    for i := 0 to |repos|
      invariant allReleases == AllReleases(api, repos[..i], start, end)
    {
      var repo := repos[i];
      assert repos[..i + 1][..i] == repos[..i];
      var releases, e := GetReleasesInRange(api, repo.owner, repo.repo, repo.category, start, end);
      if e.Some? {
        continue;
      }
      allReleases := allReleases + releases;
    }
    assert repos[..|repos|] == repos;
    err := None;
  }

  /** Everything fetched lies in [start, end] and belongs to one of the
      repositories, with that repository's category. */
  lemma {:induction false} AllReleasesFacts(api: ListReleases, repos: seq<Repository>, start: Instant, end: Instant)
    ensures forall x | x in AllReleases(api, repos, start, end) ::
      start <= x.publishedAt <= end &&
      exists r :: r in repos && x.repoOwner == r.owner && x.repoName == r.repo && x.category == r.category
    decreases |repos|
  {
    if repos != [] {
      var n := |repos| - 1;
      AllReleasesFacts(api, repos[..n], start, end);
      var r := repos[n];
      var response := api(r.owner, r.repo, PerPage);
      if response.Success? {
        RangeReleasesFacts(response.value, r.owner, r.repo, r.category, start, end);
      }
      forall x | x in AllReleases(api, repos, start, end)
        ensures start <= x.publishedAt <= end &&
          exists r :: r in repos && x.repoOwner == r.owner && x.repoName == r.repo && x.category == r.category
      {
        if x in AllReleases(api, repos[..n], start, end) {
          var q :| q in repos[..n] && x.repoOwner == q.owner && x.repoName == q.repo && x.category == q.category;
          assert q in repos;
        } else {
          assert r in repos;
        }
      }
    }
  }
}
