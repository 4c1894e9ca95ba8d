/** The newsletter generator's file selection (cmd/ai-processor/main.go):
    finding the newest data file, the default input paths and the LinkedIn
    post's file name. Reading a directory and reading and decoding a file are
    parameters. */
module AiProcessor {
  import opened Wrappers
  import opened Models
  import opened Text
  import Calendar
  import Draft

  datatype DirEntry = DirEntry(name: string, isDir: bool)

  /** os.ReadDir: the entries of a directory, or an error. */
  type ReadDir = string -> Result<seq<DirEntry>>

  /** filepath.Join of two elements, without the lexical clean-up. */
  function PathJoin(dir: string, name: string): (p: string)
    ensures dir != "" && name != "" ==> p == dir + "/" + name
    ensures dir == "" ==> p == name
    ensures name == "" ==> p == dir
  {
    if dir == "" then name else if name == "" then dir else dir + "/" + name
  }

  /** The entries findLatestFile accepts: a file whose name starts with the
      prefix and is strictly longer than it. */
  predicate Matches(e: DirEntry, prefix: string)
  {
    !e.isDir && |e.name| > |prefix| && e.name[..|prefix|] == prefix
  }

  /** The name of the last matching entry in listing order. */
  function LastMatch(entries: seq<DirEntry>, prefix: string): Option<string>
    decreases |entries|
  {
    if entries == [] then None
    else if Matches(entries[|entries| - 1], prefix) then Some(entries[|entries| - 1].name)
    else LastMatch(entries[..|entries| - 1], prefix)
  }

  /** What findLatestFile returns for a listing (or its failure). */
  function LatestFile(listing: Result<seq<DirEntry>>, dir: string, prefix: string): string
  {
    if listing.Failure? then ""
    else match LastMatch(listing.value, prefix)
      case None => ""
      case Some(name) => PathJoin(dir, name)
  }

  /** findLatestFile: scans the listing, keeping the path of each matching
      entry, so the last one wins. */
  method FindLatestFile(readDir: ReadDir, dir: string, prefix: string) returns (latest: string)
    ensures latest == LatestFile(readDir(dir), dir, prefix)
  {
    var listing := readDir(dir);
    if listing.Failure? {
      return "";
    }
    var entries := listing.value;
    latest := "";
    for i := 0 to |entries|
      invariant latest == match LastMatch(entries[..i], prefix)
        case None => ""
        case Some(name) => PathJoin(dir, name)
    {
      var entry := entries[i];
      assert entries[..i + 1][..i] == entries[..i];
      if !entry.isDir && |entry.name| > |prefix| && entry.name[..|prefix|] == prefix {
        latest := PathJoin(dir, entry.name);
      }
    }
    assert entries[..|entries|] == entries;
  }

  /** k is a matching entry with no matching entry after it. */
  predicate IsLastMatchAt(entries: seq<DirEntry>, prefix: string, k: int)
  {
    0 <= k < |entries| && Matches(entries[k], prefix) &&
    forall j | k < j < |entries| :: !Matches(entries[j], prefix)
  }

  /** There is a last match iff some entry matches; it is then a matching
      entry's name with no matching entry after it. */
  lemma LastMatchFacts(entries: seq<DirEntry>, prefix: string)
    ensures LastMatch(entries, prefix).None? <==> forall e | e in entries :: !Matches(e, prefix)
    ensures LastMatch(entries, prefix).Some? ==>
      exists k :: IsLastMatchAt(entries, prefix, k) && entries[k].name == LastMatch(entries, prefix).value
  {
    LastMatchNoneIff(entries, prefix);
    LastMatchAt(entries, prefix);
  }

  lemma {:induction false} LastMatchNoneIff(entries: seq<DirEntry>, prefix: string)
    ensures LastMatch(entries, prefix).None? <==> forall e | e in entries :: !Matches(e, prefix)
    decreases |entries|
  {
    if entries != [] {
      var n := |entries| - 1;
      if Matches(entries[n], prefix) {
        assert entries[n] in entries;
      } else {
        LastMatchNoneIff(entries[..n], prefix);
        assert forall e | e in entries :: e in entries[..n] || e == entries[n];
        assert forall e | e in entries[..n] :: e in entries;
      }
    }
  }

  lemma {:induction false} LastMatchAt(entries: seq<DirEntry>, prefix: string)
    ensures LastMatch(entries, prefix).Some? ==>
      exists k :: IsLastMatchAt(entries, prefix, k) && entries[k].name == LastMatch(entries, prefix).value
    decreases |entries|
  {
    if entries != [] {
      var n := |entries| - 1;
      if Matches(entries[n], prefix) {
        assert IsLastMatchAt(entries, prefix, n);
      } else if LastMatch(entries, prefix).Some? {
        LastMatchAt(entries[..n], prefix);
        var k :| IsLastMatchAt(entries[..n], prefix, k) &&
          entries[..n][k].name == LastMatch(entries[..n], prefix).value;
        assert IsLastMatchAt(entries, prefix, k);
      }
    }
  }

  /** findLatestFile returns "" exactly when the directory cannot be read or
      no entry matches; otherwise it is dir joined with a matching name. */
  lemma LatestFileEmptyIff(listing: Result<seq<DirEntry>>, dir: string, prefix: string)
    ensures LatestFile(listing, dir, prefix) == "" <==>
      listing.Failure? || forall e | e in listing.value :: !Matches(e, prefix)
    ensures LatestFile(listing, dir, prefix) != "" ==>
      exists e :: e in listing.value && Matches(e, prefix) && LatestFile(listing, dir, prefix) == PathJoin(dir, e.name)
  {
    if listing.Success? {
      LastMatchFacts(listing.value, prefix);
      if LastMatch(listing.value, prefix).Some? {
        var k :| IsLastMatchAt(listing.value, prefix, k) &&
          listing.value[k].name == LastMatch(listing.value, prefix).value;
        assert listing.value[k] in listing.value;
      }
    }
  }

  /** os.ReadDir lists entries sorted by name, so the last match is the
      greatest matching name, which for date-stamped names is the newest. */
  lemma LastMatchIsGreatest(entries: seq<DirEntry>, prefix: string)
    requires forall i, j | 0 <= i < j < |entries| :: StrLess(entries[i].name, entries[j].name)
    requires LastMatch(entries, prefix).Some?
    ensures forall e | e in entries && Matches(e, prefix) ::
      e.name == LastMatch(entries, prefix).value || StrLess(e.name, LastMatch(entries, prefix).value)
  {
    LastMatchFacts(entries, prefix);
    var k :| IsLastMatchAt(entries, prefix, k) && entries[k].name == LastMatch(entries, prefix).value;
    forall e | e in entries && Matches(e, prefix)
      ensures e.name == entries[k].name || StrLess(e.name, entries[k].name)
    {
      var i :| 0 <= i < |entries| && entries[i] == e;
      if i != k {
        assert i < k;
      }
    }
  }

  const DataDir := "data"
  const ReleasesPrefix := "releases-"
  const NewsPrefix := "news-"

  /** The path loadReleases or loadNews reads: the given one, or the newest
      matching file under data/ when none is given. */
  method InputPath(readDir: ReadDir, path: string, prefix: string) returns (resolved: string)
    ensures path != "" ==> resolved == path
    ensures path == "" ==> resolved == LatestFile(readDir(DataDir), DataDir, prefix)
  {
    resolved := path;
    if resolved == "" {
      resolved := FindLatestFile(readDir, DataDir, prefix);
    }
  }

  /** A defaulted path is either "" (so the read that follows fails) or a
      file directly under data/ whose name starts with the prefix and is
      longer than it. */
  lemma DefaultPathShape(readDir: ReadDir, prefix: string)
    ensures var p := LatestFile(readDir(DataDir), DataDir, prefix);
      p == "" || (HasPrefix(p, DataDir + "/" + prefix) && |p| > |DataDir + "/" + prefix|)
  {
    var p := LatestFile(readDir(DataDir), DataDir, prefix);
    LatestFileEmptyIff(readDir(DataDir), DataDir, prefix);
    if p != "" {
      var e :| e in readDir(DataDir).value && Matches(e, prefix) && p == PathJoin(DataDir, e.name);
      assert p == DataDir + "/" + e.name;
      assert p[..|DataDir + "/" + prefix|] == DataDir + "/" + e.name[..|prefix|];
    }
  }

  /** os.ReadFile followed by json.Unmarshal: the decoded records or an error. */
  type Load<T> = string -> Result<seq<T>>

  /** loadReleases: default path, then read and decode; any error is returned. */
  method LoadReleases(readDir: ReadDir, load: Load<Release>, path: string)
    returns (releases: seq<Release>, err: Option<string>)
    ensures var p := if path != "" then path else LatestFile(readDir(DataDir), DataDir, ReleasesPrefix);
      (load(p).Failure? ==> releases == [] && err == Some(load(p).error)) &&
      (load(p).Success? ==> releases == load(p).value && err == None)
  {
    var p := InputPath(readDir, path, ReleasesPrefix);
    var data := load(p);
    if data.Failure? {
      return [], Some(data.error);
    }
    return data.value, None;
  }

  /** loadNews: as loadReleases, with the "news-" prefix. */
  method LoadNews(readDir: ReadDir, load: Load<NewsItem>, path: string)
    returns (news: seq<NewsItem>, err: Option<string>)
    ensures var p := if path != "" then path else LatestFile(readDir(DataDir), DataDir, NewsPrefix);
      (load(p).Failure? ==> news == [] && err == Some(load(p).error)) &&
      (load(p).Success? ==> news == load(p).value && err == None)
  {
    var p := InputPath(readDir, path, NewsPrefix);
    var data := load(p);
    if data.Failure? {
      return [], Some(data.error);
    }
    return data.value, None;
  }

  /** The LinkedIn post's file name for an ISO (year, week). */
  function LinkedInFilename(year: int, week: int): string
  {
    Draft.WeekStem(year, week) + "-linkedin.txt"
  }

  /** saveLinkedInPost's output path for the current instant; writing the
      file is not modelled. */
  method LinkedInPath(outputDir: string, now: Instant) returns (outputPath: string)
    ensures var (year, week) := Calendar.IsoWeekOf(now);
      outputPath == PathJoin(outputDir, LinkedInFilename(year, week))
  {
    var (year, week) := Calendar.IsoWeekOf(now);
    var filename := Draft.WeekStem(year, week) + "-linkedin.txt";
    outputPath := PathJoin(outputDir, filename);
  }

  /** An ISO week number has at most two digits. */
  lemma IsoWeekTwoDigits(now: Instant)
    ensures 1 <= Calendar.IsoWeekOf(now).1 <= 53
  {
    var d := Calendar.DayOf(now);
    Calendar.IsoWeekBound(d);
    var y := Calendar.IsoWeek(d).0;
    Calendar.WeeksInYearFacts(y);
    Calendar.Jan1Step(y);
  }

  /** The LinkedIn file name starts with the stem of the draft of the same
      week and ends in "-linkedin.txt"; for years from 0 the stem reads back
      as the ISO year and the week, written with two digits. */
  lemma LinkedInFilenameFacts(now: Instant)
    ensures var (year, week) := Calendar.IsoWeekOf(now);
      var f := LinkedInFilename(year, week);
      var s := Draft.WeekStem(year, week);
      HasPrefix(f, s) && f[|s|..] == "-linkedin.txt" &&
      f != Draft.DraftFilename(year, week) && f != Draft.ArticlesFilename(year, week) &&
      (year >= 0 ==> (|Pad2(week)| == 2 && s[|s| - 8..|s| - 2] == "-week-" &&
        DigitsValue(s[..|s| - 8]) == year && DigitsValue(s[|s| - 2..]) == week))
  {
    var (year, week) := Calendar.IsoWeekOf(now);
    var f := LinkedInFilename(year, week);
    var s := Draft.WeekStem(year, week);
    IsoWeekTwoDigits(now);
    assert f[..|s|] == s;
    assert |f| != |Draft.DraftFilename(year, week)|;
    assert |f| != |Draft.ArticlesFilename(year, week)|;
    if year >= 0 {
      Draft.WeekStemRoundTrip(year, week);
      Pad2RoundTrip(week);
    }
  }
}
