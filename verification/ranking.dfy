/** The weekly ranking built from two runs of `AnalyzeMods`: the valid-mod
    filter, the top-N selection, the rank movement against last week and the
    trend shown beside each ranked mod. */
module Ranking {
  import opened Wrappers
  import opened Sorting
  import opened Analysis

  /** How many mods the ranking shows. */
  const NumberOfMods: nat := 10

  /** Mods tagged with this tag are never ranked. */
  const LibraryTag: string := "library"

  /** Repositories excluded from the ranking. */
  const ModsToIgnore: seq<string> := [
    "https://github.com/ow-mods/ow-mod-manager",
    "https://github.com/ow-mods/owml",
    "https://github.com/amazingalek/owml"
  ]

  /** Length of a reporting window, in seconds. */
  const WeekSeconds: int := 7 * 24 * 60 * 60

  /** One release of the mod database. */
  datatype Release = Release(
    name: string,
    uniqueName: string,
    repo: string,
    downloadCount: int,
    slug: string,
    tags: seq<string>,
    weeklyInstallCount: int)

  /** The first release in the database whose repository is `repo`, if any. */
  function FirstRelease(releases: seq<Release>, repo: string): (r: Option<Release>)
    ensures r.None? <==> forall i :: 0 <= i < |releases| ==> releases[i].repo != repo
    ensures r.Some? ==> exists i :: 0 <= i < |releases| && releases[i] == r.value && IsFirstWithRepo(releases, i, repo)
  {
    if |releases| == 0 then None
    else if releases[0].repo == repo then
      assert IsFirstWithRepo(releases, 0, repo);
      Some(releases[0])
    else
      var r := FirstRelease(releases[1..], repo);
      assert r.Some? ==> exists i :: 0 <= i < |releases| && releases[i] == r.value && IsFirstWithRepo(releases, i, repo) by {
        if r.Some? {
          var i :| 0 <= i < |releases[1..]| && releases[1..][i] == r.value && IsFirstWithRepo(releases[1..], i, repo);
          assert IsFirstWithRepo(releases, i + 1, repo);
        }
      }
      r
  }

  /** `releases[i]` is the first release of `repo`. */
  ghost predicate IsFirstWithRepo(releases: seq<Release>, i: int, repo: string)
  {
    && 0 <= i < |releases|
    && releases[i].repo == repo
    && forall j :: 0 <= j < i ==> releases[j].repo != repo
  }

  /** `IsValidMod`: a repository may be ranked unless it is ignored, has no
      release in the database, or its first release is tagged `library`. */
  function IsValidMod(repo: string, ignore: seq<string>, releases: seq<Release>): (valid: bool)
    ensures valid <==>
      && repo !in ignore
      && exists i :: IsFirstWithRepo(releases, i, repo) && LibraryTag !in releases[i].tags
  {
    if repo in ignore then false
    else
      match FirstRelease(releases, repo)
      case None => false
      case Some(release) =>
        assert forall k :: IsFirstWithRepo(releases, k, repo) ==> releases[k] == release by {
          var i :| 0 <= i < |releases| && releases[i] == release && IsFirstWithRepo(releases, i, repo);
          FirstUnique(releases, repo, i);
        }
        LibraryTag !in release.tags
  }

  /** There is only one first release of a repository. */
  lemma FirstUnique(releases: seq<Release>, repo: string, i: int)
    requires IsFirstWithRepo(releases, i, repo)
    ensures forall k :: IsFirstWithRepo(releases, k, repo) ==> k == i
  {
  }

  /** The pairs whose repository is a valid mod, in their original order. */
  function ValidChanges(cs: seq<Change>, ignore: seq<string>, releases: seq<Release>): (r: seq<Change>)
    ensures forall c :: c in r <==> c in cs && IsValidMod(c.repo, ignore, releases)
  {
    if |cs| == 0 then []
    else
      (if IsValidMod(cs[0].repo, ignore, releases) then [cs[0]] else [])
      + ValidChanges(cs[1..], ignore, releases)
  }

  function ChangeValue(c: Change): int
  {
    c.change
  }

  /** The valid changes, sorted largest change first and cut to the first
      `NumberOfMods`. */
  function SelectTop(cs: seq<Change>, ignore: seq<string>, releases: seq<Release>): (top: seq<Change>)
    ensures |top| <= NumberOfMods
    ensures forall c :: c in top ==> c in cs && IsValidMod(c.repo, ignore, releases)
    ensures forall i, j :: 0 <= i < j < |top| ==> top[i].change >= top[j].change
    ensures forall c, t :: c in cs && IsValidMod(c.repo, ignore, releases) && c !in top && t in top ==>
      t.change >= c.change
    ensures |top| < NumberOfMods ==> forall c :: c in cs && IsValidMod(c.repo, ignore, releases) ==> c in top
    ensures multiset(top) <= multiset(cs)
    ensures |top| == if |ValidChanges(cs, ignore, releases)| < NumberOfMods
      then |ValidChanges(cs, ignore, releases)| else NumberOfMods
  {
    var valid := ValidChanges(cs, ignore, releases);
    var sorted := SortDescendingBy(valid, ChangeValue);
    var m := if |sorted| < NumberOfMods then |sorted| else NumberOfMods;
    PrefixOfSorted(valid, sorted, m);
    ValidChangesWithin(cs, ignore, releases);
    PrefixWithin(sorted, m);
    sorted[..m]
  }

  /** The valid pairs are drawn from `cs`, each at most as often as it occurs there. */
  lemma {:induction false} ValidChangesWithin(cs: seq<Change>, ignore: seq<string>, releases: seq<Release>)
    ensures multiset(ValidChanges(cs, ignore, releases)) <= multiset(cs)
  {
    if |cs| > 0 {
      var rest := ValidChanges(cs[1..], ignore, releases);
      ValidChangesWithin(cs[1..], ignore, releases);
      assert multiset(cs) == multiset{cs[0]} + multiset(cs[1..]) by {
        assert cs == [cs[0]] + cs[1..];
      }
      if IsValidMod(cs[0].repo, ignore, releases) {
        assert ValidChanges(cs, ignore, releases) == [cs[0]] + rest;
      } else {
        assert ValidChanges(cs, ignore, releases) == rest;
      }
    }
  }

  /** A prefix holds each element at most as often as the whole sequence. */
  lemma PrefixWithin<T>(s: seq<T>, m: nat)
    requires m <= |s|
    ensures multiset(s[..m]) <= multiset(s)
  {
    assert s == s[..m] + s[m..];
  }

  /** The first `m` entries of a largest-first ordering of `valid` are the
      largest `m` of `valid`. */
  lemma PrefixOfSorted(valid: seq<Change>, sorted: seq<Change>, m: nat)
    requires m <= |sorted|
    requires multiset(sorted) == multiset(valid)
    requires NonIncreasingBy(sorted, ChangeValue)
    ensures forall c :: c in sorted[..m] ==> c in valid
    ensures forall i, j :: 0 <= i < j < m ==> sorted[..m][i].change >= sorted[..m][j].change
    ensures forall c, t :: c in valid && c !in sorted[..m] && t in sorted[..m] ==> t.change >= c.change
    ensures m == |sorted| ==> forall c :: c in valid ==> c in sorted[..m]
  {
    var top := sorted[..m];
    assert forall c :: c in sorted <==> c in valid by {
      forall c
        ensures c in sorted <==> c in valid
      {
        assert c in sorted <==> c in multiset(sorted);
        assert c in valid <==> c in multiset(valid);
      }
    }
    forall c | c in top
      ensures c in valid
    {
      var k :| 0 <= k < |top| && top[k] == c;
      assert sorted[k] == c;
    }
    forall i, j | 0 <= i < j < m
      ensures top[i].change >= top[j].change
    {
      assert ChangeValue(sorted[i]) >= ChangeValue(sorted[j]);
    }
    forall c, t | c in valid && c !in top && t in top
      ensures t.change >= c.change
    {
      var k :| 0 <= k < |sorted| && sorted[k] == c;
      var i :| 0 <= i < |top| && top[i] == t;
      assert sorted[i] == t;
      assert ChangeValue(sorted[i]) >= ChangeValue(sorted[k]);
    }
    assert m == |sorted| ==> top == sorted;
  }

  /** A repository whose first release is tagged `library` is never ranked,
      whatever its change. */
  lemma LibraryNeverRanked(cs: seq<Change>, ignore: seq<string>, releases: seq<Release>, repo: string, i: int)
    requires IsFirstWithRepo(releases, i, repo) && LibraryTag in releases[i].tags
    ensures forall t :: t in SelectTop(cs, ignore, releases) ==> t.repo != repo
  {
    FirstUnique(releases, repo, i);
  }

  /** Every ranked repository has a first release in the database, and that
      release is not a library, so the lookup of its name and slug succeeds. */
  lemma RankedHaveRelease(cs: seq<Change>, ignore: seq<string>, releases: seq<Release>)
    ensures forall t :: t in SelectTop(cs, ignore, releases) ==>
      && FirstRelease(releases, t.repo).Some?
      && FirstRelease(releases, t.repo).value.repo == t.repo
      && LibraryTag !in FirstRelease(releases, t.repo).value.tags
  {
    forall t | t in SelectTop(cs, ignore, releases)
      ensures FirstRelease(releases, t.repo).Some?
      ensures FirstRelease(releases, t.repo).value.repo == t.repo
      ensures LibraryTag !in FirstRelease(releases, t.repo).value.tags
    {
      var i :| IsFirstWithRepo(releases, i, t.repo) && LibraryTag !in releases[i].tags;
      var r := FirstRelease(releases, t.repo);
      var k :| 0 <= k < |releases| && releases[k] == r.value && IsFirstWithRepo(releases, k, t.repo);
      FirstUnique(releases, t.repo, i);
    }
  }

  /** One entry of this week's ranking: repository, change and its index in
      last week's ranking, or -1 when it was not there. */
  datatype RankedChange = RankedChange(repo: string, change: int, oldIndex: int)

  /** The repositories of a list of pairs, position by position. */
  function Repos(cs: seq<Change>): (r: seq<string>)
    ensures |r| == |cs|
    ensures forall i :: 0 <= i < |cs| ==> r[i] == cs[i].repo
  {
    if |cs| == 0 then [] else [cs[0].repo] + Repos(cs[1..])
  }

  /** The first index holding `x`, or -1 when there is none. */
  function IndexOf(xs: seq<string>, x: string): (i: int)
    ensures -1 <= i < |xs|
    ensures i == -1 <==> x !in xs
    ensures 0 <= i ==> xs[i] == x && x !in xs[..i]
  {
    if |xs| == 0 then -1
    else if xs[0] == x then 0
    else
      var i := IndexOf(xs[1..], x);
      if i == -1 then -1
      else
        assert xs[..i + 1] == [xs[0]] + xs[1..][..i];
        i + 1
  }

  /** Index of `repo` in last week's ranking, or -1 when it is not there. */
  function OldIndex(lastWeek: seq<Change>, repo: string): (i: int)
    ensures -1 <= i < |lastWeek|
    ensures i == -1 <==> forall j :: 0 <= j < |lastWeek| ==> lastWeek[j].repo != repo
    ensures 0 <= i ==> lastWeek[i].repo == repo && forall j :: 0 <= j < i ==> lastWeek[j].repo != repo
  {
    if exists j :: 0 <= j < |lastWeek| && lastWeek[j].repo == repo then
      var repos := Repos(lastWeek);
      var i := IndexOf(repos, repo);
      assert forall j :: 0 <= j < i ==> repos[..i][j] == lastWeek[j].repo;
      i
    else
      -1
  }

  /** The loop building `topTen`: each of this week's entries, in order, with
      its index in last week's ranking. */
  function RankDiff(thisWeek: seq<Change>, lastWeek: seq<Change>): (ranked: seq<RankedChange>)
    ensures |ranked| == |thisWeek|
    ensures forall i :: 0 <= i < |ranked| ==>
      && ranked[i].repo == thisWeek[i].repo
      && ranked[i].change == thisWeek[i].change
      && -1 <= ranked[i].oldIndex < |lastWeek|
      && (ranked[i].oldIndex == -1 <==> forall j :: 0 <= j < |lastWeek| ==> lastWeek[j].repo != thisWeek[i].repo)
      && (0 <= ranked[i].oldIndex ==> lastWeek[ranked[i].oldIndex].repo == thisWeek[i].repo)
      && ranked[i].oldIndex == OldIndex(lastWeek, thisWeek[i].repo)
  {
    if |thisWeek| == 0 then []
    else
      var c := thisWeek[0];
      [RankedChange(c.repo, c.change, OldIndex(lastWeek, c.repo))] + RankDiff(thisWeek[1..], lastWeek)
  }

  /** The indicator shown beside a ranked mod. */
  datatype Trend = Unchanged | Fell | Rose

  /** The indicator for the entry at rank `i` whose index last week was `oldIndex`.
      Anything that is neither unchanged nor fallen counts as risen, including
      mods absent last week (-1). */
  function Classify(oldIndex: int, i: nat): (t: Trend)
    ensures t == Unchanged <==> oldIndex == i
    ensures -1 <= oldIndex ==> (t == Fell <==> 0 <= oldIndex < i)
    ensures t == Rose <==> oldIndex == -1 || oldIndex > i
  {
    if oldIndex == i then Unchanged
    else if oldIndex < i && oldIndex != -1 then Fell
    else Rose
  }

  /** The indicator stated against last week's ranking itself: unchanged when
      the mod first appears there at the same rank, fell when it appears at a
      better rank, risen when it does not appear at this rank or better. */
  lemma TrendAgainstLastWeek(lastWeek: seq<Change>, repo: string, i: nat)
    ensures Classify(OldIndex(lastWeek, repo), i) == Unchanged <==>
      i < |lastWeek| && lastWeek[i].repo == repo && forall j :: 0 <= j < i ==> lastWeek[j].repo != repo
    ensures Classify(OldIndex(lastWeek, repo), i) == Fell <==>
      exists j :: 0 <= j < i && j < |lastWeek| && lastWeek[j].repo == repo
    ensures Classify(OldIndex(lastWeek, repo), i) == Rose <==>
      forall j :: 0 <= j <= i && j < |lastWeek| ==> lastWeek[j].repo != repo
  {
    var k := OldIndex(lastWeek, repo);
    if 0 <= k < i {
      assert lastWeek[k].repo == repo;
    }
  }

  /** The indicators `GenerateFieldValue` shows; it reads exactly
      `NumberOfMods` entries, so it needs at least that many. */
  function RankingTrends(ranked: seq<RankedChange>): (trends: seq<Trend>)
    requires |ranked| >= NumberOfMods
    ensures |trends| == NumberOfMods
    ensures forall i :: 0 <= i < NumberOfMods ==>
      && (trends[i] == Unchanged <==> ranked[i].oldIndex == i)
      && (trends[i] == Fell <==> ranked[i].oldIndex != -1 && ranked[i].oldIndex < i)
      && (trends[i] == Rose <==> ranked[i].oldIndex == -1 || ranked[i].oldIndex > i)
  {
    seq(NumberOfMods, i requires 0 <= i < NumberOfMods => Classify(ranked[i].oldIndex, i))
  }

  /** The ten indicators of the weekly ranking, stated against last week's ranking. */
  lemma RankingTrendsAgainstLastWeek(thisWeek: seq<Change>, lastWeek: seq<Change>)
    requires |thisWeek| >= NumberOfMods
    ensures var trends := RankingTrends(RankDiff(thisWeek, lastWeek));
      forall i :: 0 <= i < NumberOfMods ==>
        && (trends[i] == Unchanged <==>
             i < |lastWeek| && lastWeek[i].repo == thisWeek[i].repo
             && forall j :: 0 <= j < i ==> lastWeek[j].repo != thisWeek[i].repo)
        && (trends[i] == Fell <==>
             exists j :: 0 <= j < i && j < |lastWeek| && lastWeek[j].repo == thisWeek[i].repo)
        && (trends[i] == Rose <==>
             forall j :: 0 <= j <= i && j < |lastWeek| ==> lastWeek[j].repo != thisWeek[i].repo)
  {
    var ranked := RankDiff(thisWeek, lastWeek);
    forall i | 0 <= i < NumberOfMods {
      TrendAgainstLastWeek(lastWeek, thisWeek[i].repo, i);
    }
  }

  /** Without last week's ranking every mod is shown as risen or new. */
  lemma NoPreviousRankingAllRose(thisWeek: seq<Change>)
    requires |thisWeek| >= NumberOfMods
    ensures forall i :: 0 <= i < NumberOfMods ==> RankingTrends(RankDiff(thisWeek, []))[i] == Rose
  {
  }

  /** Worked example: last week's ranking is A, B, C. */
  lemma ExampleOldIndices(lastWeek: seq<Change>)
    requires lastWeek == [Change("A", 30), Change("B", 20), Change("C", 10)]
    ensures OldIndex(lastWeek, "A") == 0
    ensures OldIndex(lastWeek, "B") == 1
    ensures OldIndex(lastWeek, "C") == 2
  {
    assert lastWeek[0].repo == "A" && lastWeek[1].repo == "B" && lastWeek[2].repo == "C";
    assert "A" != "B" && "A" != "C" && "B" != "C";
  }

  /** Worked example: this week's ranking B, A, C against last week's A, B, C
      shows risen, fell, unchanged. */
  lemma TrendExample(lastWeek: seq<Change>, thisWeek: seq<Change>)
    requires lastWeek == [Change("A", 30), Change("B", 20), Change("C", 10)]
    requires thisWeek == [Change("B", 35), Change("A", 25), Change("C", 5)]
    ensures var ranked := RankDiff(thisWeek, lastWeek);
      && Classify(ranked[0].oldIndex, 0) == Rose
      && Classify(ranked[1].oldIndex, 1) == Fell
      && Classify(ranked[2].oldIndex, 2) == Unchanged
  {
    ExampleOldIndices(lastWeek);
    var ranked := RankDiff(thisWeek, lastWeek);
    assert thisWeek[0].repo == "B" && thisWeek[1].repo == "A" && thisWeek[2].repo == "C";
    assert ranked[0].oldIndex == OldIndex(lastWeek, "B");
    assert ranked[1].oldIndex == OldIndex(lastWeek, "A");
    assert ranked[2].oldIndex == OldIndex(lastWeek, "C");
  }

  /** The number of mods in the database, grouping releases by unique name:
      counts each release whose unique name no earlier release has. */
  function TotalMods(releases: seq<Release>): (n: nat)
    ensures n == |set r | r in releases :: r.uniqueName|
  {
    if |releases| == 0 then 0
    else
      var init, last := releases[..|releases| - 1], releases[|releases| - 1];
      var seen := exists j :: 0 <= j < |init| && init[j].uniqueName == last.uniqueName;
      assert (set r | r in releases :: r.uniqueName) == (set r | r in init :: r.uniqueName) + {last.uniqueName} by {
        assert releases == init + [last];
      }
      assert seen <==> last.uniqueName in (set r | r in init :: r.uniqueName);
      TotalMods(init) + (if seen then 0 else 1)
  }

  /** The reporting window ending at `now`, one week long. */
  function ThisWeek(now: int): (w: Window)
    ensures w.to == now && w.to - w.from == WeekSeconds
  {
    Window(now - WeekSeconds, now)
  }

  /** The reporting window of the week before: this week's window one week earlier. */
  function LastWeek(now: int): (w: Window)
    ensures w == ThisWeek(now - WeekSeconds)
    ensures w.to == ThisWeek(now).from
  {
    Window(now - 2 * WeekSeconds, now - WeekSeconds)
  }

  /** Both windows are closed, so they share exactly one instant: a sample taken
      exactly one week ago counts in both weeks. */
  lemma WeeksShareBoundary(now: int, u: Update)
    ensures InWindow(u, ThisWeek(now)) && InWindow(u, LastWeek(now)) <==> u.timestamp == now - WeekSeconds
  {
  }

  /** This week's top list compared with last week's: the ranking the report
      shows. Each entry is one of this week's largest valid changes, at its
      position in this week's top list, with its index in last week's top list. */
  function WeeklyRanking(thisWeek: seq<Change>, lastWeek: seq<Change>, releases: seq<Release>): (ranked: seq<RankedChange>)
    ensures |ranked| == if |ValidChanges(thisWeek, ModsToIgnore, releases)| < NumberOfMods
      then |ValidChanges(thisWeek, ModsToIgnore, releases)| else NumberOfMods
    ensures forall i :: 0 <= i < |ranked| ==>
      && Change(ranked[i].repo, ranked[i].change) in thisWeek
      && IsValidMod(ranked[i].repo, ModsToIgnore, releases)
    ensures multiset(Unranked(ranked)) <= multiset(thisWeek)
    ensures forall i, j :: 0 <= i < j < |ranked| ==> ranked[i].change >= ranked[j].change
    ensures forall c, i ::
      (c in thisWeek && IsValidMod(c.repo, ModsToIgnore, releases) && c !in Unranked(ranked) && 0 <= i < |ranked|)
      ==> ranked[i].change >= c.change
    ensures OldIndicesAgainst(ranked, SelectTop(lastWeek, ModsToIgnore, releases))
  {
    var top := SelectTop(thisWeek, ModsToIgnore, releases);
    var previous := SelectTop(lastWeek, ModsToIgnore, releases);
    var ranked := RankDiff(top, previous);
    UnrankedRankDiff(top, previous);
    RankDiffOldIndices(top, previous);
    RankingOfTop(thisWeek, releases, top, ranked);
    ranked
  }

  /** Each entry's old index is -1 exactly when its repository is not in
      `previous`, and otherwise the first position holding it there. */
  ghost predicate OldIndicesAgainst(ranked: seq<RankedChange>, previous: seq<Change>)
  {
    forall i :: 0 <= i < |ranked| ==>
      && -1 <= ranked[i].oldIndex < |previous|
      && (ranked[i].oldIndex == -1 <==> forall j :: 0 <= j < |previous| ==> previous[j].repo != ranked[i].repo)
      && (0 <= ranked[i].oldIndex ==>
            && previous[ranked[i].oldIndex].repo == ranked[i].repo
            && forall j :: 0 <= j < ranked[i].oldIndex ==> previous[j].repo != ranked[i].repo)
  }

  /** The rank diff gives every entry its old index against last week's list. */
  lemma RankDiffOldIndices(thisWeek: seq<Change>, lastWeek: seq<Change>)
    ensures OldIndicesAgainst(RankDiff(thisWeek, lastWeek), lastWeek)
  {
  }

  /** A ranking that lists this week's top list, position by position, keeps
      the top list's guarantees. */
  lemma RankingOfTop(thisWeek: seq<Change>, releases: seq<Release>, top: seq<Change>, ranked: seq<RankedChange>)
    requires top == SelectTop(thisWeek, ModsToIgnore, releases)
    requires Unranked(ranked) == top
    ensures |ranked| == if |ValidChanges(thisWeek, ModsToIgnore, releases)| < NumberOfMods
      then |ValidChanges(thisWeek, ModsToIgnore, releases)| else NumberOfMods
    ensures forall i :: 0 <= i < |ranked| ==>
      && Change(ranked[i].repo, ranked[i].change) in thisWeek
      && IsValidMod(ranked[i].repo, ModsToIgnore, releases)
    ensures multiset(Unranked(ranked)) <= multiset(thisWeek)
    ensures forall i, j :: 0 <= i < j < |ranked| ==> ranked[i].change >= ranked[j].change
    ensures forall c, i ::
      (c in thisWeek && IsValidMod(c.repo, ModsToIgnore, releases) && c !in Unranked(ranked) && 0 <= i < |ranked|)
      ==> ranked[i].change >= c.change
  {
    forall i | 0 <= i < |ranked|
      ensures Change(ranked[i].repo, ranked[i].change) in thisWeek
      ensures IsValidMod(ranked[i].repo, ModsToIgnore, releases)
    {
      assert Change(ranked[i].repo, ranked[i].change) == top[i] && top[i] in top;
    }
    forall i, j | 0 <= i < j < |ranked|
      ensures ranked[i].change >= ranked[j].change
    {
      assert ranked[i].change == top[i].change && ranked[j].change == top[j].change;
    }
    forall c, i | c in thisWeek && IsValidMod(c.repo, ModsToIgnore, releases) && c !in top && 0 <= i < |ranked|
      ensures ranked[i].change >= c.change
    {
      assert ranked[i].change == top[i].change && top[i] in top;
    }
  }

  /** The ranking without the old indices. */
  function Unranked(ranked: seq<RankedChange>): (cs: seq<Change>)
    ensures |cs| == |ranked|
    ensures forall i :: 0 <= i < |ranked| ==> cs[i] == Change(ranked[i].repo, ranked[i].change)
  {
    seq(|ranked|, i requires 0 <= i < |ranked| => Change(ranked[i].repo, ranked[i].change))
  }

  /** Dropping the old indices from the rank diff gives back this week's list. */
  lemma UnrankedRankDiff(thisWeek: seq<Change>, lastWeek: seq<Change>)
    ensures Unranked(RankDiff(thisWeek, lastWeek)) == thisWeek
  {
    var u := Unranked(RankDiff(thisWeek, lastWeek));
    assert forall i :: 0 <= i < |thisWeek| ==> u[i] == thisWeek[i];
  }

  /** What the report shows. */
  datatype Report = Report(newMods: nat, ranking: seq<RankedChange>, totalMods: nat)

  /** The analysis part of `MainAsync`: analyse this week and last week, rank
      both, and compare the rankings. */
  method WeeklyReport(entries: seq<Entry>, releases: seq<Release>, now: int)
    returns (r: Result<Report, AnalysisError>)
    ensures r.Success? <==>
      UniqueRepos(KeptEntries(entries, ThisWeek(now))) && UniqueRepos(KeptEntries(entries, LastWeek(now)))
    ensures r.Success? ==> r.value.newMods == CountNew(entries, ThisWeek(now))
    ensures r.Success? ==>
      r.value.ranking == WeeklyRanking(Changes(entries, ThisWeek(now)), Changes(entries, LastWeek(now)), releases)
    ensures r.Success? ==> r.value.totalMods == |set x | x in releases :: x.uniqueName|
  {
    var thisWeek := AnalyzeMods(entries, ThisWeek(now));
    if thisWeek.Failure? {
      return Failure(thisWeek.error);
    }
    var lastWeek := AnalyzeMods(entries, LastWeek(now));
    if lastWeek.Failure? {
      return Failure(lastWeek.error);
    }
    var ranking := WeeklyRanking(thisWeek.value.changes, lastWeek.value.changes, releases);
    r := Success(Report(thisWeek.value.newMods, ranking, TotalMods(releases)));
  }
}
