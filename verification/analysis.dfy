/** `AnalyzeMods`: per-mod download change over a reporting window, after IQR
    outlier rejection, and the count of mods that are new in that window. */
module Analysis {
  import opened Wrappers
  import opened Sorting
  import opened Quartiles

  /** Repository name of placeholder entries in the download history. */
  const IgnoreEntry: string := "IGNORE_ENTRY"

  /** One sample of a mod's download history: Unix timestamp and download count. */
  datatype Update = Update(timestamp: int, count: int)

  /** A mod's download history. A missing (null) update list is modelled as the
      empty list: the source skips both alike. */
  datatype Entry = Entry(repo: string, updates: seq<Update>)

  /** The closed reporting window [from, to], as Unix timestamps. */
  datatype Window = Window(from: int, to: int)

  /** What one entry contributes: whether it is new in the window and its download change. */
  datatype EntryReport = EntryReport(isNew: bool, delta: int)

  /** One key/value pair of the source's dictionary of download changes. */
  datatype Change = Change(repo: string, change: int)

  /** Number of new mods, and the dictionary's pairs in insertion order
      (the order in which a dictionary that is only added to enumerates them). */
  datatype Analysis = Analysis(newMods: nat, changes: seq<Change>)

  /** `Dictionary.Add` throws when a repository is added twice. */
  datatype AnalysisError = DuplicateRepo(repo: string)

  predicate InWindow(u: Update, w: Window)
  {
    w.from <= u.timestamp <= w.to
  }

  function Timestamp(u: Update): int
  {
    u.timestamp
  }

  /** Samples ordered newest first. */
  ghost predicate NewestFirstOrder(us: seq<Update>)
  {
    forall i, j :: 0 <= i < j < |us| ==> us[i].timestamp >= us[j].timestamp
  }

  /** The samples that fall inside the window, in their original order. */
  function SamplesInWindow(us: seq<Update>, w: Window): (r: seq<Update>)
    ensures forall u :: u in r <==> u in us && InWindow(u, w)
    ensures forall u :: multiset(r)[u] == if InWindow(u, w) then multiset(us)[u] else 0
  {
    if |us| == 0 then []
    else
      assert us == [us[0]] + us[1..];
      (if InWindow(us[0], w) then [us[0]] else []) + SamplesInWindow(us[1..], w)
  }

  /** Some sample lies strictly before `from`. */
  predicate HasUpdateBefore(us: seq<Update>, from: int): (b: bool)
    ensures b <==> exists u :: u in us && u.timestamp < from
  {
    exists i :: 0 <= i < |us| && us[i].timestamp < from
  }

  /** The samples sorted by timestamp, newest first. */
  function NewestFirst(us: seq<Update>): (r: seq<Update>)
    ensures NewestFirstOrder(r)
    ensures multiset(r) == multiset(us)
  {
    var r := SortDescendingBy(us, Timestamp);
    assert forall i, j :: 0 <= i < j < |r| ==> Timestamp(r[i]) >= Timestamp(r[j]);
    r
  }

  /** The download counts of the samples, position by position. */
  function Counts(us: seq<Update>): (r: seq<int>)
    ensures |r| == |us|
    ensures forall i :: 0 <= i < |us| ==> r[i] == us[i].count
  {
    if |us| == 0 then [] else [us[0].count] + Counts(us[1..])
  }

  lemma {:induction false} CountsAppend(a: seq<Update>, b: seq<Update>)
    ensures Counts(a + b) == Counts(a) + Counts(b)
  {
    assert |Counts(a + b)| == |Counts(a) + Counts(b)|;
    forall i | 0 <= i < |a + b|
      ensures Counts(a + b)[i] == (Counts(a) + Counts(b))[i]
    {
      if i < |a| {
        assert (a + b)[i] == a[i];
      } else {
        assert (a + b)[i] == b[i - |a|];
      }
    }
  }

  /** Taking the sample at `j` out of `b` takes its count out of the counts. */
  lemma {:induction false} CountsRemove(b: seq<Update>, j: nat)
    requires j < |b|
    ensures multiset(Counts(b)) == multiset(Counts(b[..j] + b[j + 1..])) + multiset{b[j].count}
  {
    var left, right := b[..j], b[j + 1..];
    assert b == left + ([b[j]] + right);
    CountsAppend(left, [b[j]] + right);
    CountsAppend([b[j]], right);
    CountsAppend(left, right);
    assert Counts([b[j]]) == [b[j].count];
    assert Counts(b) == Counts(left) + ([b[j].count] + Counts(right));
    assert Counts(left + right) == Counts(left) + Counts(right);
  }

  /** Reordering the samples reorders their counts alike. */
  lemma {:induction false} CountsPermutation(a: seq<Update>, b: seq<Update>)
    requires multiset(a) == multiset(b)
    ensures multiset(Counts(a)) == multiset(Counts(b))
  {
    assert |a| == |multiset(a)| == |multiset(b)| == |b|;
    if |a| > 0 {
      assert a[0] in multiset(b);
      var j :| 0 <= j < |b| && b[j] == a[0];
      var rest := b[..j] + b[j + 1..];
      assert b == b[..j] + [b[j]] + b[j + 1..];
      assert multiset(b) == multiset(b[..j]) + multiset{b[j]} + multiset(b[j + 1..]);
      assert multiset(rest) == multiset(b[..j]) + multiset(b[j + 1..]);
      assert a == [a[0]] + a[1..];
      assert multiset(a[1..]) == multiset(a) - multiset{a[0]};
      assert multiset(a[1..]) == multiset(rest);
      CountsPermutation(a[1..], rest);
      CountsRemove(b, j);
      CountsRemove(a, 0);
      assert a[..0] + a[1..] == a[1..];
    }
  }

  /** The samples whose count lies within the fences, in their original order. */
  function WithinFences(us: seq<Update>, f: Fences): (r: seq<Update>)
    ensures forall u :: u in r <==> u in us && !IsOutlier(u.count, f.q1, f.q3)
  {
    if |us| == 0 then []
    else
      assert us == [us[0]] + us[1..];
      (if IsOutlier(us[0].count, f.q1, f.q3) then [] else [us[0]]) + WithinFences(us[1..], f)
  }

  /** The fence filter keeps newest-first order. */
  lemma {:induction false} WithinFencesOrder(us: seq<Update>, f: Fences)
    requires NewestFirstOrder(us)
    ensures NewestFirstOrder(WithinFences(us, f))
  {
    if |us| > 0 {
      var rest := WithinFences(us[1..], f);
      TailOrder(us);
      WithinFencesOrder(us[1..], f);
      if IsOutlier(us[0].count, f.q1, f.q3) {
        assert WithinFences(us, f) == rest;
      } else {
        ConsOrder(us[0], rest);
        assert WithinFences(us, f) == [us[0]] + rest;
      }
    }
  }

  /** The tail of a newest-first list is newest first, and no newer than its head. */
  lemma TailOrder(us: seq<Update>)
    requires NewestFirstOrder(us) && |us| > 0
    ensures NewestFirstOrder(us[1..])
    ensures forall u :: u in us[1..] ==> u.timestamp <= us[0].timestamp
  {
    forall u | u in us[1..]
      ensures u.timestamp <= us[0].timestamp
    {
      var k :| 0 <= k < |us[1..]| && us[1..][k] == u;
      assert us[k + 1] == u;
    }
  }

  /** A sample no older than every sample of a newest-first list can go in front of it. */
  lemma ConsOrder(x: Update, rest: seq<Update>)
    requires NewestFirstOrder(rest)
    requires forall u :: u in rest ==> u.timestamp <= x.timestamp
    ensures NewestFirstOrder([x] + rest)
  {
    var r := [x] + rest;
    forall i, j | 0 <= i < j < |r|
      ensures r[i].timestamp >= r[j].timestamp
    {
      assert r[j] == rest[j - 1];
      if i > 0 {
        assert r[i] == rest[i - 1];
      } else {
        assert rest[j - 1] in rest;
      }
    }
  }

  /** The outlier filter: with four or more samples, keep those within the IQR
      fences of their counts; with fewer, keep them all. Order is preserved and
      a non-empty input never becomes empty. */
  function RemoveOutliers(ordered: seq<Update>): (r: seq<Update>)
    ensures |ordered| < 4 ==> r == ordered
    ensures |ordered| >= 4 ==>
      var f := FencesOf(Counts(ordered));
      forall u :: u in r <==> u in ordered && !IsOutlier(u.count, f.q1, f.q3)
    ensures NewestFirstOrder(ordered) ==> NewestFirstOrder(r)
    ensures |ordered| > 0 ==> |r| > 0
  {
    if |ordered| >= 4 then
      var f := FencesOf(Counts(ordered));
      assert NewestFirstOrder(ordered) ==> NewestFirstOrder(WithinFences(ordered, f)) by {
        if NewestFirstOrder(ordered) {
          WithinFencesOrder(ordered, f);
        }
      }
      var i :| 0 <= i < |ordered| && ordered[i].count == f.q1;
      assert ordered[i] in WithinFences(ordered, f);
      WithinFences(ordered, f)
    else
      ordered
  }

  /** The in-window samples left after outlier rejection, newest first. */
  function Survivors(us: seq<Update>, w: Window): (r: seq<Update>)
    ensures NewestFirstOrder(r)
    ensures |SamplesInWindow(us, w)| > 0 ==> |r| > 0
  {
    RemoveOutliers(NewestFirst(SamplesInWindow(us, w)))
  }

  /** `u` is a sample of `s` with the latest timestamp. */
  ghost predicate IsLatest(s: seq<Update>, u: Update)
  {
    u in s && forall v :: v in s ==> v.timestamp <= u.timestamp
  }

  /** `u` is a sample of `s` with the earliest timestamp. */
  ghost predicate IsEarliest(s: seq<Update>, u: Update)
  {
    u in s && forall v :: v in s ==> u.timestamp <= v.timestamp
  }

  /** `d` is the count of a latest sample of `s` minus the count of an earliest one. */
  ghost predicate IsWindowDelta(s: seq<Update>, d: int)
  {
    exists newest, oldest :: IsLatest(s, newest) && IsEarliest(s, oldest) && d == newest.count - oldest.count
  }

  /** The delta of a newest-first, non-empty sample list is its first count minus its last. */
  lemma FirstAndLastDelta(s: seq<Update>)
    requires |s| > 0 && NewestFirstOrder(s)
    ensures IsWindowDelta(s, s[0].count - s[|s| - 1].count)
  {
    var newest, oldest := s[0], s[|s| - 1];
    forall u | u in s
      ensures oldest.timestamp <= u.timestamp <= newest.timestamp
    {
      var k :| 0 <= k < |s| && s[k] == u;
    }
    assert IsLatest(s, newest) && IsEarliest(s, oldest);
  }

  lemma NoUpdateBefore(us: seq<Update>, from: int)
    ensures !HasUpdateBefore(us, from) <==> forall u :: u in us ==> u.timestamp >= from
  {
  }

  /** Newness and download change of an entry with at least one sample in the window. */
  function WindowReport(us: seq<Update>, w: Window): (r: EntryReport)
    requires |SamplesInWindow(us, w)| > 0
    ensures r.isNew <==> forall u :: u in us ==> u.timestamp >= w.from
    ensures IsWindowDelta(Survivors(us, w), r.delta)
  {
    NoUpdateBefore(us, w.from);
    var survivors := Survivors(us, w);
    FirstAndLastDelta(survivors);
    EntryReport(!HasUpdateBefore(us, w.from), survivors[0].count - survivors[|survivors| - 1].count)
  }

  /** An entry `AnalyzeMods` takes into account: not a placeholder, and with a sample in the window. */
  ghost predicate Kept(e: Entry, w: Window)
  {
    e.repo != IgnoreEntry && exists u :: u in e.updates && InWindow(u, w)
  }

  /** An entry with no sample before the window: new in the window. */
  ghost predicate IsNewIn(e: Entry, w: Window)
  {
    forall u :: u in e.updates ==> u.timestamp >= w.from
  }

  /** One iteration of the loop in `AnalyzeMods`: `None` when the entry is skipped. */
  function AnalyzeEntry(e: Entry, w: Window): (r: Option<EntryReport>)
    ensures r.Some? <==> Kept(e, w)
    ensures r.Some? ==> r.value.isNew == IsNewIn(e, w)
  {
    if e.repo == IgnoreEntry || |e.updates| == 0 then None
    else
      var inWindow := SamplesInWindow(e.updates, w);
      if |inWindow| == 0 then
        assert forall u :: u in e.updates ==> !InWindow(u, w);
        None
      else
        assert inWindow[0] in e.updates && InWindow(inWindow[0], w);
        Some(WindowReport(e.updates, w))
  }

  /** The change recorded for a kept entry is the count of its newest surviving
      sample minus that of its oldest surviving sample. */
  lemma EntryDelta(e: Entry, w: Window)
    requires Kept(e, w)
    ensures IsWindowDelta(Survivors(e.updates, w), AnalyzeEntry(e, w).value.delta)
  {
  }

  /** How the survivors relate to the in-window samples: with fewer than four
      nothing is removed; otherwise exactly the in-window samples within the
      fences of the in-window counts remain, whatever their order. */
  lemma SurvivorsOfWindow(us: seq<Update>, w: Window)
    ensures |SamplesInWindow(us, w)| < 4 ==>
      multiset(Survivors(us, w)) == multiset(SamplesInWindow(us, w))
    ensures |SamplesInWindow(us, w)| >= 4 ==>
      var f := FencesOf(Counts(SamplesInWindow(us, w)));
      forall u :: u in Survivors(us, w) <==> u in us && InWindow(u, w) && !IsOutlier(u.count, f.q1, f.q3)
  {
    var inWindow := SamplesInWindow(us, w);
    var ordered := NewestFirst(inWindow);
    assert |ordered| == |multiset(ordered)| == |multiset(inWindow)| == |inWindow|;
    assert forall u :: u in ordered <==> u in inWindow by {
      forall u
        ensures u in ordered <==> u in inWindow
      {
        assert u in ordered <==> u in multiset(ordered);
        assert u in inWindow <==> u in multiset(inWindow);
      }
    }
    if |inWindow| >= 4 {
      CountsPermutation(ordered, inWindow);
      FencesIgnoreOrder(Counts(ordered), Counts(inWindow));
    }
  }

  /** Sequences with the same elements, counted with multiplicity, have the same members. */
  lemma SameMembers(s: seq<Update>, t: seq<Update>)
    requires multiset(s) == multiset(t)
    ensures forall u :: u in s <==> u in t
  {
    forall u
      ensures u in s <==> u in t
    {
      assert u in s <==> u in multiset(s);
      assert u in t <==> u in multiset(t);
    }
  }

  /** Whether `d` is a window delta depends only on which samples there are. */
  lemma WindowDeltaSameMembers(s: seq<Update>, t: seq<Update>, d: int)
    requires forall u :: u in s <==> u in t
    requires IsWindowDelta(s, d)
    ensures IsWindowDelta(t, d)
  {
    var newest, oldest :| IsLatest(s, newest) && IsEarliest(s, oldest) && d == newest.count - oldest.count;
    assert IsLatest(t, newest) && IsEarliest(t, oldest);
  }

  /** With fewer than four samples in the window, the change is the count of a
      latest in-window sample minus that of an earliest one. */
  lemma SmallWindowDelta(e: Entry, w: Window)
    requires Kept(e, w)
    requires |SamplesInWindow(e.updates, w)| < 4
    ensures IsWindowDelta(SamplesInWindow(e.updates, w), AnalyzeEntry(e, w).value.delta)
  {
    SurvivorsOfWindow(e.updates, w);
    EntryDelta(e, w);
    var s, t := Survivors(e.updates, w), SamplesInWindow(e.updates, w);
    SameMembers(s, t);
    WindowDeltaSameMembers(s, t, AnalyzeEntry(e, w).value.delta);
  }

  /** No two samples of `s` share a timestamp. */
  ghost predicate DistinctTimestamps(s: seq<Update>)
  {
    forall a, b :: a in s && b in s && a.timestamp == b.timestamp ==> a == b
  }

  /** When no two samples share a timestamp, the window delta is unique. */
  lemma WindowDeltaUnique(s: seq<Update>, d1: int, d2: int)
    requires DistinctTimestamps(s)
    requires IsWindowDelta(s, d1) && IsWindowDelta(s, d2)
    ensures d1 == d2
  {
    var n1, o1 :| IsLatest(s, n1) && IsEarliest(s, o1) && d1 == n1.count - o1.count;
    var n2, o2 :| IsLatest(s, n2) && IsEarliest(s, o2) && d2 == n2.count - o2.count;
    assert n1.timestamp == n2.timestamp;
    assert o1.timestamp == o2.timestamp;
  }

  /** No two entries of `es` share a repository. */
  ghost predicate UniqueRepos(es: seq<Entry>)
  {
    forall i, j :: 0 <= i < j < |es| ==> es[i].repo != es[j].repo
  }

  /** Two entries of `es` have repository `repo`. */
  ghost predicate RepoTwice(es: seq<Entry>, repo: string)
  {
    exists i, j :: 0 <= i < j < |es| && es[i].repo == repo && es[j].repo == repo
  }

  /** No two pairs of `cs` share a repository. */
  ghost predicate DistinctRepos(cs: seq<Change>)
  {
    forall i, j :: 0 <= i < j < |cs| ==> cs[i].repo != cs[j].repo
  }

  /** The entries `AnalyzeMods` does not skip, in input order. */
  ghost function KeptEntries(es: seq<Entry>, w: Window): (r: seq<Entry>)
    ensures forall e :: e in r <==> e in es && Kept(e, w)
  {
    if |es| == 0 then []
    else
      var last := es[|es| - 1];
      KeptEntries(es[..|es| - 1], w) + (if Kept(last, w) then [last] else [])
  }

  /** Number of kept entries that have no sample before the window. */
  ghost function CountNew(es: seq<Entry>, w: Window): (n: nat)
    ensures n <= |KeptEntries(es, w)|
  {
    if |es| == 0 then 0
    else
      var last := es[|es| - 1];
      CountNew(es[..|es| - 1], w) + (if Kept(last, w) && IsNewIn(last, w) then 1 else 0)
  }

  /** The dictionary holding the pairs `cs`: one key per pair, since the
      repositories are distinct. */
  function ChangeMap(cs: seq<Change>): (m: map<string, int>)
    requires DistinctRepos(cs)
    ensures m.Keys == set c | c in cs :: c.repo
    ensures |m| == |cs|
    ensures forall i :: 0 <= i < |cs| ==> cs[i].repo in m && m[cs[i].repo] == cs[i].change
  {
    assert forall c, d :: c in cs && d in cs && c.repo == d.repo ==> c == d by {
      forall c, d | c in cs && d in cs && c.repo == d.repo
        ensures c == d
      {
        var i :| 0 <= i < |cs| && cs[i] == c;
        var j :| 0 <= j < |cs| && cs[j] == d;
      }
    }
    var m := map c | c in cs :: c.repo := c.change;
    RepoCount(cs);
    m
  }

  /** Distinct repositories: as many repositories as pairs. */
  lemma {:induction false} RepoCount(cs: seq<Change>)
    requires DistinctRepos(cs)
    ensures |set c | c in cs :: c.repo| == |cs|
  {
    if |cs| > 0 {
      ReposOfTail(cs);
      RepoCount(cs[1..]);
    }
  }

  /** The repositories of a non-empty list of pairs are those of its tail plus
      the first one, which is fresh when the repositories are distinct. */
  lemma ReposOfTail(cs: seq<Change>)
    requires DistinctRepos(cs) && |cs| > 0
    ensures DistinctRepos(cs[1..])
    ensures (set c | c in cs :: c.repo) == (set c | c in cs[1..] :: c.repo) + {cs[0].repo}
    ensures cs[0].repo !in (set c | c in cs[1..] :: c.repo)
  {
    var rest := cs[1..];
    assert forall k :: 0 <= k < |rest| ==> rest[k] == cs[k + 1];
    assert cs == [cs[0]] + rest;
    forall c | c in rest
      ensures c.repo != cs[0].repo
    {
      var k :| 0 <= k < |rest| && rest[k] == c;
    }
  }

  /** `cs` records, position by position, the repository and change of the kept entries `kept`. */
  ghost predicate Tabulates(cs: seq<Change>, kept: seq<Entry>, w: Window)
  {
    && |cs| == |kept|
    && forall i :: 0 <= i < |cs| ==>
         && cs[i].repo == kept[i].repo
         && Kept(kept[i], w)
         && cs[i].change == AnalyzeEntry(kept[i], w).value.delta
  }

  /** The pairs a successful run adds, in order: each kept entry's repository
      with its download change. */
  ghost function Changes(es: seq<Entry>, w: Window): (cs: seq<Change>)
    ensures Tabulates(cs, KeptEntries(es, w), w)
  {
    var kept := KeptEntries(es, w);
    assert forall i :: 0 <= i < |kept| ==> kept[i] in kept;
    seq(|kept|, i requires 0 <= i < |kept| => Change(kept[i].repo, AnalyzeEntry(kept[i], w).value.delta))
  }

  /** A tabulation of given kept entries is unique. */
  lemma TabulatesUnique(cs: seq<Change>, ds: seq<Change>, kept: seq<Entry>, w: Window)
    requires Tabulates(cs, kept, w) && Tabulates(ds, kept, w)
    ensures cs == ds
  {
    assert forall i :: 0 <= i < |cs| ==> cs[i] == ds[i];
  }

  /** The kept entries of a prefix are a prefix of the kept entries. */
  lemma {:induction false} KeptPrefix(es: seq<Entry>, i: nat, w: Window)
    requires i <= |es|
    ensures KeptEntries(es[..i], w) <= KeptEntries(es, w)
    decreases |es| - i
  {
    if i < |es| {
      KeptPrefix(es, i + 1, w);
      assert es[..i + 1][..i] == es[..i];
    } else {
      assert es[..i] == es;
    }
  }

  /** The dictionary built from a tabulation has exactly the kept repositories as keys. */
  lemma DictionaryKeys(cs: seq<Change>, kept: seq<Entry>, w: Window)
    requires Tabulates(cs, kept, w) && DistinctRepos(cs)
    ensures ChangeMap(cs).Keys == set e | e in kept :: e.repo
  {
    forall r | r in ChangeMap(cs).Keys
      ensures exists e :: e in kept && e.repo == r
    {
      var c :| c in cs && c.repo == r;
      var k :| 0 <= k < |cs| && cs[k] == c;
      assert kept[k] in kept;
    }
    forall e | e in kept
      ensures e.repo in ChangeMap(cs).Keys
    {
      var k :| 0 <= k < |kept| && kept[k] == e;
      assert cs[k] in cs;
    }
  }

  /** In the dictionary built from a tabulation with distinct repositories, each
      kept entry's repository holds that entry's change. */
  lemma DictionaryValues(cs: seq<Change>, es: seq<Entry>, w: Window)
    requires Tabulates(cs, KeptEntries(es, w), w) && DistinctRepos(cs)
    ensures forall e :: e in es && Kept(e, w) ==> ChangeMap(cs)[e.repo] == AnalyzeEntry(e, w).value.delta
    ensures |ChangeMap(cs)| == |cs|
  {
    var kept := KeptEntries(es, w);
    forall e | e in es && Kept(e, w)
      ensures e.repo in ChangeMap(cs) && ChangeMap(cs)[e.repo] == AnalyzeEntry(e, w).value.delta
    {
      var k :| 0 <= k < |kept| && kept[k] == e;
      assert cs[k].repo == e.repo;
    }
  }

  /** One more entry extends the kept entries and the new-mod count of the prefix. */
  lemma PrefixStep(es: seq<Entry>, i: nat, w: Window)
    requires i < |es|
    ensures KeptEntries(es[..i + 1], w) == KeptEntries(es[..i], w) + (if Kept(es[i], w) then [es[i]] else [])
    ensures CountNew(es[..i + 1], w) == CountNew(es[..i], w) + (if Kept(es[i], w) && IsNewIn(es[i], w) then 1 else 0)
  {
    assert es[..i + 1][..i] == es[..i];
  }

  /** What the loop of `AnalyzeMods` knows after the first `i` entries: the
      pairs tabulate the kept entries so far, under distinct repositories, and
      `n` counts the new ones among them. */
  ghost predicate LoopInvariant(es: seq<Entry>, i: nat, w: Window, cs: seq<Change>, n: nat)
  {
    && i <= |es|
    && Tabulates(cs, KeptEntries(es[..i], w), w)
    && DistinctRepos(cs)
    && n == CountNew(es[..i], w)
  }

  /** Before the loop nothing is kept. */
  lemma LoopEntry(es: seq<Entry>, w: Window)
    ensures LoopInvariant(es, 0, w, [], 0)
  {
    assert es[..0] == [];
  }

  /** A skipped entry keeps the invariant as it is. */
  lemma SkipStep(es: seq<Entry>, i: nat, w: Window, cs: seq<Change>, n: nat)
    requires i < |es| && LoopInvariant(es, i, w, cs, n)
    requires AnalyzeEntry(es[i], w).None?
    ensures LoopInvariant(es, i + 1, w, cs, n)
  {
    PrefixStep(es, i, w);
  }

  /** A kept entry with a fresh repository adds its pair and, when new, one to the count. */
  lemma KeepStep(es: seq<Entry>, i: nat, w: Window, cs: seq<Change>, n: nat, report: EntryReport)
    requires i < |es| && LoopInvariant(es, i, w, cs, n)
    requires AnalyzeEntry(es[i], w) == Some(report)
    requires forall j :: 0 <= j < |cs| ==> cs[j].repo != es[i].repo
    ensures LoopInvariant(es, i + 1, w, cs + [Change(es[i].repo, report.delta)], if report.isNew then n + 1 else n)
  {
    PrefixStep(es, i, w);
    TabulatesAppend(cs, KeptEntries(es[..i], w), w, es[i]);
    DistinctAppend(cs, Change(es[i].repo, report.delta));
  }

  /** A kept entry whose repository is already among the pairs makes two kept
      entries share that repository. */
  lemma DuplicateKept(es: seq<Entry>, i: nat, w: Window, cs: seq<Change>, n: nat, j: nat)
    requires i < |es| && LoopInvariant(es, i, w, cs, n)
    requires AnalyzeEntry(es[i], w).Some?
    requires j < |cs| && cs[j].repo == es[i].repo
    ensures RepoTwice(KeptEntries(es, w), es[i].repo)
    ensures !UniqueRepos(KeptEntries(es, w))
  {
    PrefixStep(es, i, w);
    var kept := KeptEntries(es[..i + 1], w);
    var b := |KeptEntries(es[..i], w)|;
    assert kept[j].repo == kept[b].repo == es[i].repo;
    KeptPrefix(es, i + 1, w);
    var all := KeptEntries(es, w);
    assert all[j] == kept[j] && all[b] == kept[b];
  }

  /** After the last entry the pairs describe every kept entry, and the
      dictionary they build has the kept repositories as keys. */
  lemma LoopExit(es: seq<Entry>, w: Window, cs: seq<Change>, n: nat)
    requires LoopInvariant(es, |es|, w, cs, n)
    ensures UniqueRepos(KeptEntries(es, w))
    ensures Tabulates(cs, KeptEntries(es, w), w)
    ensures DistinctRepos(cs)
    ensures ChangeMap(cs).Keys == set e | e in KeptEntries(es, w) :: e.repo
    ensures forall e :: e in es && Kept(e, w) ==> ChangeMap(cs)[e.repo] == AnalyzeEntry(e, w).value.delta
    ensures n == CountNew(es, w)
    ensures n <= |ChangeMap(cs)|
    ensures cs == Changes(es, w)
  {
    assert es[..|es|] == es;
    DictionaryKeys(cs, KeptEntries(es, w), w);
    DictionaryValues(cs, es, w);
    TabulatesUnique(cs, Changes(es, w), KeptEntries(es, w), w);
  }

  /** Appending a pair with a fresh repository keeps the repositories distinct. */
  lemma DistinctAppend(cs: seq<Change>, c: Change)
    requires DistinctRepos(cs)
    requires forall j :: 0 <= j < |cs| ==> cs[j].repo != c.repo
    ensures DistinctRepos(cs + [c])
  {
  }

  /** Appending a kept entry's change keeps the tabulation. */
  lemma TabulatesAppend(cs: seq<Change>, kept: seq<Entry>, w: Window, e: Entry)
    requires Tabulates(cs, kept, w) && Kept(e, w)
    ensures Tabulates(cs + [Change(e.repo, AnalyzeEntry(e, w).value.delta)], kept + [e], w)
  {
    var c := Change(e.repo, AnalyzeEntry(e, w).value.delta);
    var cs', kept' := cs + [c], kept + [e];
    forall i | 0 <= i < |cs|
      ensures cs'[i].repo == kept'[i].repo && Kept(kept'[i], w)
      ensures cs'[i].change == AnalyzeEntry(kept'[i], w).value.delta
    {
      assert cs'[i] == cs[i] && kept'[i] == kept[i];
    }
    assert cs'[|cs|] == c && kept'[|cs|] == e;
  }

  /** The state the loop of `AnalyzeMods` carries: the pairs added so far and the new-mod count. */
  datatype LoopState = LoopState(changes: seq<Change>, newMods: nat)

  /** One iteration of the loop in `AnalyzeMods`: a skipped entry changes
      nothing, a kept entry adds its pair and counts when new, and a kept
      entry whose repository is already present fails as `Dictionary.Add` does. */
  method AddEntry(entries: seq<Entry>, i: nat, w: Window, s: LoopState) returns (r: Result<LoopState, AnalysisError>)
    requires i < |entries| && LoopInvariant(entries, i, w, s.changes, s.newMods)
    ensures r.Success? ==> LoopInvariant(entries, i + 1, w, r.value.changes, r.value.newMods)
    ensures r.Failure? ==> RepoTwice(KeptEntries(entries, w), r.error.repo) && !UniqueRepos(KeptEntries(entries, w))
  {
    var report := AnalyzeEntry(entries[i], w);
    if report.None? {
      SkipStep(entries, i, w, s.changes, s.newMods);
      return Success(s);
    }
    var repo := entries[i].repo;
    if exists j :: 0 <= j < |s.changes| && s.changes[j].repo == repo {
      var j :| 0 <= j < |s.changes| && s.changes[j].repo == repo;
      DuplicateKept(entries, i, w, s.changes, s.newMods, j);
      return Failure(DuplicateRepo(repo));
    }
    KeepStep(entries, i, w, s.changes, s.newMods, report.value);
    var newMods := if report.value.isNew then s.newMods + 1 else s.newMods;
    r := Success(LoopState(s.changes + [Change(repo, report.value.delta)], newMods));
  }

  /** `AnalyzeMods`: visits the entries in order, skips those `AnalyzeEntry`
      rejects, counts the new ones and adds each kept entry's change under its
      repository. Adding a repository a second time fails, as `Dictionary.Add` does. */
  method AnalyzeMods(entries: seq<Entry>, w: Window) returns (r: Result<Analysis, AnalysisError>)
    ensures r.Success? <==> UniqueRepos(KeptEntries(entries, w))
    ensures r.Failure? ==> RepoTwice(KeptEntries(entries, w), r.error.repo)
    ensures r.Success? ==> Tabulates(r.value.changes, KeptEntries(entries, w), w)
    ensures r.Success? ==> DistinctRepos(r.value.changes)
    ensures r.Success? ==> ChangeMap(r.value.changes).Keys == set e | e in KeptEntries(entries, w) :: e.repo
    ensures r.Success? ==> forall e :: e in entries && Kept(e, w) ==>
      ChangeMap(r.value.changes)[e.repo] == AnalyzeEntry(e, w).value.delta
    ensures r.Success? ==> r.value.newMods == CountNew(entries, w)
    ensures r.Success? ==> r.value.newMods <= |ChangeMap(r.value.changes)|
    ensures r.Success? ==> r.value.changes == Changes(entries, w)
  {
    var s := LoopState([], 0);
    var i: nat := 0;
    LoopEntry(entries, w);
    while i < |entries|
      invariant LoopInvariant(entries, i, w, s.changes, s.newMods)
    {
      var next := AddEntry(entries, i, w, s);
      if next.Failure? {
        return Failure(next.error);
      }
      s := next.value;
      i := i + 1;
    }
    LoopExit(entries, w, s.changes, s.newMods);
    r := Success(Analysis(s.newMods, s.changes));
  }
}
