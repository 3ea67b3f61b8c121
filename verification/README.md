# OWWeeklyReport — a Dafny model of the weekly download analysis

OWWeeklyReport posts a weekly summary of Outer Wilds mod downloads. It reads
the download history of every mod, each history being a list of
(timestamp, download count) samples, and it reads the mod database. For a
reporting window it then does the following:

- It computes each mod's download change. Samples outside the window are
  dropped first. With four or more samples left, the outliers among them are
  rejected using IQR fences (interquartile range).
- It counts the mods that are new in the window.
- It ranks the ten mods with the largest change. Ignored mods, mods missing
  from the database and library mods are excluded.
- It compares that ranking with the previous week's and shows a
  risen/fell/unchanged indicator beside each mod.
- It reports the number of distinct mods in the database.

The model has five modules:

- `Wrappers`: `Option` and `Result`.
- `Sorting`: the stable LINQ sorts used by the report, and the fact that a
  sorted permutation is unique.
- `Quartiles`: the local `Quartile` function, the IQR fences and the outlier
  test.
- `Analysis`: `AnalyzeMods`. The per-entry pipeline is `AnalyzeEntry` and
  `WindowReport`. The dictionary is a sequence of `Change` pairs in insertion
  order, with a `map` view (`ChangeMap`). Adding a repository twice is the
  error `DuplicateRepo`, as `Dictionary.Add` throws.
- `Ranking`: `IsValidMod`, the top-ten selection, the `oldIndex` loop, the
  indicator classification and the total mod count. `WeeklyReport` combines
  them with two `AnalyzeMods` runs, for this week and for last week.

Notes on what the code does:

- **Quartile.** In `Quartile`, `whichQuartile * (orderedData.Count + 1) / 4` is
  integer arithmetic. So the interpolation weight `alpha` is always 0, and the
  quartile is the sample at rank `q*(n+1)/4`. The code still reads
  `orderedData[k]`, so the model requires both indices in range.
  `QuartileRanksInRange` shows this holds for both quartiles exactly when there
  are at least four samples, which is the guard in front of the outlier filter.
- **Indicator.** A mod counts as risen whenever it is neither at its old rank
  nor at a better one. This includes mods absent from last week's ranking
  (index -1). A mod whose old index is larger than its new one had a worse rank
  before, so showing it as risen is the natural reading.
- **Ranking length.** `GenerateFieldValue` reads exactly ten entries, so it
  fails when fewer than ten mods are ranked. `RankingTrends` therefore requires
  at least ten entries.

## Model

| member | source | states |
|---|---|---|
| Sorting.SortDescendingBy | OWWeeklyReport/OWWeeklyReport/Program.cs:46 | `OrderByDescending` on a key. The result is ordered by non-increasing key and is a permutation of the input (same multiset). |
| Sorting.SortAscending | OWWeeklyReport/OWWeeklyReport/Program.cs:52 | `OrderBy` on download counts. The result is ascending and is a permutation of the input. |
| Sorting.AscendingUnique | OWWeeklyReport/OWWeeklyReport/Program.cs:52-66 | Two ascending sequences with the same multiset are equal. So the sorted count list does not depend on how ties among samples were ordered. |
| Quartiles.Quartile | OWWeeklyReport/OWWeeklyReport/Program.cs:54-62 | With integer division the interpolation vanishes. The quartile is the sample at 1-based rank `q*(n+1)/4`, so it is one of the data. It is at least every sample before that rank and at most every sample from that rank on. |
| Quartiles.QuartileRanksInRange | OWWeeklyReport/OWWeeklyReport/Program.cs:56-64 | Both indices read by the first and third quartile are in bounds if and only if there are at least four samples, which is the guard at line 64. |
| Quartiles.LowerFence | OWWeeklyReport/OWWeeklyReport/Program.cs:69-71 | The lower fence lies twice the interquartile range below the midpoint of the two quartiles, so it is never above q1. |
| Quartiles.UpperFence | OWWeeklyReport/OWWeeklyReport/Program.cs:69-70 | The upper fence lies twice the interquartile range above the midpoint of the two quartiles, so it is never below q3. |
| Quartiles.IsOutlier | OWWeeklyReport/OWWeeklyReport/Program.cs:73 | A count is an outlier if and only if it lies strictly outside the 1.5·IQR fences, which holds exactly when the same comparison holds with everything doubled, in integers. |
| Quartiles.BetweenQuartilesNotOutlier | OWWeeklyReport/OWWeeklyReport/Program.cs:69-73 | No count between the first and third quartile is an outlier. |
| Quartiles.FencesOf | OWWeeklyReport/OWWeeklyReport/Program.cs:64-71 | For four or more counts, q1 <= q3. Both quartiles are among the counts, and neither is an outlier. |
| Quartiles.FencesIgnoreOrder | OWWeeklyReport/OWWeeklyReport/Program.cs:52-68 | The fences depend only on the multiset of counts, not on their order. |
| Quartiles.FencesFromSorted | OWWeeklyReport/OWWeeklyReport/Program.cs:64-68 | The fences are the first and third quartiles of any ascending arrangement of the counts. |
| Quartiles.SortedExampleQuartiles | OWWeeklyReport/OWWeeklyReport/Program.cs:54-62 | For the sorted counts 9, 10, 11, 12, 100, the quartiles are q1 = 9 and q3 = 12. |
| Quartiles.OutlierExampleFences | OWWeeklyReport/OWWeeklyReport/Program.cs:64-68 | For the counts 10, 12, 11, 100, 9 in any sample order, the quartiles are 9 and 12. |
| Quartiles.OutlierExampleFilter | OWWeeklyReport/OWWeeklyReport/Program.cs:69-81 | For those counts, the fences are 4.5 and 16.5, and 100 is the only outlier. |
| Analysis.SamplesInWindow | OWWeeklyReport/OWWeeklyReport/Program.cs:32 | A sample is kept if and only if its timestamp lies in the closed window, and each kept sample occurs as often as in the history: duplicates are not merged. |
| Analysis.NewestFirst | OWWeeklyReport/OWWeeklyReport/Program.cs:46 | The in-window samples, ordered newest first, as a permutation. |
| Analysis.HasUpdateBefore | OWWeeklyReport/OWWeeklyReport/Program.cs:39 | True if and only if some sample of the history is strictly older than the window start. |
| Analysis.CountsPermutation | OWWeeklyReport/OWWeeklyReport/Program.cs:52-66 | Permuting the samples permutes their download counts. |
| Analysis.WithinFences | OWWeeklyReport/OWWeeklyReport/Program.cs:73-81 | A sample is kept if and only if its count is not an outlier. |
| Analysis.WithinFencesOrder | OWWeeklyReport/OWWeeklyReport/Program.cs:75-81 | The filtering loop keeps the newest-first order of the list it walks. |
| Analysis.RemoveOutliers | OWWeeklyReport/OWWeeklyReport/Program.cs:64-86 | Fewer than four samples are kept unchanged. Otherwise, exactly the samples within the fences of their own counts are kept. Order is preserved, and a non-empty input never becomes empty, so `First` and `Last` are defined. |
| Analysis.Survivors | OWWeeklyReport/OWWeeklyReport/Program.cs:32-86 | The surviving samples are newest first. If some sample is in the window, some sample survives. |
| Analysis.SurvivorsOfWindow | OWWeeklyReport/OWWeeklyReport/Program.cs:32-86 | The survivors are characterised from the raw history, whatever the sort did with ties. With fewer than four in-window samples, they are a permutation of those samples. Otherwise, they are exactly the in-window samples inside the fences of the in-window counts. |
| Analysis.NoUpdateBefore | OWWeeklyReport/OWWeeklyReport/Program.cs:39-44 | No sample lies before the window if and only if every sample is at or after its start. |
| Analysis.FirstAndLastDelta | OWWeeklyReport/OWWeeklyReport/Program.cs:88-89 | For a newest-first list, first minus last is the count of a latest sample minus the count of an earliest one. |
| Analysis.WindowReport | OWWeeklyReport/OWWeeklyReport/Program.cs:39-91 | An entry is new if and only if no sample precedes the window. Its change is the newest survivor's count minus the oldest survivor's count. |
| Analysis.AnalyzeEntry | OWWeeklyReport/OWWeeklyReport/Program.cs:23-91 | An entry is kept if and only if it is not the placeholder and has a sample in the window. When kept, its newness flag is exact. |
| Analysis.EntryDelta | OWWeeklyReport/OWWeeklyReport/Program.cs:88-91 | A kept entry's recorded change is the latest survivor's count minus the earliest survivor's count. |
| Analysis.SmallWindowDelta | OWWeeklyReport/OWWeeklyReport/Program.cs:83-91 | With fewer than four in-window samples, the change is the latest in-window count minus the earliest one. |
| Analysis.WindowDeltaSameMembers | OWWeeklyReport/OWWeeklyReport/Program.cs:88-91 | Whether a value is the newest-minus-oldest change depends only on which samples there are. |
| Analysis.WindowDeltaUnique | OWWeeklyReport/OWWeeklyReport/Program.cs:88-91 | When no two samples share a timestamp, the change is uniquely determined. |
| Analysis.KeptEntries | OWWeeklyReport/OWWeeklyReport/Program.cs:23-37 | The entries the loop does not skip, in input order. |
| Analysis.CountNew | OWWeeklyReport/OWWeeklyReport/Program.cs:39-44 | The number of new mods never exceeds the number of kept entries. |
| Analysis.Changes | OWWeeklyReport/OWWeeklyReport/Program.cs:23-91 | The pairs of a successful run, as a reference definition: they tabulate the kept entries in order, each with its repository and its change. |
| Analysis.TabulatesUnique | OWWeeklyReport/OWWeeklyReport/Program.cs:23-91 | Only one list of pairs tabulates given kept entries, so the reference definition pins down the pairs. |
| Analysis.ChangeMap | OWWeeklyReport/OWWeeklyReport/Program.cs:20 | The dictionary view of the pairs has one key per pair, and each key maps to its change. |
| Analysis.AddEntry | OWWeeklyReport/OWWeeklyReport/Program.cs:23-91 | One loop iteration keeps the loop's invariant: the pairs tabulate the kept entries seen so far, their repositories are distinct, and the count is the number of new ones. A kept repository that is already present fails, and then two kept entries share it. |
| Analysis.AnalyzeMods | OWWeeklyReport/OWWeeklyReport/Program.cs:18-95 | Succeeds if and only if no two kept entries share a repository; otherwise it names a repository kept twice. On success, the pairs are exactly the reference pairs of the kept entries, in order. The dictionary's keys are exactly the kept repositories, each mapped to its entry's change. The new-mod count is the number of kept entries with no sample before the window, and it is at most the dictionary's size. |
| Ranking.FirstRelease | OWWeeklyReport/OWWeeklyReport/Program.cs:161 | `FirstOrDefault` is empty if and only if no release has the repository. Otherwise it is the first such release. |
| Ranking.IsValidMod | OWWeeklyReport/OWWeeklyReport/Program.cs:154-175 | A repository is valid if and only if it is not ignored and its first release in the database exists and is not tagged `library`. |
| Ranking.ValidChanges | OWWeeklyReport/OWWeeklyReport/Program.cs:178 | A pair is kept if and only if its repository is valid. |
| Ranking.SelectTop | OWWeeklyReport/OWWeeklyReport/Program.cs:177-183 | Exactly min(10, number of valid pairs) pairs. They form a sub-multiset of the input, all valid, in non-increasing order of change. Every valid pair left out has a change no larger than any chosen one, and with fewer than ten chosen, no valid pair is left out. |
| Ranking.ValidChangesWithin | OWWeeklyReport/OWWeeklyReport/Program.cs:178 | Filtering by validity never repeats a pair: the valid pairs are a sub-multiset of the input. |
| Ranking.PrefixOfSorted | OWWeeklyReport/OWWeeklyReport/Program.cs:178-179 | The first m entries of a largest-first ordering are the m largest. |
| Ranking.LibraryNeverRanked | OWWeeklyReport/OWWeeklyReport/Program.cs:169-172 | A repository whose first release is tagged `library` never appears in the ranking. |
| Ranking.RankedHaveRelease | OWWeeklyReport/OWWeeklyReport/Program.cs:219 | Every ranked repository has a first release, which is not a library, so the lookup of its name and slug succeeds. |
| Ranking.Repos | OWWeeklyReport/OWWeeklyReport/Program.cs:185 | The repositories of last week's ranking, position by position. |
| Ranking.IndexOf | OWWeeklyReport/OWWeeklyReport/Program.cs:195 | `List.IndexOf` is -1 if and only if the value is absent. Otherwise it is the first index holding it. |
| Ranking.OldIndex | OWWeeklyReport/OWWeeklyReport/Program.cs:192-196 | The old index is -1 if and only if the repository is not in last week's ranking. Otherwise it is its first position there. |
| Ranking.RankDiff | OWWeeklyReport/OWWeeklyReport/Program.cs:185-199 | One entry per ranked mod, in order, with the same repository and change. Its old index is -1 exactly when the mod is absent from last week's ranking; otherwise it points at the mod there. |
| Ranking.Classify | OWWeeklyReport/OWWeeklyReport/Program.cs:228-239 | Unchanged exactly at the same rank. For indices -1 and up, fell exactly when the old rank was better (0 <= old < new). Rose exactly when the mod was absent (-1) or had a worse rank. |
| Ranking.TrendAgainstLastWeek | OWWeeklyReport/OWWeeklyReport/Program.cs:228-239 | Unchanged if and only if the mod first appears last week at the same rank. Fell if and only if it appears last week at a better rank. Rose if and only if it does not appear at this rank or better. |
| Ranking.RankingTrendsAgainstLastWeek | OWWeeklyReport/OWWeeklyReport/Program.cs:213-239 | The same three equivalences for each of the ten indicators of the weekly ranking. |
| Ranking.RankingTrends | OWWeeklyReport/OWWeeklyReport/Program.cs:213-239 | Ten indicators, one per rank: unchanged exactly when the old index is the rank, fell exactly when it is a better rank other than -1, risen exactly when it is -1 or a worse rank. At least ten ranked entries are needed. |
| Ranking.NoPreviousRankingAllRose | OWWeeklyReport/OWWeeklyReport/Program.cs:192-196 | With an empty ranking last week, every mod is shown as risen. |
| Ranking.ExampleOldIndices | OWWeeklyReport/OWWeeklyReport/Program.cs:195 | Against last week's ranking A, B, C, the old indices of A, B and C are 0, 1 and 2. |
| Ranking.TrendExample | OWWeeklyReport/OWWeeklyReport/Program.cs:228-239 | This week B, A, C against last week A, B, C shows risen, fell and unchanged. |
| Ranking.WeeklyRanking | OWWeeklyReport/OWWeeklyReport/Program.cs:177-199 | Exactly min(10, number of valid pairs of this week) entries. Each is a (repository, change) pair of this week with a valid repository, no pair more often than this week has it, and the changes never increase down the list. No valid pair left out has a larger change than a ranked one. Each old index is -1 exactly when the repository is absent from last week's top ten, and otherwise its first position there. |
| Ranking.RankDiffOldIndices | OWWeeklyReport/OWWeeklyReport/Program.cs:185-196 | Every entry of the rank diff has the old index against the list it is compared with: -1 exactly when absent, otherwise the first position holding the repository. |
| Ranking.RankingOfTop | OWWeeklyReport/OWWeeklyReport/Program.cs:177-199 | A ranking that lists this week's top list position by position keeps the length, validity, multiplicity, order and maximality of that top list. |
| Ranking.UnrankedRankDiff | OWWeeklyReport/OWWeeklyReport/Program.cs:185-199 | Dropping the old indices from the rank diff gives back this week's list. |
| Ranking.TotalMods | OWWeeklyReport/OWWeeklyReport/Program.cs:254 | The total is the number of distinct unique names in the database. |
| Ranking.ThisWeek | OWWeeklyReport/OWWeeklyReport/Program.cs:140 | This week's window ends at the current time and is one week long. |
| Ranking.LastWeek | OWWeeklyReport/OWWeeklyReport/Program.cs:142 | Last week's window is this week's window one week earlier, ending where this week's begins. |
| Ranking.WeeksShareBoundary | OWWeeklyReport/OWWeeklyReport/Program.cs:140-142 | The two closed windows share exactly one instant, so a sample taken exactly one week ago counts in both weeks. |
| Ranking.WeeklyReport | OWWeeklyReport/OWWeeklyReport/Program.cs:139-199 | Succeeds if and only if neither week's analysis adds a repository twice. On success: the new-mod count is this week's; the ranking is the weekly ranking of this week's pairs against last week's pairs, as computed from the history for the two windows; the total is the number of distinct unique names. |

## Left out

- Downloading the history and the database, with its five retries (`DownloadFileAsync`), and JSON deserialisation: I/O. The model receives the parsed entries and releases.
- Returning early when the history deserialises to null: I/O. A null `Updates` array is modelled as the empty list, which the source skips the same way.
- Building and sending the Discord message: I/O. This covers the embeds, field texts, emoji names, the mod page link and the dates in the message text. Only the indicator classification and the new and total counts are modelled.
- `DateTime.Now` and `UnixTimeStampToDateTime`, with its conversion to local time: the clock is the parameter `now`, read once; the source reads the clock separately for each bound, which can differ by the time between reads. Windows are closed intervals of Unix seconds, `now - 7 days` to `now` and the week before. Local-time and daylight-saving shifts are not modelled.
- Quartiles.Quartile: the source computes in 32-bit `float`, and the model uses exact values. Float rounding of counts above 2^24 is not modelled. The interpolation term is always zero, as noted above.
- Quartiles.FencesOf: the fences are exact reals, not `float` values with 1.5f arithmetic.
- Analysis.WindowReport: the change is an unbounded integer. The source's 32-bit `int` subtraction could wrap for counts more than 2^31 apart, which real download counts never are.
- Sorting.SortDescendingBy: the sort is stable by construction (an element is inserted ahead of later elements with an equal key), but its contract does not state stability. The properties that need it are stated through `NewestFirstOrder` and `SurvivorsOfWindow` instead.
- Dictionary enumeration order is modelled as insertion order. That is what `Dictionary<string,int>` gives when nothing is removed, but .NET does not promise it.
- `numberOfNewModsLastWeek` is computed by the source but never used; the model ignores it as well.
- `Entry` and `DownloadCountUpdate` are not part of this model's source files. Their fields are taken from their use in `AnalyzeMods`: repository name, update array, Unix timestamp and download count.
- `Database.cs` declares only the `Release` record and the release array, which the model's `Release` datatype and release sequence mirror.
