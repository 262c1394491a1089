# MemeorizeQuran core, modelled in Dafny

MemeorizeQuran records, for each student, which Mushaf pages and which ayah
ranges they have memorised. It derives progress per juz, per surah and
overall from those records, and checks the student's goals automatically.
It keeps the page records and the ayah records in step through a page ↔
ayah map. It also draws the progress as a heart cut into one sector per
segment.

This project models that core on one student's data, as pure functions:

- `Store` holds the `student_pages` rows (page → 0/1), the
  `student_ayah_ranges` rows and the goals. The SQL `WHERE student_id=?`
  is the restriction to one store.
- `Intervals` covers the interval merge that `get_merged_ayahs_for_student`
  and `_merge_consecutive` use. It proves a canonical form: sorted,
  disjoint, non-adjacent and unique for a given set of covered ayahs.
- `Store` also covers page upserts, ayah-range inserts with their bound
  swap, and the merged-ayah view.
- `Progress` covers `progress_by_juz`, `progress_by_surah` and
  `overall_progress`.
- `QuranRefs` holds the 114-row surah table, the 30 juz starts, and the
  surah and juz references derived from them.
- `PageMap` covers the 6000-row guard, the page map built from
  `ref_page_ayahs`, and its module-level cache.
- `Sync` covers `sync_pages_from_surah`, `sync_surah_from_pages` and
  `sync_bidirectional`.
- `Goals` covers `auto_check_goals`.
- `Labels` covers the Arabic display-label tables and their reverse
  lookups.
- `Heart` covers the heart's geometry: sector angles from weights, the
  fill sector, the SVG large-arc flag, the ray/boundary intersection, which
  labels are shown, label texts, and click-region links.
- `Base` holds shared helpers: `Option`, total preorders, a verified
  insertion sort, and `Min` and `SortedElems` over finite integer sets.

Where the documentation and the code disagree, the model follows the code:

- The docstring of `sync_bidirectional` (core/models.py:622) calls its
  totals the pages and surahs updated. Each direction actually returns the
  number of rows it wrote, changed or not. So a repeated `sync_pages_from_surah` returns the same
  non-zero count (`Sync.SyncPagesRepeat`).
- `sync_bidirectional` therefore never stops early once any memorised
  page carries verses (`Sync.NoEarlyStop`).

There is one exception. The goal test at core/models.py:469-493 is also
modelled in a corrected form (see Findings). `Goals.AutoCheckGoals` takes
the test as a parameter: `AsWritten` is the code, `Corrected` the intended
behaviour. `Goals.AutoCheckGoalsAgreeWhenOrdered` shows the two agree on
every store whose goals are entered in order.

## Model

| member | source | states |
|---|---|---|
| Base.Sort | ui/heart.py:194 | the result is sorted under any total preorder and is a permutation of the input (same multiset, same length) |
| Store.UpsertPage | core/models.py:235-245 | after the upsert the page is present with 1 exactly when memorised and 0 otherwise; its key set gains only that page; every other page, the ayah rows and the goals are unchanged |
| Store.UpsertPageLastWriteWins | core/models.py:235-245 | two upserts of one page leave what the second alone would leave (ON CONFLICT … DO UPDATE) |
| Store.UpsertPagesCommute | core/models.py:235-245 | upserts of two different pages can be done in either order with the same result |
| Store.AddAyahRange | core/models.py:248-257 | exactly one row is appended and earlier rows are kept; the new row has its ends in order and they are the two given bounds; its surah, flag and source are as given; pages and goals are unchanged |
| Store.NormRange | core/models.py:370-373 | the swap `if f > t` yields an ordered pair made of the row's two ends |
| Store.MemorizedRangesOf | core/models.py:370-377 | the ranges collected for a surah are well formed, cover exactly the ayahs some memorised row of that surah covers, and are empty exactly when the surah has no memorised row |
| Store.GetMergedAyahs | core/models.py:350-377 | the keys are exactly the surahs with a memorised row; each value is canonical and non-empty and covers exactly that surah's memorised ayahs |
| Store.NotMergedMeansNothingMemorized | core/models.py:370-377 | a surah missing from the merged map has no memorised ayah |
| Store.MergedDependsOnMeaningOnly | core/models.py:350-377 | two row lists that memorise the same ayahs give the same merged map, whatever their order, overlaps or splits |
| Store.MemorizedCons | core/models.py:370-377 | an ayah is memorised by a row list iff the first row memorises it or the rest does |
| Store.AddRangeExtendsMerged | core/models.py:248-257 | after adding a memorised range the memorised ayahs are the old ones plus the range, whichever way round its bounds were given |
| Store.AddUnmemorizedRangeKeepsMerged | core/models.py:248-257 | adding a row with `is_memorized = 0` leaves the merged view unchanged |
| Store.GetMergedAyahsExample | core/models.py:350-377 | rows 7..3 (reversed), 6..10 and an unmemorised 20..30 of surah 2 merge to the single range 3..10 |
| Store.ExampleRowsSurahs | core/models.py:374-376 | only surah 2 has a memorised row in that example |
| Store.ExampleRowsRanges | core/models.py:370-376 | the example's collected ranges are 3..7 and 6..10: the reversed row is swapped and the unmemorised row is skipped |
| Store.MergeOverlappingPair | core/models.py:362-368 | the overlapping ranges 3..7 and 6..10 merge into 3..10 |
| Intervals.RangeLeTotalPreorder | core/models.py:364 | the tuple order `sorted` uses on (from, to) pairs is a total preorder |
| Intervals.CanonicalSeparated | core/models.py:362-368 | in a merged list, any two ranges are separated by at least one ayah not covered |
| Intervals.CanonicalPointOwner | core/models.py:362-368 | in a merged list, a covered ayah lying left (right) of a range is covered by an earlier (later) range |
| Intervals.CoverConsAt | core/models.py:362-368 | an ayah is covered by a list iff the first range or the rest covers it |
| Intervals.CoverCons | core/models.py:362-368 | the same, for every ayah at once |
| Intervals.CoverSnocAt | core/models.py:366 | appending a range adds exactly that range's ayahs to the cover |
| Intervals.CoverSnoc | core/models.py:366 | the same, for every ayah at once |
| Intervals.CanonicalSnoc | core/models.py:365-366 | appending a range that starts more than one ayah after the last range keeps the list canonical |
| Intervals.NonEmptyCovers | core/models.py:362-368 | a non-empty well-formed list covers its first range's start |
| Intervals.RestTail | core/models.py:364 | the tail of a sorted, well-formed list is sorted and well formed, and its head starts no earlier than the dropped range |
| Intervals.OpenStep | core/models.py:365-366 | the "start a new range" step keeps the result canonical and keeps the union of result and remaining input |
| Intervals.ExtendStep | core/models.py:367-368 | the "extend the last range with max(end, t)" step keeps the result canonical and keeps the union of result and remaining input |
| Intervals.MergeSorted | core/models.py:364-368 | the loop over sorted ranges ends with a canonical list covering exactly what the accumulated and the remaining ranges cover |
| Intervals.MergeIntervals | core/models.py:362-368 | `merge_intervals` returns a canonical list (sorted, disjoint, non-adjacent) covering exactly the input's ayahs, empty iff the input is |
| Intervals.CanonicalUnique | core/models.py:362-368 | two canonical lists covering the same ayahs are equal, so the merged form is determined by the set of ayahs |
| Intervals.TailCover | core/models.py:362-368 | the tail of a canonical list is canonical and covers exactly the covered ayahs past the first range |
| Intervals.MergeIntervalsIdempotent | core/models.py:362-368 | merging an already merged list changes nothing |
| Intervals.MergeIntervalsDependsOnCoverOnly | core/models.py:362-368 | inputs covering the same ayahs merge to the same list |
| Intervals.MergeIntervalsFixesCanonical | core/models.py:362-368 | a canonical list is its own merge |
| Intervals.MergeIntervalsAdjacentExample | core/models.py:365 | ranges 1..5 and 6..10 touch (`merged[-1][1] < f - 1` fails) and merge to 1..10 |
| Intervals.MergeIntervalsGapExample | core/models.py:365 | ranges 1..5 and 7..10 leave ayah 6 uncovered and stay apart |
| Intervals.MergeIntervalsOverlapExample | core/models.py:362-368 | unsorted, duplicated and overlapping input 3..8, 1..4, 3..8 merges to 1..8 |
| Intervals.RunsFrom | core/models.py:539-546 | the run loop over strictly increasing numbers yields a canonical list covering the finished runs, the open run and the remaining numbers |
| Intervals.StrictTail | core/models.py:538 | the tail of a strictly increasing list is strictly increasing and lies above its head |
| Intervals.MemberCons | core/models.py:539 | membership in a list is membership of its head or its tail |
| Intervals.MergeConsecutive | core/models.py:533-547 | `_merge_consecutive` yields a canonical list covering exactly the given numbers (duplicates and order ignored), empty iff the input is |
| Intervals.MergeConsecutiveIsMergeOfPoints | core/models.py:533-547 | `_merge_consecutive` equals `merge_intervals` of the one-ayah ranges of the numbers |
| Intervals.ConsecutiveExampleCover | core/models.py:533-547 | the ranges 1..3, 5..6, 9..9 cover exactly the numbers 6, 1, 3, 2, 9, 5, 2 |
| Intervals.MergeConsecutiveExample | core/models.py:533-547 | 6, 1, 3, 2, 9, 5, 2 become the runs 1..3, 5..6, 9..9 |
| Intervals.Span | core/models.py:492 | `range(a, b + 1)` as a set holds exactly a..b and has b - a + 1 elements when not reversed |
| Intervals.CoveredCountIsCardinality | core/models.py:303 | on a merged list, summing `t - f + 1` counts each covered ayah exactly once |
| Intervals.TailCoverAll | core/models.py:362-368 | every ayah the tail of a canonical list covers lies past the first range |
| Labels.LabelOf | core/models.py:417 | a dict lookup succeeds exactly for the table's codes and returns that code's label |
| Labels.CodeOf | core/models.py:410-412 | the first-match reverse lookup returns a code paired with the label, or the default when no entry has that label |
| Labels.ReverseGet | core/models.py:415-418 | the inverted dict finds exactly the table's labels and returns a code paired with the label |
| Labels.CodeOfLabel | core/models.py:410-418 | with distinct labels, both reverse lookups of an entry's label give that entry's code |
| Labels.LabelOfCode | core/models.py:417 | with distinct codes, looking up an entry's code gives that entry's label |
| Labels.ToCode | core/models.py:410-412 | a label-to-code conversion always returns a code of the table: the one labelled so, or the default for an unknown label |
| Labels.ToLabel | core/models.py:417 | a code-to-label conversion gives a known code the label the table pairs with it, and returns an unknown code unchanged |
| Labels.FromLabel | core/models.py:418 | the inverse conversion returns a code whose label is the given one, or the default |
| Labels.LabelRoundTrip | core/models.py:414-418 | code → label → code and label → code → label are identities on a table with distinct codes and labels |
| Labels.ToCodeRoundTrip | core/models.py:410-412 | converting any entry's label gives back its code |
| Labels.CategoryTableOk | core/models.py:406-410 | the category table has distinct codes and labels and its default "memorization" is one of its codes |
| Labels.PeriodicityTableOk | core/models.py:407-411 | the same for the periodicity table and default "once" |
| Labels.TargetKindTableOk | core/models.py:408-412 | the same for the target-kind table and default "pages" |
| Labels.StatusTableOk | core/models.py:414-418 | the same for the goal-status table and default "pending" |
| Labels.ToCodeCategory | core/models.py:410 | an Arabic category label converts to the category code it names; anything else becomes "memorization" |
| Labels.ToCodePeriodicity | core/models.py:411 | an Arabic periodicity label converts to its code; anything else becomes "once" |
| Labels.ToCodeTargetKind | core/models.py:412 | an Arabic target-kind label converts to its code; anything else becomes "pages" |
| Labels.ToCodeRoundTrips | core/models.py:406-412 | every label of the three tables converts back to its own code |
| Labels.GoalStatusToAr | core/models.py:417 | a known status code gets the Arabic label the table pairs with it; an unknown one is shown as is |
| Labels.GoalStatusFromAr | core/models.py:418 | an Arabic status label converts to the code it labels; anything else becomes "pending" |
| Labels.GoalStatusRoundTrip | core/models.py:414-418 | status code → Arabic → code and Arabic → code → Arabic are identities on known values |
| Labels.UnknownStatusReadsAsPending | core/models.py:417-418 | a status stored outside the table is displayed unchanged but reads back as "pending" |
| QuranRefs.RowsWellFormedAppend | core/db.py:452-567 | well-formed blocks of surah rows (numbered in order, positive ayah counts, start pages within 1..604 and not decreasing) join into a well-formed table |
| QuranRefs.JoinBlocks | core/db.py:452-567 | the eight 15-row blocks of the surah table join into one well-formed table |
| QuranRefs.SurahRows1WellFormed | core/db.py:453-467 | surahs 1-15 are numbered in order with positive ayah counts and non-decreasing start pages |
| QuranRefs.SurahRows2WellFormed | core/db.py:468-482 | the same for surahs 16-30 |
| QuranRefs.SurahRows3WellFormed | core/db.py:483-497 | the same for surahs 31-45 |
| QuranRefs.SurahRows4WellFormed | core/db.py:498-512 | the same for surahs 46-60 |
| QuranRefs.SurahRows5WellFormed | core/db.py:513-527 | the same for surahs 61-75 |
| QuranRefs.SurahRows6WellFormed | core/db.py:528-542 | the same for surahs 76-90 |
| QuranRefs.SurahRows7WellFormed | core/db.py:543-557 | the same for surahs 91-105 |
| QuranRefs.SurahRows8WellFormed | core/db.py:558-566 | the same for surahs 106-114 |
| QuranRefs.SurahDataWellFormed | core/db.py:452-567 | the surah table has 114 well-formed rows, starts on page 1 and its last surah starts on page 604 |
| QuranRefs.JuzNumbersCount | core/db.py:570-576 | the juz starts are numbered 1..30 in order |
| QuranRefs.JuzStartsInMushaf | core/db.py:570-576 | every juz starts on a page within 1..604 |
| QuranRefs.JuzStartsIncrease | core/db.py:570-576 | juz start pages strictly increase |
| QuranRefs.JuzStartsWellFormed | core/db.py:570-576 | the 30 juz starts begin at page 1, increase, and stay within the Mushaf |
| QuranRefs.SurahRefsOf | core/db.py:579-587 | each surah's reference keeps its number, name, ayah count and start page; its end page lies in start..604; consecutive surahs either abut or share a single page; the last one ends on 604 when it starts there |
| QuranRefs.SurahRefsOfFull | core/db.py:579-587 | on a well-formed table the references start at page 1, are numbered 1.. and have positive ayah counts |
| QuranRefs.SurahRefs | core/db.py:579-587 | `get_surah_refs` on the built-in table gives 114 well-formed references |
| QuranRefs.JuzRefsOf | core/db.py:590-597 | each juz ends one page before the next begins, the last ends on 604, and each span lies within 1..604 and is non-empty |
| QuranRefs.JuzRefs | core/db.py:590-597 | `get_juz_refs` gives 30 juz numbered 1..30 that tile pages 1..604 without gaps |
| QuranRefs.ChainCovers | core/db.py:590-597 | chained spans cover every page between the first start and the last end |
| QuranRefs.JuzSpansCover | core/db.py:590-597 | every page between the first juz start and the last juz end lies in some juz |
| QuranRefs.SpansPartitionPages | core/db.py:590-597 | chained non-empty spans from 1 to 604 put every page in exactly one span |
| QuranRefs.JuzPartitionsPages | core/db.py:590-597 | every Mushaf page lies in exactly one juz |
| QuranRefs.JuzEndsBeforeLater | core/db.py:590-597 | an earlier juz ends before any later juz begins |
| QuranRefs.SurahsCoverPages | core/db.py:579-587 | every Mushaf page lies in some surah's page span |
| PageMap.PageAyahMapThreshold | core/db.py:409-413 | the map counts as present exactly from 6000 reference rows on: an empty table or one of 5999 rows is refused, 6000 rows are accepted, and more rows never turn it off |
| PageMap.VerseLeTotalPreorder | core/db.py:424 | the (surah, ayah) order of `ORDER BY … surah_id, ayah` is a total preorder |
| PageMap.VersesOnPage | core/db.py:425-426 | the verses appended for a page are exactly the reference rows of that page |
| PageMap.SortedPage | core/db.py:424-426 | a page's list is sorted by (surah, ayah) and is a permutation of that page's reference rows |
| PageMap.RowsListed | core/db.py:425-426 | every reference row appears in its page's list |
| PageMap.ListedFromRows | core/db.py:425-426 | every listed verse comes from a reference row of that page |
| PageMap.PageListsKeys | core/db.py:420-426 | the map's pages are exactly the pages of the reference rows |
| PageMap.ListsSortedPermutations | core/db.py:424-426 | every page's list is sorted and holds each of that page's rows as often as the table does |
| PageMap.BuildPageMap | core/db.py:420-426 | the built map has exactly the table's pages, lists each row under its page and nothing else, sorted by (surah, ayah), with multiplicities kept |
| PageMap.GetPageMap | core/db.py:416-428 | with a cached map and no forced refresh the cache is returned unchanged; otherwise the map is rebuilt from the table; either way the cache then holds the result |
| PageMap.CachedMapIsSticky | core/db.py:416-428 | once a map is cached, later calls without refresh return it whatever the table now holds |
| PageMap.InvalidatePageMapCache | core/db.py:441-444 | as written, invalidation clears a different global and leaves the page map cache as it was |
| PageMap.InvalidateKeepsStaleMap | core/db.py:406-444 | after invalidation, the next read still returns the map cached before, not the changed table's |
| PageMap.InvalidateKeepsStaleMapExample | core/db.py:406-444 | an empty table is cached, one row is added, and after invalidation the read still returns the empty map |
| PageMap.InvalidatePageMapCacheFixed | core/db.py:441-444 | the corrected invalidation empties the page map cache and touches nothing else |
| PageMap.InvalidateFixedRereadsTable | core/db.py:416-444 | after the corrected invalidation the next read rebuilds the map from the current table |
| Progress.MemorizedIn | core/models.py:291 | the pages counted for a span are exactly the memorised pages (value 1) within it |
| Progress.MemorizedInCount | core/models.py:289-292 | a span of n pages has at most n memorised pages, and exactly n iff every page in it is memorised |
| Progress.Fraction | core/models.py:292 | the quotient of a count by a positive total lies in 0..1 when the count does not exceed it, is 1 or more iff the count reaches the total, and is 0 iff the count is 0 |
| Progress.NegativeFraction | core/models.py:292 | a count over a negative total is never positive |
| Progress.SubsetCardinality | core/models.py:291 | a subset is no larger, and equal size means equal sets |
| Progress.JuzProgress | core/models.py:289-292 | a juz's ratio lies in 0..1; it is 1 iff every page of the juz is memorised and 0 iff none is |
| Progress.ProgressByJuz | core/models.py:284-293 | `progress_by_juz` gives 30 ratios in 0..1, each 1 iff its juz is fully memorised and 0 iff it has no memorised page |
| Progress.JuzProgressMonotone | core/models.py:284-293 | more memorised pages never lower a juz's ratio |
| Progress.MemorizingNeverLowersJuz | core/models.py:235-293 | marking a page memorised never lowers any juz's ratio |
| Progress.CoveredAyahs | core/models.py:303 | the summed range lengths equal the number of distinct memorised ayahs of the surah |
| Progress.SurahProgress | core/models.py:302-304 | a surah's ratio is at most 1, never negative for a non-negative count, is 1 iff the covered ayahs reach the count, and is 0 iff nothing is covered; a count of 0 is read as 1 |
| Progress.SurahRatio | core/models.py:296-307 | a surah's ratio is in 0..1; it is 1 iff its memorised ayahs reach its ayah count and 0 iff it has none |
| Progress.SurahRatios | core/models.py:296-307 | the same for every surah of a reference list, in order |
| Progress.ProgressBySurahOf | core/models.py:296-307 | ratios as above, weights equal to each surah's page span (at least 1), and names as in the references |
| Progress.ProgressBySurah | core/models.py:296-307 | `progress_by_surah` returns 114 ratios, weights and names |
| Progress.ZeroProgressOf | core/models.py:296-307 | a ratio of 0 means no ayah of that surah is memorised |
| Progress.ZeroProgressMeansNothingMemorized | core/models.py:296-307 | the same for the built-in surah table |
| Progress.CountFullFrom | core/models.py:317-320 | the number of full surahs counted never exceeds the number of surahs |
| Progress.OverallProgress | core/models.py:310-322 | the page total counts exactly the memorised pages; the overall ratio times 604 is that total; it is never negative and is at most 1 when every memorised page is a real page; full surahs are between 0 and 114 |
| Progress.FullSurahsMatchSurahProgress | core/models.py:296-322 | the full-surah count equals the number of surahs whose `progress_by_surah` ratio is 1 |
| Progress.FullSurahsFrom | core/models.py:296-322 | the same, counted from any surah onwards |
| Progress.FullSurahsFromOf | core/models.py:296-322 | the same, for any well-formed reference list |
| Sync.MemorizedSurahIsMerged | core/models.py:370-377 | a surah with a memorised ayah is a key of the merged map |
| Sync.PageCoveredByMerged | core/models.py:557-565 | a page passes the `all(...)` test on the merged ayahs iff every verse on it is memorised |
| Sync.PagesToUpsertAreFullyMemorized | core/models.py:556-566 | the pages chosen for upsert are exactly the page-map pages whose every verse is memorised |
| Sync.SetMemorized | core/models.py:571-580 | the batch upsert sets the chosen pages to 1, adds them if absent, and leaves every other page's value |
| Sync.SyncPagesFromSurah | core/models.py:550-582 | without a full page map nothing changes and 0 is returned; otherwise exactly the fully memorised pages are set to 1, other pages keep their value, ayah rows and goals are unchanged, and the count is the number of such pages |
| Sync.SyncPagesKeepsMemorized | core/models.py:550-582 | syncing pages from ayahs never unmarks a memorised page |
| Sync.SyncPagesRepeat | core/models.py:550-582 | running it twice gives the same store and the same count as once: the count is rows written, not rows changed |
| Sync.NonPageRows | core/models.py:606 | the rows the DELETE keeps are exactly those whose source is not "page", in order |
| Sync.NonPageRowsAppend | core/models.py:606-611 | keeping non-page rows distributes over appending rows |
| Sync.NonPageRowsOfPageRows | core/models.py:602-606 | rows inserted with source "page" are all removed by the next DELETE |
| Sync.NonPageRowsIdempotent | core/models.py:606 | deleting page rows twice is deleting them once |
| Sync.PageCoverAppend | core/models.py:606-611 | the ayahs covered by page rows of two lists together are those of either |
| Sync.AyahsOnPages | core/models.py:595-597 | the ayahs gathered for a surah are exactly those the page map puts on some memorised page |
| Sync.SurahsOnPages | core/models.py:595-597 | the surahs gathered are exactly those with a verse on some memorised page |
| Sync.MaximalRuns | core/models.py:533-547 | the runs `_merge_consecutive` makes of a surah's ayahs on the given pages are sorted, non-empty and separated by gaps, cover exactly those ayahs, and are empty iff no such ayah is printed there |
| Sync.MaximalRunsUnique | core/models.py:533-547 | any list of gap-separated runs covering the same ayahs is that list of runs, so the rows of a surah are pinned by its ayahs |
| Sync.RowsOfRuns | core/models.py:600-602 | one memorised, ordered "page" row per run, in the runs' order, covering exactly the run's ayahs in that surah |
| Sync.DerivedRows | core/models.py:599-602 | for surahs listed once each, the derived rows are memorised, ordered "page" rows covering exactly the gathered ayahs; each listed surah's rows, in order, are exactly its maximal runs, other surahs have none, and the row count is the total number of runs |
| Sync.PageRows | core/models.py:591-602 | the rows to insert cover exactly the verses the page map puts on memorised pages; each surah's rows are exactly the maximal runs of its ayahs on those pages, and their number is the total number of runs |
| Sync.ReplacePageRows | core/models.py:604-611 | deleting the "page" rows and inserting fresh ones keeps every other row in order, and every "page" row afterwards is one of the fresh ones |
| Sync.PageRowsEmpty | core/models.py:591-614 | no row is derived iff no memorised page carries a verse in the map |
| Sync.SyncSurahFromPages | core/models.py:585-614 | without a full page map nothing changes and 0 is returned; otherwise non-page rows are kept, old page rows are replaced by ordered memorised rows covering exactly the verses of memorised pages, each surah's page rows are exactly the maximal runs of its ayahs there, pages and goals are unchanged, and the count is the number of inserted rows, which is the total number of runs (0 iff no memorised page carries a verse) |
| Sync.SyncedPagesAreMemorized | core/models.py:585-614 | after syncing ayahs from pages, every verse on a memorised page is a memorised ayah |
| Sync.PageCoverIsMemorized | core/models.py:602-611 | an ayah covered by a memorised "page" row is memorised |
| Sync.PagesSurviveRoundTrip | core/models.py:550-614 | every memorised page in the map is found fully memorised again after syncing ayahs from pages |
| Sync.SyncSurahRepeat | core/models.py:585-614 | syncing ayahs from pages twice gives the same store and count as once |
| Sync.OnePass | core/models.py:627-630 | one pass of both directions keeps goals and non-page rows, never unmarks a page, and returns non-negative counts |
| Sync.PagesKeptMeansSubset | core/models.py:571-580 | "every page memorised before is still memorised" is the same as set inclusion of memorised pages |
| Sync.SyncKeptTrans | core/models.py:626-632 | keeping goals, non-page rows and memorised pages is transitive across passes |
| Sync.OnePassKeeps | core/models.py:627-630 | every pass keeps goals, non-page rows and memorised pages and returns non-negative counts |
| Sync.PassLoop | core/models.py:624-633 | the loop runs at least one pass and at most `max_passes` when that is positive, and none otherwise |
| Sync.PassLoopPreserves | core/models.py:626-632 | a reflexive, transitive relation kept by each pass holds between the store before and after the loop |
| Sync.PassLoopCounts | core/models.py:624-633 | the loop's totals are non-negative when each pass's counts are |
| Sync.PassLoopNeverStops | core/models.py:626-632 | while every pass writes ayah rows and keeps doing so, the loop runs all `max_passes` passes |
| Sync.PassLoopStops | core/models.py:631-632 | a pass that writes nothing ends the loop after counting it |
| Sync.PassLoopGoesOn | core/models.py:626-632 | a pass that writes something adds its counts and the loop continues from its store |
| Sync.SyncPasses | core/models.py:617-633 | up to `max_passes` passes keep goals and non-page rows, never unmark a page, and return non-negative totals |
| Sync.SyncBidirectional | core/models.py:617-633 | without a full page map (0, 0) is returned, after one empty pass when max_passes > 0 and none otherwise; in all cases goals and non-page rows are kept, memorised pages stay memorised, and the totals are non-negative |
| Sync.ZeroPassIsStable | core/models.py:626-632 | once a pass writes nothing, a further pass would also write nothing and change nothing |
| Sync.NonPageRowsPrefix | core/models.py:606 | if deleting page rows removes nothing, there were none |
| Sync.KeptFullyMemorized | core/models.py:556-606 | pages fully memorised by the kept non-page rows stay fully memorised with the page rows added |
| Sync.MemorizedInKept | core/models.py:606 | an ayah memorised by the kept rows is memorised by all rows |
| Sync.NoEarlyStop | core/models.py:617-633 | as written, once a memorised page carries any verse every pass rewrites the page rows, so the loop always runs all `max_passes` passes |
| Sync.EveryPassWrites | core/models.py:585-628 | a pass starting with a memorised page that carries verses writes ayah rows and leaves the page memorised |
| Sync.PassWrites | core/models.py:585-628 | the same, for one store |
| Sync.RunPasses | core/models.py:624-633 | the imperative loop with its early `break` computes what the recursive pass loop defines |
| Sync.SyncBidirectionalLoop | core/models.py:617-633 | the imperative `sync_bidirectional` returns the same store and totals as the functional one, totals non-negative and non-page rows kept |
| Goals.SpelledByCons | core/models.py:486-489 | a row list spells an ayah iff the first row or the rest does |
| Goals.ExpandedAyahs | core/models.py:481-489 | the expanded set holds exactly the ayahs some memorised row of the surah spells out with `range(from, to + 1)`, reversed rows spelling none |
| Goals.PageGoalMeaning | core/models.py:469-476 | a page goal with ordered bounds is judged achieved iff every page between its bounds is memorised |
| Goals.AyahGoalMeaning | core/models.py:479-493 | an ayah goal is judged achieved iff every ayah of its range is memorised, given rows with ordered ends |
| Goals.ReversedGoalAlwaysAchieved | core/models.py:469-493 | as written, a goal entered with bounds backwards is judged achieved whatever is memorised |
| Goals.ReversedPageGoalExample | core/models.py:469-476 | the page goal 20 → 5 is judged achieved with no page memorised; the corrected test rejects it |
| Goals.TestsAgreeWhenOrdered | core/models.py:469-493 | on a goal entered in order, the code's test and the corrected test give the same answer |
| Goals.Ordered | core/models.py:250-251 | the pair put in order is the two given values, smaller first |
| Goals.FixedAgreesWhenOrdered | core/models.py:469-493 | on goals entered in order, the corrected test and the code's test agree |
| Goals.PageGoalFixedMeaning | core/models.py:469-476 | the corrected page test holds iff every page between the bounds, in either order, is memorised |
| Goals.AyahGoalFixedMeaning | core/models.py:479-493 | the corrected ayah test holds iff every ayah between the bounds, in either order, is spelled out by a memorised row |
| Goals.AutoCheckGoals | core/models.py:446-506 | under the code's test (`AsWritten`) or the corrected one (`Corrected`): exactly the pending goals whose target is reached under that test change; each becomes "done" at `now` with no other field changed; no goal becomes "failed"; goals of other kinds, pages and rows are untouched; the count is the number of goals updated |
| Goals.CountIsUpdatedFrom | core/models.py:496-506 | under either test, the running count equals the number of goals updated |
| Goals.UpdatedCountsChanges | core/models.py:446-506 | under either test, the returned count is the number of goals that differ after the check |
| Goals.AutoCheckGoalsIdempotent | core/models.py:446-506 | under either test, a second check right after the first changes nothing and updates no goal |
| Goals.NoneUpdated | core/models.py:496-506 | under either test, when no pending goal is reached the count is 0 |
| Goals.AutoCheckGoalsAgreeWhenOrdered | core/models.py:446-506 | on a store whose goals all have their bounds in order, the check as written and the corrected check give the same store and the same count |
| Goals.AutoCheckReversedGoalExample | core/models.py:446-506 | a pending page goal 20 → 5 with nothing memorised is marked done, with a count of 1, by the check as written; the corrected check leaves the store as it was and counts 0 |
| Heart.EffectiveWeight | ui/heart.py:99-102 | a segment's weight defaults to 1 and is never below 0.0001 |
| Heart.SumAtLeast | ui/heart.py:99 | a sum of terms each at least lo is at least lo times their number |
| Heart.TotalWeight | ui/heart.py:99 | the total weight is at least 0.0001 per segment, so positive for a non-empty heart |
| Heart.SharePositive | ui/heart.py:102-103 | a positive weight gets a positive share of the turn |
| Heart.ShareAdd | ui/heart.py:102-103 | shares add up: the share of a sum is the sum of the shares |
| Heart.AnglesFrom | ui/heart.py:100-105 | sectors are laid end to start from the given angle, each as wide as its share, ending at the start plus the share of all weights |
| Heart.Angles | ui/heart.py:99-105 | the sectors start at -π/2, are contiguous, each is as wide as its weight's share of 2π, and the last ends a full turn after the first begins |
| Heart.AnglesIncrease | ui/heart.py:99-105 | every sector has positive width |
| Heart.AnglesExample | ui/heart.py:99-105 | weights 1, 1, 2 give the quarter, quarter and half turns from the top |
| Heart.Clamp01 | ui/heart.py:159 | `max(0, min(1, x))` lies in 0..1, is x inside it and the nearer end outside |
| Heart.Fill | ui/heart.py:157-166 | no fill sector iff the ratio is 0 or less; otherwise it starts with the segment, ends inside it at the clamped ratio's fraction of its width (its end for a ratio of 1 or more), and is green for goal segments and red otherwise |
| Heart.Part | ui/heart.py:162 | the filled part of a positive width is positive, at most the width, and the ratio's fraction of it |
| Heart.PyMod | ui/heart.py:24 | Python's float `%` by a positive modulus lands in 0..m and fixes values already there |
| Heart.PyModPeriodic | ui/heart.py:24 | adding the modulus does not change the remainder |
| Heart.LargeArcFlag | ui/heart.py:24-25 | the flag is 0 or 1, and for a sweep within one turn it is 1 iff the sweep exceeds π |
| Heart.LargeArcFlagPeriodic | ui/heart.py:24-25 | a full extra turn does not change the flag, and a full-turn sector gets flag 0 |
| Heart.EdgeHit | ui/heart.py:86-94 | a hit on an edge is a non-negative distance at which the ray meets the edge, from a non-degenerate determinant |
| Heart.EdgeHitComplete | ui/heart.py:86-94 | every non-negative meeting point of the ray with a non-degenerate edge is the hit reported |
| Heart.SolveEdge | ui/heart.py:89-92 | Cramer's rule as written solves `r·d = p1 + u·v` |
| Heart.UniqueSolution | ui/heart.py:89-92 | any solution of that system is the one Cramer's rule gives |
| Heart.RayIntersectRadius | ui/heart.py:81-96 | the result is the smallest hit over all edges when there is one, and 100 when there is none |
| Heart.DensityFraction | ui/heart.py:189-190 | the density is 0.25..1, is 1 exactly for "full", and is 0.5 for an unknown name |
| Heart.ArcInfo | ui/heart.py:184-188 | one (arc length, index) pair per segment, its length the sector width times 100 |
| Heart.KeyGeTotalPreorder | ui/heart.py:194 | the descending tuple order of the reverse sort is a total preorder |
| Heart.LabelQuota | ui/heart.py:195 | the number of labels shown is between 0 and the number of segments |
| Heart.ShownLabels | ui/heart.py:183-198 | with inside labels none is shown; in juz mode all are; in surah mode exactly the quota, and every shown arc is at least as long as every hidden one (ties broken by index); other modes show none |
| Heart.ShownBeatHidden | ui/heart.py:194-198 | the first k entries of the descending sort beat every entry past them |
| Heart.SortedKeysFacts | ui/heart.py:194 | sorting the (arc, index) pairs keeps each pair once, so each index appears once |
| Heart.DistinctCount | ui/heart.py:184-188 | pairs carrying their own index are pairwise distinct |
| Heart.FirstIndices | ui/heart.py:196-198 | the indices marked are exactly those of the first `upto` sorted pairs |
| Heart.FirstKeysCount | ui/heart.py:196-198 | with distinct indices, `upto` sorted pairs mark exactly `upto` segments |
| Heart.DigitChar | ui/heart.py:215-219 | a digit's character has that digit's code offset |
| Heart.NatText | ui/heart.py:215-219 | `str` of a natural number is a non-empty digit string |
| Heart.IntText | ui/heart.py:215-219 | `str` of an integer is non-empty, all digits after an optional leading minus |
| Heart.NatTextRoundTrip | ui/heart.py:215-219 | reading back the text of a natural number gives the number |
| Heart.IntTextRoundTrip | ui/heart.py:215-219 | reading back the text of any integer gives the integer |
| Heart.LabelText | ui/heart.py:214-219 | surah mode shows the segment's number, or nothing without one; juz mode shows its page number when present; otherwise the caption, else the id, else nothing; each number is readable back |
| Heart.HitRegions | ui/heart.py:168-178 | one click region per segment, over exactly that segment's sector, linked by the segment's own link |
| Heart.HrefOf | ui/heart.py:173 | every link starts with `?page=main&sid=` and ends with the segment's `seg` value after a part shared by all segments |
| Heart.HrefFields | ui/heart.py:173 | the link splits at `&` into `?page=main`, `sid=` with the student, the fields of `dlg=` with the mode, and last `seg=` with the segment id |
| Heart.HrefFourFields | ui/heart.py:173 | for a mode without `&` the link has exactly those four parameters |
| Heart.HrefReadBack | ui/heart.py:173 | the student id (when not 0) and the segment id are read back from the link's `sid` and `seg` values; a missing id reads as "None" |
| Heart.HrefsTellSegmentsApart | ui/heart.py:173 | segments with different ids get different links |

## Left out

- Storage and I/O: the SQLite connection, the SQL text, timestamps such as `updated_at`, and commits are left out. Each table is a value in `Store`; an operation maps a store to a store.
- Clock: `auto_check_goals` takes `now` as a parameter.
- Other students: each model covers one student's rows, the `student_id=?` restriction.
- Reference data: `has_page_ayah_map` and `get_page_map` read `ref_page_ayahs`. The sync functions take its row count and the page map as parameters. `PageMap` models how that map is built and cached.
- Floating point: the model uses exact reals. π is the decimal of Python's `math.pi`. The rounding of `mem / total`, `(end - start) * ratio` and the determinant test is not modelled.
- Trigonometry and the heart outline: `math.cos`, `math.sin` and `sample_heart` are left out. The ray direction (dx, dy) and the boundary polygon are parameters.
- SVG and CSS output: number formatting (`:.2f`), colours other than the two fill colours, the background and goal-overlay sectors, titles, sizes and margins are left out. The label text and the hit-region link are modelled.
- Streamlit pages, authentication, admin screens, date helpers (`calc_age`, `estimate_finish_date`, `iso_date`) and migrations: these are outside the core.
- `_merge_seq`: it only serves the UI and is outside the core.
- Sync.DerivedRows: it fixes an order of surahs for the inserted rows, while the code iterates a `defaultdict` in insertion order. The rows of each surah and their order are stated; how the surahs interleave in the table is not.
- Sync.SyncBidirectional: the functional model records the number of passes run. The code returns only the two totals.
- Progress.OverallProgress: `full_surahs` is bounded here. Its exact value is tied to `progress_by_surah` by `Progress.FullSurahsMatchSurahProgress`.
- Progress.ProgressBySurah: on the built-in table, only the lengths are stated. The meaning of each ratio is stated by `Progress.ProgressBySurahOf` for any well-formed table.
- Heart.RayIntersectRadius: the exact-real model does not reproduce the `1e-6` float threshold's rounding behaviour.
- Heart.LabelText: Python's `str` of a value that is not an integer, such as a text `id`, is not modelled. Ids and numbers are integers here.

## Findings

| source | as written | input that shows it | evidently intended | confidence | as-written member | corrected member |
|---|---|---|---|---|---|---|
| core/db.py:441-444 | `invalidate_page_map_cache` clears the global `_page_ayah_map_cache`, but the cache read at lines 418-419 is `_PAGE_MAP_CACHE` (line 406) | cache a map of an empty reference table, add the row (page 1, surah 1, ayah 1), invalidate, read again: the empty map comes back | invalidation empties `_PAGE_MAP_CACHE`, so the next read rebuilds the map | high, not executed | PageMap.InvalidateKeepsStaleMapExample | PageMap.InvalidateFixedRereadsTable |
| core/models.py:469-493 | the page test compares the count with `page_to - page_from + 1`, and the ayah test iterates `range(from_ayah, to_ayah + 1)`; neither orders the bounds, while goal entry accepts them in either order | a pending page goal with `page_from = 20`, `page_to = 5` and no memorised page is marked done | order the bounds first, as `add_ayah_range` does, so the goal means every page or ayah between them | medium, not executed | Goals.AutoCheckReversedGoalExample | Goals.PageGoalFixedMeaning |
