/** Synchronisation between the page states and the ayah ranges through the
    page <-> ayah map: pages from ranges, ranges from pages, and the
    repeated two-way pass. The map is whatever get_page_map hands back
    (possibly a cached one), so it is a parameter, as is the row count that
    has_page_ayah_map reads. */
module Sync {
  import opened Base
  import opened Intervals
  import opened PageMap
  import opened Store

  /** The store after a sync and the count the sync returns. */
  datatype SyncResult = SyncResult(store: Store, count: int)

  // ---------------------------------------------------------------------
  // Pages from ranges
  // ---------------------------------------------------------------------

  /** Every ayah of the page lies in the merged view
      (`all(ay in ayahs_by_surah.get(sid, set()) for sid, ay in pairs)`). */
  predicate PageCoveredBy(merged: map<int, seq<Range>>, verses: seq<Verse>)
  {
    forall v :: v in verses ==> v.surah in merged && InRanges(merged[v.surah], v.ayah)
  }

  /** The reference meaning: every ayah printed on the page is memorised. */
  ghost predicate PageFullyMemorized(rows: seq<AyahRow>, verses: seq<Verse>)
  {
    forall v :: v in verses ==> Memorized(rows, v.surah, v.ayah)
  }

  lemma MemorizedSurahIsMerged(rows: seq<AyahRow>, s: int, a: int)
    requires Memorized(rows, s, a)
    ensures s in GetMergedAyahs(rows)
  {
    var i :| 0 <= i < |rows| && rows[i].surah == s && rows[i].isMemorized
           && NormRange(rows[i]).lo <= a <= NormRange(rows[i]).hi;
    assert s in SurahsWithMemorized(rows);
  }

  /** The merged-view test agrees with the reference meaning. */
  lemma PageCoveredByMerged(rows: seq<AyahRow>, verses: seq<Verse>)
    ensures PageCoveredBy(GetMergedAyahs(rows), verses) <==> PageFullyMemorized(rows, verses)
  {
    var merged := GetMergedAyahs(rows);
    if PageFullyMemorized(rows, verses) {
      forall v | v in verses
        ensures v.surah in merged && InRanges(merged[v.surah], v.ayah)
      {
        MemorizedSurahIsMerged(rows, v.surah, v.ayah);
      }
    }
  }

  /** The pages of the map whose every ayah is memorised. */
  ghost function FullyMemorizedPages(rows: seq<AyahRow>, pm: PageMap): set<int>
  {
    set p | p in pm && PageFullyMemorized(rows, pm[p])
  }

  /** The pages `sync_pages_from_surah` upserts: those of the map whose
      ayahs the merged view all covers. */
  function PagesToUpsert(merged: map<int, seq<Range>>, pm: PageMap): set<int>
  {
    set p | p in pm.Keys && PageCoveredBy(merged, pm[p])
  }

  lemma PagesToUpsertAreFullyMemorized(rows: seq<AyahRow>, pm: PageMap)
    ensures PagesToUpsert(GetMergedAyahs(rows), pm) == FullyMemorizedPages(rows, pm)
  {
    forall p | p in pm
      ensures PageCoveredBy(GetMergedAyahs(rows), pm[p]) <==> PageFullyMemorized(rows, pm[p])
    {
      PageCoveredByMerged(rows, pm[p]);
    }
  }

  /** The page states with every page of ps set to 1 (an upsert). */
  function SetMemorized(pages: map<int, int>, ps: set<int>): (r: map<int, int>)
    ensures r.Keys == pages.Keys + ps
    ensures forall p :: p in r ==> r[p] == (if p in ps then 1 else pages[p])
  {
    pages + map p | p in ps :: 1
  }

  /** `sync_pages_from_surah`: with the map available, every page of the map
      whose ayahs are all memorised is set to memorised; no page is ever
      cleared, the ranges are untouched, and the count is the number of
      such pages, already memorised or not. */
  function SyncPagesFromSurah(st: Store, refRowCount: int, pm: PageMap): (r: SyncResult)
    ensures !HasPageAyahMap(refRowCount) ==> r == SyncResult(st, 0)
    ensures r.store.ranges == st.ranges && r.store.goals == st.goals
    ensures r.count >= 0
    ensures HasPageAyahMap(refRowCount) ==> r.count == |FullyMemorizedPages(st.ranges, pm)|
    ensures HasPageAyahMap(refRowCount) ==>
              r.store.pages.Keys == st.pages.Keys + FullyMemorizedPages(st.ranges, pm)
    ensures HasPageAyahMap(refRowCount) ==>
              forall p :: p in r.store.pages ==>
                r.store.pages[p] == (if p in FullyMemorizedPages(st.ranges, pm) then 1 else st.pages[p])
  {
    if !HasPageAyahMap(refRowCount) then SyncResult(st, 0)
    else
      var toUpsert := PagesToUpsert(GetMergedAyahs(st.ranges), pm);
      PagesToUpsertAreFullyMemorized(st.ranges, pm);
      if toUpsert == {} then
        assert SetMemorized(st.pages, toUpsert) == st.pages;
        SyncResult(st, 0)
      else SyncResult(st.(pages := SetMemorized(st.pages, toUpsert)), |toUpsert|)
  }

  /** Syncing pages never turns a memorised page back. */
  lemma SyncPagesKeepsMemorized(st: Store, refRowCount: int, pm: PageMap)
    ensures MemorizedPages(st.pages) <= MemorizedPages(SyncPagesFromSurah(st, refRowCount, pm).store.pages)
  {
  }

  /** Syncing pages twice gives the store of syncing once, and the same
      count again: the count is not a number of changes. */
  lemma SyncPagesRepeat(st: Store, refRowCount: int, pm: PageMap)
    ensures
      var once := SyncPagesFromSurah(st, refRowCount, pm);
      var twice := SyncPagesFromSurah(once.store, refRowCount, pm);
      twice == once
  {
    var once := SyncPagesFromSurah(st, refRowCount, pm);
    var twice := SyncPagesFromSurah(once.store, refRowCount, pm);
    if HasPageAyahMap(refRowCount) {
      assert twice.store.pages == once.store.pages;
    }
  }

  // ---------------------------------------------------------------------
  // Ranges from pages
  // ---------------------------------------------------------------------

  /** The rows not derived from pages, in table order. */
  function NonPageRows(rows: seq<AyahRow>): (r: seq<AyahRow>)
    ensures forall row :: row in r <==> row in rows && row.source != PageSource
    ensures |r| <= |rows|
  {
    if |rows| == 0 then []
    else (if rows[0].source != PageSource then [rows[0]] else []) + NonPageRows(rows[1..])
  }

  lemma {:induction false} NonPageRowsAppend(a: seq<AyahRow>, b: seq<AyahRow>)
    ensures NonPageRows(a + b) == NonPageRows(a) + NonPageRows(b)
    decreases |a|
  {
    if |a| > 0 {
      assert (a + b)[1..] == a[1..] + b;
      NonPageRowsAppend(a[1..], b);
    } else {
      assert a + b == b;
    }
  }

  lemma {:induction false} NonPageRowsOfPageRows(rows: seq<AyahRow>)
    requires forall row :: row in rows ==> row.source == PageSource
    ensures NonPageRows(rows) == []
    decreases |rows|
  {
    if |rows| > 0 {
      assert forall row :: row in rows[1..] ==> row in rows;
      NonPageRowsOfPageRows(rows[1..]);
    }
  }

  lemma {:induction false} NonPageRowsIdempotent(rows: seq<AyahRow>)
    ensures NonPageRows(NonPageRows(rows)) == NonPageRows(rows)
    decreases |rows|
  {
    if |rows| > 0 {
      var head := if rows[0].source != PageSource then [rows[0]] else [];
      NonPageRowsAppend(head, NonPageRows(rows[1..]));
      NonPageRowsIdempotent(rows[1..]);
      if |head| > 0 {
        assert NonPageRows(head) == head by {
          assert head[1..] == [];
        }
      }
    }
  }

  /** Some page-derived row of surah s spans ayah a. */
  ghost predicate PageCover(rows: seq<AyahRow>, s: int, a: int)
  {
    exists i :: 0 <= i < |rows| && rows[i].source == PageSource && rows[i].surah == s
             && rows[i].fromAyah <= a <= rows[i].toAyah
  }

  lemma PageCoverAppend(x: seq<AyahRow>, y: seq<AyahRow>, s: int, a: int)
    ensures PageCover(x + y, s, a) <==> PageCover(x, s, a) || PageCover(y, s, a)
  {
    var xy := x + y;
    if PageCover(xy, s, a) {
      var i :| 0 <= i < |xy| && xy[i].source == PageSource && xy[i].surah == s && xy[i].fromAyah <= a <= xy[i].toAyah;
      if i >= |x| {
        assert y[i - |x|] == xy[i];
      }
    }
    if PageCover(y, s, a) {
      var i :| 0 <= i < |y| && y[i].source == PageSource && y[i].surah == s && y[i].fromAyah <= a <= y[i].toAyah;
      assert xy[i + |x|] == y[i];
    }
    if PageCover(x, s, a) {
      var i :| 0 <= i < |x| && x[i].source == PageSource && x[i].surah == s && x[i].fromAyah <= a <= x[i].toAyah;
      assert xy[i] == x[i];
    }
  }

  /** The ayahs of surah s printed on the given pages. */
  function AyahsOnPages(pages: set<int>, pm: PageMap, s: int): (r: set<int>)
    ensures forall a :: a in r <==> exists p :: p in pages && p in pm && Verse(s, a) in pm[p]
  {
    var r := set p, v | p in pages && p in pm && v in pm[p] && v.surah == s :: v.ayah;
    assert forall a :: a in r <==> exists p :: p in pages && p in pm && Verse(s, a) in pm[p] by {
      forall a | exists p :: p in pages && p in pm && Verse(s, a) in pm[p]
        ensures a in r
      {
        var p :| p in pages && p in pm && Verse(s, a) in pm[p];
        var v := Verse(s, a);
        assert v in pm[p] && v.surah == s;
      }
    }
    r
  }

  /** The surahs with an ayah on the given pages. */
  function SurahsOnPages(pages: set<int>, pm: PageMap): (r: set<int>)
    ensures forall s :: s in r <==> exists p, a :: p in pages && p in pm && Verse(s, a) in pm[p]
  {
    var r := set p, v | p in pages && p in pm && v in pm[p] :: v.surah;
    assert forall s :: s in r <==> exists p, a :: p in pages && p in pm && Verse(s, a) in pm[p] by {
      forall s | s in r
        ensures exists p, a :: p in pages && p in pm && Verse(s, a) in pm[p]
      {
        var p, v :| p in pages && p in pm && v in pm[p] && v.surah == s;
        assert Verse(s, v.ayah) == v;
      }
      forall s | exists p, a :: p in pages && p in pm && Verse(s, a) in pm[p]
        ensures s in r
      {
        var p, a :| p in pages && p in pm && Verse(s, a) in pm[p];
        var v := Verse(s, a);
        assert v in pm[p] && v.surah == s;
      }
    }
    r
  }

  /** The runs `_merge_consecutive` makes of the ayahs of surah s on the
      given pages: a canonical list covering exactly those ayahs, empty
      exactly when no such ayah is printed there. */
  function MaximalRuns(pages: set<int>, pm: PageMap, s: int): (runs: seq<Range>)
    ensures Canonical(runs)
    ensures forall a :: InRanges(runs, a) <==> a in AyahsOnPages(pages, pm, s)
    ensures |runs| == 0 <==> s !in SurahsOnPages(pages, pm)
  {
    var ayahs := AyahsOnPages(pages, pm, s);
    assert s in SurahsOnPages(pages, pm) ==> ayahs != {} by {
      if s in SurahsOnPages(pages, pm) {
        var p, a :| p in pages && p in pm && Verse(s, a) in pm[p];
        assert a in ayahs;
      }
    }
    MergeConsecutive(SortedElems(ayahs))
  }

  /** The runs are the only canonical list covering the ayahs of surah s on
      the pages: no two of them touch, so none could be split or joined. */
  lemma MaximalRunsUnique(pages: set<int>, pm: PageMap, s: int, rs: seq<Range>)
    requires Canonical(rs)
    requires forall a :: InRanges(rs, a) <==> a in AyahsOnPages(pages, pm, s)
    ensures rs == MaximalRuns(pages, pm, s)
  {
    CanonicalUnique(rs, MaximalRuns(pages, pm, s));
  }

  /** The page-derived rows of surah s, as ranges, in table order. */
  function SurahPageRuns(rows: seq<AyahRow>, s: int): seq<Range>
  {
    if |rows| == 0 then []
    else (if rows[0].source == PageSource && rows[0].surah == s then [Range(rows[0].fromAyah, rows[0].toAyah)] else [])
         + SurahPageRuns(rows[1..], s)
  }

  lemma {:induction false} SurahPageRunsAppend(x: seq<AyahRow>, y: seq<AyahRow>, s: int)
    ensures SurahPageRuns(x + y, s) == SurahPageRuns(x, s) + SurahPageRuns(y, s)
    decreases |x|
  {
    if |x| > 0 {
      assert (x + y)[1..] == x[1..] + y;
      SurahPageRunsAppend(x[1..], y, s);
    } else {
      assert x + y == y;
    }
  }

  /** Rows with no page-derived row among them hold no runs. */
  lemma {:induction false} SurahPageRunsOfNonPageRows(rows: seq<AyahRow>, s: int)
    requires forall i :: 0 <= i < |rows| ==> rows[i].source != PageSource
    ensures SurahPageRuns(rows, s) == []
    decreases |rows|
  {
    if |rows| > 0 {
      SurahPageRunsOfNonPageRows(rows[1..], s);
    }
  }

  /** The surahs are listed once each, as the keys of a dictionary are. */
  ghost predicate Distinct(surahs: seq<int>)
  {
    forall i, j :: 0 <= i < j < |surahs| ==> surahs[i] != surahs[j]
  }

  /** The number of runs over the listed surahs. */
  function RunCount(surahs: seq<int>, pages: set<int>, pm: PageMap): nat
  {
    if |surahs| == 0 then 0 else |MaximalRuns(pages, pm, surahs[0])| + RunCount(surahs[1..], pages, pm)
  }

  /** The number of runs over every surah printed on the pages. */
  function TotalRuns(pages: set<int>, pm: PageMap): nat
  {
    RunCount(SortedElems(SurahsOnPages(pages, pm)), pages, pm)
  }

  /** One page-derived row per run of surah s. */
  function RowsOfRuns(s: int, runs: seq<Range>): (r: seq<AyahRow>)
    requires WellFormed(runs)
    ensures |r| == |runs|
    ensures forall row :: row in r ==> row.source == PageSource && row.isMemorized && row.fromAyah <= row.toAyah
    ensures forall s', a :: PageCover(r, s', a) <==> s' == s && InRanges(runs, a)
    ensures forall s' {:trigger SurahPageRuns(r, s')} :: SurahPageRuns(r, s') == if s' == s then runs else []
  {
    var r := seq(|runs|, i requires 0 <= i < |runs| => AyahRow(s, runs[i].lo, runs[i].hi, true, PageSource));
    assert forall s', a :: PageCover(r, s', a) <==> s' == s && InRanges(runs, a) by {
      forall s', a | s' == s && InRanges(runs, a)
        ensures PageCover(r, s', a)
      {
        var i :| 0 <= i < |runs| && runs[i].lo <= a <= runs[i].hi;
        assert r[i].surah == s && r[i].fromAyah <= a <= r[i].toAyah;
      }
    }
    forall s' ensures SurahPageRuns(r, s') == if s' == s then runs else [] {
      RowsOfRunsProject(s, runs, s');
    }
    r
  }

  lemma {:induction false} RowsOfRunsProject(s: int, runs: seq<Range>, s': int)
    requires WellFormed(runs)
    ensures
      var r := seq(|runs|, i requires 0 <= i < |runs| => AyahRow(s, runs[i].lo, runs[i].hi, true, PageSource));
      SurahPageRuns(r, s') == if s' == s then runs else []
    decreases |runs|
  {
    var r := seq(|runs|, i requires 0 <= i < |runs| => AyahRow(s, runs[i].lo, runs[i].hi, true, PageSource));
    if |runs| > 0 {
      var tail := runs[1..];
      var rt := seq(|tail|, i requires 0 <= i < |tail| => AyahRow(s, tail[i].lo, tail[i].hi, true, PageSource));
      assert r[1..] == rt;
      RowsOfRunsProject(s, tail, s');
      if s' == s {
        assert runs == [Range(runs[0].lo, runs[0].hi)] + tail;
      }
    }
  }

  /** The rows `sync_surah_from_pages` writes for the given surahs: for each,
      the maximal runs of consecutive ayahs found on the pages. */
  function DerivedRows(surahs: seq<int>, pages: set<int>, pm: PageMap): (r: seq<AyahRow>)
    requires Distinct(surahs)
    ensures forall row :: row in r ==> row.source == PageSource && row.isMemorized && row.fromAyah <= row.toAyah
    ensures forall s, a :: PageCover(r, s, a) <==> s in surahs && a in AyahsOnPages(pages, pm, s)
    ensures forall s {:trigger SurahPageRuns(r, s)} :: SurahPageRuns(r, s) == if s in surahs then MaximalRuns(pages, pm, s) else []
    ensures |r| == RunCount(surahs, pages, pm)
  {
    if |surahs| == 0 then []
    else
      var s := surahs[0];
      var runs := MaximalRuns(pages, pm, s);
      var head := RowsOfRuns(s, runs);
      var rest := DerivedRows(surahs[1..], pages, pm);
      DerivedRunsStep(surahs, pages, pm, head, rest);
      DerivedCoverStep(surahs, pages, pm, head, rest);
      head + rest
  }

  lemma DerivedRunsStep(surahs: seq<int>, pages: set<int>, pm: PageMap, head: seq<AyahRow>, rest: seq<AyahRow>)
    requires |surahs| > 0 && Distinct(surahs)
    requires forall s' {:trigger SurahPageRuns(head, s')} :: SurahPageRuns(head, s') == if s' == surahs[0] then MaximalRuns(pages, pm, surahs[0]) else []
    requires forall s' {:trigger SurahPageRuns(rest, s')} :: SurahPageRuns(rest, s') == if s' in surahs[1..] then MaximalRuns(pages, pm, s') else []
    ensures forall s' {:trigger SurahPageRuns(head + rest, s')} :: SurahPageRuns(head + rest, s') == if s' in surahs then MaximalRuns(pages, pm, s') else []
  {
    var s := surahs[0];
    assert surahs == [s] + surahs[1..];
    assert s !in surahs[1..] by {
      forall j | 0 <= j < |surahs[1..]| ensures surahs[1..][j] != s {
        assert surahs[1..][j] == surahs[j + 1];
      }
    }
    forall s' ensures SurahPageRuns(head + rest, s') == if s' in surahs then MaximalRuns(pages, pm, s') else [] {
      SurahPageRunsAppend(head, rest, s');
    }
  }

  lemma DerivedCoverStep(surahs: seq<int>, pages: set<int>, pm: PageMap, head: seq<AyahRow>, rest: seq<AyahRow>)
    requires |surahs| > 0
    requires forall s', a :: PageCover(head, s', a) <==> s' == surahs[0] && InRanges(MaximalRuns(pages, pm, surahs[0]), a)
    requires forall s', a :: PageCover(rest, s', a) <==> s' in surahs[1..] && a in AyahsOnPages(pages, pm, s')
    ensures forall s', a :: PageCover(head + rest, s', a) <==> s' in surahs && a in AyahsOnPages(pages, pm, s')
  {
    assert surahs == [surahs[0]] + surahs[1..];
    forall s', a
      ensures PageCover(head + rest, s', a) <==> s' in surahs && a in AyahsOnPages(pages, pm, s')
    {
      PageCoverAppend(head, rest, s', a);
    }
  }

  /** The rows derived from the memorised pages of a student. */
  function PageRows(pages: map<int, int>, pm: PageMap): (r: seq<AyahRow>)
    ensures forall row :: row in r ==> row.source == PageSource && row.isMemorized && row.fromAyah <= row.toAyah
    ensures forall s, a :: PageCover(r, s, a) <==>
              exists p :: p in MemorizedPages(pages) && p in pm && Verse(s, a) in pm[p]
    ensures forall s {:trigger SurahPageRuns(r, s)} :: SurahPageRuns(r, s) == MaximalRuns(MemorizedPages(pages), pm, s)
    ensures |r| == TotalRuns(MemorizedPages(pages), pm)
  {
    var memPages := MemorizedPages(pages);
    var r := DerivedRows(SortedElems(SurahsOnPages(memPages, pm)), memPages, pm);
    assert forall s, a :: PageCover(r, s, a) <==>
              exists p :: p in memPages && p in pm && Verse(s, a) in pm[p] by {
      forall s, a | exists p :: p in memPages && p in pm && Verse(s, a) in pm[p]
        ensures PageCover(r, s, a)
      {
        var p :| p in memPages && p in pm && Verse(s, a) in pm[p];
        assert s in SurahsOnPages(memPages, pm);
        assert a in AyahsOnPages(memPages, pm, s);
      }
    }
    forall s ensures SurahPageRuns(r, s) == MaximalRuns(memPages, pm, s) {
      if s !in SurahsOnPages(memPages, pm) {
        assert MaximalRuns(memPages, pm, s) == [];
      }
    }
    r
  }

  /** Dropping the page-derived rows and appending fresh ones keeps the
      other rows, and every page-derived row then comes from the fresh ones. */
  lemma ReplacePageRows(ranges: seq<AyahRow>, rows: seq<AyahRow>)
    requires forall row :: row in rows ==> row.source == PageSource
    ensures NonPageRows(NonPageRows(ranges) + rows) == NonPageRows(ranges)
    ensures forall s, a :: PageCover(NonPageRows(ranges) + rows, s, a) <==> PageCover(rows, s, a)
    ensures forall s {:trigger SurahPageRuns(NonPageRows(ranges) + rows, s)} :: SurahPageRuns(NonPageRows(ranges) + rows, s) == SurahPageRuns(rows, s)
  {
    var kept := NonPageRows(ranges);
    NonPageRowsAppend(kept, rows);
    NonPageRowsIdempotent(ranges);
    NonPageRowsOfPageRows(rows);
    forall i | 0 <= i < |kept|
      ensures kept[i].source != PageSource
    {
      assert kept[i] in kept;
    }
    forall s, a
      ensures PageCover(kept + rows, s, a) <==> PageCover(rows, s, a)
    {
      PageCoverAppend(kept, rows, s, a);
    }
    forall s
      ensures SurahPageRuns(kept + rows, s) == SurahPageRuns(rows, s)
    {
      SurahPageRunsAppend(kept, rows, s);
      SurahPageRunsOfNonPageRows(kept, s);
    }
  }

  /** No row is derived exactly when no memorised page prints an ayah. */
  lemma PageRowsEmpty(pages: map<int, int>, pm: PageMap)
    ensures |PageRows(pages, pm)| == 0 <==> forall p :: p in MemorizedPages(pages) && p in pm ==> pm[p] == []
  {
    var rows := PageRows(pages, pm);
    if |rows| > 0 {
      assert rows[0] in rows;
      assert PageCover(rows, rows[0].surah, rows[0].fromAyah);
    }
    forall p | p in MemorizedPages(pages) && p in pm && pm[p] != []
      ensures |rows| > 0
    {
      var v := pm[p][0];
      assert Verse(v.surah, v.ayah) in pm[p];
      assert PageCover(rows, v.surah, v.ayah);
    }
  }

  /** `sync_surah_from_pages`: with the map available, every page-derived
      row is replaced by the runs of ayahs on the memorised pages; the other
      rows stay, in order; the count is the number of rows written. */
  function SyncSurahFromPages(st: Store, refRowCount: int, pm: PageMap): (r: SyncResult)
    ensures !HasPageAyahMap(refRowCount) ==> r == SyncResult(st, 0)
    ensures r.store.pages == st.pages && r.store.goals == st.goals
    ensures NonPageRows(r.store.ranges) == NonPageRows(st.ranges)
    ensures HasPageAyahMap(refRowCount) ==>
              forall row :: row in r.store.ranges && row.source == PageSource ==> row.isMemorized && row.fromAyah <= row.toAyah
    ensures HasPageAyahMap(refRowCount) ==>
              forall s, a :: PageCover(r.store.ranges, s, a) <==>
                exists p :: p in MemorizedPages(st.pages) && p in pm && Verse(s, a) in pm[p]
    ensures HasPageAyahMap(refRowCount) ==>
              forall s {:trigger SurahPageRuns(r.store.ranges, s)} :: SurahPageRuns(r.store.ranges, s) == MaximalRuns(MemorizedPages(st.pages), pm, s)
    ensures HasPageAyahMap(refRowCount) ==> r.count == TotalRuns(MemorizedPages(st.pages), pm)
    ensures HasPageAyahMap(refRowCount) ==> r.count == |r.store.ranges| - |NonPageRows(st.ranges)|
    ensures HasPageAyahMap(refRowCount) ==>
              (r.count == 0 <==> forall p :: p in MemorizedPages(st.pages) && p in pm ==> pm[p] == [])
    ensures 0 <= r.count
  {
    if !HasPageAyahMap(refRowCount) then SyncResult(st, 0)
    else
      var kept := NonPageRows(st.ranges);
      var rows := PageRows(st.pages, pm);
      ReplacePageRows(st.ranges, rows);
      PageRowsEmpty(st.pages, pm);
      SyncResult(st.(ranges := kept + rows), |rows|)
  }

  /** After syncing ranges from pages, every ayah printed on a memorised
      page counts as memorised. */
  lemma SyncedPagesAreMemorized(st: Store, refRowCount: int, pm: PageMap, p: int, v: Verse)
    requires HasPageAyahMap(refRowCount)
    requires p in MemorizedPages(st.pages) && p in pm && v in pm[p]
    ensures Memorized(SyncSurahFromPages(st, refRowCount, pm).store.ranges, v.surah, v.ayah)
  {
    var rows := SyncSurahFromPages(st, refRowCount, pm).store.ranges;
    assert PageCover(rows, v.surah, v.ayah) by {
      assert Verse(v.surah, v.ayah) in pm[p];
    }
    PageCoverIsMemorized(rows, v.surah, v.ayah);
  }

  /** A memorised, ordered page-derived row makes its ayahs memorised. */
  lemma PageCoverIsMemorized(rows: seq<AyahRow>, s: int, a: int)
    requires PageCover(rows, s, a)
    requires forall row :: row in rows && row.source == PageSource ==> row.isMemorized && row.fromAyah <= row.toAyah
    ensures Memorized(rows, s, a)
  {
    var i :| 0 <= i < |rows| && rows[i].source == PageSource && rows[i].surah == s
           && rows[i].fromAyah <= a <= rows[i].toAyah;
    assert rows[i] in rows;
  }

  /** The round trip pages -> ranges -> pages keeps every memorised page of
      the map. */
  lemma PagesSurviveRoundTrip(st: Store, refRowCount: int, pm: PageMap)
    requires HasPageAyahMap(refRowCount)
    ensures
      var mid := SyncSurahFromPages(st, refRowCount, pm).store;
      forall p :: p in MemorizedPages(st.pages) && p in pm ==> p in FullyMemorizedPages(mid.ranges, pm)
  {
    var mid := SyncSurahFromPages(st, refRowCount, pm).store;
    forall p | p in MemorizedPages(st.pages) && p in pm
      ensures p in FullyMemorizedPages(mid.ranges, pm)
    {
      forall v | v in pm[p]
        ensures Memorized(mid.ranges, v.surah, v.ayah)
      {
        SyncedPagesAreMemorized(st, refRowCount, pm, p, v);
      }
    }
  }

  /** Syncing ranges from pages twice gives the store of syncing once. */
  lemma SyncSurahRepeat(st: Store, refRowCount: int, pm: PageMap)
    ensures
      var once := SyncSurahFromPages(st, refRowCount, pm);
      SyncSurahFromPages(once.store, refRowCount, pm) == once
  {
    var once := SyncSurahFromPages(st, refRowCount, pm);
    if HasPageAyahMap(refRowCount) {
      assert once.store.pages == st.pages;
    }
  }

  // ---------------------------------------------------------------------
  // Both directions
  // ---------------------------------------------------------------------

  /** The outcome of `sync_bidirectional`: the store, the two totals it
      returns, and how many passes ran. */
  datatype BiSyncResult = BiSyncResult(store: Store, totalPages: int, totalSurahs: int, passes: int)

  /** One pass of the loop: pages from ranges, then ranges from pages, with
      both counts. */
  datatype PassResult = PassResult(store: Store, pagesCount: int, surahsCount: int)

  function OnePass(st: Store, refRowCount: int, pm: PageMap): (r: PassResult)
    ensures r.pagesCount >= 0 && r.surahsCount >= 0
    ensures r.store.goals == st.goals
    ensures NonPageRows(r.store.ranges) == NonPageRows(st.ranges)
    ensures MemorizedPages(st.pages) <= MemorizedPages(r.store.pages)
  {
    var a := SyncPagesFromSurah(st, refRowCount, pm);
    var b := SyncSurahFromPages(a.store, refRowCount, pm);
    SyncPagesKeepsMemorized(st, refRowCount, pm);
    PassResult(b.store, a.count, b.count)
  }

  /** One pass as a function of the store, for the loop below. */
  function PassOf(refRowCount: int, pm: PageMap): Store -> PassResult
  {
    (st: Store) => OnePass(st, refRowCount, pm)
  }

  /** Every page memorised before is memorised after. */
  ghost predicate PagesKept(before: map<int, int>, after: map<int, int>)
  {
    forall p :: p in before && before[p] == 1 ==> p in after && after[p] == 1
  }

  lemma PagesKeptMeansSubset(before: map<int, int>, after: map<int, int>)
    ensures PagesKept(before, after) <==> MemorizedPages(before) <= MemorizedPages(after)
  {
    if MemorizedPages(before) <= MemorizedPages(after) {
      forall p | p in before && before[p] == 1
        ensures p in after && after[p] == 1
      {
        assert p in MemorizedPages(before);
      }
    }
    if PagesKept(before, after) {
      forall p | p in MemorizedPages(before)
        ensures p in MemorizedPages(after)
      {
        assert p in after && after[p] == 1;
      }
    }
  }

  /** What a pass keeps of the store: the goals, the rows not derived from
      pages, and every memorised page. */
  ghost predicate SyncKept(before: Store, after: Store)
  {
    && after.goals == before.goals
    && NonPageRows(after.ranges) == NonPageRows(before.ranges)
    && PagesKept(before.pages, after.pages)
  }

  lemma SyncKeptTrans(a: Store, b: Store, c: Store)
    requires SyncKept(a, b) && SyncKept(b, c)
    ensures SyncKept(a, c)
  {
  }

  /** One pass keeps the store in the sense of `SyncKept`, and its counts
      are never negative. */
  lemma OnePassKeeps(refRowCount: int, pm: PageMap)
    ensures forall st: Store :: SyncKept(st, PassOf(refRowCount, pm)(st).store)
    ensures forall st: Store ::
              PassOf(refRowCount, pm)(st).pagesCount >= 0 && PassOf(refRowCount, pm)(st).surahsCount >= 0
  {
    forall st: Store
      ensures SyncKept(st, PassOf(refRowCount, pm)(st).store)
      ensures PassOf(refRowCount, pm)(st).pagesCount >= 0 && PassOf(refRowCount, pm)(st).surahsCount >= 0
    {
      assert PassOf(refRowCount, pm)(st) == OnePass(st, refRowCount, pm);
      PagesKeptMeansSubset(st.pages, OnePass(st, refRowCount, pm).store.pages);
    }
  }

  /** The loop of `sync_bidirectional` over a given pass: each pass adds
      both counts, and the loop stops after a pass whose counts were both
      zero, or when no passes remain. */
  function PassLoop(pass: Store -> PassResult, st: Store, remaining: int): (r: BiSyncResult)
    ensures 0 <= r.passes && (remaining <= 0 ==> r.passes == 0) && (remaining > 0 ==> 1 <= r.passes <= remaining)
    decreases remaining
  {
    if remaining <= 0 then BiSyncResult(st, 0, 0, 0)
    else
      var p := pass(st);
      if p.pagesCount == 0 && p.surahsCount == 0 then BiSyncResult(p.store, 0, 0, 1)
      else
        var rest := PassLoop(pass, p.store, remaining - 1);
        BiSyncResult(rest.store, p.pagesCount + rest.totalPages, p.surahsCount + rest.totalSurahs, rest.passes + 1)
  }

  /** The loop's store stands in any reflexive, transitive relation to the
      store it started from that every pass keeps. */
  lemma {:induction false} PassLoopPreserves(pass: Store -> PassResult, rel: (Store, Store) -> bool, st: Store, remaining: int)
    requires forall s :: rel(s, s)
    requires forall s :: rel(s, pass(s).store)
    requires forall a, b, c :: rel(a, b) && rel(b, c) ==> rel(a, c)
    ensures rel(st, PassLoop(pass, st, remaining).store)
    decreases remaining
  {
    if remaining > 0 {
      var p := pass(st);
      if p.pagesCount != 0 || p.surahsCount != 0 {
        PassLoopPreserves(pass, rel, p.store, remaining - 1);
        assert PassLoop(pass, st, remaining).store == PassLoop(pass, p.store, remaining - 1).store;
      }
    }
  }

  /** Totals of passes with non-negative counts are non-negative. */
  lemma {:induction false} PassLoopCounts(pass: Store -> PassResult, st: Store, remaining: int)
    requires forall s :: pass(s).pagesCount >= 0 && pass(s).surahsCount >= 0
    ensures PassLoop(pass, st, remaining).totalPages >= 0
    ensures PassLoop(pass, st, remaining).totalSurahs >= 0
    decreases remaining
  {
    if remaining > 0 {
      var p := pass(st);
      if p.pagesCount != 0 || p.surahsCount != 0 {
        PassLoopCounts(pass, p.store, remaining - 1);
      }
    }
  }

  /** While the pass keeps a store active and writes rows on every active
      store, the loop runs all its passes and every pass adds to the
      surah total. */
  lemma {:induction false} PassLoopNeverStops(pass: Store -> PassResult, active: Store -> bool, st: Store, remaining: int)
    requires forall s :: active(s) ==> pass(s).surahsCount > 0 && active(pass(s).store)
    requires active(st)
    ensures PassLoop(pass, st, remaining).passes == (if remaining > 0 then remaining else 0)
    ensures PassLoop(pass, st, remaining).totalSurahs >= PassLoop(pass, st, remaining).passes
    decreases remaining
  {
    if remaining > 0 {
      PassLoopNeverStops(pass, active, pass(st).store, remaining - 1);
    }
  }

  /** The passes that remain: each syncs pages from ranges, then ranges from
      pages, adds both counts, and stops the loop when both were zero. */
  function SyncPasses(st: Store, refRowCount: int, pm: PageMap, remaining: int): (r: BiSyncResult)
    ensures 0 <= r.passes && (remaining <= 0 ==> r.passes == 0) && (remaining > 0 ==> 1 <= r.passes <= remaining)
    ensures r.totalPages >= 0 && r.totalSurahs >= 0
    ensures r.store.goals == st.goals
    ensures NonPageRows(r.store.ranges) == NonPageRows(st.ranges)
    ensures MemorizedPages(st.pages) <= MemorizedPages(r.store.pages)
  {
    var pass := PassOf(refRowCount, pm);
    var r := PassLoop(pass, st, remaining);
    OnePassKeeps(refRowCount, pm);
    PassLoopCounts(pass, st, remaining);
    forall a, b, c | SyncKept(a, b) && SyncKept(b, c)
      ensures SyncKept(a, c)
    {
      SyncKeptTrans(a, b, c);
    }
    PassLoopPreserves(pass, (a, b) => SyncKept(a, b), st, remaining);
    PagesKeptMeansSubset(st.pages, r.store.pages);
    r
  }

  /** `sync_bidirectional` with its default of five passes. */
  function SyncBidirectional(st: Store, refRowCount: int, pm: PageMap, maxPasses: int := 5): (r: BiSyncResult)
    ensures !HasPageAyahMap(refRowCount) ==>
              r == BiSyncResult(st, 0, 0, if maxPasses > 0 then 1 else 0)
    ensures 0 <= r.passes && (maxPasses <= 0 ==> r.passes == 0) && (maxPasses > 0 ==> 1 <= r.passes <= maxPasses)
    ensures r.totalPages >= 0 && r.totalSurahs >= 0
    ensures r.store.goals == st.goals
    ensures NonPageRows(r.store.ranges) == NonPageRows(st.ranges)
    ensures MemorizedPages(st.pages) <= MemorizedPages(r.store.pages)
  {
    SyncPasses(st, refRowCount, pm, maxPasses)
  }

  /** A pass that returns two zeros leaves a store on which the next pass
      also returns two zeros and changes nothing: stopping there loses
      nothing. */
  lemma ZeroPassIsStable(st: Store, refRowCount: int, pm: PageMap)
    requires
      var a := SyncPagesFromSurah(st, refRowCount, pm);
      a.count == 0 && SyncSurahFromPages(a.store, refRowCount, pm).count == 0
    ensures
      var mid := SyncSurahFromPages(SyncPagesFromSurah(st, refRowCount, pm).store, refRowCount, pm).store;
      var a := SyncPagesFromSurah(mid, refRowCount, pm);
      var b := SyncSurahFromPages(a.store, refRowCount, pm);
      a == SyncResult(mid, 0) && b == SyncResult(mid, 0)
  {
    var a0 := SyncPagesFromSurah(st, refRowCount, pm);
    var mid := SyncSurahFromPages(a0.store, refRowCount, pm).store;
    if HasPageAyahMap(refRowCount) {
      assert a0.store == st;
      assert mid.pages == st.pages;
      // With no page-derived rows written, the ranges are the kept rows.
      NonPageRowsIdempotent(st.ranges);
      assert mid.ranges == NonPageRows(st.ranges) by {
        assert |mid.ranges| == |NonPageRows(st.ranges)|;
        NonPageRowsPrefix(mid.ranges, NonPageRows(st.ranges));
      }
      KeptFullyMemorized(st.ranges, pm);
      var a := SyncPagesFromSurah(mid, refRowCount, pm);
      assert a.store == mid;
      SyncSurahRepeat(a0.store, refRowCount, pm);
    }
  }

  /** A row sequence as long as its own non-page rows holds no page rows. */
  lemma {:induction false} NonPageRowsPrefix(rows: seq<AyahRow>, kept: seq<AyahRow>)
    requires NonPageRows(rows) == kept && |rows| == |kept|
    ensures rows == kept
    decreases |rows|
  {
    if |rows| > 0 {
      var rest := NonPageRows(rows[1..]);
      assert |rest| <= |rows[1..]|;
      assert rows[0].source != PageSource;
      assert kept == [rows[0]] + rest;
      NonPageRowsPrefix(rows[1..], rest);
    }
  }

  /** A page fully memorised by the kept rows was fully memorised before. */
  lemma KeptFullyMemorized(rows: seq<AyahRow>, pm: PageMap)
    ensures FullyMemorizedPages(NonPageRows(rows), pm) <= FullyMemorizedPages(rows, pm)
  {
    forall p | p in FullyMemorizedPages(NonPageRows(rows), pm)
      ensures p in FullyMemorizedPages(rows, pm)
    {
      forall v | v in pm[p]
        ensures Memorized(rows, v.surah, v.ayah)
      {
        MemorizedInKept(rows, v.surah, v.ayah);
      }
    }
  }

  /** An ayah memorised by the kept rows was memorised before. */
  lemma MemorizedInKept(rows: seq<AyahRow>, s: int, a: int)
    requires Memorized(NonPageRows(rows), s, a)
    ensures Memorized(rows, s, a)
  {
    var kept := NonPageRows(rows);
    var i :| 0 <= i < |kept| && kept[i].surah == s && kept[i].isMemorized
           && NormRange(kept[i]).lo <= a <= NormRange(kept[i]).hi;
    assert kept[i] in kept;
    var j :| 0 <= j < |rows| && rows[j] == kept[i];
  }

  /** While some memorised page of the map has an ayah on it, every pass
      writes rows, so the loop never stops early and the surah total counts
      the same rows again on every pass. */
  lemma NoEarlyStop(st: Store, refRowCount: int, pm: PageMap, remaining: int, p: int)
    requires HasPageAyahMap(refRowCount)
    requires p in MemorizedPages(st.pages) && p in pm && pm[p] != []
    ensures SyncPasses(st, refRowCount, pm, remaining).passes == (if remaining > 0 then remaining else 0)
    ensures SyncPasses(st, refRowCount, pm, remaining).totalSurahs >= SyncPasses(st, refRowCount, pm, remaining).passes
  {
    EveryPassWrites(refRowCount, pm, p);
    PassLoopNeverStops(PassOf(refRowCount, pm), (s: Store) => PageMemorized(s.pages, p), st, remaining);
  }

  /** Page `p` is memorised in the page table. */
  predicate PageMemorized(pages: map<int, int>, p: int)
  {
    p in pages && pages[p] == 1
  }

  /** `PassWrites` for every store that has the page memorised. */
  lemma EveryPassWrites(refRowCount: int, pm: PageMap, p: int)
    requires HasPageAyahMap(refRowCount)
    requires p in pm && pm[p] != []
    ensures forall s: Store :: PageMemorized(s.pages, p) ==>
              PassOf(refRowCount, pm)(s).surahsCount > 0 && PageMemorized(PassOf(refRowCount, pm)(s).store.pages, p)
  {
    forall s: Store | PageMemorized(s.pages, p)
      ensures PassOf(refRowCount, pm)(s).surahsCount > 0 && PageMemorized(PassOf(refRowCount, pm)(s).store.pages, p)
    {
      assert PassOf(refRowCount, pm)(s) == OnePass(s, refRowCount, pm);
      assert p in MemorizedPages(s.pages);
      PassWrites(s, refRowCount, pm, p);
    }
  }

  /** A pass over a store with a memorised page that has an ayah writes at
      least one row, and the page stays memorised. */
  lemma PassWrites(st: Store, refRowCount: int, pm: PageMap, p: int)
    requires HasPageAyahMap(refRowCount)
    requires p in MemorizedPages(st.pages) && p in pm && pm[p] != []
    ensures OnePass(st, refRowCount, pm).surahsCount > 0
    ensures p in MemorizedPages(OnePass(st, refRowCount, pm).store.pages)
  {
    var a := SyncPagesFromSurah(st, refRowCount, pm);
    SyncPagesKeepsMemorized(st, refRowCount, pm);
    assert p in MemorizedPages(a.store.pages);
  }

  /** A pass with both counts zero ends the loop. */
  lemma PassLoopStops(pass: Store -> PassResult, st: Store, remaining: int)
    requires remaining > 0
    requires pass(st).pagesCount == 0 && pass(st).surahsCount == 0
    ensures PassLoop(pass, st, remaining) == BiSyncResult(pass(st).store, 0, 0, 1)
  {
  }

  /** Any other pass is followed by the remaining passes, its counts added. */
  lemma PassLoopGoesOn(pass: Store -> PassResult, st: Store, remaining: int)
    requires remaining > 0
    requires pass(st).pagesCount != 0 || pass(st).surahsCount != 0
    ensures PassLoop(pass, st, remaining).store == PassLoop(pass, pass(st).store, remaining - 1).store
    ensures PassLoop(pass, st, remaining).totalPages == pass(st).pagesCount + PassLoop(pass, pass(st).store, remaining - 1).totalPages
    ensures PassLoop(pass, st, remaining).totalSurahs == pass(st).surahsCount + PassLoop(pass, pass(st).store, remaining - 1).totalSurahs
  {
  }

  /** The loop of `sync_bidirectional` as it is written, over a given pass:
      it computes what PassLoop describes. */
  method RunPasses(pass: Store -> PassResult, st: Store, maxPasses: int)
    returns (store: Store, totalPages: int, totalSurahs: int)
    ensures
      var r := PassLoop(pass, st, maxPasses);
      store == r.store && totalPages == r.totalPages && totalSurahs == r.totalSurahs
  {
    store, totalPages, totalSurahs := st, 0, 0;
    ghost var whole := PassLoop(pass, st, maxPasses);
    var remaining := maxPasses;
    while remaining > 0
      invariant whole.store == PassLoop(pass, store, remaining).store
      invariant whole.totalPages == totalPages + PassLoop(pass, store, remaining).totalPages
      invariant whole.totalSurahs == totalSurahs + PassLoop(pass, store, remaining).totalSurahs
      decreases remaining
    {
      var p := pass(store);
      if p.pagesCount == 0 && p.surahsCount == 0 {
        // Both counts are zero: adding them changes nothing.
        PassLoopStops(pass, store, remaining);
        store := p.store;
        break;
      }
      PassLoopGoesOn(pass, store, remaining);
      totalPages := totalPages + p.pagesCount;
      totalSurahs := totalSurahs + p.surahsCount;
      store := p.store;
      remaining := remaining - 1;
    }
  }

  /** `sync_bidirectional` as the loop it is written as: the loop above
      with the pass that syncs pages from ranges, then ranges from pages. */
  method SyncBidirectionalLoop(st: Store, refRowCount: int, pm: PageMap, maxPasses: int := 5)
    returns (store: Store, totalPages: int, totalSurahs: int)
    ensures
      var r := SyncBidirectional(st, refRowCount, pm, maxPasses);
      store == r.store && totalPages == r.totalPages && totalSurahs == r.totalSurahs
    ensures totalPages >= 0 && totalSurahs >= 0
    ensures NonPageRows(store.ranges) == NonPageRows(st.ranges)
  {
    store, totalPages, totalSurahs := RunPasses(PassOf(refRowCount, pm), st, maxPasses);
  }
}
