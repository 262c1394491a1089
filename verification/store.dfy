/** One student's rows in the memorisation tables: page states
    (`student_pages`), recorded ayah ranges (`student_ayah_ranges`) and
    goals (`goals`), with the operations that write them directly and the
    merged per-surah view of the memorised ayahs. */
module Store {
  import opened Base
  import opened Intervals

  /** The `source` a range gets when none is given. */
  const ManualSource: string := "manual"

  /** The `source` of ranges derived from memorised pages. */
  const PageSource: string := "page"

  /** One row of `student_ayah_ranges`. */
  datatype AyahRow = AyahRow(surah: int, fromAyah: int, toAyah: int, isMemorized: bool, source: string)

  /** One row of `goals`; the nullable integer columns are options. */
  datatype Goal = Goal(
    id: int,
    targetKind: string,
    pageFrom: Option<int>,
    pageTo: Option<int>,
    surah: Option<int>,
    fromAyah: Option<int>,
    toAyah: Option<int>,
    status: string,
    achievedAt: Option<string>)

  /** One student's rows. `pages` maps a page number to its `is_memorized`
      value; the table's key (student_id, page_number) makes it a map. */
  datatype Store = Store(pages: map<int, int>, ranges: seq<AyahRow>, goals: seq<Goal>)

  /** The pages whose `is_memorized` is 1. */
  function MemorizedPages(pages: map<int, int>): set<int>
  {
    set p | p in pages && pages[p] == 1
  }

  // ---------------------------------------------------------------------
  // Direct writes
  // ---------------------------------------------------------------------

  /** `upsert_page`: insert the page or overwrite its state; nothing else
      changes. */
  function UpsertPage(st: Store, page: int, isMem: bool): (r: Store)
    ensures page in r.pages && (r.pages[page] == 1 <==> isMem) && (r.pages[page] == 0 <==> !isMem)
    ensures r.pages.Keys == st.pages.Keys + {page}
    ensures forall p :: p in st.pages && p != page ==> r.pages[p] == st.pages[p]
    ensures r.ranges == st.ranges && r.goals == st.goals
  {
    st.(pages := st.pages[page := if isMem then 1 else 0])
  }

  /** Upserting the same page twice leaves what the second write says. */
  lemma UpsertPageLastWriteWins(st: Store, page: int, a: bool, b: bool)
    ensures UpsertPage(UpsertPage(st, page, a), page, b) == UpsertPage(st, page, b)
  {
  }

  /** Upserts of different pages commute. */
  lemma UpsertPagesCommute(st: Store, p: int, q: int, a: bool, b: bool)
    requires p != q
    ensures UpsertPage(UpsertPage(st, p, a), q, b) == UpsertPage(UpsertPage(st, q, b), p, a)
  {
  }

  /** `add_ayah_range`: a reversed range is swapped, then one row is
      appended. */
  function AddAyahRange(st: Store, surah: int, fromAyah: int, toAyah: int, isMem: bool, source: string): (r: Store)
    ensures |r.ranges| == |st.ranges| + 1 && r.ranges[..|st.ranges|] == st.ranges
    ensures
      var row := r.ranges[|st.ranges|];
      && row.surah == surah && row.isMemorized == isMem && row.source == source
      && row.fromAyah <= row.toAyah
      && {row.fromAyah, row.toAyah} == {fromAyah, toAyah}
    ensures r.pages == st.pages && r.goals == st.goals
  {
    var (f, t) := if toAyah < fromAyah then (toAyah, fromAyah) else (fromAyah, toAyah);
    st.(ranges := st.ranges + [AyahRow(surah, f, t, isMem, source)])
  }

  // ---------------------------------------------------------------------
  // The merged view
  // ---------------------------------------------------------------------

  /** A row's range with its ends in order (the swap of
      `get_merged_ayahs_for_student`). */
  function NormRange(row: AyahRow): (g: Range)
    ensures g.lo <= g.hi
    ensures {g.lo, g.hi} == {row.fromAyah, row.toAyah}
  {
    if row.fromAyah > row.toAyah then Range(row.toAyah, row.fromAyah) else Range(row.fromAyah, row.toAyah)
  }

  /** The reference meaning of the ranges table: ayah a of surah s is
      memorised when some memorised row of s spans it, in either order. */
  ghost predicate Memorized(rows: seq<AyahRow>, s: int, a: int)
  {
    exists i :: 0 <= i < |rows| && rows[i].surah == s && rows[i].isMemorized
             && NormRange(rows[i]).lo <= a <= NormRange(rows[i]).hi
  }

  lemma MemorizedCons(rows: seq<AyahRow>, s: int, a: int)
    requires |rows| > 0
    ensures Memorized(rows, s, a) <==>
              (rows[0].surah == s && rows[0].isMemorized && NormRange(rows[0]).lo <= a <= NormRange(rows[0]).hi)
              || Memorized(rows[1..], s, a)
  {
    if Memorized(rows, s, a) {
      var i :| 0 <= i < |rows| && rows[i].surah == s && rows[i].isMemorized
             && NormRange(rows[i]).lo <= a <= NormRange(rows[i]).hi;
      if i > 0 {
        assert rows[1..][i - 1] == rows[i];
      }
    }
    if Memorized(rows[1..], s, a) {
      var i :| 0 <= i < |rows[1..]| && rows[1..][i].surah == s && rows[1..][i].isMemorized
             && NormRange(rows[1..][i]).lo <= a <= NormRange(rows[1..][i]).hi;
      assert rows[i + 1] == rows[1..][i];
    }
  }

  /** The surahs that have at least one memorised row. */
  function SurahsWithMemorized(rows: seq<AyahRow>): set<int>
  {
    set i | 0 <= i < |rows| && rows[i].isMemorized :: rows[i].surah
  }

  /** The ordered ranges of the memorised rows of surah s, in table order. */
  function MemorizedRangesOf(rows: seq<AyahRow>, s: int): (rs: seq<Range>)
    ensures WellFormed(rs)
    ensures forall a :: InRanges(rs, a) <==> Memorized(rows, s, a)
    ensures |rs| == 0 <==> s !in SurahsWithMemorized(rows)
  {
    if |rows| == 0 then []
    else
      var rest := MemorizedRangesOf(rows[1..], s);
      var head := if rows[0].surah == s && rows[0].isMemorized then [NormRange(rows[0])] else [];
      var rs := head + rest;
      forall a
        ensures InRanges(rs, a) <==> Memorized(rows, s, a)
      {
        MemorizedCons(rows, s, a);
        if |head| > 0 {
          CoverCons(rs);
          assert rs[1..] == rest;
        } else {
          assert rs == rest;
        }
      }
      assert s in SurahsWithMemorized(rows) <==> (rows[0].surah == s && rows[0].isMemorized) || s in SurahsWithMemorized(rows[1..]) by {
        if s in SurahsWithMemorized(rows) {
          var i :| 0 <= i < |rows| && rows[i].isMemorized && rows[i].surah == s;
          if i > 0 {
            assert rows[1..][i - 1] == rows[i];
          }
        }
        if s in SurahsWithMemorized(rows[1..]) {
          var i :| 0 <= i < |rows[1..]| && rows[1..][i].isMemorized && rows[1..][i].surah == s;
          assert rows[i + 1] == rows[1..][i];
        }
      }
      rs
  }

  /** `get_merged_ayahs_for_student`: for each surah with a memorised row,
      the canonical ranges that cover exactly its memorised ayahs. */
  function GetMergedAyahs(rows: seq<AyahRow>): (m: map<int, seq<Range>>)
    ensures m.Keys == SurahsWithMemorized(rows)
    ensures forall s :: s in m ==> Canonical(m[s]) && |m[s]| > 0
    ensures forall s, a :: s in m ==> (InRanges(m[s], a) <==> Memorized(rows, s, a))
  {
    map s | s in SurahsWithMemorized(rows) :: MergeIntervals(MemorizedRangesOf(rows, s))
  }

  /** Surahs outside the merged view have no memorised ayah at all. */
  lemma NotMergedMeansNothingMemorized(rows: seq<AyahRow>, s: int, a: int)
    requires s !in GetMergedAyahs(rows)
    ensures !Memorized(rows, s, a)
  {
    assert MemorizedRangesOf(rows, s) == [];
  }

  /** The ayahs of surah s that the merged view covers. */
  function MergedAyahsOf(merged: map<int, seq<Range>>, s: int): set<int>
  {
    if s in merged then Covered(merged[s]) else {}
  }

  /** The merged view depends only on which ayahs are memorised, not on the
      order, splitting or direction of the rows. */
  lemma {:induction false} MergedDependsOnMeaningOnly(rows: seq<AyahRow>, rows': seq<AyahRow>)
    requires forall s, a :: Memorized(rows, s, a) <==> Memorized(rows', s, a)
    requires SurahsWithMemorized(rows) == SurahsWithMemorized(rows')
    ensures GetMergedAyahs(rows) == GetMergedAyahs(rows')
  {
    var m, m' := GetMergedAyahs(rows), GetMergedAyahs(rows');
    forall s | s in m
      ensures m[s] == m'[s]
    {
      CanonicalUnique(m[s], m'[s]);
    }
  }

  /** Appending a memorised range adds exactly its ayahs to that surah's
      merged view and leaves every other surah's as it was. */
  lemma AddRangeExtendsMerged(st: Store, surah: int, fromAyah: int, toAyah: int, source: string, s: int, a: int)
    ensures
      var r := AddAyahRange(st, surah, fromAyah, toAyah, true, source);
      Memorized(r.ranges, s, a) <==>
        Memorized(st.ranges, s, a)
        || (s == surah && (fromAyah <= a <= toAyah || toAyah <= a <= fromAyah))
  {
    var r := AddAyahRange(st, surah, fromAyah, toAyah, true, source);
    var n := |st.ranges|;
    if Memorized(r.ranges, s, a) {
      var i :| 0 <= i < |r.ranges| && r.ranges[i].surah == s && r.ranges[i].isMemorized
             && NormRange(r.ranges[i]).lo <= a <= NormRange(r.ranges[i]).hi;
      if i < n {
        assert r.ranges[i] == st.ranges[i];
      }
    }
    if Memorized(st.ranges, s, a) {
      var i :| 0 <= i < n && st.ranges[i].surah == s && st.ranges[i].isMemorized
             && NormRange(st.ranges[i]).lo <= a <= NormRange(st.ranges[i]).hi;
      assert r.ranges[i] == st.ranges[i];
    }
    if s == surah && (fromAyah <= a <= toAyah || toAyah <= a <= fromAyah) {
      assert r.ranges[n].surah == s;
    }
  }

  /** Appending a range that is not memorised changes nothing in the
      merged view. */
  lemma AddUnmemorizedRangeKeepsMerged(st: Store, surah: int, fromAyah: int, toAyah: int, source: string)
    ensures GetMergedAyahs(AddAyahRange(st, surah, fromAyah, toAyah, false, source).ranges) == GetMergedAyahs(st.ranges)
  {
    var r := AddAyahRange(st, surah, fromAyah, toAyah, false, source);
    var n := |st.ranges|;
    forall s, a
      ensures Memorized(r.ranges, s, a) <==> Memorized(st.ranges, s, a)
    {
      if Memorized(r.ranges, s, a) {
        var i :| 0 <= i < |r.ranges| && r.ranges[i].surah == s && r.ranges[i].isMemorized
               && NormRange(r.ranges[i]).lo <= a <= NormRange(r.ranges[i]).hi;
        assert i < n;
        assert r.ranges[i] == st.ranges[i];
      }
      if Memorized(st.ranges, s, a) {
        var i :| 0 <= i < n && st.ranges[i].surah == s && st.ranges[i].isMemorized
               && NormRange(st.ranges[i]).lo <= a <= NormRange(st.ranges[i]).hi;
        assert r.ranges[i] == st.ranges[i];
      }
    }
    assert SurahsWithMemorized(r.ranges) == SurahsWithMemorized(st.ranges) by {
      forall s | s in SurahsWithMemorized(r.ranges)
        ensures s in SurahsWithMemorized(st.ranges)
      {
        var i :| 0 <= i < |r.ranges| && r.ranges[i].isMemorized && r.ranges[i].surah == s;
        assert r.ranges[i] == st.ranges[i];
      }
      forall s | s in SurahsWithMemorized(st.ranges)
        ensures s in SurahsWithMemorized(r.ranges)
      {
        var i :| 0 <= i < n && st.ranges[i].isMemorized && st.ranges[i].surah == s;
        assert r.ranges[i] == st.ranges[i];
      }
    }
    MergedDependsOnMeaningOnly(r.ranges, st.ranges);
  }

  /** A concrete merge: a reversed row, an overlapping row and an unmemorised
      row of the same surah give one range. */
  lemma GetMergedAyahsExample()
    ensures GetMergedAyahs(ExampleRows()).Keys == {2}
    ensures GetMergedAyahs(ExampleRows())[2] == [Range(3, 10)]
  {
    var rows := ExampleRows();
    var m := GetMergedAyahs(rows);
    assert m.Keys == {2} by {
      ExampleRowsSurahs();
    }
    assert m[2] == [Range(3, 10)] by {
      ExampleRowsRanges();
      MergeOverlappingPair();
    }
  }

  /** Three rows of surah 2: 7..3 written reversed, 6..10, and 20..30 not
      memorised. */
  function ExampleRows(): seq<AyahRow>
  {
    [AyahRow(2, 7, 3, true, ManualSource),
     AyahRow(2, 6, 10, true, PageSource),
     AyahRow(2, 20, 30, false, ManualSource)]
  }

  lemma ExampleRowsSurahs()
    ensures SurahsWithMemorized(ExampleRows()) == {2}
  {
    var rows := ExampleRows();
    assert rows[0].isMemorized && rows[0].surah == 2;
    assert forall i :: 0 <= i < |rows| ==> rows[i].surah == 2;
  }

  lemma ExampleRowsRanges()
    ensures MemorizedRangesOf(ExampleRows(), 2) == [Range(3, 7), Range(6, 10)]
  {
    var rows := ExampleRows();
    assert rows[2..][1..] == [];
    assert MemorizedRangesOf(rows[2..], 2) == [];
    assert rows[1..][1..] == rows[2..];
    assert MemorizedRangesOf(rows[1..], 2) == [Range(6, 10)];
  }

  lemma MergeOverlappingPair()
    ensures MergeIntervals([Range(3, 7), Range(6, 10)]) == [Range(3, 10)]
  {
    var raw := [Range(3, 7), Range(6, 10)];
    forall a
      ensures InRanges(raw, a) <==> InRanges([Range(3, 10)], a)
    {
      CoverCons(raw);
      CoverCons(raw[1..]);
      CoverCons([Range(3, 10)]);
    }
    MergeIntervalsDependsOnCoverOnly(raw, [Range(3, 10)]);
    MergeIntervalsFixesCanonical([Range(3, 10)]);
  }
}
