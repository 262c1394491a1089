/** Progress figures: per juz from the page states, per surah from the
    merged ayah ranges, and the overall summary. Python's true division is
    modelled with reals. */
module Progress {
  import opened Base
  import opened Intervals
  import opened QuranRefs
  import opened Store

  /** The memorised pages between lo and hi inclusive. */
  function MemorizedIn(pages: map<int, int>, lo: int, hi: int): (s: set<int>)
    ensures forall p :: p in s <==> p in MemorizedPages(pages) && lo <= p <= hi
  {
    set p | p in pages && pages[p] == 1 && lo <= p <= hi
  }

  lemma SubsetCardinality(a: set<int>, b: set<int>)
    requires a <= b
    ensures |a| <= |b|
    ensures |a| == |b| ==> a == b
  {
    assert a * b == a;
    assert a + b == b;
    assert |b - a| == |b| - |a|;
    if |a| == |b| {
      assert |b - a| == 0;
      assert b <= a;
    }
  }

  /** A count over a positive total, as a fraction. */
  lemma Fraction(mem: int, total: int)
    requires 0 <= mem && 0 < total
    ensures 0.0 <= mem as real / total as real
    ensures mem <= total ==> mem as real / total as real <= 1.0
    ensures mem as real / total as real >= 1.0 <==> mem >= total
    ensures mem as real / total as real == 0.0 <==> mem == 0
  {
  }

  /** Python's division by a negative total (a surah's ayah count is never
      negative in the reference table, but the formula allows it). */
  lemma NegativeFraction(mem: int, total: int)
    requires 0 <= mem && total < 0
    ensures mem as real / total as real <= 0.0
    ensures mem as real / total as real == 0.0 <==> mem == 0
  {
  }

  /** The memorised pages of a span number at most its length, and as many
      only when every page of the span is memorised. */
  lemma MemorizedInCount(pages: map<int, int>, lo: int, hi: int)
    requires lo <= hi
    ensures |MemorizedIn(pages, lo, hi)| <= hi - lo + 1
    ensures |MemorizedIn(pages, lo, hi)| == hi - lo + 1 <==>
              forall p :: lo <= p <= hi ==> p in MemorizedPages(pages)
  {
    var m, s := MemorizedIn(pages, lo, hi), Span(lo, hi);
    SubsetCardinality(m, s);
    if forall p :: lo <= p <= hi ==> p in MemorizedPages(pages) {
      assert m == s;
    }
  }

  // ---------------------------------------------------------------------
  // Per juz
  // ---------------------------------------------------------------------

  /** r is a share in [0, 1] that is 1 exactly when every page of lo..hi is
      memorised and 0 exactly when none is. */
  ghost predicate SpanFraction(pages: map<int, int>, lo: int, hi: int, r: real)
  {
    && 0.0 <= r <= 1.0
    && (r == 1.0 <==> forall p :: lo <= p <= hi ==> p in MemorizedPages(pages))
    && (r == 0.0 <==> forall p :: lo <= p <= hi ==> p !in MemorizedPages(pages))
  }

  /** One juz's share of memorised pages (`mem / total if total else 0`). */
  function JuzProgress(pages: map<int, int>, j: JuzRef): (r: real)
    ensures j.startPage <= j.endPage ==> 0.0 <= r <= 1.0
    ensures j.startPage <= j.endPage ==>
              (r == 1.0 <==> forall p :: j.startPage <= p <= j.endPage ==> p in MemorizedPages(pages))
    ensures j.startPage <= j.endPage ==>
              (r == 0.0 <==> forall p :: j.startPage <= p <= j.endPage ==> p !in MemorizedPages(pages))
  {
    var total := j.endPage - j.startPage + 1;
    var mem := |MemorizedIn(pages, j.startPage, j.endPage)|;
    assert j.startPage <= j.endPage ==> SpanFraction(pages, j.startPage, j.endPage, mem as real / total as real) by {
      if j.startPage <= j.endPage {
        MemorizedInCount(pages, j.startPage, j.endPage);
        Fraction(mem, total);
        assert mem == 0 <==> MemorizedIn(pages, j.startPage, j.endPage) == {};
      }
    }
    if total != 0 then mem as real / total as real else 0.0
  }

  /** `progress_by_juz`: thirty fractions, one per juz in order; a juz is
      complete exactly when all its pages are memorised. */
  function ProgressByJuz(pages: map<int, int>): (r: seq<real>)
    ensures |r| == 30
    ensures forall j :: 0 <= j < 30 ==> 0.0 <= r[j] <= 1.0
    ensures forall j :: 0 <= j < 30 ==>
              (r[j] == 1.0 <==> forall p :: JuzRefs()[j].startPage <= p <= JuzRefs()[j].endPage ==> p in MemorizedPages(pages))
    ensures forall j :: 0 <= j < 30 ==>
              (r[j] == 0.0 <==> forall p :: JuzRefs()[j].startPage <= p <= JuzRefs()[j].endPage ==> p !in MemorizedPages(pages))
  {
    var refs := JuzRefs();
    var r := seq(30, j requires 0 <= j < 30 => JuzProgress(pages, refs[j]));
    assert forall j :: 0 <= j < 30 ==> r[j] == JuzProgress(pages, refs[j]) && refs[j].startPage <= refs[j].endPage;
    r
  }

  /** More memorised pages never give a juz a lower share. */
  lemma JuzProgressMonotone(pages: map<int, int>, pages': map<int, int>, j: JuzRef)
    requires MemorizedPages(pages) <= MemorizedPages(pages')
    ensures JuzProgress(pages, j) <= JuzProgress(pages', j)
  {
    var before := MemorizedIn(pages, j.startPage, j.endPage);
    var after := MemorizedIn(pages', j.startPage, j.endPage);
    SubsetCardinality(before, after);
    var total := j.endPage - j.startPage + 1;
    if total > 0 {
      assert (|before| as real) / (total as real) <= (|after| as real) / (total as real);
    }
  }

  /** Memorising a page never lowers any juz's progress. */
  lemma MemorizingNeverLowersJuz(st: Store, page: int)
    ensures forall j :: 0 <= j < 30 ==>
              ProgressByJuz(st.pages)[j] <= ProgressByJuz(UpsertPage(st, page, true).pages)[j]
  {
    var pages' := UpsertPage(st, page, true).pages;
    assert MemorizedPages(st.pages) <= MemorizedPages(pages');
    var refs := JuzRefs();
    forall j | 0 <= j < 30
      ensures ProgressByJuz(st.pages)[j] <= ProgressByJuz(pages')[j]
    {
      JuzProgressMonotone(st.pages, pages', refs[j]);
    }
  }

  // ---------------------------------------------------------------------
  // Per surah
  // ---------------------------------------------------------------------

  /** The number of ayahs a merged view covers for surah s
      (`sum(t - f + 1 for (f, t) in merged.get(sid, []))`). */
  function CoveredAyahs(merged: map<int, seq<Range>>, s: int): (n: int)
    requires forall k :: k in merged ==> Canonical(merged[k])
    ensures n == |MergedAyahsOf(merged, s)|
  {
    if s in merged then
      CoveredCountIsCardinality(merged[s]);
      CoveredCount(merged[s])
    else 0
  }

  /** `min(1.0, covered / (ac if ac else 1))`. */
  function SurahProgress(covered: int, ayahCount: int): (r: real)
    requires covered >= 0
    ensures r <= 1.0
    ensures ayahCount >= 0 ==> 0.0 <= r
    ensures ayahCount > 0 ==> (r == 1.0 <==> covered >= ayahCount)
    ensures r == 0.0 <==> covered == 0
    ensures ayahCount == 0 ==> r == (if covered >= 1 then 1.0 else 0.0)
  {
    var total := if ayahCount != 0 then ayahCount else 1;
    var q := covered as real / total as real;
    assert (ayahCount >= 0 ==> 0.0 <= q) && (ayahCount > 0 ==> (q >= 1.0 <==> covered >= ayahCount)) && (q == 0.0 <==> covered == 0) by {
      if total > 0 {
        Fraction(covered, total);
      } else {
        NegativeFraction(covered, total);
      }
    }
    if q < 1.0 then q else 1.0
  }

  /** The three lists `progress_by_surah` returns. */
  datatype SurahProgressLists = SurahProgressLists(ratios: seq<real>, weights: seq<int>, names: seq<string>)

  /** Reference rows as `get_surah_refs` yields them: numbered from 1, each
      with some ayahs and a page span. */
  ghost predicate SurahRefsShape(refs: seq<SurahRef>)
  {
    forall i :: 0 <= i < |refs| ==>
      refs[i].id == i + 1 && refs[i].ayahCount > 0 && refs[i].startPage <= refs[i].endPage
  }

  /** The share of one surah: its covered ayahs over its ayah count,
      capped at 1. */
  function SurahRatio(merged: map<int, seq<Range>>, ref: SurahRef): (r: real)
    requires forall k :: k in merged ==> Canonical(merged[k])
    requires ref.ayahCount > 0
    ensures 0.0 <= r <= 1.0
    ensures r == 1.0 <==> |MergedAyahsOf(merged, ref.id)| >= ref.ayahCount
    ensures r == 0.0 <==> MergedAyahsOf(merged, ref.id) == {}
  {
    var covered := CoveredAyahs(merged, ref.id);
    assert covered == 0 <==> MergedAyahsOf(merged, ref.id) == {};
    SurahProgress(covered, ref.ayahCount)
  }

  /** The per-surah shares of `progress_by_surah` over a given merged view. */
  function SurahRatios(merged: map<int, seq<Range>>, refs: seq<SurahRef>): (r: seq<real>)
    requires forall k :: k in merged ==> Canonical(merged[k])
    requires SurahRefsShape(refs)
    ensures |r| == |refs|
    ensures forall i :: 0 <= i < |refs| ==> 0.0 <= r[i] <= 1.0
    ensures forall i :: 0 <= i < |refs| ==>
              (r[i] == 1.0 <==> |MergedAyahsOf(merged, refs[i].id)| >= refs[i].ayahCount)
    ensures forall i :: 0 <= i < |refs| ==> (r[i] == 0.0 <==> MergedAyahsOf(merged, refs[i].id) == {})
  {
    seq(|refs|, i requires 0 <= i < |refs| => SurahRatio(merged, refs[i]))
  }

  /** `progress_by_surah` over a given reference list: per surah in order,
      the covered share of its ayahs (capped at 1), its page span as a
      weight, and its name. */
  function ProgressBySurahOf(rows: seq<AyahRow>, refs: seq<SurahRef>): (r: SurahProgressLists)
    requires SurahRefsShape(refs)
    ensures |r.ratios| == |refs| && |r.weights| == |refs| && |r.names| == |refs|
    ensures forall i :: 0 <= i < |refs| ==> 0.0 <= r.ratios[i] <= 1.0
    ensures forall i :: 0 <= i < |refs| ==>
              (r.ratios[i] == 1.0 <==> |MergedAyahsOf(GetMergedAyahs(rows), refs[i].id)| >= refs[i].ayahCount)
    ensures forall i :: 0 <= i < |refs| ==> (r.ratios[i] == 0.0 <==> MergedAyahsOf(GetMergedAyahs(rows), refs[i].id) == {})
    ensures forall i :: 0 <= i < |refs| ==> r.weights[i] == refs[i].endPage - refs[i].startPage + 1 >= 1
    ensures forall i :: 0 <= i < |refs| ==> r.names[i] == refs[i].name
  {
    var merged := GetMergedAyahs(rows);
    var ratios := SurahRatios(merged, refs);
    var weights := seq(|refs|, i requires 0 <= i < |refs| => Max(1, refs[i].endPage - refs[i].startPage + 1));
    SurahProgressLists(ratios, weights, seq(|refs|, i requires 0 <= i < |refs| => refs[i].name))
  }

  /** `progress_by_surah`: the lists for the 114 surahs of the mushaf. */
  function ProgressBySurah(rows: seq<AyahRow>): (r: SurahProgressLists)
    ensures |r.ratios| == 114 && |r.weights| == 114 && |r.names| == 114
  {
    var refs := SurahRefs();
    ProgressBySurahOf(rows, refs)
  }

  /** Over any reference list, a surah at zero progress has no memorised
      ayah in any row. */
  lemma ZeroProgressOf(rows: seq<AyahRow>, refs: seq<SurahRef>, s: int, a: int)
    requires SurahRefsShape(refs)
    requires 1 <= s <= |refs| && ProgressBySurahOf(rows, refs).ratios[s - 1] == 0.0
    ensures !Memorized(rows, s, a)
  {
    var merged := GetMergedAyahs(rows);
    assert refs[s - 1].id == s;
    if s in merged {
      assert a !in MergedAyahsOf(merged, s);
    } else {
      NotMergedMeansNothingMemorized(rows, s, a);
    }
  }

  /** A surah at zero progress has no memorised ayah in any row. */
  lemma ZeroProgressMeansNothingMemorized(rows: seq<AyahRow>, s: int, a: int)
    requires 1 <= s <= 114 && ProgressBySurah(rows).ratios[s - 1] == 0.0
    ensures !Memorized(rows, s, a)
  {
    ZeroProgressOf(rows, SurahRefs(), s, a);
  }

  function Max(a: int, b: int): int
  {
    if a < b then b else a
  }

  // ---------------------------------------------------------------------
  // Overall
  // ---------------------------------------------------------------------

  /** The dictionary `overall_progress` returns. */
  datatype OverallStats = OverallStats(totalPagesMem: int, overallRatio: real, fullSurahs: int)

  /** How many of refs[k..] have at least as many covered ayahs as ayahs. */
  function CountFullFrom(refs: seq<SurahRef>, merged: map<int, seq<Range>>, k: nat): (n: nat)
    requires forall s :: s in merged ==> Canonical(merged[s])
    ensures n <= |refs| - k || k > |refs|
    decreases |refs| - k
  {
    if k >= |refs| then 0
    else (if CoveredAyahs(merged, refs[k].id) >= refs[k].ayahCount then 1 else 0) + CountFullFrom(refs, merged, k + 1)
  }

  /** `overall_progress`: the memorised page count, its share of the
      nominal 604 pages, and how many surahs are fully covered. */
  function OverallProgress(pages: map<int, int>, rows: seq<AyahRow>): (r: OverallStats)
    ensures r.totalPagesMem == |MemorizedPages(pages)|
    ensures r.overallRatio * TotalQuranPagesNominal as real == r.totalPagesMem as real
    ensures 0.0 <= r.overallRatio
    ensures (forall p :: p in MemorizedPages(pages) ==> 1 <= p <= TotalQuranPagesNominal) ==> r.overallRatio <= 1.0
    ensures 0 <= r.fullSurahs <= 114
  {
    var total := |MemorizedPages(pages)|;
    assert (forall p :: p in MemorizedPages(pages) ==> 1 <= p <= TotalQuranPagesNominal) ==> total <= TotalQuranPagesNominal by {
      if forall p :: p in MemorizedPages(pages) ==> 1 <= p <= TotalQuranPagesNominal {
        SubsetCardinality(MemorizedPages(pages), Span(1, TotalQuranPagesNominal));
      }
    }
    Fraction(total, TotalQuranPagesNominal);
    var full := CountFullFrom(SurahRefs(), GetMergedAyahs(rows), 0);
    OverallStats(total, total as real / TotalQuranPagesNominal as real, full)
  }

  /** How many of rs[k..] equal 1. */
  function CountOnesFrom(rs: seq<real>, k: nat): nat
    decreases |rs| - k
  {
    if k >= |rs| then 0 else (if rs[k] == 1.0 then 1 else 0) + CountOnesFrom(rs, k + 1)
  }

  /** The overall count of full surahs is the number of surahs whose
      progress is complete. */
  lemma FullSurahsMatchSurahProgress(pages: map<int, int>, rows: seq<AyahRow>)
    ensures OverallProgress(pages, rows).fullSurahs == CountOnesFrom(ProgressBySurah(rows).ratios, 0)
  {
    FullSurahsFrom(rows, 0);
  }

  lemma {:induction false} FullSurahsFrom(rows: seq<AyahRow>, k: nat)
    requires k <= 114
    ensures CountFullFrom(SurahRefs(), GetMergedAyahs(rows), k) == CountOnesFrom(ProgressBySurah(rows).ratios, k)
  {
    FullSurahsFromOf(rows, SurahRefs(), k);
  }

  /** Over any reference list, the full-surah count from k on is the number
      of ones among the surah ratios from k on. */
  lemma {:induction false} FullSurahsFromOf(rows: seq<AyahRow>, refs: seq<SurahRef>, k: nat)
    requires SurahRefsShape(refs) && k <= |refs|
    ensures CountFullFrom(refs, GetMergedAyahs(rows), k) == CountOnesFrom(ProgressBySurahOf(rows, refs).ratios, k)
    decreases |refs| - k
  {
    if k < |refs| {
      FullSurahsFromOf(rows, refs, k + 1);
    }
  }
}
