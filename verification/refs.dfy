/** Static reference data of the mushaf: the surah table, the juz start
    table and the start/end pages derived from them. */
module QuranRefs {

  /** Nominal page count of the mushaf. */
  const TotalQuranPagesNominal: int := 604

  /** One row of the static surah table: id, name, ayah count, first page. */
  datatype SurahEntry = SurahEntry(id: int, name: string, ayahCount: int, startPage: int)

  /** One row of the static juz table: juz number and first page. */
  datatype JuzStart = JuzStart(juz: int, startPage: int)

  /** A surah with its derived end page. */
  datatype SurahRef = SurahRef(id: int, name: string, ayahCount: int, startPage: int, endPage: int)

  /** A juz with its derived end page. */
  datatype JuzRef = JuzRef(juz: int, startPage: int, endPage: int)

  // The surah table is written in blocks of at most 15 rows so that each
  // block's facts can be checked by case analysis on the index.
  const SurahRows1: seq<SurahEntry> := [
SurahEntry(1, "الفاتحة", 7, 1),
    SurahEntry(2, "البقرة", 286, 2),
    SurahEntry(3, "آل عمران", 200, 50),
    SurahEntry(4, "النساء", 176, 77),
    SurahEntry(5, "المائدة", 120, 106),
    SurahEntry(6, "الأنعام", 165, 128),
    SurahEntry(7, "الأعراف", 206, 151),
    SurahEntry(8, "الأنفال", 75, 177),
    SurahEntry(9, "التوبة", 129, 187),
    SurahEntry(10, "يونس", 109, 208),
    SurahEntry(11, "هود", 123, 221),
    SurahEntry(12, "يوسف", 111, 235),
    SurahEntry(13, "الرعد", 43, 249),
    SurahEntry(14, "إبراهيم", 52, 255),
    SurahEntry(15, "الحجر", 99, 262)
  ]

  const SurahRows2: seq<SurahEntry> := [
    SurahEntry(16, "النحل", 128, 267),
    SurahEntry(17, "الإسراء", 111, 282),
    SurahEntry(18, "الكهف", 110, 293),
    SurahEntry(19, "مريم", 98, 305),
    SurahEntry(20, "طه", 135, 312),
    SurahEntry(21, "الأنبياء", 112, 322),
    SurahEntry(22, "الحج", 78, 332),
    SurahEntry(23, "المؤمنون", 118, 342),
    SurahEntry(24, "النور", 64, 350),
    SurahEntry(25, "الفرقان", 77, 359),
    SurahEntry(26, "الشعراء", 227, 367),
    SurahEntry(27, "النمل", 93, 377),
    SurahEntry(28, "القصص", 88, 385),
    SurahEntry(29, "العنكبوت", 69, 396),
    SurahEntry(30, "الروم", 60, 404)
  ]

  const SurahRows3: seq<SurahEntry> := [
    SurahEntry(31, "لقمان", 34, 411),
    SurahEntry(32, "السجدة", 30, 415),
    SurahEntry(33, "الأحزاب", 73, 418),
    SurahEntry(34, "سبأ", 54, 428),
    SurahEntry(35, "فاطر", 45, 434),
    SurahEntry(36, "يس", 83, 440),
    SurahEntry(37, "الصافات", 182, 446),
    SurahEntry(38, "ص", 88, 453),
    SurahEntry(39, "الزمر", 75, 458),
    SurahEntry(40, "غافر", 85, 467),
    SurahEntry(41, "فصلت", 54, 477),
    SurahEntry(42, "الشورى", 53, 483),
    SurahEntry(43, "الزخرف", 89, 489),
    SurahEntry(44, "الدخان", 59, 496),
    SurahEntry(45, "الجاثية", 37, 499)
  ]

  const SurahRows4: seq<SurahEntry> := [
    SurahEntry(46, "الأحقاف", 35, 502),
    SurahEntry(47, "محمد", 38, 507),
    SurahEntry(48, "الفتح", 29, 511),
    SurahEntry(49, "الحجرات", 18, 515),
    SurahEntry(50, "ق", 45, 518),
    SurahEntry(51, "الذاريات", 60, 520),
    SurahEntry(52, "الطور", 49, 523),
    SurahEntry(53, "النجم", 62, 526),
    SurahEntry(54, "القمر", 55, 528),
    SurahEntry(55, "الرحمن", 78, 531),
    SurahEntry(56, "الواقعة", 96, 534),
    SurahEntry(57, "الحديد", 29, 537),
    SurahEntry(58, "المجادلة", 22, 542),
    SurahEntry(59, "الحشر", 24, 545),
    SurahEntry(60, "الممتحنة", 13, 549)
  ]

  const SurahRows5: seq<SurahEntry> := [
    SurahEntry(61, "الصف", 14, 551),
    SurahEntry(62, "الجمعة", 11, 553),
    SurahEntry(63, "المنافقون", 11, 554),
    SurahEntry(64, "التغابن", 18, 556),
    SurahEntry(65, "الطلاق", 12, 558),
    SurahEntry(66, "التحريم", 12, 560),
    SurahEntry(67, "الملك", 30, 562),
    SurahEntry(68, "القلم", 52, 564),
    SurahEntry(69, "الحاقة", 52, 566),
    SurahEntry(70, "المعارج", 44, 568),
    SurahEntry(71, "نوح", 28, 570),
    SurahEntry(72, "الجن", 28, 572),
    SurahEntry(73, "المزمل", 20, 574),
    SurahEntry(74, "المدثر", 56, 575),
    SurahEntry(75, "القيامة", 40, 577)
  ]

  const SurahRows6: seq<SurahEntry> := [
    SurahEntry(76, "الإنسان", 31, 578),
    SurahEntry(77, "المرسلات", 50, 580),
    SurahEntry(78, "النبأ", 40, 582),
    SurahEntry(79, "النازعات", 46, 583),
    SurahEntry(80, "عبس", 42, 585),
    SurahEntry(81, "التكوير", 29, 586),
    SurahEntry(82, "الانفطار", 19, 587),
    SurahEntry(83, "المطففين", 36, 587),
    SurahEntry(84, "الانشقاق", 25, 589),
    SurahEntry(85, "البروج", 22, 590),
    SurahEntry(86, "الطارق", 17, 591),
    SurahEntry(87, "الأعلى", 19, 591),
    SurahEntry(88, "الغاشية", 26, 592),
    SurahEntry(89, "الفجر", 30, 593),
    SurahEntry(90, "البلد", 20, 594)
  ]

  const SurahRows7: seq<SurahEntry> := [
    SurahEntry(91, "الشمس", 15, 595),
    SurahEntry(92, "الليل", 21, 595),
    SurahEntry(93, "الضحى", 11, 596),
    SurahEntry(94, "الشرح", 8, 596),
    SurahEntry(95, "التين", 8, 597),
    SurahEntry(96, "العلق", 19, 597),
    SurahEntry(97, "القدر", 5, 598),
    SurahEntry(98, "البينة", 8, 598),
    SurahEntry(99, "الزلزلة", 8, 599),
    SurahEntry(100, "العاديات", 11, 599),
    SurahEntry(101, "القارعة", 11, 600),
    SurahEntry(102, "التكاثر", 8, 600),
    SurahEntry(103, "العصر", 3, 601),
    SurahEntry(104, "الهمزة", 9, 601),
    SurahEntry(105, "الفيل", 5, 601)
  ]

  const SurahRows8: seq<SurahEntry> := [
    SurahEntry(106, "قريش", 4, 602),
    SurahEntry(107, "الماعون", 7, 602),
    SurahEntry(108, "الكوثر", 3, 602),
    SurahEntry(109, "الكافرون", 6, 603),
    SurahEntry(110, "النصر", 3, 603),
    SurahEntry(111, "المسد", 5, 603),
    SurahEntry(112, "الإخلاص", 4, 604),
    SurahEntry(113, "الفلق", 5, 604),
    SurahEntry(114, "الناس", 6, 604)
  ]

  const SurahData: seq<SurahEntry> :=
    SurahRows1 + SurahRows2 + SurahRows3 + SurahRows4 + SurahRows5 + SurahRows6 + SurahRows7 + SurahRows8

  const JuzStarts: seq<JuzStart> := [
    JuzStart(1, 1), JuzStart(2, 22), JuzStart(3, 42), JuzStart(4, 62), JuzStart(5, 82), JuzStart(6, 102),
    JuzStart(7, 122), JuzStart(8, 142), JuzStart(9, 162), JuzStart(10, 182), JuzStart(11, 202), JuzStart(12, 222),
    JuzStart(13, 242), JuzStart(14, 262), JuzStart(15, 282), JuzStart(16, 302), JuzStart(17, 322), JuzStart(18, 342),
    JuzStart(19, 362), JuzStart(20, 382), JuzStart(21, 402), JuzStart(22, 422), JuzStart(23, 442), JuzStart(24, 462),
    JuzStart(25, 482), JuzStart(26, 502), JuzStart(27, 522), JuzStart(28, 542), JuzStart(29, 562), JuzStart(30, 582)
  ]

  /** Row i of a block whose first row is surah offset + 1: the id counts
      up from offset + 1, the start page lies in the mushaf and does not
      decrease towards the next row, and the surah has at least one ayah. */
  ghost predicate RowWellFormed(s: seq<SurahEntry>, offset: int, i: int)
    requires 0 <= i < |s|
  {
    && s[i].id == offset + i + 1
    && 1 <= s[i].startPage <= TotalQuranPagesNominal
    && s[i].ayahCount > 0
    && (i + 1 < |s| ==> s[i].startPage <= s[i + 1].startPage)
  }

  ghost predicate RowsWellFormed(s: seq<SurahEntry>, offset: int)
  {
    forall i :: 0 <= i < |s| ==> RowWellFormed(s, offset, i)
  }

  lemma {:induction false} RowsWellFormedAppend(a: seq<SurahEntry>, b: seq<SurahEntry>, offset: int)
    requires RowsWellFormed(a, offset) && RowsWellFormed(b, offset + |a|)
    requires |a| > 0 && |b| > 0 ==> a[|a| - 1].startPage <= b[0].startPage
    ensures RowsWellFormed(a + b, offset)
  {
    var s := a + b;
    forall i | 0 <= i < |s|
      ensures RowWellFormed(s, offset, i)
    {
      if i < |a| {
        assert s[i] == a[i] && RowWellFormed(a, offset, i);
        if i + 1 < |a| {
          assert s[i + 1] == a[i + 1];
        } else if i + 1 < |s| {
          assert s[i + 1] == b[0];
        }
      } else {
        assert s[i] == b[i - |a|] && RowWellFormed(b, offset + |a|, i - |a|);
        if i + 1 < |s| {
          assert s[i + 1] == b[i + 1 - |a|];
        }
      }
    }
  }

  lemma SurahRows1WellFormed() ensures RowsWellFormed(SurahRows1, 0) {}
  lemma SurahRows2WellFormed() ensures RowsWellFormed(SurahRows2, 15) {}
  lemma SurahRows3WellFormed() ensures RowsWellFormed(SurahRows3, 30) {}
  lemma SurahRows4WellFormed() ensures RowsWellFormed(SurahRows4, 45) {}
  lemma SurahRows5WellFormed() ensures RowsWellFormed(SurahRows5, 60) {}
  lemma SurahRows6WellFormed() ensures RowsWellFormed(SurahRows6, 75) {}
  lemma SurahRows7WellFormed() ensures RowsWellFormed(SurahRows7, 90) {}
  lemma SurahRows8WellFormed() ensures RowsWellFormed(SurahRows8, 105) {}

  /** Joins well-formed blocks; the blocks are parameters so that the
      proof does not see the table's literal rows. */
  lemma {:induction false} JoinBlocks(r1: seq<SurahEntry>, r2: seq<SurahEntry>, r3: seq<SurahEntry>, r4: seq<SurahEntry>,
                                      r5: seq<SurahEntry>, r6: seq<SurahEntry>, r7: seq<SurahEntry>, r8: seq<SurahEntry>)
    requires |r1| == 15 && RowsWellFormed(r1, 0)
    requires |r2| == 15 && RowsWellFormed(r2, 15)
    requires |r3| == 15 && RowsWellFormed(r3, 30)
    requires |r4| == 15 && RowsWellFormed(r4, 45)
    requires |r5| == 15 && RowsWellFormed(r5, 60)
    requires |r6| == 15 && RowsWellFormed(r6, 75)
    requires |r7| == 15 && RowsWellFormed(r7, 90)
    requires |r8| > 0 && RowsWellFormed(r8, 105)
    requires r1[14].startPage <= r2[0].startPage
    requires r2[14].startPage <= r3[0].startPage
    requires r3[14].startPage <= r4[0].startPage
    requires r4[14].startPage <= r5[0].startPage
    requires r5[14].startPage <= r6[0].startPage
    requires r6[14].startPage <= r7[0].startPage
    requires r7[14].startPage <= r8[0].startPage
    ensures RowsWellFormed(r1 + r2 + r3 + r4 + r5 + r6 + r7 + r8, 0)
  {
    RowsWellFormedAppend(r1, r2, 0);
    RowsWellFormedAppend(r1 + r2, r3, 0);
    RowsWellFormedAppend(r1 + r2 + r3, r4, 0);
    RowsWellFormedAppend(r1 + r2 + r3 + r4, r5, 0);
    RowsWellFormedAppend(r1 + r2 + r3 + r4 + r5, r6, 0);
    RowsWellFormedAppend(r1 + r2 + r3 + r4 + r5 + r6, r7, 0);
    RowsWellFormedAppend(r1 + r2 + r3 + r4 + r5 + r6 + r7, r8, 0);
  }

  /** The surah table: 114 rows, ids 1..114 in order, start pages
      non-decreasing within 1..604 from page 1 to page 604, positive ayah
      counts. */
  ghost predicate SurahTableOk(data: seq<SurahEntry>)
  {
    && |data| == 114 && RowsWellFormed(data, 0)
    && data[0].startPage == 1 && data[|data| - 1].startPage == TotalQuranPagesNominal
  }

  lemma SurahDataWellFormed()
    ensures SurahTableOk(SurahData)
  {
    SurahRows1WellFormed();
    SurahRows2WellFormed();
    SurahRows3WellFormed();
    SurahRows4WellFormed();
    SurahRows5WellFormed();
    SurahRows6WellFormed();
    SurahRows7WellFormed();
    SurahRows8WellFormed();
    JoinBlocks(SurahRows1, SurahRows2, SurahRows3, SurahRows4, SurahRows5, SurahRows6, SurahRows7, SurahRows8);
  }

  lemma JuzNumbersCount()
    ensures forall i :: 0 <= i < |JuzStarts| ==> JuzStarts[i].juz == i + 1
  {
  }

  lemma JuzStartsInMushaf()
    ensures forall i :: 0 <= i < |JuzStarts| ==> 1 <= JuzStarts[i].startPage <= TotalQuranPagesNominal
  {
  }

  lemma JuzStartsIncrease()
    ensures forall i :: 0 <= i < |JuzStarts| - 1 ==> JuzStarts[i].startPage < JuzStarts[i + 1].startPage
  {
  }

  lemma JuzStartsWellFormed()
    ensures JuzStartsOk(JuzStarts)
  {
    JuzNumbersCount();
    JuzStartsInMushaf();
    JuzStartsIncrease();
  }

  /** The juz table: 30 rows numbered 1..30, the first on page 1, start pages
      strictly increasing within the mushaf. */
  ghost predicate JuzStartsOk(starts: seq<JuzStart>)
  {
    && |starts| == 30 && starts[0].startPage == 1
    && (forall i :: 0 <= i < |starts| ==> starts[i].juz == i + 1)
    && (forall i :: 0 <= i < |starts| ==> 1 <= starts[i].startPage <= TotalQuranPagesNominal)
    && (forall i :: 0 <= i < |starts| - 1 ==> starts[i].startPage < starts[i + 1].startPage)
  }

  /** End page of surah row i: the page before the next surah's first page
      when that surah starts later, otherwise the surah's own first page.
      The last row compares against TotalQuranPagesNominal itself, so a last
      surah starting before page 604 would end on page 603. */
  function SurahEndPage(data: seq<SurahEntry>, i: int): int
    requires 0 <= i < |data|
  {
    var start := data[i].startPage;
    var nextStart := if i + 1 < |data| then data[i + 1].startPage else TotalQuranPagesNominal;
    if nextStart > start then nextStart - 1 else start
  }

  /** The surah reference list derived from a well-formed table: the rows in
      id order with their end pages. Consecutive surahs either abut or share
      one page, and together they reach from the first row's page to 604. */
  function SurahRefsOf(data: seq<SurahEntry>): (r: seq<SurahRef>)
    requires |data| > 0 && RowsWellFormed(data, 0)
    ensures |r| == |data|
    ensures forall i :: 0 <= i < |r| ==>
              && r[i].id == i + 1
              && r[i].name == data[i].name
              && r[i].ayahCount == data[i].ayahCount > 0
              && r[i].startPage == data[i].startPage
    ensures forall i :: 0 <= i < |r| ==> 1 <= r[i].startPage <= r[i].endPage <= TotalQuranPagesNominal
    ensures forall i :: 0 <= i < |r| - 1 ==>
              || r[i].endPage + 1 == r[i + 1].startPage
              || r[i].startPage == r[i].endPage == r[i + 1].startPage
    ensures data[|data| - 1].startPage == TotalQuranPagesNominal ==> r[|r| - 1].endPage == TotalQuranPagesNominal
  {
    var r := seq(|data|, i requires 0 <= i < |data| =>
      SurahRef(data[i].id, data[i].name, data[i].ayahCount, data[i].startPage, SurahEndPage(data, i)));
    forall i | 0 <= i < |data|
      ensures r[i].id == i + 1 && r[i].name == data[i].name && r[i].ayahCount == data[i].ayahCount > 0
      ensures r[i].startPage == data[i].startPage <= r[i].endPage <= TotalQuranPagesNominal
      ensures 1 <= r[i].startPage
      ensures i + 1 < |data| ==>
                || r[i].endPage + 1 == r[i + 1].startPage
                || r[i].startPage == r[i].endPage == r[i + 1].startPage
    {
      assert RowWellFormed(data, 0, i);
      assert r[i] == SurahRef(data[i].id, data[i].name, data[i].ayahCount, data[i].startPage, SurahEndPage(data, i));
      if i + 1 < |data| {
        assert RowWellFormed(data, 0, i + 1);
        assert r[i + 1].startPage == data[i + 1].startPage;
      }
    }
    r
  }

  /** The surah reference list as get_surah_refs yields it: 114 surahs
      numbered 1..114, each with some ayahs and a page span inside the
      mushaf; consecutive surahs abut or share one page, and together they
      run from page 1 to page 604. */
  ghost predicate SurahRefsOk(r: seq<SurahRef>)
  {
    && |r| == 114
    && (forall i :: 0 <= i < |r| ==> r[i].id == i + 1 && r[i].ayahCount > 0)
    && (forall i :: 0 <= i < |r| ==> 1 <= r[i].startPage <= r[i].endPage <= TotalQuranPagesNominal)
    && (forall i :: 0 <= i < |r| - 1 ==>
          || r[i].endPage + 1 == r[i + 1].startPage
          || r[i].startPage == r[i].endPage == r[i + 1].startPage)
    && r[0].startPage == 1 && r[|r| - 1].endPage == TotalQuranPagesNominal
  }

  lemma SurahRefsOfFull(data: seq<SurahEntry>)
    requires SurahTableOk(data)
    ensures SurahRefsOk(SurahRefsOf(data))
  {
  }

  /** The surah reference list of the mushaf (get_surah_refs). */
  function SurahRefs(): (r: seq<SurahRef>)
    ensures SurahRefsOk(r)
  {
    SurahDataWellFormed();
    SurahRefsOfFull(SurahData);
    SurahRefsOf(SurahData)
  }

  /** The juz reference list derived from a well-formed start table: each
      juz ends on the page before the next one starts, the last on page 604. */
  function JuzRefsOf(starts: seq<JuzStart>): (r: seq<JuzRef>)
    requires JuzStartsOk(starts)
    ensures |r| == |starts|
    ensures forall i :: 0 <= i < |r| ==> r[i].juz == i + 1 && r[i].startPage == starts[i].startPage
    ensures forall i :: 0 <= i < |r| ==> 1 <= r[i].startPage <= r[i].endPage <= TotalQuranPagesNominal
    ensures forall i :: 0 <= i < |r| - 1 ==> r[i].endPage + 1 == r[i + 1].startPage
    ensures r[0].startPage == 1 && r[|r| - 1].endPage == TotalQuranPagesNominal
  {
    var r := seq(|starts|, i requires 0 <= i < |starts| => JuzRef(starts[i].juz, starts[i].startPage, JuzEndPage(starts, i)));
    forall i | 0 <= i < |r|
      ensures r[i].juz == i + 1 && r[i].startPage == starts[i].startPage
      ensures 1 <= r[i].startPage <= r[i].endPage <= TotalQuranPagesNominal
      ensures i + 1 < |r| ==> r[i].endPage + 1 == r[i + 1].startPage
    {
      assert r[i] == JuzRef(starts[i].juz, starts[i].startPage, JuzEndPage(starts, i));
      if i + 1 < |r| {
        assert r[i + 1].startPage == starts[i + 1].startPage;
      }
    }
    r
  }

  /** End page of juz row i: the page before the next juz starts, or 604
      for the last juz. */
  function JuzEndPage(starts: seq<JuzStart>, i: int): int
    requires 0 <= i < |starts|
  {
    if i + 1 < |starts| then starts[i + 1].startPage - 1 else TotalQuranPagesNominal
  }

  /** The juz reference list of the mushaf (get_juz_refs). */
  function JuzRefs(): (r: seq<JuzRef>)
    ensures |r| == 30
    ensures forall i :: 0 <= i < |r| ==> r[i].juz == i + 1
    ensures forall i :: 0 <= i < |r| ==> 1 <= r[i].startPage <= r[i].endPage <= TotalQuranPagesNominal
    ensures forall i :: 0 <= i < |r| - 1 ==> r[i].endPage + 1 == r[i + 1].startPage
    ensures r[0].startPage == 1 && r[|r| - 1].endPage == TotalQuranPagesNominal
  {
    JuzStartsWellFormed();
    JuzRefsOf(JuzStarts)
  }

  /** Page spans where each next span starts no later than one page after
      the previous one ends. */
  ghost predicate Chained(spans: seq<(int, int)>)
  {
    forall i :: 0 <= i < |spans| - 1 ==> spans[i + 1].0 <= spans[i].1 + 1
  }

  lemma {:induction false} ChainCovers(spans: seq<(int, int)>, p: int)
    requires |spans| > 0 && Chained(spans)
    requires spans[0].0 <= p <= spans[|spans| - 1].1
    ensures exists i :: 0 <= i < |spans| && spans[i].0 <= p <= spans[i].1
    decreases |spans|
  {
    var last := |spans| - 1;
    if p < spans[last].0 {
      assert last > 0;
      ChainCovers(spans[..last], p);
      var i :| 0 <= i < last && spans[..last][i].0 <= p <= spans[..last][i].1;
      assert spans[i] == spans[..last][i];
    }
  }

  /** Juz spans that abut each other cover every page from the first start
      to the last end. */
  lemma JuzSpansCover(r: seq<JuzRef>, p: int)
    requires |r| > 0
    requires forall k :: 0 <= k < |r| - 1 ==> r[k].endPage + 1 == r[k + 1].startPage
    requires r[0].startPage <= p <= r[|r| - 1].endPage
    ensures exists i :: 0 <= i < |r| && r[i].startPage <= p <= r[i].endPage
  {
    var spans := seq(|r|, i requires 0 <= i < |r| => (r[i].startPage, r[i].endPage));
    ChainCovers(spans, p);
    var i :| 0 <= i < |spans| && spans[i].0 <= p <= spans[i].1;
    assert r[i].startPage <= p <= r[i].endPage;
  }

  /** In a list of abutting non-empty juz spans from page 1 to page 604,
      every page lies in exactly one span. */
  lemma SpansPartitionPages(r: seq<JuzRef>, p: int)
    requires |r| > 0 && 1 <= p <= TotalQuranPagesNominal
    requires forall k :: 0 <= k < |r| ==> r[k].startPage <= r[k].endPage
    requires forall k :: 0 <= k < |r| - 1 ==> r[k].endPage + 1 == r[k + 1].startPage
    requires r[0].startPage == 1 && r[|r| - 1].endPage == TotalQuranPagesNominal
    ensures exists i :: 0 <= i < |r| && r[i].startPage <= p <= r[i].endPage
    ensures forall i, j :: 0 <= i < |r| && 0 <= j < |r|
              && r[i].startPage <= p <= r[i].endPage && r[j].startPage <= p <= r[j].endPage
              ==> i == j
  {
    JuzSpansCover(r, p);
    forall i, j | 0 <= i < |r| && 0 <= j < |r| && r[i].startPage <= p <= r[i].endPage && r[j].startPage <= p <= r[j].endPage
      ensures i == j
    {
      if i < j {
        JuzEndsBeforeLater(r, i, j);
      } else if j < i {
        JuzEndsBeforeLater(r, j, i);
      }
    }
  }

  /** Every page of the mushaf lies in exactly one juz. */
  lemma JuzPartitionsPages(p: int)
    requires 1 <= p <= TotalQuranPagesNominal
    ensures exists i :: 0 <= i < |JuzRefs()| && JuzRefs()[i].startPage <= p <= JuzRefs()[i].endPage
    ensures forall i, j :: 0 <= i < |JuzRefs()| && 0 <= j < |JuzRefs()|
              && JuzRefs()[i].startPage <= p <= JuzRefs()[i].endPage
              && JuzRefs()[j].startPage <= p <= JuzRefs()[j].endPage
              ==> i == j
  {
    SpansPartitionPages(JuzRefs(), p);
  }

  lemma {:induction false} JuzEndsBeforeLater(r: seq<JuzRef>, i: int, j: int)
    requires forall k :: 0 <= k < |r| ==> r[k].startPage <= r[k].endPage
    requires forall k :: 0 <= k < |r| - 1 ==> r[k].endPage + 1 == r[k + 1].startPage
    requires 0 <= i < j < |r|
    ensures r[i].endPage < r[j].startPage
    decreases j - i
  {
    if i + 1 < j {
      JuzEndsBeforeLater(r, i + 1, j);
    }
  }

  /** Every page of the mushaf lies in at least one surah's span. */
  lemma SurahsCoverPages(p: int)
    requires 1 <= p <= TotalQuranPagesNominal
    ensures exists i :: 0 <= i < |SurahRefs()| && SurahRefs()[i].startPage <= p <= SurahRefs()[i].endPage
  {
    var r := SurahRefs();
    var spans := seq(|r|, i requires 0 <= i < |r| => (r[i].startPage, r[i].endPage));
    ChainCovers(spans, p);
  }
}
