/** The page <-> (surah, ayah) correspondence table, the map built from it,
    its availability guard and the module-level cache around it. */
module PageMap {
  import opened Base

  /** One ayah: surah number and ayah number within the surah. */
  datatype Verse = Verse(surah: int, ayah: int)

  /** One row of the correspondence table `ref_page_ayahs`. */
  datatype RefRow = RefRow(page: int, surah: int, ayah: int)

  /** Page number -> the ayahs printed on that page. */
  type PageMap = map<int, seq<Verse>>

  /** Below this many rows the table counts as not yet imported. */
  const MinPageAyahRows: int := 6000

  /** `has_page_ayah_map`: the table is usable once it holds at least
      MinPageAyahRows rows; rowCount is its `COUNT(*)`. */
  predicate HasPageAyahMap(rowCount: int)
  {
    rowCount >= MinPageAyahRows
  }

  /** An empty or partly imported table is refused, the 6000th row makes
      it usable, and a table that only grows stays usable. */
  lemma PageAyahMapThreshold(rowCount: int, later: int)
    ensures !HasPageAyahMap(0) && !HasPageAyahMap(5999) && HasPageAyahMap(6000)
    ensures HasPageAyahMap(rowCount) && rowCount <= later ==> HasPageAyahMap(later)
  {
  }

  /** The SQL order (surah_id, ayah) within a page. */
  function VerseLe(a: Verse, b: Verse): bool
  {
    a.surah < b.surah || (a.surah == b.surah && a.ayah <= b.ayah)
  }

  lemma VerseLeTotalPreorder()
    ensures TotalPreorder(VerseLe)
  {
  }

  /** The ayahs of the rows that lie on page p, in table order. */
  function VersesOnPage(rows: seq<RefRow>, p: int): (vs: seq<Verse>)
    ensures forall v: Verse :: v in vs <==> exists i :: 0 <= i < |rows| && rows[i] == RefRow(p, v.surah, v.ayah)
  {
    if |rows| == 0 then []
    else
      var rest := VersesOnPage(rows[1..], p);
      assert forall v: Verse :: (exists i :: 0 <= i < |rows[1..]| && rows[1..][i] == RefRow(p, v.surah, v.ayah))
                     <==> (exists i :: 1 <= i < |rows| && rows[i] == RefRow(p, v.surah, v.ayah)) by {
        forall v: Verse | exists i :: 1 <= i < |rows| && rows[i] == RefRow(p, v.surah, v.ayah)
          ensures exists i :: 0 <= i < |rows[1..]| && rows[1..][i] == RefRow(p, v.surah, v.ayah)
        {
          var i :| 1 <= i < |rows| && rows[i] == RefRow(p, v.surah, v.ayah);
          assert rows[1..][i - 1] == rows[i];
        }
      }
      if rows[0].page == p then [Verse(rows[0].surah, rows[0].ayah)] + rest else rest
  }

  /** The pages that have at least one row. */
  function PagesOf(rows: seq<RefRow>): set<int>
  {
    set i | 0 <= i < |rows| :: rows[i].page
  }

  /** The list get_page_map keeps for page p: the page's ayahs ordered by
      (surah, ayah). */
  function SortedPage(rows: seq<RefRow>, p: int): (vs: seq<Verse>)
    ensures SortedBy(vs, VerseLe)
    ensures multiset(vs) == multiset(VersesOnPage(rows, p))
    ensures forall v: Verse :: v in vs <==> exists i :: 0 <= i < |rows| && rows[i] == RefRow(p, v.surah, v.ayah)
  {
    VerseLeTotalPreorder();
    var vs := Sort(VersesOnPage(rows, p), VerseLe);
    SameElements(vs, VersesOnPage(rows, p));
    vs
  }

  /** One sorted list per page that has a row. */
  function PageLists(rows: seq<RefRow>): PageMap
  {
    map p | p in PagesOf(rows) :: SortedPage(rows, p)
  }

  /** Every row's ayah is on its own page's list. */
  lemma RowsListed(rows: seq<RefRow>)
    ensures forall i :: 0 <= i < |rows| ==> Verse(rows[i].surah, rows[i].ayah) in PageLists(rows)[rows[i].page]
  {
    forall i | 0 <= i < |rows|
      ensures Verse(rows[i].surah, rows[i].ayah) in PageLists(rows)[rows[i].page]
    {
      assert rows[i].page in PagesOf(rows);
      assert rows[i] == RefRow(rows[i].page, rows[i].surah, rows[i].ayah);
    }
  }

  /** Each listed ayah comes from a row of that page. */
  lemma ListedFromRows(rows: seq<RefRow>)
    ensures forall p, v :: p in PageLists(rows) && v in PageLists(rows)[p] ==>
              exists i :: 0 <= i < |rows| && rows[i] == RefRow(p, v.surah, v.ayah)
  {
    forall p | p in PageLists(rows)
      ensures forall v :: v in PageLists(rows)[p] ==>
                exists i :: 0 <= i < |rows| && rows[i] == RefRow(p, v.surah, v.ayah)
    {
      assert PageLists(rows)[p] == SortedPage(rows, p);
    }
  }

  /** The keys are exactly the pages that have a row. */
  lemma PageListsKeys(rows: seq<RefRow>)
    ensures PageLists(rows).Keys == PagesOf(rows)
  {
  }

  /** Each list is ordered and holds the page's rows once each. */
  lemma ListsSortedPermutations(rows: seq<RefRow>)
    ensures forall p :: p in PageLists(rows) ==> SortedBy(PageLists(rows)[p], VerseLe)
    ensures forall p :: p in PageLists(rows) ==> multiset(PageLists(rows)[p]) == multiset(VersesOnPage(rows, p))
  {
  }

  /** The map `get_page_map` builds from the table: only pages with a row
      are keys, every row's ayah is listed under its page, and each page's
      list is ordered by (surah, ayah) and holds each row once. */
  function BuildPageMap(rows: seq<RefRow>): (mp: PageMap)
    ensures mp.Keys == PagesOf(rows)
    ensures forall i :: 0 <= i < |rows| ==> Verse(rows[i].surah, rows[i].ayah) in mp[rows[i].page]
    ensures forall p, v :: p in mp && v in mp[p] ==>
              exists i :: 0 <= i < |rows| && rows[i] == RefRow(p, v.surah, v.ayah)
    ensures forall p :: p in mp ==> SortedBy(mp[p], VerseLe)
    ensures forall p :: p in mp ==> multiset(mp[p]) == multiset(VersesOnPage(rows, p))
  {
    PageListsKeys(rows);
    RowsListed(rows);
    ListedFromRows(rows);
    ListsSortedPermutations(rows);
    PageLists(rows)
  }

  // ---------------------------------------------------------------------
  // The module-level cache
  // ---------------------------------------------------------------------

  /** The two module globals involved: `_PAGE_MAP_CACHE`, which
      get_page_map reads and fills, and `_page_ayah_map_cache`, the name
      that invalidate_page_map_cache assigns. */
  datatype PageMapGlobals = PageMapGlobals(pageMapCache: Option<PageMap>, pageAyahMapCache: Option<PageMap>)

  /** The globals at import time: nothing cached. */
  const InitialGlobals: PageMapGlobals := PageMapGlobals(None, None)

  /** The map handed to the caller and the globals afterwards. */
  datatype PageMapRead = PageMapRead(pageMap: PageMap, globals: PageMapGlobals)

  /** `get_page_map`: a cached map is returned as it is unless a refresh is
      forced; otherwise the map is rebuilt from the table and cached. */
  function GetPageMap(g: PageMapGlobals, rows: seq<RefRow>, forceRefresh: bool): (r: PageMapRead)
    ensures r.globals.pageMapCache == Some(r.pageMap)
    ensures r.globals.pageAyahMapCache == g.pageAyahMapCache
    ensures g.pageMapCache.Some? && !forceRefresh ==> r.pageMap == g.pageMapCache.value
    ensures g.pageMapCache.None? || forceRefresh ==> r.pageMap == BuildPageMap(rows)
  {
    if g.pageMapCache.Some? && !forceRefresh then PageMapRead(g.pageMapCache.value, g)
    else
      var mp := BuildPageMap(rows);
      PageMapRead(mp, g.(pageMapCache := Some(mp)))
  }

  /** Once a map has been read, later reads without a forced refresh keep
      returning it, whatever the table holds by then. */
  lemma CachedMapIsSticky(g: PageMapGlobals, rows: seq<RefRow>, force: bool, laterRows: seq<RefRow>)
    ensures GetPageMap(GetPageMap(g, rows, force).globals, laterRows, false).pageMap == GetPageMap(g, rows, force).pageMap
  {
  }

  /** `invalidate_page_map_cache` as written: it clears
      `_page_ayah_map_cache`, a global nothing reads, and leaves the cache
      that get_page_map uses as it was. */
  function InvalidatePageMapCache(g: PageMapGlobals): (r: PageMapGlobals)
    ensures r.pageMapCache == g.pageMapCache
    ensures r.pageAyahMapCache == None
  {
    g.(pageAyahMapCache := None)
  }

  /** As written, invalidating does not make the next read see the table:
      a map read before the invalidation is still returned after it. */
  lemma InvalidateKeepsStaleMap(g: PageMapGlobals, rows: seq<RefRow>, newRows: seq<RefRow>)
    ensures
      var first := GetPageMap(g, rows, false);
      GetPageMap(InvalidatePageMapCache(first.globals), newRows, false).pageMap == first.pageMap
  {
  }

  /** A concrete case: the map read while the table was empty survives the
      invalidation, although the table now holds a row. */
  lemma InvalidateKeepsStaleMapExample()
    ensures
      var first := GetPageMap(InitialGlobals, [], false);
      var newRows := [RefRow(1, 1, 1)];
      GetPageMap(InvalidatePageMapCache(first.globals), newRows, false).pageMap != BuildPageMap(newRows)
  {
    var first := GetPageMap(InitialGlobals, [], false);
    var newRows := [RefRow(1, 1, 1)];
    assert first.pageMap.Keys == {};
    assert newRows[0].page == 1;
    assert 1 in PagesOf(newRows);
    assert 1 in BuildPageMap(newRows);
  }

  /** The evidently intended invalidation: drop the map get_page_map caches. */
  function InvalidatePageMapCacheFixed(g: PageMapGlobals): (r: PageMapGlobals)
    ensures r.pageMapCache == None
    ensures r.pageAyahMapCache == g.pageAyahMapCache
  {
    g.(pageMapCache := None)
  }

  /** With the intended invalidation, the next read rebuilds the map from
      the table as it is then. */
  lemma InvalidateFixedRereadsTable(g: PageMapGlobals, rows: seq<RefRow>, newRows: seq<RefRow>)
    ensures
      var first := GetPageMap(g, rows, false);
      GetPageMap(InvalidatePageMapCacheFixed(first.globals), newRows, false).pageMap == BuildPageMap(newRows)
  {
  }
}
