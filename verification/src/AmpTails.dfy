/**
 Whether the flushes of a forced eviction reach to the end of the pages they are for (cache_amp.c:896-913,
 966-981). NoWriteLost in AmpScan is about where a page begins; the range of a flush ends at a distance
 that depends on the size of the last page that the scan looked at, which may be of another segment.
 */
module AmpTails {
  import opened AmpStore
  import opened AmpScan

  /** The scan took this page off the stack for its own flushes to write. */
  ghost predicate Taken(s: Store, c: Scan, p: PageId) {
    && p in s.pages && s.pages[p].linked && s.pages[p].dirty && s.pages[p].flushers == 0
    && p in c.store.pages && !c.store.pages[p].linked
  }

  /** From its first byte to its last. */
  ghost predicate WhollyCovered(page: Page, plan: map<Segment, Flush>) {
    && page.seg in plan
    && plan[page.seg].Covers(page.offset)
    && plan[page.seg].Covers(page.offset + page.seg.pageSize - 1)
  }

  ghost predicate AllCovered(s: Store, c: Scan, g: Segment, tooDirty: bool) {
    forall p :: Taken(s, c, p) && s.pages[p].seg == g ==> WhollyCovered(s.pages[p], FlushPlan(c, tooDirty))
  }

  // ---------------------------------------------------------------- the ends of a span

  /** A page of the segment that was taken begins at this offset. */
  ghost predicate Edge(s: Store, c: Scan, g: Segment, offset: int) {
    exists p :: Taken(s, c, p) && s.pages[p].seg == g && s.pages[p].offset == offset
  }

  /** Each span goes from the first page taken of its segment to the last one. */
  ghost predicate Tight(s: Store, c: Scan) {
    forall g :: g in c.table ==> Edge(s, c, g, c.table[g].lo) && Edge(s, c, g, c.table[g].hi)
  }

  lemma TakenStays(s: Store, c: Scan, p: PageId)
    requires ScanInv(s, c) && c.cursor >= 0 && Taken(s, c, p)
    ensures Taken(s, ScanStep(c), p)
  {
    assert c.store.pages[c.store.stack[c.cursor]].linked;
    OthersKept(c, p);
  }

  lemma EdgeStays(s: Store, c: Scan, g: Segment, offset: int)
    requires ScanInv(s, c) && c.cursor >= 0 && Edge(s, c, g, offset)
    ensures Edge(s, ScanStep(c), g, offset)
  {
    var p :| Taken(s, c, p) && s.pages[p].seg == g && s.pages[p].offset == offset;
    TakenStays(s, c, p);
  }

  /** An end that moves moves to the page under the cursor. */
  lemma NewEdge(s: Store, c: Scan, g: Segment)
    requires ScanInv(s, c) && c.cursor >= 0 && g in ScanStep(c).table
    ensures
      var d := ScanStep(c);
      && ((g in c.table && d.table[g].lo == c.table[g].lo) || Edge(s, d, g, d.table[g].lo))
      && ((g in c.table && d.table[g].hi == c.table[g].hi) || Edge(s, d, g, d.table[g].hi))
  {
    var d, p := ScanStep(c), c.store.stack[c.cursor];
    TakenNow(s, c);
    if d.table != c.table {
      SpanGrows(c.table, s.pages[p]);
    }
    hide ScanInv, ScanStep, Taken, NoteDirty;
  }

  /** The table changes only for the page under the cursor, which is taken. */
  lemma TakenNow(s: Store, c: Scan)
    requires ScanInv(s, c) && c.cursor >= 0
    ensures
      var d, p := ScanStep(c), c.store.stack[c.cursor];
      d.table != c.table ==> Taken(s, d, p) && d.table == NoteDirty(c.table, s.pages[p])
  {
    var p := c.store.stack[c.cursor];
    assert Fate(s.pages[p], c.store.pages, c.table, p);
    TakenPageNow(s.pages[p], c);
    hide ScanInv, ScanStep, Fate;
  }

  lemma TakenPageNow(before: Page, c: Scan)
    requires ScanReady(c) && c.cursor >= 0
    requires Fate(before, c.store.pages, c.table, c.store.stack[c.cursor])
    ensures
      var d, p := ScanStep(c), c.store.stack[c.cursor];
      d.table != c.table ==>
        && before.linked && before.dirty && before.flushers == 0
        && p in d.store.pages && !d.store.pages[p].linked
        && d.table == NoteDirty(c.table, before)
  {
    assert c.store.pages[c.store.stack[c.cursor]].linked;
  }

  /** The segment's span grows no further than to the page. */
  lemma SpanGrows(table: map<Segment, Span>, page: Page)
    requires NoteDirty(table, page) != table
    ensures
      var next, g := NoteDirty(table, page), page.seg;
      && g in next
      && (forall h :: h in next && h != g ==> h in table && next[h] == table[h])
      && (next[g].lo == page.offset || (g in table && next[g].lo == table[g].lo))
      && (next[g].hi == page.offset || (g in table && next[g].hi == table[g].hi))
  {
  }

  lemma TightStep(s: Store, c: Scan)
    requires ScanInv(s, c) && c.cursor >= 0 && Tight(s, c)
    ensures Tight(s, ScanStep(c))
  {
    var d := ScanStep(c);
    hide ScanInv, ScanStep, Edge;
    forall g | g in d.table ensures Edge(s, d, g, d.table[g].lo) && Edge(s, d, g, d.table[g].hi) {
      NewEdge(s, c, g);
      if g in c.table {
        EdgeStays(s, c, g, c.table[g].lo);
        EdgeStays(s, c, g, c.table[g].hi);
      }
    }
  }

  lemma {:induction false} TightAll(s: Store, c: Scan, need: int)
    requires ScanInv(s, c) && Tight(s, c)
    ensures ScanInv(s, ScanAll(c, need)) && Tight(s, ScanAll(c, need))
    decreases Fresh(c.store), c.cursor + 1
  {
    if c.freed + c.pending < need && c.cursor >= 0 {
      ScanStepKeeps(s, c);
      TightStep(s, c);
      hide ScanInv, Tight, ScanStep, Fresh, WellFormed;
      ScanStepProgress(c);
      TightAll(s, ScanStep(c), need);
    }
  }

  /** What is known of the span of any page taken. */
  lemma SpanOf(s: Store, need: int, pageSize: PageSize)
    requires WellFormed(s)
    ensures
      var c := ScanAll(StartScan(s, pageSize), need);
      && Tight(s, c)
      && forall p :: Taken(s, c, p) ==> s.pages[p].seg in c.table && c.table[s.pages[p].seg].Contains(s.pages[p].offset)
  {
    var start := StartScan(s, pageSize);
    assert ScanInv(s, start) by {
      forall p | p in s.pages ensures Fate(s.pages[p], s.pages, map[], p) {
      }
    }
    TightAll(s, start, need);
    var c := ScanAll(start, need);
    forall p | Taken(s, c, p) ensures s.pages[p].seg in c.table && c.table[s.pages[p].seg].Contains(s.pages[p].offset) {
      assert Fate(s.pages[p], c.store.pages, c.table, p);
    }
  }

  // ---------------------------------------------------------------- the exact case

  /**
   Line 972 stretches the span to ten pages of the last size seen and line 976 adds one more: is that
   as far as a page of the segment that begins where the span ends?
   */
  predicate ReachesEnd(span: Span, own: PageSize, visited: PageSize) {
    || own <= visited
    || (span.hi - span.lo < 10 * visited && span.hi - span.lo + own <= 11 * visited)
  }

  lemma PlanCovers(c: Scan, page: Page, tooDirty: bool)
    requires page.seg in c.table && c.table[page.seg].Contains(page.offset)
    ensures
      var reaches := tooDirty || ReachesEnd(c.table[page.seg], page.seg.pageSize, c.visited);
      && (reaches ==> WhollyCovered(page, FlushPlan(c, tooDirty)))
      && (page.offset == c.table[page.seg].hi && !reaches ==> !WhollyCovered(page, FlushPlan(c, tooDirty)))
  {
  }

  /**
   What the flush for a segment covers, to the byte: it begins with the first page taken, and ends one page
   of the last size seen beyond where the last page taken begins, or eleven such pages from the beginning
   if that is further; or it is the whole file.
   */
  lemma FlushIsRange(c: Scan, g: Segment, tooDirty: bool, x: int)
    requires g in c.table && c.table[g].lo <= c.table[g].hi
    ensures
      var plan := FlushPlan(c, tooDirty);
      && plan.Keys == c.table.Keys
      && (plan[g].Covers(x) <==>
            || tooDirty
            || (c.table[g].lo <= x && (x < c.table[g].hi + c.visited || x < c.table[g].lo + 11 * c.visited)
                && (c.table[g].hi - c.table[g].lo >= 10 * c.visited ==> x < c.table[g].hi + c.visited)))
  {
  }

  /**
   The dirty pages that a forced eviction takes from a segment are all written from their first byte
   to their last exactly when the whole segment is flushed, or its pages are no larger than the last
   one looked at, or they lie within ten pages of that size and end within eleven.
   */
  lemma CoveredExactlyWhen(s: Store, need: int, pageSize: PageSize, tooDirty: bool, g: Segment)
    requires WellFormed(s)
    ensures
      var c := ScanAll(StartScan(s, pageSize), need);
      g in c.table ==>
        (AllCovered(s, c, g, tooDirty) <==> tooDirty || ReachesEnd(c.table[g], g.pageSize, c.visited))
  {
    SpanOf(s, need, pageSize);
    var c := ScanAll(StartScan(s, pageSize), need);
    hide ScanAll, WellFormed;
    if g in c.table {
      assert Edge(s, c, g, c.table[g].hi);
      hide Taken, WhollyCovered, ReachesEnd;
      var last :| Taken(s, c, last) && s.pages[last].seg == g && s.pages[last].offset == c.table[g].hi;
      PlanCovers(c, s.pages[last], tooDirty);
      forall p | Taken(s, c, p) && s.pages[p].seg == g
        ensures tooDirty || ReachesEnd(c.table[g], g.pageSize, c.visited) ==>
          WhollyCovered(s.pages[p], FlushPlan(c, tooDirty))
      {
        PlanCovers(c, s.pages[p], tooDirty);
      }
    }
  }

  // ---------------------------------------------------------------- one page size

  ghost predicate Sized(s: Store, sizes: set<PageSize>) {
    forall p :: p in s.pages ==> s.pages[p].seg.pageSize in sizes
  }

  /** No page that the eviction takes is cut off by its flush. */
  ghost predicate NoTailMissed(s: Store, need: int, pageSize: PageSize)
    requires WellFormed(s)
  {
    var c := ScanAll(StartScan(s, pageSize), need);
    forall g :: g in c.table ==> AllCovered(s, c, g, false)
  }

  /** Once the scan has looked at a page, the size it remembers is that of a page. */
  lemma {:induction false} VisitedSize(s: Store, c: Scan, need: int, sizes: set<PageSize>)
    requires ScanInv(s, c) && Sized(s, sizes) && (c.table != map[] ==> c.visited in sizes)
    ensures var d := ScanAll(c, need); d.table != map[] ==> d.visited in sizes
    decreases Fresh(c.store), c.cursor + 1
  {
    if c.freed + c.pending < need && c.cursor >= 0 {
      ScanStepProgress(c);
      ScanStepKeeps(s, c);
      StepSize(s, c, sizes);
      hide ScanInv, Sized, ScanStep;
      VisitedSize(s, ScanStep(c), need, sizes);
    }
  }

  lemma StepSize(s: Store, c: Scan, sizes: set<PageSize>)
    requires ScanInv(s, c) && c.cursor >= 0 && Sized(s, sizes)
    ensures ScanStep(c).visited in sizes
  {
    var p := c.store.stack[c.cursor];
    assert Fate(s.pages[p], c.store.pages, c.table, p);
  }

  lemma OneSizeCovers(s: Store, need: int, pageSize: PageSize, sizes: set<PageSize>)
    requires WellFormed(s) && Sized(s, sizes) && forall a, b :: a in sizes && b in sizes ==> a == b
    ensures NoTailMissed(s, need, pageSize)
  {
    var start := StartScan(s, pageSize);
    assert ScanInv(s, start) by {
      forall p | p in s.pages ensures Fate(s.pages[p], s.pages, map[], p) {
      }
    }
    VisitedSize(s, start, need, sizes);
    SpanOf(s, need, pageSize);
    var c := ScanAll(start, need);
    hide ScanAll, WellFormed, ScanInv;
    forall g | g in c.table ensures AllCovered(s, c, g, false) {
      var p :| Taken(s, c, p) && s.pages[p].seg == g && s.pages[p].offset == c.table[g].hi;
      assert g.pageSize in sizes;
      CoveredExactlyWhen(s, need, pageSize, false, g);
    }
  }

  function DirtyPage(g: Segment, offset: int): Page {
    Page(g, offset, true, false, false, true, false, 0, 0, 0, true)
  }

  function CleanPage(g: Segment): Page {
    Page(g, 0, false, false, false, true, false, 0, 0, 0, true)
  }

  function TakenPage(g: Segment, offset: int): Page {
    DirtyPage(g, offset).(toRelease := true, linked := false)
  }

  /** Two dirty pages of one segment below a clean page of another one, whose pages are smaller. */
  function Mixed(large: PageSize, small: PageSize): Store {
    var g := Segment(1, large);
    Store(map[0 := CleanPage(Segment(0, small)), 1 := DirtyPage(g, 10 * large), 2 := DirtyPage(g, 0)], [0, 1, 2], {})
  }

  /** The scan once it has taken the lower dirty page, and once it has taken both. */
  function OneTaken(large: PageSize, small: PageSize): Scan {
    var g := Segment(1, large);
    var pages := map[0 := CleanPage(Segment(0, small)), 1 := DirtyPage(g, 10 * large), 2 := TakenPage(g, 0)];
    Scan(Store(pages, [0, 1], {}), 1, 0, large, map[g := Span(0, 0)], large)
  }

  function BothTaken(large: PageSize, small: PageSize): Scan {
    var g := Segment(1, large);
    var pages := map[0 := CleanPage(Segment(0, small)), 1 := TakenPage(g, 10 * large), 2 := TakenPage(g, 0)];
    Scan(Store(pages, [0], {}), 0, 0, 2 * large, map[g := Span(0, 10 * large)], large)
  }

  lemma FirstTaken(large: PageSize, small: PageSize)
    ensures ScanReady(StartScan(Mixed(large, small), large))
    ensures ScanStep(StartScan(Mixed(large, small), large)) == OneTaken(large, small)
  {
    var d := ScanStep(StartScan(Mixed(large, small), large));
    assert d.store.stack == [0, 1];
    assert d.store.pages == OneTaken(large, small).store.pages;
    assert d.table == OneTaken(large, small).table;
  }

  lemma OneReady(large: PageSize, small: PageSize)
    ensures ScanReady(OneTaken(large, small))
  {
  }

  lemma SecondTaken(large: PageSize, small: PageSize)
    ensures ScanReady(OneTaken(large, small)) && ScanStep(OneTaken(large, small)) == BothTaken(large, small)
  {
    OneReady(large, small);
    hide WellFormed;
    var d := ScanStep(OneTaken(large, small));
    assert d.store.stack == [0];
    assert d.store.pages == BothTaken(large, small).store.pages;
    assert d.table == BothTaken(large, small).table;
  }

  lemma CleanFreed(large: PageSize, small: PageSize)
    ensures ScanReady(BothTaken(large, small))
    ensures
      var c := ScanStep(BothTaken(large, small));
      && ScanReady(c)
      && c.cursor == -1
      && c.table == BothTaken(large, small).table
      && c.visited == small
  {
    ScanStepProgress(BothTaken(large, small));
  }

  /** The eviction takes the two dirty pages and then frees the clean one. */
  lemma MixedScan(large: PageSize, small: PageSize)
    ensures WellFormed(Mixed(large, small))
    ensures
      var c := ScanAll(StartScan(Mixed(large, small), large), 2 * large + small);
      c.table == map[Segment(1, large) := Span(0, 10 * large)] && c.visited == small
  {
    FirstTaken(large, small);
    SecondTaken(large, small);
    CleanFreed(large, small);
    hide ScanStep, WellFormed;
    var need := 2 * large + small;
    var start := StartScan(Mixed(large, small), large);
    assert ScanAll(BothTaken(large, small), need) == ScanStep(BothTaken(large, small));
    assert ScanAll(OneTaken(large, small), need) == ScanAll(BothTaken(large, small), need);
    assert ScanAll(start, need) == ScanAll(OneTaken(large, small), need);
  }

  lemma MixedIsMissed(large: PageSize, small: PageSize)
    requires small < large
    ensures WellFormed(Mixed(large, small)) && !NoTailMissed(Mixed(large, small), 2 * large + small, large)
  {
    var s := Mixed(large, small);
    MixedScan(large, small);
    var g := Segment(1, large);
    CoveredExactlyWhen(s, 2 * large + small, large, false, g);
    hide ScanAll, AllCovered, Mixed;
  }

  /**
   Forced eviction can be trusted with the ends of pages, whatever the cache holds, exactly when all
   segments in the cache have pages of one size.
   */
  lemma OnePageSize(sizes: set<PageSize>)
    ensures
      (forall s, need, pageSize :: WellFormed(s) && Sized(s, sizes) ==> NoTailMissed(s, need, pageSize))
      <==> (forall a, b :: a in sizes && b in sizes ==> a == b)
  {
    if forall a, b :: a in sizes && b in sizes ==> a == b {
      forall s, need, pageSize | WellFormed(s) && Sized(s, sizes) ensures NoTailMissed(s, need, pageSize) {
        OneSizeCovers(s, need, pageSize, sizes);
      }
    } else {
      var a, b :| a in sizes && b in sizes && a != b;
      var large, small := if a < b then b else a, if a < b then a else b;
      MixedIsMissed(large, small);
      assert Sized(Mixed(large, small), sizes);
      hide NoTailMissed, Mixed, Sized;
    }
  }
}
