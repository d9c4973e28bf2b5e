/**
 The two eviction scans of the AMP page cache as functions over the page store: the
 opportunistic one of _amp_free_mem and the forced one of _amp_attempt_free_mem, together
 with the range map that the forced one turns into flushes.

 `cursor` is the position of the stack cursor, and -1 when the cursor has gone off the top.
 */
module AmpScan {
  import opened Sequences
  import opened AmpStore

  // ---------------------------------------------------------------- opportunistic freeing

  /** The state of the loop of _amp_free_mem, cache_amp.c:797-823; `stopped` is its `err`. */
  datatype Run = Run(store: Store, cursor: int, total: int, stopped: bool)

  ghost predicate RunReady(r: Run) {
    WellFormed(r.store) && -1 <= r.cursor < |r.store.stack|
  }

  /** One turn of the opportunistic scan, for the page under the cursor. */
  function RunStep(r: Run): Run
    requires RunReady(r) && r.cursor >= 0
  {
    var page := r.store.pages[r.store.stack[r.cursor]];
    if page.toRelease then
      r.(cursor := r.cursor - 1)
    else if page.Evictable() then
      Run(DropAt(r.store, r.cursor), r.cursor - 1, r.total + page.seg.pageSize, false)
    else
      r.(stopped := true)
  }

  function StartRun(s: Store): Run {
    Run(s, |s.stack| - 1, 0, false)
  }

  ghost predicate RunGoes(r: Run, need: int) {
    r.total < need && r.cursor >= 0 && !r.stopped
  }

  lemma RunStepReady(r: Run)
    requires RunReady(r) && r.cursor >= 0
    ensures RunReady(RunStep(r))
  {
    if r.store.pages[r.store.stack[r.cursor]].Evictable() {
      DropAtKeeps(r.store, r.cursor);
    }
  }

  ghost function RunAll(r: Run, need: int): Run
    requires RunReady(r)
    decreases r.cursor + 1, !r.stopped
  {
    if !RunGoes(r, need) then r
    else
      RunStepReady(r);
      RunAll(RunStep(r), need)
  }

  /**
   What holds at every turn of the opportunistic scan started on `s`: what left memory is
   exactly what was counted, only clean idle aged pages left, and nothing else was touched.
   */
  ghost predicate RunInv(s: Store, r: Run) {
    && RunReady(r)
    && r.total >= 0
    && PageBytes(r.store.pages) + r.total == PageBytes(s.pages)
    && (forall p :: p in r.store.pages ==> p in s.pages && r.store.pages[p] == s.pages[p])
    && (forall p :: p in s.pages && p !in r.store.pages ==> s.pages[p].Evictable() && !s.pages[p].toRelease)
  }

  lemma RunStepKeeps(s: Store, r: Run)
    requires RunInv(s, r) && r.cursor >= 0
    ensures RunInv(s, RunStep(r))
  {
    RunStepReady(r);
    if r.store.pages[r.store.stack[r.cursor]].Evictable() {
      DropAtKeeps(r.store, r.cursor);
    }
  }

  lemma {:induction false} RunAllKeeps(s: Store, r: Run, need: int)
    requires RunInv(s, r)
    ensures RunInv(s, RunAll(r, need))
    ensures !RunGoes(RunAll(r, need), need)
    decreases r.cursor + 1, !r.stopped
  {
    if RunGoes(r, need) {
      RunStepKeeps(s, r);
      RunAllKeeps(s, RunStep(r), need);
    }
  }

  // ---------------------------------------------------------------- forced eviction

  /** The offsets of the first and last page of a segment that still have to be flushed. */
  datatype Span = Span(lo: int, hi: int) {
    predicate Contains(offset: int) {
      lo <= offset <= hi
    }
  }

  /** The state of the loop at cache_amp.c:869-951; `visited` is the page size left in `s->page_size`. */
  datatype Scan = Scan(
    store: Store,
    cursor: int,
    freed: int,
    pending: int,
    table: map<Segment, Span>,
    visited: PageSize)

  ghost predicate ScanReady(c: Scan) {
    WellFormed(c.store) && -1 <= c.cursor < |c.store.stack|
  }

  function NoteDirty(table: map<Segment, Span>, page: Page): map<Segment, Span> {
    if page.flushers == 0 && page.dirty then
      if page.seg in table then
        var span := table[page.seg];
        var lo := if span.lo > page.offset then page.offset else span.lo;
        var hi := if span.hi < page.offset then page.offset else span.hi;
        table[page.seg := Span(lo, hi)]
      else
        table[page.seg := Span(page.offset, page.offset)]
    else
      table
  }

  /** One turn of the scan, for the page under the cursor. */
  function ScanStep(c: Scan): Scan
    requires ScanReady(c) && c.cursor >= 0
  {
    var page := c.store.pages[c.store.stack[c.cursor]];
    var d := c.(visited := page.seg.pageSize);
    if page.toRelease then
      d.(cursor := c.cursor - 1)
    else if !page.Aged() then
      d.(store := AgeAt(c.store, c.cursor), cursor := if c.cursor == 0 then -1 else c.cursor)
    else if page.Evictable() then
      d.(store := DropAt(c.store, c.cursor), cursor := c.cursor - 1, freed := c.freed + page.seg.pageSize)
    else
      d.(store := UnlinkAt(c.store, c.cursor),
         cursor := c.cursor - 1,
         pending := c.pending + page.seg.pageSize,
         table := NoteDirty(c.table, page))
  }

  /** The pages that a further pass would still have to age. */
  ghost function Fresh(s: Store): set<PageId> {
    set p | p in s.pages && s.pages[p].linked && !s.pages[p].toRelease && !s.pages[p].Aged()
  }

  /** Every turn ages a page for good or moves the cursor up: the measure of the whole scan. */
  lemma ScanStepProgress(c: Scan)
    requires ScanReady(c) && c.cursor >= 0
    ensures ScanReady(ScanStep(c))
    ensures
      || Fresh(ScanStep(c).store) < Fresh(c.store)
      || (Fresh(ScanStep(c).store) == Fresh(c.store) && ScanStep(c).cursor < c.cursor)
  {
    var page := c.store.pages[c.store.stack[c.cursor]];
    if page.toRelease {
    } else if !page.Aged() {
      AgeAtSound(c.store, c.cursor);
      FreshAged(c.store, c.cursor);
      hide WellFormed, AgeAt, Fresh;
    } else if page.Evictable() {
      DropAtSound(c.store, c.cursor);
      FreshOthers(c.store, c.cursor);
      hide WellFormed, Fresh;
    } else {
      UnlinkAtSound(c.store, c.cursor);
      FreshOthers(c.store, c.cursor);
      hide WellFormed, Fresh;
    }
  }

  /** Sending a page round ages it for good. */
  lemma FreshAged(s: Store, i: nat)
    requires WellFormed(s) && i < |s.stack|
    requires var page := s.pages[s.stack[i]]; !page.toRelease && !page.Aged()
    ensures Fresh(AgeAt(s, i)) < Fresh(s) && |AgeAt(s, i).stack| == |s.stack|
  {
    var p := s.stack[i];
    assert p in Fresh(s);
    assert Fresh(AgeAt(s, i)) == Fresh(s) - {p};
  }

  /** Taking an aged page off the stack leaves those still to be aged alone. */
  lemma FreshOthers(s: Store, i: nat)
    requires WellFormed(s) && i < |s.stack| && s.pages[s.stack[i]].Aged()
    ensures Fresh(DropAt(s, i)) == Fresh(s) && |DropAt(s, i).stack| == |s.stack| - 1
    ensures Fresh(UnlinkAt(s, i)) == Fresh(s) && |UnlinkAt(s, i).stack| == |s.stack| - 1
  {
  }

  /** The scan runs until enough bytes are promised or the cursor leaves the stack. */
  ghost function ScanAll(c: Scan, need: int): Scan
    requires ScanReady(c)
    decreases Fresh(c.store), c.cursor + 1
  {
    if c.freed + c.pending >= need || c.cursor < 0 then c
    else
      ScanStepProgress(c);
      ScanAll(ScanStep(c), need)
  }

  function StartScan(s: Store, pageSize: PageSize): Scan {
    Scan(s, |s.stack| - 1, 0, 0, map[], pageSize)
  }

  /**
   What holds of the scan `c` at every turn when it started on `s`: bytes are neither lost nor
   invented, and every page has met one of the fates below.
   */
  ghost predicate ScanInv(s: Store, c: Scan) {
    && ScanReady(c)
    && c.freed >= 0 && c.pending >= 0
    && (c.table != map[] ==> c.pending > 0)
    && PageBytes(c.store.pages) + c.freed == PageBytes(s.pages)
    && StackBytes(c.store.pages) + c.freed + c.pending == StackBytes(s.pages)
    && c.store.pages.Keys <= s.pages.Keys
    && (forall p :: p in s.pages ==> Fate(s.pages[p], c.store.pages, c.table, p))
    && LeftBehind(s, c)
  }

  /**
   The fate of page `p`, which was `before` when the scan started: freed, and then it was on
   the stack, clean and idle; or unlinked, and then its dirty data has a flush pending or lies
   in its own segment's span; or left where it was, at most flagged as recycled.
   */
  ghost predicate Fate(before: Page, pages: map<PageId, Page>, table: map<Segment, Span>, p: PageId) {
    if p !in pages then
      before.linked && !before.dirty && before.Idle() && !before.toRelease
    else if pages[p].linked == before.linked then
      pages[p] == before || (pages[p] == before.(recycled := true) && before.linked && !before.toRelease)
    else
      && before.linked
      && pages[p] == before.(recycled := pages[p].recycled, toRelease := true, linked := false)
      && (before.dirty ==> before.flushers > 0 || (before.seg in table && table[before.seg].Contains(before.offset)))
  }

  /**
   Below the cursor only pages flagged for release remain. When the cursor has left the stack,
   the top page may also be one that this scan has just sent round for the first time.
   */
  ghost predicate LeftBehind(s: Store, c: Scan)
    requires ScanReady(c)
  {
    forall k :: 0 <= k && c.cursor < k < |c.store.stack| ==> Stuck(s, c.store, k)
  }

  ghost predicate Stuck(s: Store, t: Store, k: nat)
    requires k < |t.stack| && t.stack[k] in t.pages
  {
    var p := t.stack[k];
    t.pages[p].toRelease || (k == 0 && t.pages[p].recycled && p in s.pages && !s.pages[p].Aged())
  }

  /** A step changes the record of the page under the cursor and no other. */
  lemma OthersKept(c: Scan, p: PageId)
    requires ScanReady(c) && c.cursor >= 0 && p != c.store.stack[c.cursor]
    ensures
      var d := ScanStep(c);
      && (p in d.store.pages <==> p in c.store.pages)
      && (p in c.store.pages ==> d.store.pages[p] == c.store.pages[p])
      && (forall g :: g in c.table ==> g in d.table && d.table[g].lo <= c.table[g].lo && c.table[g].hi <= d.table[g].hi)
  {
  }

  /** The page under the cursor meets its fate. */
  lemma VisitedFate(before: Page, c: Scan)
    requires ScanReady(c) && c.cursor >= 0
    requires Fate(before, c.store.pages, c.table, c.store.stack[c.cursor])
    ensures Fate(before, ScanStep(c).store.pages, ScanStep(c).table, c.store.stack[c.cursor])
  {
    assert c.store.pages[c.store.stack[c.cursor]].linked;
  }

  lemma FatesKept(s: Store, c: Scan)
    requires ScanInv(s, c) && c.cursor >= 0
    ensures forall p :: p in s.pages ==> Fate(s.pages[p], ScanStep(c).store.pages, ScanStep(c).table, p)
  {
    var d := ScanStep(c);
    forall p | p in s.pages ensures Fate(s.pages[p], d.store.pages, d.table, p) {
      assert Fate(s.pages[p], c.store.pages, c.table, p);
      if p != c.store.stack[c.cursor] {
        OthersKept(c, p);
        hide ScanStep, WellFormed;
      } else {
        VisitedFate(s.pages[p], c);
      }
    }
  }

  /** Where a page that is below the cursor after a step was before it. */
  function PlaceBefore(c: Scan, k: nat): nat
    requires ScanReady(c) && c.cursor >= 0
  {
    if |ScanStep(c).store.stack| < |c.store.stack| then k + 1 else k
  }

  lemma BelowCursorKept(c: Scan, k: nat)
    requires ScanReady(c) && c.cursor >= 0
    requires ScanStep(c).cursor < k < |ScanStep(c).store.stack|
    ensures
      var d := ScanStep(c);
      var page := c.store.pages[c.store.stack[c.cursor]];
      || (c.cursor < PlaceBefore(c, k) < |c.store.stack| && d.store.stack[k] == c.store.stack[PlaceBefore(c, k)])
      || (k == c.cursor && d.store.stack[k] == c.store.stack[k] && page.toRelease)
      || (k == 0 == c.cursor && d.store.stack[k] == c.store.stack[k] && !page.toRelease && !page.Aged())
  {
    hide WellFormed, Without, ScanStep;
    StackStep(c);
    StackAfter(c.store.stack, c.cursor, k);
  }

  /** What a step does to the stack and the cursor. */
  lemma StackStep(c: Scan)
    requires ScanReady(c) && c.cursor >= 0
    ensures
      var d, page := ScanStep(c), c.store.pages[c.store.stack[c.cursor]];
      if page.toRelease then d.store.stack == c.store.stack && d.cursor == c.cursor - 1
      else if page.Aged() then d.store.stack == Without(c.store.stack, c.cursor) && d.cursor == c.cursor - 1
      else
        && d.store.stack == [c.store.stack[c.cursor]] + Without(c.store.stack, c.cursor)
        && d.cursor == if c.cursor == 0 then -1 else c.cursor
  {
  }

  /** The stack below position `i` once its element is gone, or has gone to the top. */
  lemma StackAfter(stack: seq<PageId>, i: nat, k: nat)
    requires i < |stack| && i <= k
    ensures |Without(stack, i)| == |stack| - 1
    ensures k < |stack| - 1 ==> Without(stack, i)[k] == stack[k + 1]
    ensures i < k < |stack| ==> ([stack[i]] + Without(stack, i))[k] == stack[k]
    ensures i == 0 ==> [stack[0]] + Without(stack, 0) == stack
  {
  }

  lemma LeftBehindKept(s: Store, c: Scan)
    requires ScanInv(s, c) && c.cursor >= 0 && ScanReady(ScanStep(c))
    ensures LeftBehind(s, ScanStep(c))
  {
    var d := ScanStep(c);
    forall k: nat | d.cursor < k < |d.store.stack| ensures Stuck(s, d.store, k) {
      BelowCursorKept(c, k);
      StuckKept(s, c, k);
    }
  }

  lemma StuckKept(s: Store, c: Scan, k: nat)
    requires ScanInv(s, c) && c.cursor >= 0 && ScanReady(ScanStep(c))
    requires ScanStep(c).cursor < k < |ScanStep(c).store.stack|
    ensures Stuck(s, ScanStep(c).store, k)
  {
    var d := ScanStep(c);
    BelowCursorKept(c, k);
    var p := c.store.stack[c.cursor];
    assert Fate(s.pages[p], c.store.pages, c.table, p);
    if d.store.stack[k] != p {
      var j := PlaceBefore(c, k);
      assert Stuck(s, c.store, j);
      OthersKept(c, d.store.stack[k]);
    }
  }

  lemma BytesKept(c: Scan)
    requires ScanReady(c) && c.cursor >= 0
    ensures
      var d := ScanStep(c);
      && d.freed >= c.freed && d.pending >= c.pending
      && (d.table != c.table ==> d.pending > c.pending)
      && d.store.pages.Keys <= c.store.pages.Keys
      && PageBytes(d.store.pages) + d.freed == PageBytes(c.store.pages) + c.freed
      && StackBytes(d.store.pages) + d.freed + d.pending == StackBytes(c.store.pages) + c.freed + c.pending
  {
    var page := c.store.pages[c.store.stack[c.cursor]];
    if page.toRelease {
    } else if !page.Aged() {
      AgeAtKeeps(c.store, c.cursor);
    } else if page.Evictable() {
      DropAtKeeps(c.store, c.cursor);
    } else {
      UnlinkAtKeeps(c.store, c.cursor);
    }
  }

  lemma ScanStepKeeps(s: Store, c: Scan)
    requires ScanInv(s, c) && c.cursor >= 0
    ensures ScanInv(s, ScanStep(c))
  {
    ScanStepProgress(c);
    FatesKept(s, c);
    LeftBehindKept(s, c);
    BytesKept(c);
    hide WellFormed, Fate, LeftBehind, ScanStep;
  }

  lemma {:induction false} ScanAllKeeps(s: Store, c: Scan, need: int)
    requires ScanInv(s, c)
    ensures ScanInv(s, ScanAll(c, need))
    ensures var d := ScanAll(c, need); d.freed + d.pending >= need || d.cursor == -1
    decreases Fresh(c.store), c.cursor + 1
  {
    if c.freed + c.pending < need && c.cursor >= 0 {
      ScanStepProgress(c);
      ScanStepKeeps(s, c);
      hide ScanInv, ScanStep, Fresh, WellFormed;
      ScanAllKeeps(s, ScanStep(c), need);
    }
  }

  /**
   Forced eviction as a whole, on any store and for any target. Every page it frees was clean
   and idle, every dirty page it unlinks is being flushed or is in the span to flush, the bytes
   it reports are exactly the bytes that left the stack, and it gives up short of its target
   only when nothing but pages in release, and a top page just aged, is left on the stack.
   */
  lemma ForcedEviction(s: Store, need: int, pageSize: PageSize)
    requires WellFormed(s)
    ensures
      var c := ScanAll(StartScan(s, pageSize), need);
      && WellFormed(c.store)
      && PageBytes(c.store.pages) + c.freed == PageBytes(s.pages)
      && StackBytes(c.store.pages) + c.freed + c.pending == StackBytes(s.pages)
      && (forall p :: p in s.pages ==> Fate(s.pages[p], c.store.pages, c.table, p))
      && (c.freed + c.pending >= need || forall k :: 0 <= k < |c.store.stack| ==> Stuck(s, c.store, k))
  {
    ForcedScanInv(s, need, pageSize);
  }

  lemma ForcedScanInv(s: Store, need: int, pageSize: PageSize)
    requires WellFormed(s)
    ensures var c := ScanAll(StartScan(s, pageSize), need);
      ScanInv(s, c) && (c.freed + c.pending >= need || c.cursor == -1)
  {
    assert ScanInv(s, StartScan(s, pageSize)) by {
      forall p | p in s.pages ensures Fate(s.pages[p], s.pages, map[], p) {
      }
    }
    ScanAllKeeps(s, StartScan(s, pageSize), need);
  }

  /** What a forced scan does to the books, leaving out what became of each page. */
  lemma ForcedScanBooks(s: Store, need: int, pageSize: PageSize)
    requires WellFormed(s)
    ensures
      var c := ScanAll(StartScan(s, pageSize), need);
      && WellFormed(c.store)
      && c.freed >= 0 && c.pending >= 0
      && (c.table != map[] ==> c.pending > 0)
      && c.store.pages.Keys <= s.pages.Keys
      && PageBytes(c.store.pages) + c.freed == PageBytes(s.pages)
  {
    ForcedScanInv(s, need, pageSize);
    hide Fate, LeftBehind, ScanAll;
  }

  /** What a forced scan takes off the stack. */
  lemma ForcedScanTakes(s: Store, need: int, pageSize: PageSize)
    requires WellFormed(s)
    ensures
      var c := ScanAll(StartScan(s, pageSize), need);
      StackBytes(c.store.pages) + c.freed + c.pending == StackBytes(s.pages)
  {
    ForcedScanInv(s, need, pageSize);
    hide Fate, LeftBehind, ScanAll;
  }

  /** Opportunistic freeing as a whole. */
  lemma OpportunisticFreeing(s: Store, need: int)
    requires WellFormed(s)
    ensures
      var r := RunAll(StartRun(s), need);
      && WellFormed(r.store)
      && r.total >= 0
      && PageBytes(r.store.pages) + r.total == PageBytes(s.pages)
      && (forall p :: p in r.store.pages ==> p in s.pages && r.store.pages[p] == s.pages[p])
      && (forall p :: p in s.pages && p !in r.store.pages ==> s.pages[p].Evictable() && !s.pages[p].toRelease)
  {
    RunAllKeeps(s, StartRun(s), need);
  }

  // ---------------------------------------------------------------- the flushes of a forced scan

  datatype Flush = WholeSegment | Bytes(lo: int, hi: int) {
    predicate Covers(offset: int) {
      WholeSegment? || lo <= offset <= hi
    }
  }

  /** cache_amp.c:972: a span shorter than ten pages is stretched to ten pages. */
  function Widen(span: Span, pageSize: PageSize): Span {
    if span.hi - span.lo < 10 * pageSize then Span(span.lo, span.lo + 10 * pageSize) else span
  }

  /** cache_amp.c:973-977. The page size is that of the last page visited, whatever its segment. */
  function FlushFor(span: Span, visited: PageSize, tooDirty: bool): Flush {
    if tooDirty then WholeSegment
    else
      var wide := Widen(span, visited);
      Bytes(wide.lo, wide.hi + visited - 1)
  }

  function FlushPlan(c: Scan, tooDirty: bool): (plan: map<Segment, Flush>) {
    map g | g in c.table :: FlushFor(c.table[g], c.visited, tooDirty)
  }

  /**
   Forced eviction loses no write: a dirty page that is taken off the stack already has a flush
   pending, or the flush issued for its own segment covers the page's offset.
   */
  lemma NoWriteLost(s: Store, need: int, pageSize: PageSize, tooDirty: bool, p: PageId)
    requires WellFormed(s) && p in s.pages && s.pages[p].linked && s.pages[p].dirty
    ensures
      var c := ScanAll(StartScan(s, pageSize), need);
      var plan := FlushPlan(c, tooDirty);
      && p in c.store.pages
      && c.store.pages[p].dirty
      && (c.store.pages[p].linked
          || s.pages[p].flushers > 0
          || (s.pages[p].seg in plan && plan[s.pages[p].seg].Covers(s.pages[p].offset)))
  {
    ForcedEviction(s, need, pageSize);
    var c := ScanAll(StartScan(s, pageSize), need);
    assert Fate(s.pages[p], c.store.pages, c.table, p);
  }
}
