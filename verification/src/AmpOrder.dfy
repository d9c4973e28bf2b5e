/**
 The order in which the two eviction scans of the AMP page cache take pages: strictly from the
 least recently used end, the forced one giving every page that was never used a second chance.
 */
module AmpOrder {
  import opened AmpStore
  import opened AmpScan

  // ---------------------------------------------------------------- opportunistic freeing

  /** The pages above the cursor are untouched; each one below it was freed, or is in release. */
  ghost predicate RunOrder(s: Store, r: Run) {
    && RunReady(r)
    && r.cursor < |s.stack| && |r.store.stack| >= r.cursor + 1
    && r.store.stack[..r.cursor + 1] == s.stack[..r.cursor + 1]
    && (forall p :: p in r.store.pages ==> p in s.pages && r.store.pages[p] == s.pages[p])
    && (forall j :: r.cursor < j < |s.stack| ==> Passed(s, r.store, s.stack[j]))
    && (r.stopped ==> r.cursor >= 0 && Blocked(s, s.stack[r.cursor]))
  }

  ghost predicate Passed(s: Store, t: Store, p: PageId) {
    p in s.pages && if s.pages[p].toRelease then p in t.pages else s.pages[p].Evictable() && p !in t.pages
  }

  ghost predicate Blocked(s: Store, p: PageId) {
    p in s.pages && !s.pages[p].toRelease && !s.pages[p].Evictable()
  }

  /** The page under the cursor is the original one; a step leaves what is above it as it was. */
  lemma RunPrefix(s: Store, r: Run)
    requires RunReady(r) && r.cursor >= 0 && r.cursor < |s.stack|
    requires r.store.stack[..r.cursor + 1] == s.stack[..r.cursor + 1]
    ensures r.store.stack[r.cursor] == s.stack[r.cursor]
    ensures
      var d := RunStep(r);
      && |d.store.stack| >= d.cursor + 1 && d.store.stack[..d.cursor + 1] == s.stack[..d.cursor + 1]
      && (d.cursor == r.cursor || d.cursor == r.cursor - 1)
  {
    assert r.store.stack[..r.cursor + 1][r.cursor] == s.stack[..r.cursor + 1][r.cursor];
    assert r.store.stack[..r.cursor] == r.store.stack[..r.cursor + 1][..r.cursor];
    assert s.stack[..r.cursor] == s.stack[..r.cursor + 1][..r.cursor];
  }

  /** A step passes the page under the cursor, or stops there, and takes no other page. */
  lemma RunPasses(s: Store, r: Run)
    requires RunReady(r) && r.cursor >= 0
    requires forall p :: p in r.store.pages ==> p in s.pages && r.store.pages[p] == s.pages[p]
    ensures
      var d, p := RunStep(r), r.store.stack[r.cursor];
      && (forall q :: q in d.store.pages ==> q in r.store.pages && d.store.pages[q] == r.store.pages[q])
      && (forall q :: q in r.store.pages && q != p ==> q in d.store.pages)
      && (d.cursor < r.cursor ==> Passed(s, d.store, p))
      && (d.cursor == r.cursor ==> d.stopped)
      && (d.stopped && !r.stopped ==> d.cursor == r.cursor && Blocked(s, p))
  {
  }

  lemma RunOrderKept(s: Store, r: Run, need: int)
    requires WellFormed(s) && RunOrder(s, r) && RunGoes(r, need)
    ensures RunOrder(s, RunStep(r))
  {
    hide WellFormed, RunStep, Passed, Blocked;
    RunStepReady(r);
    RunPrefix(s, r);
    RunPasses(s, r);
    AllPassed(s, r);
  }

  lemma AllPassed(s: Store, r: Run)
    requires WellFormed(s) && RunOrder(s, r) && r.cursor >= 0
    ensures forall j :: RunStep(r).cursor < j < |s.stack| ==> Passed(s, RunStep(r).store, s.stack[j])
  {
    hide WellFormed, RunStep, Passed, Blocked;
    RunPrefix(s, r);
    RunPasses(s, r);
    forall j | RunStep(r).cursor < j < |s.stack| ensures Passed(s, RunStep(r).store, s.stack[j]) {
      if j > r.cursor {
        OtherOriginal(s, r.cursor, j);
        PassedStays(s, r.store, RunStep(r).store, r.store.stack[r.cursor], s.stack[j]);
      }
    }
  }

  lemma PassedStays(s: Store, t: Store, u: Store, p: PageId, q: PageId)
    requires Passed(s, t, q) && q != p
    requires forall k :: k in u.pages ==> k in t.pages
    requires forall k :: k in t.pages && k != p ==> k in u.pages
    ensures Passed(s, u, q)
  {
  }

  lemma {:induction false} RunOrderHolds(s: Store, r: Run, need: int)
    requires WellFormed(s) && RunOrder(s, r)
    ensures RunOrder(s, RunAll(r, need)) && !RunGoes(RunAll(r, need), need)
    decreases r.cursor + 1, !r.stopped
  {
    if RunGoes(r, need) {
      RunStepReady(r);
      RunOrderKept(s, r, need);
      RunOrderHolds(s, RunStep(r), need);
    }
  }

  /**
   The opportunistic scan frees exactly the evictable pages at the bottom of the stack, skipping
   those in release, up to some position `k`; above it nothing is touched. It stops there because
   the target is met, or the stack is exhausted, or the page just above may not be freed.
   */
  lemma FreesFromTheBottom(s: Store, need: int) returns (k: nat)
    requires WellFormed(s)
    ensures
      var r := RunAll(StartRun(s), need);
      && k <= |s.stack|
      && (forall j :: k <= j < |s.stack| ==> Passed(s, r.store, s.stack[j]))
      && k <= |r.store.stack| && r.store.stack[..k] == s.stack[..k]
      && (forall j :: 0 <= j < k ==> s.stack[j] in r.store.pages)
      && (r.total >= need || k == 0 || Blocked(s, s.stack[k - 1]))
  {
    RunOrderHolds(s, StartRun(s), need);
    var r := RunAll(StartRun(s), need);
    k := r.cursor + 1;
    forall j | 0 <= j < k ensures s.stack[j] in r.store.pages {
      assert r.store.stack[..k][j] == s.stack[..k][j];
    }
  }

  // ---------------------------------------------------------------- forced eviction

  /** The scan has been at this page: it left the stack, was in release, or had its second chance. */
  ghost predicate Visited(s: Store, t: Store, p: PageId) {
    && p in s.pages
    && (|| p !in t.pages
        || !t.pages[p].linked
        || (s.pages[p].toRelease && t.pages[p] == s.pages[p])
        || SecondChance(s, t, p))
  }

  ghost predicate Untouched(s: Store, t: Store, p: PageId) {
    p in s.pages && p in t.pages && t.pages[p] == s.pages[p]
  }

  ghost predicate SecondChance(s: Store, t: Store, p: PageId) {
    && p in s.pages && !s.pages[p].toRelease && !s.pages[p].Aged()
    && p in t.pages && t.pages[p] == s.pages[p].(recycled := true)
  }

  /**
   Up to the cursor the stack is first the pages that have had their second chance, then the `k`
   pages of the original stack that have not been looked at.
   */
  ghost predicate ScanOrder(s: Store, c: Scan, again: seq<PageId>, k: nat) {
    && ScanReady(c) && k <= |s.stack|
    && c.store.stack[..c.cursor + 1] == again + s.stack[..k]
    && (forall i :: 0 <= i < |again| ==> SecondChance(s, c.store, again[i]))
    && (forall j :: 0 <= j < k ==> Untouched(s, c.store, s.stack[j]))
    && (forall j :: k <= j < |s.stack| ==> Visited(s, c.store, s.stack[j]))
    && (k > 0 ==> Spared(s, c.store, k))
  }

  /** Every page from this position on that was never used is still there, with its second chance. */
  ghost predicate Spared(s: Store, t: Store, k: nat)
    requires k <= |s.stack|
  {
    forall j :: k <= j < |s.stack| && NeverUsed(s, s.stack[j]) ==> SecondChance(s, t, s.stack[j])
  }

  ghost predicate NeverUsed(s: Store, p: PageId) {
    p in s.pages && !s.pages[p].toRelease && !s.pages[p].Aged()
  }

  lemma SamePageElsewhere(s: Store, c: Scan, p: PageId)
    requires ScanReady(c) && c.cursor >= 0 && p != c.store.stack[c.cursor]
    ensures Visited(s, c.store, p) ==> Visited(s, ScanStep(c).store, p)
    ensures SecondChance(s, c.store, p) ==> SecondChance(s, ScanStep(c).store, p)
    ensures p in c.store.pages ==> p in ScanStep(c).store.pages && ScanStep(c).store.pages[p] == c.store.pages[p]
  {
    OthersKept(c, p);
  }

  /** The second chances once the page `p` under the cursor has been dealt with. */
  function AgainAfter(c: Scan, again: seq<PageId>): seq<PageId>
    requires ScanReady(c) && c.cursor >= 0
  {
    var p := c.store.stack[c.cursor];
    if c.store.pages[p].toRelease || c.store.pages[p].Aged() then again else if c.cursor == 0 then [] else [p] + again
  }

  /** The next page is the last of the original ones that are left. */
  lemma NextOriginal(s: Store, c: Scan, again: seq<PageId>, k: nat)
    requires ScanReady(c) && c.cursor >= 0 && 0 < k <= |s.stack|
    requires c.store.stack[..c.cursor + 1] == again + s.stack[..k]
    ensures c.store.stack[c.cursor] == s.stack[k - 1]
    ensures c.store.stack[..c.cursor] == again + s.stack[..k - 1]
  {
    var upto := c.store.stack[..c.cursor + 1];
    assert |upto| == |again| + k;
    assert upto[c.cursor] == (again + s.stack[..k])[|again| + k - 1];
    assert c.store.stack[..c.cursor] == upto[..c.cursor];
    assert (again + s.stack[..k])[..|again| + k - 1] == again + s.stack[..k - 1];
  }

  lemma PrefixAfter(s: Store, c: Scan, again: seq<PageId>, k: nat)
    requires ScanReady(c) && c.cursor >= 0 && ScanReady(ScanStep(c)) && 0 < k <= |s.stack|
    requires c.store.stack[..c.cursor + 1] == again + s.stack[..k]
    ensures ScanStep(c).store.stack[..ScanStep(c).cursor + 1] == AgainAfter(c, again) + s.stack[..k - 1]
  {
    NextOriginal(s, c, again, k);
    var d, p := ScanStep(c), c.store.stack[c.cursor];
    if !c.store.pages[p].toRelease && !c.store.pages[p].Aged() {
      if c.cursor > 0 {
        assert d.store.stack[..d.cursor + 1] == [p] + c.store.stack[..c.cursor];
      } else {
        assert |again| + k == 1;
      }
    } else {
      assert d.store.stack[..d.cursor + 1] == c.store.stack[..c.cursor];
    }
  }

  lemma FirstVisit(s: Store, c: Scan, again: seq<PageId>, k: nat)
    requires WellFormed(s) && ScanOrder(s, c, again, k) && c.cursor >= 0 && k > 0
    ensures ScanOrder(s, ScanStep(c), AgainAfter(c, again), k - 1)
  {
    hide WellFormed, ScanStep, Visited;
    ScanStepProgress(c);
    PrefixAfter(s, c, again, k);
    NextOriginal(s, c, again, k);
    var d, p := ScanStep(c), c.store.stack[c.cursor];
    var again' := AgainAfter(c, again);
    assert Untouched(s, c.store, p);
    VisitedNow(s, c);
    forall i | 0 <= i < |again'| ensures SecondChance(s, d.store, again'[i]) {
      if again'[i] != p {
        assert again'[i] in again;
        SamePageElsewhere(s, c, again'[i]);
      }
    }
    forall j | 0 <= j < k - 1 ensures Untouched(s, d.store, s.stack[j]) {
      OtherOriginal(s, j, k - 1);
      SamePageElsewhere(s, c, s.stack[j]);
    }
    forall j | k - 1 <= j < |s.stack|
      ensures Visited(s, d.store, s.stack[j])
      ensures NeverUsed(s, s.stack[j]) ==> SecondChance(s, d.store, s.stack[j])
    {
      if j > k - 1 {
        OtherOriginal(s, k - 1, j);
        SamePageElsewhere(s, c, s.stack[j]);
      }
    }
  }

  lemma OtherOriginal(s: Store, i: nat, j: nat)
    requires WellFormed(s) && i < j < |s.stack|
    ensures s.stack[i] != s.stack[j]
  {
  }

  /** A page seen for the first time is visited, and given its second chance if it is due one. */
  lemma VisitedNow(s: Store, c: Scan)
    requires ScanReady(c) && c.cursor >= 0 && Untouched(s, c.store, c.store.stack[c.cursor])
    ensures Visited(s, ScanStep(c).store, c.store.stack[c.cursor])
    ensures
      var page := c.store.pages[c.store.stack[c.cursor]];
      !page.toRelease && !page.Aged() ==> SecondChance(s, ScanStep(c).store, c.store.stack[c.cursor])
  {
  }

  /** With no original page left, the pages on their second round go in turn. */
  lemma SecondVisit(s: Store, c: Scan, again: seq<PageId>) returns (again': seq<PageId>)
    requires WellFormed(s) && ScanOrder(s, c, again, 0) && c.cursor >= 0
    ensures ScanOrder(s, ScanStep(c), again', 0)
  {
    ScanStepProgress(c);
    var p := c.store.stack[c.cursor];
    var upto := c.store.stack[..c.cursor + 1];
    assert upto == again;
    assert p == again[|again| - 1];
    again' := again[..|again| - 1];
    var d := ScanStep(c);
    assert c.store.stack[..c.cursor] == upto[..c.cursor] == again';
    forall i | 0 <= i < |again'| ensures SecondChance(s, d.store, again'[i]) {
      assert again'[i] == c.store.stack[i];
      SamePageElsewhere(s, c, again'[i]);
    }
    forall j | 0 <= j < |s.stack| ensures Visited(s, d.store, s.stack[j]) {
      if s.stack[j] != p {
        SamePageElsewhere(s, c, s.stack[j]);
      }
    }
  }

  lemma {:induction false} ScanOrderHolds(s: Store, c: Scan, need: int, again: seq<PageId>, k: nat)
    returns (again': seq<PageId>, k': nat)
    requires WellFormed(s) && ScanOrder(s, c, again, k)
    ensures ScanOrder(s, ScanAll(c, need), again', k') && k' <= k
    decreases Fresh(c.store), c.cursor + 1
  {
    again', k' := again, k;
    if c.freed + c.pending < need && c.cursor >= 0 {
      ScanStepProgress(c);
      if k > 0 {
        FirstVisit(s, c, again, k);
        again', k' := ScanOrderHolds(s, ScanStep(c), need, AgainAfter(c, again), k - 1);
      } else {
        again' := SecondVisit(s, c, again);
        again', k' := ScanOrderHolds(s, ScanStep(c), need, again', 0);
      }
    }
  }

  /**
   Forced eviction goes strictly from the bottom: there is a position such that no page above it
   has been touched, and every page from it on has left the stack, or was in release already, or
   had never been used and has just been given its second chance. While there is a page that has not
   been looked at, no page that was never used is taken.
   */
  lemma EvictsFromTheBottom(s: Store, need: int, pageSize: PageSize) returns (k: nat)
    requires WellFormed(s)
    ensures
      var t := ScanAll(StartScan(s, pageSize), need).store;
      && k <= |s.stack|
      && (forall j :: 0 <= j < k ==> Untouched(s, t, s.stack[j]))
      && (forall j :: k <= j < |s.stack| ==> Visited(s, t, s.stack[j]))
      && (k > 0 ==> Spared(s, t, k))
  {
    var start := StartScan(s, pageSize);
    assert s.stack[..|s.stack|] == [] + s.stack[..|s.stack|];
    var again;
    again, k := ScanOrderHolds(s, start, need, [], |s.stack|);
  }

  // ---------------------------------------------------------------- no more than is needed

  /** A page that has been freed or taken off the stack. */
  ghost predicate OffStack(s: Store, t: Store, p: PageId) {
    p in s.pages && s.pages[p].linked && (p in t.pages ==> !t.pages[p].linked)
  }

  lemma {:induction false} RunTakesNoMore(r: Run, need: int)
    requires RunReady(r)
    ensures
      var d := RunAll(r, need);
      && (forall p :: p in d.store.pages ==> p in r.store.pages && d.store.pages[p] == r.store.pages[p])
      && (d.total == r.total
          || exists p :: OffStack(r.store, d.store, p) && d.total - r.store.pages[p].seg.pageSize < need)
    decreases r.cursor + 1, !r.stopped
  {
    if RunGoes(r, need) {
      RunStepReady(r);
      RunTakesNoMore(RunStep(r), need);
      var p := r.store.stack[r.cursor];
      var e, d := RunStep(r), RunAll(r, need);
      if d.total == e.total && e.total != r.total {
        assert OffStack(r.store, d.store, p);
      } else if d.total != e.total {
        var q :| OffStack(e.store, d.store, q) && d.total - e.store.pages[q].seg.pageSize < need;
        assert OffStack(r.store, d.store, q);
      }
    }
  }

  /** The opportunistic scan stops as soon as it has enough: without some page that it freed it would not have. */
  lemma FreesNoMoreThanNeeded(s: Store, need: int)
    requires WellFormed(s)
    ensures
      var r := RunAll(StartRun(s), need);
      r.total == 0 || exists p :: OffStack(s, r.store, p) && r.total - s.pages[p].seg.pageSize < need
  {
    RunTakesNoMore(StartRun(s), need);
  }

  /** Once off the stack, a page stays off. */
  lemma OffStays(c: Scan, p: PageId)
    requires ScanReady(c) && c.cursor >= 0 && (p in c.store.pages ==> !c.store.pages[p].linked)
    ensures var d := ScanStep(c); p in d.store.pages ==> !d.store.pages[p].linked
  {
    if p in ScanStep(c).store.pages {
      OthersKept(c, p);
    }
  }

  /** What a page on the stack afterwards was before. */
  lemma OnStackBefore(c: Scan, p: PageId)
    requires ScanReady(c) && c.cursor >= 0 && p in ScanStep(c).store.pages
    ensures p in c.store.pages && ScanStep(c).store.pages[p].seg == c.store.pages[p].seg
    ensures ScanStep(c).store.pages[p].linked ==> c.store.pages[p].linked
  {
  }

  lemma {:induction false} ScanTakesNoMore(c: Scan, need: int)
    requires ScanReady(c)
    ensures
      var d := ScanAll(c, need);
      && (forall p :: (p in c.store.pages ==> !c.store.pages[p].linked) ==>
            p in d.store.pages ==> !d.store.pages[p].linked)
      && (d.freed + d.pending == c.freed + c.pending
          || exists p :: OffStack(c.store, d.store, p)
               && d.freed + d.pending - c.store.pages[p].seg.pageSize < need)
    decreases Fresh(c.store), c.cursor + 1
  {
    if c.freed + c.pending < need && c.cursor >= 0 {
      ScanStepProgress(c);
      var e := ScanStep(c);
      ScanTakesNoMore(e, need);
      StepTakes(c);
      forall p | p in c.store.pages ==> !c.store.pages[p].linked
        ensures p in e.store.pages ==> !e.store.pages[p].linked
      {
        OffStays(c, p);
      }
      TakenOver(c, ScanAll(c, need), need);
    }
  }

  /** A step takes at most the page under the cursor. */
  lemma StepTakes(c: Scan)
    requires ScanReady(c) && c.cursor >= 0
    ensures
      var e, p := ScanStep(c), c.store.stack[c.cursor];
      || e.freed + e.pending == c.freed + c.pending
      || (&& OffStack(c.store, e.store, p)
          && e.freed + e.pending == c.freed + c.pending + c.store.pages[p].seg.pageSize)
  {
  }

  lemma TakenOver(c: Scan, d: Scan, need: int)
    requires ScanReady(c) && c.cursor >= 0 && c.freed + c.pending < need
    requires forall p :: (p in ScanStep(c).store.pages ==> !ScanStep(c).store.pages[p].linked) ==>
      p in d.store.pages ==> !d.store.pages[p].linked
    requires
      var e := ScanStep(c);
      || d.freed + d.pending == e.freed + e.pending
      || exists p :: OffStack(e.store, d.store, p) && d.freed + d.pending - e.store.pages[p].seg.pageSize < need
    ensures
      || d.freed + d.pending == c.freed + c.pending
      || exists p :: OffStack(c.store, d.store, p) && d.freed + d.pending - c.store.pages[p].seg.pageSize < need
  {
    StepTakes(c);
    var e, p := ScanStep(c), c.store.stack[c.cursor];
    if d.freed + d.pending != e.freed + e.pending {
      var q :| OffStack(e.store, d.store, q) && d.freed + d.pending - e.store.pages[q].seg.pageSize < need;
      OnStackBefore(c, q);
      assert OffStack(c.store, d.store, q);
    } else if e.freed + e.pending != c.freed + c.pending {
      assert OffStack(c.store, d.store, p);
    }
  }

  /** The forced scan too stops as soon as it has enough. */
  lemma EvictsNoMoreThanNeeded(s: Store, need: int, pageSize: PageSize)
    requires WellFormed(s)
    ensures
      var c := ScanAll(StartScan(s, pageSize), need);
      || c.freed + c.pending == 0
      || exists p :: OffStack(s, c.store, p) && c.freed + c.pending - s.pages[p].seg.pageSize < need
  {
    ScanTakesNoMore(StartScan(s, pageSize), need);
  }
}
