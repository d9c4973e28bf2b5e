/**
 What each operation of the AMP page cache brings about, told without the operation: which pages
 leave and which are made, where they are on the stack and in the index, what bytes_used becomes, and
 where a thread finds itself.
 */
module AmpEffects {
  import opened Sequences
  import opened AmpStore
  import opened AmpScan
  import opened AmpOrder
  import opened AmpProtocol
  import opened AmpInvariant
  import opened AmpRuns

  // ---------------------------------------------------------------- pages that leave

  /** The given pages are in neither memory, stack nor index any more; all else is as it was, in its order. */
  ghost predicate Gone(s: Store, t: Store, gone: set<PageId>) {
    && t.pages == s.pages - gone
    && t.stack == Sifted(s.stack, gone)
    && (forall e :: e in t.index <==> e in s.index && e.page !in gone)
  }

  lemma NothingGone(s: Store)
    ensures Gone(s, s, {})
  {
    SiftedNone(s.stack, {});
    assert s.pages - {} == s.pages;
  }

  lemma GoneTwice(s: Store, t: Store, u: Store, a: set<PageId>, b: set<PageId>)
    requires Gone(s, t, a) && Gone(t, u, b)
    ensures Gone(s, u, a + b)
  {
    SiftedTwice(s.stack, a, b);
    assert s.pages - a - b == s.pages - (a + b);
  }

  /** Taking one page out of memory. */
  lemma FreedIsGone(s: Store, p: PageId, forget: bool)
    requires WellFormed(s) && p in s.pages && (forget || forall e :: e in s.index ==> e.page != p)
    ensures Gone(s, FreePage(s, p, forget), {p})
  {
    var t := FreePage(s, p, forget);
    if s.pages[p].linked {
      WithoutIsSifted(s.stack, PositionOf(s, p));
    } else {
      SiftedNone(s.stack, {p});
    }
    forall e ensures e in t.index <==> e in s.index && e.page !in {p} {
      if e in s.index && e.page == p {
        assert e == Entry(s.pages[p].seg, s.pages[p].offset, p);
      }
    }
  }

  // ---------------------------------------------------------------- releasing

  /** The listed pages that are flagged for release. */
  ghost function Flagged(s: Store, list: seq<PageId>): set<PageId>
    requires forall p :: p in list ==> p in s.pages
  {
    set p | p in list && s.pages[p].toRelease
  }

  ghost function SizesOf(s: Store, list: seq<PageId>, gone: set<PageId>): int
    requires forall p :: p in list ==> p in s.pages
  {
    if list == [] then 0
    else (if list[0] in gone then s.pages[list[0]].seg.pageSize else 0) + SizesOf(s, list[1..], gone)
  }

  /** The sizes depend on the listed pages only. */
  lemma {:induction false} SameSizes(s: Store, t: Store, list: seq<PageId>, a: set<PageId>, b: set<PageId>)
    requires forall p :: p in list ==>
      p in s.pages && p in t.pages && s.pages[p].seg == t.pages[p].seg && (p in a <==> p in b)
    ensures SizesOf(s, list, a) == SizesOf(t, list, b)
  {
    if list != [] {
      SameSizes(s, t, list[1..], a, b);
    }
  }

  lemma ReleasedIsGone(c: Cache, p: PageId)
    requires Inv(c) && p in c.store.pages && c.store.pages[p].toRelease
    ensures Gone(c.store, ReleaseOne(c, p).store, {p})
  {
    FreedIsGone(c.store, p, c.store.pages[p].offset > -1);
  }

  lemma ReleasedOne(c: Cache, list: seq<PageId>)
    requires WellFormed(c.store) && Listed(c.store, list) && list != []
    ensures WellFormed(ReleaseOne(c, list[0]).store) && Listed(ReleaseOne(c, list[0]).store, list[1..])
    ensures
      var d := ReleaseOne(c, list[0]);
      var gone := if c.store.pages[list[0]].toRelease then {list[0]} else {};
      && Gone(c.store, d.store, gone)
      && d == c.(store := d.store, bytesUsed := d.bytesUsed)
      && d.bytesUsed == c.bytesUsed - (if gone != {} then c.store.pages[list[0]].seg.pageSize else 0)
  {
    ReleaseOneSound(c, list);
    var page := c.store.pages[list[0]];
    if page.toRelease {
      FreedIsGone(c.store, list[0], page.offset > -1);
    } else {
      NothingGone(c.store);
    }
  }

  lemma {:induction false} ReleasedAll(c: Cache, list: seq<PageId>)
    requires WellFormed(c.store) && Listed(c.store, list)
    ensures
      var d := ReleaseAll(c, list);
      var gone := Flagged(c.store, list);
      && Gone(c.store, d.store, gone)
      && d == c.(store := d.store, bytesUsed := d.bytesUsed)
      && d.bytesUsed == c.bytesUsed - SizesOf(c.store, list, gone)
    decreases |list|
  {
    if list == [] {
      NothingGone(c.store);
      assert Flagged(c.store, list) == {};
    } else {
      ReleasedOne(c, list);
      ReleasedAll(ReleaseOne(c, list[0]), list[1..]);
      hide WellFormed, ReleaseOne;
      ReleasedBoth(c.store, ReleaseOne(c, list[0]).store, ReleaseAll(c, list).store, list);
    }
  }

  /** The first page of the list, and then the others. */
  lemma ReleasedBoth(s: Store, t: Store, u: Store, list: seq<PageId>)
    requires Listed(s, list) && list != [] && Listed(t, list[1..])
    requires var first := if s.pages[list[0]].toRelease then {list[0]} else {};
      Gone(s, t, first) && Gone(t, u, Flagged(t, list[1..]))
    ensures Gone(s, u, Flagged(s, list))
    ensures SizesOf(s, list, Flagged(s, list))
      == (if s.pages[list[0]].toRelease then s.pages[list[0]].seg.pageSize else 0)
         + SizesOf(t, list[1..], Flagged(t, list[1..]))
  {
    var first := if s.pages[list[0]].toRelease then {list[0]} else {};
    FlaggedBoth(s, t, list);
    GoneTwice(s, t, u, first, Flagged(t, list[1..]));
    hide Gone, Flagged;
  }

  lemma FlaggedBoth(s: Store, t: Store, list: seq<PageId>)
    requires Listed(s, list) && list != [] && Listed(t, list[1..])
    requires forall p :: p in list[1..] ==> t.pages[p] == s.pages[p]
    ensures Flagged(s, list) == (if s.pages[list[0]].toRelease then {list[0]} else {}) + Flagged(t, list[1..])
    ensures SizesOf(s, list, Flagged(s, list))
      == (if s.pages[list[0]].toRelease then s.pages[list[0]].seg.pageSize else 0)
         + SizesOf(t, list[1..], Flagged(t, list[1..]))
  {
    assert list == [list[0]] + list[1..];
    SameSizes(s, t, list[1..], Flagged(s, list), Flagged(t, list[1..]));
  }

  /**
   A release: every listed page that is flagged leaves memory, stack and index, and no other page is
   touched; bytes_used falls by just their sizes; and then every parked thread on the list is signalled.
   */
  lemma ReleaseEffect(c: Cache, list: seq<PageId>)
    requires Inv(c) && Listed(c.store, list)
    ensures
      var d := Release(c, list);
      var gone := Flagged(c.store, list);
      && Gone(c.store, d.store, gone)
      && d.bytesUsed == c.bytesUsed - SizesOf(c.store, list, gone)
      && Signalled(c, d)
  {
    ReleasedAll(c, list);
    ReleaseAllKeeps(c, list);
    SignalEffect(ReleaseAll(c, list));
    hide WellFormed, ReleaseAll, Gone, Inv, ProcessWaiters;
  }

  // ---------------------------------------------------------------- signalling

  /** Every parked thread is signalled and off the list, every other thread is where it was. */
  ghost predicate Signalled(c: Cache, d: Cache) {
    && d.pendingTasks == [] && d.waiting == c.waiting
    && d.threads.Keys == c.threads.Keys
    && (forall t :: t in c.threads ==>
          d.threads[t] == if c.threads[t].Parked? then Parked(c.threads[t].f, true) else c.threads[t])
  }

  lemma SignalEffect(c: Cache)
    requires Inv(c)
    ensures
      var d := ProcessWaiters(c);
      Signalled(c, d) && d.store == c.store && d.bytesUsed == c.bytesUsed
  {
    hide WellFormed;
  }

  // ---------------------------------------------------------------- destroying

  /** The listed pages that nobody uses. */
  ghost function IdleOf(s: Store, list: seq<PageId>): set<PageId>
    requires forall p :: p in list ==> p in s.pages
  {
    set p | p in list && s.pages[p].Idle()
  }

  /** A page that somebody still uses is clean, no longer empty, and will go when it is released. */
  function Doomed(page: Page): Page {
    page.(dirty := false, empty := false, toRelease := true)
  }

  ghost predicate Destroyed(s: Store, t: Store, list: seq<PageId>)
    requires forall p :: p in list ==> p in s.pages
  {
    var gone := IdleOf(s, list);
    && t.pages.Keys == s.pages.Keys - gone
    && (forall p :: p in t.pages ==> t.pages[p] == if p in list then Doomed(s.pages[p]) else s.pages[p])
    && t.stack == Sifted(s.stack, gone)
    && (forall e :: e in t.index <==> e in s.index && e.page !in gone)
  }

  lemma DestroyedOne(c: Cache, p: PageId, remove: bool)
    requires WellFormed(c.store) && MayDestroy(c.store, p, remove)
    ensures
      var d := DestroyOne(c, p, remove);
      && Destroyed(c.store, d.store, [p])
      && d == c.(store := d.store, bytesUsed := d.bytesUsed)
      && d.bytesUsed == c.bytesUsed - (if c.store.pages[p].Idle() then c.store.pages[p].seg.pageSize else 0)
  {
    if c.store.pages[p].Idle() {
      FreedIsGone(c.store, p, remove);
      assert IdleOf(c.store, [p]) == {p};
    } else {
      assert IdleOf(c.store, [p]) == {};
      SiftedNone(c.store.stack, {});
    }
  }

  lemma {:induction false} DestroyedAll(c: Cache, list: seq<PageId>, remove: bool)
    requires WellFormed(c.store) && Destroyable(c.store, list, remove)
    ensures forall p :: p in list ==> p in c.store.pages
    ensures
      var d := DestroyAll(c, list, remove);
      && Destroyed(c.store, d.store, list)
      && d == c.(store := d.store, bytesUsed := d.bytesUsed)
      && d.bytesUsed == c.bytesUsed - SizesOf(c.store, list, IdleOf(c.store, list))
    decreases |list|
  {
    assert forall p :: p in list ==> MayDestroy(c.store, p, remove);
    if list == [] {
      assert IdleOf(c.store, list) == {};
      SiftedNone(c.store.stack, {});
    } else {
      DestroyableKept(c, list, remove);
      DestroyedOne(c, list[0], remove);
      var d := DestroyOne(c, list[0], remove);
      DestroyedAll(d, list[1..], remove);
      hide WellFormed, DestroyOne;
      DestroyedBoth(c.store, d.store, DestroyAll(c, list, remove).store, list);
    }
  }

  lemma DestroyedBoth(s: Store, t: Store, u: Store, list: seq<PageId>)
    requires Listed(s, list) && list != [] && Listed(t, list[1..])
    requires Destroyed(s, t, [list[0]]) && Destroyed(t, u, list[1..])
    ensures Destroyed(s, u, list)
    ensures SizesOf(s, list, IdleOf(s, list))
      == (if s.pages[list[0]].Idle() then s.pages[list[0]].seg.pageSize else 0)
         + SizesOf(t, list[1..], IdleOf(t, list[1..]))
  {
    IdleBoth(s, t, list);
    var a, b := IdleOf(s, [list[0]]), IdleOf(t, list[1..]);
    SiftedTwice(s.stack, a, b);
    RecordsBoth(s, t, u, list);
    hide IdleOf, SizesOf;
  }

  lemma RecordsBoth(s: Store, t: Store, u: Store, list: seq<PageId>)
    requires Listed(s, list) && list != [] && Listed(t, list[1..])
    requires Destroyed(s, t, [list[0]]) && Destroyed(t, u, list[1..])
    ensures forall p :: p in u.pages ==>
      p in s.pages && u.pages[p] == if p in list then Doomed(s.pages[p]) else s.pages[p]
  {
    assert list == [list[0]] + list[1..];
    hide IdleOf, Sifted;
    forall p | p in u.pages ensures p in s.pages && u.pages[p] == if p in list then Doomed(s.pages[p]) else s.pages[p] {
      assert p in t.pages;
      if p == list[0] {
        assert p !in list[1..];
      }
    }
  }

  lemma IdleBoth(s: Store, t: Store, list: seq<PageId>)
    requires Listed(s, list) && list != [] && Listed(t, list[1..])
    requires forall p :: p in list[1..] ==> t.pages[p] == s.pages[p]
    ensures IdleOf(s, list) == IdleOf(s, [list[0]]) + IdleOf(t, list[1..])
    ensures SizesOf(s, list, IdleOf(s, list))
      == (if s.pages[list[0]].Idle() then s.pages[list[0]].seg.pageSize else 0)
         + SizesOf(t, list[1..], IdleOf(t, list[1..]))
  {
    assert list == [list[0]] + list[1..];
    SameSizes(s, t, list[1..], IdleOf(s, list), IdleOf(t, list[1..]));
  }

  /** A destruction: the listed pages that nobody uses leave; the others are doomed; no other page is touched. */
  lemma DestroyEffect(c: Cache, list: seq<PageId>, remove: bool)
    requires Inv(c) && Destroyable(c.store, list, remove)
    ensures Listed(c.store, list)
    ensures
      var d := DestroyAll(c, list, remove);
      && Destroyed(c.store, d.store, list)
      && d.bytesUsed == c.bytesUsed - SizesOf(c.store, list, IdleOf(c.store, list))
      && d.threads == c.threads && d.pendingTasks == c.pendingTasks
  {
    DestroyedAll(c, list, remove);
  }

  // ---------------------------------------------------------------- making a page

  /**
   A page of the segment has been made: new, on top, clean, idle, never used,
   in no index; nothing else has changed.
   */
  ghost predicate Made(c: Cache, d: Cache, seg: Segment, p: PageId) {
    && p !in c.store.pages && p !in c.store.stack
    && d.store.stack == [p] + c.store.stack
    && d.store.index == c.store.index
    && p in d.store.pages && d.store.pages - {p} == c.store.pages
    && var page := d.store.pages[p];
    && page.seg == seg && page.offset < 0 && page.linked && page.empty
    && page.Idle() && !page.dirty && !page.toRelease && !page.Aged()
    && d.bytesUsed == c.bytesUsed + seg.pageSize
  }

  lemma NewPageEffect(c: Cache, seg: Segment)
    requires Inv(c)
    ensures Made(c, NewPage(c, seg), seg, c.nextPage) && NewPage(c, seg).threads == c.threads
  {
  }

  /** Room is made only when there is too little, and there is enough then exactly when none is reported missing. */
  lemma RoomEffect(c: Cache, seg: Segment)
    requires Inv(c) && Bounded(c) && SmallPages(seg)
    requires forall p :: p in c.store.pages ==> SmallPages(c.store.pages[p].seg)
    ensures
      var (d, left) := MakeRoom(c, seg);
      && (c.bytesUsed + seg.pageSize <= c.maxBytes ==> d == c)
      && (left <= 0 <==> d.bytesUsed + seg.pageSize <= c.maxBytes)
      && d.threads == c.threads
  {
    var need := seg.pageSize + c.bytesUsed - c.maxBytes;
    if need > 0 {
      FreedSmall(c.store, need);
      hide Inv, WellFormed, RunAll, ToInt;
      CountIsItself(need - RunAll(StartRun(c.store), need).total);
    }
  }

  /** What is freed overshoots the target by less than a page. */
  lemma FreedSmall(s: Store, need: int)
    requires WellFormed(s) && 0 < need && forall p :: p in s.pages ==> SmallPages(s.pages[p].seg)
    ensures 0 <= RunAll(StartRun(s), need).total < need + MAX_INT
  {
    FreesNoMoreThanNeeded(s, need);
    OpportunisticFreeing(s, need);
    hide WellFormed, RunAll;
  }

  lemma CountIsItself(x: int)
    requires -MAX_INT <= x <= MAX_INT
    ensures ToInt(x) == x
  {
  }

  /** One turn of a blocking request: it ends with a page made when none is missing, and waits otherwise. */
  lemma CreateEffect(c: Cache, t: Tid)
    requires Inv(c) && t in c.threads && c.threads[t].Creating?
    ensures
      var seg := c.threads[t].seg;
      var (room, left) := MakeRoom(c, seg);
      var d := CreateTurn(c, t);
      if left <= 0 then
        Made(room, d, seg, c.nextPage) && d.threads == c.threads - {t}
      else
        && d.store == room.store && d.bytesUsed == room.bytesUsed
        && d.threads == c.threads[t := Awaiting(seg, c.threads[t].onTop)]
  {
    MakeRoomKeeps(c, c.threads[t].seg);
    NewPageEffect(MakeRoom(c, c.threads[t].seg).0, c.threads[t].seg);
    hide Inv, WellFormed;
  }

  lemma RequestEffect(c: Cache, seg: Segment)
    requires Inv(c)
    ensures
      var (room, left) := MakeRoom(c, seg);
      var d := RequestNow(c, seg);
      && d.threads == c.threads
      && if left <= 0 then Made(room, d, seg, c.nextPage) else d == room
  {
    MakeRoomKeeps(c, seg);
    NewPageEffect(MakeRoom(c, seg).0, seg);
    hide Inv, WellFormed;
  }

  // ---------------------------------------------------------------- touching a page

  /** A use marks the page; the second and later ones put it on top, the others keeping their order. */
  lemma AccessEffect(c: Cache, p: PageId)
    requires Inv(c) && p in c.store.pages
    ensures
      var d := Access(c, p);
      var page := c.store.pages[p];
      && d == c.(store := d.store)
      && d.store.index == c.store.index
      && d.store.pages == (if page.linked then c.store.pages[p := page.(accessed := true)] else c.store.pages)
      && d.store.stack == (if page.linked && page.accessed then [p] + Sifted(c.store.stack, {p}) else c.store.stack)
  {
    if c.store.pages[p].linked {
      WithoutIsSifted(c.store.stack, PositionOf(c.store, p));
    }
  }

  // ---------------------------------------------------------------- where threads find themselves

  /** A waiting thread asks for just what it lacks, or tries again when it lacks nothing. */
  lemma AwaitEffect(c: Cache, t: Tid)
    requires Inv(c) && t in c.threads && c.threads[t].Awaiting?
    ensures
      var th, d := c.threads[t], AwaitTurn(c, t);
      && d == c.(threads := d.threads) && d.threads.Keys == c.threads.Keys
      && (forall u :: u in c.threads && u != t ==> d.threads[u] == c.threads[u])
      && (c.bytesUsed + th.seg.pageSize <= c.maxBytes ==> d.threads[t] == Creating(th.seg, true))
      && (c.bytesUsed + th.seg.pageSize > c.maxBytes ==>
            && d.threads[t].Forcing?
            && var f := d.threads[t].f;
            && f.seg == th.seg && f.onTop == th.onTop && f.got == 0 && !f.parked
            && c.bytesUsed - f.want + th.seg.pageSize == c.maxBytes)
  {
  }

  /** A thread that is back from an attempt with `freed` more, on a cache `c` that it has finished with. */
  ghost predicate Back(c: Cache, d: Cache, t: Tid, f: Force, freed: int)
    requires t in c.threads
  {
    && d.store == c.store && d.bytesUsed == c.bytesUsed && t in d.threads && d.threads.Keys == c.threads.Keys
    && if f.got + freed < f.want then
         && d.threads[t] == Parked(Force(f.seg, f.onTop, f.want, f.got + freed, true), false)
         && (forall u :: u in c.threads && u != t ==> d.threads[u] == c.threads[u])
         && |d.pendingTasks| == |c.pendingTasks| + 1
         && (f.parked ==> d.pendingTasks[0] == t && d.pendingTasks[1..] == c.pendingTasks)
         && (!f.parked ==>
               d.pendingTasks[|c.pendingTasks|] == t && d.pendingTasks[..|c.pendingTasks|] == c.pendingTasks)
       else
         && d.threads[t] == Forced(f.seg, f.onTop, f.want, f.got + freed)
         && (f.onTop ==>
               && d.pendingTasks == c.pendingTasks
               && forall u :: u in c.threads && u != t ==> d.threads[u] == c.threads[u])
         && (!f.onTop ==> Signalled(c.(threads := c.threads[t := Forced(f.seg, f.onTop, f.want, f.got + freed)]), d))
  }

  lemma ReturnEffect(c: Cache, t: Tid, f: Force, freed: int)
    requires Inv(c) && t in c.threads && c.threads[t].Credit() == 0
    ensures Back(c, ForceReturns(c, t, f, freed), t, f, freed)
  {
    if f.got + freed < f.want {
      ParkedEffect(c, t, f, freed);
    } else if !f.onTop {
      ReturnedEffect(c, t, f, freed);
    } else {
      hide Inv, ProcessWaiters;
    }
  }

  lemma ParkedEffect(c: Cache, t: Tid, f: Force, freed: int)
    requires t in c.threads && f.got + freed < f.want
    ensures Back(c, ForceReturns(c, t, f, freed), t, f, freed)
  {
    hide ProcessWaiters, Signalled;
    var d := ForceReturns(c, t, f, freed);
    if f.parked {
      assert d.pendingTasks[1..] == c.pendingTasks;
    } else {
      assert d.pendingTasks[..|c.pendingTasks|] == c.pendingTasks;
    }
  }

  lemma ReturnedEffect(c: Cache, t: Tid, f: Force, freed: int)
    requires Inv(c) && t in c.threads && c.threads[t].Credit() == 0 && f.got + freed >= f.want && !f.onTop
    ensures Back(c, ForceReturns(c, t, f, freed), t, f, freed)
  {
    var th := Forced(f.seg, f.onTop, f.want, f.got + freed);
    var d := c.(threads := c.threads[t := th]);
    hide Inv, ProcessWaiters;
    ThreadMoves(c, t, th);
    SignalEffect(d);
    assert d.threads[t] == th && ForceReturns(c, t, f, freed) == ProcessWaiters(d);
  }

  /**
   An attempt gets what leaves the stack, whether freed or put into release. With nothing to flush, what
   was freed leaves bytes_used at once; otherwise the thread drops the lock with both counts in hand.
   When nothing left the stack it gets what it asked for if there is plenty, and else nothing.
   */
  ghost predicate Outcome(c: Cache, d: Cache, t: Tid, f: Force, flushes: bool, freed: int, got: int)
    requires t in c.threads
  {
    if flushes then
      && d == c.(store := d.store, threads := d.threads)
      && d.threads == c.threads[t := Flushing(f, freed, got)]
    else
      Back(c.(store := d.store, bytesUsed := c.bytesUsed - freed), d, t, f,
           if got > 0 then got
           else if c.bytesUsed == 0 || c.maxBytes - c.bytesUsed > 10 * (f.want - f.got) then f.want - f.got
           else 0)
  }

  lemma AttemptEffect(c: Cache, t: Tid)
    requires Inv(c) && t in c.threads && c.threads[t].Forcing?
    ensures WellFormed(c.store) && AttemptTurn(c, t).store == Scanned(c, c.threads[t].f).store
    ensures OutcomeOf(c, AttemptTurn(c, t), t, c.threads[t].f, Scanned(c, c.threads[t].f).table != map[])
  {
    hide Inv, WellFormed, Scanned, AfterScan, Outcome, OutcomeOf, PageBytes, StackBytes;
    AttemptSums(c, c.threads[t].f);
    SumsDecide(c, t, c.threads[t].f, Scanned(c, c.threads[t].f), AttemptTurn(c, t));
  }

  lemma SumsDecide(c: Cache, t: Tid, f: Force, s: Scan, d: Cache)
    requires t in c.threads && c.threads[t] == Forcing(f) && d == AfterScan(c, t, f, s)
    requires Summed(c, s)
    ensures d.store == s.store && OutcomeOf(c, d, t, f, s.table != map[])
  {
    hide Inv, AfterScan, Outcome, PageBytes, StackBytes;
    AfterScanEffect(c, t, f, s, PageBytes(c.store.pages) - PageBytes(s.store.pages),
                    StackBytes(c.store.pages) - StackBytes(s.store.pages));
  }

  /** The counts of a scan are the bytes that left memory and the stack. */
  ghost predicate Summed(c: Cache, s: Scan) {
    && s.freed >= 0 && s.pending >= 0
    && s.freed == PageBytes(c.store.pages) - PageBytes(s.store.pages)
    && s.freed + s.pending == StackBytes(c.store.pages) - StackBytes(s.store.pages)
    && (s.table != map[] ==> s.pending > 0)
    && Inv(c.(store := s.store, bytesUsed := c.bytesUsed - s.freed))
  }

  /** The outcome in bytes that left memory, and bytes that left the stack. */
  ghost predicate OutcomeOf(c: Cache, d: Cache, t: Tid, f: Force, flushes: bool)
    requires t in c.threads
  {
    Outcome(c, d, t, f, flushes, PageBytes(c.store.pages) - PageBytes(d.store.pages),
            StackBytes(c.store.pages) - StackBytes(d.store.pages))
  }

  lemma AttemptSums(c: Cache, f: Force)
    requires Inv(c)
    ensures WellFormed(c.store)
    ensures
      var s := Scanned(c, f);
      && s.freed >= 0 && s.pending >= 0
      && s.freed == PageBytes(c.store.pages) - PageBytes(s.store.pages)
      && s.freed + s.pending == StackBytes(c.store.pages) - StackBytes(s.store.pages)
      && (s.table != map[] ==> s.pending > 0)
      && Inv(c.(store := s.store, bytesUsed := c.bytesUsed - s.freed))
  {
    SoundStore(c);
    hide Inv, WellFormed, ScanAll, PageBytes, StackBytes;
    ScannedKeeps(c, f);
    ForcedScanBooks(c.store, f.want - f.got, f.seg.pageSize);
    ForcedScanTakes(c.store, f.want - f.got, f.seg.pageSize);
  }

  lemma AfterScanEffect(c: Cache, t: Tid, f: Force, s: Scan, freed: int, got: int)
    requires t in c.threads && c.threads[t] == Forcing(f)
    requires 0 <= freed == s.freed && got == s.freed + s.pending >= freed && (s.table != map[] ==> s.pending > 0)
    requires Inv(c.(store := s.store, bytesUsed := c.bytesUsed - s.freed))
    ensures
      var d := AfterScan(c, t, f, s);
      d.store == s.store && Outcome(c, d, t, f, s.table != map[], freed, got)
  {
    hide Inv, ForceReturns, Back;
    if s.table == map[] {
      var told := if got == 0 then ClaimedForNothing(c, f.want - f.got) else got;
      var e := c.(store := s.store, bytesUsed := c.bytesUsed - freed);
      ReturnEffect(e, t, f, told);
      ReturnKeepsStore(e, t, f);
      assert AfterScan(c, t, f, s) == ForceReturns(e, t, f, told) by {
        var d := c.(store := s.store);
        assert s.freed == 0 ==> d == e;
        assert e == d.(bytesUsed := d.bytesUsed - s.freed);
      }
    }
  }

  /** After the flushes what was freed leaves bytes_used, and the thread gets all that left the stack. */
  lemma FlushDoneEffect(c: Cache, t: Tid)
    requires Inv(c) && t in c.threads && c.threads[t].Flushing?
    ensures
      var th := c.threads[t];
      Back(c.(bytesUsed := c.bytesUsed - th.credit), FlushDone(c, t), t, th.f, th.total)
  {
    CreditedSound(c, t);
    hide Inv, WellFormed, ForceReturns, Back;
    var th := c.threads[t];
    ReturnFrom(c.(bytesUsed := c.bytesUsed - th.credit), t, th.f, th.total);
  }

  lemma ReturnFrom(c: Cache, t: Tid, f: Force, freed: int)
    requires t in c.threads && Inv(c.(threads := c.threads[t := Forcing(f)]))
    ensures Back(c, ForceReturns(c, t, f, freed), t, f, freed)
  {
    hide Inv, ForceReturns, Back;
    var d := c.(threads := c.threads[t := Forcing(f)]);
    ReturnEffect(d, t, f, freed);
    ForceReturnsForgets(c, d, t, f, freed);
    SameBack(c, d, ForceReturns(c, t, f, freed), t, f, freed);
  }

  /** What the thread was before plays no part. */
  lemma SameBack(c: Cache, d: Cache, e: Cache, t: Tid, f: Force, freed: int)
    requires t in c.threads && d == c.(threads := c.threads[t := Forcing(f)])
    requires Back(d, e, t, f, freed)
    ensures Back(c, e, t, f, freed)
  {
    var th := Forced(f.seg, f.onTop, f.want, f.got + freed);
    assert c.threads[t := th] == d.threads[t := th];
    assert c.(threads := c.threads[t := th]) == d.(threads := d.threads[t := th]);
    hide Signalled;
  }

  lemma CreditedSound(c: Cache, t: Tid)
    requires Inv(c) && t in c.threads && c.threads[t].Flushing?
    ensures
      var th := c.threads[t];
      Inv(c.(bytesUsed := c.bytesUsed - th.credit, threads := c.threads[t := Forcing(th.f)]))
  {
    CreditsReplaced(c.threads, t, Forcing(c.threads[t].f));
    hide WellFormed;
  }

  /** A thread back from forcing has all it asked for, and goes to see whether that is enough. */
  lemma ForcedEffect(c: Cache, t: Tid)
    requires Inv(c) && t in c.threads && c.threads[t].Forced?
    ensures
      var th := c.threads[t];
      && th.needed <= th.got
      && ForcedTurn(c, t) == c.(threads := c.threads[t := Awaiting(th.seg, th.onTop)])
  {
    assert ThreadSound(c.threads[t]);
  }

  /** A woken thread carries on with what it has got so far. */
  lemma WakeEffect(c: Cache, t: Tid)
    requires Inv(c) && t in c.threads && c.threads[t].Parked?
    ensures
      var d := Woken(c, t);
      && d == c.(threads := d.threads) && d.threads.Keys == c.threads.Keys
      && (forall u :: u in c.threads && u != t ==> d.threads[u] == c.threads[u])
      && d.threads[t].Forcing? && d.threads[t].f == c.threads[t].f
  {
  }
}
