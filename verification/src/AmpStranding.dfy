/**
 Who will wake a thread that has parked in forced eviction (cache_amp.c:1031-1050)? A page in release
 does when it leaves (line 640), and a thread that is flushing may when it is done (line 1053). This
 module says exactly which steps leave a parked thread with neither.
 */
module AmpStranding {
  import opened Totals
  import opened AmpStore
  import opened AmpScan
  import opened AmpProtocol
  import opened AmpInvariant
  import opened AmpRuns

  ghost predicate Waits(c: Cache, t: Tid) {
    t in c.threads && c.threads[t].Parked? && !c.threads[t].signalled
  }

  ghost predicate SomeoneWaits(c: Cache) {
    exists t :: Waits(c, t)
  }

  ghost predicate Flushes(c: Cache, t: Tid) {
    t in c.threads && c.threads[t].Flushing?
  }

  /** The page is on its way out of memory: in limbo or not, its release will send the signal. */
  ghost predicate Leaves(s: Store, p: PageId) {
    p in s.pages && s.pages[p].toRelease
  }

  ghost predicate HasLeaving(s: Store) {
    exists p :: Leaves(s, p)
  }

  ghost predicate HasFlusher(c: Cache) {
    exists t :: Flushes(c, t)
  }

  /**
   A thread waits for a signal, and neither a page in release nor a flush is there to send one. A thread
   that is forcing now, or has been signalled, may still send one when it returns (line 1053), if it is
   one that signals; where no such thread is left, as after SecondRequest below, nobody is.
   */
  ghost predicate Stranded(c: Cache) {
    SomeoneWaits(c) && !HasLeaving(c.store) && !HasFlusher(c)
  }

  /** What an attempt is taken to have freed when it unlinked nothing. */
  function Reported(c: Cache, need: int, freed: int): int {
    if freed == 0 then ClaimedForNothing(c, need) else freed
  }

  /**
   The steps that strand someone. An attempt does when it takes no page into release and falls short;
   the end of a flush, when what it released has left already and it is the last flush, if it falls
   short, or if it belongs to a thread that signals nobody; destroying the last page in release does,
   because a destruction signals nobody; and so would clearing the last flag from outside.
   */
  ghost predicate Strands(c: Cache, op: Op)
    requires WellFormed(c.store) && Enabled(c, op)
  {
    match op
    case OpAttempt(t) =>
      var f := c.threads[t].f;
      && !HasLeaving(c.store) && !HasFlusher(c)
      && AllFree(c.store)
      && f.got + Reported(c, f.want - f.got, StackBytes(c.store.pages) - Kept(c.store)) < f.want
    case OpFlushDone(t) =>
      var th := c.threads[t];
      && !HasLeaving(c.store) && (forall u :: Flushes(c, u) ==> u == t)
      && (th.f.got + th.total < th.f.want || (th.f.onTop && SomeoneWaits(c)))
    case OpDestroy(list, remove) =>
      && SomeoneWaits(c) && !HasFlusher(c)
      && (forall p :: p in list ==> c.store.pages[p].Idle())
      && (forall p :: Leaves(c.store, p) ==> p in list)
    case OpOutside(s, dirty) => SomeoneWaits(c) && !HasFlusher(c) && !HasLeaving(s)
    case _ => false
  }

  // ---------------------------------------------------------------- freeing all there is

  /** The top page is the only one on the stack that was never used: a scan sends it round and leaves it. */
  ghost predicate TopIsSpared(s: Store)
    requires WellFormed(s)
  {
    && s.stack != []
    && !s.pages[s.stack[0]].Aged()
    && forall k :: 1 <= k < |s.stack| ==> s.pages[s.stack[k]].Aged()
  }

  /** What a scan spares of the stack. */
  ghost function Kept(s: Store): int
    requires WellFormed(s)
  {
    if TopIsSpared(s) then s.pages[s.stack[0]].seg.pageSize else 0
  }

  /** Every page on the stack that is not spared is clean and idle. */
  ghost predicate AllFree(s: Store)
    requires WellFormed(s)
  {
    forall k :: 0 <= k < |s.stack| && (k == 0 ==> !TopIsSpared(s)) ==>
      s.pages[s.stack[k]].Idle() && !s.pages[s.stack[k]].dirty
  }

  // ---------------------------------------------------------------- scans and pages in release

  /** A forced scan leaves pages in release alone, and puts those it unlinks into release. */
  lemma LeavingStep(c: Scan)
    requires ScanReady(c) && c.cursor >= 0
    ensures forall p :: Leaves(c.store, p) ==> Leaves(ScanStep(c).store, p)
    ensures HasLeaving(ScanStep(c).store) <==> HasLeaving(c.store) || ScanStep(c).pending > c.pending
  {
    var d, p := ScanStep(c), c.store.stack[c.cursor];
    forall q | q != p ensures Leaves(c.store, q) <==> Leaves(d.store, q) {
      OthersKept(c, q);
    }
    if c.store.pages[p].toRelease {
      assert Leaves(c.store, p) && Leaves(d.store, p);
    } else if d.pending > c.pending {
      assert Leaves(d.store, p);
    } else {
      assert !Leaves(c.store, p) && !Leaves(d.store, p);
    }
  }

  lemma {:induction false} LeavingAfter(c: Scan, need: int)
    requires ScanReady(c)
    ensures c.pending <= ScanAll(c, need).pending
    ensures forall p :: Leaves(c.store, p) ==> Leaves(ScanAll(c, need).store, p)
    ensures HasLeaving(ScanAll(c, need).store) <==> HasLeaving(c.store) || ScanAll(c, need).pending > c.pending
    decreases Fresh(c.store), c.cursor + 1
  {
    if c.freed + c.pending < need && c.cursor >= 0 {
      ScanStepProgress(c);
      BytesKept(c);
      LeavingStep(c);
      hide HasLeaving, ScanStep, Leaves;
      LeavingAfter(ScanStep(c), need);
    }
  }

  /** With no page in release, the cursor starts and stays on the bottom page. */
  ghost predicate AtBottom(c: Scan) {
    ScanReady(c) && c.cursor == |c.store.stack| - 1 && !HasLeaving(c.store) && c.pending == 0
  }

  /** What a scan that unlinks nothing will have freed when it runs to the end. */
  ghost function AllThereIs(c: Scan): int
    requires ScanReady(c)
  {
    c.freed + StackBytes(c.store.pages) - Kept(c.store)
  }

  lemma NoLinkedPages(s: Store)
    requires WellFormed(s) && s.stack == []
    ensures StackBytes(s.pages) == 0
  {
    assert StackSizes(s.pages) == map[];
  }

  lemma KeptIsOnStack(s: Store)
    requires WellFormed(s)
    ensures 0 <= Kept(s) <= StackBytes(s.pages)
  {
    TotalNonNegative(StackSizes(s.pages));
    if TopIsSpared(s) {
      var p := s.stack[0];
      BytesMinus(s.pages, p);
      TotalNonNegative(StackSizes(s.pages - {p}));
    }
  }

  /** A never used page that is not alone in the way goes to the top and becomes one of the others. */
  lemma SentRound(c: Scan)
    requires AtBottom(c) && c.cursor > 0 && !c.store.pages[c.store.stack[c.cursor]].Aged()
    ensures
      var d := ScanStep(c);
      AtBottom(d) && AllThereIs(d) == AllThereIs(c) && (AllFree(d.store) <==> AllFree(c.store))
  {
    var s, i := c.store, c.cursor;
    assert !Leaves(s, s.stack[i]);
    SentStep(c);
    AgedStack(s, i);
    FreeAfterAging(s, AgeAt(s, i), i);
    hide WellFormed, HasLeaving, AllFree, TopIsSpared, ScanStep, AgeAt;
    ScanStepProgress(c);
    LeavingStep(c);
    AgeAtKeeps(s, i);
  }

  lemma SentStep(c: Scan)
    requires ScanReady(c) && c.cursor > 0
    requires var page := c.store.pages[c.store.stack[c.cursor]]; !page.toRelease && !page.Aged()
    ensures
      var d := ScanStep(c);
      && d.store == AgeAt(c.store, c.cursor)
      && d.cursor == c.cursor && d.freed == c.freed && d.pending == c.pending
  {
  }

  lemma AgedStack(s: Store, i: nat)
    requires WellFormed(s) && i == |s.stack| - 1
    ensures
      var t := AgeAt(s, i);
      && WellFormed(t)
      && |t.stack| == |s.stack|
      && t.stack[0] == s.stack[i]
      && forall k :: 1 <= k < |t.stack| ==> t.stack[k] == s.stack[k - 1]
  {
    AgeAtSound(s, i);
  }

  lemma FreeAfterAging(s: Store, t: Store, i: nat)
    requires WellFormed(s) && WellFormed(t) && 0 < i == |s.stack| - 1 && |t.stack| == |s.stack|
    requires !s.pages[s.stack[i]].Aged()
    requires t.stack[0] == s.stack[i] && forall k :: 1 <= k < |t.stack| ==> t.stack[k] == s.stack[k - 1]
    requires t.pages == s.pages[s.stack[i] := s.pages[s.stack[i]].(recycled := true)]
    ensures !TopIsSpared(s) && !TopIsSpared(t) && (AllFree(t) <==> AllFree(s))
  {
    assert t.pages[t.stack[0]].Aged();
    hide WellFormed;
    forall k | 0 <= k < |s.stack|
      ensures var q := if k == i then 0 else k + 1; t.stack[q] == s.stack[k]
    {
    }
    if AllFree(t) {
      forall k | 0 <= k < |s.stack| ensures s.pages[s.stack[k]].Idle() && !s.pages[s.stack[k]].dirty {
        var q := if k == i then 0 else k + 1;
        assert t.pages[t.stack[q]].Idle() && !t.pages[t.stack[q]].dirty;
      }
    }
  }

  /** An aged page that is clean and idle is freed, and there is that much less to free. */
  lemma FreedNow(c: Scan)
    requires AtBottom(c) && c.cursor >= 0 && c.store.pages[c.store.stack[c.cursor]].Evictable()
    ensures
      var d := ScanStep(c);
      AtBottom(d) && AllThereIs(d) == AllThereIs(c) && (AllFree(d.store) <==> AllFree(c.store))
  {
    var s, i := c.store, c.cursor;
    assert !Leaves(s, s.stack[i]);
    FreedStep(c);
    DropAtSound(s, i);
    FreeAfterDropping(s, DropAt(s, i), i);
    hide WellFormed, HasLeaving, AllFree, Kept, ScanStep, DropAt;
    ScanStepProgress(c);
    LeavingStep(c);
    DropAtKeeps(s, i);
  }

  lemma FreedStep(c: Scan)
    requires ScanReady(c) && c.cursor == |c.store.stack| - 1 >= 0
    requires var page := c.store.pages[c.store.stack[c.cursor]]; !page.toRelease && page.Evictable()
    ensures
      var d := ScanStep(c);
      && d.store == DropAt(c.store, c.cursor) && d.store.stack == c.store.stack[..c.cursor]
      && d.cursor == c.cursor - 1 && d.pending == c.pending
      && d.freed == c.freed + c.store.pages[c.store.stack[c.cursor]].seg.pageSize
  {
  }

  lemma FreeAfterDropping(s: Store, t: Store, i: nat)
    requires WellFormed(s) && WellFormed(t) && i == |s.stack| - 1 && t.stack == s.stack[..i]
    requires s.pages[s.stack[i]].Evictable() && t.pages == s.pages - {s.stack[i]}
    ensures (TopIsSpared(t) <==> TopIsSpared(s)) && Kept(t) == Kept(s) && (AllFree(t) <==> AllFree(s))
  {
    assert forall k :: 0 <= k < |t.stack| ==> t.stack[k] == s.stack[k] && t.pages[t.stack[k]] == s.pages[s.stack[k]];
    hide WellFormed;
  }

  /** An aged page that is dirty or in use goes into limbo, and the scan counts bytes as pending. */
  lemma CountedAsPending(c: Scan, need: int)
    requires AtBottom(c) && c.cursor >= 0 && c.freed < need
    requires var page := c.store.pages[c.store.stack[c.cursor]]; page.Aged() && !page.Evictable()
    ensures ScanAll(c, need).pending > 0 && !AllFree(c.store)
  {
    var p := c.store.stack[c.cursor];
    assert !Leaves(c.store, p);
    ScanStepProgress(c);
    LeavingAfter(ScanStep(c), need);
    hide HasLeaving, ScanAll;
    assert !(c.cursor == 0 && TopIsSpared(c.store));
  }

  /**
   A scan that starts on the bottom page with no page in release unlinks nothing and falls short exactly
   when every page but a spared one is clean and idle, and all of them together are not enough. Then it
   frees them all.
   */
  lemma {:induction false} FallsShort(c: Scan, need: int)
    requires AtBottom(c)
    ensures
      var d := ScanAll(c, need);
      && (d.pending == 0 && d.freed < need <==> AllFree(c.store) && AllThereIs(c) < need)
      && (d.pending == 0 && d.freed < need ==> d.freed == AllThereIs(c))
    decreases Fresh(c.store), c.cursor + 1
  {
    KeptIsOnStack(c.store);
    if c.cursor < 0 {
      NoLinkedPages(c.store);
    } else if c.freed < need {
      var page := c.store.pages[c.store.stack[c.cursor]];
      assert !Leaves(c.store, c.store.stack[c.cursor]);
      ScanStepProgress(c);
      if page.Evictable() {
        FreedNow(c);
        hide AtBottom, AllThereIs, AllFree, ScanStep;
        FallsShort(ScanStep(c), need);
      } else if page.Aged() {
        CountedAsPending(c, need);
      } else if c.cursor > 0 {
        SentRound(c);
        hide AtBottom, AllThereIs, AllFree, ScanStep;
        FallsShort(ScanStep(c), need);
      } else {
        OnlyOne(c.store);
      }
    }
  }

  lemma OnlyOne(s: Store)
    requires WellFormed(s) && |s.stack| == 1 && !s.pages[s.stack[0]].Aged()
    ensures TopIsSpared(s) && AllFree(s) && StackBytes(s.pages) == Kept(s)
  {
    var p := s.stack[0];
    BytesMinus(s.pages, p);
    assert StackSizes(s.pages - {p}) == map[];
  }

  /** Making room takes no page that is in release. */
  lemma LeavingStays(c: Cache, seg: Segment)
    requires Inv(c)
    ensures HasLeaving(MakeRoom(c, seg).0.store) <==> HasLeaving(c.store)
  {
    var need := seg.pageSize + c.bytesUsed - c.maxBytes;
    if need > 0 {
      OpportunisticFreeing(c.store, need);
      var s := MakeRoom(c, seg).0.store;
      forall p ensures Leaves(c.store, p) <==> Leaves(s, p) {
      }
    }
  }

  lemma LeavingAdded(c: Cache, seg: Segment)
    requires Inv(c)
    ensures HasLeaving(NewPage(c, seg).store) <==> HasLeaving(c.store)
  {
    forall p ensures Leaves(c.store, p) <==> Leaves(NewPage(c, seg).store, p) {
    }
  }

  // ---------------------------------------------------------------- each step

  /** After a signal nobody waits. */
  lemma NobodyWaits(c: Cache)
    requires Inv(c)
    ensures !SomeoneWaits(ProcessWaiters(c))
  {
    forall t ensures !Waits(ProcessWaiters(c), t) {
      if t in c.threads && c.threads[t].Parked? {
        SignalReachesAll(c, t);
      }
    }
  }

  /** Replacing one thread's state by one that neither waits nor flushes, where none did. */
  lemma OthersStay(c: Cache, d: Cache, t: Tid)
    requires forall u :: u != t ==>
      (u in c.threads <==> u in d.threads) && (u in c.threads ==> c.threads[u] == d.threads[u])
    requires !Flushes(c, t) && !Flushes(d, t) && !Waits(d, t)
    ensures HasFlusher(c) <==> HasFlusher(d)
    ensures SomeoneWaits(d) ==> SomeoneWaits(c)
  {
    forall u ensures (Flushes(c, u) <==> Flushes(d, u)) && (Waits(d, u) ==> Waits(c, u)) {
    }
  }

  lemma SameThreads(c: Cache, d: Cache)
    requires c.threads == d.threads
    ensures (SomeoneWaits(c) <==> SomeoneWaits(d)) && (HasFlusher(c) <==> HasFlusher(d))
  {
    forall t ensures (Waits(c, t) <==> Waits(d, t)) && (Flushes(c, t) <==> Flushes(d, t)) {
    }
  }

  lemma RequestStrandsNobody(c: Cache, seg: Segment)
    requires Inv(c) && !Stranded(c)
    ensures !Stranded(RequestNow(c, seg))
  {
    var d := MakeRoom(c, seg).0;
    MakeRoomKeeps(c, seg);
    LeavingStays(c, seg);
    LeavingAdded(d, seg);
    hide Inv, WellFormed, MakeRoom, HasLeaving, HasFlusher, SomeoneWaits;
    SameThreads(c, RequestNow(c, seg));
  }

  lemma CreateStrandsNobody(c: Cache, t: Tid)
    requires Inv(c) && t in c.threads && c.threads[t].Creating? && !Stranded(c)
    ensures !Stranded(CreateTurn(c, t))
  {
    var d := MakeRoom(c, c.threads[t].seg).0;
    MakeRoomKeeps(c, c.threads[t].seg);
    LeavingStays(c, c.threads[t].seg);
    LeavingAdded(d, c.threads[t].seg);
    hide Inv, WellFormed, MakeRoom, HasLeaving, HasFlusher, SomeoneWaits;
    OthersStay(c, CreateTurn(c, t), t);
  }

  lemma AttemptStrands(c: Cache, t: Tid)
    requires Inv(c) && t in c.threads && c.threads[t].Forcing? && !Stranded(c)
    ensures Stranded(AttemptTurn(c, t)) <==> Strands(c, OpAttempt(t))
  {
    assert ThreadSound(c.threads[t]);
    hide Inv, WellFormed, ScanAll, HasLeaving, HasFlusher, AfterScan, Stranded, AllFree, Kept;
    ScanFacts(c, c.threads[t].f);
    AfterScanStrands(c, t, c.threads[t].f, Scanned(c, c.threads[t].f));
    if !HasLeaving(c.store) {
      AttemptFallsShort(c, c.threads[t].f);
    }
  }

  /** What a forcing thread will be told it got, read off the store before its attempt. */
  lemma AttemptFallsShort(c: Cache, f: Force)
    requires Inv(c) && f.got < f.want && !HasLeaving(c.store)
    ensures WellFormed(c.store)
    ensures
      var s := Scanned(c, f);
      var need := f.want - f.got;
      (s.pending == 0 && f.got + Reported(c, need, s.freed) < f.want) <==>
        (AllFree(c.store) && f.got + Reported(c, need, StackBytes(c.store.pages) - Kept(c.store)) < f.want)
  {
    SoundStore(c);
    hide Inv, WellFormed, ScanAll, HasLeaving, AllFree, Kept, StackBytes;
    var start := StartScan(c.store, f.seg.pageSize);
    assert AtBottom(start);
    FallsShort(start, f.want - f.got);
    KeptIsOnStack(c.store);
    ScanFacts(c, f);
    var s := Scanned(c, f);
    SameReport(c, f, s.pending == 0, s.freed, AllFree(c.store), StackBytes(c.store.pages) - Kept(c.store));
  }

  /** Two counts that agree when they fall short are reported alike. */
  lemma SameReport(c: Cache, f: Force, a: bool, x: int, b: bool, y: int)
    requires f.got < f.want && 0 <= x && 0 <= y
    requires a && x < f.want - f.got <==> b && y < f.want - f.got
    requires a && x < f.want - f.got ==> x == y
    ensures
      var need := f.want - f.got;
      a && f.got + Reported(c, need, x) < f.want <==> b && f.got + Reported(c, need, y) < f.want
  {
  }

  lemma ScanFacts(c: Cache, f: Force)
    requires Inv(c)
    ensures WellFormed(c.store)
    ensures
      var s := Scanned(c, f);
      && s.freed >= 0 && s.pending >= 0 && (s.table != map[] ==> s.pending > 0)
      && (HasLeaving(s.store) <==> HasLeaving(c.store) || s.pending > 0)
  {
    SoundStore(c);
    hide Inv, WellFormed, ScanAll, HasLeaving;
    ForcedScanBooks(c.store, f.want - f.got, f.seg.pageSize);
    LeavingAfter(StartScan(c.store, f.seg.pageSize), f.want - f.got);
  }

  /** A thread that flushes is not stranded, and strands nobody. */
  lemma AfterScanStrands(c: Cache, t: Tid, f: Force, s: Scan)
    requires Inv(c) && t in c.threads && c.threads[t] == Forcing(f) && !Stranded(c)
    requires s.freed >= 0 && s.pending >= 0 && (s.table != map[] ==> s.pending > 0)
    requires HasLeaving(s.store) <==> HasLeaving(c.store) || s.pending > 0
    ensures Stranded(AfterScan(c, t, f, s)) <==>
      && !HasLeaving(c.store) && !HasFlusher(c) && s.pending == 0
      && f.got + Reported(c, f.want - f.got, s.freed) < f.want
  {
    var d := c.(store := s.store);
    hide HasLeaving, WellFormed;
    if HasLeaving(s.store) {
      assert AfterScan(c, t, f, s).store == s.store by {
        ReturnKeepsStore(d, t, f);
        ReturnKeepsStore(d.(bytesUsed := d.bytesUsed - s.freed), t, f);
      }
    } else {
      var freed := Reported(c, f.want - f.got, s.freed);
      ReturnStrands(c, d.(bytesUsed := d.bytesUsed - s.freed), t, f, freed);
    }
  }

  /** With no page in release, returning from an attempt strands someone when the thread parks. */
  lemma ReturnStrands(c: Cache, d: Cache, t: Tid, f: Force, freed: int)
    requires Inv(c) && t in c.threads && !c.threads[t].Flushing? && !Stranded(c) && !HasLeaving(c.store)
    requires d == c.(store := d.store, bytesUsed := d.bytesUsed) && !HasLeaving(d.store)
    ensures Stranded(ForceReturns(d, t, f, freed)) <==> !HasFlusher(c) && f.got + freed < f.want
  {
    var e := ForceReturns(d, t, f, freed);
    assert e.store == d.store;
    forall u | u != t ensures Flushes(c, u) <==> Flushes(e, u) {
    }
    assert !Flushes(c, t) && !Flushes(e, t);
    assert HasFlusher(c) <==> HasFlusher(e);
    if f.got + freed < f.want {
      assert Waits(e, t);
    } else {
      forall u ensures Waits(e, u) ==> Waits(c, u) {
      }
    }
  }

  lemma FlushDoneStrands(c: Cache, t: Tid)
    requires Inv(c) && t in c.threads && c.threads[t].Flushing? && !Stranded(c)
    ensures Stranded(FlushDone(c, t)) <==> Strands(c, OpFlushDone(t))
  {
    var th := c.threads[t];
    var d := FlushDone(c, t);
    ReturnKeepsStore(c.(bytesUsed := c.bytesUsed - th.credit), t, th.f);
    assert d.store == c.store;
    forall u ensures Flushes(d, u) <==> u != t && Flushes(c, u) {
    }
    assert HasFlusher(d) <==> exists u :: u != t && Flushes(c, u);
    if th.f.got + th.total < th.f.want {
      assert Waits(d, t);
    } else {
      FlushedWaits(c, t);
    }
    hide HasLeaving, WellFormed;
  }

  lemma FlushedWaits(c: Cache, t: Tid)
    requires Inv(c) && t in c.threads && c.threads[t].Flushing?
    requires c.threads[t].f.got + c.threads[t].total >= c.threads[t].f.want
    ensures SomeoneWaits(FlushDone(c, t)) <==> c.threads[t].f.onTop && SomeoneWaits(c)
  {
    var d := FlushDone(c, t);
    forall u ensures Waits(d, u) <==> c.threads[t].f.onTop && Waits(c, u) {
    }
  }

  /** What is in release once these pages have been destroyed. */
  lemma {:induction false} LeavingDestroyed(c: Cache, list: seq<PageId>, remove: bool)
    requires WellFormed(c.store) && Destroyable(c.store, list, remove)
    ensures
      var d := DestroyAll(c, list, remove);
      && d.threads == c.threads
      && forall p :: Leaves(d.store, p) <==>
           if p in list then !c.store.pages[p].Idle() else Leaves(c.store, p)
    decreases |list|
  {
    if list != [] {
      DestroyableKept(c, list, remove);
      assert MayDestroy(c.store, list[0], remove);
      var e := DestroyOne(c, list[0], remove);
      LeavingDestroyedOne(c, list[0], remove);
      hide WellFormed;
      LeavingDestroyed(e, list[1..], remove);
      forall p ensures Leaves(DestroyAll(c, list, remove).store, p) <==>
        if p in list then !c.store.pages[p].Idle() else Leaves(c.store, p)
      {
        assert p in list <==> p == list[0] || p in list[1..];
      }
    }
  }

  lemma LeavingDestroyedOne(c: Cache, p: PageId, remove: bool)
    requires WellFormed(c.store) && MayDestroy(c.store, p, remove)
    ensures
      var d := DestroyOne(c, p, remove);
      && d.threads == c.threads
      && (Leaves(d.store, p) <==> !c.store.pages[p].Idle())
      && (forall q :: q != p ==> (q in d.store.pages <==> q in c.store.pages))
      && (forall q :: q != p && q in c.store.pages ==> d.store.pages[q] == c.store.pages[q])
  {
  }

  lemma DestroyStrands(c: Cache, list: seq<PageId>, remove: bool)
    requires Inv(c) && Destroyable(c.store, list, remove) && !Stranded(c)
    ensures Stranded(DestroyAll(c, list, remove)) <==> Strands(c, OpDestroy(list, remove))
  {
    SoundStore(c);
    hide Inv, WellFormed, Destroyable, DestroyAll, Leaves, HasLeaving, HasFlusher, SomeoneWaits;
    var d := DestroyAll(c, list, remove);
    LeavingDestroyed(c, list, remove);
    Listing(c.store, list, remove);
    LeavingLeft(c.store, d.store, list);
    SameThreads(c, d);
  }

  lemma Listing(s: Store, list: seq<PageId>, remove: bool)
    requires Destroyable(s, list, remove)
    ensures forall p :: p in list ==> p in s.pages
  {
  }

  lemma LeavingLeft(s: Store, t: Store, list: seq<PageId>)
    requires forall p :: p in list ==> p in s.pages
    requires forall p :: Leaves(t, p) <==> if p in list then !s.pages[p].Idle() else Leaves(s, p)
    ensures HasLeaving(t) <==>
      !((forall p :: p in list ==> s.pages[p].Idle()) && (forall p :: Leaves(s, p) ==> p in list))
  {
    hide Leaves;
    if p :| p in list && !s.pages[p].Idle() {
      assert Leaves(t, p);
    }
    if p :| Leaves(s, p) && p !in list {
      assert Leaves(t, p);
    }
  }

  lemma ReleaseStrandsNobody(c: Cache, list: seq<PageId>)
    requires Inv(c) && Listed(c.store, list)
    ensures !Stranded(Release(c, list))
  {
    ReleaseAllKeeps(c, list);
    NobodyWaits(ReleaseAll(c, list));
  }

  /** Steps that neither park a thread nor end a flush, nor touch the pages in release. */
  lemma QuietStep(c: Cache, d: Cache, t: Tid)
    requires !Stranded(c) && (HasLeaving(c.store) ==> HasLeaving(d.store))
    requires forall u :: u != t ==>
      (u in c.threads <==> u in d.threads) && (u in c.threads ==> c.threads[u] == d.threads[u])
    requires !Flushes(c, t) && !Flushes(d, t) && !Waits(d, t)
    ensures !Stranded(d)
  {
    OthersStay(c, d, t);
  }

  lemma AccessStrandsNobody(c: Cache, p: PageId)
    requires Inv(c) && p in c.store.pages && !Stranded(c)
    ensures !Stranded(Access(c, p))
  {
    var d := Access(c, p);
    forall q ensures Leaves(c.store, q) <==> Leaves(d.store, q) {
    }
    SameThreads(c, d);
  }

  lemma QuietOp(c: Cache, op: Op)
    requires WellFormed(c.store) && Enabled(c, op) && !Stranded(c)
    requires op.OpRequest? || op.OpAwait? || op.OpForced? || op.OpWake?
    ensures !Stranded(Apply(c, op))
  {
    hide WellFormed, HasLeaving, HasFlusher, SomeoneWaits;
    QuietStep(c, Apply(c, op), op.t);
  }

  /** From a state where nobody is stranded, a step strands someone exactly when it is one of those. */
  lemma StrandsExactlyWhen(c: Cache, op: Op)
    requires Inv(c) && Enabled(c, op) && !Stranded(c)
    ensures Stranded(Apply(c, op)) <==> Strands(c, op)
  {
    SoundStore(c);
    hide Inv, WellFormed, HasLeaving, HasFlusher, SomeoneWaits, AllFree, Kept, MakeRoom;
    hide Release, DestroyAll, AttemptTurn, FlushDone, AwaitTurn, ForcedTurn, Woken, Stranded;
    match op
    case OpRequestNow(seg) => RequestStrandsNobody(c, seg);
    case OpRequest(t, seg) => QuietOp(c, op);
    case OpCreate(t) => CreateStrandsNobody(c, t);
    case OpAwait(t) => QuietOp(c, op);
    case OpAttempt(t) => AttemptStrands(c, t);
    case OpFlushDone(t) => FlushDoneStrands(c, t);
    case OpForced(t) => QuietOp(c, op);
    case OpWake(t) => QuietOp(c, op);
    case OpRelease(list) => ReleaseStrandsNobody(c, list);
    case OpDestroy(list, remove) => DestroyStrands(c, list, remove);
    case OpAccess(p) => AccessStrandsNobody(c, p);
    case OpOutside(s, dirty) => SameThreads(c, Apply(c, op));
  }

  // ---------------------------------------------------------------- runs

  ghost predicate NobodyStranded(c: Cache, ops: seq<Op>)
    requires Legal(c, ops)
    decreases |ops|
  {
    !Stranded(c) && (ops == [] || NobodyStranded(Apply(c, ops[0]), ops[1..]))
  }

  ghost predicate NoneStrands(c: Cache, ops: seq<Op>)
    requires Legal(c, ops)
    decreases |ops|
  {
    ops == [] || (!Strands(c, ops[0]) && NoneStrands(Apply(c, ops[0]), ops[1..]))
  }

  /**
   Over every run: at all times a parked thread that has not been signalled has a page in release or
   a flush to wait for, exactly when none of those steps is taken.
   */
  lemma {:induction false} StrandedExactlyWhen(c: Cache, ops: seq<Op>)
    requires Inv(c) && !Stranded(c) && Legal(c, ops)
    ensures NobodyStranded(c, ops) <==> NoneStrands(c, ops)
    decreases |ops|
  {
    if ops != [] {
      StrandsExactlyWhen(c, ops[0]);
      ApplyKeeps(c, ops[0]);
      hide Strands, Stranded, Apply, Enabled, Inv;
      if !Strands(c, ops[0]) {
        StrandedExactlyWhen(Apply(c, ops[0]), ops[1..]);
      }
    }
  }

  /** An attempt that strands its thread leaves at most one page on the stack, one just aged. */
  lemma StrandedWithOnePage(c: Cache, t: Tid)
    requires Inv(c) && t in c.threads && c.threads[t].Forcing? && Strands(c, OpAttempt(t))
    ensures
      var s := Scanned(c, c.threads[t].f).store;
      && |s.stack| <= 1
      && forall p :: p in s.stack ==>
           p in s.pages && s.pages[p].recycled && p in c.store.pages && !c.store.pages[p].Aged()
  {
    var f := c.threads[t].f;
    assert ThreadSound(c.threads[t]);
    SoundStore(c);
    hide Inv, WellFormed, ScanAll, HasLeaving, HasFlusher, AllFree, Kept;
    AttemptFallsShort(c, f);
    ScanFacts(c, f);
    OnePageLeft(c.store, f.want - f.got, f.seg.pageSize);
  }

  lemma OnePageLeft(s: Store, need: int, pageSize: PageSize)
    requires WellFormed(s)
    ensures
      var c := ScanAll(StartScan(s, pageSize), need);
      c.freed + c.pending < need && !HasLeaving(c.store) ==>
        && |c.store.stack| <= 1
        && forall p :: p in c.store.stack ==>
             p in c.store.pages && c.store.pages[p].recycled && p in s.pages && !s.pages[p].Aged()
  {
    ForcedEviction(s, need, pageSize);
    var c := ScanAll(StartScan(s, pageSize), need);
    if c.freed + c.pending < need && !HasLeaving(c.store) {
      hide ScanAll, Fate, HasLeaving;
      if c.store.stack != [] {
        var last: nat := |c.store.stack| - 1;
        assert Stuck(s, c.store, last);
        NotLeaving(c.store, c.store.stack[last]);
        assert last == 0;
      }
    }
  }

  lemma NotLeaving(s: Store, p: PageId)
    requires !HasLeaving(s)
    ensures p in s.pages ==> !s.pages[p].toRelease
  {
    assert !Leaves(s, p);
  }

  // ---------------------------------------------------------------- it happens

  /** One page that fills the cache and was never used, and a second request for such a page. */
  function SecondRequest(seg: Segment): seq<Op> {
    [OpRequestNow(seg), OpRequest(0, seg), OpCreate(0), OpAwait(0), OpAttempt(0)]
  }

  /** The cache after the first of these. */
  function FullCache(seg: Segment): Cache {
    NewPage(EmptyCache(seg.pageSize, 0), seg)
  }

  lemma FullCacheSound(seg: Segment)
    ensures Inv(FullCache(seg)) && RequestNow(EmptyCache(seg.pageSize, 0), seg) == FullCache(seg)
    ensures !HasLeaving(FullCache(seg).store)
  {
    EmptyCacheSound(seg.pageSize, 0);
    NewPageKeeps(EmptyCache(seg.pageSize, 0), seg);
  }

  /** The second request finds that it has to force. */
  lemma SecondHasToForce(seg: Segment)
    requires SmallPages(seg)
    ensures
      var c := FullCache(seg).(threads := map[0 := Creating(seg, false)]);
      && WellFormed(c.store)
      && CreateTurn(c, 0) == FullCache(seg).(threads := map[0 := Awaiting(seg, false)])
      && AwaitTurn(CreateTurn(c, 0), 0)
         == FullCache(seg).(threads := map[0 := Forcing(Force(seg, false, seg.pageSize, 0, false))])
  {
    FullCacheSound(seg);
    var c := FullCache(seg).(threads := map[0 := Creating(seg, false)]);
    assert !RunStep(StartRun(c.store)).stopped ==> false;
    assert RunAll(StartRun(c.store), seg.pageSize) == StartRun(c.store).(stopped := true);
  }

  /**
   Its attempt gives the page a second chance, takes nothing, and parks the thread with nobody to wake it:
   every thread there is waits.
   */
  lemma SecondRequestStrands(seg: Segment)
    requires SmallPages(seg)
    ensures
      var e := EmptyCache(seg.pageSize, 0);
      && Legal(e, SecondRequest(seg))
      && var c := Reached(e, SecondRequest(seg));
      && Stranded(c)
      && forall t :: t in c.threads ==> Waits(c, t)
  {
    var e := EmptyCache(seg.pageSize, 0);
    var c := FullCache(seg);
    var c1 := c.(threads := map[0 := Creating(seg, false)]);
    var c2 := c.(threads := map[0 := Awaiting(seg, false)]);
    var c3 := c.(threads := map[0 := Forcing(Force(seg, false, seg.pageSize, 0, false))]);
    SecondSteps(seg);
    SecondParks(seg, c3);
    hide WellFormed, Apply, Enabled, AttemptTurn, Stranded, Waits, FullCache;
    OneStep(c3, OpAttempt(0), []);
    OneStep(c2, OpAwait(0), [OpAttempt(0)] + []);
    OneStep(c1, OpCreate(0), [OpAwait(0)] + ([OpAttempt(0)] + []));
    OneStep(c, OpRequest(0, seg), [OpCreate(0)] + ([OpAwait(0)] + ([OpAttempt(0)] + [])));
    OneStep(e, OpRequestNow(seg), [OpRequest(0, seg)] + ([OpCreate(0)] + ([OpAwait(0)] + ([OpAttempt(0)] + []))));
    assert SecondRequest(seg)
      == [OpRequestNow(seg)] + ([OpRequest(0, seg)] + ([OpCreate(0)] + ([OpAwait(0)] + ([OpAttempt(0)] + []))));
  }

  lemma SecondSteps(seg: Segment)
    requires SmallPages(seg)
    ensures
      var e, c := EmptyCache(seg.pageSize, 0), FullCache(seg);
      var c1 := c.(threads := map[0 := Creating(seg, false)]);
      var c2 := c.(threads := map[0 := Awaiting(seg, false)]);
      var c3 := c.(threads := map[0 := Forcing(Force(seg, false, seg.pageSize, 0, false))]);
      && WellFormed(e.store) && Enabled(e, OpRequestNow(seg)) && Apply(e, OpRequestNow(seg)) == c
      && WellFormed(c.store) && Enabled(c, OpRequest(0, seg)) && Apply(c, OpRequest(0, seg)) == c1
      && Enabled(c1, OpCreate(0)) && Apply(c1, OpCreate(0)) == c2
      && Enabled(c2, OpAwait(0)) && Apply(c2, OpAwait(0)) == c3
      && Enabled(c3, OpAttempt(0)) && Apply(c3, OpAttempt(0)) == AttemptTurn(c3, 0)
  {
    EmptyCacheSound(seg.pageSize, 0);
    FullCacheSound(seg);
    SecondHasToForce(seg);
    SoundStore(EmptyCache(seg.pageSize, 0));
    SoundStore(FullCache(seg));
    hide Inv, WellFormed, RequestNow, CreateTurn, AwaitTurn, AttemptTurn, EmptyCache;
  }

  lemma SecondParks(seg: Segment, c: Cache)
    requires c == FullCache(seg).(threads := map[0 := Forcing(Force(seg, false, seg.pageSize, 0, false))])
    ensures WellFormed(c.store) && Stranded(AttemptTurn(c, 0))
    ensures forall t :: t in AttemptTurn(c, 0).threads ==> Waits(AttemptTurn(c, 0), t)
  {
    FullCacheSound(seg);
    var f := c.threads[0].f;
    var start := StartScan(c.store, seg.pageSize);
    ScanStepProgress(start);
    assert ScanAll(start, seg.pageSize) == ScanStep(start);
    var d := AttemptTurn(c, 0);
    assert Waits(d, 0);
  }
}
