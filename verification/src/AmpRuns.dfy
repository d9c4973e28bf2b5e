/** Whole runs of the AMP page cache: any number of operations, by any threads, in any order. */
module AmpRuns {
  import opened AmpStore
  import opened AmpScan
  import opened AmpProtocol
  import opened AmpInvariant

  function EmptyCache(maxBytes: int, dirtyTrigger: int): Cache {
    Cache(Store(map[], [], {}), 0, maxBytes, 0, dirtyTrigger, 0, map[], [], [])
  }

  lemma EmptyCacheSound(maxBytes: int, dirtyTrigger: int)
    ensures Inv(EmptyCache(maxBytes, dirtyTrigger))
  {
    var c := EmptyCache(maxBytes, dirtyTrigger);
    assert PageSizes(c.store.pages) == map[];
    assert CreditMap(c.threads) == map[];
  }

  /** Every operation of the run is one that can happen in the state it happens in. */
  ghost predicate Legal(c: Cache, ops: seq<Op>)
    decreases |ops|
  {
    ops == [] || (WellFormed(c.store) && Enabled(c, ops[0]) && Legal(Apply(c, ops[0]), ops[1..]))
  }

  /** The state a run ends in. A prefix of a run is a run, so this is any reachable state. */
  ghost function Reached(c: Cache, ops: seq<Op>): Cache
    requires Legal(c, ops)
    decreases |ops|
  {
    if ops == [] then c else Reached(Apply(c, ops[0]), ops[1..])
  }

  /** A run begins with its first operation. */
  lemma OneStep(c: Cache, op: Op, ops: seq<Op>)
    requires WellFormed(c.store) && Enabled(c, op) && Legal(Apply(c, op), ops)
    ensures Legal(c, [op] + ops) && Reached(c, [op] + ops) == Reached(Apply(c, op), ops)
  {
    assert ([op] + ops)[1..] == ops;
    hide WellFormed, Enabled, Apply;
  }

  lemma {:induction false} ReachedSound(c: Cache, ops: seq<Op>)
    requires Inv(c) && Legal(c, ops)
    ensures Inv(Reached(c, ops))
    decreases |ops|
  {
    if ops != [] {
      ApplyKeeps(c, ops[0]);
      ReachedSound(Apply(c, ops[0]), ops[1..]);
    }
  }

  // ---------------------------------------------------------------- the bound on memory

  /** The page sizes for which the 32-bit count of _amp_free_mem is the count itself. */
  predicate SmallPages(seg: Segment) {
    seg.pageSize <= MAX_INT
  }

  predicate SmallOp(op: Op) {
    match op
    case OpRequestNow(seg) => SmallPages(seg)
    case OpRequest(t, seg) => SmallPages(seg)
    case _ => true
  }

  function SegmentOf(th: Thread): Segment {
    match th
    case Creating(seg, _) => seg
    case Awaiting(seg, _) => seg
    case Forcing(f) => f.seg
    case Flushing(f, _, _) => f.seg
    case Parked(f, _) => f.seg
    case Forced(seg, _, _, _) => seg
    case Queued(seg, _) => seg
  }

  ghost predicate Bounded(c: Cache) {
    && c.bytesUsed <= c.maxBytes
    && (forall t :: t in c.threads ==> SmallPages(SegmentOf(c.threads[t])))
  }

  /** When the count left over is not positive there is room for the page. */
  lemma RoomMade(c: Cache, seg: Segment)
    requires Inv(c) && Bounded(c) && SmallPages(seg)
    ensures
      var (d, left) := MakeRoom(c, seg);
      && d.bytesUsed <= c.bytesUsed
      && d.threads == c.threads && d.maxBytes == c.maxBytes
      && (left <= 0 ==> d.bytesUsed + seg.pageSize <= d.maxBytes)
  {
    var need := seg.pageSize + c.bytesUsed - c.maxBytes;
    if need > 0 {
      OpportunisticFreeing(c.store, need);
      var left := need - RunAll(StartRun(c.store), need).total;
      SmallInt(left);
      hide WellFormed, RunAll, ToInt;
    }
  }

  /** A count that is a positive int is still one as an int. */
  lemma SmallInt(x: int)
    requires x <= MAX_INT
    ensures ToInt(x) <= 0 ==> x <= 0
  {
  }

  lemma ForceReturnsBounded(c: Cache, t: Tid, f: Force, freed: int)
    requires Bounded(c) && SmallPages(f.seg)
    ensures Bounded(ForceReturns(c, t, f, freed))
    ensures ForceReturns(c, t, f, freed).maxBytes == c.maxBytes
  {
  }

  lemma AttemptBounded(c: Cache, t: Tid)
    requires Inv(c) && Bounded(c) && t in c.threads && c.threads[t].Forcing?
    ensures Bounded(AttemptTurn(c, t)) && AttemptTurn(c, t).maxBytes == c.maxBytes
  {
    var f := c.threads[t].f;
    ScannedKeeps(c, f);
    assert SmallPages(SegmentOf(c.threads[t]));
    AfterScanBounded(c, t, f, Scanned(c, f));
  }

  lemma AfterScanBounded(c: Cache, t: Tid, f: Force, s: Scan)
    requires Bounded(c) && SmallPages(f.seg) && s.freed >= 0
    ensures Bounded(AfterScan(c, t, f, s)) && AfterScan(c, t, f, s).maxBytes == c.maxBytes
  {
    hide ForceReturns;
    var d := c.(store := s.store);
    ForceReturnsBounded(d, t, f, ClaimedForNothing(d, f.want - f.got));
    ForceReturnsBounded(d.(bytesUsed := d.bytesUsed - s.freed), t, f, s.freed + s.pending);
  }

  lemma FlushDoneBounded(c: Cache, t: Tid)
    requires Inv(c) && Bounded(c) && t in c.threads && c.threads[t].Flushing?
    ensures Bounded(FlushDone(c, t)) && FlushDone(c, t).maxBytes == c.maxBytes
  {
    var th := c.threads[t];
    assert ThreadSound(th) && SmallPages(SegmentOf(th));
    ForceReturnsBounded(c.(bytesUsed := c.bytesUsed - th.credit), t, th.f, th.total);
  }

  lemma SignalBounded(c: Cache)
    requires Bounded(c)
    ensures Bounded(ProcessWaiters(c)) && ProcessWaiters(c).maxBytes == c.maxBytes
  {
  }

  lemma ApplyBounded(c: Cache, op: Op)
    requires Inv(c) && Bounded(c) && Enabled(c, op) && SmallOp(op)
    ensures Bounded(Apply(c, op)) && Apply(c, op).maxBytes == c.maxBytes
  {
    SoundStore(c);
    hide Inv, WellFormed, MakeRoom, AttemptTurn, FlushDone, ProcessWaiters, ReleaseAll, DestroyAll;
    match op
    case OpRequestNow(seg) => RoomMade(c, seg);
    case OpCreate(t) => RoomMade(c, c.threads[t].seg);
    case OpAttempt(t) => AttemptBounded(c, t);
    case OpFlushDone(t) => FlushDoneBounded(c, t);
    case OpRelease(list) =>
      ReleaseAllKeeps(c, list);
      SignalBounded(ReleaseAll(c, list));
    case OpDestroy(list, remove) => DestroyAllKeeps(c, list, remove);
    case _ =>
  }

  /**
   Safety over whole runs. From an empty cache, through any interleaving of requests, waits,
   forced evictions, flushes, releases and destructions: bytes_used is the bytes of the live
   pages plus those freed and not yet credited; neither bytes_used nor the memory really held
   exceeds max_bytes; every index entry refers to a live page; no parked thread is off the
   list of those to signal; and no thread is ever on the waiting stack.
   */
  lemma {:induction false} EveryRun(maxBytes: nat, dirtyTrigger: int, ops: seq<Op>)
    requires Legal(EmptyCache(maxBytes, dirtyTrigger), ops)
    requires forall i :: 0 <= i < |ops| ==> SmallOp(ops[i])
    ensures
      var c := Reached(EmptyCache(maxBytes, dirtyTrigger), ops);
      && c.bytesUsed == PageBytes(c.store.pages) + Credits(c.threads)
      && PageBytes(c.store.pages) <= c.bytesUsed <= maxBytes
      && IndexSound(c.store)
      && Remembered(c)
      && c.waiting == []
      && (forall t :: t in c.threads ==> !c.threads[t].Queued?)
  {
    var e := EmptyCache(maxBytes, dirtyTrigger);
    EmptyCacheSound(maxBytes, dirtyTrigger);
    ReachedSound(e, ops);
    ReachedBounded(e, ops);
    CreditsNonNegative(Reached(e, ops).threads);
  }

  lemma {:induction false} ReachedBounded(c: Cache, ops: seq<Op>)
    requires Inv(c) && Bounded(c) && Legal(c, ops)
    requires forall i :: 0 <= i < |ops| ==> SmallOp(ops[i])
    ensures Bounded(Reached(c, ops)) && Reached(c, ops).maxBytes == c.maxBytes
    decreases |ops|
  {
    if ops != [] {
      ApplyKeeps(c, ops[0]);
      ApplyBounded(c, ops[0]);
      ReachedBounded(Apply(c, ops[0]), ops[1..]);
    }
  }

  /**
   The limit on page sizes is exact. The cache honours every configured max_bytes on its first
   page precisely when the page size is a 32-bit int; beyond that, _amp_free_mem's int result
   makes a shortage look like room.
   */
  lemma PageSizeLimit(seg: Segment)
    ensures
      (forall maxBytes: nat :: RequestNow(EmptyCache(maxBytes, 0), seg).bytesUsed <= maxBytes) <==> SmallPages(seg)
  {
    forall maxBytes: nat
      ensures RequestNow(EmptyCache(maxBytes, 0), seg).bytesUsed <= maxBytes
        <==> (seg.pageSize <= maxBytes || ToInt(seg.pageSize - maxBytes) > 0)
    {
    }
    if !SmallPages(seg) {
      var short: nat := seg.pageSize - 0x8000_0000;
      assert ToInt(0x8000_0000) < 0;
      assert RequestNow(EmptyCache(short, 0), seg).bytesUsed > short;
    }
  }

  // ---------------------------------------------------------------- dirty pages

  /** A dirty page leaves memory only when it is released or destroyed: no eviction ever frees it. */
  lemma DirtyPagesSurvive(c: Cache, op: Op, p: PageId)
    requires Inv(c) && Enabled(c, op) && p in c.store.pages && c.store.pages[p].dirty
    requires !(op.OpRelease? && p in op.list) && !(op.OpDestroy? && p in op.list)
    ensures p in Apply(c, op).store.pages
  {
    hide WellFormed, MakeRoom, Scanned, ForceReturns;
    match op
    case OpRequestNow(seg) => RoomKeepsDirty(c, seg, p);
    case OpCreate(t) => RoomKeepsDirty(c, c.threads[t].seg, p);
    case OpAttempt(t) =>
      var f := c.threads[t].f;
      var s := Scanned(c, f);
      ScanKeepsDirty(c, f, p);
      ReturnKeepsStore(c.(store := s.store), t, f);
      ReturnKeepsStore(c.(store := s.store).(bytesUsed := c.bytesUsed - s.freed), t, f);
    case OpFlushDone(t) => ReturnKeepsStore(c.(bytesUsed := c.bytesUsed - c.threads[t].credit), t, c.threads[t].f);
    case OpRelease(list) => UnlistedStay(c, list, p);
    case OpDestroy(list, remove) => UndestroyedStay(c, list, remove, p);
    case _ =>
  }

  lemma {:induction false} UnlistedStay(c: Cache, list: seq<PageId>, p: PageId)
    requires WellFormed(c.store) && Listed(c.store, list) && p in c.store.pages && p !in list
    ensures p in ReleaseAll(c, list).store.pages
    decreases |list|
  {
    if list != [] {
      ReleaseOneSound(c, list);
      hide WellFormed;
      UnlistedStay(ReleaseOne(c, list[0]), list[1..], p);
    }
  }

  lemma {:induction false} UndestroyedStay(c: Cache, list: seq<PageId>, remove: bool, p: PageId)
    requires WellFormed(c.store) && Destroyable(c.store, list, remove) && p in c.store.pages && p !in list
    ensures p in DestroyAll(c, list, remove).store.pages
    decreases |list|
  {
    if list != [] {
      DestroyableKept(c, list, remove);
      assert list[0] in c.store.pages;
      hide WellFormed, Destroyable;
      UndestroyedStay(DestroyOne(c, list[0], remove), list[1..], remove, p);
    }
  }

  lemma ReturnKeepsStore(c: Cache, t: Tid, f: Force)
    ensures forall freed :: ForceReturns(c, t, f, freed).store == c.store
  {
  }

  lemma ScanKeepsDirty(c: Cache, f: Force, p: PageId)
    requires Inv(c) && p in c.store.pages && c.store.pages[p].dirty
    ensures p in Scanned(c, f).store.pages
  {
    ForcedEviction(c.store, f.want - f.got, f.seg.pageSize);
    assert Fate(c.store.pages[p], Scanned(c, f).store.pages, Scanned(c, f).table, p);
  }

  lemma RoomKeepsDirty(c: Cache, seg: Segment, p: PageId)
    requires Inv(c) && p in c.store.pages && c.store.pages[p].dirty
    ensures p in MakeRoom(c, seg).0.store.pages
  {
    var need := seg.pageSize + c.bytesUsed - c.maxBytes;
    if need > 0 {
      OpportunisticFreeing(c.store, need);
    }
  }

  // ---------------------------------------------------------------- signals

  /** A release reaches every thread that waits its turn: after it no parked thread is unsignalled. */
  lemma SignalReachesAll(c: Cache, t: Tid)
    requires Inv(c) && t in c.threads && c.threads[t].Parked?
    ensures t in ProcessWaiters(c).threads && ProcessWaiters(c).threads[t] == Parked(c.threads[t].f, true)
  {
  }
}
