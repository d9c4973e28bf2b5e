/**
 The AMP page cache as a transition system (cache_amp.c). Each operation is one stretch of
 code that runs under the cache lock; the places where the source lets go of the lock, or
 waits on a condition, are states a thread can rest in. The model also allows other threads
 to run at the heads of the source's retry loops, where the lock is in fact still held, so it
 has every interleaving of the source and more.
 */
module AmpProtocol {
  import opened Sequences
  import opened AmpStore
  import opened AmpScan

  type Tid = nat

  const MAX_INT := 0x7fff_ffff

  /** The value of a 64-bit ex_off_t once it is returned as a 32-bit int. */
  function ToInt(x: int): int {
    (x + 0x8000_0000) % 0x1_0000_0000 - 0x8000_0000
  }

  /** A call of _amp_force_free_mem: what it has to free, what it has, and whether it has parked. */
  datatype Force = Force(seg: Segment, onTop: bool, want: int, got: int, parked: bool)

  /** Where a thread is inside a blocking _amp_create_empty_page. */
  datatype Thread =
    | Creating(seg: Segment, onTop: bool)                      // head of the loop at 1125
    | Awaiting(seg: Segment, onTop: bool)                      // head of the loop at 1081
    | Forcing(f: Force)                                        // about to scan, 1028 and 1049
    | Flushing(f: Force, credit: int, total: int)              // lock dropped, 986-993
    | Parked(f: Force, signalled: bool)                        // waiting its turn, 1046
    | Forced(seg: Segment, onTop: bool, needed: int, got: int) // back from forcing, 1084
    | Queued(seg: Segment, signalled: bool)                    // waiting for space, 1094
  {
    /** Bytes already out of memory that this thread has yet to take off bytes_used (line 1004). */
    function Credit(): int {
      if Flushing? then credit else 0
    }
  }

  datatype Cache = Cache(
    store: Store,
    bytesUsed: int,
    maxBytes: int,
    dirtyBytes: int,
    dirtyTrigger: int,
    nextPage: nat,
    threads: map<Tid, Thread>,
    pendingTasks: seq<Tid>,
    waiting: seq<Tid>)

  // ---------------------------------------------------------------- the locked sections

  /** _amp_new_page, 328-355: the page goes to the top of the stack under a made-up offset. */
  function NewPage(c: Cache, seg: Segment): Cache {
    var p := c.nextPage;
    var page := Page(seg, -1001 - p, false, true, false, false, false, 0, 0, 0, true);
    c.(store := Store(c.store.pages[p := page], [p] + c.store.stack, c.store.index),
       bytesUsed := c.bytesUsed + seg.pageSize,
       nextPage := p + 1)
  }

  /** _amp_free_mem, 780-830: the cache afterwards and the bytes still to be freed, as an int. */
  ghost function FreeMem(c: Cache, need: int): (Cache, int)
    requires WellFormed(c.store)
  {
    var r := RunAll(StartRun(c.store), need);
    (c.(store := r.store, bytesUsed := c.bytesUsed - r.total), ToInt(need - r.total))
  }

  /** The body of the loop of _amp_create_empty_page up to the wait, 1126-1131. */
  ghost function MakeRoom(c: Cache, seg: Segment): (Cache, int)
    requires WellFormed(c.store)
  {
    var toFree := seg.pageSize + c.bytesUsed - c.maxBytes;
    if toFree > 0 then FreeMem(c, toFree) else (c, toFree)
  }

  /** A non-blocking request, 1113-1142: a page, or nothing at all. */
  ghost function RequestNow(c: Cache, seg: Segment): Cache
    requires WellFormed(c.store)
  {
    var (d, left) := MakeRoom(c, seg);
    if left <= 0 then NewPage(d, seg) else d
  }

  /** One turn of a blocking request's outer loop. */
  ghost function CreateTurn(c: Cache, t: Tid): Cache
    requires WellFormed(c.store) && t in c.threads && c.threads[t].Creating?
  {
    var th := c.threads[t];
    var (d, left) := MakeRoom(c, th.seg);
    if left <= 0 then
      NewPage(d, th.seg).(threads := d.threads - {t})
    else
      d.(threads := d.threads[t := Awaiting(th.seg, th.onTop)])
  }

  /** The test of the loop of _amp_wait_for_page, 1080-1084. */
  function AwaitTurn(c: Cache, t: Tid): Cache
    requires t in c.threads && c.threads[t].Awaiting?
  {
    var th := c.threads[t];
    var free := c.maxBytes - c.bytesUsed;
    c.(threads := c.threads[t :=
      if th.seg.pageSize > free then
        Forcing(Force(th.seg, th.onTop, th.seg.pageSize - free, 0, false))
      else
        Creating(th.seg, true)])
  }

  /** What _amp_attempt_free_mem claims when its scan found nothing, 954-962. */
  function ClaimedForNothing(c: Cache, need: int): int {
    if c.bytesUsed == 0 || c.maxBytes - c.bytesUsed > 10 * need then need else 0
  }

  /** The scan of _amp_attempt_free_mem, 864-951, for what a forcing thread still wants. */
  ghost function Scanned(c: Cache, f: Force): Scan
    requires WellFormed(c.store)
  {
    ScanAll(StartScan(c.store, f.seg.pageSize), f.want - f.got)
  }

  /** _amp_attempt_free_mem up to the point where it drops the lock or returns, 837-986. */
  ghost function AttemptTurn(c: Cache, t: Tid): Cache
    requires WellFormed(c.store) && t in c.threads && c.threads[t].Forcing?
  {
    AfterScan(c, t, c.threads[t].f, Scanned(c, c.threads[t].f))
  }

  /** What becomes of a scan's result: nothing found, all freed on the spot, or flushes to wait for. */
  function AfterScan(c: Cache, t: Tid, f: Force, s: Scan): Cache {
    var d := c.(store := s.store);
    if s.freed + s.pending == 0 then
      ForceReturns(d, t, f, ClaimedForNothing(d, f.want - f.got))
    else if s.table == map[] then
      ForceReturns(d.(bytesUsed := d.bytesUsed - s.freed), t, f, s.freed + s.pending)
    else
      d.(threads := d.threads[t := Flushing(f, s.freed, s.freed + s.pending)])
  }

  /** The rest of _amp_attempt_free_mem, once the flushes are in and the lock is back, 993-1011. */
  function FlushDone(c: Cache, t: Tid): Cache
    requires t in c.threads && c.threads[t].Flushing?
  {
    var th := c.threads[t];
    ForceReturns(c.(bytesUsed := c.bytesUsed - th.credit), t, th.f, th.total)
  }

  /** _amp_force_free_mem after an attempt: park again or return to the caller, 1028-1057. */
  function ForceReturns(c: Cache, t: Tid, f: Force, freed: int): Cache {
    var got := f.got + freed;
    if got < f.want then
      c.(threads := c.threads[t := Parked(f.(got := got, parked := true), false)],
         pendingTasks := if f.parked then [t] + c.pendingTasks else c.pendingTasks + [t])
    else
      var d := c.(threads := c.threads[t := Forced(f.seg, f.onTop, f.want, got)]);
      if f.onTop then d else ProcessWaiters(d)
  }

  /** The test on what _amp_force_free_mem returned, 1086-1098. */
  function ForcedTurn(c: Cache, t: Tid): Cache
    requires t in c.threads && c.threads[t].Forced?
  {
    var th := c.threads[t];
    if th.got < th.needed then
      c.(threads := c.threads[t := Queued(th.seg, false)],
         waiting := if th.onTop then [t] + c.waiting else c.waiting + [t])
    else
      c.(threads := c.threads[t := Awaiting(th.seg, th.onTop)])
  }

  /** _amp_process_waiters, 361-401: wake every parked thread, and the first queued one that fits. */
  function ProcessWaiters(c: Cache): Cache {
    var woken := map t | t in c.threads :: Wakened(c.threads[t], t in c.pendingTasks);
    var d := c.(threads := woken, pendingTasks := []);
    if c.waiting == [] then d
    else
      var first := c.waiting[0];
      if first in woken && woken[first].Queued? && woken[first].seg.pageSize <= c.maxBytes - c.bytesUsed then
        d.(threads := woken[first := Queued(woken[first].seg, true)], waiting := c.waiting[1..])
      else
        d
  }

  function Wakened(th: Thread, inQueue: bool): Thread {
    if th.Parked? && inQueue then Parked(th.f, true) else th
  }

  /** One page of _amp_pages_release, 613-637. */
  ghost function ReleaseOne(c: Cache, p: PageId): Cache
    requires WellFormed(c.store) && p in c.store.pages
  {
    var page := c.store.pages[p];
    if page.toRelease then
      c.(store := FreePage(c.store, p, page.offset > -1), bytesUsed := c.bytesUsed - page.seg.pageSize)
    else
      c
  }

  /** Live pages, each listed once. */
  ghost predicate Listed(s: Store, list: seq<PageId>) {
    Distinct(list) && forall p :: p in list ==> p in s.pages
  }

  lemma ReleaseOneSound(c: Cache, list: seq<PageId>)
    requires WellFormed(c.store) && Listed(c.store, list) && list != []
    ensures WellFormed(ReleaseOne(c, list[0]).store) && Listed(ReleaseOne(c, list[0]).store, list[1..])
  {
    if c.store.pages[list[0]].toRelease {
      FreePageSound(c.store, list[0], c.store.pages[list[0]].offset > -1);
      hide WellFormed;
    }
  }

  /** The loop of _amp_pages_release. */
  ghost function ReleaseAll(c: Cache, list: seq<PageId>): Cache
    requires WellFormed(c.store) && Listed(c.store, list)
    decreases |list|
  {
    if list == [] then c
    else
      ReleaseOneSound(c, list);
      ReleaseAll(ReleaseOne(c, list[0]), list[1..])
  }

  /** _amp_pages_release, 605-643: the lock is held from the first page to the signal. */
  ghost function Release(c: Cache, list: seq<PageId>): Cache
    requires WellFormed(c.store) && Listed(c.store, list)
  {
    ProcessWaiters(ReleaseAll(c, list))
  }

  /** One page of _amp_pages_destroy, 665-692. */
  ghost function DestroyOne(c: Cache, p: PageId, remove: bool): Cache
    requires WellFormed(c.store) && p in c.store.pages
  {
    var page := c.store.pages[p];
    if page.Idle() then
      c.(store := FreePage(c.store, p, remove), bytesUsed := c.bytesUsed - page.seg.pageSize)
    else
      c.(store := c.store.(pages := c.store.pages[p := page.(dirty := false, empty := false, toRelease := true)]))
  }

  /** A page handed to _amp_pages_destroy to be left in the index must not be in the index. */
  ghost predicate MayDestroy(s: Store, p: PageId, remove: bool) {
    && p in s.pages
    && (remove || forall e :: e in s.index ==> e.page != p)
  }

  /** Pages that may be destroyed, each listed once. */
  ghost predicate Destroyable(s: Store, list: seq<PageId>, remove: bool) {
    Distinct(list) && forall p :: p in list ==> MayDestroy(s, p, remove)
  }

  lemma DestroyOneSound(c: Cache, p: PageId, remove: bool)
    requires WellFormed(c.store) && MayDestroy(c.store, p, remove)
    ensures WellFormed(DestroyOne(c, p, remove).store)
  {
    if c.store.pages[p].Idle() {
      FreePageSound(c.store, p, remove);
    }
  }

  lemma DestroyableKept(c: Cache, list: seq<PageId>, remove: bool)
    requires WellFormed(c.store) && Destroyable(c.store, list, remove) && list != []
    ensures MayDestroy(c.store, list[0], remove)
    ensures WellFormed(DestroyOne(c, list[0], remove).store)
    ensures Destroyable(DestroyOne(c, list[0], remove).store, list[1..], remove)
  {
    assert MayDestroy(c.store, list[0], remove);
    DestroyOneSound(c, list[0], remove);
    hide WellFormed;
    var s := DestroyOne(c, list[0], remove).store;
    forall p | p in list[1..] ensures MayDestroy(s, p, remove) {
      assert MayDestroy(c.store, p, remove) && p != list[0];
    }
  }

  /** The loop of _amp_pages_destroy, 654-697, under the lock throughout. */
  ghost function DestroyAll(c: Cache, list: seq<PageId>, remove: bool): Cache
    requires WellFormed(c.store) && Destroyable(c.store, list, remove)
    decreases |list|
  {
    if list == [] then c
    else
      DestroyableKept(c, list, remove);
      DestroyAll(DestroyOne(c, list[0], remove), list[1..], remove)
  }

  /** The part of _amp_page_access that moves the page, 713-732 and 768. */
  ghost function Access(c: Cache, p: PageId): Cache
    requires WellFormed(c.store) && p in c.store.pages
  {
    var s := c.store;
    var page := s.pages[p];
    if !page.linked then c
    else
      c.(store := Store(
        s.pages[p := page.(accessed := true)],
        if page.accessed then [p] + Without(s.stack, PositionOf(s, p)) else s.stack,
        s.index))
  }

  /** What the code around the cache may do to page bits, counts, offsets and indexes. */
  ghost predicate OutsideChange(s: Store, t: Store) {
    && t.stack == s.stack
    && t.pages.Keys == s.pages.Keys
    && (forall p :: p in s.pages ==> t.pages[p].seg == s.pages[p].seg && t.pages[p].linked == s.pages[p].linked)
    && IndexSound(t)
  }

  // ---------------------------------------------------------------- operations and runs

  datatype Op =
    | OpRequestNow(seg: Segment)
    | OpRequest(t: Tid, seg: Segment)
    | OpCreate(t: Tid)
    | OpAwait(t: Tid)
    | OpAttempt(t: Tid)
    | OpFlushDone(t: Tid)
    | OpForced(t: Tid)
    | OpWake(t: Tid)
    | OpRelease(list: seq<PageId>)
    | OpDestroy(list: seq<PageId>, remove: bool)
    | OpAccess(page: PageId)
    | OpOutside(store: Store, dirtyBytes: int)

  ghost predicate Enabled(c: Cache, op: Op)
    requires WellFormed(c.store)
  {
    match op
    case OpRequestNow(seg) => true
    case OpRequest(t, seg) => t !in c.threads
    case OpCreate(t) => t in c.threads && c.threads[t].Creating?
    case OpAwait(t) => t in c.threads && c.threads[t].Awaiting?
    case OpAttempt(t) => t in c.threads && c.threads[t].Forcing?
    case OpFlushDone(t) => t in c.threads && c.threads[t].Flushing?
    case OpForced(t) => t in c.threads && c.threads[t].Forced?
    case OpWake(t) => t in c.threads && (c.threads[t].Parked? || c.threads[t].Queued?)
    case OpRelease(list) => Listed(c.store, list)
    case OpDestroy(list, remove) => Destroyable(c.store, list, remove)
    case OpAccess(p) => p in c.store.pages
    case OpOutside(s, dirty) => OutsideChange(c.store, s)
  }

  /** A woken thread goes round its own loop again; a condition may also wake it unasked. */
  function Woken(c: Cache, t: Tid): Cache
    requires t in c.threads && (c.threads[t].Parked? || c.threads[t].Queued?)
  {
    c.(threads := c.threads[t :=
      if c.threads[t].Parked? then Forcing(c.threads[t].f) else Awaiting(c.threads[t].seg, true)])
  }

  ghost function Apply(c: Cache, op: Op): Cache
    requires WellFormed(c.store) && Enabled(c, op)
  {
    match op
    case OpRequestNow(seg) => RequestNow(c, seg)
    case OpRequest(t, seg) => c.(threads := c.threads[t := Creating(seg, false)])
    case OpCreate(t) => CreateTurn(c, t)
    case OpAwait(t) => AwaitTurn(c, t)
    case OpAttempt(t) => AttemptTurn(c, t)
    case OpFlushDone(t) => FlushDone(c, t)
    case OpForced(t) => ForcedTurn(c, t)
    case OpWake(t) => Woken(c, t)
    case OpRelease(list) => Release(c, list)
    case OpDestroy(list, remove) => DestroyAll(c, list, remove)
    case OpAccess(p) => Access(c, p)
    case OpOutside(s, dirty) => c.(store := s, dirtyBytes := dirty)
  }
}
