/**
 What every reachable state of the AMP page cache satisfies: bytes_used accounts for every
 byte, it stays within max_bytes, no parked thread is forgotten, and the waiting stack is
 never used.
 */
module AmpInvariant {
  import opened Totals
  import opened Sequences
  import opened AmpStore
  import opened AmpScan
  import opened AmpProtocol

  ghost function CreditMap(threads: map<Tid, Thread>): map<Tid, int> {
    map t | t in threads :: threads[t].Credit()
  }

  /** Bytes freed by threads that are between their eviction loop and the late credit of line 1004. */
  ghost function Credits(threads: map<Tid, Thread>): int {
    Total(CreditMap(threads))
  }

  /** bytes_used is the bytes of all live pages plus the bytes freed but not yet credited. */
  ghost predicate Accounted(c: Cache) {
    c.bytesUsed == PageBytes(c.store.pages) + Credits(c.threads)
  }

  ghost predicate ThreadSound(th: Thread) {
    match th
    case Forcing(f) => f.got < f.want
    case Parked(f, signalled) => f.got < f.want
    case Flushing(f, credit, total) => f.got < f.want && 0 <= credit <= total
    case Forced(seg, onTop, needed, got) => needed <= got
    case Queued(seg, signalled) => false
    case _ => true
  }

  /** A parked thread that has not been signalled is on the list that the next signal empties. */
  ghost predicate Remembered(c: Cache) {
    forall t :: t in c.threads && c.threads[t].Parked? && !c.threads[t].signalled ==> t in c.pendingTasks
  }

  ghost predicate Inv(c: Cache) {
    && WellFormed(c.store)
    && (forall p :: p in c.store.pages ==> p < c.nextPage)
    && Accounted(c)
    && (forall t :: t in c.threads ==> ThreadSound(c.threads[t]))
    && c.waiting == []
    && Remembered(c)
  }

  lemma SoundStore(c: Cache)
    requires Inv(c)
    ensures WellFormed(c.store)
  {
  }

  // ---------------------------------------------------------------- credits

  lemma CreditsReplaced(threads: map<Tid, Thread>, t: Tid, th: Thread)
    ensures Credits(threads[t := th])
      == Credits(threads) - (if t in threads then threads[t].Credit() else 0) + th.Credit()
  {
    TotalUpdate(CreditMap(threads), t, th.Credit());
    assert CreditMap(threads[t := th]) == CreditMap(threads)[t := th.Credit()];
  }

  lemma CreditsMinus(threads: map<Tid, Thread>, t: Tid)
    requires t in threads
    ensures Credits(threads - {t}) == Credits(threads) - threads[t].Credit()
  {
    TotalMinus(CreditMap(threads), t);
    assert CreditMap(threads - {t}) == CreditMap(threads) - {t};
  }

  lemma CreditsNonNegative(threads: map<Tid, Thread>)
    requires forall t :: t in threads ==> ThreadSound(threads[t])
    ensures 0 <= Credits(threads)
  {
    TotalNonNegative(CreditMap(threads));
  }

  // ---------------------------------------------------------------- every operation keeps it

  lemma NewPageKeeps(c: Cache, seg: Segment)
    requires Inv(c)
    ensures Inv(NewPage(c, seg))
    ensures PageBytes(NewPage(c, seg).store.pages) == PageBytes(c.store.pages) + seg.pageSize
  {
    var page := NewPage(c, seg).store.pages[c.nextPage];
    assert NewPage(c, seg).store == Pushed(c.store, c.nextPage, page);
    PushedSound(c.store, c.nextPage, page);
    PushedBytes(c.store, c.nextPage, page);
    hide WellFormed, ThreadSound;
  }

  lemma FreeMemKeeps(c: Cache, need: int)
    requires Inv(c)
    ensures Inv(FreeMem(c, need).0)
    ensures FreeMem(c, need).0.threads == c.threads
  {
    OpportunisticFreeing(c.store, need);
  }

  lemma MakeRoomKeeps(c: Cache, seg: Segment)
    requires Inv(c)
    ensures Inv(MakeRoom(c, seg).0)
    ensures MakeRoom(c, seg).0.threads == c.threads
  {
    if seg.pageSize + c.bytesUsed - c.maxBytes > 0 {
      FreeMemKeeps(c, seg.pageSize + c.bytesUsed - c.maxBytes);
    }
  }

  lemma RequestNowKeeps(c: Cache, seg: Segment)
    requires Inv(c)
    ensures Inv(RequestNow(c, seg))
  {
    MakeRoomKeeps(c, seg);
    var (d, left) := MakeRoom(c, seg);
    if left <= 0 {
      NewPageKeeps(d, seg);
    }
  }

  /** Giving one thread a new state keeps the invariant when the state is sound and remembered. */
  lemma ThreadMoves(c: Cache, t: Tid, th: Thread)
    requires Inv(c) && ThreadSound(th)
    requires th.Parked? && !th.signalled ==> t in c.pendingTasks
    requires th.Credit() == if t in c.threads then c.threads[t].Credit() else 0
    ensures Inv(c.(threads := c.threads[t := th]))
  {
    CreditsReplaced(c.threads, t, th);
    hide WellFormed;
  }

  lemma CreateTurnKeeps(c: Cache, t: Tid)
    requires Inv(c) && t in c.threads && c.threads[t].Creating?
    ensures Inv(CreateTurn(c, t))
  {
    var th := c.threads[t];
    MakeRoomKeeps(c, th.seg);
    var (d, left) := MakeRoom(c, th.seg);
    if left <= 0 {
      NewPageKeeps(d, th.seg);
      CreditsMinus(d.threads, t);
      hide WellFormed;
    } else {
      ThreadMoves(d, t, Awaiting(th.seg, th.onTop));
    }
  }

  lemma ProcessWaitersKeeps(c: Cache)
    requires Inv(c)
    ensures Inv(ProcessWaiters(c))
  {
    assert CreditMap(ProcessWaiters(c).threads) == CreditMap(c.threads);
    hide WellFormed;
  }

  /** A forcing thread that is done with an attempt, its late credit included, parks or returns soundly. */
  lemma ForceReturnsKeeps(c: Cache, t: Tid, f: Force, freed: int)
    requires Inv(c) && t in c.threads && c.threads[t].Credit() == 0
    ensures Inv(ForceReturns(c, t, f, freed))
  {
    var got := f.got + freed;
    if got < f.want {
      var queue := if f.parked then [t] + c.pendingTasks else c.pendingTasks + [t];
      var d := c.(pendingTasks := queue);
      assert Inv(d) by {
        hide WellFormed;
        forall u | u in c.pendingTasks ensures u in queue {
        }
      }
      assert t in queue;
      ThreadMoves(d, t, Parked(f.(got := got, parked := true), false));
    } else {
      ThreadMoves(c, t, Forced(f.seg, f.onTop, f.want, got));
      if !f.onTop {
        ProcessWaitersKeeps(c.(threads := c.threads[t := Forced(f.seg, f.onTop, f.want, got)]));
      }
    }
  }

  /** The late credit of line 1004: what the scan freed leaves bytes_used when the thread is back. */
  lemma FlushDoneKeeps(c: Cache, t: Tid)
    requires Inv(c) && t in c.threads && c.threads[t].Flushing?
    ensures Inv(FlushDone(c, t))
  {
    var th := c.threads[t];
    // The credited thread, before the attempt returns, is back at the point where it forces.
    var d := c.(bytesUsed := c.bytesUsed - th.credit, threads := c.threads[t := Forcing(th.f)]);
    CreditsReplaced(c.threads, t, Forcing(th.f));
    assert Inv(d) by {
      hide WellFormed;
    }
    ForceReturnsKeeps(d, t, th.f, th.total);
    ForceReturnsForgets(c.(bytesUsed := c.bytesUsed - th.credit), d, t, th.f, th.total);
  }

  /** What a thread was before its attempt returned plays no part in the state afterwards. */
  lemma ForceReturnsForgets(c: Cache, d: Cache, t: Tid, f: Force, freed: int)
    requires t in c.threads && d == c.(threads := c.threads[t := Forcing(f)])
    ensures ForceReturns(c, t, f, freed) == ForceReturns(d, t, f, freed)
  {
    hide ProcessWaiters;
    var th := Forced(f.seg, f.onTop, f.want, f.got + freed);
    assert c.threads[t := th] == d.threads[t := th];
    assert c.(threads := c.threads[t := th]) == d.(threads := d.threads[t := th]);
    var parked := Parked(f.(got := f.got + freed, parked := true), false);
    assert c.threads[t := parked] == d.threads[t := parked];
  }

  /** Replacing the store by a sound one of known bytes, and bytes_used by as much. */
  lemma StoreReplacedKeeps(c: Cache, s: Store, bytesUsed: int)
    requires Inv(c) && WellFormed(s) && s.pages.Keys <= c.store.pages.Keys
    requires bytesUsed - PageBytes(s.pages) == c.bytesUsed - PageBytes(c.store.pages)
    ensures Inv(c.(store := s, bytesUsed := bytesUsed))
  {
    hide WellFormed, ThreadSound;
  }

  /** After the scan, with the freed bytes credited at once, everything is accounted for. */
  lemma ScannedKeeps(c: Cache, f: Force)
    requires Inv(c)
    ensures
      var s := Scanned(c, f);
      s.freed >= 0 && s.pending >= 0 && Inv(c.(store := s.store, bytesUsed := c.bytesUsed - s.freed))
  {
    ForcedScanBooks(c.store, f.want - f.got, f.seg.pageSize);
    var s := Scanned(c, f);
    StoreReplacedKeeps(c, s.store, c.bytesUsed - s.freed);
  }

  /** A thread that drops the lock to flush keeps what it freed as a credit. */
  lemma CreditTaken(c: Cache, t: Tid, f: Force, freed: int, total: int)
    requires Inv(c.(bytesUsed := c.bytesUsed - freed)) && t in c.threads && c.threads[t] == Forcing(f)
    requires 0 <= freed <= total
    ensures Inv(c.(threads := c.threads[t := Flushing(f, freed, total)]))
  {
    CreditsReplaced(c.threads, t, Flushing(f, freed, total));
    hide WellFormed;
  }

  lemma AfterScanKeeps(c: Cache, t: Tid, f: Force, s: Scan)
    requires Inv(c.(store := s.store, bytesUsed := c.bytesUsed - s.freed))
    requires t in c.threads && c.threads[t] == Forcing(f)
    requires s.freed >= 0 && s.pending >= 0
    ensures Inv(AfterScan(c, t, f, s))
  {
    hide Inv, ForceReturns;
    var d := c.(store := s.store, bytesUsed := c.bytesUsed - s.freed);
    var e := c.(store := s.store);
    assert d == e.(bytesUsed := e.bytesUsed - s.freed);
    if s.freed + s.pending == 0 {
      assert d == e;
      ForceReturnsKeeps(d, t, f, ClaimedForNothing(d, f.want - f.got));
    } else if s.table == map[] {
      ForceReturnsKeeps(d, t, f, s.freed + s.pending);
    } else {
      CreditTaken(e, t, f, s.freed, s.freed + s.pending);
    }
  }

  lemma AttemptTurnKeeps(c: Cache, t: Tid)
    requires Inv(c) && t in c.threads && c.threads[t].Forcing?
    ensures Inv(AttemptTurn(c, t))
  {
    ScannedKeeps(c, c.threads[t].f);
    AfterScanKeeps(c, t, c.threads[t].f, Scanned(c, c.threads[t].f));
  }

  lemma ReleaseOneKeeps(c: Cache, p: PageId)
    requires Inv(c) && p in c.store.pages
    ensures Inv(ReleaseOne(c, p))
  {
    if c.store.pages[p].toRelease {
      FreePageKeeps(c.store, p, c.store.pages[p].offset > -1);
      hide WellFormed;
    }
  }

  lemma {:induction false} ReleaseAllKeeps(c: Cache, list: seq<PageId>)
    requires Inv(c) && Listed(c.store, list)
    ensures Inv(ReleaseAll(c, list)) && ReleaseAll(c, list).threads == c.threads
    ensures ReleaseAll(c, list).bytesUsed <= c.bytesUsed && ReleaseAll(c, list).maxBytes == c.maxBytes
    decreases |list|
  {
    if list != [] {
      ReleaseOneSound(c, list);
      ReleaseOneKeeps(c, list[0]);
      hide Inv, WellFormed, Listed;
      ReleaseAllKeeps(ReleaseOne(c, list[0]), list[1..]);
    }
  }

  lemma DestroyOneKeeps(c: Cache, p: PageId, remove: bool)
    requires Inv(c) && MayDestroy(c.store, p, remove)
    ensures Inv(DestroyOne(c, p, remove))
  {
    var page := c.store.pages[p];
    if page.Idle() {
      FreePageKeeps(c.store, p, remove);
      hide WellFormed;
    } else {
      BitsChangedKeeps(c, p, page.(dirty := false, empty := false, toRelease := true));
    }
  }

  lemma {:induction false} DestroyAllKeeps(c: Cache, list: seq<PageId>, remove: bool)
    requires Inv(c) && Destroyable(c.store, list, remove)
    ensures
      var d := DestroyAll(c, list, remove);
      && Inv(d)
      && d.threads == c.threads
      && d.bytesUsed <= c.bytesUsed
      && d.maxBytes == c.maxBytes
    decreases |list|
  {
    if list != [] {
      DestroyableKept(c, list, remove);
      DestroyOneKeeps(c, list[0], remove);
      hide Inv, WellFormed, Destroyable;
      DestroyAllKeeps(DestroyOne(c, list[0], remove), list[1..], remove);
    }
  }

  /** Changing the bits of a page that stays where it is. */
  lemma BitsChangedKeeps(c: Cache, p: PageId, page: Page)
    requires Inv(c) && p in c.store.pages
    requires var was := c.store.pages[p];
      page.seg == was.seg && page.offset == was.offset && page.linked == was.linked
    ensures Inv(c.(store := c.store.(pages := c.store.pages[p := page])))
  {
    BytesReplaced(c.store.pages, p, page);
    hide PageBytes, Credits;
  }

  /** Moving a page to the top of the stack. */
  lemma RaisedKeeps(s: Store, p: PageId)
    requires WellFormed(s) && p in s.pages && s.pages[p].linked
    ensures WellFormed(s.(stack := [p] + Without(s.stack, PositionOf(s, p))))
  {
    var i := PositionOf(s, p);
    RaisedStack(s.stack, i);
    Restacked(s, [p] + Without(s.stack, i));
  }

  /** The order of the stack does not matter to the books. */
  lemma Restacked(s: Store, stack: seq<PageId>)
    requires WellFormed(s) && Distinct(stack) && forall q :: q in stack <==> q in s.stack
    ensures WellFormed(s.(stack := stack))
  {
    var t := s.(stack := stack);
    assert IndexSound(t);
    hide IndexSound, Distinct;
    assert Distinct(t.stack);
    forall i | 0 <= i < |t.stack| ensures t.stack[i] in t.pages && t.pages[t.stack[i]].linked {
      assert t.stack[i] in s.stack;
    }
    forall q | q in t.pages && t.pages[q].linked ensures q in t.stack {
      assert q in s.stack;
    }
  }

  lemma RaisedStack(stack: seq<PageId>, i: nat)
    requires Distinct(stack) && i < |stack|
    ensures Distinct([stack[i]] + Without(stack, i))
    ensures forall q :: q in [stack[i]] + Without(stack, i) <==> q in stack
  {
    WithoutOne(stack, i);
    hide Without;
  }

  lemma AccessKeeps(c: Cache, p: PageId)
    requires Inv(c) && p in c.store.pages
    ensures Inv(Access(c, p))
  {
    var page := c.store.pages[p];
    if page.linked {
      var d := c;
      if page.accessed {
        RaisedKeeps(c.store, p);
        d := c.(store := c.store.(stack := [p] + Without(c.store.stack, PositionOf(c.store, p))));
        assert Inv(d) by {
          hide WellFormed;
        }
      }
      BitsChangedKeeps(d, p, page.(accessed := true));
    }
  }

  lemma OutsideKeeps(c: Cache, s: Store, dirtyBytes: int)
    requires Inv(c) && OutsideChange(c.store, s)
    ensures Inv(c.(store := s, dirtyBytes := dirtyBytes))
  {
    assert PageSizes(s.pages) == PageSizes(c.store.pages);
  }

  lemma ApplyKeeps(c: Cache, op: Op)
    requires Inv(c) && Enabled(c, op)
    ensures Inv(Apply(c, op))
  {
    match op
    case OpRequestNow(seg) => RequestNowKeeps(c, seg);
    case OpRequest(t, seg) => ThreadMoves(c, t, Creating(seg, false));
    case OpCreate(t) => CreateTurnKeeps(c, t);
    case OpAwait(t) => ThreadMoves(c, t, AwaitTurn(c, t).threads[t]);
    case OpAttempt(t) => AttemptTurnKeeps(c, t);
    case OpFlushDone(t) => FlushDoneKeeps(c, t);
    case OpForced(t) => ThreadMoves(c, t, Awaiting(c.threads[t].seg, c.threads[t].onTop));
    case OpWake(t) => ThreadMoves(c, t, Woken(c, t).threads[t]);
    case OpRelease(list) =>
      ReleaseAllKeeps(c, list);
      ProcessWaitersKeeps(ReleaseAll(c, list));
    case OpDestroy(list, remove) => DestroyAllKeeps(c, list, remove);
    case OpAccess(p) => AccessKeeps(c, p);
    case OpOutside(s, dirty) => OutsideKeeps(c, s, dirty);
  }
}
