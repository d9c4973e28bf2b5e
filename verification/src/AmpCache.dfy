/**
 The AMP page cache as the source writes it (cache_amp.c): an object whose methods are the
 stretches of code that run under the cache lock and update its fields in place. Each method
 is proved to do what the transition system of AmpProtocol says.
 */
module AmpCache {
  import opened Options
  import opened Sequences
  import opened AmpStore
  import opened AmpScan
  import opened AmpProtocol
  import opened AmpInvariant
  import opened AmpEffects

  datatype Mode = Read | Write | Flushed

  class AmpCache {
    const maxBytes: int
    const dirtyTrigger: int
    var pages: map<PageId, Page>
    var index: set<Entry>
    var stack: seq<PageId>
    var cursor: int
    var bytesUsed: int
    var dirtyBytes: int
    var nextPage: nat
    var threads: map<Tid, Thread>
    var pendingTasks: seq<Tid>
    var waiting: seq<Tid>

    ghost function Memory(): Store
      reads this
    {
      Store(pages, stack, index)
    }

    ghost function State(): Cache
      reads this
    {
      Cache(Memory(), bytesUsed, maxBytes, dirtyBytes, dirtyTrigger, nextPage, threads, pendingTasks, waiting)
    }

    ghost predicate Valid()
      reads this
    {
      Inv(State())
    }

    // -------------------------------------------------------------- the LRU stack

    method MoveToBottom()
      modifies `cursor
      ensures cursor == |stack| - 1
    {
      cursor := |stack| - 1;
    }

    /** Put the cursor on a linked page's own element. */
    method MoveToPage(p: PageId)
      requires WellFormed(Memory()) && p in pages && pages[p].linked
      modifies `cursor
      ensures cursor == PositionOf(Memory(), p)
    {
      ghost var place := PositionOf(Memory(), p);
      assert stack[place] == p;
      var i :| 0 <= i < |stack| && stack[i] == p;
      cursor := i;
    }

    /** Take the element under the cursor off; the cursor goes to the one above, if there is one. */
    method UnlinkCurrent()
      requires 0 <= cursor < |stack|
      modifies `stack, `cursor
      ensures stack == Without(old(stack), old(cursor)) && cursor == old(cursor) - 1
    {
      stack := stack[..cursor] + stack[cursor + 1..];
      cursor := cursor - 1;
    }

    /** Put a page on top and leave the cursor on the page it was on, if it was on one. */
    method InsertOnTop(p: PageId)
      requires -1 <= cursor < |stack|
      modifies `stack, `cursor
      ensures stack == [p] + old(stack)
      ensures cursor == if old(cursor) == -1 then -1 else old(cursor) + 1
    {
      stack := [p] + stack;
      if cursor >= 0 {
        cursor := cursor + 1;
      }
    }

    method Push(p: PageId)
      modifies `stack
      ensures stack == [p] + old(stack)
    {
      stack := [p] + stack;
    }

    // -------------------------------------------------------------- pages

    method NewPage(seg: Segment) returns (p: PageId)
      requires Valid()
      modifies this
      ensures Valid()
      ensures p == old(nextPage) && State() == AmpProtocol.NewPage(old(State()), seg)
      ensures Made(old(State()), State(), seg, p)
    {
      hide Inv, Made;
      NewPageEffect(State(), seg);
      NewPageKeeps(State(), seg);
      p := nextPage;
      bytesUsed := bytesUsed + seg.pageSize;
      pages := pages[p := Page(seg, -1001 - p, false, true, false, false, false, 0, 0, 0, true)];
      nextPage := nextPage + 1;
      Push(p);
    }

    /** _amp_free_mem: free clean, idle, aged pages from the bottom up, stopping at the first other one. */
    method FreeMem(need: int) returns (left: int)
      requires Valid()
      modifies this
      ensures Valid()
      ensures (State(), left) == AmpProtocol.FreeMem(old(State()), need)
    {
      hide Inv, RunAll;
      SoundStore(State());
      FreeMemKeeps(State(), need);
      var total := FreeMemScan(need);
      bytesUsed := bytesUsed - total;
      left := ToInt(need - total);
    }

    /** The loop of _amp_free_mem, 797-823. */
    method FreeMemScan(need: int) returns (total: int)
      requires WellFormed(Memory())
      modifies `pages, `stack, `index, `cursor
      ensures var r := RunAll(StartRun(old(Memory())), need); Memory() == r.store && total == r.total
    {
      ghost var start := StartRun(Memory());
      total := 0;
      var stopped := false;
      MoveToBottom();
      while total < need && cursor >= 0 && !stopped
        invariant RunReady(Run(Memory(), cursor, total, stopped))
        invariant RunAll(Run(Memory(), cursor, total, stopped), need) == RunAll(start, need)
        decreases cursor + 1, !stopped
      {
        hide WellFormed, RunStep;
        RunStepReady(Run(Memory(), cursor, total, stopped));
        total, stopped := FreeMemTurn(total);
      }
    }

    /** The body of that loop, for the page under the cursor. */
    method FreeMemTurn(total: int) returns (newTotal: int, stopped: bool)
      requires WellFormed(Memory()) && 0 <= cursor < |stack|
      modifies `pages, `stack, `index, `cursor
      ensures Run(Memory(), cursor, newTotal, stopped) == RunStep(old(Run(Memory(), cursor, total, false)))
    {
      newTotal, stopped := total, false;
      var p := stack[cursor];
      var page := pages[p];
      if !page.toRelease {
        if page.Idle() && !page.dirty && page.Aged() {
          newTotal := total + page.seg.pageSize;
          index := index - {Entry(page.seg, page.offset, p)};
          UnlinkCurrent();
          pages := pages - {p};
        } else {
          stopped := true;
        }
      } else {
        cursor := cursor - 1;
      }
    }

    /** The scan of _amp_attempt_free_mem: free what can be freed and unlink what is in use or dirty. */
    method ForcedScan(need: int, pageSize: PageSize) returns (scan: Scan)
      requires WellFormed(Memory())
      modifies `pages, `stack, `index, `cursor
      ensures scan == ScanAll(StartScan(old(Memory()), pageSize), need) && Memory() == scan.store
    {
      ghost var start := StartScan(Memory(), pageSize);
      var freed, pending, table, visited := 0, 0, map[], pageSize;
      MoveToBottom();
      while freed + pending < need && cursor >= 0
        invariant ScanReady(Scan(Memory(), cursor, freed, pending, table, visited))
        invariant ScanAll(Scan(Memory(), cursor, freed, pending, table, visited), need) == ScanAll(start, need)
        decreases Fresh(Memory()), cursor + 1
      {
        hide WellFormed, ScanStep, Fresh;
        ScanStepProgress(Scan(Memory(), cursor, freed, pending, table, visited));
        freed, pending, table, visited := ForcedScanTurn(freed, pending, table, visited);
      }
      scan := Scan(Store(pages, stack, index), cursor, freed, pending, table, visited);
    }

    /** The body of that loop, for the page under the cursor. */
    method ForcedScanTurn(freed: int, pending: int, table: map<Segment, Span>, ghost visited: PageSize)
      returns (newFreed: int, newPending: int, newTable: map<Segment, Span>, newVisited: PageSize)
      requires WellFormed(Memory()) && 0 <= cursor < |stack|
      modifies `pages, `stack, `index, `cursor
      ensures Scan(Memory(), cursor, newFreed, newPending, newTable, newVisited)
        == ScanStep(old(Scan(Memory(), cursor, freed, pending, table, visited)))
    {
      var p := stack[cursor];
      var page := pages[p];
      newFreed, newPending, newTable, newVisited := freed, pending, table, page.seg.pageSize;
      if !page.toRelease {
        if page.Aged() {
          if page.Idle() && !page.dirty {
            newFreed := freed + page.seg.pageSize;
            index := index - {Entry(page.seg, page.offset, p)};
            UnlinkCurrent();
            pages := pages - {p};
          } else {
            if page.flushers == 0 && page.dirty {
              newTable := AddToTable(table, page);
            }
            pages := pages[p := page.(toRelease := true, linked := false)];
            newPending := pending + page.seg.pageSize;
            UnlinkCurrent();
          }
        } else {
          pages := pages[p := page.(recycled := true)];
          UnlinkCurrent();
          InsertOnTop(p);
        }
      } else {
        cursor := cursor - 1;
      }
    }

    /** cache_amp.c:897-913 for a dirty page with no flush pending: stretch its segment's span. */
    static method AddToTable(table: map<Segment, Span>, page: Page) returns (next: map<Segment, Span>)
      requires page.flushers == 0 && page.dirty
      ensures next == NoteDirty(table, page)
    {
      if page.seg !in table {
        next := table[page.seg := Span(page.offset, page.offset)];
      } else {
        var span := table[page.seg];
        if span.lo > page.offset {
          span := span.(lo := page.offset);
        }
        if span.hi < page.offset {
          span := span.(hi := page.offset);
        }
        next := table[page.seg := span];
      }
    }

    /** cache_amp.c:966-981: one flush per segment in the table, in the table's own order. */
    method IssueFlushes(table: map<Segment, Span>, visited: PageSize) returns (plan: map<Segment, Flush>)
      ensures plan == map g | g in table :: FlushFor(table[g], visited, dirtyBytes > dirtyTrigger)
    {
      plan := map[];
      var todo := table.Keys;
      while todo != {}
        invariant todo <= table.Keys
        invariant plan == map g | g in table && g !in todo :: FlushFor(table[g], visited, dirtyBytes > dirtyTrigger)
        decreases todo
      {
        var g :| g in todo;
        var span := table[g];
        if span.hi - span.lo < 10 * visited {
          span := span.(hi := span.lo + 10 * visited);
        }
        if dirtyBytes > dirtyTrigger {
          plan := plan[g := WholeSegment];
        } else {
          plan := plan[g := Bytes(span.lo, span.hi + visited - 1)];
        }
        todo := todo - {g};
      }
    }

    // -------------------------------------------------------------- requests

    method MakeRoom(seg: Segment) returns (left: int)
      requires Valid()
      modifies this
      ensures Valid()
      ensures (State(), left) == AmpProtocol.MakeRoom(old(State()), seg)
    {
      left := seg.pageSize + bytesUsed - maxBytes;
      if left > 0 {
        left := FreeMem(left);
      }
    }

    /** A non-blocking _amp_create_empty_page. */
    method RequestNow(seg: Segment) returns (page: Option<PageId>)
      requires Valid()
      modifies this
      ensures Valid() && State() == AmpProtocol.RequestNow(old(State()), seg)
      ensures page.Some? <==> AmpProtocol.MakeRoom(old(State()), seg).1 <= 0
      ensures page.Some? ==> Made(AmpProtocol.MakeRoom(old(State()), seg).0, State(), seg, page.value)
    {
      var left := MakeRoom(seg);
      page := None;
      if left <= 0 {
        var p := NewPage(seg);
        page := Some(p);
      }
    }

    /** A blocking _amp_create_empty_page, from the head of its loop to the wait or the end. */
    method CreateTurn(t: Tid) returns (page: Option<PageId>)
      requires Valid() && t in threads && threads[t].Creating?
      modifies this
      ensures Valid() && State() == AmpProtocol.CreateTurn(old(State()), t)
      ensures page.Some? <==> t !in threads
      ensures page.Some? <==> AmpProtocol.MakeRoom(old(State()), old(threads[t].seg)).1 <= 0
      ensures page.Some? ==>
        Made(AmpProtocol.MakeRoom(old(State()), old(threads[t].seg)).0, State(), old(threads[t].seg), page.value)
    {
      CreateTurnKeeps(State(), t);
      CreateEffect(State(), t);
      var th := threads[t];
      var left := MakeRoom(th.seg);
      page := None;
      if left > 0 {
        threads := threads[t := Awaiting(th.seg, th.onTop)];
      } else {
        var p := NewPage(th.seg);
        threads := threads - {t};
        page := Some(p);
      }
    }

    method AwaitTurn(t: Tid)
      requires Valid() && t in threads && threads[t].Awaiting?
      modifies `threads
      ensures Valid() && State() == AmpProtocol.AwaitTurn(old(State()), t)
    {
      hide Inv, WellFormed;
      SoundStore(State());
      ApplyKeeps(State(), OpAwait(t));
      var th := threads[t];
      var free := maxBytes - bytesUsed;
      if th.seg.pageSize > free {
        threads := threads[t := Forcing(Force(th.seg, th.onTop, th.seg.pageSize - free, 0, false))];
      } else {
        threads := threads[t := Creating(th.seg, true)];
      }
    }

    /** _amp_attempt_free_mem up to where it returns or lets go of the lock to wait for its flushes. */
    method AttemptTurn(t: Tid) returns (plan: map<Segment, Flush>)
      requires Valid() && t in threads && threads[t].Forcing?
      modifies this
      ensures Valid() && State() == AmpProtocol.AttemptTurn(old(State()), t)
      ensures plan == FlushPlan(Scanned(old(State()), old(threads[t].f)), dirtyBytes > dirtyTrigger)
    {
      hide ScanAll, AfterScan, Inv, WellFormed;
      ghost var before := State();
      SoundStore(before);
      AttemptTurnKeeps(before, t);
      var f := threads[t].f;
      var scan := ForcedScan(f.want - f.got, f.seg.pageSize);
      plan := IssueFlushes(scan.table, scan.visited);
      AfterForcedScan(t, f, scan, before);
    }

    /** What becomes of the scan's result, 954-1011. */
    method AfterForcedScan(t: Tid, f: Force, scan: Scan, ghost before: Cache)
      requires State() == before.(store := scan.store)
      modifies `bytesUsed, `threads, `pendingTasks, `waiting
      ensures State() == AfterScan(before, t, f, scan)
    {
      hide AmpProtocol.ForceReturns;
      var need := f.want - f.got;
      if scan.freed + scan.pending == 0 {
        var claimed := 0;
        if bytesUsed == 0 || maxBytes - bytesUsed > 10 * need {
          claimed := need;
        }
        ForceReturns(t, f, claimed);
      } else if scan.table == map[] {
        bytesUsed := bytesUsed - scan.freed;
        ForceReturns(t, f, scan.freed + scan.pending);
      } else {
        threads := threads[t := Flushing(f, scan.freed, scan.freed + scan.pending)];
      }
    }

    /** Back with the lock after the flushes: take off what was freed, and carry on. */
    method FlushDone(t: Tid)
      requires Valid() && t in threads && threads[t].Flushing?
      modifies this
      ensures Valid() && State() == AmpProtocol.FlushDone(old(State()), t)
    {
      hide Inv, WellFormed;
      SoundStore(State());
      FlushDoneKeeps(State(), t);
      var th := threads[t];
      bytesUsed := bytesUsed - th.credit;
      ForceReturns(t, th.f, th.total);
    }

    /** _amp_force_free_mem after an attempt: wait for the next turn, or return. */
    method ForceReturns(t: Tid, f: Force, freed: int)
      modifies `threads, `pendingTasks, `waiting
      ensures State() == AmpProtocol.ForceReturns(old(State()), t, f, freed)
    {
      hide AmpProtocol.ProcessWaiters;
      var got := f.got + freed;
      if got < f.want {
        if !f.parked {
          pendingTasks := pendingTasks + [t];
        } else {
          pendingTasks := [t] + pendingTasks;
        }
        threads := threads[t := Parked(f.(got := got, parked := true), false)];
      } else {
        threads := threads[t := Forced(f.seg, f.onTop, f.want, got)];
        if !f.onTop {
          ProcessWaiters();
        }
      }
    }

    method ForcedTurn(t: Tid)
      requires t in threads && threads[t].Forced?
      modifies `threads, `waiting
      ensures State() == AmpProtocol.ForcedTurn(old(State()), t)
    {
      var th := threads[t];
      if th.got < th.needed {
        if !th.onTop {
          waiting := waiting + [t];
        } else {
          waiting := [t] + waiting;
        }
        threads := threads[t := Queued(th.seg, false)];
      } else {
        threads := threads[t := Awaiting(th.seg, th.onTop)];
      }
    }

    /** _amp_process_waiters: pop and signal every parked thread, then the first queued one that fits. */
    method ProcessWaiters()
      modifies `threads, `pendingTasks, `waiting
      ensures State() == AmpProtocol.ProcessWaiters(old(State()))
    {
      SignalParked();
      if waiting != [] {
        var first := waiting[0];
        if first in threads && threads[first].Queued? && threads[first].seg.pageSize <= maxBytes - bytesUsed {
          waiting := waiting[1..];
          threads := threads[first := Queued(threads[first].seg, true)];
        }
      }
    }

    /** 369-374: pop and signal every parked thread. */
    method SignalParked()
      modifies `threads, `pendingTasks
      ensures threads == map t | t in old(threads) :: Wakened(old(threads)[t], t in old(pendingTasks))
      ensures pendingTasks == []
    {
      ghost var before := threads;
      ghost var popped: seq<Tid> := [];
      while pendingTasks != []
        invariant popped + pendingTasks == old(pendingTasks)
        invariant threads == map t | t in before :: Wakened(before[t], t in popped)
        decreases |pendingTasks|
      {
        var t := pendingTasks[0];
        popped := popped + [t];
        pendingTasks := pendingTasks[1..];
        if t in threads && threads[t].Parked? {
          threads := threads[t := Parked(threads[t].f, true)];
        }
      }
      assert popped == old(pendingTasks);
    }

    // -------------------------------------------------------------- releasing, destroying, touching

    /** Take a page off the stack if it is on it, out of its index if asked, and out of memory. */
    method Free(p: PageId, forget: bool)
      requires Valid() && p in pages
      modifies `pages, `stack, `index, `cursor, `bytesUsed
      ensures Memory() == FreePage(old(Memory()), p, forget)
      ensures bytesUsed == old(bytesUsed) - old(pages[p].seg.pageSize)
    {
      var page := pages[p];
      bytesUsed := bytesUsed - page.seg.pageSize;
      if page.linked {
        MoveToPage(p);
        UnlinkCurrent();
      }
      if forget {
        index := index - {Entry(page.seg, page.offset, p)};
      }
      pages := pages - {p};
    }

    /** One page of _amp_pages_release. */
    method PageRelease(p: PageId)
      requires Valid() && p in pages
      modifies `pages, `stack, `index, `cursor, `bytesUsed
      ensures Valid() && State() == ReleaseOne(old(State()), p)
      ensures old(pages[p].toRelease) ==>
        && Gone(old(Memory()), Memory(), {p})
        && bytesUsed == old(bytesUsed) - old(pages[p].seg.pageSize)
    {
      hide Inv, WellFormed;
      SoundStore(State());
      ReleaseOneKeeps(State(), p);
      if pages[p].toRelease {
        ReleasedIsGone(State(), p);
        Free(p, pages[p].offset > -1);
      }
    }

    /** _amp_pages_release: every listed page that is flagged for release leaves; then signal. */
    method PagesRelease(list: seq<PageId>)
      requires Valid() && Listed(Memory(), list)
      modifies this
      ensures Valid() && State() == Release(old(State()), list)
      ensures Gone(old(Memory()), Memory(), Flagged(old(Memory()), list))
      ensures bytesUsed == old(bytesUsed) - SizesOf(old(Memory()), list, Flagged(old(Memory()), list))
    {
      hide Inv, WellFormed, ReleaseOne, Gone, Flagged, SizesOf;
      ghost var before := State();
      SoundStore(before);
      var i := 0;
      assert list[0..] == list;
      while i < |list|
        invariant 0 <= i <= |list|
        invariant Valid() && WellFormed(Memory()) && Listed(Memory(), list[i..])
        invariant ReleaseAll(State(), list[i..]) == ReleaseAll(before, list)
      {
        assert list[i] == list[i..][0] && list[i..][1..] == list[i + 1..];
        ReleaseOneSound(State(), list[i..]);
        PageRelease(list[i]);
        i := i + 1;
      }
      ProcessWaitersKeeps(State());
      ProcessWaiters();
      ReleaseEffect(before, list);
    }

    /** One page of _amp_pages_destroy. */
    method PageDestroy(p: PageId, remove: bool)
      requires Valid() && MayDestroy(Memory(), p, remove)
      modifies `pages, `stack, `index, `cursor, `bytesUsed
      ensures Valid() && State() == DestroyOne(old(State()), p, remove)
    {
      hide Inv, WellFormed;
      SoundStore(State());
      DestroyOneKeeps(State(), p, remove);
      var page := pages[p];
      if page.readers + page.writers + page.flushers == 0 {
        Free(p, remove);
      } else {
        pages := pages[p := page.(dirty := false, empty := false, toRelease := true)];
      }
    }

    /** _amp_pages_destroy: idle pages leave; the others are flagged for whoever holds them. */
    method PagesDestroy(list: seq<PageId>, remove: bool)
      requires Valid() && Destroyable(Memory(), list, remove)
      modifies this
      ensures Valid() && State() == DestroyAll(old(State()), list, remove)
      ensures Listed(old(Memory()), list) && Destroyed(old(Memory()), Memory(), list)
      ensures bytesUsed == old(bytesUsed) - SizesOf(old(Memory()), list, IdleOf(old(Memory()), list))
    {
      hide Inv, WellFormed, DestroyOne, Destroyable, Destroyed, IdleOf, SizesOf;
      ghost var before := State();
      SoundStore(before);
      var i := 0;
      assert list[0..] == list;
      while i < |list|
        invariant 0 <= i <= |list|
        invariant Valid() && WellFormed(Memory()) && Destroyable(Memory(), list[i..], remove)
        invariant DestroyAll(State(), list[i..], remove) == DestroyAll(before, list, remove)
      {
        assert list[i] == list[i..][0] && list[i..][1..] == list[i + 1..];
        DestroyableKept(State(), list[i..], remove);
        PageDestroy(list[i], remove);
        i := i + 1;
      }
      DestroyEffect(before, list, remove);
    }

    /** _amp_page_access: a second use moves the page to the top. */
    method PageAccess(p: PageId, mode: Mode)
      requires Valid() && p in pages
      modifies this
      ensures Valid()
      ensures State() == if mode.Flushed? then old(State()) else Access(old(State()), p)
    {
      hide Inv, WellFormed;
      SoundStore(State());
      AccessKeeps(State(), p);
      if mode.Flushed? {
        return;
      }
      var page := pages[p];
      if page.linked {
        if page.accessed {
          MoveToPage(p);
          UnlinkCurrent();
          Push(p);
        }
        pages := pages[p := page.(accessed := true)];
      }
    }
  }
}
