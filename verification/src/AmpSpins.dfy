/**
 Where forced eviction in the AMP page cache reports space that it has not made, and a blocking
 request goes round for ever (cache_amp.c:954-962, 1080-1101).
 */
module AmpSpins {
  import opened AmpStore
  import opened AmpScan
  import opened AmpProtocol
  import opened AmpInvariant
  import opened AmpRuns

  // ---------------------------------------------------------------- when a scan finds nothing

  /** Every page on the stack is in release, but possibly the top one, which was never used. */
  ghost predicate NothingToTake(s: Store)
    requires WellFormed(s)
  {
    forall k :: 0 <= k < |s.stack| ==>
      s.pages[s.stack[k]].toRelease || (k == 0 && !s.pages[s.stack[k]].Aged())
  }

  ghost predicate InRelease(s: Store)
    requires WellFormed(s)
  {
    forall k :: 0 <= k < |s.stack| ==> s.pages[s.stack[k]].toRelease
  }

  function Found(c: Scan): int {
    c.freed + c.pending
  }

  lemma {:induction false} FoundGrows(c: Scan, need: int)
    requires ScanReady(c)
    ensures Found(c) <= Found(ScanAll(c, need))
    decreases Fresh(c.store), c.cursor + 1
  {
    if Found(c) < need && c.cursor >= 0 {
      ScanStepProgress(c);
      BytesKept(c);
      FoundGrows(ScanStep(c), need);
    }
  }

  /** The scan walks over pages in release. */
  lemma {:induction false} SkipsRelease(c: Scan, need: int, k: int) returns (visited: PageSize)
    requires ScanReady(c) && -1 <= k <= c.cursor && Found(c) < need
    requires forall i :: k < i <= c.cursor ==> c.store.pages[c.store.stack[i]].toRelease
    ensures ScanAll(c, need) == ScanAll(c.(cursor := k, visited := visited), need)
    decreases c.cursor - k
  {
    visited := c.visited;
    if k < c.cursor {
      ScanStepProgress(c);
      visited := SkipsRelease(ScanStep(c), need, k);
    }
  }

  /** An aged page on top is taken in the end, if nothing else is. */
  lemma {:induction false} AgedOnTop(c: Scan, need: int)
    requires ScanReady(c) && c.cursor >= 0 && Found(c) == 0 < need
    requires var top := c.store.pages[c.store.stack[0]]; !top.toRelease && top.Aged()
    ensures Found(ScanAll(c, need)) > 0
    decreases Fresh(c.store), c.cursor + 1
  {
    var page := c.store.pages[c.store.stack[c.cursor]];
    ScanStepProgress(c);
    if page.toRelease || !page.Aged() {
      AgedOnTop(ScanStep(c), need);
    } else {
      FoundGrows(ScanStep(c), need);
    }
  }

  /** The lowest page that is not in release; all below it are. */
  lemma {:induction false} LowestOther(s: Store, from: nat) returns (j: int)
    requires WellFormed(s) && from <= |s.stack|
    requires forall i :: from <= i < |s.stack| ==> s.pages[s.stack[i]].toRelease
    ensures -1 <= j < |s.stack|
    ensures forall i :: j < i < |s.stack| ==> s.pages[s.stack[i]].toRelease
    ensures j >= 0 ==> !s.pages[s.stack[j]].toRelease
  {
    if from == 0 || !s.pages[s.stack[from - 1]].toRelease {
      j := from - 1;
    } else {
      j := LowestOther(s, from - 1);
    }
  }

  /** A forced scan finds nothing exactly when there is nothing to take. */
  lemma NothingFound(s: Store, need: int, pageSize: PageSize)
    requires WellFormed(s) && 0 < need
    ensures Found(ScanAll(StartScan(s, pageSize), need)) == 0 <==> NothingToTake(s)
  {
    var j := LowestOther(s, |s.stack|);
    var visited := SkipsRelease(StartScan(s, pageSize), need, j);
    if j >= 0 {
      LowestDecides(Scan(s, j, 0, 0, map[], visited), need);
    }
    hide WellFormed, ScanAll;
  }

  /** With all below it in release, the page under the cursor is taken, sent round and taken, or spared on top. */
  lemma LowestDecides(c: Scan, need: int)
    requires ScanReady(c) && c.cursor >= 0 && Found(c) == 0 < need
    requires !c.store.pages[c.store.stack[c.cursor]].toRelease
    ensures Found(ScanAll(c, need)) == 0 <==> c.cursor == 0 && !c.store.pages[c.store.stack[0]].Aged()
  {
    ScanStepProgress(c);
    if c.store.pages[c.store.stack[c.cursor]].Aged() {
      FoundGrows(ScanStep(c), need);
    } else if c.cursor > 0 {
      AgedOnTop(ScanStep(c), need);
    }
  }

  // ---------------------------------------------------------------- what is claimed then

  /** The guard of line 957. */
  predicate Plenty(c: Cache, need: int) {
    c.bytesUsed == 0 || c.maxBytes - c.bytesUsed > 10 * need
  }

  /**
   A forcing thread is told that it got what it wanted, with nothing taken, exactly when there was
   nothing to take and the cache is empty or more than ten times the shortage is free. With nothing
   to take and less than that free, it parks.
   */
  lemma ClaimWithoutSpace(c: Cache, t: Tid)
    requires Inv(c) && t in c.threads && c.threads[t].Forcing?
    ensures
      var f := c.threads[t].f;
      var d := AttemptTurn(c, t);
      && t in d.threads
      && (d.threads[t].Forced? && Found(Scanned(c, f)) == 0 <==> NothingToTake(c.store) && Plenty(c, f.want - f.got))
      && (NothingToTake(c.store) && !Plenty(c, f.want - f.got) ==> d.threads[t].Parked?)
  {
    var f := c.threads[t].f;
    assert ThreadSound(c.threads[t]);
    SoundStore(c);
    hide Inv, WellFormed, ScanAll, NothingToTake, AfterScan;
    NothingFound(c.store, f.want - f.got, f.seg.pageSize);
    ForcedScanBooks(c.store, f.want - f.got, f.seg.pageSize);
    assert AttemptTurn(c, t) == AfterScan(c, t, f, Scanned(c, f));
    NothingTaken(c, t, f, Scanned(c, f));
    StaysAThread(c, t, f, Scanned(c, f));
    hide AttemptTurn, Scanned, Plenty;
  }

  /** What a thread is told when its scan found nothing. */
  lemma NothingTaken(c: Cache, t: Tid, f: Force, s: Scan)
    requires f.got < f.want && s.freed >= 0 && s.pending >= 0 && t in c.threads
    ensures Found(s) == 0 ==>
      var d := AfterScan(c, t, f, s);
      t in d.threads && if Plenty(c, f.want - f.got) then d.threads[t].Forced? else d.threads[t].Parked?
  {
  }

  lemma StaysAThread(c: Cache, t: Tid, f: Force, s: Scan)
    requires t in c.threads
    ensures t in AfterScan(c, t, f, s).threads
  {
  }

  // ---------------------------------------------------------------- going round

  /** A waiting request asks for what it lacks, makes its attempt, is told that it got it, and is where it was. */
  ghost predicate ComesBack(c: Cache, t: Tid)
    requires WellFormed(c.store) && t in c.threads && c.threads[t].Awaiting?
  {
    var d := AwaitTurn(c, t);
    && d.threads[t].Forcing?
    && var e := AttemptTurn(d, t);
    && t in e.threads
    && e.threads[t].Forced?
    && ForcedTurn(e, t) == c
  }

  /**
   It comes back to the very state it left exactly when it lacks space, every page on the stack is in
   release, the guard of line 957 holds, and there is nobody it has to signal on the way.
   */
  lemma ComesBackExactlyWhen(c: Cache, t: Tid)
    requires Inv(c) && t in c.threads && c.threads[t].Awaiting?
    ensures
      var th := c.threads[t];
      var lacks := th.seg.pageSize - (c.maxBytes - c.bytesUsed);
      ComesBack(c, t) <==>
        0 < lacks && InRelease(c.store) && Plenty(c, lacks) && (th.onTop || c.pendingTasks == [])
  {
    var th := c.threads[t];
    var lacks := th.seg.pageSize - (c.maxBytes - c.bytesUsed);
    if 0 < lacks {
      if InRelease(c.store) {
        RoundInRelease(c, t, lacks);
      } else {
        StoreMoves(c, t, lacks);
      }
    }
  }

  /** The state in which such a request makes its attempt. */
  function Asking(c: Cache, t: Tid, lacks: int): Cache
    requires t in c.threads && c.threads[t].Awaiting?
  {
    var th := c.threads[t];
    c.(threads := c.threads[t := Forcing(Force(th.seg, th.onTop, lacks, 0, false))])
  }

  lemma RoundInRelease(c: Cache, t: Tid, lacks: int)
    requires Inv(c) && t in c.threads && c.threads[t].Awaiting?
    requires 0 < lacks == c.threads[t].seg.pageSize - (c.maxBytes - c.bytesUsed) && InRelease(c.store)
    ensures ComesBack(c, t) <==> Plenty(c, lacks) && (c.threads[t].onTop || c.pendingTasks == [])
  {
    var th := c.threads[t];
    var d := Asking(c, t, lacks);
    var visited := SkipsRelease(StartScan(c.store, th.seg.pageSize), lacks, -1);
    var s := Scanned(d, d.threads[t].f);
    assert s == Scan(c.store, -1, 0, 0, map[], visited);
    var e := AttemptTurn(d, t);
    assert e == ForceReturns(d, t, d.threads[t].f, ClaimedForNothing(d, lacks));
    if Plenty(c, lacks) {
      SignalledRound(c, t, lacks);
    }
  }

  /** What the claim leads to. */
  lemma SignalledRound(c: Cache, t: Tid, lacks: int)
    requires t in c.threads && c.threads[t].Awaiting? && c.waiting == [] && 0 < lacks
    ensures
      var th := c.threads[t];
      var d := Asking(c, t, lacks);
      var e := ForceReturns(d, t, d.threads[t].f, lacks);
      && t in e.threads
      && e.threads[t].Forced?
      && (ForcedTurn(e, t) == c <==> th.onTop || c.pendingTasks == [])
  {
    var th := c.threads[t];
    var d := Asking(c, t, lacks);
    var e := ForceReturns(d, t, d.threads[t].f, lacks);
    var g := ForcedTurn(e, t);
    if th.onTop || c.pendingTasks == [] {
      assert g.threads == c.threads;
    } else {
      assert g.pendingTasks == [];
    }
  }

  /** A scan that meets a page not in release never leaves the store as it was. */
  lemma StoreMoves(c: Cache, t: Tid, lacks: int)
    requires Inv(c) && t in c.threads && c.threads[t].Awaiting?
    requires 0 < lacks == c.threads[t].seg.pageSize - (c.maxBytes - c.bytesUsed) && !InRelease(c.store)
    ensures !ComesBack(c, t)
  {
    var d := Asking(c, t, lacks);
    var f := d.threads[t].f;
    var s := Scanned(d, f);
    ScanChanges(c.store, lacks, f.seg.pageSize);
    assert d == AwaitTurn(c, t);
    ReturnKeepsStore(d.(store := s.store), t, f);
    ReturnKeepsStore(d.(store := s.store).(bytesUsed := d.bytesUsed - s.freed), t, f);
    hide ScanAll, WellFormed, ForceReturns, InRelease;
  }

  lemma ScanChanges(s: Store, need: int, pageSize: PageSize)
    requires WellFormed(s) && 0 < need
    ensures ScanAll(StartScan(s, pageSize), need).store == s ==> InRelease(s)
  {
    ForcedEviction(s, need, pageSize);
    if ScanAll(StartScan(s, pageSize), need).store == s {
      forall k | 0 <= k < |s.stack| ensures s.pages[s.stack[k]].toRelease {
        assert Stuck(s, s, k);
      }
    }
  }

  // ---------------------------------------------------------------- for ever

  function Round(t: Tid): seq<Op> {
    [OpAwait(t), OpAttempt(t), OpForced(t)]
  }

  function Rounds(t: Tid, n: nat): seq<Op> {
    if n == 0 then [] else Round(t) + Rounds(t, n - 1)
  }

  /** Left to itself such a thread goes round any number of times and nothing has changed. */
  lemma {:induction false} SpinsForever(c: Cache, t: Tid, n: nat)
    requires Inv(c) && t in c.threads && c.threads[t].Awaiting? && ComesBack(c, t)
    ensures Legal(c, Rounds(t, n)) && Reached(c, Rounds(t, n)) == c
  {
    if n > 0 {
      SpinsForever(c, t, n - 1);
      RoundBefore(c, t, Rounds(t, n - 1));
    }
  }

  lemma RoundBefore(c: Cache, t: Tid, ops: seq<Op>)
    requires Inv(c) && t in c.threads && c.threads[t].Awaiting? && ComesBack(c, t) && Legal(c, ops)
    ensures Legal(c, Round(t) + ops) && Reached(c, Round(t) + ops) == Reached(c, ops)
  {
    RoundSteps(c, t);
    var d := AwaitTurn(c, t);
    var e := AttemptTurn(d, t);
    hide Inv, WellFormed, ComesBack, Apply, Enabled, AttemptTurn, AwaitTurn;
    OneStep(e, OpForced(t), ops);
    OneStep(d, OpAttempt(t), [OpForced(t)] + ops);
    OneStep(c, OpAwait(t), [OpAttempt(t)] + ([OpForced(t)] + ops));
    assert Round(t) + ops == [OpAwait(t)] + ([OpAttempt(t)] + ([OpForced(t)] + ops));
  }

  lemma RoundSteps(c: Cache, t: Tid)
    requires Inv(c) && t in c.threads && c.threads[t].Awaiting? && ComesBack(c, t)
    ensures
      var d := AwaitTurn(c, t);
      && WellFormed(c.store) && Enabled(c, OpAwait(t)) && Apply(c, OpAwait(t)) == d
      && t in d.threads && d.threads[t].Forcing?
      && WellFormed(d.store) && Enabled(d, OpAttempt(t))
      && var e := AttemptTurn(d, t);
      && Apply(d, OpAttempt(t)) == e
      && WellFormed(e.store) && Enabled(e, OpForced(t)) && Apply(e, OpForced(t)) == c
  {
    AskStep(c, t);
    hide Inv, WellFormed, AttemptTurn, AwaitTurn, ForcedTurn;
    AttemptStep(AwaitTurn(c, t), t);
  }

  lemma AttemptStep(c: Cache, t: Tid)
    requires Inv(c) && t in c.threads && c.threads[t].Forcing?
    ensures
      && WellFormed(c.store) && Enabled(c, OpAttempt(t))
      && Apply(c, OpAttempt(t)) == AttemptTurn(c, t) && WellFormed(AttemptTurn(c, t).store)
  {
    SoundStore(c);
    hide Inv, WellFormed, AttemptTurn;
    AttemptTurnKeeps(c, t);
    SoundStore(AttemptTurn(c, t));
  }

  lemma AskStep(c: Cache, t: Tid)
    requires Inv(c) && t in c.threads && c.threads[t].Awaiting?
    ensures
      var d := AwaitTurn(c, t);
      && WellFormed(c.store) && Enabled(c, OpAwait(t)) && Apply(c, OpAwait(t)) == d
      && t in d.threads && Inv(d) && WellFormed(d.store)
  {
    SoundStore(c);
    hide Inv, WellFormed;
    ApplyKeeps(c, OpAwait(t));
    SoundStore(AwaitTurn(c, t));
  }

  /** A page larger than the whole cache, as far as the 32-bit count of the shortage goes. */
  predicate TooLarge(maxBytes: nat, seg: Segment) {
    seg.pageSize > maxBytes && ToInt(seg.pageSize - maxBytes) > 0
  }

  /** An empty cache with one request that waits. */
  function LoneWaiter(maxBytes: nat, seg: Segment): Cache {
    EmptyCache(maxBytes, 0).(threads := map[0 := Awaiting(seg, false)])
  }

  /** The first two operations of a lone blocking request. */
  function Alone(seg: Segment): seq<Op> {
    [OpRequest(0, seg), OpCreate(0)]
  }

  lemma AloneReaches(maxBytes: nat, seg: Segment)
    ensures Legal(EmptyCache(maxBytes, 0), Alone(seg))
    ensures
      var c := Reached(EmptyCache(maxBytes, 0), Alone(seg));
      if TooLarge(maxBytes, seg) then c == LoneWaiter(maxBytes, seg) && Inv(c) else 0 !in c.threads
  {
    var e := EmptyCache(maxBytes, 0);
    EmptyCacheSound(maxBytes, 0);
    var c := Apply(e, OpRequest(0, seg));
    ApplyKeeps(e, OpRequest(0, seg));
    ApplyKeeps(c, OpCreate(0));
    AloneTurn(maxBytes, seg);
    hide Inv, ToInt, CreateTurn;
    OneStep(c, OpCreate(0), []);
    OneStep(e, OpRequest(0, seg), [OpCreate(0)] + []);
    assert Alone(seg) == [OpRequest(0, seg)] + ([OpCreate(0)] + []);
  }

  lemma AloneTurn(maxBytes: nat, seg: Segment)
    ensures
      var c := EmptyCache(maxBytes, 0).(threads := map[0 := Creating(seg, false)]);
      && WellFormed(c.store)
      && var d := CreateTurn(c, 0);
      if TooLarge(maxBytes, seg) then d == LoneWaiter(maxBytes, seg) else 0 !in d.threads
  {
    hide ToInt;
    var s := EmptyCache(maxBytes, 0).store;
    assert RunAll(StartRun(s), seg.pageSize - maxBytes) == StartRun(s);
  }

  /**
   A lone blocking request on an empty cache comes back for the same bytes, and so for ever, exactly
   when its page is larger than max_bytes and the 32-bit count of the shortage says so too: for pages
   of a 32-bit size, exactly when the page is larger than max_bytes.
   */
  lemma LoneRequest(maxBytes: nat, seg: Segment)
    ensures Legal(EmptyCache(maxBytes, 0), Alone(seg))
    ensures
      var c := Reached(EmptyCache(maxBytes, 0), Alone(seg));
      var waits := 0 in c.threads && c.threads[0].Awaiting?;
      && (waits ==> WellFormed(c.store))
      && (waits && ComesBack(c, 0) <==> TooLarge(maxBytes, seg))
      && (SmallPages(seg) ==> (TooLarge(maxBytes, seg) <==> seg.pageSize > maxBytes))
  {
    AloneReaches(maxBytes, seg);
    if TooLarge(maxBytes, seg) {
      ComesBackExactlyWhen(LoneWaiter(maxBytes, seg), 0);
    }
    if SmallPages(seg) && seg.pageSize > maxBytes {
      SmallInt(seg.pageSize - maxBytes);
    }
    hide ComesBack, Alone;
  }
}
