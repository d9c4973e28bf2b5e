/**
 The prefetch window of the AMP cache (cache_amp.c:535-597, and the counters of amp_prefetch_fn
 at 417 and 495): how a wanted range becomes a page-aligned fetch, and how `prefetch_in_process`
 lets one fetch at a time through.
 */
module Prefetch {
  import opened Options
  import opened Sequences
  import Division

  /** A fetch from the page at `lo` to the page at `hi`. */
  datatype Fetch = Fetch(lo: int, hi: int, pageSize: int) {
    function Size(): int {
      hi + pageSize - lo
    }
  }

  datatype Limits = Limits(maxFetch: int, minPrefetch: int)

  datatype Request = Request(lo: int, hi: int, pageSize: int, totalSize: int) {
    /** What the callers at 756 and 1208 guarantee. */
    predicate Sensible() {
      0 <= lo <= hi && 0 < pageSize && 0 <= totalSize
    }
  }

  /** C division truncates toward zero. */
  function Row(x: int, pageSize: int): int
    requires 0 < pageSize
  {
    if x >= 0 then x / pageSize * pageSize else -((-x) / pageSize * pageSize)
  }

  /** Clip the wanted range to the end of file and the fetch limit, and map it to pages; or refuse. */
  function Clip(limits: Limits, inProcess: int, r: Request): Option<Fetch>
    requires 0 < r.pageSize
  {
    if r.totalSize < r.lo then None
    else
      var hi1 := if r.hi + r.pageSize - r.lo < limits.minPrefetch then r.lo + limits.minPrefetch else r.hi;
      var hi2 := if r.totalSize <= hi1 then r.totalSize - 1 else hi1;
      if limits.maxFetch <= inProcess || inProcess > 0 then None
      else
        var room := limits.maxFetch - inProcess;
        var hi3 := if room < hi2 - r.lo + 1 then r.lo + room - 1 else hi2;
        Some(Fetch(Row(r.lo, r.pageSize), Row(hi3, r.pageSize), r.pageSize))
  }

  /**
   A byte that the request is for: from its beginning, in the file, within the fetch limit, and up to the
   end of the request, or as far as the least prefetch when the request with a page more is shorter than that.
   */
  predicate Wanted(limits: Limits, r: Request, x: int) {
    && r.lo <= x < r.totalSize && x < r.lo + limits.maxFetch
    && (x <= r.hi || (r.hi + r.pageSize - r.lo < limits.minPrefetch && x <= r.lo + limits.minPrefetch))
  }

  /** A fetch that is let through has every byte wanted, and its last page begins no later than some byte wanted. */
  lemma FetchesAllWanted(limits: Limits, inProcess: int, r: Request)
    requires r.Sensible() && inProcess >= 0 && limits.minPrefetch >= 0
    requires Clip(limits, inProcess, r).Some?
    ensures
      var f := Clip(limits, inProcess, r).value;
      && (forall x :: Wanted(limits, r, x) ==> f.lo <= x < f.lo + f.Size())
      && ((exists x :: Wanted(limits, r, x)) ==> exists x :: Wanted(limits, r, x) && f.hi <= x)
      && ((forall x :: !Wanted(limits, r, x)) <==> r.lo == r.totalSize)
  {
    var hi1 := if r.hi + r.pageSize - r.lo < limits.minPrefetch then r.lo + limits.minPrefetch else r.hi;
    var hi2 := if r.totalSize <= hi1 then r.totalSize - 1 else hi1;
    var hi3 := if limits.maxFetch < hi2 - r.lo + 1 then r.lo + limits.maxFetch - 1 else hi2;
    RowBelow(r.lo, r.pageSize);
    RowBelow(hi3, r.pageSize);
    forall x ensures Wanted(limits, r, x) <==> r.lo <= x <= hi3 {
    }
    hide Row;
    if hi3 >= r.lo {
      assert Wanted(limits, r, hi3);
    }
  }

  /** When a request is let through: it begins in the file or at its end, and nothing is on the counter. */
  lemma LetThroughExactlyWhen(limits: Limits, inProcess: int, r: Request)
    requires r.Sensible() && inProcess >= 0
    ensures Clip(limits, inProcess, r).Some? <==> r.lo <= r.totalSize && inProcess == 0 < limits.maxFetch
  {
  }

  lemma RowBelow(x: int, pageSize: int)
    requires 0 < pageSize
    ensures Row(x, pageSize) % pageSize == 0
    ensures x >= 0 ==> Row(x, pageSize) <= x < Row(x, pageSize) + pageSize
    ensures x == -1 ==> Row(x, pageSize) == if pageSize == 1 then -1 else 0
  {
    if x >= 0 {
      Division.Multiple(x / pageSize, pageSize);
    } else {
      var q := (-x) / pageSize;
      Division.Multiple(-q, pageSize);
      assert Row(x, pageSize) == -(q * pageSize) == (-q) * pageSize;
      if x == -1 {
        Division.Unique(1, pageSize, if pageSize == 1 then 1 else 0, if pageSize == 1 then 0 else 1);
      }
    }
  }

  /** Rows are a whole number of pages apart. */
  lemma RowsOrdered(x: int, y: int, pageSize: int)
    requires 0 < pageSize && 0 <= x <= y
    ensures Row(x, pageSize) <= Row(y, pageSize)
    ensures Row(x, pageSize) < Row(y, pageSize) ==> Row(x, pageSize) + pageSize <= Row(y, pageSize)
  {
    Division.QuotientsOrdered(x, y, pageSize);
    Division.Ordered(x / pageSize, y / pageSize, pageSize);
  }

  /**
   Every fetch let through is page aligned, starts at the page of the request, and is shorter
   than the fetch limit plus two pages. Its last page begins before the end of file exactly when
   the file is not empty; and it fetches nothing exactly when the request starts at the end of a
   file that ends on a page boundary.
   */
  lemma FetchLetThrough(limits: Limits, inProcess: int, r: Request)
    requires r.Sensible() && inProcess >= 0 && limits.minPrefetch >= 0
    requires Clip(limits, inProcess, r).Some?
    ensures
      var f := Clip(limits, inProcess, r).value;
      && f.pageSize == r.pageSize
      && f.lo % r.pageSize == 0 && f.hi % r.pageSize == 0
      && f.lo <= r.lo < f.lo + r.pageSize
      && 0 <= f.Size() < limits.maxFetch + 2 * r.pageSize
      && inProcess == 0 < limits.maxFetch
      && (f.hi < r.totalSize <==> r.totalSize > 0 || r.pageSize == 1)
      && (f.Size() == 0 <==> r.lo == r.totalSize && r.lo % r.pageSize == 0 && (r.lo > 0 || r.pageSize == 1))
  {
    var hi1 := if r.hi + r.pageSize - r.lo < limits.minPrefetch then r.lo + limits.minPrefetch else r.hi;
    var hi2 := if r.totalSize <= hi1 then r.totalSize - 1 else hi1;
    var hi3 := if limits.maxFetch < hi2 - r.lo + 1 then r.lo + limits.maxFetch - 1 else hi2;
    RowBelow(r.lo, r.pageSize);
    RowBelow(hi3, r.pageSize);
    if hi3 >= r.lo {
      RowsOrdered(r.lo, hi3, r.pageSize);
    } else {
      assert hi3 == r.lo - 1 == r.totalSize - 1;
      BeforeEnd(r.lo, r.pageSize);
    }
  }

  /** The row before a position is the same row unless the position is page aligned. */
  lemma BeforeEnd(lo: int, pageSize: int)
    requires 0 <= lo && 0 < pageSize
    ensures lo > 0 && lo % pageSize == 0 ==> Row(lo - 1, pageSize) == Row(lo, pageSize) - pageSize
    ensures lo % pageSize != 0 ==> Row(lo - 1, pageSize) == Row(lo, pageSize)
  {
    if lo > 0 {
      var q, r := lo / pageSize, lo % pageSize;
      assert lo == q * pageSize + r;
      if r == 0 {
        Division.Distributes(q, -1, pageSize);
        Division.Unique(lo - 1, pageSize, q - 1, pageSize - 1);
      } else {
        Division.Unique(lo - 1, pageSize, q, r - 1);
      }
    }
  }

  /** An empty file is still fetched from, a page of it. */
  lemma EmptyFileFetched()
    ensures Clip(Limits(100, 0), 0, Request(0, 10, 8, 0)) == Some(Fetch(0, 0, 8))
  {
  }

  // ---------------------------------------------------------------- runs

  /** `leaked` is what calls for segments marked for removal have put on the counter for good. */
  datatype Pool = Pool(inProcess: int, outstanding: seq<Fetch>, leaked: int)

  datatype Op =
    | Ask(request: Request, registered: bool)
    | Complete(which: nat)

  function Outstanding(fetches: seq<Fetch>): int {
    if fetches == [] then 0 else fetches[0].Size() + Outstanding(fetches[1..])
  }

  ghost predicate Possible(p: Pool, op: Op) {
    match op
    case Ask(r, registered) => r.Sensible()
    case Complete(i) => i < |p.outstanding|
  }

  function Step(limits: Limits, p: Pool, op: Op): Pool
    requires Possible(p, op)
  {
    match op
    case Ask(r, registered) =>
      var fetch := Clip(limits, p.inProcess, r);
      if fetch.None? then p
      else if registered then
        Pool(p.inProcess + fetch.value.Size(), p.outstanding + [fetch.value], p.leaked)
      else
        Pool(p.inProcess + fetch.value.Size(), p.outstanding, p.leaked + fetch.value.Size())
    case Complete(i) =>
      Pool(p.inProcess - p.outstanding[i].Size(), Without(p.outstanding, i), p.leaked)
  }

  /** No two of these fetches both have pages. */
  ghost predicate OneAtMost(fetches: seq<Fetch>) {
    && (forall i :: 0 <= i < |fetches| ==> fetches[i].Size() >= 0)
    && (forall i, j :: 0 <= i < j < |fetches| ==> fetches[i].Size() == 0 || fetches[j].Size() == 0)
  }

  /** The counter is what is outstanding plus what leaked, and at most one outstanding fetch has pages. */
  ghost predicate Inv(p: Pool) {
    && p.inProcess == Outstanding(p.outstanding) + p.leaked
    && p.leaked >= 0
    && OneAtMost(p.outstanding)
    && (p.leaked > 0 ==> forall i :: 0 <= i < |p.outstanding| ==> p.outstanding[i].Size() == 0)
  }

  lemma {:induction false} OutstandingAt(fetches: seq<Fetch>, i: nat)
    requires i < |fetches|
    ensures Outstanding(fetches) == fetches[i].Size() + Outstanding(Without(fetches, i))
  {
    if i == 0 {
      assert Without(fetches, 0) == fetches[1..];
    } else {
      OutstandingAt(fetches[1..], i - 1);
      var rest := Without(fetches, i);
      assert rest[1..] == Without(fetches[1..], i - 1);
    }
  }

  lemma {:induction false} OutstandingAppend(fetches: seq<Fetch>, f: Fetch)
    ensures Outstanding(fetches + [f]) == Outstanding(fetches) + f.Size()
  {
    if fetches == [] {
      assert [f][1..] == [];
    } else {
      OutstandingAppend(fetches[1..], f);
      assert (fetches + [f])[1..] == fetches[1..] + [f];
    }
  }

  /** With nothing on the counter, nothing that is outstanding has pages. */
  lemma {:induction false} AllEmpty(fetches: seq<Fetch>)
    requires forall i :: 0 <= i < |fetches| ==> fetches[i].Size() >= 0
    ensures Outstanding(fetches) >= 0
    ensures Outstanding(fetches) == 0 ==> forall i :: 0 <= i < |fetches| ==> fetches[i].Size() == 0
  {
    if fetches != [] {
      AllEmpty(fetches[1..]);
      assert forall i :: 0 < i < |fetches| ==> fetches[i] == fetches[1..][i - 1];
    }
  }

  lemma AskKeeps(limits: Limits, p: Pool, r: Request, registered: bool)
    requires Inv(p) && r.Sensible() && limits.minPrefetch >= 0
    ensures Inv(Step(limits, p, Op.Ask(r, registered)))
    ensures p.leaked <= Step(limits, p, Op.Ask(r, registered)).leaked
  {
    AllEmpty(p.outstanding);
    if Clip(limits, p.inProcess, r).Some? {
      FetchLetThrough(limits, p.inProcess, r);
      OutstandingAppend(p.outstanding, Clip(limits, p.inProcess, r).value);
      hide Clip;
    }
  }

  lemma CompleteKeeps(limits: Limits, p: Pool, i: nat)
    requires Inv(p) && i < |p.outstanding|
    ensures Inv(Step(limits, p, Complete(i)))
  {
    OutstandingAt(p.outstanding, i);
    FewerOutstanding(p.outstanding, i);
    hide Outstanding, OneAtMost;
    var rest := Without(p.outstanding, i);
    if p.leaked > 0 {
      forall k | 0 <= k < |rest| ensures rest[k].Size() == 0 {
        assert rest[k] == p.outstanding[if k < i then k else k + 1];
      }
    }
  }

  lemma FewerOutstanding(fetches: seq<Fetch>, i: nat)
    requires OneAtMost(fetches) && i < |fetches|
    ensures OneAtMost(Without(fetches, i))
  {
    var rest := Without(fetches, i);
    forall k | 0 <= k < |rest| ensures rest[k] == fetches[if k < i then k else k + 1] {
    }
  }

  lemma StepKeeps(limits: Limits, p: Pool, op: Op)
    requires Inv(p) && Possible(p, op) && limits.minPrefetch >= 0
    ensures Inv(Step(limits, p, op))
  {
    match op
    case Ask(r, registered) => AskKeeps(limits, p, r, registered);
    case Complete(i) => CompleteKeeps(limits, p, i);
  }

  /**
   A request for a registered segment that is let through puts its fetch among the outstanding ones and
   its bytes on the counter; with pages in it nothing more is let through; and its completion undoes both.
   */
  lemma AskEffect(limits: Limits, p: Pool, r: Request)
    requires Inv(p) && r.Sensible() && limits.minPrefetch >= 0 && Clip(limits, p.inProcess, r).Some?
    ensures
      var f := Clip(limits, p.inProcess, r).value;
      var q := Step(limits, p, Op.Ask(r, true));
      && q.outstanding == p.outstanding + [f] && q.inProcess == p.inProcess + f.Size() && q.leaked == p.leaked
      && (f.Size() > 0 ==> forall other: Request :: other.pageSize > 0 ==> Clip(limits, q.inProcess, other).None?)
      && Step(limits, q, Complete(|p.outstanding|)) == p
  {
    AllEmpty(p.outstanding);
    var f := Clip(limits, p.inProcess, r).value;
    assert Without(p.outstanding + [f], |p.outstanding|) == p.outstanding;
  }

  ghost predicate Legal(limits: Limits, p: Pool, ops: seq<Op>)
    decreases |ops|
  {
    ops == [] || (Possible(p, ops[0]) && Legal(limits, Step(limits, p, ops[0]), ops[1..]))
  }

  function Reached(limits: Limits, p: Pool, ops: seq<Op>): Pool
    requires Legal(limits, p, ops)
    decreases |ops|
  {
    if ops == [] then p else Reached(limits, Step(limits, p, ops[0]), ops[1..])
  }

  /** Lines 535, 551 and 556: the request goes no further. */
  predicate Refused(limits: Limits, inProcess: int, r: Request) {
    r.totalSize < r.lo || limits.maxFetch <= inProcess || inProcess > 0
  }

  /** The request starts at the end of a file that ends on a page boundary: there is nothing to fetch. */
  predicate AtEnd(r: Request)
    requires 0 < r.pageSize
  {
    r.lo == r.totalSize && r.lo % r.pageSize == 0 && (r.lo > 0 || r.pageSize == 1)
  }

  /** A request for a segment that is being removed does no harm if it is refused or has nothing to fetch. */
  ghost predicate Harmless(limits: Limits, p: Pool, op: Op)
    requires Possible(p, op)
  {
    op.Ask? ==> op.registered || Refused(limits, p.inProcess, op.request) || AtEnd(op.request)
  }

  ghost predicate AllHarmless(limits: Limits, p: Pool, ops: seq<Op>)
    requires Legal(limits, p, ops)
    decreases |ops|
  {
    ops == [] || (Harmless(limits, p, ops[0]) && AllHarmless(limits, Step(limits, p, ops[0]), ops[1..]))
  }

  /** The counter leaks exactly in the steps that are not harmless. */
  lemma StepLeaks(limits: Limits, p: Pool, op: Op)
    requires Inv(p) && Possible(p, op) && limits.minPrefetch >= 0
    ensures p.leaked <= Step(limits, p, op).leaked
    ensures p.leaked == Step(limits, p, op).leaked <==> Harmless(limits, p, op)
  {
    AllEmpty(p.outstanding);
    if op.Ask? {
      assert Clip(limits, p.inProcess, op.request).None? <==> Refused(limits, p.inProcess, op.request);
      if Clip(limits, p.inProcess, op.request).Some? {
        FetchLetThrough(limits, p.inProcess, op.request);
        hide Clip;
      }
    }
  }

  /**
   In every run at most one outstanding fetch has pages in it, and once all have completed the
   counter is back to what leaked. It leaks nothing exactly when every request for a segment that was
   being removed was refused or had nothing to fetch.
   */
  lemma {:induction false} EveryRun(limits: Limits, p: Pool, ops: seq<Op>)
    requires Inv(p) && Legal(limits, p, ops) && limits.minPrefetch >= 0
    ensures
      var q := Reached(limits, p, ops);
      && Inv(q)
      && (q.outstanding == [] ==> q.inProcess == q.leaked)
      && p.leaked <= q.leaked
      && (q.leaked == p.leaked <==> AllHarmless(limits, p, ops))
    decreases |ops|
  {
    if ops != [] {
      StepKeeps(limits, p, ops[0]);
      StepLeaks(limits, p, ops[0]);
      hide Inv, Step, Harmless;
      EveryRun(limits, Step(limits, p, ops[0]), ops[1..]);
      SettledCounter(Reached(limits, p, ops));
    } else {
      SettledCounter(p);
    }
  }

  lemma SettledCounter(p: Pool)
    requires Inv(p)
    ensures p.outstanding == [] ==> p.inProcess == p.leaked
  {
  }

  /** One request for the first page of a file does it. */
  lemma OneRequestLeaks()
    ensures
      var limits, idle, op := Limits(100, 0), Pool(0, [], 0), Ask(Request(0, 7, 8, 64), false);
      && Inv(idle)
      && Possible(idle, op)
      && !Harmless(limits, idle, op)
      && Step(limits, idle, op) == Pool(8, [], 8)
  {
    var limits, r := Limits(100, 0), Request(0, 7, 8, 64);
    assert Row(0, 8) == 0 && Row(7, 8) == 0;
    assert Clip(limits, 0, r) == Some(Fetch(0, 0, 8)) by {
      hide Row;
    }
    hide Clip;
  }

  /** Once anything has leaked, no request is ever let through again. */
  lemma {:induction false} LeakStopsPrefetching(limits: Limits, p: Pool, ops: seq<Op>, r: Request)
    requires Inv(p) && p.leaked > 0 && Legal(limits, p, ops) && limits.minPrefetch >= 0 && r.Sensible()
    ensures
      var q := Reached(limits, p, ops);
      && |q.outstanding| <= |p.outstanding|
      && Clip(limits, q.inProcess, r).None?
    decreases |ops|
  {
    AllEmpty(p.outstanding);
    if ops != [] {
      StepKeeps(limits, p, ops[0]);
      hide Inv, Clip;
      LeakStopsPrefetching(limits, Step(limits, p, ops[0]), ops[1..], r);
    }
  }

  // ---------------------------------------------------------------- as the source does it

  class Prefetcher {
    const limits: Limits
    var inProcess: int
    var outstanding: seq<Fetch>
    ghost var leaked: int

    ghost function State(): Pool
      reads this
    {
      Pool(inProcess, outstanding, leaked)
    }

    method Ask(r: Request, registered: bool) returns (fetch: Option<Fetch>)
      requires r.Sensible()
      modifies this
      ensures State() == Step(limits, old(State()), Op.Ask(r, registered))
      ensures fetch == if registered then Clip(limits, old(inProcess), r) else None
    {
      fetch := None;
      var lo, hi := r.lo, r.hi;
      if r.totalSize < lo {
        return;
      }
      var nbytes := hi + r.pageSize - lo;
      if nbytes < limits.minPrefetch {
        hi := lo + limits.minPrefetch;
      }
      if r.totalSize <= hi {
        hi := r.totalSize - 1;
      }
      if limits.maxFetch <= inProcess {
        return;
      }
      var room := limits.maxFetch - inProcess;
      if inProcess > 0 {
        return;
      }
      nbytes := hi - lo + 1;
      if room < nbytes {
        hi := lo + room - 1;
      }
      var loRow, hiRow := Row(lo, r.pageSize), Row(hi, r.pageSize);
      nbytes := hiRow + r.pageSize - loRow;
      inProcess := inProcess + nbytes;
      if !registered {
        leaked := leaked + nbytes;
        return;
      }
      fetch := Some(Fetch(loRow, hiRow, r.pageSize));
      outstanding := outstanding + [fetch.value];
    }

    method Completed(i: nat)
      requires i < |outstanding|
      modifies this
      ensures State() == Step(limits, old(State()), Op.Complete(i))
    {
      var f := outstanding[i];
      inProcess := inProcess - (f.hi + f.pageSize - f.lo);
      outstanding := outstanding[..i] + outstanding[i + 1..];
    }
  }
}
