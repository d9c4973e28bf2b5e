/**
 The slot pool of a recursive copy (lio_core_io.c:1500-1624): one task per file, at most
 `maxSpawn` at a time, each with its own argument slot, reaped in whatever order they finish.
 */
module CopyPool {
  import opened TaskSlots

  /** What the object iterator yields; `ok` is how copying a file will end. */
  datatype Entry = Entry(path: string, isDir: bool, ok: bool)

  /** Directories are only created; the files are what the pool copies. */
  function Files(entries: seq<Entry>): seq<Entry> {
    if entries == [] then []
    else if entries[0].isDir then Files(entries[1..])
    else [entries[0]] + Files(entries[1..])
  }

  /** Every file is there as often as it was listed, and no directory. */
  lemma {:induction false} FilesAreAll(entries: seq<Entry>, e: Entry)
    ensures multiset(Files(entries))[e] == if e.isDir then 0 else multiset(entries)[e]
  {
    if entries != [] {
      FilesAreAll(entries[1..], e);
      assert entries == [entries[0]] + entries[1..];
    }
  }

  /** How many of the files that came back so far failed. */
  ghost function Failures(files: seq<Entry>, order: seq<nat>): nat
    requires forall k :: k in order ==> k < |files|
  {
    if order == [] then 0
    else
      var last := |order| - 1;
      assert order[last] in order && forall k :: k in order[..last] ==> k in order;
      Failures(files, order[..last]) + if files[order[last]].ok then 0 else 1
  }

  lemma {:induction false} NoFailures(files: seq<Entry>, order: seq<nat>)
    requires forall k :: k in order ==> k < |files|
    ensures Failures(files, order) == 0 <==> forall k :: k in order ==> files[k].ok
  {
    if order != [] {
      var last := |order| - 1;
      assert order[last] in order && forall k :: k in order[..last] ==> k in order;
      NoFailures(files, order[..last]);
      assert forall k :: k in order ==> k in order[..last] || k == order[last];
    }
  }

  /** What was freed for each job that came back is that job's own path. */
  ghost predicate OwnPaths(files: seq<Entry>, order: seq<nat>, reaped: seq<string>) {
    |reaped| == |order| && forall i :: 0 <= i < |order| ==> order[i] < |files| && reaped[i] == files[order[i]].path
  }

  lemma OneMoreBack(files: seq<Entry>, order: seq<nat>, reaped: seq<string>, job: nat)
    requires OwnPaths(files, order, reaped) && job < |files| && forall k :: k in order ==> k < |files|
    ensures OwnPaths(files, order + [job], reaped + [files[job].path])
    ensures forall k :: k in order + [job] ==> k < |files|
    ensures Failures(files, order + [job]) == Failures(files, order) + if files[job].ok then 0 else 1
  {
    assert (order + [job])[..|order|] == order;
  }

  class Pool {
    const maxSpawn: nat
    /** The argument of the task started from each slot. */
    const cplist: array<Entry>
    var inFlight: set<nat>
    var count: nat
    var nerr: nat
    /** The paths freed so far, one per task taken back. */
    var reaped: seq<string>
    ghost const files: seq<Entry>
    ghost var who: map<nat, nat>
    ghost var order: seq<nat>

    /** Each slot in flight holds the argument of its own job. */
    ghost predicate Slots()
      requires cplist.Length == maxSpawn
      reads `who, cplist
    {
      forall s :: s in who ==> s < maxSpawn && who[s] < |files| && cplist[s] == files[who[s]]
    }

    ghost predicate Valid()
      reads this, cplist
    {
      && cplist.Length == maxSpawn
      && count <= |files|
      && Tracked(who, order, count)
      && who.Keys == inFlight
      && Slots()
      && (forall k :: k in order ==> k < |files|)
      && nerr == Failures(files, order)
      && OwnPaths(files, order, reaped)
    }

    constructor (files: seq<Entry>, maxSpawn: nat)
      ensures Valid() && this.files == files && this.maxSpawn == maxSpawn
      ensures count == 0 && inFlight == {} && order == [] && fresh(cplist)
    {
      this.files := files;
      this.maxSpawn := maxSpawn;
      cplist := new Entry[maxSpawn](_ => Entry("", false, true));
      inFlight, count, nerr, reaped := {}, 0, 0, [];
      who, order := map[], [];
    }

    method Fill(slot: nat, file: Entry)
      requires cplist.Length == maxSpawn && Slots() && slot < maxSpawn && slot !in who
      requires count < |files| && file == files[count]
      modifies `who, cplist
      ensures Slots() && who == old(who)[slot := count]
    {
      cplist[slot] := file;
      who := who[slot := count];
    }

    /** 1565-1578: fill a slot, which must not be in use, and start its task. */
    method Start(slot: nat, file: Entry)
      requires Valid() && slot < maxSpawn && slot !in inFlight
      requires count < |files| && file == files[count]
      modifies `inFlight, `count, `who, cplist
      ensures Valid() && inFlight == old(inFlight) + {slot} && count == old(count) + 1
    {
      hide Tracked, Failures, OwnPaths, Slots;
      Launch(who, order, count, slot);
      Fill(slot, file);
      inFlight := inFlight + {slot};
      count := count + 1;
    }

    /** 1581-1591 and 1599-1611: a task has come back, from whichever slot; free its paths. */
    method Reaped() returns (slot: nat)
      requires Valid() && inFlight != {}
      modifies `inFlight, `nerr, `reaped, `who, `order
      ensures Valid() && slot in old(inFlight) && slot < maxSpawn && inFlight == old(inFlight) - {slot}
      ensures |order| == |old(order)| + 1
    {
      hide Tracked, Failures, OwnPaths;
      slot :| slot in inFlight;
      Reap(who, order, count, slot);
      assert slot < maxSpawn && who[slot] < |files| && cplist[slot] == files[who[slot]];
      OneMoreBack(files, order, reaped, who[slot]);
      if !cplist[slot].ok {
        nerr := nerr + 1;
      }
      reaped := reaped + [cplist[slot].path];
      inFlight := inFlight - {slot};
      order := order + [who[slot]];
      who := who - {slot};
    }

    /** The slot the next file goes to: the next unused one at first, later the one just freed. */
    ghost predicate Ready(slot: nat)
      reads this
    {
      && slot < maxSpawn
      && slot !in inFlight
      && (if count < maxSpawn
          then slot == count && (forall s :: s in inFlight <==> 0 <= s < count) && |inFlight| == count
          else |inFlight| == maxSpawn - 1)
    }

    /** 1565-1594 for one file: start it, and when the pool is full wait for any task. */
    method CopyFile(slot: nat, file: Entry) returns (next: nat, ghost busy: nat)
      requires Valid() && Ready(slot)
      requires count < |files| && file == files[count]
      modifies `inFlight, `count, `who, `nerr, `reaped, `order, cplist
      ensures Valid() && Ready(next) && count == old(count) + 1
      ensures busy == |old(inFlight)| + 1 <= maxSpawn
    {
      hide Valid;
      Start(slot, file);
      busy := |inFlight|;
      if count >= maxSpawn {
        next := Reaped();
      } else {
        next := count;
      }
    }

    /** 1599-1611: take back whatever is still out. */
    method Drain()
      requires Valid() && count == |files|
      modifies `inFlight, `nerr, `reaped, `who, `order
      ensures Valid() && Permutation(order, |files|)
    {
      while inFlight != {}
        invariant Valid() && count == |files|
        decreases |inFlight|
      {
        hide Valid;
        var slot := Reaped();
      }
      AllBack(order, |files|);
    }

    /** 1533-1595: the files among the iterator's entries, each through a free slot. */
    method CopyAll(entries: seq<Entry>) returns (ghost most: nat)
      requires Valid() && Ready(0) && count == 0 && files == Files(entries)
      modifies `inFlight, `count, `who, `nerr, `reaped, `order, cplist
      ensures Valid() && count == |files| && most <= maxSpawn
    {
      hide Valid, Ready;
      var slot: nat := 0;
      most := 0;
      for i := 0 to |entries|
        invariant Valid() && Ready(slot)
        invariant count <= |files| && Files(entries[i..]) == files[count..]
        invariant most <= maxSpawn
      {
        var entry := entries[i];
        assert entries[i..][0] == entry && entries[i..][1..] == entries[i + 1..];
        if !entry.isDir {
          assert entry == files[count];
          ghost var busy;
          slot, busy := CopyFile(slot, entry);
          most := if busy > most then busy else most;
        }
      }
    }
  }

  /**
   lio_cp_path_fn: every file is copied by exactly one task and its own paths are freed once; there
   are never more than `maxSpawn` tasks; the result counts the failures, whatever the order.
   */
  method CopyPath(entries: seq<Entry>, maxSpawn: nat)
    returns (nerr: nat, reaped: seq<string>, ghost order: seq<nat>, ghost most: nat)
    requires maxSpawn > 0
    ensures Permutation(order, |Files(entries)|)
    ensures OwnPaths(Files(entries), order, reaped)
    ensures nerr == Failures(Files(entries), order)
    ensures nerr > 0 <==> exists k :: 0 <= k < |Files(entries)| && !Files(entries)[k].ok
    ensures most <= maxSpawn
  {
    var pool := new Pool(Files(entries), maxSpawn);
    most := pool.CopyAll(entries);
    pool.Drain();
    nerr, reaped, order := pool.nerr, pool.reaped, pool.order;
    NoFailures(pool.files, order);
  }
}
