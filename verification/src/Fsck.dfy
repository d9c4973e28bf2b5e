/**
 The consistency check pipeline (lio_core_os.c:1504-1573, 1579-1613): an iterator that keeps up to
 `n` checks in flight, takes them back in whatever order they finish, and is resumed call after
 call, each returning the next broken object.
 */
module Fsck {
  import opened Options
  import opened Sequences
  import opened TaskSlots

  const FSCK_FINISHED := -1
  const FSCK_GOOD := 0

  /** An object the iterator produces; `state` is what checking it yields. */
  datatype Object = Object(name: string, ftype: nat, state: nat)

  /** The broken objects among those checked, in the order their checks finished. */
  ghost function Broken(objects: seq<Object>, order: seq<nat>): seq<Object>
    requires forall k :: k in order ==> k < |objects|
  {
    if order == [] then []
    else
      var last := |order| - 1;
      assert order[last] in order && forall k :: k in order[..last] ==> k in order;
      var before := Broken(objects, order[..last]);
      if objects[order[last]].state != FSCK_GOOD then before + [objects[order[last]]] else before
  }

  /** The broken objects among all of them, in iterator order. */
  function AllBroken(objects: seq<Object>): seq<Object> {
    if objects == [] then []
    else
      var last := |objects| - 1;
      AllBroken(objects[..last]) + if objects[last].state != FSCK_GOOD then [objects[last]] else []
  }

  /** Every broken object is there as often as it was listed, and no other. */
  lemma {:induction false} AllBrokenAreBroken(objects: seq<Object>, o: Object)
    ensures multiset(AllBroken(objects))[o] == if o.state != FSCK_GOOD then multiset(objects)[o] else 0
  {
    if objects != [] {
      var last := |objects| - 1;
      AllBrokenAreBroken(objects[..last], o);
      assert objects == objects[..last] + [objects[last]];
    }
  }

  ghost predicate Within(order: seq<nat>, n: nat) {
    forall k :: k in order ==> k < n
  }

  lemma WithinParts(a: seq<nat>, b: seq<nat>, n: nat)
    requires Within(a + b, n)
    ensures Within(a, n) && Within(b, n)
  {
    forall k | k in a || k in b ensures k < n {
      assert k in a + b;
    }
  }

  lemma {:induction false} BrokenJoins(objects: seq<Object>, a: seq<nat>, b: seq<nat>)
    requires Within(a, |objects|) && Within(b, |objects|)
    ensures Within(a + b, |objects|) && Broken(objects, a + b) == Broken(objects, a) + Broken(objects, b)
    decreases |b|
  {
    if b == [] {
      assert a + b == a;
    } else {
      var last := |b| - 1;
      assert b[..last] + b[last..] == b;
      WithinParts(b[..last], b[last..], |objects|);
      BrokenJoins(objects, a, b[..last]);
      assert (a + b)[..|a| + last] == a + b[..last];
    }
  }

  /** Leaving one check out leaves its object out, if it was broken, and nothing else. */
  lemma BrokenWithout(objects: seq<Object>, a: seq<nat>, job: nat, b: seq<nat>)
    requires Within(a, |objects|) && Within(b, |objects|) && job < |objects|
    ensures Within(a + [job] + b, |objects|) && Within(a + b, |objects|)
    ensures multiset(Broken(objects, a + [job] + b))
      == multiset(Broken(objects, a + b)) + multiset(Broken(objects, [job]))
  {
    BrokenJoins(objects, a, b);
    BrokenJoins(objects, a, [job]);
    BrokenJoins(objects, a + [job], b);
  }

  lemma BrokenOne(objects: seq<Object>, job: nat)
    requires job < |objects|
    ensures Within([job], |objects|)
    ensures Broken(objects, [job]) == if objects[job].state != FSCK_GOOD then [objects[job]] else []
  {
    assert [job][..0] == [];
    assert Broken(objects, []) == [];
  }

  /** Checks of a prefix of the objects see only the prefix. */
  lemma {:induction false} BrokenInPrefix(objects: seq<Object>, order: seq<nat>, n: nat)
    requires n <= |objects| && forall k :: k in order ==> k < n
    ensures Broken(objects, order) == Broken(objects[..n], order)
    decreases |order|
  {
    if order != [] {
      var last := |order| - 1;
      assert order[last] in order && forall k :: k in order[..last] ==> k in order;
      BrokenInPrefix(objects, order[..last], n);
    }
  }

  lemma AllButLast(order: seq<nat>, rest: seq<nat>, last: nat)
    requires Permutation(order, last + 1) && Distinct(rest) && |rest| == last
    requires forall k :: k in rest <==> k in order && k != last
    ensures Permutation(rest, last)
  {
  }

  /** One more object, checked somewhere among those before it. */
  lemma OneMoreObject(objects: seq<Object>, a: seq<nat>, b: seq<nat>)
    requires objects != [] && Within(a + b, |objects| - 1)
    requires multiset(Broken(objects[..|objects| - 1], a + b)) == multiset(AllBroken(objects[..|objects| - 1]))
    ensures Within(a + [|objects| - 1] + b, |objects|)
    ensures multiset(Broken(objects, a + [|objects| - 1] + b)) == multiset(AllBroken(objects))
  {
    var last := |objects| - 1;
    WithinParts(a, b, last);
    BrokenWithout(objects, a, last, b);
    BrokenOne(objects, last);
    BrokenInPrefix(objects, a + b, last);
    hide Broken;
  }

  /** In whatever order all objects were checked, the broken ones found are all there are, once each. */
  lemma {:induction false} AnyOrderFindsAll(objects: seq<Object>, order: seq<nat>)
    requires Permutation(order, |objects|)
    ensures multiset(Broken(objects, order)) == multiset(AllBroken(objects))
    decreases |objects|
  {
    if objects != [] {
      var last := |objects| - 1;
      assert last in order;
      var i :| 0 <= i < |order| && order[i] == last;
      var a, b := order[..i], order[i + 1..];
      WithoutOne(order, i);
      AllButLast(order, a + b, last);
      assert order == a + [last] + b;
      hide Broken, AllBroken, Distinct;
      AnyOrderFindsAll(objects[..last], a + b);
      OneMoreObject(objects, a, b);
    } else {
      assert order == [];
    }
  }

  /** The first `n` slots. */
  ghost function Below(n: nat): set<nat> {
    if n == 0 then {} else Below(n - 1) + {n - 1}
  }

  lemma {:induction false} BelowAll(n: nat)
    ensures forall s: nat :: s in Below(n) <==> s < n
  {
    if n > 0 {
      BelowAll(n - 1);
    }
  }

  lemma BelowNone()
    ensures Below(0) == {}
  {
  }

  lemma BelowNext(n: nat)
    ensures n !in Below(n) && Below(n + 1) == Below(n) + {n}
  {
    BelowAll(n);
  }

  class FsckIter {
    const n: nat
    const task: array<Object>
    /** The object iterator's remaining output. */
    var upcoming: seq<Object>
    /** The slots whose check is in the queue. */
    var inFlight: set<nat>
    var firsttime: int
    var visitedCount: nat
    ghost const objects: seq<Object>
    ghost var who: map<nat, nat>
    ghost var order: seq<nat>

    ghost function Produced(): int
      reads `upcoming
    {
      |objects| - |upcoming|
    }

    /** Every object is still to come, in one slot, or checked once; each slot holds its own object. */
    ghost predicate Conserved()
      reads `upcoming, `inFlight, `who, `order, task
    {
      && task.Length == n
      && 0 <= Produced() <= |objects| && upcoming == objects[Produced()..]
      && Tracked(who, order, Produced())
      && who.Keys == inFlight
      && (forall s :: s in who ==> s < n && who[s] < |objects| && task[s] == objects[who[s]])
      && (forall k :: k in order ==> k < |objects|)
    }

    ghost predicate Full()
      reads `inFlight
    {
      forall s: nat :: s < n ==> s in inFlight
    }

    /** While objects are left, every slot is busy. */
    ghost predicate Valid()
      reads this, task
    {
      && Conserved()
      && visitedCount == |order|
      && 1 <= firsttime <= 3
      && (firsttime == 1 ==> who == map[] && order == [] && upcoming == objects)
      && (firsttime == 2 && upcoming != [] ==> Full())
      && (firsttime == 3 ==> upcoming == [])
    }

    /** lio_create_fsck_iter. */
    constructor (objects: seq<Object>, n: nat)
      ensures Valid() && this.objects == objects && this.n == n && order == [] && fresh(task)
    {
      this.objects := objects;
      this.n := n;
      task := new Object[n](_ => Object("", 0, 0));
      upcoming, inFlight, firsttime, visitedCount := objects, {}, 1, 0;
      who, order := map[], [];
      new;
      assert objects[0..] == objects;
    }

    /** Put the iterator's next object into a slot and queue its check. */
    method Launch(slot: nat)
      requires Conserved() && slot < n && slot !in inFlight && upcoming != []
      modifies `upcoming, `inFlight, `who, task
      ensures Conserved() && upcoming == old(upcoming)[1..] && inFlight == old(inFlight) + {slot}
    {
      hide Tracked;
      ghost var job := Produced();
      assert upcoming[0] == objects[job];
      TaskSlots.Launch(who, order, job, slot);
      task[slot] := upcoming[0];
      upcoming := upcoming[1..];
      inFlight := inFlight + {slot};
      who := who[slot := job];
    }

    lemma NothingYet()
      requires Valid() && firsttime == 1
      ensures inFlight == {}
    {
      hide Tracked;
    }

    /** The first call fills the slots. */
    method Fill()
      requires Valid() && firsttime == 1
      modifies `upcoming, `inFlight, `firsttime, `who, task
      ensures Valid() && firsttime == 2 && order == old(order)
    {
      hide Conserved, Full;
      NothingYet();
      firsttime := 2;
      FillSlots();
    }

    /** 1514-1526: a check for each slot in turn, until the slots or the objects run out. */
    method FillSlots()
      requires Conserved() && inFlight == {}
      modifies `upcoming, `inFlight, `who, task
      ensures Conserved() && (upcoming != [] ==> Full())
    {
      hide Conserved, Below;
      BelowNone();
      var slot := 0;
      while slot < n && upcoming != []
        invariant 0 <= slot <= n && Conserved() && inFlight == Below(slot)
      {
        BelowNext(slot);
        Launch(slot);
        slot := slot + 1;
      }
      BelowAll(n);
    }

    /**
     lio_next_fsck: take checks back, launching the next object into each freed slot, until one
     finds a broken object or none is left.
     */
    method Next() returns (code: int, bad: Option<Object>)
      requires Valid()
      modifies this, task
      ensures Valid() && old(order) <= order && firsttime >= 2
      ensures code == FSCK_FINISHED <==> bad.None?
      ensures bad.None? ==> Broken(objects, order) == Broken(objects, old(order)) && inFlight == {}
      ensures bad.None? && n > 0 ==> upcoming == []
      ensures bad.None? && n == 0 ==> order == old(order)
      ensures bad.Some? ==>
        && code == bad.value.state != FSCK_GOOD
        && Broken(objects, order) == Broken(objects, old(order)) + [bad.value]
        && |order| > |old(order)|
    {
      if firsttime == 1 {
        Fill();
      }
      while inFlight != {}
        invariant Valid() && firsttime >= 2 && old(order) <= order
        invariant Broken(objects, order) == Broken(objects, old(order))
        invariant n == 0 ==> order == old(order)
        decreases |objects| - |order|
      {
        SomeOut(who, order, Produced());
        var slot :| slot in inFlight;
        var finished := task[slot];
        TakeBack(slot);
        if finished.state != FSCK_GOOD {
          return finished.state, Some(finished);
        }
      }
      assert firsttime == 2 && upcoming != [] && n > 0 ==> 0 in inFlight;
      return FSCK_FINISHED, None;
    }

    lemma InRange(slot: nat)
      requires Conserved() && slot in inFlight
      ensures slot < n && slot in who
    {
      hide Tracked;
    }

    /** waitany has returned the check in `slot`: count it, and reuse the slot if anything is left. */
    method TakeBack(slot: nat)
      requires Valid() && firsttime >= 2 && slot in inFlight
      modifies this, task
      ensures Valid() && firsttime >= 2
      ensures order == old(order) + [old(who)[slot]]
      ensures Broken(objects, order) ==
        if old(task[slot]).state != FSCK_GOOD then Broken(objects, old(order)) + [old(task[slot])]
        else Broken(objects, old(order))
    {
      hide Tracked, Broken, Conserved;
      InRange(slot);
      ghost var busy := inFlight;
      Return(slot);
      if firsttime == 2 {
        if upcoming == [] {
          firsttime := 3;
        } else {
          Launch(slot);
          assert inFlight == busy;
        }
      }
    }

    /** The check in `slot` has come back: the slot is free. */
    method Return(slot: nat)
      requires Conserved() && slot in inFlight
      modifies `visitedCount, `inFlight, `order, `who
      ensures Conserved() && inFlight == old(inFlight) - {slot}
      ensures visitedCount == old(visitedCount) + 1
      ensures order == old(order) + [old(who)[slot]]
      ensures Broken(objects, order) ==
        if task[slot].state != FSCK_GOOD then Broken(objects, old(order)) + [task[slot]]
        else Broken(objects, old(order))
    {
      visitedCount := visitedCount + 1;
      Reap(who, order, Produced(), slot);
      inFlight := inFlight - {slot};
      order := order + [who[slot]];
      who := who - {slot};
      assert order[..|order| - 1] == old(order);
    }
  }

  /**
   Calling lio_next_fsck until it reports FINISHED, for any completion order and any number of
   slots: every object is checked once, and what was returned is every broken object, once each
   and in the order the checks finished.
   */
  method FsckAll(objects: seq<Object>, n: nat) returns (bad: seq<Object>, visited: nat, ghost order: seq<nat>)
    requires n > 0
    ensures Permutation(order, |objects|)
    ensures bad == Broken(objects, order)
    ensures multiset(bad) == multiset(AllBroken(objects))
    ensures visited == |objects|
  {
    var it := new FsckIter(objects, n);
    bad := [];
    while true
      invariant it.Valid() && it.objects == objects && it.n == n
      invariant fresh(it) && fresh(it.task)
      invariant bad == Broken(objects, it.order)
      decreases |objects| - |it.order|
    {
      assert |it.order| <= |objects| by {
        Room(it.order, |objects|);
      }
      var code, broken := it.Next();
      if code == FSCK_FINISHED {
        break;
      }
      bad := bad + [broken.value];
    }
    order := it.order;
    AllBack(order, |objects|);
    AnyOrderFindsAll(objects, order);
    visited := it.visitedCount;
  }
}
