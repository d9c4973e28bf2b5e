/**
 Bookkeeping for a fixed set of task slots that are filled in turn and come back in any order
 (an opque and its waitany). `who` gives the job in each slot in flight, `order` the jobs that
 have come back, in the order they did.
 */
module TaskSlots {
  import opened Sequences

  /** Jobs are numbered as they are launched: each is in one slot or has come back, once. */
  ghost predicate Tracked(who: map<nat, nat>, order: seq<nat>, launched: nat) {
    && Distinct(order)
    && (forall s, t :: s in who && t in who && s != t ==> who[s] != who[t])
    && (forall s :: s in who ==> who[s] < launched && who[s] !in order)
    && (forall k :: k in order ==> k < launched)
    && (forall k: nat :: k < launched ==> k in order || InSlot(who, k))
  }

  ghost predicate InSlot(who: map<nat, nat>, k: nat) {
    exists s :: s in who && who[s] == k
  }

  lemma Launch(who: map<nat, nat>, order: seq<nat>, launched: nat, slot: nat)
    requires Tracked(who, order, launched) && slot !in who
    ensures Tracked(who[slot := launched], order, launched + 1)
  {
    var next := who[slot := launched];
    forall k: nat | k <= launched ensures k in order || InSlot(next, k) {
      if k == launched {
        assert next[slot] == k;
      } else if k !in order {
        var s :| s in who && who[s] == k;
        assert next[s] == k;
      }
    }
  }

  lemma Reap(who: map<nat, nat>, order: seq<nat>, launched: nat, slot: nat)
    requires Tracked(who, order, launched) && slot in who
    ensures Tracked(who - {slot}, order + [who[slot]], launched)
  {
    var next := who - {slot};
    var after := order + [who[slot]];
    forall k: nat | k < launched ensures k in after || InSlot(next, k) {
      if k == who[slot] {
        assert after[|order|] == k;
      } else if k !in order {
        var s :| s in who && who[s] == k;
        assert next[s] == k;
      }
    }
  }

  /** Every number below `n`, once each, in some order. */
  ghost predicate Permutation(order: seq<nat>, n: nat) {
    Distinct(order) && |order| == n && forall k: nat :: k in order <==> k < n
  }

  /** When no slot is in flight every launched job has come back exactly once. */
  lemma AllBack(order: seq<nat>, launched: nat)
    requires Tracked(map[], order, launched)
    ensures Permutation(order, launched)
  {
    forall k: nat | k < launched ensures k in order {
      assert !InSlot(map[], k);
    }
    Count(order, launched);
  }

  /** While a slot is in flight, fewer jobs have come back than were launched. */
  lemma SomeOut(who: map<nat, nat>, order: seq<nat>, launched: nat)
    requires Tracked(who, order, launched) && who != map[]
    ensures |order| < launched
  {
    var s :| s in who;
    Room(order + [who[s]], launched);
  }

  lemma {:induction false} Count(order: seq<nat>, n: nat)
    requires Distinct(order) && forall k: nat :: k in order <==> k < n
    ensures |order| == n
  {
    assert order == [] || order[0] in order;
    if n > 0 {
      assert n - 1 in order;
      var i :| 0 <= i < |order| && order[i] == n - 1;
      WithoutOne(order, i);
      Count(Without(order, i), n - 1);
    }
  }

  lemma {:induction false} Room(order: seq<nat>, n: nat)
    requires Distinct(order) && forall k :: k in order ==> k < n
    ensures |order| <= n
    decreases n
  {
    assert order == [] || order[0] in order;
    if n == 0 {
    } else if i :| 0 <= i < |order| && order[i] == n - 1 {
      WithoutOne(order, i);
      Room(Without(order, i), n - 1);
    } else {
      Room(order, n - 1);
    }
  }
}
