/**
 The prefetch streams of one segment (cache_amp.c:152-215, 1248-1272): a ring of stream records
 and an ordered index over them whose keys are read through the records themselves, so that a
 record that changes its last_offset changes its key wherever it is listed.
 */
module Streams {
  import opened Options
  import opened Sequences

  datatype Stream = Stream(lastOffset: int, nbytes: int, prefetchSize: int, triggerDistance: int)

  /** The creations that a table of `capacity` slots still holds: the newest ones, oldest first. */
  function Window(created: seq<int>, capacity: nat): (w: seq<int>)
    ensures |w| <= capacity && |w| <= |created|
  {
    if |created| <= capacity then created else created[|created| - capacity..]
  }

  /** A new creation pushes the oldest one out once the table is full: a bounded FIFO. */
  lemma WindowSlides(created: seq<int>, capacity: nat, offset: int)
    requires 0 < capacity
    ensures
      var w := Window(created, capacity);
      Window(created + [offset], capacity) == (if |w| < capacity then w else w[1..]) + [offset]
  {
  }

  /** What the creations become when an offset is asked for. */
  function Asked(created: seq<int>, capacity: nat, offset: int): seq<int> {
    if offset in Window(created, capacity) then created else created + [offset]
  }

  function AllAsked(created: seq<int>, capacity: nat, offsets: seq<int>): seq<int>
    decreases |offsets|
  {
    if offsets == [] then created else AllAsked(Asked(created, capacity, offsets[0]), capacity, offsets[1..])
  }

  lemma AskedKeeps(created: seq<int>, capacity: nat, offset: int)
    requires 0 < capacity && Distinct(Window(created, capacity))
    ensures Distinct(Window(Asked(created, capacity, offset), capacity))
    ensures offset in Window(Asked(created, capacity, offset), capacity)
  {
    WindowSlides(created, capacity, offset);
    hide Window;
    if offset !in Window(created, capacity) {
      var w := Window(Asked(created, capacity, offset), capacity);
      assert w[|w| - 1] == offset;
    }
  }

  /** Whatever is asked for, the table never holds an offset twice, and always holds the last one. */
  lemma {:induction false} EveryRequestSequence(created: seq<int>, capacity: nat, offsets: seq<int>)
    requires 0 < capacity && Distinct(Window(created, capacity))
    ensures Distinct(Window(AllAsked(created, capacity, offsets), capacity))
    ensures offsets != [] ==> offsets[|offsets| - 1] in Window(AllAsked(created, capacity, offsets), capacity)
    decreases |offsets|
  {
    if offsets != [] {
      hide Window, Distinct, Asked;
      AskedKeeps(created, capacity, offsets[0]);
      EveryRequestSequence(Asked(created, capacity, offsets[0]), capacity, offsets[1..]);
      if offsets[1..] != [] {
        assert offsets[1..][|offsets| - 2] == offsets[|offsets| - 1];
      }
    }
  }

  // ---------------------------------------------------------------- the ring

  /** The keys of the slots, in slot order, hold the window, the oldest at `index` once the ring is full. */
  ghost predicate Ring(slots: seq<int>, index: nat, created: seq<int>) {
    if |created| < |slots| then
      && index == |created|
      && slots[..index] == created
      && (forall k :: index <= k < |slots| ==> slots[k] < 0)
    else
      && index < |slots|
      && slots[index..] + slots[..index] == Window(created, |slots|)
  }

  lemma RingTurns(slots: seq<int>, index: nat, created: seq<int>, offset: int)
    requires Ring(slots, index, created) && 0 < |slots| && index < |slots|
    ensures Ring(slots[index := offset], (index + 1) % |slots|, created + [offset])
  {
    NextIndex(index, |slots|);
    if |created| >= |slots| {
      WindowSlides(created, |slots|, offset);
      FullRingTurns(slots, index, Window(created, |slots|), offset);
    } else {
      RingFills(slots, index, created, offset);
    }
  }

  lemma RingFills(slots: seq<int>, index: nat, created: seq<int>, offset: int)
    requires Ring(slots, index, created) && |created| < |slots|
    ensures Ring(slots[index := offset], if index + 1 == |slots| then 0 else index + 1, created + [offset])
  {
    var next := slots[index := offset];
    assert next[..index + 1] == created + [offset];
    if index + 1 == |slots| {
      assert next[0..] + next[..0] == next == created + [offset];
    }
  }

  lemma NextIndex(index: nat, size: nat)
    requires index < size
    ensures (index + 1) % size == if index + 1 == size then 0 else index + 1
  {
  }

  lemma FullRingTurns(slots: seq<int>, index: nat, w: seq<int>, offset: int)
    requires index < |slots| && slots[index..] + slots[..index] == w
    ensures
      var next := slots[index := offset];
      var turned := (index + 1) % |slots|;
      turned < |slots| && next[turned..] + next[..turned] == w[1..] + [offset]
  {
    var a, x, b := slots[..index], slots[index], slots[index + 1..];
    var next := slots[index := offset];
    NextIndex(index, |slots|);
    assert slots[index..] == [x] + b;
    assert next == a + [offset] + b;
    Rotated(a, x, b, offset);
    if b == [] {
      assert next[0..] + next[..0] == next;
    } else {
      assert next[index + 1..] == b && next[..index + 1] == a + [offset];
    }
  }

  lemma Rotated(a: seq<int>, x: int, b: seq<int>, offset: int)
    ensures ([x] + b + a)[1..] + [offset] == b + (a + [offset])
    ensures b == [] ==> b + (a + [offset]) == a + [offset] + b
  {
  }

  /** The keys that are not marks are exactly the offsets in the window. */
  lemma RingHolds(slots: seq<int>, index: nat, created: seq<int>, offset: int)
    requires Ring(slots, index, created) && 0 < |slots| && offset >= 0
    ensures offset in slots <==> offset in Window(created, |slots|)
  {
    if |created| < |slots| {
      assert slots == slots[..index] + slots[index..];
    } else {
      assert slots == slots[..index] + slots[index..];
    }
  }

  // ---------------------------------------------------------------- chains

  /** Stream `j + 1` follows stream `j` closely enough to carry the same chain on. */
  predicate Follows(keys: seq<int>, j: nat, pageSize: int, span: int)
    requires j < |keys|
  {
    j + 1 < |keys| && keys[j + 1] - (keys[j] + pageSize) <= span
  }

  /** The end of the maximal chain of streams that starts at `j`. */
  function ChainEnd(keys: seq<int>, j: nat, pageSize: int, span: int): (e: nat)
    requires j < |keys|
    ensures j <= e < |keys|
    ensures forall i :: j <= i < e ==> Follows(keys, i, pageSize, span)
    ensures !Follows(keys, e, pageSize, span)
    decreases |keys| - j
  {
    if Follows(keys, j, pageSize, span) then ChainEnd(keys, j + 1, pageSize, span) else j
  }

  class StreamTable {
    const maxStreams: nat
    const table: array<Stream>
    /** The ordered index: slots in increasing order of the key found in the slot. */
    var streams: seq<nat>
    /** The slot that the next new stream takes. */
    var index: nat
    /** The offsets of all streams created so far, oldest first. */
    ghost var created: seq<int>

    ghost predicate Shape()
      reads this
    {
      && 0 < maxStreams == table.Length
      && (forall i :: 0 <= i < |streams| ==> streams[i] < maxStreams)
    }

    ghost function Keys(): (k: seq<int>)
      requires Shape()
      reads this, table
      ensures |k| == |streams| && forall i :: 0 <= i < |k| ==> k[i] == table[streams[i]].lastOffset
    {
      seq(|streams|, i requires 0 <= i < |streams| && Shape() reads this, table => table[streams[i]].lastOffset)
    }

    /** The index lists its slots in strictly increasing order of their keys. */
    ghost predicate Ordered()
      requires Shape()
      reads this, table
    {
      forall i, j :: 0 <= i < j < |streams| ==> table[streams[i]].lastOffset < table[streams[j]].lastOffset
    }

    ghost function Slots(): (k: seq<int>)
      reads table
      ensures |k| == table.Length && forall i :: 0 <= i < |k| ==> k[i] == table[i].lastOffset
    {
      seq(table.Length, i requires 0 <= i < table.Length reads table => table[i].lastOffset)
    }

    /** The index lists exactly the slots in use, and the slots hold the newest creations. */
    ghost predicate Valid()
      reads this, table
    {
      && Shape()
      && Ordered()
      && index < maxStreams
      && Ring(Slots(), index, created)
      && (forall k :: 0 <= k < maxStreams ==> (k in streams <==> table[k].lastOffset >= 0))
    }

    /** amp_adding_segment: every slot empty under a distinct negative mark, and nothing indexed. */
    constructor (capacity: nat)
      requires 0 < capacity
      ensures Valid() && maxStreams == capacity && created == [] && fresh(table)
    {
      maxStreams := capacity;
      table := new Stream[capacity](i => Stream(-(i as int) - 1, 0, 0, 0));
      streams, index, created := [], 0, [];
    }

    /** Where a key is, or would go, in the index. */
    method Position(offset: int) returns (pos: nat)
      requires Shape() && Ordered()
      ensures pos <= |streams|
      ensures forall i :: 0 <= i < pos ==> table[streams[i]].lastOffset < offset
      ensures forall i :: pos <= i < |streams| ==> table[streams[i]].lastOffset >= offset
    {
      pos := 0;
      while pos < |streams| && table[streams[pos]].lastOffset < offset
        invariant pos <= |streams|
        invariant forall i :: 0 <= i < pos ==> table[streams[i]].lastOffset < offset
      {
        pos := pos + 1;
      }
    }

    /** A key is in the index exactly when its offset is among the newest creations. */
    lemma Held(offset: int)
      requires Valid() && offset >= 0
      ensures offset in Window(created, maxStreams) <==>
        exists i :: 0 <= i < |streams| && table[streams[i]].lastOffset == offset
    {
      RingHolds(Slots(), index, created, offset);
      if offset in Slots() {
        var k :| 0 <= k < maxStreams && Slots()[k] == offset;
        assert k in streams;
      }
      if i :| 0 <= i < |streams| && table[streams[i]].lastOffset == offset {
        assert Slots()[streams[i]] == offset;
      }
    }

    /** _amp_stream_get for an offset to be held, 161-185: search the index, and on a miss make room. */
    method Get(offset: int, nbytes: int) returns (slot: nat)
      requires Valid() && offset >= 0 && nbytes > 0
      modifies this`streams, this`index, this`created, table
      ensures Valid()
      ensures slot < maxStreams && table[slot].lastOffset == offset
      ensures created == Asked(old(created), maxStreams, offset)
      ensures if offset in Window(old(created), maxStreams)
        then table[..] == old(table[..]) && streams == old(streams)
        else slot == old(index) && table[..] == old(table[..])[slot := Stream(offset, nbytes, 0, 0)]
    {
      Held(offset);
      var pos := Position(offset);
      if pos < |streams| && table[streams[pos]].lastOffset == offset {
        slot := streams[pos];
      } else {
        slot := Recycle(offset, nbytes);
      }
    }

    /**
     The miss, 166-182: the oldest slot is taken out of the index under its old key, given the new
     one in place, and put back under it.
     */
    method Recycle(offset: int, nbytes: int) returns (slot: nat)
      requires Valid() && offset >= 0
      requires forall i :: 0 <= i < |streams| ==> table[streams[i]].lastOffset != offset
      modifies this`streams, this`index, this`created, table
      ensures Valid() && created == old(created) + [offset]
      ensures slot == old(index) && table[..] == old(table[..])[slot := Stream(offset, nbytes, 0, 0)]
    {
      slot := index;
      RingTurns(Slots(), index, created, offset);
      ghost var turned := Slots()[slot := offset];
      index := (index + 1) % maxStreams;
      created := created + [offset];
      Remove(slot);
      Rekey(slot, Stream(offset, nbytes, 0, 0));
      assert Slots() == turned;
      hide Ring, Ordered, Asked, Window;
    }

    /** Give a slot that is not indexed a new key, and index it. */
    method Rekey(slot: nat, stream: Stream)
      requires Shape() && Ordered() && slot < maxStreams && slot !in streams
      requires forall i :: 0 <= i < |streams| ==> table[streams[i]].lastOffset != stream.lastOffset
      modifies this`streams, table
      ensures Shape() && Ordered()
      ensures table[..] == old(table[..])[slot := stream]
      ensures forall k :: k in streams <==> k in old(streams) || k == slot
    {
      table[slot] := stream;
      Insert(slot);
    }

    lemma OrderedSlots()
      requires Shape() && Ordered()
      ensures Distinct(streams)
    {
    }

    /** Take a slot out of the index under the key it has now; nothing happens if it is not there. */
    method Remove(slot: nat)
      requires Shape() && Ordered() && slot < maxStreams
      modifies this`streams
      ensures Shape() && Ordered()
      ensures forall k :: k in streams <==> k in old(streams) && k != slot
    {
      var pos := Position(table[slot].lastOffset);
      if pos < |streams| && streams[pos] == slot {
        OrderedSlots();
        WithoutOne(streams, pos);
        streams := streams[..pos] + streams[pos + 1..];
      }
    }

    /** Put a slot into the index under the key it has now. */
    method Insert(slot: nat)
      requires Shape() && Ordered() && slot < maxStreams
      requires forall i :: 0 <= i < |streams| ==> table[streams[i]].lastOffset != table[slot].lastOffset
      modifies this`streams
      ensures Shape() && Ordered()
      ensures forall k :: k in streams <==> k in old(streams) || k == slot
    {
      var pos := Position(table[slot].lastOffset);
      ghost var was := streams;
      streams := streams[..pos] + [slot] + streams[pos..];
      assert streams[pos] == slot;
      forall k | k in was ensures k in streams {
        var i :| 0 <= i < |was| && was[i] == k;
        assert streams[if i < pos then i else i + 1] == k;
      }
    }

    /**
     _amp_stream_get for a lookup, 186-214: the first stream at or after the offset if the offset is
     within its length of it, and the end of the chain of streams that starts there.
     */
    method Nearest(offset: int, pageSize: int) returns (ps: Option<nat>, pse: Option<nat>)
      requires Valid()
      ensures ps.Some? <==> pse.Some?
      ensures ps.Some? ==>
        exists i :: 0 <= i < |streams| && ps.value == streams[i] && IsNearest(i, offset, pageSize, pse.value)
      ensures ps.None? ==> forall i :: 0 <= i < |streams| && FirstAtOrAfter(i, offset) ==>
        Keys()[i] - offset > table[streams[i]].nbytes
    {
      hide Ring;
      var pos := Position(offset);
      ps, pse := None, None;
      FirstHere(pos, offset);
      if pos == |streams| {
        return;
      }
      var span := table[streams[pos]].nbytes;
      if table[streams[pos]].lastOffset - offset > span {
        return;
      }
      ps := Some(streams[pos]);
      hide FirstAtOrAfter, Ordered;
      var e := pos;
      while e + 1 < |streams| && table[streams[e + 1]].lastOffset - (table[streams[e]].lastOffset + pageSize) <= span
        invariant pos <= e < |streams|
        invariant ChainEnd(Keys(), e, pageSize, span) == ChainEnd(Keys(), pos, pageSize, span)
      {
        e := e + 1;
      }
      pse := Some(streams[e]);
      assert IsNearest(pos, offset, pageSize, streams[e]);
    }

    /** Where the keys stop being below the offset is the one place that is first at or after it. */
    lemma FirstHere(pos: nat, offset: int)
      requires Shape() && Ordered() && pos <= |streams|
      requires forall i :: 0 <= i < pos ==> table[streams[i]].lastOffset < offset
      requires forall i :: pos <= i < |streams| ==> table[streams[i]].lastOffset >= offset
      ensures pos < |streams| ==> FirstAtOrAfter(pos, offset)
      ensures forall i :: 0 <= i < |streams| && FirstAtOrAfter(i, offset) ==> i == pos
    {
    }

    /** Position `i` of the index is the least key that is not below the offset. */
    ghost predicate FirstAtOrAfter(i: nat, offset: int)
      requires Shape() && i < |streams|
      reads this, table
    {
      Keys()[i] >= offset && forall j :: 0 <= j < |streams| && Keys()[j] >= offset ==> Keys()[i] <= Keys()[j]
    }

    ghost predicate IsNearest(i: nat, offset: int, pageSize: int, last: nat)
      requires Shape() && i < |streams|
      reads this, table
    {
      var span := table[streams[i]].nbytes;
      && FirstAtOrAfter(i, offset)
      && Keys()[i] - offset <= span
      && last == streams[ChainEnd(Keys(), i, pageSize, span)]
    }
  }
}
