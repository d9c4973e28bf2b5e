/**
 Resumable directory listing (lio_fuse_core.c:296-358, 364-439). An open directory caches on a
 stack every entry its one-way object iterator has produced; a read at offset `off` must deliver
 the entries after the `off`-th, as if the listing could be read from any place at any time.
 */
module DirListing {
  import opened Sequences

  type Name = string

  /** An entry handed to the FUSE filler, with the offset given with it. */
  datatype Given = Given(name: Name, off: int)

  /** The whole listing: the two dot entries, then the objects in iterator order. */
  function Listing(objects: seq<Name>): seq<Name> {
    [".", ".."] + objects
  }

  function Min(a: nat, b: nat): nat {
    if a < b then a else b
  }

  /** What random access to a listing delivers: entries off+1, off+2, ..., until the buffer is full. */
  function Answer(listing: seq<Name>, off: nat, room: nat): seq<Given>
    requires off <= |listing|
  {
    seq(Min(room, |listing| - off), i requires 0 <= i < |listing| - off => Given(listing[off + i], off + i + 1))
  }

  /** What random access delivers at any offset: nothing past the end. */
  function RightAnswer(listing: seq<Name>, off: nat, room: nat): seq<Given> {
    if off <= |listing| then Answer(listing, off, room) else []
  }

  /** What a call beyond the cached entries delivers: the next entries there are, under later offsets. */
  function Misplaced(upcoming: seq<Name>, off: nat, room: nat): seq<Given> {
    seq(Min(room, |upcoming|), i requires 0 <= i < |upcoming| => Given(upcoming[i], off + i + 1))
  }

  /** With all names different, that is right only when it is nothing. */
  lemma MisplacedIsWrong(stack: seq<Name>, upcoming: seq<Name>, off: nat, room: nat)
    requires Distinct(stack + upcoming) && off > |stack|
    ensures Misplaced(upcoming, off, room) == RightAnswer(stack + upcoming, off, room) <==> room == 0 || upcoming == []
  {
    var given := Misplaced(upcoming, off, room);
    var listing := stack + upcoming;
    if room > 0 && upcoming != [] && off < |listing| {
      assert given[0].name == listing[|stack|] && RightAnswer(listing, off, room)[0].name == listing[off];
    }
  }

  class OpenDir {
    /** The cached entries, the top of the stack first. */
    var stack: seq<Name>
    /** What the object iterator has not produced yet. */
    var upcoming: seq<Name>
    ghost const listing: seq<Name>

    ghost predicate Valid()
      reads this
    {
      stack + upcoming == listing && 2 <= |stack|
    }

    /** lfs_opendir, 320-353. */
    constructor (objects: seq<Name>)
      ensures Valid() && listing == Listing(objects) && stack == [".", ".."]
    {
      upcoming := objects;
      stack := ["."];
      listing := Listing(objects);
      new;
      stack := stack + [".."];
    }

    /**
     lfs_readdir into a buffer with room for `room` more entries; the filler answers 1 to the entry
     that does not fit. The call is right for every offset up to the number of cached entries.
     */
    method ReadDir(off: nat, room: nat) returns (given: seq<Given>)
      requires Valid()
      modifies `stack, `upcoming
      ensures Valid() && old(stack) <= stack
      ensures off <= |old(stack)| ==> off <= |listing| && given == Answer(listing, off, room)
      ensures off <= |old(stack)| ==> off + |given| <= |stack|
      ensures off > |old(stack)| ==> given == Misplaced(old(upcoming), off, room)
      ensures Distinct(listing) ==>
        (given == RightAnswer(listing, off, room) <==> off <= |old(stack)| || room == 0 || old(upcoming) == [])
    {
      ghost var start, left := stack, upcoming;
      given := [];
      var next := off + 1;
      if |stack| >= next {
        given := FromCache(off, room);
        next := next + |given|;
      }
      if next > |stack| {
        var more := FromIterator(next, room - |given|);
        given := given + more;
      }
      Delivered(start, left, off, room, given);
    }

    /** Rewind, 386-403: the cached entries from the next one on, until one does not fit. */
    method FromCache(off: nat, room: nat) returns (given: seq<Given>)
      requires off < |stack|
      ensures given == Answer(stack, off, room)
    {
      given := [];
      var next := off + 1;
      var cursor := off;
      while cursor < |stack|
        invariant cursor == next - 1 && off <= cursor <= |stack|
        invariant |given| == cursor - off <= room
        invariant forall i :: 0 <= i < |given| ==> given[i] == Given(stack[off + i], off + i + 1)
      {
        if |given| == room {
          return;
        }
        given := given + [Given(stack[cursor], next)];
        next := next + 1;
        cursor := cursor + 1;
      }
    }

    /** 407-436: the iterator's entries, each cached before it is offered, until one does not fit. */
    method FromIterator(first: nat, room: nat) returns (given: seq<Given>)
      requires Valid()
      modifies `stack, `upcoming
      ensures Valid() && old(stack) <= stack && |old(stack)| + |given| <= |stack|
      ensures 0 < first ==> given == Misplaced(old(upcoming), first - 1, room)
    {
      given := [];
      var next := first;
      while true
        invariant Valid() && old(stack) <= stack
        invariant |stack| == |old(stack)| + |given|
        invariant next == first + |given| && |given| <= |old(upcoming)| && |given| <= room
        invariant upcoming == old(upcoming)[|given|..]
        invariant forall i :: 0 <= i < |given| ==> given[i] == Given(old(upcoming)[i], first + i)
        decreases |upcoming|
      {
        if upcoming == [] {
          return;
        }
        var name := upcoming[0];
        upcoming := upcoming[1..];
        stack := stack + [name];
        if |given| == room {
          return;
        }
        given := given + [Given(name, next)];
        next := next + 1;
      }
    }
  }

  /** What the two loops deliver between them. */
  lemma Delivered(stack: seq<Name>, upcoming: seq<Name>, off: nat, room: nat, given: seq<Given>)
    requires given ==
      if off > |stack| then Misplaced(upcoming, off, room)
      else if off + room < |stack| then Answer(stack, off, room)
      else Answer(stack, off, room) + Misplaced(upcoming, |stack|, room - (|stack| - off))
    ensures off <= |stack| ==> given == Answer(stack + upcoming, off, room)
    ensures off > |stack| ==> given == Misplaced(upcoming, off, room)
    ensures Distinct(stack + upcoming) ==>
      (given == RightAnswer(stack + upcoming, off, room) <==> off <= |stack| || room == 0 || upcoming == [])
  {
    if off > |stack| && Distinct(stack + upcoming) {
      MisplacedIsWrong(stack, upcoming, off, room);
    }
    hide Distinct;
  }

  // ---------------------------------------------------------------- whole listings

  /** The names delivered by calls with the given buffer sizes, each resumed where the last one stopped. */
  function Resumed(listing: seq<Name>, off: nat, rooms: seq<nat>): seq<Given>
    requires off <= |listing|
    decreases |rooms|
  {
    if rooms == [] then []
    else
      var now := Answer(listing, off, rooms[0]);
      now + Resumed(listing, off + |now|, rooms[1..])
  }

  function TotalRoom(rooms: seq<nat>): nat {
    if rooms == [] then 0 else rooms[0] + TotalRoom(rooms[1..])
  }

  lemma NoRoom(listing: seq<Name>, off: nat)
    requires off <= |listing|
    ensures Answer(listing, off, 0) == []
  {
  }

  lemma AnswersJoin(listing: seq<Name>, off: nat, a: nat, b: nat)
    requires off <= |listing|
    ensures
      var now := Answer(listing, off, a);
      off + |now| <= |listing| && Answer(listing, off, a + b) == now + Answer(listing, off + |now|, b)
  {
  }

  /**
   However the buffers fill up, the pieces put together are one uninterrupted reading of the
   listing: every entry once, in order, each tagged with its own index, up to the room there was.
   */
  lemma {:induction false} ResumedIsWhole(listing: seq<Name>, off: nat, rooms: seq<nat>)
    requires off <= |listing|
    ensures Resumed(listing, off, rooms) == Answer(listing, off, TotalRoom(rooms))
    decreases |rooms|
  {
    hide Answer;
    if rooms == [] {
      NoRoom(listing, off);
    } else {
      var now := Answer(listing, off, rooms[0]);
      AnswersJoin(listing, off, rooms[0], TotalRoom(rooms[1..]));
      ResumedIsWhole(listing, off + |now|, rooms[1..]);
    }
  }

  /** With room enough, that is the whole listing. */
  lemma WholeListing(objects: seq<Name>, rooms: seq<nat>)
    requires TotalRoom(rooms) >= |Listing(objects)|
    ensures
      var given := Resumed(Listing(objects), 0, rooms);
      |given| == |Listing(objects)| && forall i :: 0 <= i < |given| ==> given[i] == Given(Listing(objects)[i], i + 1)
  {
    ResumedIsWhole(Listing(objects), 0, rooms);
  }

  /** A kernel that reads a directory call by call, resuming at the offset of the last entry it took. */
  method ReadAll(dir: OpenDir, rooms: seq<nat>) returns (given: seq<Given>)
    requires dir.Valid()
    modifies dir`stack, dir`upcoming
    ensures dir.Valid() && given == Answer(dir.listing, 0, TotalRoom(rooms))
  {
    hide Answer;
    given := [];
    var off := 0;
    var i := 0;
    while i < |rooms|
      invariant 0 <= i <= |rooms| && dir.Valid() && off <= |dir.stack| && off == |given|
      invariant given + Resumed(dir.listing, off, rooms[i..]) == Resumed(dir.listing, 0, rooms)
    {
      assert rooms[i..][0] == rooms[i] && rooms[i..][1..] == rooms[i + 1..];
      var more := dir.ReadDir(off, rooms[i]);
      given := given + more;
      off := off + |more|;
      i := i + 1;
    }
    ResumedIsWhole(dir.listing, 0, rooms);
  }
}
