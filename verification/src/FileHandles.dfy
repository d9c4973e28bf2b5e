/**
 File handles shared by view ID (lio_core_io.c:332-357, 375-519, 548-691). Descriptors that open
 the same view share one handle, found through the open index. The descriptor that brings the
 reference count to zero drops the lock to flush the file and store its attributes, and only then
 looks again whether it may tear the handle down: meanwhile the handle is still in the index.
 */
module FileHandles {

  type Vid = nat
  type Hid = nat
  type Fd = nat

  /** `version` counts the writes made, `stored` is the version whose exnode was last stored. */
  datatype Handle = Handle(vid: Vid, refCount: int, modified: bool, version: nat, stored: nat)

  /** Where a descriptor is: open, or at a point of lio_myclose_fn after it brought the count to zero. */
  datatype Descriptor =
    | Open(h: Hid)
    | Flushing(h: Hid)               // 580-593: truncating and flushing
    | Saving(h: Hid)                 // 639-657: the handle was modified, store the exnode
    | Leaving(h: Hid, saved: bool)   // about to take the lock at 616 or 659

  /** A record of a teardown, for the properties. */
  datatype Torn = Torn(h: Hid, modified: bool, version: nat, stored: nat)

  datatype Table = Table(
    index: map<Vid, Hid>,
    handles: map<Hid, Handle>,
    fds: map<Fd, Descriptor>,
    nextHandle: Hid,
    torn: seq<Torn>)

  datatype Op =
    | OpOpen(fd: Fd, vid: Vid)
    | OpWrite(fd: Fd)
    | OpClose(fd: Fd)
    | OpFlushed(fd: Fd)
    | OpSaved(fd: Fd)
    | OpLeave(fd: Fd)

  // ---------------------------------------------------------------- the locked sections

  /** lio_myopen_fn, 445-489, for a view ID read from a sound exnode. */
  function OpenStep(t: Table, fd: Fd, vid: Vid): Table {
    if vid in t.index then
      var h := t.index[vid];
      if h !in t.handles then t
      else
        t.(handles := t.handles[h := t.handles[h].(refCount := t.handles[h].refCount + 1)],
           fds := t.fds[fd := Open(h)])
    else
      var h := t.nextHandle;
      Table(t.index[vid := h], t.handles[h := Handle(vid, 1, false, 0, 0)], t.fds[fd := Open(h)], h + 1, t.torn)
  }

  /** lio_write_ex_fn, 1008-1011. */
  function WriteStep(t: Table, fd: Fd): Table
    requires fd in t.fds
  {
    var h := t.fds[fd].h;
    if h !in t.handles then t
    else t.(handles := t.handles[h := t.handles[h].(modified := true, version := t.handles[h].version + 1)])
  }

  /** lio_myclose_fn, 572-578. */
  function CloseStep(t: Table, fd: Fd): Table
    requires fd in t.fds
  {
    var h := t.fds[fd].h;
    if h !in t.handles then t
    else
      var fh := t.handles[h].(refCount := t.handles[h].refCount - 1);
      t.(handles := t.handles[h := fh],
         fds := if fh.refCount > 0 then t.fds - {fd} else t.fds[fd := Flushing(h)])
  }

  /** The test at 601, once the flush is done. */
  function FlushedStep(t: Table, fd: Fd): Table
    requires fd in t.fds
  {
    var h := t.fds[fd].h;
    if h !in t.handles then t
    else t.(fds := t.fds[fd := if t.handles[h].modified then Saving(h) else Leaving(h, false)])
  }

  /** lio_update_exnode_attrs, 644. */
  function SavedStep(t: Table, fd: Fd): Table
    requires fd in t.fds
  {
    var h := t.fds[fd].h;
    if h !in t.handles then t
    else
      t.(handles := t.handles[h := t.handles[h].(stored := t.handles[h].version)], fds := t.fds[fd := Leaving(h, true)])
  }

  /** The second look, 616-627 and 659-674: leave the handle to whoever reopened it, or tear it down. */
  function LeaveStep(t: Table, fd: Fd): Table
    requires fd in t.fds
  {
    var h := t.fds[fd].h;
    if h !in t.handles then t
    else
      var fh := t.handles[h];
      if fh.refCount > 0 then t.(fds := t.fds - {fd})
      else
        Table(if fh.vid in t.index && t.index[fh.vid] == h then t.index - {fh.vid} else t.index,
              t.handles - {h}, t.fds - {fd}, t.nextHandle,
              t.torn + [Torn(h, fh.modified, fh.version, fh.stored)])
  }

  predicate Possible(t: Table, op: Op) {
    match op
    case OpOpen(fd, vid) => fd !in t.fds
    case OpWrite(fd) => fd in t.fds && t.fds[fd].Open?
    case OpClose(fd) => fd in t.fds && t.fds[fd].Open?
    case OpFlushed(fd) => fd in t.fds && t.fds[fd].Flushing?
    case OpSaved(fd) => fd in t.fds && t.fds[fd].Saving?
    case OpLeave(fd) => fd in t.fds && t.fds[fd].Leaving?
  }

  function Step(t: Table, op: Op): Table
    requires Possible(t, op)
  {
    match op
    case OpOpen(fd, vid) => OpenStep(t, fd, vid)
    case OpWrite(fd) => WriteStep(t, fd)
    case OpClose(fd) => CloseStep(t, fd)
    case OpFlushed(fd) => FlushedStep(t, fd)
    case OpSaved(fd) => SavedStep(t, fd)
    case OpLeave(fd) => LeaveStep(t, fd)
  }

  // ---------------------------------------------------------------- what is kept

  /** No descriptor, open or closing, refers to a handle that has been freed. */
  ghost predicate AllLive(t: Table) {
    forall fd :: fd in t.fds ==> t.fds[fd].h in t.handles
  }

  ghost function OpenOn(t: Table, h: Hid): set<Fd> {
    set fd | fd in t.fds && t.fds[fd] == Open(h)
  }

  ghost function ClosingOn(t: Table, h: Hid): set<Fd> {
    set fd | fd in t.fds && !t.fds[fd].Open? && t.fds[fd].h == h
  }

  /** What a closing descriptor found out about the handle is still so. */
  predicate UpToDate(d: Descriptor, fh: Handle) {
    d.Leaving? ==> if d.saved then fh.stored == fh.version else !fh.modified
  }

  ghost predicate HandleSound(t: Table, h: Hid)
    requires h in t.handles
  {
    var fh := t.handles[h];
    && fh.vid in t.index && t.index[fh.vid] == h
    && fh.refCount == |OpenOn(t, h)|
    && (fh.modified <==> fh.version > 0)
    && (fh.refCount == 0 ==> exists fd :: fd in ClosingOn(t, h) && UpToDate(t.fds[fd], fh))
  }

  /** A teardown is final, and no version was lost by it. */
  ghost predicate TornSound(t: Table) {
    && (forall i :: 0 <= i < |t.torn| ==> t.torn[i].h !in t.handles && t.torn[i].h < t.nextHandle)
    && (forall i, j :: 0 <= i < j < |t.torn| ==> t.torn[i].h != t.torn[j].h)
    && (forall i :: 0 <= i < |t.torn| ==> (t.torn[i].modified <==> t.torn[i].version > 0))
    && (forall i :: 0 <= i < |t.torn| && t.torn[i].modified ==> t.torn[i].stored == t.torn[i].version)
  }

  /** Every handle is in the index under its own view, and no name of one is used twice. */
  ghost predicate Indexed(t: Table) {
    && (forall vid :: vid in t.index ==> t.index[vid] in t.handles && t.handles[t.index[vid]].vid == vid)
    && (forall h :: h in t.handles ==> h < t.nextHandle)
  }

  ghost predicate Inv(t: Table) {
    && AllLive(t)
    && Indexed(t)
    && (forall h :: h in t.handles ==> HandleSound(t, h))
    && TornSound(t)
  }

  /** The operation is not a teardown, or no other descriptor is closing the same handle. */
  ghost predicate Safe(t: Table, op: Op)
    requires Possible(t, op)
  {
    op.OpLeave? ==>
      var h := t.fds[op.fd].h;
      h in t.handles && t.handles[h].refCount <= 0 ==> ClosingOn(t, h) == {op.fd}
  }

  /** A step of one descriptor, on one handle. */
  ghost predicate StepOn(t: Table, u: Table, fd: Fd, mine: Hid) {
    && (forall h :: h in u.handles && h != mine ==> h in t.handles && u.handles[h] == t.handles[h])
    && (forall vid :: vid in t.index && t.index[vid] != mine ==> vid in u.index && u.index[vid] == t.index[vid])
    && (forall f :: f != fd ==> (f in t.fds <==> f in u.fds) && (f in t.fds ==> t.fds[f] == u.fds[f]))
    && (fd in t.fds ==> t.fds[fd].h == mine)
    && (fd in u.fds ==> u.fds[fd].h == mine)
  }

  /** It leaves the standing of every other handle alone. */
  lemma OthersKept(t: Table, u: Table, fd: Fd, mine: Hid)
    requires StepOn(t, u, fd, mine) && forall h :: h in t.handles ==> HandleSound(t, h)
    ensures forall h :: h in u.handles && h != mine ==> HandleSound(u, h)
  {
    forall h | h in u.handles && h != mine ensures HandleSound(u, h) {
      assert HandleSound(t, h);
      assert OpenOn(u, h) == OpenOn(t, h);
      assert ClosingOn(u, h) == ClosingOn(t, h);
    }
  }

  /** No handle comes back from the dead. */
  lemma TornKept(t: Table, u: Table)
    requires TornSound(t) && u.torn == t.torn && t.nextHandle <= u.nextHandle
    requires forall h :: h in u.handles ==> h in t.handles || h >= t.nextHandle
    ensures TornSound(u)
  {
  }

  /** What a step keeps, put together. */
  lemma Kept(t: Table, u: Table, fd: Fd, mine: Hid)
    requires Inv(t) && StepOn(t, u, fd, mine)
    requires AllLive(u) && Indexed(u) && TornSound(u) && (mine in u.handles ==> HandleSound(u, mine))
    ensures Inv(u)
  {
    OthersKept(t, u, fd, mine);
    hide StepOn, AllLive, Indexed, TornSound, HandleSound;
  }

  /** A step that changes one handle's record and one descriptor, and no name. */
  ghost predicate OneChanged(t: Table, u: Table, fd: Fd) {
    && fd in t.fds
    && var mine := t.fds[fd].h;
    && mine in t.handles && mine in u.handles
    && u == t.(handles := t.handles[mine := u.handles[mine]], fds := u.fds)
    && u.handles[mine].vid == t.handles[mine].vid
    && (u.fds == t.fds - {fd} || (fd in u.fds && u.fds == t.fds[fd := u.fds[fd]] && u.fds[fd].h == mine))
  }

  lemma OneChangedKeeps(t: Table, u: Table, fd: Fd)
    requires Inv(t) && OneChanged(t, u, fd) && HandleSound(u, t.fds[fd].h)
    ensures Inv(u)
  {
    OneChangedNames(t, u, fd);
    OneChangedStep(t, u, fd);
    hide OneChanged, StepOn, AllLive, Indexed, HandleSound, TornSound;
    Kept(t, u, fd, t.fds[fd].h);
  }

  lemma OneChangedNames(t: Table, u: Table, fd: Fd)
    requires AllLive(t) && Indexed(t) && TornSound(t) && OneChanged(t, u, fd)
    ensures AllLive(u) && Indexed(u) && TornSound(u)
  {
    TornKept(t, u);
    hide TornSound;
  }

  lemma OneChangedStep(t: Table, u: Table, fd: Fd)
    requires OneChanged(t, u, fd)
    ensures StepOn(t, u, fd, t.fds[fd].h)
  {
  }

  lemma OpenKeeps(t: Table, fd: Fd, vid: Vid)
    requires Inv(t) && fd !in t.fds
    ensures Inv(OpenStep(t, fd, vid))
  {
    hide Inv, OpenStep;
    if vid in t.index {
      ShareKeeps(t, fd, vid);
    } else {
      CreateKeeps(t, fd, vid);
    }
  }

  lemma ShareKeeps(t: Table, fd: Fd, vid: Vid)
    requires Inv(t) && fd !in t.fds && vid in t.index
    ensures
      var u, mine := OpenStep(t, fd, vid), t.index[vid];
      && Inv(u)
      && OpenOn(u, mine) == OpenOn(t, mine) + {fd}
      && OthersAsTheyWere(t, u, mine)
      && u.index == t.index && u.torn == t.torn
  {
    var u, mine := OpenStep(t, fd, vid), t.index[vid];
    SharedSound(t, fd, vid);
    SharedNames(t, fd, vid);
    hide Inv, OpenStep, StepOn, AllLive, Indexed, TornSound, HandleSound, OpenOn, OthersAsTheyWere;
    Kept(t, u, fd, mine);
  }

  /** Every other handle has the same record, descriptors and closers. */
  ghost predicate OthersAsTheyWere(t: Table, u: Table, mine: Hid) {
    && (forall h :: h in t.handles && h != mine ==> h in u.handles && u.handles[h] == t.handles[h])
    && (forall h :: h != mine ==> OpenOn(u, h) == OpenOn(t, h) && ClosingOn(u, h) == ClosingOn(t, h))
  }

  /** A descriptor that is opened on a handle belongs to no other. */
  lemma OtherOpens(t: Table, u: Table, fd: Fd, mine: Hid)
    requires fd !in t.fds && u.fds == t.fds[fd := Open(mine)]
    requires forall h :: h in t.handles && h != mine ==> h in u.handles && u.handles[h] == t.handles[h]
    ensures OthersAsTheyWere(t, u, mine) && OpenOn(u, mine) == OpenOn(t, mine) + {fd}
  {
    forall h | h != mine ensures OpenOn(u, h) == OpenOn(t, h) && ClosingOn(u, h) == ClosingOn(t, h) {
    }
  }

  lemma SharedSound(t: Table, fd: Fd, vid: Vid)
    requires Inv(t) && fd !in t.fds && vid in t.index
    ensures
      var u, mine := OpenStep(t, fd, vid), t.index[vid];
      HandleSound(u, mine) && OpenOn(u, mine) == OpenOn(t, mine) + {fd}
  {
    var u, mine := OpenStep(t, fd, vid), t.index[vid];
    assert HandleSound(t, mine);
    assert OpenOn(u, mine) == OpenOn(t, mine) + {fd};
    assert ClosingOn(u, mine) == ClosingOn(t, mine);
  }

  lemma SharedNames(t: Table, fd: Fd, vid: Vid)
    requires AllLive(t) && Indexed(t) && TornSound(t) && fd !in t.fds && vid in t.index
    ensures
      var u, mine := OpenStep(t, fd, vid), t.index[vid];
      && AllLive(u) && Indexed(u) && TornSound(u) && StepOn(t, u, fd, mine)
      && OthersAsTheyWere(t, u, mine)
      && u.index == t.index && u.torn == t.torn
  {
    var u, mine := OpenStep(t, fd, vid), t.index[vid];
    OtherOpens(t, u, fd, mine);
    TornKept(t, u);
    hide TornSound, OthersAsTheyWere;
  }

  lemma CreateKeeps(t: Table, fd: Fd, vid: Vid)
    requires Inv(t) && fd !in t.fds && vid !in t.index
    ensures
      var u, mine := OpenStep(t, fd, vid), t.nextHandle;
      && Inv(u)
      && mine !in t.handles && mine in u.handles
      && OpenOn(u, mine) == {fd}
      && OthersAsTheyWere(t, u, mine)
      && u.index == t.index[vid := mine] && u.torn == t.torn
  {
    var u, mine := OpenStep(t, fd, vid), t.nextHandle;
    CreatedSound(t, fd, vid);
    CreatedNames(t, fd, vid);
    hide Inv, OpenStep, StepOn, AllLive, Indexed, TornSound, HandleSound, OpenOn, OthersAsTheyWere;
    Kept(t, u, fd, mine);
  }

  lemma CreatedSound(t: Table, fd: Fd, vid: Vid)
    requires Inv(t) && fd !in t.fds && vid !in t.index
    ensures HandleSound(OpenStep(t, fd, vid), t.nextHandle)
    ensures OpenOn(OpenStep(t, fd, vid), t.nextHandle) == {fd}
  {
    assert OpenOn(OpenStep(t, fd, vid), t.nextHandle) == {fd};
  }

  lemma CreatedNames(t: Table, fd: Fd, vid: Vid)
    requires AllLive(t) && Indexed(t) && TornSound(t) && fd !in t.fds && vid !in t.index
    ensures
      var u, mine := OpenStep(t, fd, vid), t.nextHandle;
      && AllLive(u) && Indexed(u) && TornSound(u) && StepOn(t, u, fd, mine)
      && OthersAsTheyWere(t, u, mine)
      && mine !in t.handles && mine in u.handles
      && u.index == t.index[vid := mine] && u.torn == t.torn
  {
    var u, mine := OpenStep(t, fd, vid), t.nextHandle;
    OtherOpens(t, u, fd, mine);
    TornKept(t, u);
    CreatedIndex(t, fd, vid);
    hide TornSound, OthersAsTheyWere, Indexed;
  }

  lemma CreatedIndex(t: Table, fd: Fd, vid: Vid)
    requires Indexed(t) && fd !in t.fds && vid !in t.index
    ensures Indexed(OpenStep(t, fd, vid))
  {
  }

  lemma WriteKeeps(t: Table, fd: Fd)
    requires Inv(t) && fd in t.fds && t.fds[fd].Open?
    ensures Inv(WriteStep(t, fd))
  {
    WrittenSound(t, fd);
    hide Inv, OneChanged, WriteStep, HandleSound;
    OneChangedKeeps(t, WriteStep(t, fd), fd);
  }

  lemma WrittenSound(t: Table, fd: Fd)
    requires Inv(t) && fd in t.fds && t.fds[fd].Open?
    ensures OneChanged(t, WriteStep(t, fd), fd) && HandleSound(WriteStep(t, fd), t.fds[fd].h)
  {
    var u, mine := WriteStep(t, fd), t.fds[fd].h;
    assert HandleSound(t, mine);
    assert fd in OpenOn(t, mine);
    assert OpenOn(u, mine) == OpenOn(t, mine);
  }

  lemma CloseKeeps(t: Table, fd: Fd)
    requires Inv(t) && fd in t.fds && t.fds[fd].Open?
    ensures Inv(CloseStep(t, fd))
  {
    ClosedSound(t, fd);
    hide Inv, OneChanged, CloseStep, HandleSound;
    OneChangedKeeps(t, CloseStep(t, fd), fd);
  }

  lemma ClosedSound(t: Table, fd: Fd)
    requires Inv(t) && fd in t.fds && t.fds[fd].Open?
    ensures OneChanged(t, CloseStep(t, fd), fd) && HandleSound(CloseStep(t, fd), t.fds[fd].h)
  {
    var u, mine := CloseStep(t, fd), t.fds[fd].h;
    assert HandleSound(t, mine);
    assert fd in OpenOn(t, mine);
    assert OpenOn(u, mine) == OpenOn(t, mine) - {fd};
    if u.handles[mine].refCount == 0 {
      assert fd in ClosingOn(u, mine);
    }
  }

  /** Moving a closing descriptor on, with what it has just found out being so, keeps everything. */
  lemma ClosingMoves(t: Table, u: Table, fd: Fd)
    requires Inv(t) && fd in t.fds && !t.fds[fd].Open?
    requires fd in u.fds && u.fds == t.fds[fd := u.fds[fd]] && !u.fds[fd].Open? && u.fds[fd].h == t.fds[fd].h
    requires
      var h := t.fds[fd].h;
      && h in u.handles
      && u.handles == t.handles[h := t.handles[h].(stored := u.handles[h].stored)]
      && UpToDate(u.fds[fd], u.handles[h])
      && (u.handles[h].stored == t.handles[h].stored || u.handles[h].stored == u.handles[h].version)
    requires u.index == t.index && u.nextHandle == t.nextHandle && u.torn == t.torn
    ensures Inv(u)
  {
    MovedSound(t, u, fd);
    assert OneChanged(t, u, fd);
    hide Inv, OneChanged, HandleSound, UpToDate;
    OneChangedKeeps(t, u, fd);
  }

  lemma MovedSound(t: Table, u: Table, fd: Fd)
    requires fd in t.fds && !t.fds[fd].Open? && u.index == t.index
    requires fd in u.fds && u.fds == t.fds[fd := u.fds[fd]] && !u.fds[fd].Open? && u.fds[fd].h == t.fds[fd].h
    requires
      var h := t.fds[fd].h;
      && h in t.handles && h in u.handles && HandleSound(t, h)
      && u.handles[h] == t.handles[h].(stored := u.handles[h].stored)
      && UpToDate(u.fds[fd], u.handles[h])
    ensures HandleSound(u, t.fds[fd].h)
  {
    var mine := t.fds[fd].h;
    assert OpenOn(u, mine) == OpenOn(t, mine);
    assert fd in ClosingOn(u, mine);
  }

  lemma LeaveKeeps(t: Table, fd: Fd)
    requires Inv(t) && fd in t.fds && t.fds[fd].Leaving? && Safe(t, OpLeave(fd))
    ensures Inv(LeaveStep(t, fd))
  {
    Live(t, fd);
    if t.handles[t.fds[fd].h].refCount > 0 {
      StaysOpen(t, fd);
    } else {
      TornDown(t, fd);
    }
  }

  lemma StaysOpen(t: Table, fd: Fd)
    requires Inv(t) && fd in t.fds && t.fds[fd].Leaving? && t.handles[t.fds[fd].h].refCount > 0
    ensures Inv(LeaveStep(t, fd))
  {
    StayedSound(t, fd);
    hide Inv, OneChanged, LeaveStep, HandleSound;
    OneChangedKeeps(t, LeaveStep(t, fd), fd);
  }

  lemma StayedSound(t: Table, fd: Fd)
    requires Inv(t) && fd in t.fds && t.fds[fd].Leaving? && t.handles[t.fds[fd].h].refCount > 0
    ensures OneChanged(t, LeaveStep(t, fd), fd) && HandleSound(LeaveStep(t, fd), t.fds[fd].h)
  {
    var u, mine := LeaveStep(t, fd), t.fds[fd].h;
    assert HandleSound(t, mine);
    assert u.handles == t.handles[mine := u.handles[mine]];
    assert OpenOn(u, mine) == OpenOn(t, mine);
  }

  lemma TornDown(t: Table, fd: Fd)
    requires Inv(t) && fd in t.fds && t.fds[fd].Leaving? && t.handles[t.fds[fd].h].refCount <= 0
    requires ClosingOn(t, t.fds[fd].h) == {fd}
    ensures Inv(LeaveStep(t, fd))
  {
    var u := LeaveStep(t, fd);
    OneMoreTorn(t, fd);
    TornNames(t, fd);
    assert t.fds[fd].h !in u.handles;
    hide Inv, LeaveStep, StepOn, AllLive, Indexed, TornSound, HandleSound, ClosingOn;
    Kept(t, u, fd, t.fds[fd].h);
  }

  lemma TornNames(t: Table, fd: Fd)
    requires Inv(t) && fd in t.fds && t.fds[fd].Leaving? && t.handles[t.fds[fd].h].refCount <= 0
    requires ClosingOn(t, t.fds[fd].h) == {fd}
    ensures var u := LeaveStep(t, fd); AllLive(u) && Indexed(u) && StepOn(t, u, fd, t.fds[fd].h)
  {
    var mine := t.fds[fd].h;
    OnlyUser(t, fd);
    assert HandleSound(t, mine);
    assert t.index[t.handles[mine].vid] == mine;
    hide Inv, ClosingOn, HandleSound;
    TornStep(t, fd);
    TornIndex(t, fd);
  }

  lemma TornStep(t: Table, fd: Fd)
    requires fd in t.fds && t.fds[fd].h in t.handles && t.handles[t.fds[fd].h].refCount <= 0
    requires AllLive(t) && forall f :: f in t.fds && t.fds[f].h == t.fds[fd].h ==> f == fd
    ensures var u := LeaveStep(t, fd); AllLive(u) && StepOn(t, u, fd, t.fds[fd].h)
  {
  }

  lemma TornIndex(t: Table, fd: Fd)
    requires fd in t.fds && t.fds[fd].h in t.handles && t.handles[t.fds[fd].h].refCount <= 0
    requires Indexed(t) && t.handles[t.fds[fd].h].vid in t.index && t.index[t.handles[t.fds[fd].h].vid] == t.fds[fd].h
    ensures Indexed(LeaveStep(t, fd))
  {
  }

  lemma OneMoreTorn(t: Table, fd: Fd)
    requires Inv(t) && fd in t.fds && t.fds[fd].Leaving? && t.handles[t.fds[fd].h].refCount <= 0
    requires ClosingOn(t, t.fds[fd].h) == {fd}
    ensures TornSound(LeaveStep(t, fd))
  {
    var mine := t.fds[fd].h;
    assert HandleSound(t, mine);
    assert UpToDate(t.fds[fd], t.handles[mine]);
    hide HandleSound, ClosingOn;
  }

  /** With no reference and one closer, nobody else has the handle. */
  lemma OnlyUser(t: Table, fd: Fd)
    requires Inv(t) && fd in t.fds && t.handles[t.fds[fd].h].refCount <= 0 && ClosingOn(t, t.fds[fd].h) == {fd}
    ensures forall f :: f in t.fds && t.fds[f].h == t.fds[fd].h ==> f == fd
  {
    var mine := t.fds[fd].h;
    assert HandleSound(t, mine);
    assert OpenOn(t, mine) == {};
    forall f | f in t.fds && t.fds[f].h == mine ensures f == fd {
      assert f in OpenOn(t, mine) || f in ClosingOn(t, mine);
    }
  }

  lemma StepKeeps(t: Table, op: Op)
    requires Inv(t) && Possible(t, op) && Safe(t, op)
    ensures Inv(Step(t, op))
  {
    match op
    case OpOpen(fd, vid) => OpenKeeps(t, fd, vid);
    case OpWrite(fd) => WriteKeeps(t, fd);
    case OpClose(fd) => CloseKeeps(t, fd);
    case OpFlushed(fd) =>
      assert HandleSound(t, t.fds[fd].h);
      ClosingMoves(t, FlushedStep(t, fd), fd);
    case OpSaved(fd) => ClosingMoves(t, SavedStep(t, fd), fd);
    case OpLeave(fd) => LeaveKeeps(t, fd);
  }

  /** A teardown while someone else is closing the same handle leaves them with freed memory. */
  lemma UnsafeTeardown(t: Table, op: Op)
    requires Inv(t) && Possible(t, op) && !Safe(t, op)
    ensures !AllLive(Step(t, op))
  {
    var h := t.fds[op.fd].h;
    assert op.fd in ClosingOn(t, h);
    var other :| other in ClosingOn(t, h) && other != op.fd;
    assert other in Step(t, op).fds;
  }

  /** With every indexed handle live, an open shares one or makes one. */
  lemma OpenIs(t: Table, fd: Fd, vid: Vid)
    requires Inv(t)
    ensures vid in t.index ==>
      var h := t.index[vid];
      && h in t.handles
      && OpenStep(t, fd, vid)
         == t.(handles := t.handles[h := t.handles[h].(refCount := t.handles[h].refCount + 1)],
           fds := t.fds[fd := Open(h)])
    ensures vid !in t.index ==>
      var h := t.nextHandle;
      OpenStep(t, fd, vid)
        == Table(t.index[vid := h], t.handles[h := Handle(vid, 1, false, 0, 0)], t.fds[fd := Open(h)], h + 1, t.torn)
  {
  }

  lemma Live(t: Table, fd: Fd)
    requires Inv(t) && fd in t.fds
    ensures t.fds[fd].h in t.handles
  {
  }

  // ---------------------------------------------------------------- what each step brings about

  /** A write marks the handle and makes a new version of the file; nothing else changes. */
  lemma WriteEffect(t: Table, fd: Fd)
    requires Inv(t) && fd in t.fds && t.fds[fd].Open?
    ensures
      var h, u := t.fds[fd].h, WriteStep(t, fd);
      && h in t.handles && h in u.handles
      && u.handles[h].modified && u.handles[h].version == t.handles[h].version + 1
      && u.handles[h] == t.handles[h].(modified := true, version := u.handles[h].version)
      && u == t.(handles := t.handles[h := u.handles[h]])
  {
  }

  /**
   A close takes the descriptor off the handle. While others have it open that is all; the last one goes on
   to flush. The record loses one reference and nothing else.
   */
  lemma CloseEffect(t: Table, fd: Fd)
    requires Inv(t) && fd in t.fds && t.fds[fd].Open?
    ensures
      var h, u := t.fds[fd].h, CloseStep(t, fd);
      && h in t.handles && h in u.handles
      && OpenOn(u, h) == OpenOn(t, h) - {fd}
      && u.handles[h] == t.handles[h].(refCount := |OpenOn(t, h)| - 1)
      && u == t.(handles := t.handles[h := u.handles[h]], fds := u.fds)
      && u.fds == (if OpenOn(t, h) == {fd} then t.fds[fd := Flushing(h)] else t.fds - {fd})
  {
    var h, u := t.fds[fd].h, CloseStep(t, fd);
    assert HandleSound(t, h);
    assert fd in OpenOn(t, h);
    assert OpenOn(u, h) == OpenOn(t, h) - {fd};
    if OpenOn(t, h) != {fd} {
      var g :| g in OpenOn(t, h) && g != fd;
      AtLeastTwo(OpenOn(t, h), fd, g);
    }
  }

  lemma AtLeastTwo(s: set<Fd>, a: Fd, b: Fd)
    requires a in s && b in s && a != b
    ensures |s| >= 2
  {
    assert s == {a} + (s - {a});
    assert b in s - {a};
  }

  /** After the flush a descriptor goes on to store the exnode exactly when something has been written. */
  lemma FlushedEffect(t: Table, fd: Fd)
    requires Inv(t) && fd in t.fds && t.fds[fd].Flushing?
    ensures
      var h := t.fds[fd].h;
      && h in t.handles
      && FlushedStep(t, fd) == t.(fds := t.fds[fd := if t.handles[h].version > 0 then Saving(h) else Leaving(h, false)])
  {
    assert HandleSound(t, t.fds[fd].h);
  }

  /** Storing the exnode stores all that has been written so far. */
  lemma SavedEffect(t: Table, fd: Fd)
    requires Inv(t) && fd in t.fds && t.fds[fd].Saving?
    ensures
      var h, u := t.fds[fd].h, SavedStep(t, fd);
      && h in t.handles && h in u.handles
      && u.handles[h].stored == u.handles[h].version == t.handles[h].version
      && u.handles[h] == t.handles[h].(stored := u.handles[h].stored)
      && u == t.(handles := t.handles[h := u.handles[h]], fds := t.fds[fd := Leaving(h, true)])
  {
  }

  /**
   The descriptor is gone; with somebody back on the handle that is all,
   otherwise the handle and its index entry are too.
   */
  lemma LeaveEffect(t: Table, fd: Fd)
    requires Inv(t) && fd in t.fds && t.fds[fd].Leaving?
    ensures
      var h, u := t.fds[fd].h, LeaveStep(t, fd);
      && h in t.handles
      && u.fds == t.fds - {fd} && u.nextHandle == t.nextHandle
      && if OpenOn(t, h) != {} then u.handles == t.handles && u.index == t.index && u.torn == t.torn
         else
           var fh := t.handles[h];
           && u.handles == t.handles - {h} && u.index == t.index - {fh.vid}
           && u.torn == t.torn + [Torn(h, fh.modified, fh.version, fh.stored)]
  {
    assert HandleSound(t, t.fds[fd].h);
    assert OpenOn(t, t.fds[fd].h) == {} <==> |OpenOn(t, t.fds[fd].h)| == 0;
  }

  // ---------------------------------------------------------------- runs

  ghost predicate Legal(t: Table, ops: seq<Op>)
    decreases |ops|
  {
    ops == [] || (Possible(t, ops[0]) && Legal(Step(t, ops[0]), ops[1..]))
  }

  ghost function Reached(t: Table, ops: seq<Op>): Table
    requires Legal(t, ops)
    decreases |ops|
  {
    if ops == [] then t else Reached(Step(t, ops[0]), ops[1..])
  }

  ghost predicate AllSafe(t: Table, ops: seq<Op>)
    requires Legal(t, ops)
    decreases |ops|
  {
    ops == [] || (Safe(t, ops[0]) && AllSafe(Step(t, ops[0]), ops[1..]))
  }

  ghost predicate AlwaysLive(t: Table, ops: seq<Op>)
    requires Legal(t, ops)
    decreases |ops|
  {
    AllLive(t) && (ops == [] || AlwaysLive(Step(t, ops[0]), ops[1..]))
  }

  const NOTHING_OPEN := Table(map[], map[], map[], 0, [])

  /**
   Over every interleaving of opens, writes and closes: no descriptor is ever left with a freed
   handle exactly when every teardown is made by the only descriptor closing its handle.
   */
  lemma {:induction false} LiveExactlyWhenSafe(t: Table, ops: seq<Op>)
    requires Inv(t) && Legal(t, ops)
    ensures AllSafe(t, ops) <==> AlwaysLive(t, ops)
    decreases |ops|
  {
    if ops != [] {
      var u := Step(t, ops[0]);
      if Safe(t, ops[0]) {
        StepKeeps(t, ops[0]);
        LiveExactlyWhenSafe(u, ops[1..]);
      } else {
        UnsafeTeardown(t, ops[0]);
      }
    }
  }

  /**
   In every such run each descriptor's handle is live and, for an open one, is the one its view ID
   finds in the index; the count is the number of open descriptors; a handle is torn down at most
   once; and a modified handle only after its latest version has been stored.
   */
  lemma {:induction false} EverySafeRun(t: Table, ops: seq<Op>)
    requires Inv(t) && Legal(t, ops) && AllSafe(t, ops)
    ensures
      var u := Reached(t, ops);
      && Inv(u)
      && (forall fd :: fd in u.fds ==>
            var h := u.fds[fd].h;
            && h in u.handles
            && u.index.Keys >= {u.handles[h].vid} && u.index[u.handles[h].vid] == h
            && u.handles[h].refCount == |OpenOn(u, h)|)
      && TornSound(u)
    decreases |ops|
  {
    if ops != [] {
      StepKeeps(t, ops[0]);
      EverySafeRun(Step(t, ops[0]), ops[1..]);
    } else {
      assert forall fd :: fd in t.fds ==> HandleSound(t, t.fds[fd].h);
    }
  }

  // ---------------------------------------------------------------- every write is stored

  /** Whether an operation is a write on the handle. */
  predicate WritesOn(t: Table, op: Op, h: Hid) {
    op.OpWrite? && op.fd in t.fds && t.fds[op.fd].h == h
  }

  /** The writes made on a handle in a run. */
  ghost function Writes(t: Table, ops: seq<Op>, h: Hid): nat
    requires Legal(t, ops)
    decreases |ops|
  {
    if ops == [] then 0
    else (if WritesOn(t, ops[0], h) then 1 else 0) + Writes(Step(t, ops[0]), ops[1..], h)
  }

  /** The version of a handle, before it has been made 0. */
  function VersionOf(t: Table, h: Hid): nat {
    if h in t.handles then t.handles[h].version else 0
  }

  /** A handle that has been torn down. */
  ghost predicate Dead(t: Table, h: Hid) {
    h < t.nextHandle && h !in t.handles
  }

  /** What one step does to one handle: it counts its writes, and a teardown records the count. */
  lemma OneStepCounts(t: Table, op: Op, h: Hid)
    requires Inv(t) && Possible(t, op)
    ensures
      var u := Step(t, op);
      && t.torn <= u.torn && |u.torn| <= |t.torn| + 1
      && (Dead(t, h) ==> Dead(u, h) && !WritesOn(t, op, h))
      && (h in u.handles ==> VersionOf(u, h) == VersionOf(t, h) + if WritesOn(t, op, h) then 1 else 0)
      && (h in t.handles && h !in u.handles ==>
            && !WritesOn(t, op, h) && Dead(u, h)
            && |u.torn| == |t.torn| + 1 && u.torn[|t.torn|].h == h && u.torn[|t.torn|].version == VersionOf(t, h))
      && (|u.torn| > |t.torn| && u.torn[|t.torn|].h == h ==> h in t.handles && h !in u.handles)
      && (h !in t.handles && h !in u.handles ==> !WritesOn(t, op, h))
  {
    if op.OpLeave? {
      Live(t, op.fd);
    }
    hide TornSound, HandleSound;
  }

  /** Nothing more is written on a handle that is gone, and it does not go twice. */
  lemma {:induction false} DeadStays(t: Table, ops: seq<Op>, h: Hid)
    requires Inv(t) && Legal(t, ops) && AllSafe(t, ops) && Dead(t, h)
    ensures Dead(Reached(t, ops), h) && Writes(t, ops, h) == 0
    ensures
      var u := Reached(t, ops);
      t.torn <= u.torn && forall i :: |t.torn| <= i < |u.torn| ==> u.torn[i].h != h
    decreases |ops|
  {
    if ops != [] {
      OneStepCounts(t, ops[0], h);
      StepKeeps(t, ops[0]);
      hide Inv, Step, Safe;
      DeadStays(Step(t, ops[0]), ops[1..], h);
    }
  }

  /**
   In a safe run the version of a handle is the number of writes made on it,
   and so is the one recorded when it goes.
   */
  lemma {:induction false} WritesCounted(t: Table, ops: seq<Op>, h: Hid)
    requires Inv(t) && Legal(t, ops) && AllSafe(t, ops)
    ensures
      var u := Reached(t, ops);
      && t.torn <= u.torn
      && (h in u.handles ==> VersionOf(u, h) == VersionOf(t, h) + Writes(t, ops, h))
      && forall i :: |t.torn| <= i < |u.torn| && u.torn[i].h == h ==>
           u.torn[i].version == VersionOf(t, h) + Writes(t, ops, h)
    decreases |ops|
  {
    if ops != [] {
      var v := Step(t, ops[0]);
      OneStepCounts(t, ops[0], h);
      StepKeeps(t, ops[0]);
      if Dead(v, h) {
        DeadStays(v, ops[1..], h);
      } else {
        WritesCounted(v, ops[1..], h);
      }
      hide Inv, Step, Safe;
    }
  }

  /**
   No write is forgotten: in every safe run a live handle is modified exactly when it has been written on,
   and one that is torn down after k > 0 writes has all k of them stored.
   */
  lemma EveryWriteIsStored(ops: seq<Op>, h: Hid)
    requires Legal(NOTHING_OPEN, ops) && AllSafe(NOTHING_OPEN, ops)
    ensures
      var u := Reached(NOTHING_OPEN, ops);
      var k := Writes(NOTHING_OPEN, ops, h);
      && (h in u.handles ==> (u.handles[h].modified <==> k > 0))
      && forall i :: 0 <= i < |u.torn| && u.torn[i].h == h ==>
           && (u.torn[i].modified <==> k > 0)
           && (k > 0 ==> u.torn[i].stored == k)
  {
    NothingOpenSound();
    WritesCounted(NOTHING_OPEN, ops, h);
    EverySafeRun(NOTHING_OPEN, ops);
    var u := Reached(NOTHING_OPEN, ops);
    assert h in u.handles ==> HandleSound(u, h);
    hide Reached, Legal, AllSafe, Writes;
  }

  lemma NothingOpenSound()
    ensures Inv(NOTHING_OPEN)
  {
  }

  /** No descriptor brings a count to zero while an earlier one is still closing the same handle. */
  ghost predicate OneCloser(t: Table, op: Op)
    requires Possible(t, op)
  {
    op.OpClose? ==>
      var h := t.fds[op.fd].h;
      h in t.handles && t.handles[h].refCount <= 1 ==> ClosingOn(t, h) == {}
  }

  ghost predicate AlwaysOneCloser(t: Table, ops: seq<Op>)
    requires Legal(t, ops)
    decreases |ops|
  {
    ops == [] || (OneCloser(t, ops[0]) && AlwaysOneCloser(Step(t, ops[0]), ops[1..]))
  }

  ghost predicate AtMostOneCloser(t: Table) {
    forall f, g :: f in t.fds && g in t.fds && !t.fds[f].Open? && !t.fds[g].Open? && t.fds[f].h == t.fds[g].h ==> f == g
  }

  /** That is enough: a run in which it never happens is safe throughout. */
  lemma {:induction false} OneCloserIsSafe(t: Table, ops: seq<Op>)
    requires Inv(t) && AtMostOneCloser(t) && Legal(t, ops) && AlwaysOneCloser(t, ops)
    ensures AllSafe(t, ops)
    decreases |ops|
  {
    if ops != [] {
      if ops[0].OpLeave? {
        assert ops[0].fd in ClosingOn(t, t.fds[ops[0].fd].h);
      }
      assert Safe(t, ops[0]);
      OneCloserKept(t, ops[0]);
      StepKeeps(t, ops[0]);
      OneCloserIsSafe(Step(t, ops[0]), ops[1..]);
    }
  }

  lemma OneCloserKept(t: Table, op: Op)
    requires Inv(t) && AtMostOneCloser(t) && Possible(t, op) && OneCloser(t, op)
    ensures AtMostOneCloser(Step(t, op))
  {
    if op.OpClose? {
      ClosedAlone(t, op.fd);
    } else {
      hide Inv;
    }
  }

  lemma ClosedAlone(t: Table, fd: Fd)
    requires Inv(t) && AtMostOneCloser(t) && Possible(t, OpClose(fd)) && OneCloser(t, OpClose(fd))
    ensures AtMostOneCloser(CloseStep(t, fd))
  {
    Live(t, fd);
    hide Inv;
    var h := t.fds[fd].h;
    forall f | f in t.fds && !t.fds[f].Open? && t.fds[f].h == h ensures f in ClosingOn(t, h) {
    }
  }

  /** Two opens and two closes suffice to go wrong: the second closer is left with a freed handle. */
  lemma TwoClosersGoWrong()
    ensures
      var ops := [OpOpen(0, 7), OpClose(0), OpOpen(1, 7), OpClose(1), OpFlushed(0), OpLeave(0)];
      && Inv(NOTHING_OPEN)
      && Legal(NOTHING_OPEN, ops)
      && !AllLive(Reached(NOTHING_OPEN, ops))
  {
    var t1 := Step(NOTHING_OPEN, OpOpen(0, 7));
    var t2 := Step(t1, OpClose(0));
    var t3 := Step(t2, OpOpen(1, 7));
    var t4 := Step(t3, OpClose(1));
    var t5 := Step(t4, OpFlushed(0));
    var t6 := Step(t5, OpLeave(0));
    assert 1 in t6.fds && t6.fds[1].h !in t6.handles;
    var ops := [OpOpen(0, 7), OpClose(0), OpOpen(1, 7), OpClose(1), OpFlushed(0), OpLeave(0)];
    assert ops[1..] == [OpClose(0), OpOpen(1, 7), OpClose(1), OpFlushed(0), OpLeave(0)];
    assert ops[1..][1..] == [OpOpen(1, 7), OpClose(1), OpFlushed(0), OpLeave(0)];
    assert ops[1..][1..][1..] == [OpClose(1), OpFlushed(0), OpLeave(0)];
    assert ops[1..][1..][1..][1..] == [OpFlushed(0), OpLeave(0)];
    assert ops[1..][1..][1..][1..][1..] == [OpLeave(0)];
    assert Legal(t6, []) && Reached(t6, []) == t6;
    assert Legal(t5, [OpLeave(0)]) && Reached(t5, [OpLeave(0)]) == t6;
  }

  // ---------------------------------------------------------------- as the source does it

  /** The open-file state of an lio_config_t, and the descriptors and handles it serves. */
  class FileTable {
    var openIndex: map<Vid, Hid>
    var handles: map<Hid, Handle>
    var fds: map<Fd, Descriptor>
    var nextHandle: Hid
    ghost var torn: seq<Torn>

    ghost function State(): Table
      reads this
    {
      Table(openIndex, handles, fds, nextHandle, torn)
    }

    ghost predicate Valid()
      reads this
    {
      Inv(State())
    }

    constructor ()
      ensures Valid() && State() == NOTHING_OPEN
    {
      openIndex, handles, fds, nextHandle, torn := map[], map[], map[], 0, [];
    }

    method Open(fd: Fd, vid: Vid)
      requires Valid() && fd !in fds
      modifies this
      ensures Valid() && State() == OpenStep(old(State()), fd, vid)
    {
      ghost var before := State();
      OpenIs(before, fd, vid);
      OpenKeeps(before, fd, vid);
      hide Inv, OpenStep;
      if vid in openIndex {
        Share(fd, openIndex[vid]);
        assert State() == OpenStep(before, fd, vid);
      } else {
        Create(fd, vid);
        assert State() == OpenStep(before, fd, vid);
      }
    }

    /** 449-456: one more descriptor on a handle that is open already. */
    method Share(fd: Fd, h: Hid)
      requires h in handles
      modifies `handles, `fds
      ensures handles == old(handles)[h := old(handles)[h].(refCount := old(handles)[h].refCount + 1)]
      ensures fds == old(fds)[fd := Descriptor.Open(h)]
    {
      handles := handles[h := handles[h].(refCount := handles[h].refCount + 1)];
      fds := fds[fd := Descriptor.Open(h)];
    }

    /** 458-489: a handle of its own for a view that is not open. */
    method Create(fd: Fd, vid: Vid)
      modifies `openIndex, `handles, `fds, `nextHandle
      ensures openIndex == old(openIndex)[vid := old(nextHandle)] && nextHandle == old(nextHandle) + 1
      ensures handles == old(handles)[old(nextHandle) := Handle(vid, 1, false, 0, 0)]
      ensures fds == old(fds)[fd := Descriptor.Open(old(nextHandle))]
    {
      var h := nextHandle;
      nextHandle := nextHandle + 1;
      handles := handles[h := Handle(vid, 1, false, 0, 0)];
      openIndex := openIndex[vid := h];
      fds := fds[fd := Descriptor.Open(h)];
    }

    method Write(fd: Fd)
      requires Valid() && fd in fds && fds[fd].Open?
      modifies `handles
      ensures Valid() && State() == WriteStep(old(State()), fd)
      ensures fds[fd].h in handles && handles[fds[fd].h].modified
    {
      hide Inv;
      Live(State(), fd);
      WriteKeeps(State(), fd);
      WriteEffect(State(), fd);
      var h := fds[fd].h;
      handles := handles[h := handles[h].(modified := true, version := handles[h].version + 1)];
    }

    method Close(fd: Fd) returns (last: bool)
      requires Valid() && fd in fds && fds[fd].Open?
      modifies `handles, `fds
      ensures Valid() && State() == CloseStep(old(State()), fd)
      ensures last <==> fd in fds
    {
      hide Inv;
      Live(State(), fd);
      CloseKeeps(State(), fd);
      var h := fds[fd].h;
      handles := handles[h := handles[h].(refCount := handles[h].refCount - 1)];
      last := handles[h].refCount <= 0;
      if last {
        fds := fds[fd := Flushing(h)];
      } else {
        fds := fds - {fd};
      }
    }

    method Flushed(fd: Fd)
      requires Valid() && fd in fds && fds[fd].Flushing?
      modifies `fds
      ensures Valid() && State() == FlushedStep(old(State()), fd)
    {
      hide Inv;
      Live(State(), fd);
      StepKeeps(State(), OpFlushed(fd));
      var h := fds[fd].h;
      if !handles[h].modified {
        fds := fds[fd := Leaving(h, false)];
      } else {
        fds := fds[fd := Saving(h)];
      }
    }

    method Saved(fd: Fd)
      requires Valid() && fd in fds && fds[fd].Saving?
      modifies `fds, `handles
      ensures Valid() && State() == SavedStep(old(State()), fd)
    {
      hide Inv;
      Live(State(), fd);
      StepKeeps(State(), OpSaved(fd));
      var h := fds[fd].h;
      handles := handles[h := handles[h].(stored := handles[h].version)];
      fds := fds[fd := Leaving(h, true)];
    }

    /** Nothing here looks for other closers: only a safe teardown keeps the table valid. */
    method Leave(fd: Fd)
      requires Valid() && fd in fds && fds[fd].Leaving?
      modifies this
      ensures State() == LeaveStep(old(State()), fd)
      ensures Valid() <==> old(Safe(State(), OpLeave(fd)))
    {
      if Safe(State(), OpLeave(fd)) {
        LeaveKeeps(State(), fd);
      } else {
        UnsafeTeardown(State(), OpLeave(fd));
      }
      var h := fds[fd].h;
      var fh := handles[h];
      fds := fds - {fd};
      if fh.refCount > 0 {
        return;
      }
      if fh.vid in openIndex && openIndex[fh.vid] == h {
        openIndex := openIndex - {fh.vid};
      }
      handles := handles - {h};
      torn := torn + [Torn(h, fh.modified, fh.version, fh.stored)];
    }
  }
}
