/**
 The readahead window of a file handle (lio_core_io.c:868-921): how a read is clipped to the file
 and when it is stretched to fetch more than was asked for.
 */
module Readahead {
  import opened Options

  /** The configured window: how far to read ahead, and how far a read may fall behind before starting over. */
  datatype Window = Window(readahead: nat, trigger: nat)

  /** What is read: `size` bytes go to the caller, `fetched` bytes at `off` are read into the cache. */
  datatype Fetch = Fetch(off: int, size: int, fetched: int)

  function Least(a: int, b: int): int {
    if a < b then a else b
  }

  /** Whether a read that ends at `pend` is stretched. */
  predicate Stretches(w: Window, end: int, pend: int) {
    pend > end || end - pend > w.trigger
  }

  class Handle {
    const window: Window
    /** Where the last stretched read was to end. */
    var readaheadEnd: int

    /** _gop_lio_read for a read of `size` bytes at `off` of a file of `ssize` bytes. */
    method Read(off: nat, size: int, ssize: nat) returns (fetch: Option<Fetch>)
      modifies `readaheadEnd
      ensures fetch.None? <==> size <= 0 || off >= ssize
      ensures fetch.None? ==> readaheadEnd == old(readaheadEnd)
      ensures fetch.Some? ==>
        var f := fetch.value;
        && f.off == off
        && f.size == (if off + size > ssize then ssize - off else size) > 0
        && f.size <= f.fetched && off + f.fetched <= ssize
        && (if Stretches(window, old(readaheadEnd), off + size)
            then off + f.fetched == Least(off + size + window.readahead, ssize)
            else f.fetched == f.size)
      ensures fetch.Some? ==>
        && readaheadEnd == Next(window, old(readaheadEnd), off + size)
        && 0 <= readaheadEnd - (off + size)
             <= (if window.readahead > window.trigger then window.readahead else window.trigger)
    {
      fetch := None;
      var want := size;
      var pend := off + want;
      if pend > ssize {
        if off > ssize {
          return;
        }
        want := ssize - off;
      }
      if want <= 0 {
        return;
      }
      var rend := pend + window.readahead;
      var rsize := want;
      var dr := pend - readaheadEnd;
      if dr > 0 || -dr > window.trigger {
        rsize := rend - off;
        if rend > ssize {
          rsize := ssize - off;
        }
        readaheadEnd := rend;
      }
      fetch := Some(Fetch(off, want, rsize));
    }
  }

  /** The window's end after an accepted read that ends at `pend`. */
  function Next(w: Window, end: int, pend: int): int {
    if Stretches(w, end, pend) then pend + w.readahead else end
  }

  /** The window's end after accepted reads that end at the given places. */
  function After(w: Window, end: int, pends: seq<int>): int
    decreases |pends|
  {
    if pends == [] then end else After(w, Next(w, end, pends[0]), pends[1..])
  }

  /** Whether the last of these reads is stretched. */
  predicate LastStretches(w: Window, end: int, pends: seq<int>)
    requires pends != []
  {
    Stretches(w, After(w, end, pends[..|pends| - 1]), pends[|pends| - 1])
  }

  ghost predicate Forward(pends: seq<int>) {
    forall i, j :: 0 <= i < j < |pends| ==> pends[i] <= pends[j]
  }

  lemma {:induction false} AfterAppend(w: Window, end: int, a: seq<int>, b: seq<int>)
    ensures After(w, end, a + b) == After(w, After(w, end, a), b)
    decreases |a|
  {
    if a == [] {
      assert a + b == b;
    } else {
      assert (a + b)[1..] == a[1..] + b;
      AfterAppend(w, Next(w, end, a[0]), a[1..], b);
    }
  }

  /** From a stretched read on, the window stays where it is until a read passes its end. */
  lemma {:induction false} WindowHolds(w: Window, start: int, pends: seq<int>)
    requires w.trigger >= w.readahead && Forward(pends)
    requires forall i :: 0 <= i < |pends| ==> start <= pends[i] <= start + w.readahead
    ensures After(w, start + w.readahead, pends) == start + w.readahead
    decreases |pends|
  {
    if pends != [] {
      WindowHolds(w, start, pends[1..]);
    }
  }

  /**
   In any forward run of reads, with the trigger no shorter than the window, two stretched reads end
   more than a whole window apart: no byte is read ahead twice.
   */
  lemma StretchesAreApart(w: Window, end: int, pends: seq<int>, i: nat, j: nat)
    requires w.trigger >= w.readahead && Forward(pends) && i < j < |pends|
    requires LastStretches(w, end, pends[..i + 1]) && LastStretches(w, end, pends[..j + 1])
    ensures pends[j] > pends[i] + w.readahead
  {
    if pends[j] <= pends[i] + w.readahead {
      var between := pends[i + 1..j];
      WindowHolds(w, pends[i], between);
      assert pends[..i + 1][..i] == pends[..i] && pends[..j + 1][..j] == pends[..j];
      assert pends[..i + 1] == pends[..i] + [pends[i]];
      AfterAppend(w, end, pends[..i], [pends[i]]);
      assert [pends[i]][1..] == [];
      assert pends[..j] == pends[..i + 1] + between;
      AfterAppend(w, end, pends[..i + 1], between);
    }
  }
}
