/**
 The memory of the AMP page cache (cache_amp_priv.h, cache_priv.h): the pages, the LRU
 stack they are linked on, and the segments' page indexes, with the elementary updates the
 cache routines are made of.

 A page record stands for the pair cache_page_t/page_amp_t. `linked` says that the page has
 an element on the LRU stack (lp->ele != NULL); a live page without one is in limbo. The top
 of the stack is position 0.
 */
module AmpStore {
  import opened Sequences
  import opened Totals

  type PageSize = n: int | 0 < n witness 1
  type PageId = nat

  datatype Segment = Segment(id: nat, pageSize: PageSize)

  datatype Page = Page(
    seg: Segment,
    offset: int,
    dirty: bool,
    empty: bool,
    toRelease: bool,
    accessed: bool,
    recycled: bool,
    readers: nat,
    writers: nat,
    flushers: nat,
    linked: bool)
  {
    predicate Idle() {
      readers + writers + flushers == 0
    }

    /** Used at least once, or sent round the stack once already: open to eviction. */
    predicate Aged() {
      accessed || recycled
    }

    predicate Evictable() {
      Idle() && !dirty && Aged()
    }
  }

  /** One entry of a segment's page index `s->pages`. */
  datatype Entry = Entry(seg: Segment, offset: int, page: PageId)

  datatype Store = Store(pages: map<PageId, Page>, stack: seq<PageId>, index: set<Entry>)

  /** The stack holds exactly the linked pages, each once, and no index entry is stale. */
  ghost predicate WellFormed(s: Store) {
    && Distinct(s.stack)
    && (forall i :: 0 <= i < |s.stack| ==> s.stack[i] in s.pages && s.pages[s.stack[i]].linked)
    && (forall p :: p in s.pages && s.pages[p].linked ==> p in s.stack)
    && IndexSound(s)
  }

  /** No index entry refers to a page that has been freed, moved or re-keyed. */
  ghost predicate IndexSound(s: Store) {
    forall e :: e in s.index ==>
      && e.page in s.pages
      && e.offset >= 0
      && s.pages[e.page].seg == e.seg
      && s.pages[e.page].offset == e.offset
  }

  ghost function PageSizes(pages: map<PageId, Page>): map<PageId, int> {
    map p | p in pages :: pages[p].seg.pageSize as int
  }

  ghost function StackSizes(pages: map<PageId, Page>): map<PageId, int> {
    map p | p in pages && pages[p].linked :: pages[p].seg.pageSize as int
  }

  /** Bytes held by every live page, on the stack or in limbo. */
  ghost function PageBytes(pages: map<PageId, Page>): int {
    Total(PageSizes(pages))
  }

  /** Bytes held by the pages that are on the stack. */
  ghost function StackBytes(pages: map<PageId, Page>): int {
    Total(StackSizes(pages))
  }

  /** The position of a linked page: lp->ele. */
  ghost function PositionOf(s: Store, p: PageId): (i: nat)
    requires WellFormed(s) && p in s.pages && s.pages[p].linked
    ensures i < |s.stack| && s.stack[i] == p
  {
    var i :| 0 <= i < |s.stack| && s.stack[i] == p;
    i
  }

  /** Free the page at a stack position and forget its index entry. */
  function DropAt(s: Store, i: nat): Store
    requires i < |s.stack| && s.stack[i] in s.pages
  {
    var p := s.stack[i];
    Store(s.pages - {p}, Without(s.stack, i), s.index - {Entry(s.pages[p].seg, s.pages[p].offset, p)})
  }

  /** Take the page at a stack position off the stack and flag it for release: it enters limbo. */
  function UnlinkAt(s: Store, i: nat): Store
    requires i < |s.stack| && s.stack[i] in s.pages
  {
    var p := s.stack[i];
    Store(s.pages[p := s.pages[p].(toRelease := true, linked := false)], Without(s.stack, i), s.index)
  }

  /** Flag the page at a stack position as recycled (CAMP_OLD) and move it to the top. */
  function AgeAt(s: Store, i: nat): Store
    requires i < |s.stack| && s.stack[i] in s.pages
  {
    var p := s.stack[i];
    Store(s.pages[p := s.pages[p].(recycled := true)], [p] + Without(s.stack, i), s.index)
  }

  lemma DropAtSound(s: Store, i: nat)
    requires WellFormed(s) && i < |s.stack|
    ensures WellFormed(DropAt(s, i))
  {
    WithoutOne(s.stack, i);
  }

  lemma DropAtKeeps(s: Store, i: nat)
    requires WellFormed(s) && i < |s.stack|
    ensures
      var p := s.stack[i];
      var t := DropAt(s, i);
      && WellFormed(t)
      && PageBytes(t.pages) == PageBytes(s.pages) - s.pages[p].seg.pageSize
      && StackBytes(t.pages) == StackBytes(s.pages) - s.pages[p].seg.pageSize
  {
    DropAtSound(s, i);
    BytesMinus(s.pages, s.stack[i]);
  }

  lemma UnlinkAtSound(s: Store, i: nat)
    requires WellFormed(s) && i < |s.stack|
    ensures WellFormed(UnlinkAt(s, i))
  {
    WithoutOne(s.stack, i);
  }

  lemma UnlinkAtKeeps(s: Store, i: nat)
    requires WellFormed(s) && i < |s.stack|
    ensures
      var p := s.stack[i];
      var t := UnlinkAt(s, i);
      && WellFormed(t)
      && PageBytes(t.pages) == PageBytes(s.pages)
      && StackBytes(t.pages) == StackBytes(s.pages) - s.pages[p].seg.pageSize
  {
    var p := s.stack[i];
    UnlinkAtSound(s, i);
    BytesReplaced(s.pages, p, s.pages[p].(toRelease := true, linked := false));
  }

  lemma AgeAtSound(s: Store, i: nat)
    requires WellFormed(s) && i < |s.stack|
    ensures WellFormed(AgeAt(s, i))
  {
    WithoutOne(s.stack, i);
  }

  lemma AgeAtKeeps(s: Store, i: nat)
    requires WellFormed(s) && i < |s.stack|
    ensures
      var t := AgeAt(s, i);
      && WellFormed(t)
      && PageBytes(t.pages) == PageBytes(s.pages)
      && StackBytes(t.pages) == StackBytes(s.pages)
  {
    var p := s.stack[i];
    AgeAtSound(s, i);
    BytesReplaced(s.pages, p, s.pages[p].(recycled := true));
  }

  lemma BytesMinus(pages: map<PageId, Page>, p: PageId)
    requires p in pages
    ensures PageBytes(pages) == pages[p].seg.pageSize + PageBytes(pages - {p})
    ensures StackBytes(pages) == (if pages[p].linked then pages[p].seg.pageSize else 0) + StackBytes(pages - {p})
  {
    TotalMinus(PageSizes(pages), p);
    assert PageSizes(pages) - {p} == PageSizes(pages - {p});
    assert StackSizes(pages) - {p} == StackSizes(pages - {p});
    if pages[p].linked {
      TotalMinus(StackSizes(pages), p);
    } else {
      assert StackSizes(pages) == StackSizes(pages - {p});
    }
  }

  /** Replacing a page record moves bytes only by its size and by its being linked. */
  lemma BytesReplaced(pages: map<PageId, Page>, p: PageId, page: Page)
    requires p in pages && page.seg == pages[p].seg
    ensures PageBytes(pages[p := page]) == PageBytes(pages)
    ensures StackBytes(pages[p := page]) == StackBytes(pages)
      - (if pages[p].linked then page.seg.pageSize else 0) + (if page.linked then page.seg.pageSize else 0)
  {
    BytesMinus(pages, p);
    BytesMinus(pages[p := page], p);
    assert pages[p := page] - {p} == pages - {p};
  }

  function Pushed(s: Store, p: PageId, page: Page): Store {
    Store(s.pages[p := page], [p] + s.stack, s.index)
  }

  /** A new page goes on top of the stack. */
  lemma PushedSound(s: Store, p: PageId, page: Page)
    requires WellFormed(s) && p !in s.pages && page.linked
    ensures WellFormed(Pushed(s, p, page))
  {
    var raised := [p] + s.stack;
    assert raised[0] == p;
    forall q | q in s.stack ensures q in raised {
      var k :| 0 <= k < |s.stack| && s.stack[k] == q;
      assert raised[k + 1] == q;
    }
  }

  lemma PushedBytes(s: Store, p: PageId, page: Page)
    requires p !in s.pages
    ensures PageBytes(Pushed(s, p, page).pages) == PageBytes(s.pages) + page.seg.pageSize
  {
    BytesMinus(s.pages[p := page], p);
    assert s.pages[p := page] - {p} == s.pages;
  }

  /** Take a page out of memory, off the stack if it is on it, and out of the index if asked. */
  ghost function FreePage(s: Store, p: PageId, forget: bool): Store
    requires WellFormed(s) && p in s.pages
  {
    var page := s.pages[p];
    Store(s.pages - {p},
          if page.linked then Without(s.stack, PositionOf(s, p)) else s.stack,
          if forget then s.index - {Entry(page.seg, page.offset, p)} else s.index)
  }

  lemma FreePageKeeps(s: Store, p: PageId, forget: bool)
    requires WellFormed(s) && p in s.pages
    requires forget || forall e :: e in s.index ==> e.page != p
    ensures WellFormed(FreePage(s, p, forget))
    ensures PageBytes(FreePage(s, p, forget).pages) == PageBytes(s.pages) - s.pages[p].seg.pageSize
  {
    BytesMinus(s.pages, p);
    FreePageSound(s, p, forget);
    hide WellFormed;
  }

  lemma FreePageSound(s: Store, p: PageId, forget: bool)
    requires WellFormed(s) && p in s.pages
    requires forget || forall e :: e in s.index ==> e.page != p
    ensures WellFormed(FreePage(s, p, forget))
  {
    if s.pages[p].linked {
      WithoutOne(s.stack, PositionOf(s, p));
      assert IndexSound(FreePage(s, p, forget));
      hide IndexSound, Distinct, Without;
    }
  }
}
