/**
 The running checksum of a written file (lio_core_io.c:50-54, 241-285, 1023-1054). Each write
 leaves a range with the Adler-32 of its own bytes in a table ordered by offset; at close the
 ranges are coalesced, in that order, into one checksum with counts of missing and overlapping
 bytes. Adler-32 is that of section 2.2 of RFC 1950.
 */
module WriteTable {
  import Division
  import opened Totals

  const BASE := 65521

  type Byte = b: int | 0 <= b < 256

  /** The two sums of an Adler-32 checksum. */
  datatype Adler = Adler(a: int, b: int)

  const START := Adler(1, 0)

  /** Taking in one byte after the other, each sum kept modulo BASE. */
  function Update(s: Adler, data: seq<Byte>): Adler
    decreases |data|
  {
    if data == [] then s
    else
      var a := (s.a + data[0]) % BASE;
      Update(Adler(a, (s.b + a) % BASE), data[1..])
  }

  function Checksum(data: seq<Byte>): Adler {
    Update(START, data)
  }

  /** zlib's adler32_combine: the checksum of two runs of bytes from theirs and the second one's length. */
  function Combine(x: Adler, y: Adler, len: nat): Adler {
    var rem := len % BASE;
    Adler((x.a + y.a + BASE - 1) % BASE, (rem * x.a + x.b + y.b + BASE - rem) % BASE)
  }

  function Sum(data: seq<Byte>): int {
    if data == [] then 0 else data[0] + Sum(data[1..])
  }

  function Weighted(data: seq<Byte>): int {
    if data == [] then 0 else |data| * data[0] + Weighted(data[1..])
  }

  /** Remainders may be taken early: adding a multiple of BASE changes nothing. */
  lemma Reduced(x: int, y: int, q: int)
    requires x == y + q * BASE
    ensures x % BASE == y % BASE
  {
    Division.MultipleAdded(y, q, BASE);
  }

  /** One more byte `d` in front of `n` others, whose own weighted sum is `rest`. */
  lemma OneByte(a: int, b: int, d: int, n: nat, rest: int)
    ensures
      var a1 := (a + d) % BASE;
      var b1 := (b + a1) % BASE;
      (b1 + n * a1 + rest) % BASE == (b + (n + 1) * a + ((n + 1) * d + rest)) % BASE
  {
    var u := a + d;
    var a1, qa := u % BASE, u / BASE;
    var b1, qb := (b + a1) % BASE, (b + a1) / BASE;
    assert n * u == n * a1 + (n * qa) * BASE by {
      assert u == a1 + qa * BASE;
      assert n * (qa * BASE) == (n * qa) * BASE;
    }
    assert (n + 1) * a + (n + 1) * d == u + n * u;
    Reduced(b + (n + 1) * a + ((n + 1) * d + rest), b1 + n * a1 + rest, qb + qa + n * qa);
  }

  /** The sums in closed form. */
  lemma {:induction false} UpdateSums(s: Adler, data: seq<Byte>)
    requires 0 <= s.a < BASE && 0 <= s.b < BASE
    decreases |data|
    ensures Update(s, data) == Adler((s.a + Sum(data)) % BASE, (s.b + |data| * s.a + Weighted(data)) % BASE)
  {
    if data != [] {
      var a := (s.a + data[0]) % BASE;
      UpdateSums(Adler(a, (s.b + a) % BASE), data[1..]);
      SumsStep(s, data[0], |data|, Sum(data[1..]), Weighted(data[1..]));
    }
  }

  lemma SumsStep(s: Adler, d: int, len: nat, sum: int, weighted: int)
    requires len > 0
    ensures
      var a := (s.a + d) % BASE;
      var b := (s.b + a) % BASE;
      && (a + sum) % BASE == (s.a + (d + sum)) % BASE
      && (b + (len - 1) * a + weighted) % BASE == (s.b + len * s.a + (len * d + weighted)) % BASE
  {
    Reduced(s.a + (d + sum), (s.a + d) % BASE + sum, (s.a + d) / BASE);
    OneByte(s.a, s.b, d, len - 1, weighted);
  }

  lemma {:induction false} UpdateInRange(s: Adler, data: seq<Byte>)
    requires 0 <= s.a < BASE && 0 <= s.b < BASE
    decreases |data|
    ensures var t := Update(s, data); 0 <= t.a < BASE && 0 <= t.b < BASE
  {
    if data != [] {
      var a := (s.a + data[0]) % BASE;
      UpdateInRange(Adler(a, (s.b + a) % BASE), data[1..]);
    }
  }

  lemma {:induction false} UpdateAppend(s: Adler, x: seq<Byte>, y: seq<Byte>)
    ensures Update(s, x + y) == Update(Update(s, x), y)
    decreases |x|
  {
    if x == [] {
      assert x + y == y;
    } else {
      assert (x + y)[1..] == x[1..] + y;
      var a := (s.a + x[0]) % BASE;
      UpdateAppend(Adler(a, (s.b + a) % BASE), x[1..], y);
    }
  }

  /** Combining is checksumming the two runs as one. */
  lemma CombineIsAppend(x: seq<Byte>, y: seq<Byte>)
    ensures Combine(Checksum(x), Checksum(y), |y|) == Checksum(x + y)
  {
    var s, t, n := Checksum(x), Checksum(y), |y|;
    UpdateInRange(START, x);
    UpdateAppend(START, x, y);
    UpdateSums(s, y);
    UpdateSums(START, y);
    CombineSums(s, n, 1 + Sum(y), n + Weighted(y));
  }

  lemma CombineSums(s: Adler, n: nat, ya: int, yb: int)
    ensures Combine(s, Adler(ya % BASE, yb % BASE), n) == Adler((s.a + ya - 1) % BASE, (s.b + n * s.a + yb - n) % BASE)
  {
    var rem, qn, qa, qb := n % BASE, n / BASE, ya / BASE, yb / BASE;
    assert s.a + ya - 1 == (s.a + ya % BASE + BASE - 1) + (qa - 1) * BASE;
    Reduced(s.a + ya - 1, s.a + ya % BASE + BASE - 1, qa - 1);
    var x, y := s.b + n * s.a + yb - n, rem * s.a + s.b + yb % BASE + BASE - rem;
    assert n * s.a == rem * s.a + (qn * BASE) * s.a by {
      Division.Distributes(rem, qn * BASE, s.a);
    }
    assert (qn * BASE) * s.a == (qn * s.a) * BASE;
    assert x == y + (qn * s.a) * BASE + qb * BASE - qn * BASE - BASE;
    Reduced(x, y, qn * s.a + qb - qn - 1);
  }

  // ---------------------------------------------------------------- the table

  /** lfs_adler32_t. */
  datatype Range = Range(offset: int, len: nat, adler: Adler) {
    function End(): int {
      offset + len
    }
  }

  datatype Write = Write(offset: nat, data: seq<Byte>)

  function RangeOf(w: Write): Range {
    Range(w.offset, |w.data|, Checksum(w.data))
  }

  /** Insert by offset; a range whose offset is taken already is not added. */
  function Inserted(table: seq<Range>, r: Range): seq<Range> {
    if table == [] || r.offset < table[0].offset then [r] + table
    else if r.offset == table[0].offset then table
    else [table[0]] + Inserted(table[1..], r)
  }

  /** The table after the writes, in the order they came in. */
  function TableOf(writes: seq<Write>): seq<Range> {
    if writes == [] then []
    else
      var last := |writes| - 1;
      Inserted(TableOf(writes[..last]), RangeOf(writes[last]))
  }

  // ---------------------------------------------------------------- coalescing

  datatype Summary = Summary(cksum: Adler, missing: int, overlap: int, nbytes: int, next: int)

  const NOTHING := Summary(START, 0, 0, 0, 0)

  function Coalesced(s: Summary, r: Range): Summary {
    var dn := r.offset - s.next;
    Summary(
      Combine(s.cksum, r.adler, r.len),
      if dn > 0 then s.missing + dn else s.missing,
      if dn < 0 then s.overlap - dn else s.overlap,
      s.nbytes + r.len,
      r.End())
  }

  function Coalesce(table: seq<Range>): Summary {
    if table == [] then NOTHING
    else
      var last := |table| - 1;
      Coalesced(Coalesce(table[..last]), table[last])
  }

  /** Each range starts where the one before it ends, the first at 0. */
  ghost predicate Tiles(table: seq<Range>) {
    table == [] || (
      var last := |table| - 1;
      Tiles(table[..last]) && table[last].offset == if last == 0 then 0 else table[last - 1].End())
  }

  /** For any table: bytes written plus bytes missing less bytes overlapping is the end of the last range. */
  lemma {:induction false} Accounting(table: seq<Range>)
    ensures
      var s := Coalesce(table);
      && s.nbytes + s.missing - s.overlap == s.next
      && s.next == (if table == [] then 0 else table[|table| - 1].End())
      && s.missing >= 0 && s.overlap >= 0
  {
    if table != [] {
      Accounting(table[..|table| - 1]);
    }
  }

  /** Nothing is counted missing or overlapping exactly when the ranges tile the file from its start. */
  lemma {:induction false} CleanExactlyWhenTiled(table: seq<Range>)
    ensures Coalesce(table).missing == 0 == Coalesce(table).overlap <==> Tiles(table)
  {
    if table != [] {
      var last := |table| - 1;
      var before := table[..last];
      CleanExactlyWhenTiled(before);
      Accounting(before);
    }
  }

  /** Where the range before ends; before the first there is the beginning of the file. */
  function EndBefore(table: seq<Range>, i: nat): int
    requires i < |table|
  {
    if i == 0 then 0 else table[i - 1].End()
  }

  /** How far a range begins beyond the end of the one before it. */
  function GapAt(table: seq<Range>, i: nat): int
    requires i < |table|
  {
    table[i].offset - EndBefore(table, i)
  }

  /** How much is missing before each range that begins beyond the end of the one before it. */
  ghost function Gaps(table: seq<Range>): map<nat, int> {
    map i: nat | i < |table| && GapAt(table, i) > 0 :: GapAt(table, i)
  }

  /** How much each range overlaps that begins before the end of the one before it. */
  ghost function Overlaps(table: seq<Range>): map<nat, int> {
    map i: nat | i < |table| && GapAt(table, i) < 0 :: -GapAt(table, i)
  }

  /**
   For any table: the bytes missing are all the gaps, and the bytes overlapping are all the overlaps,
   taken from one range to the next.
   */
  lemma {:induction false} CountsAreTotals(table: seq<Range>)
    ensures Coalesce(table).missing == Total(Gaps(table))
    ensures Coalesce(table).overlap == Total(Overlaps(table))
  {
    if table == [] {
      assert Gaps(table) == map[] && Overlaps(table) == map[];
    } else {
      var last := |table| - 1;
      CountsAreTotals(table[..last]);
      Accounting(table[..last]);
      OneMoreCount(table);
      hide Gaps, Overlaps;
    }
  }

  /** The last range adds its own gap or overlap. */
  lemma OneMoreCount(table: seq<Range>)
    requires table != []
    ensures
      var last := |table| - 1;
      var dn := GapAt(table, last);
      && Total(Gaps(table)) == Total(Gaps(table[..last])) + (if dn > 0 then dn else 0)
      && Total(Overlaps(table)) == Total(Overlaps(table[..last])) + (if dn < 0 then -dn else 0)
  {
    var last: nat := |table| - 1;
    GapsOfFront(table);
    hide Gaps, Overlaps, GapAt;
    OneMoreValue(Gaps(table[..last]), last, GapAt(table, last));
    OneMoreValue(Overlaps(table[..last]), last, -GapAt(table, last));
  }

  lemma OneMoreValue(m: map<nat, int>, k: nat, v: int)
    requires k !in m
    ensures Total(if v > 0 then m[k := v] else m) == Total(m) + (if v > 0 then v else 0)
  {
    TotalUpdate(m, k, v);
  }

  lemma GapsOfFront(table: seq<Range>)
    requires table != []
    ensures
      var last: nat := |table| - 1;
      var dn := GapAt(table, last);
      && last !in Gaps(table[..last]) && last !in Overlaps(table[..last])
      && Gaps(table) == (if dn > 0 then Gaps(table[..last])[last := dn] else Gaps(table[..last]))
      && Overlaps(table) == (if -dn > 0 then Overlaps(table[..last])[last := -dn] else Overlaps(table[..last]))
  {
    var last: nat := |table| - 1;
    var front := table[..last];
    forall i: nat | i < last ensures GapAt(front, i) == GapAt(table, i) {
    }
    hide GapAt;
  }

  /**
   Nothing is missing exactly when no range begins beyond the one before it,
   nothing overlaps exactly when none begins before.
   */
  lemma NothingCounted(table: seq<Range>)
    ensures Coalesce(table).missing == 0 <==> forall i: nat :: i < |table| ==> table[i].offset <= EndBefore(table, i)
    ensures Coalesce(table).overlap == 0 <==> forall i: nat :: i < |table| ==> table[i].offset >= EndBefore(table, i)
  {
    CountsAreTotals(table);
    TotalPositive(Gaps(table));
    TotalPositive(Overlaps(table));
    if i: nat :| i < |table| && table[i].offset > EndBefore(table, i) {
      assert i in Gaps(table);
    }
    if i: nat :| i < |table| && table[i].offset < EndBefore(table, i) {
      assert i in Overlaps(table);
    }
    hide Coalesce;
  }

  /** Five bytes written twice. */
  lemma RewriteCounted(a: Adler, b: Adler)
    ensures
      var s := Coalesce([Range(0, 10, a), Range(5, 10, b)]);
      s.missing == 0 && s.overlap == 5 && s.nbytes == 20
  {
    var first, table := [Range(0, 10, a)], [Range(0, 10, a), Range(5, 10, b)];
    assert first[..0] == [] && table[..1] == first;
    assert Coalesce(first) == Coalesced(NOTHING, first[0]);
    assert Coalesce(table) == Coalesced(Coalesce(first), table[1]);
  }

  ghost predicate Matches(r: Range, content: seq<Byte>) {
    0 <= r.offset && r.End() <= |content| && r.adler == Checksum(content[r.offset..r.End()])
  }

  /** The checksum of tiling ranges of a content is the checksum of as much of it as they cover. */
  lemma {:induction false} TilesChecksum(table: seq<Range>, content: seq<Byte>)
    requires Tiles(table) && forall i :: 0 <= i < |table| ==> Matches(table[i], content)
    ensures var s := Coalesce(table); 0 <= s.next <= |content| && s.cksum == Checksum(content[..s.next])
  {
    if table == [] {
      assert content[..0] == [];
    } else {
      var last := |table| - 1;
      var r := table[last];
      TilesChecksum(table[..last], content);
      Accounting(table[..last]);
      assert Matches(r, content);
      CombineIsAppend(content[..r.offset], content[r.offset..r.End()]);
      assert content[..r.offset] + content[r.offset..r.End()] == content[..r.End()];
    }
  }

  // ---------------------------------------------------------------- writes in any order

  predicate Apart(v: Write, w: Write) {
    v.offset + |v.data| <= w.offset || w.offset + |w.data| <= v.offset
  }

  /** The writes are pieces of the content, none empty, no two overlapping, together as long as it. */
  ghost predicate Pieces(writes: seq<Write>, content: seq<Byte>) {
    && (forall i :: 0 <= i < |writes| ==> PieceOf(writes[i], content))
    && (forall i, j :: 0 <= i < j < |writes| ==> Apart(writes[i], writes[j]))
  }

  ghost predicate PieceOf(w: Write, content: seq<Byte>) {
    w.data != [] && w.offset + |w.data| <= |content| && w.data == content[w.offset..w.offset + |w.data|]
  }

  function TotalBytes(writes: seq<Write>): nat {
    if writes == [] then 0 else TotalBytes(writes[..|writes| - 1]) + |writes[|writes| - 1].data|
  }

  function TableBytes(table: seq<Range>): nat {
    if table == [] then 0 else table[0].len + TableBytes(table[1..])
  }

  /** Ranges in order, with no overlap. */
  ghost predicate Spaced(table: seq<Range>) {
    forall i, j :: 0 <= i < j < |table| ==> table[i].End() <= table[j].offset
  }

  ghost predicate Clear(table: seq<Range>, r: Range) {
    forall q :: q in table ==> q.len > 0 && (q.End() <= r.offset || r.End() <= q.offset)
  }

  lemma {:induction false} InsertedHolds(table: seq<Range>, r: Range)
    requires Clear(table, r) && r.len > 0
    ensures forall q :: q in Inserted(table, r) <==> q in table || q == r
    ensures TableBytes(Inserted(table, r)) == TableBytes(table) + r.len
  {
    if table == [] || r.offset < table[0].offset {
      assert ([r] + table)[1..] == table;
    } else {
      var rest := Inserted(table[1..], r);
      assert table[0] in table && forall q :: q in table[1..] ==> q in table;
      InsertedHolds(table[1..], r);
      assert ([table[0]] + rest)[1..] == rest;
      assert forall q :: q in table ==> q == table[0] || q in table[1..];
    }
  }

  /** A range that ends before a spaced table begins goes in front of it. */
  lemma Prepended(r: Range, table: seq<Range>)
    requires Spaced(table) && forall q :: q in table ==> r.End() <= q.offset
    ensures Spaced([r] + table)
  {
    var next := [r] + table;
    forall i, j | 0 <= i < j < |next| ensures next[i].End() <= next[j].offset {
      assert next[j] == table[j - 1] && table[j - 1] in table;
    }
  }

  lemma {:induction false} InsertedSpaced(table: seq<Range>, r: Range)
    requires Spaced(table) && Clear(table, r) && r.len > 0
    ensures Spaced(Inserted(table, r))
  {
    hide Clear;
    if table == [] {
      Prepended(r, []);
      assert [r] + [] == [r];
    } else if r.offset < table[0].offset {
      BelowAll(table, r);
      Prepended(r, table);
    } else {
      AboveFirst(table, r);
      InsertedSpaced(table[1..], r);
      InsertedHolds(table[1..], r);
      Prepended(table[0], Inserted(table[1..], r));
    }
  }

  lemma BelowAll(table: seq<Range>, r: Range)
    requires table != [] && Spaced(table) && Clear(table, r) && r.offset < table[0].offset
    ensures forall q :: q in table ==> r.End() <= q.offset
  {
    forall q | q in table ensures r.End() <= q.offset {
      var k :| 0 <= k < |table| && table[k] == q;
      assert table[0] in table;
    }
  }

  lemma AboveFirst(table: seq<Range>, r: Range)
    requires table != [] && Spaced(table) && Clear(table, r) && r.offset >= table[0].offset && r.len > 0
    ensures r.offset != table[0].offset && table[0].End() <= r.offset
    ensures Spaced(table[1..]) && Clear(table[1..], r)
    ensures forall q :: q in table[1..] ==> table[0].End() <= q.offset
  {
    assert table[0] in table && forall q :: q in table[1..] ==> q in table;
    forall q | q in table[1..] ensures table[0].End() <= q.offset {
      var k :| 0 <= k < |table[1..]| && table[1..][k] == q;
      assert table[k + 1] == q;
    }
  }

  ghost predicate FromWrite(writes: seq<Write>, r: Range) {
    exists i :: 0 <= i < |writes| && r == RangeOf(writes[i])
  }

  lemma ClearOfOthers(writes: seq<Write>, content: seq<Byte>, table: seq<Range>)
    requires writes != [] && Pieces(writes, content)
    requires forall q :: q in table ==> FromWrite(writes[..|writes| - 1], q)
    ensures var r := RangeOf(writes[|writes| - 1]); r.len > 0 && Clear(table, r)
  {
    var last := |writes| - 1;
    var r := RangeOf(writes[last]);
    assert PieceOf(writes[last], content);
    forall q | q in table ensures q.len > 0 && (q.End() <= r.offset || r.End() <= q.offset) {
      var i :| 0 <= i < last && q == RangeOf(writes[..last][i]);
      assert PieceOf(writes[i], content) && Apart(writes[i], writes[last]);
    }
  }

  lemma {:induction false} TableOfPieces(writes: seq<Write>, content: seq<Byte>)
    requires Pieces(writes, content)
    ensures Spaced(TableOf(writes))
    ensures forall q :: q in TableOf(writes) ==> FromWrite(writes, q)
    ensures TableBytes(TableOf(writes)) == TotalBytes(writes)
  {
    if writes != [] {
      var last := |writes| - 1;
      var before := writes[..last];
      TableOfPieces(before, content);
      var r := RangeOf(writes[last]);
      ClearOfOthers(writes, content, TableOf(before));
      hide Spaced, Clear, Pieces, Inserted;
      InsertedHolds(TableOf(before), r);
      InsertedSpaced(TableOf(before), r);
      forall q | q in TableOf(writes) ensures FromWrite(writes, q) {
        if q in TableOf(before) {
          var i :| 0 <= i < |before| && q == RangeOf(before[i]);
          assert q == RangeOf(writes[i]);
        } else {
          assert q == RangeOf(writes[last]);
        }
      }
    }
  }

  lemma {:induction false} SpacedSummary(table: seq<Range>)
    requires Spaced(table) && forall q :: q in table ==> q.offset >= 0
    ensures Coalesce(table).overlap == 0
    ensures Coalesce(table).nbytes == TableBytes(table)
  {
    if table != [] {
      var last := |table| - 1;
      SpacedSummary(table[..last]);
      Accounting(table[..last]);
      assert table[last] in table;
      TableBytesLast(table);
    }
  }

  lemma {:induction false} TableBytesLast(table: seq<Range>)
    requires table != []
    ensures TableBytes(table) == TableBytes(table[..|table| - 1]) + table[|table| - 1].len
  {
    if |table| > 1 {
      TableBytesLast(table[1..]);
      assert table[1..][..|table| - 2] == table[..|table| - 1][1..];
    }
  }

  /**
   Whatever order the writes arrive in: if no two overlap and together they fill the content,
   the coalesced value is the Adler-32 of the whole content, with nothing missing or overlapping.
   */
  lemma AnyOrder(writes: seq<Write>, content: seq<Byte>)
    requires Pieces(writes, content) && TotalBytes(writes) == |content|
    ensures Coalesce(TableOf(writes)) == Summary(Checksum(content), 0, 0, |content|, |content|)
  {
    hide Pieces, Spaced, Matches, TableOf, Coalesce, Tiles, Checksum, FromWrite;
    PiecesMatch(writes, content);
    TableOfPieces(writes, content);
    FullTable(TableOf(writes), content);
  }

  /** Spaced ranges that match a content and are as long as it tile it. */
  lemma FullTable(table: seq<Range>, content: seq<Byte>)
    requires Spaced(table) && TableBytes(table) == |content|
    requires forall q :: q in table ==> q.offset >= 0 && q.End() <= |content| && Matches(q, content)
    ensures Coalesce(table) == Summary(Checksum(content), 0, 0, |content|, |content|)
  {
    hide Spaced, Matches, Coalesce, Tiles, Checksum, TableBytes;
    SpacedSummary(table);
    Accounting(table);
    assert table == [] || table[|table| - 1] in table;
    CleanExactlyWhenTiled(table);
    TilesChecksum(table, content);
    assert content[..|content|] == content;
  }

  lemma PiecesMatch(writes: seq<Write>, content: seq<Byte>)
    requires Pieces(writes, content)
    ensures forall q :: q in TableOf(writes) ==> q.offset >= 0 && q.End() <= |content| && Matches(q, content)
  {
    TableOfPieces(writes, content);
    forall q | q in TableOf(writes) ensures q.offset >= 0 && q.End() <= |content| && Matches(q, content) {
      var i :| 0 <= i < |writes| && q == RangeOf(writes[i]);
      PieceMatches(writes[i], content);
    }
  }

  lemma PieceMatches(w: Write, content: seq<Byte>)
    requires PieceOf(w, content)
    ensures var r := RangeOf(w); r.offset >= 0 && r.End() <= |content| && Matches(r, content)
  {
    hide Checksum;
  }

  // ---------------------------------------------------------------- as the source does it

  datatype Iov = Iov(offset: nat, len: nat)

  function TotalLen(iov: seq<Iov>): nat {
    if iov == [] then 0 else iov[0].len + TotalLen(iov[1..])
  }

  /** The writes that a vectored write makes of its buffer. */
  function WritesOf(iov: seq<Iov>, buffer: seq<Byte>, boff: nat): seq<Write>
    requires boff + TotalLen(iov) <= |buffer|
  {
    if iov == [] then []
    else [Write(iov[0].offset, buffer[boff..boff + iov[0].len])] + WritesOf(iov[1..], buffer, boff + iov[0].len)
  }

  /** Each piece of a vectored write is written at its own offset, with the bytes that follow those before it. */
  lemma {:induction false} WritesInTurn(iov: seq<Iov>, buffer: seq<Byte>, boff: nat, i: nat)
    requires i < |iov| && boff + TotalLen(iov) <= |buffer|
    ensures |WritesOf(iov, buffer, boff)| == |iov| && boff + TotalLen(iov[..i]) + iov[i].len <= |buffer|
    ensures
      var from := boff + TotalLen(iov[..i]);
      WritesOf(iov, buffer, boff)[i] == Write(iov[i].offset, buffer[from..from + iov[i].len])
    decreases |iov|
  {
    WritesCount(iov, buffer, boff);
    if i > 0 {
      WritesInTurn(iov[1..], buffer, boff + iov[0].len, i - 1);
      assert iov[..i][1..] == iov[1..][..i - 1];
    }
  }

  lemma {:induction false} WritesCount(iov: seq<Iov>, buffer: seq<Byte>, boff: nat)
    requires boff + TotalLen(iov) <= |buffer|
    ensures |WritesOf(iov, buffer, boff)| == |iov|
    decreases |iov|
  {
    if iov != [] {
      WritesCount(iov[1..], buffer, boff + iov[0].len);
    }
  }

  lemma WritesEnd(buffer: seq<Byte>, bpos: nat)
    requires bpos <= |buffer|
    ensures WritesOf([], buffer, bpos) == []
  {
  }

  lemma FirstWrite(iov: seq<Iov>, i: nat, buffer: seq<Byte>, bpos: nat, before: seq<Write>)
    requires i < |iov| && bpos + TotalLen(iov[i..]) <= |buffer|
    ensures bpos + iov[i].len + TotalLen(iov[i + 1..]) <= |buffer|
    ensures before + WritesOf(iov[i..], buffer, bpos)
         == before + [Write(iov[i].offset, buffer[bpos..bpos + iov[i].len])]
            + WritesOf(iov[i + 1..], buffer, bpos + iov[i].len)
  {
    assert iov[i..][0] == iov[i] && iov[i..][1..] == iov[i + 1..];
    var w := Write(iov[i].offset, buffer[bpos..bpos + iov[i].len]);
    var rest := WritesOf(iov[i + 1..], buffer, bpos + iov[i].len);
    assert before + ([w] + rest) == before + [w] + rest;
  }

  lemma TableExtended(writes: seq<Write>, w: Write)
    ensures TableOf(writes + [w]) == Inserted(TableOf(writes), RangeOf(w))
  {
    assert (writes + [w])[..|writes|] == writes;
  }

  class Table {
    var ranges: seq<Range>
    ghost var writes: seq<Write>

    ghost predicate Valid()
      reads this
    {
      ranges == TableOf(writes)
    }

    constructor ()
      ensures Valid() && writes == []
    {
      ranges, writes := [], [];
    }

    /** The ordered index's insertion, keyed by offset. */
    method Insert(r: Range)
      modifies `ranges
      ensures ranges == Inserted(old(ranges), r)
    {
      var pos := 0;
      while pos < |ranges| && ranges[pos].offset < r.offset
        invariant 0 <= pos <= |ranges|
        invariant Inserted(ranges, r) == ranges[..pos] + Inserted(ranges[pos..], r)
      {
        assert ranges[pos..][1..] == ranges[pos + 1..];
        assert ranges[..pos] + ([ranges[pos]] + Inserted(ranges[pos + 1..], r)) ==
          ranges[..pos + 1] + Inserted(ranges[pos + 1..], r);
        pos := pos + 1;
      }
      if pos == |ranges| || ranges[pos].offset != r.offset {
        assert ranges[..pos] + ([r] + ranges[pos..]) == ranges[..pos] + [r] + ranges[pos..];
        ranges := ranges[..pos] + [r] + ranges[pos..];
      } else {
        assert ranges[..pos] + ranges[pos..] == ranges;
      }
    }

    /** lio_write_ex_fn, 1023-1051: one range for each piece of a vectored write. */
    method Record(iov: seq<Iov>, buffer: seq<Byte>, boff: nat)
      requires Valid() && boff + TotalLen(iov) <= |buffer|
      modifies this
      ensures Valid() && writes == old(writes) + WritesOf(iov, buffer, boff)
    {
      hide Inserted, Checksum, TableOf, WritesOf;
      WritesEnd(buffer, boff);
      var bpos: nat := boff;
      for i := 0 to |iov|
        invariant Valid() && bpos + TotalLen(iov[i..]) <= |buffer|
        invariant writes + WritesOf(iov[i..], buffer, bpos) == old(writes) + WritesOf(iov, buffer, boff)
      {
        FirstWrite(iov, i, buffer, bpos, writes);
        var data := buffer[bpos..bpos + iov[i].len];
        TableExtended(writes, Write(iov[i].offset, data));
        Insert(Range(iov[i].offset, iov[i].len, Checksum(data)));
        writes := writes + [Write(iov[i].offset, data)];
        bpos := bpos + iov[i].len;
      }
      WritesEnd(buffer, bpos);
    }

    /** lio_store_and_release_adler32, 251-276. */
    method Store() returns (s: Summary)
      ensures s == Coalesce(ranges)
    {
      var cksum := START;
      var missing, next, overlap, nbytes := 0, 0, 0, 0;
      for i := 0 to |ranges|
        invariant Summary(cksum, missing, overlap, nbytes, next) == Coalesce(ranges[..i])
      {
        var r := ranges[i];
        assert ranges[..i + 1][..i] == ranges[..i];
        if r.offset != next {
          var dn := r.offset - next;
          if dn < 0 {
            overlap := overlap - dn;
          } else {
            missing := missing + dn;
          }
        }
        nbytes := nbytes + r.len;
        cksum := Combine(cksum, r.adler, r.len);
        next := r.offset + r.len;
      }
      assert ranges[..|ranges|] == ranges;
      s := Summary(cksum, missing, overlap, nbytes, next);
    }
  }
}
