/**
 Encoding and decoding a file a block at a time (erasure_tools.c:349-441, 486-618). A strip is
 `units` coding units long; a block is as many units as the buffer has room for, the last one
 of a strip possibly shorter.
 */
module ErasureBlocks {
  import Division
  import opened ErasureFiles
  import opened ErasureCode

  const DEFAULT_BUFFER := 10 * 1024 * 1024

  /** The bytes that one unit of every strip takes. */
  function RowSize(c: Code): (i: nat)
    requires 0 < c.unit && 0 < c.dataStrips + c.parityStrips
    ensures 0 < i
  {
    Division.Ordered(1, c.dataStrips + c.parityStrips, c.unit);
    (c.dataStrips + c.parityStrips) * c.unit
  }

  /** The units in a block: what the buffer has room for, but at least one. */
  function BlockUnits(c: Code, bufferSize: nat): (j: nat)
    requires 0 < c.unit && 0 < c.dataStrips + c.parityStrips
    ensures j > 0
  {
    var j := (if bufferSize == 0 then DEFAULT_BUFFER else bufferSize) / RowSize(c);
    if j == 0 then 1 else j
  }

  /** No more units would fit the buffer, and those that there are do, unless it has no room for one. */
  lemma BlockFillsBuffer(c: Code, bufferSize: nat)
    requires 0 < c.unit && 0 < c.dataStrips + c.parityStrips
    ensures
      var size := if bufferSize == 0 then 10 * 1024 * 1024 else bufferSize;
      var j := BlockUnits(c, bufferSize);
      && (j * RowSize(c) <= size || j == 1)
      && size < (j + 1) * RowSize(c)
  {
    var size, i := if bufferSize == 0 then DEFAULT_BUFFER else bufferSize, RowSize(c);
    hide RowSize;
    Division.Distributes(size / i, 1, i);
    assert size == (size / i) * i + size % i;
    if size / i == 0 {
      Division.Distributes(1, 1, i);
    }
  }

  /** The share of each strip in a buffer of whole rows is a whole number of units. */
  lemma ShareOfBuffer(c: Code, j: nat)
    requires 0 < c.unit && 0 < c.dataStrips + c.parityStrips
    ensures j * RowSize(c) / (c.dataStrips + c.parityStrips) == Units(c, j)
  {
    var strips := c.dataStrips + c.parityStrips;
    assert j * (strips * c.unit) == (j * c.unit) * strips;
    Division.Multiple(j * c.unit, strips);
  }

  /** 374-383 and 521-530: the block size. */
  method BlockSize(c: Code, bufferSize: nat) returns (blockSize: nat)
    requires 0 < c.unit && 0 < c.dataStrips + c.parityStrips
    ensures blockSize == Units(c, BlockUnits(c, bufferSize))
  {
    hide RowSize, Units;
    var i := RowSize(c);
    var size := bufferSize;
    if size == 0 {
      size := DEFAULT_BUFFER;
    }
    var j := size / i;
    if j == 0 {
      j := 1;
    }
    assert j == BlockUnits(c, bufferSize);
    hide BlockUnits;
    ShareOfBuffer(c, j);
    blockSize := j * i / (c.dataStrips + c.parityStrips);
  }

  // ---------------------------------------------------------------- blocks in and out

  /** plan->encode_block: each unit of the block on its own. */
  method EncodeBlock(c: Code, data: seq<Block>, ghost n: nat, size: nat) returns (parity: seq<Block>)
    requires WellShaped(c) && Shaped(data, c.dataStrips, size) && size == Units(c, n)
    ensures parity == Encoded(c, data, 0, n)
  {
    parity := seq(c.parityStrips, _ => []);
    var pos := 0;
    ghost var k := 0;
    while pos < size
      invariant k <= n && pos == Units(c, k)
      invariant Holds(data, c.dataStrips, Units(c, k)) && parity == Encoded(c, data, 0, k)
      decreases size - pos
    {
      UnitBefore(c, k, n);
      UnitsAdd(c, k, 1);
      OneMoreEncoded(c, data, k);
      hide WellShaped, Encoded, Units;
      parity := Join(parity, c.enc(Slices(data, pos, pos + c.unit)));
      pos := pos + c.unit;
      k := k + 1;
    }
    UnitsInOrder(c, k, n);
  }

  /** plan->decode_block. */
  method DecodeBlock(c: Code, data: seq<Block>, parity: seq<Block>, ghost n: nat, size: nat)
    returns (rebuilt: seq<Block>)
    requires WellShaped(c) && size == Units(c, n)
    requires Shaped(data, c.dataStrips, size) && Shaped(parity, c.parityStrips, size)
    ensures rebuilt == Decoded(c, data, parity, n)
  {
    rebuilt := seq(c.dataStrips, _ => []);
    var pos := 0;
    ghost var k := 0;
    while pos < size
      invariant k <= n && pos == Units(c, k)
      invariant Holds(data, c.dataStrips, Units(c, k)) && Holds(parity, c.parityStrips, Units(c, k))
      invariant rebuilt == Decoded(c, data, parity, k)
      decreases size - pos
    {
      UnitBefore(c, k, n);
      UnitsAdd(c, k, 1);
      OneMoreDecoded(c, data, parity, k);
      hide WellShaped, Decoded, Units, Join;
      rebuilt := Join(rebuilt, c.dec(Slices(data, pos, pos + c.unit), Slices(parity, pos, pos + c.unit)));
      pos := pos + c.unit;
      k := k + 1;
    }
    UnitsInOrder(c, k, n);
  }

  lemma OneMoreEncoded(c: Code, data: seq<Block>, k: nat)
    requires WellShaped(c) && Holds(data, c.dataStrips, Units(c, k + 1))
    ensures Units(c, k) + c.unit == Units(c, k + 1) && Holds(data, c.dataStrips, Units(c, k))
    ensures
      var unit := c.enc(Slices(data, Units(c, k), Units(c, k + 1)));
      |unit| == c.parityStrips && Encoded(c, data, 0, k + 1) == Join(Encoded(c, data, 0, k), unit)
  {
    UnitsAdd(c, k, 1);
  }

  lemma OneMoreDecoded(c: Code, data: seq<Block>, parity: seq<Block>, k: nat)
    requires WellShaped(c)
    requires Holds(data, c.dataStrips, Units(c, k + 1)) && Holds(parity, c.parityStrips, Units(c, k + 1))
    ensures Units(c, k) + c.unit == Units(c, k + 1)
    ensures Holds(data, c.dataStrips, Units(c, k)) && Holds(parity, c.parityStrips, Units(c, k))
    ensures
      var unit := c.dec(Slices(data, Units(c, k), Units(c, k + 1)), Slices(parity, Units(c, k), Units(c, k + 1)));
      |unit| == c.dataStrips && Decoded(c, data, parity, k + 1) == Join(Decoded(c, data, parity, k), unit)
  {
    UnitsAdd(c, k, 1);
  }

  /** Fewer bytes are fewer units, and room for one more. */
  lemma UnitBefore(c: Code, k: nat, n: nat)
    requires 0 < c.unit && Units(c, k) < Units(c, n)
    ensures k < n && Units(c, k) + c.unit <= Units(c, n)
  {
    if n <= k {
      Division.Ordered(n, k, c.unit);
    } else {
      Division.Ordered(k, n, c.unit);
    }
  }

  lemma UnitsInOrder(c: Code, k: nat, n: nat)
    requires 0 < c.unit && k <= n
    ensures Units(c, k) <= Units(c, n)
    ensures Units(c, k) == Units(c, n) <==> k == n
  {
    Division.Ordered(k, n, c.unit);
  }

  /** Lines 410-415, and 556-573 with the missing strips left as the buffer happens to be. */
  method ReadStrips(f: Block, at: nat, strip: nat, count: nat, size: nat, missing: set<nat>, shift: nat,
                    leftover: nat -> Block)
    returns (data: seq<Block>)
    ensures Shaped(data, count, size)
    ensures forall i :: 0 <= i < count && shift + i !in missing ==> data[i] == ReadAt(f, Place(at, strip, i), size)
  {
    data := [];
    var bpos := at;
    NextPlace(at, strip, 0);
    for i := 0 to count
      invariant bpos == Place(at, strip, i)
      invariant Shaped(data, i, size)
      invariant forall k :: 0 <= k < i && shift + k !in missing ==> data[k] == ReadAt(f, Place(at, strip, k), size)
    {
      NextPlace(at, strip, i);
      if shift + i !in missing {
        data := data + [ReadAt(f, bpos, size)];
      } else {
        data := data + [ReadAt(leftover(shift + i), 0, size)];
      }
      bpos := bpos + strip;
    }
  }

  /** What lines 422-427 make of a file: the blocks written a strip apart. */
  function WithStrips(f: Block, at: nat, strip: nat, blocks: seq<Block>, n: nat): Block
    requires n <= |blocks|
  {
    if n == 0 then f else WriteAt(WithStrips(f, at, strip, blocks, n - 1), Place(at, strip, n - 1), blocks[n - 1])
  }

  method WriteStrips(f: Block, at: nat, strip: nat, blocks: seq<Block>) returns (g: Block)
    ensures g == WithStrips(f, at, strip, blocks, |blocks|)
  {
    g := f;
    var bpos := at;
    NextPlace(at, strip, 0);
    for i := 0 to |blocks|
      invariant bpos == Place(at, strip, i) && g == WithStrips(f, at, strip, blocks, i)
    {
      NextPlace(at, strip, i);
      g := WriteAt(g, bpos, blocks[i]);
      bpos := bpos + strip;
    }
  }

  lemma PlaceShifted(base: nat, shift: nat, strip: nat, i: nat)
    ensures Place(base + shift, strip, i) == Place(base, strip, i) + shift
  {
  }

  /** The first `len` bytes of every strip of the region are in the file. */
  ghost predicate InFile(f: Block, base: nat, strip: nat, count: nat, len: nat) {
    forall i :: 0 <= i < count ==> len == 0 || Place(base, strip, i) + len <= |f|
  }

  /** One strip's next block extends what can be read of that strip, and of no other. */
  lemma OneExtended(f: Block, base: nat, strip: nat, k: nat, len: nat, size: nat, b: Block)
    requires |b| == size > 0 && len + size <= strip
    requires len == 0 || Place(base, strip, k) + len <= |f|
    ensures
      var g := WriteAt(f, Place(base, strip, k) + len, b);
      && |f| <= |g| && Place(base, strip, k) + len + size <= |g|
      && ReadAt(g, Place(base, strip, k), len + size) == ReadAt(f, Place(base, strip, k), len) + b
  {
    ReadExtended(f, Place(base, strip, k), len, b);
  }

  lemma OthersAsWere(f: Block, base: nat, strip: nat, k: nat, i: nat, len: nat, size: nat, b: Block, read: nat)
    requires |b| == size > 0 && len + size <= strip && i != k && read <= strip
    requires read == 0 || Place(base, strip, i) + read <= |f|
    ensures ReadAt(WriteAt(f, Place(base, strip, k) + len, b), Place(base, strip, i), read) ==
      ReadAt(f, Place(base, strip, i), read)
  {
    if i < k {
      PlacesApart(base, strip, i, k);
    } else {
      PlacesApart(base, strip, k, i);
    }
    ReadElsewhere(f, Place(base, strip, i), read, Place(base, strip, k) + len, b);
  }

  /** The first `n` strips of `g` can be read `size` bytes further than in `f`, the others as far. */
  ghost predicate Ahead(f: Block, g: Block, base: nat, strip: nat, blocks: seq<Block>, n: nat, len: nat, size: nat) {
    && |f| <= |g|
    && (forall i :: 0 <= i < |blocks| ==> StripAhead(f, g, base, strip, i, BlockIf(blocks, i, n), len))
  }

  /** The block of strip `i` if it is among the first `n`. */
  function BlockIf(blocks: seq<Block>, i: nat, n: nat): Block
    requires i < |blocks|
  {
    if i < n then blocks[i] else []
  }

  ghost predicate StripAhead(f: Block, g: Block, base: nat, strip: nat, i: nat, b: Block, len: nat) {
    && (len + |b| == 0 || Place(base, strip, i) + len + |b| <= |g|)
    && ReadAt(g, Place(base, strip, i), len + |b|) == ReadAt(f, Place(base, strip, i), len) + b
  }

  lemma NoStripYet(f: Block, base: nat, strip: nat, blocks: seq<Block>, len: nat, size: nat)
    requires InFile(f, base, strip, |blocks|, len)
    ensures Ahead(f, f, base, strip, blocks, 0, len, size)
  {
    forall i | 0 <= i < |blocks| ensures StripAhead(f, f, base, strip, i, BlockIf(blocks, i, 0), len) {
    }
  }

  /** The strip just written. */
  lemma WrittenAhead(f: Block, g: Block, base: nat, strip: nat, n: nat, b: Block, len: nat, size: nat)
    requires |b| == size > 0 && len + size <= strip && StripAhead(f, g, base, strip, n, [], len)
    ensures |g| <= |WriteAt(g, Place(base, strip, n) + len, b)|
    ensures StripAhead(f, WriteAt(g, Place(base, strip, n) + len, b), base, strip, n, b, len)
  {
    OneExtended(g, base, strip, n, len, size, b);
    assert ReadAt(f, Place(base, strip, n), len) + [] == ReadAt(f, Place(base, strip, n), len);
  }

  /** Any other strip. */
  lemma OtherAhead(f: Block, g: Block, base: nat, strip: nat, n: nat, b: Block, i: nat, d: Block, len: nat, size: nat)
    requires |b| == size > 0 && len + size <= strip && i != n && |d| <= size && StripAhead(f, g, base, strip, i, d, len)
    ensures StripAhead(f, WriteAt(g, Place(base, strip, n) + len, b), base, strip, i, d, len)
  {
    OthersAsWere(g, base, strip, n, i, len, size, b, len + |d|);
  }

  lemma OneMoreStrip(f: Block, g: Block, base: nat, strip: nat, blocks: seq<Block>, n: nat, len: nat, size: nat)
    requires n < |blocks| && Shaped(blocks, |blocks|, size) && len + size <= strip && 0 < size
    requires Ahead(f, g, base, strip, blocks, n, len, size)
    ensures Ahead(f, WriteAt(g, Place(base, strip, n) + len, blocks[n]), base, strip, blocks, n + 1, len, size)
  {
    hide StripAhead, WriteAt, Place;
    assert StripAhead(f, g, base, strip, n, BlockIf(blocks, n, n), len);
    WrittenAhead(f, g, base, strip, n, blocks[n], len, size);
    var h, next := WriteAt(g, Place(base, strip, n) + len, blocks[n]), n + 1;
    forall i | 0 <= i < |blocks| ensures StripAhead(f, h, base, strip, i, BlockIf(blocks, i, next), len) {
      if i != n {
        var d := BlockIf(blocks, i, n);
        assert StripAhead(f, g, base, strip, i, d, len);
        OtherAhead(f, g, base, strip, n, blocks[n], i, d, len, size);
      }
    }
  }

  /** Writing the next block of every strip extends each strip's readable part by its own block. */
  lemma {:induction false} StripsExtended(f: Block, base: nat, strip: nat, blocks: seq<Block>, n: nat, len: nat,
                                          size: nat)
    requires n <= |blocks| && Shaped(blocks, |blocks|, size) && len + size <= strip && 0 < size
    requires InFile(f, base, strip, |blocks|, len)
    ensures Ahead(f, WithStrips(f, base + len, strip, blocks, n), base, strip, blocks, n, len, size)
  {
    hide Ahead, InFile, WriteAt, Place, Shaped;
    if n == 0 {
      NoStripYet(f, base, strip, blocks, len, size);
    } else {
      StripsExtended(f, base, strip, blocks, n - 1, len, size);
      PlaceShifted(base, len, strip, n - 1);
      OneMoreStrip(f, WithStrips(f, base + len, strip, blocks, n - 1), base, strip, blocks, n - 1, len, size);
    }
  }

  // ---------------------------------------------------------------- encoding

  /** The data read for a block is an excerpt of the strips. */
  lemma ReadIsExcerpt(c: Code, f: Block, base: nat, units: nat, u: nat, n: nat, data: seq<Block>)
    requires u + n <= units && Shaped(data, c.dataStrips, Units(c, n))
    requires forall i :: 0 <= i < c.dataStrips ==>
      data[i] == ReadAt(f, Place(base + Units(c, u), Units(c, units), i), Units(c, n))
    ensures Excerpt(c, Strips(f, base, Units(c, units), c.dataStrips), data, u, n)
  {
    UnitsAdd(c, u, n);
    UnitsAdd(c, u + n, units - (u + n));
    var x := Strips(f, base, Units(c, units), c.dataStrips);
    forall i | 0 <= i < c.dataStrips
      ensures data[i][..Units(c, n)] == x[i][Units(c, u)..Units(c, u + n)]
    {
      PlaceShifted(base, Units(c, u), Units(c, units), i);
    }
  }

  /**
   et_encode: afterwards the parity region holds the parity of the whole strips, as if each strip
   had been coded in one piece, whatever the buffer size.
   */
  method EncodeFile(c: Code, units: nat, file: Block, foffset: nat, old_parity: Block, poffset: nat, bufferSize: nat)
    returns (parity: Block)
    requires WellShaped(c) && 0 < c.dataStrips
    ensures Strips(parity, poffset, Units(c, units), c.parityStrips)
      == Encoded(c, Strips(file, foffset, Units(c, units), c.dataStrips), 0, units)
    ensures forall i :: 0 <= i < c.parityStrips ==> Covers(parity, poffset, Units(c, units), i)
    ensures Elsewhere(old_parity, parity, poffset, Place(poffset, Units(c, units), c.parityStrips))
  {
    var blockSize := BlockSize(c, bufferSize);
    ghost var blockUnits := BlockUnits(c, bufferSize);
    var stripSize := Units(c, units);
    ghost var x := Strips(file, foffset, stripSize, c.dataStrips);
    parity := old_parity;
    var apos, ppos, rpos := foffset, poffset, 0;
    ghost var u := 0;
    while rpos < stripSize
      invariant u <= units && Units(c, u) <= stripSize
      invariant if rpos < stripSize then rpos == Units(c, u) else u == units
      invariant apos == foffset + rpos && ppos == poffset + rpos
      invariant Holds(x, c.dataStrips, Units(c, u))
      invariant EncodedSoFar(c, parity, poffset, stripSize, x, u)
      invariant Elsewhere(old_parity, parity, poffset, Place(poffset, stripSize, c.parityStrips))
      decreases units - u
    {
      var bsize := if rpos + blockSize > stripSize then stripSize - rpos else blockSize;
      ghost var n := BlockLength(c, u, blockUnits, units);
      hide WellShaped, EncodedSoFar, Units, Elsewhere, Place;
      ghost var was := parity;
      parity := EncodeTurn(c, units, file, foffset, parity, poffset, apos, ppos, bsize, u, n);
      ElsewhereTwice(old_parity, was, parity, poffset, Place(poffset, stripSize, c.parityStrips));
      apos, ppos, rpos := apos + blockSize, ppos + blockSize, rpos + blockSize;
      u := u + n;
    }
    ReadsAll(c, parity, poffset, x, units);
  }

  lemma ReadsAll(c: Code, parity: Block, poffset: nat, x: seq<Block>, units: nat)
    requires WellShaped(c) && Holds(x, c.dataStrips, Units(c, units))
    requires EncodedSoFar(c, parity, poffset, Units(c, units), x, units)
    ensures Strips(parity, poffset, Units(c, units), c.parityStrips) == Encoded(c, x, 0, units)
    ensures forall i :: 0 <= i < c.parityStrips ==> Covers(parity, poffset, Units(c, units), i)
  {
    var code := Encoded(c, x, 0, units);
    forall i | 0 <= i < c.parityStrips
      ensures Strip(parity, poffset, Units(c, units), i) == code[i] && Covers(parity, poffset, Units(c, units), i)
    {
      assert StripCoded(parity, Place(poffset, Units(c, units), i), code[i]);
    }
  }

  /** One block, 409-430: read it, code it, and write its parity a strip apart. */
  method EncodeTurn(c: Code, units: nat, file: Block, foffset: nat, parity: Block, poffset: nat, apos: nat, ppos: nat,
                    bsize: nat, ghost u: nat, ghost n: nat) returns (next: Block)
    requires WellShaped(c) && u + n <= units && 0 < bsize == Units(c, n)
    requires Units(c, u) + Units(c, n) == Units(c, u + n) <= Units(c, units)
    requires apos == foffset + Units(c, u) && ppos == poffset + Units(c, u)
    requires EncodedSoFar(c, parity, poffset, Units(c, units), Strips(file, foffset, Units(c, units), c.dataStrips), u)
    ensures EncodedSoFar(c, next, poffset, Units(c, units), Strips(file, foffset, Units(c, units), c.dataStrips), u + n)
    ensures Elsewhere(parity, next, poffset, Place(poffset, Units(c, units), c.parityStrips))
  {
    hide WellShaped, Units, EncodedSoFar, Excerpt, WithStrips, Elsewhere, Place;
    ghost var x := Strips(file, foffset, Units(c, units), c.dataStrips);
    var data := ReadBlock(c, units, file, foffset, apos, bsize, u, n);
    var block := EncodeBlock(c, data, n, bsize);
    next := WriteStrips(parity, ppos, Units(c, units), block);
    BlockCoded(c, parity, next, poffset, Units(c, units), x, u, n, data, block);
    WritesInside(parity, poffset, Units(c, u), Units(c, units), block, |block|, bsize);
  }

  /** Nothing before `lo`, and nothing from `hi` on, has changed, and the file ends where it did or by `hi`. */
  ghost predicate Elsewhere(f: Block, g: Block, lo: nat, hi: nat) {
    && |f| <= |g| && (|g| == |f| || |g| <= hi)
    && forall k :: 0 <= k < |f| && (k < lo || hi <= k) ==> g[k] == f[k]
  }

  lemma ElsewhereTwice(f: Block, g: Block, h: Block, lo: nat, hi: nat)
    requires Elsewhere(f, g, lo, hi) && Elsewhere(g, h, lo, hi)
    ensures Elsewhere(f, h, lo, hi)
  {
  }

  /** Blocks no longer than what is left of the strips are written inside the strips. */
  lemma {:induction false} WritesInside(f: Block, base: nat, len: nat, strip: nat, blocks: seq<Block>, n: nat,
                                        size: nat)
    requires n <= |blocks| && Shaped(blocks, |blocks|, size) && len + size <= strip
    ensures Elsewhere(f, WithStrips(f, base + len, strip, blocks, n), base, Place(base, strip, |blocks|))
  {
    hide Elsewhere, Place, WriteAt;
    if n == 0 {
      SameElsewhere(f, base, Place(base, strip, |blocks|));
    } else {
      WritesInside(f, base, len, strip, blocks, n - 1, size);
      var g := WithStrips(f, base + len, strip, blocks, n - 1);
      PlaceShifted(base, len, strip, n - 1);
      WriteInside(g, base, len, strip, blocks[n - 1], n - 1, |blocks|);
      ElsewhereTwice(f, g, WriteAt(g, Place(base + len, strip, n - 1), blocks[n - 1]), base,
        Place(base, strip, |blocks|));
    }
  }

  lemma SameElsewhere(f: Block, lo: nat, hi: nat)
    ensures Elsewhere(f, f, lo, hi)
  {
  }

  lemma WriteInside(f: Block, base: nat, len: nat, strip: nat, b: Block, i: nat, count: nat)
    requires i < count && len + |b| <= strip
    ensures Elsewhere(f, WriteAt(f, Place(base, strip, i) + len, b), base, Place(base, strip, count))
  {
    PlacesApart(base, strip, i, count);
    Division.NonNegative(i, strip);
  }

  /** The parity of a block read out of the strips carries their code on. */
  lemma BlockCoded(c: Code, f: Block, g: Block, poffset: nat, stripSize: nat, x: seq<Block>, u: nat, n: nat,
                   data: seq<Block>, block: seq<Block>)
    requires WellShaped(c) && Excerpt(c, x, data, u, n) && Units(c, u + n) <= stripSize && 0 < Units(c, n)
    requires block == Encoded(c, data, 0, n)
    requires EncodedSoFar(c, f, poffset, stripSize, x, u)
    requires g == WithStrips(f, poffset + Units(c, u), stripSize, block, |block|)
    ensures EncodedSoFar(c, g, poffset, stripSize, x, u + n)
  {
    EncodedInPlace(c, x, data, u, n);
    EncodedFurther(c, f, g, poffset, stripSize, x, u, n, block);
  }

  /** The data of one block, 409-415. */
  method ReadBlock(c: Code, units: nat, file: Block, foffset: nat, apos: nat, bsize: nat, ghost u: nat, ghost n: nat)
    returns (data: seq<Block>)
    requires u + n <= units && bsize == Units(c, n) && apos == foffset + Units(c, u)
    ensures Shaped(data, c.dataStrips, bsize)
    ensures Excerpt(c, Strips(file, foffset, Units(c, units), c.dataStrips), data, u, n)
  {
    data := ReadStrips(file, apos, Units(c, units), c.dataStrips, bsize, {}, 0, _ => []);
    ReadIsExcerpt(c, file, foffset, units, u, n, data);
  }

  /** The units of the block at unit `u`: `blockUnits` of them, or what is left of the strip. */
  ghost method BlockLength(c: Code, u: nat, blockUnits: nat, units: nat) returns (n: nat)
    requires 0 < c.unit && 0 < blockUnits && Units(c, u) < Units(c, units)
    ensures 0 < n && u + n <= units && n == if u + blockUnits > units then units - u else blockUnits
    ensures Units(c, u) + Units(c, n) == Units(c, u + n) <= Units(c, units)
    ensures Units(c, n) ==
      if Units(c, u) + Units(c, blockUnits) > Units(c, units) then Units(c, units) - Units(c, u)
      else Units(c, blockUnits)
    ensures Units(c, u) + Units(c, blockUnits) >= Units(c, units) <==> u + n == units
    ensures 0 < Units(c, n) && 0 < Units(c, blockUnits)
  {
    UnitBefore(c, u, units);
    n := if u + blockUnits > units then units - u else blockUnits;
    UnitsAdd(c, u, n);
    UnitsAdd(c, u, blockUnits);
    UnitsInOrder(c, u + n, units);
    UnitsInOrder(c, 0, n);
    UnitsInOrder(c, 0, blockUnits);
    if u + blockUnits > units {
      UnitsInOrder(c, units, u + blockUnits);
    } else {
      UnitsInOrder(c, u + blockUnits, units);
    }
  }

  /** The given bytes are in the file at `pos`. */
  ghost predicate StripCoded(f: Block, pos: nat, b: Block) {
    (b == [] || pos + |b| <= |f|) && ReadAt(f, pos, |b|) == b
  }

  ghost predicate StripsCoded(f: Block, base: nat, strip: nat, code: seq<Block>) {
    forall i :: 0 <= i < |code| ==> StripCoded(f, Place(base, strip, i), code[i])
  }

  lemma StripCodedFurther(f: Block, g: Block, base: nat, strip: nat, i: nat, was: Block, b: Block)
    requires StripCoded(f, Place(base, strip, i), was) && StripAhead(f, g, base, strip, i, b, |was|)
    ensures StripCoded(g, Place(base, strip, i), was + b)
  {
  }

  /** Writing the next block of every strip's code. */
  lemma StripsCodedFurther(f: Block, base: nat, strip: nat, was: seq<Block>, blocks: seq<Block>, len: nat, size: nat)
    requires Shaped(was, |blocks|, len) && Shaped(blocks, |blocks|, size) && len + size <= strip && 0 < size
    requires StripsCoded(f, base, strip, was)
    ensures StripsCoded(WithStrips(f, base + len, strip, blocks, |blocks|), base, strip, Join(was, blocks))
  {
    assert InFile(f, base, strip, |blocks|, len) by {
      forall i | 0 <= i < |blocks| ensures len == 0 || Place(base, strip, i) + len <= |f| {
        assert StripCoded(f, Place(base, strip, i), was[i]);
      }
    }
    StripsExtended(f, base, strip, blocks, |blocks|, len, size);
    hide StripCoded, StripAhead, WithStrips, Place;
    var g := WithStrips(f, base + len, strip, blocks, |blocks|);
    forall i | 0 <= i < |blocks| ensures StripCoded(g, Place(base, strip, i), was[i] + blocks[i]) {
      assert StripAhead(f, g, base, strip, i, BlockIf(blocks, i, |blocks|), len);
      StripCodedFurther(f, g, base, strip, i, was[i], blocks[i]);
    }
  }

  /** The parity file holds the code of the first `u` units of every strip. */
  ghost predicate EncodedSoFar(c: Code, parity: Block, poffset: nat, stripSize: nat, x: seq<Block>, u: nat)
    requires WellShaped(c) && Holds(x, c.dataStrips, Units(c, u))
  {
    StripsCoded(parity, poffset, stripSize, Encoded(c, x, 0, u))
  }

  lemma EncodedFurther(c: Code, f: Block, g: Block, poffset: nat, stripSize: nat, x: seq<Block>, u: nat, n: nat,
                       block: seq<Block>)
    requires WellShaped(c) && Holds(x, c.dataStrips, Units(c, u + n)) &&
      Units(c, u) + Units(c, n) == Units(c, u + n) <= stripSize
    requires 0 < Units(c, n)
    requires EncodedSoFar(c, f, poffset, stripSize, x, u)
    requires block == Encoded(c, x, u, n)
    requires g == WithStrips(f, poffset + Units(c, u), stripSize, block, |block|)
    ensures EncodedSoFar(c, g, poffset, stripSize, x, u + n)
  {
    hide WellShaped, StripsCoded, WithStrips, Units, Join;
    var was := Encoded(c, x, 0, u);
    StripsCodedFurther(f, poffset, stripSize, was, block, Units(c, u), Units(c, n));
    EncodedInBlocks(c, x, u, n);
    assert Encoded(c, x, 0, u + n) == Join(was, block);
  }

  // ---------------------------------------------------------------- decoding

  /** The unit at which the last block of a strip begins. */
  function LastBlock(units: nat, blockUnits: nat): nat
    requires 0 < blockUnits
  {
    if units == 0 then 0
    else
      Division.NonNegative((units - 1) / blockUnits, blockUnits);
      (units - 1) / blockUnits * blockUnits
  }

  /**
   Whether the file reaches far enough: to the end of every erased strip but the last, and, when the
   last is erased, to where its last block begins.
   */
  ghost predicate Fits(c: Code, units: nat, blockUnits: nat, fsize: nat, foffset: nat, erased: set<nat>)
    requires 0 < blockUnits
  {
    var strip := Units(c, units);
    && (0 < units ==> forall i :: 0 <= i < c.dataStrips - 1 && i in erased ==>
       Place(foffset, strip, i) + strip <= fsize)
    && (0 < units && c.dataStrips - 1 in erased && 0 < c.dataStrips ==>
          Place(foffset, strip, c.dataStrips - 1) + Units(c, LastBlock(units, blockUnits)) <= fsize)
  }

  /** A position of an erased strip that comes after its first `len` bytes. */
  ghost predicate Lost(foffset: nat, strip: nat, i: nat, len: nat, k: nat) {
    Place(foffset, strip, i) + len <= k < Place(foffset, strip, i) + strip
  }

  /**
   The file is the original but for the erased strips, of which those below `e` are restored up to
   `len + size` bytes and the others up to `len`.
   */
  ghost predicate Restored(f: Block, g: Block, foffset: nat, strip: nat, data: nat, erased: set<nat>, e: nat, len: nat,
                           size: nat) {
    && |g| == |f|
    && forall k :: 0 <= k < |f| && g[k] != f[k] ==>
         exists i :: 0 <= i < data && i in erased && Lost(foffset, strip, i, Reach(i, e, len, size), k)
  }

  /** How much of strip `i` is restored when the strips below `e` are one block ahead. */
  function Reach(i: nat, e: nat, len: nat, size: nat): nat {
    if i < e then len + size else len
  }

  /** A strip that survives reads as in the original. */
  lemma SurvivorReads(f: Block, g: Block, foffset: nat, strip: nat, data: nat, erased: set<nat>, len: nat, i: nat,
                      size: nat)
    requires Restored(f, g, foffset, strip, data, erased, 0, len, 0) && i !in erased && len + size <= strip
    ensures ReadAt(g, Place(foffset, strip, i) + len, size) == ReadAt(f, Place(foffset, strip, i) + len, size)
  {
    var from := Place(foffset, strip, i) + len;
    forall k | from <= k < from + size && k < |f| ensures g[k] == f[k] {
      if g[k] != f[k] {
        var j :| 0 <= j < data && j in erased && Lost(foffset, strip, j, Reach(j, 0, len, 0), k);
        StripsDisjoint(foffset, strip, i, j, k);
      }
    }
  }

  /** A position is in one strip only. */
  lemma StripsDisjoint(base: nat, strip: nat, i: nat, j: nat, k: nat)
    requires Place(base, strip, i) <= k < Place(base, strip, i) + strip
    requires Place(base, strip, j) <= k < Place(base, strip, j) + strip
    ensures i == j
  {
    if i < j {
      PlacesApart(base, strip, i, j);
    } else if j < i {
      PlacesApart(base, strip, j, i);
    }
  }

  /** Writing an erased strip's own bytes back, as far as the file goes. */
  lemma StripRestored(f: Block, g: Block, foffset: nat, strip: nat, data: nat, erased: set<nat>, e: nat, len: nat,
                      size: nat, b: Block)
    requires Restored(f, g, foffset, strip, data, erased, e, len, size) && e < data && e in erased
    requires Place(foffset, strip, e) + len + |b| <= |f|
    requires b == f[Place(foffset, strip, e) + len..Place(foffset, strip, e) + len + |b|]
    requires |b| == size || (|b| < size && Place(foffset, strip, e) + len + |b| == |f|)
    ensures Restored(f, WriteAt(g, Place(foffset, strip, e) + len, b), foffset, strip, data, erased, e + 1, len, size)
  {
    var at := Place(foffset, strip, e) + len;
    var h := WriteAt(g, at, b);
    Patched(f, g, at, b);
    hide WriteAt, Place, Lost;
    forall k | 0 <= k < |f| && h[k] != f[k]
      ensures exists i :: 0 <= i < data && i in erased && Lost(foffset, strip, i, Reach(i, e + 1, len, size), k)
    {
      var i :| 0 <= i < data && i in erased && Lost(foffset, strip, i, Reach(i, e, len, size), k);
      StillLost(f, foffset, strip, e, len, size, |b|, i, k);
    }
  }

  /** Writing original bytes back leaves fewer places different, and none where they were written. */
  lemma Patched(f: Block, g: Block, at: nat, b: Block)
    requires |g| == |f| && at + |b| <= |f| && b == f[at..at + |b|]
    ensures |WriteAt(g, at, b)| == |f|
    ensures forall k :: 0 <= k < |f| && WriteAt(g, at, b)[k] != f[k] ==> g[k] != f[k] && !(at <= k < at + |b|)
  {
    var h := WriteAt(g, at, b);
    forall k | at <= k < at + |b| ensures h[k] == f[k] {
      assert h[at + (k - at)] == b[k - at];
    }
  }

  lemma StillLost(f: Block, foffset: nat, strip: nat, e: nat, len: nat, size: nat, count: nat, i: nat, k: nat)
    requires Lost(foffset, strip, i, Reach(i, e, len, size), k) && k < |f|
    requires var at := Place(foffset, strip, e) + len; !(at <= k < at + count)
    requires count == size || (count < size && Place(foffset, strip, e) + len + count == |f|)
    ensures Lost(foffset, strip, i, Reach(i, e + 1, len, size), k)
  {
  }

  /** Strips that are not erased need nothing. */
  lemma StripSkipped(f: Block, g: Block, foffset: nat, strip: nat, data: nat, erased: set<nat>, e: nat, len: nat,
                     size: nat)
    requires Restored(f, g, foffset, strip, data, erased, e, len, size) && e !in erased
    ensures Restored(f, g, foffset, strip, data, erased, e + 1, len, size)
  {
    forall k | 0 <= k < |f| && g[k] != f[k]
      ensures exists i :: 0 <= i < data && i in erased && Lost(foffset, strip, i, Reach(i, e + 1, len, size), k)
    {
      var i :| 0 <= i < data && i in erased && Lost(foffset, strip, i, Reach(i, e, len, size), k);
      assert Lost(foffset, strip, i, Reach(i, e + 1, len, size), k);
    }
  }

  /** When all strips are through with a block, it belongs to what was restored before. */
  lemma BlockDone(f: Block, g: Block, foffset: nat, strip: nat, data: nat, erased: set<nat>, len: nat, size: nat)
    requires Restored(f, g, foffset, strip, data, erased, data, len, size)
    ensures Restored(f, g, foffset, strip, data, erased, 0, len + size, 0)
  {
    forall k | 0 <= k < |f| && g[k] != f[k]
      ensures exists i :: 0 <= i < data && i in erased && Lost(foffset, strip, i, len + size, k)
    {
      var i :| 0 <= i < data && i in erased && Lost(foffset, strip, i, Reach(i, data, len, size), k);
      assert Lost(foffset, strip, i, len + size, k);
    }
  }
}
