/** Rebuilding the erased strips of a file in place (erasure_tools.c:486-618). */
module ErasureDecode {
  import Division
  import opened Options
  import opened ErasureFiles
  import opened ErasureCode
  import opened ErasureBlocks

  /** A stretch of a strip is that stretch of the file, as far as the file goes. */
  lemma PieceOfFile(f: Block, foffset: nat, strip: nat, i: nat, len: nat, size: nat, count: nat)
    requires len + size <= strip && count <= size && Place(foffset, strip, i) + len + count <= |f|
    ensures
      var at := Place(foffset, strip, i) + len;
      Strip(f, foffset, strip, i)[len..len + size][..count] == f[at..at + count]
  {
    var whole := Strip(f, foffset, strip, i);
    var at := Place(foffset, strip, i) + len;
    var piece := whole[len..len + size][..count];
    forall k | 0 <= k < count ensures piece[k] == f[at..at + count][k] {
      assert piece[k] == whole[len + k] == f[at + k];
    }
  }

  /** The whole parity is that of the units before a block, the block's, and that of those after it. */
  lemma ParityInThree(c: Code, x: seq<Block>, units: nat, u: nat, n: nat, i: nat) returns (before: Block, after: Block)
    requires WellShaped(c) && Shaped(x, c.dataStrips, Units(c, units)) && u + n <= units && i < c.parityStrips
    ensures Holds(x, c.dataStrips, Units(c, u + n))
    ensures |before| == Units(c, u) && |Encoded(c, x, u, n)[i]| == Units(c, n)
    ensures Encoded(c, x, 0, units)[i] == before + Encoded(c, x, u, n)[i] + after
  {
    hide WellShaped, Units, Encoded, Join;
    EncodedInBlocks(c, x, u + n, units - (u + n));
    EncodedInBlocks(c, x, u, n);
    before, after := Encoded(c, x, 0, u)[i], Encoded(c, x, u + n, units - (u + n))[i];
  }

  /** The parity of a block is an excerpt of the parity of the strips. */
  lemma ParityExcerpt(c: Code, x: seq<Block>, units: nat, u: nat, n: nat, i: nat)
    requires WellShaped(c) && Shaped(x, c.dataStrips, Units(c, units)) && u + n <= units && i < c.parityStrips
    ensures Units(c, u) + Units(c, n) == Units(c, u + n) <= Units(c, units)
    ensures Encoded(c, x, 0, units)[i][Units(c, u)..Units(c, u + n)] == Encoded(c, x, u, n)[i]
  {
    UnitsAdd(c, u, n);
    UnitsInOrder(c, u + n, units);
    hide WellShaped, Units, Encoded;
    var before, after := ParityInThree(c, x, units, u, n, i);
    MiddleAt(Encoded(c, x, 0, units)[i], before, Encoded(c, x, u, n)[i], after, Units(c, u), Units(c, u + n));
  }

  lemma MiddleAt(whole: Block, a: Block, b: Block, d: Block, from: nat, to: nat)
    requires whole == a + b + d && |a| == from && |a| + |b| == to
    ensures whole[from..to] == b
  {
    Middle(a, b, d);
  }

  lemma Middle(a: Block, b: Block, d: Block)
    ensures (a + b + d)[|a|..|a| + |b|] == b
  {
  }

  /** What et_decode is given: a file damaged in the erased strips only, and the parity of the original. */
  ghost predicate Damaged(c: Code, units: nat, original: Block, foffset: nat, parity: Block, poffset: nat,
                          erased: set<nat>)
    requires WellShaped(c)
  {
    var strip := Units(c, units);
    forall i :: 0 <= i < c.parityStrips && c.dataStrips + i !in erased ==>
      && Covers(parity, poffset, strip, i)
      && Strip(parity, poffset, strip, i) == Encoded(c, Strips(original, foffset, strip, c.dataStrips), 0, units)[i]
  }

  /** The stretch of every data strip that one block covers. */
  function BlockOf(c: Code, units: nat, f: Block, foffset: nat, u: nat, n: nat): (x: seq<Block>)
    requires Units(c, u) + Units(c, n) == Units(c, u + n) <= Units(c, units)
    ensures Shaped(x, c.dataStrips, Units(c, n))
  {
    Slices(Strips(f, foffset, Units(c, units), c.dataStrips), Units(c, u), Units(c, u + n))
  }

  /** The data of the block that survives is that of the original. */
  lemma DataSurvives(c: Code, units: nat, original: Block, f: Block, foffset: nat, erased: set<nat>, u: nat, n: nat,
                     i: nat)
    requires Units(c, u) + Units(c, n) == Units(c, u + n) <= Units(c, units)
    requires Restored(original, f, foffset, Units(c, units), c.dataStrips, erased, 0, Units(c, u), 0)
    requires i < c.dataStrips && i !in erased
    ensures BlockOf(c, units, original, foffset, u, n)[i]
      == ReadAt(f, Place(foffset + Units(c, u), Units(c, units), i), Units(c, n))
  {
    var strip, lo, size := Units(c, units), Units(c, u), Units(c, n);
    SurvivorReads(original, f, foffset, strip, c.dataStrips, erased, lo, i, size);
    PlaceShifted(foffset, lo, strip, i);
    assert Strip(original, foffset, strip, i)[lo..lo + size] == ReadAt(original, Place(foffset, strip, i) + lo, size);
  }

  /** So is its parity. */
  lemma ParitySurvives(c: Code, units: nat, original: Block, foffset: nat, parity: Block, poffset: nat,
                       erased: set<nat>, u: nat, n: nat, i: nat)
    requires WellShaped(c) && Damaged(c, units, original, foffset, parity, poffset, erased)
    requires u + n <= units && Units(c, u) + Units(c, n) == Units(c, u + n) <= Units(c, units)
    requires i < c.parityStrips && c.dataStrips + i !in erased
    ensures Encoded(c, BlockOf(c, units, original, foffset, u, n), 0, n)[i]
      == ReadAt(parity, Place(poffset + Units(c, u), Units(c, units), i), Units(c, n))
  {
    var strip, lo, size := Units(c, units), Units(c, u), Units(c, n);
    var whole := Strips(original, foffset, strip, c.dataStrips);
    ExcerptOfSlices(c, whole, units, u, n);
    EncodedInPlace(c, whole, BlockOf(c, units, original, foffset, u, n), u, n);
    ParityExcerpt(c, whole, units, u, n, i);
    PlaceShifted(poffset, lo, strip, i);
    assert Strip(parity, poffset, strip, i)[lo..lo + size] == ReadAt(parity, Place(poffset, strip, i) + lo, size);
  }

  lemma ExcerptOfSlices(c: Code, x: seq<Block>, units: nat, u: nat, n: nat)
    requires Shaped(x, c.dataStrips, Units(c, units)) && u + n <= units
    requires Units(c, u) + Units(c, n) == Units(c, u + n) <= Units(c, units)
    ensures Excerpt(c, x, Slices(x, Units(c, u), Units(c, u + n)), u, n)
  {
  }

  /** Every erased strip before the last lies wholly in the file. */
  ghost predicate FrontFits(foffset: nat, strip: nat, data: nat, fsize: nat, erased: set<nat>) {
    forall i :: 0 <= i < data - 1 && i in erased ==> Place(foffset, strip, i) + strip <= fsize
  }

  /** The blocks are those of the original, and it can take them. */
  ghost predicate Proper(original: Block, fsize: nat, foffset: nat, strip: nat, rebuilt: seq<Block>, erased: set<nat>,
                         len: nat, size: nat) {
    && |original| == fsize && len + size <= strip
    && FrontFits(foffset, strip, |rebuilt|, fsize, erased)
    && rebuilt == Slices(Strips(original, foffset, strip, |rebuilt|), len, len + size)
  }

  /** A block is what the original has there, as far as the file goes. */
  lemma PieceOfBlock(original: Block, fsize: nat, foffset: nat, strip: nat, rebuilt: seq<Block>, erased: set<nat>,
                     len: nat, size: nat, i: nat, count: nat)
    requires Proper(original, fsize, foffset, strip, rebuilt, erased, len, size) && i < |rebuilt|
    requires count <= size && Place(foffset, strip, i) + len + count <= fsize
    ensures |rebuilt[i]| == size
    ensures var at := Place(foffset, strip, i) + len; rebuilt[i][..count] == original[at..at + count]
  {
    PieceOfFile(original, foffset, strip, i, len, size, count);
    assert rebuilt[i] == Strip(original, foffset, strip, i)[len..len + size];
  }

  /** One strip's block, before the last strip. */
  lemma BlockWritten(original: Block, g: Block, fsize: nat, foffset: nat, strip: nat, rebuilt: seq<Block>,
                     erased: set<nat>, len: nat, size: nat, i: nat)
    requires Proper(original, fsize, foffset, strip, rebuilt, erased, len, size) && i < |rebuilt| - 1
    requires Restored(original, g, foffset, strip, |rebuilt|, erased, i, len, size)
    ensures
      var h := if i in erased then WriteAt(g, Place(foffset, strip, i) + len, rebuilt[i]) else g;
      Restored(original, h, foffset, strip, |rebuilt|, erased, i + 1, len, size)
  {
    if i in erased {
      PieceOfBlock(original, fsize, foffset, strip, rebuilt, erased, len, size, i, size);
      assert rebuilt[i][..size] == rebuilt[i];
      hide Restored, Proper, Place, WriteAt;
      StripRestored(original, g, foffset, strip, |rebuilt|, erased, i, len, size, rebuilt[i]);
    } else {
      StripSkipped(original, g, foffset, strip, |rebuilt|, erased, i, len, size);
    }
  }

  /** The last strip's block, cut off where the file ends. */
  lemma LastBlockWritten(original: Block, g: Block, fsize: nat, foffset: nat, strip: nat, rebuilt: seq<Block>,
                         erased: set<nat>, len: nat, size: nat, count: nat)
    requires Proper(original, fsize, foffset, strip, rebuilt, erased, len, size) && |rebuilt| > 0
    requires Restored(original, g, foffset, strip, |rebuilt|, erased, |rebuilt| - 1, len, size)
    requires |rebuilt| - 1 in erased && Place(foffset, strip, |rebuilt| - 1) + len <= fsize
    requires
      var at := Place(foffset, strip, |rebuilt| - 1) + len;
      count == if at + size > fsize then fsize - at else size
    requires count <= |rebuilt[|rebuilt| - 1]|
    ensures Restored(original, WriteAt(g, Place(foffset, strip, |rebuilt| - 1) + len, rebuilt[|rebuilt| - 1][..count]),
      foffset, strip, |rebuilt|, erased, 0, len + size, 0)
  {
    var last := |rebuilt| - 1;
    hide Restored, Place, WriteAt;
    PieceOfBlock(original, fsize, foffset, strip, rebuilt, erased, len, size, last, count);
    StripRestored(original, g, foffset, strip, |rebuilt|, erased, last, len, size, rebuilt[last][..count]);
    BlockDone(original, WriteAt(g, Place(foffset, strip, last) + len, rebuilt[last][..count]), foffset, strip,
      |rebuilt|, erased, len, size);
  }

  /** What lines 579-586 make of a file: the rebuilt blocks written over the erased strips below `n`. */
  function WithFront(f: Block, at: nat, strip: nat, rebuilt: seq<Block>, erased: set<nat>, n: nat): (g: Block)
    requires n <= |rebuilt|
    ensures |f| <= |g|
  {
    if n == 0 then f
    else
      var before := WithFront(f, at, strip, rebuilt, erased, n - 1);
      if n - 1 in erased then WriteAt(before, Place(at, strip, n - 1), rebuilt[n - 1]) else before
  }

  /** 578-587: every erased strip but the last. */
  method WriteFront(f: Block, at: nat, strip: nat, rebuilt: seq<Block>, erased: set<nat>) returns (g: Block, bpos: nat)
    requires 0 < |rebuilt|
    ensures g == WithFront(f, at, strip, rebuilt, erased, |rebuilt| - 1) && bpos == Place(at, strip, |rebuilt| - 1)
  {
    g, bpos := f, at;
    NextPlace(at, strip, 0);
    for i := 0 to |rebuilt| - 1
      invariant bpos == Place(at, strip, i) && g == WithFront(f, at, strip, rebuilt, erased, i)
    {
      NextPlace(at, strip, i);
      if i in erased {
        g := WriteAt(g, bpos, rebuilt[i]);
      }
      bpos := bpos + strip;
    }
  }

  /** The file then reaches to the end of what was written. */
  lemma {:induction false} FrontReaches(f: Block, foffset: nat, len: nat, strip: nat, rebuilt: seq<Block>,
                                        erased: set<nat>, size: nat, n: nat, i: nat)
    requires i < n <= |rebuilt| && i in erased && Shaped(rebuilt, |rebuilt|, size) && 0 < size
    ensures Place(foffset, strip, i) + len + size <= |WithFront(f, foffset + len, strip, rebuilt, erased, n)|
  {
    if i < n - 1 {
      FrontReaches(f, foffset, len, strip, rebuilt, erased, size, n - 1, i);
      hide Place;
    } else {
      PlaceShifted(foffset, len, strip, i);
      hide Place;
    }
  }

  /** Those strips are restored one block further. */
  lemma {:induction false} FrontRestored(original: Block, f: Block, fsize: nat, foffset: nat, strip: nat,
                                         rebuilt: seq<Block>, erased: set<nat>, len: nat, size: nat, n: nat)
    requires n < |rebuilt| && Proper(original, fsize, foffset, strip, rebuilt, erased, len, size)
    requires Restored(original, f, foffset, strip, |rebuilt|, erased, 0, len, 0)
    ensures Restored(original, WithFront(f, foffset + len, strip, rebuilt, erased, n), foffset, strip, |rebuilt|,
      erased, n, len, size)
  {
    hide Restored, Proper, Place, WriteAt;
    if n == 0 {
      NothingWritten(original, f, foffset, strip, |rebuilt|, erased, len, size);
    } else {
      FrontRestored(original, f, fsize, foffset, strip, rebuilt, erased, len, size, n - 1);
      FrontStep(original, f, fsize, foffset, strip, rebuilt, erased, len, size, n - 1);
    }
  }

  lemma FrontStep(original: Block, f: Block, fsize: nat, foffset: nat, strip: nat, rebuilt: seq<Block>,
                  erased: set<nat>, len: nat, size: nat, n: nat)
    requires n < |rebuilt| - 1 && Proper(original, fsize, foffset, strip, rebuilt, erased, len, size)
    requires Restored(original, WithFront(f, foffset + len, strip, rebuilt, erased, n), foffset, strip, |rebuilt|,
      erased, n, len, size)
    ensures Restored(original, WithFront(f, foffset + len, strip, rebuilt, erased, n + 1), foffset, strip, |rebuilt|,
      erased, n + 1, len, size)
  {
    hide Restored, Proper, Place, WriteAt;
    PlaceShifted(foffset, len, strip, n);
    BlockWritten(original, WithFront(f, foffset + len, strip, rebuilt, erased, n), fsize, foffset, strip, rebuilt,
      erased, len, size, n);
  }

  /** 588-593: the last strip, as far as the file goes. There is no telling what a write past the end does. */
  method WriteLast(ghost original: Block, g: Block, fsize: nat, ghost foffset: nat, bpos: nat, ghost strip: nat,
                   rebuilt: seq<Block>, erased: set<nat>, ghost len: nat, size: nat) returns (r: Option<Block>)
    requires 0 < |rebuilt| && Shaped(rebuilt, |rebuilt|, size) && bpos == Place(foffset, strip, |rebuilt| - 1) + len
    ensures r.None? <==> |rebuilt| - 1 in erased && bpos > fsize
    ensures r.Some? ==> |g| <= |r.value|
    ensures r.Some? && Restored(original, g, foffset, strip, |rebuilt|, erased, |rebuilt| - 1, len, size)
      && Proper(original, fsize, foffset, strip, rebuilt, erased, len, size)
      ==> Restored(original, r.value, foffset, strip, |rebuilt|, erased, 0, len + size, 0)
  {
    hide Restored, Proper, Place;
    var last := |rebuilt| - 1;
    ghost var fits := Restored(original, g, foffset, strip, |rebuilt|, erased, last, len, size)
      && Proper(original, fsize, foffset, strip, rebuilt, erased, len, size);
    if last !in erased {
      if fits {
        StripSkipped(original, g, foffset, strip, |rebuilt|, erased, last, len, size);
        BlockDone(original, g, foffset, strip, |rebuilt|, erased, len, size);
      }
      return Some(g);
    }
    if bpos > fsize {
      return None;
    }
    var count := if bpos + size > fsize then fsize - bpos else size;
    if fits {
      LastBlockWritten(original, g, fsize, foffset, strip, rebuilt, erased, len, size, count);
    }
    return Some(WriteAt(g, bpos, rebuilt[last][..count]));
  }

  /** 578-593: put the rebuilt blocks where the erased strips are. */
  method WriteBack(ghost original: Block, f: Block, fsize: nat, ghost foffset: nat, at: nat, strip: nat,
                   rebuilt: seq<Block>, erased: set<nat>, ghost len: nat, size: nat) returns (r: Option<Block>)
    requires at == foffset + len && 0 < |rebuilt| && Shaped(rebuilt, |rebuilt|, size)
    ensures r.None? <==> |rebuilt| - 1 in erased && Place(foffset, strip, |rebuilt| - 1) + len > fsize
    ensures r.Some? ==> |f| <= |r.value|
    ensures r.Some? && size > 0 ==> forall i :: 0 <= i < |rebuilt| - 1 && i in erased ==>
      Place(foffset, strip, i) + len + size <= |r.value|
    ensures r.Some? && Restored(original, f, foffset, strip, |rebuilt|, erased, 0, len, 0)
      && Proper(original, fsize, foffset, strip, rebuilt, erased, len, size)
      ==> Restored(original, r.value, foffset, strip, |rebuilt|, erased, 0, len + size, 0)
  {
    hide Restored, Proper, Place, Shaped, WithFront;
    var g, bpos := WriteFront(f, at, strip, rebuilt, erased);
    PlaceShifted(foffset, len, strip, |rebuilt| - 1);
    if Restored(original, f, foffset, strip, |rebuilt|, erased, 0, len, 0) &&
      Proper(original, fsize, foffset, strip, rebuilt, erased, len, size) {
      FrontRestored(original, f, fsize, foffset, strip, rebuilt, erased, len, size, |rebuilt| - 1);
    }
    forall i | 0 <= i < |rebuilt| - 1 && i in erased && size > 0 ensures Place(foffset, strip, i) + len + size <= |g| {
      FrontReaches(f, foffset, len, strip, rebuilt, erased, size, |rebuilt| - 1, i);
    }
    r := WriteLast(original, g, fsize, foffset, bpos, strip, rebuilt, erased, len, size);
  }

  lemma NothingWritten(f: Block, g: Block, foffset: nat, strip: nat, data: nat, erased: set<nat>, len: nat, size: nat)
    requires Restored(f, g, foffset, strip, data, erased, 0, len, 0)
    ensures Restored(f, g, foffset, strip, data, erased, 0, len, size)
  {
    forall k | 0 <= k < |f| && g[k] != f[k]
      ensures exists i :: 0 <= i < data && i in erased && Lost(foffset, strip, i, Reach(i, 0, len, size), k)
    {
      var i :| 0 <= i < data && i in erased && Lost(foffset, strip, i, Reach(i, 0, len, 0), k);
      assert Lost(foffset, strip, i, Reach(i, 0, len, size), k);
    }
  }

  /** One block, 551-593. */
  method DecodeTurn(c: Code, units: nat, ghost original: Block, f: Block, fsize: nat, ghost foffset: nat,
                    parity: Block, ghost poffset: nat, apos: nat, ppos: nat, bsize: nat, erased: set<nat>,
                    leftover: (nat, nat) -> Block, rpos: nat, ghost u: nat, ghost n: nat)
    returns (r: Option<Block>)
    requires WellShaped(c) && 0 < c.dataStrips && Corrects(c, erased) && |original| == fsize
    requires Damaged(c, units, original, foffset, parity, poffset, erased)
    requires u + n <= units && 0 < bsize == Units(c, n)
    requires Units(c, u) + Units(c, n) == Units(c, u + n) <= Units(c, units)
    requires apos == foffset + Units(c, u) && ppos == poffset + Units(c, u)
    ensures r.None? <==>
      c.dataStrips - 1 in erased && Place(foffset, Units(c, units), c.dataStrips - 1) + Units(c, u) > fsize
    ensures r.Some? ==> |f| <= |r.value|
    ensures r.Some? ==> forall i :: 0 <= i < c.dataStrips - 1 && i in erased ==>
      Place(foffset, Units(c, units), i) + Units(c, u + n) <= |r.value|
    ensures r.Some? && Restored(original, f, foffset, Units(c, units), c.dataStrips, erased, 0, Units(c, u), 0)
      && FrontFits(foffset, Units(c, units), c.dataStrips, fsize, erased)
      ==> Restored(original, r.value, foffset, Units(c, units), c.dataStrips, erased, 0, Units(c, u + n), 0)
  {
    ghost var strip, lo, hi := Units(c, units), Units(c, u), Units(c, u + n);
    var data := ReadStrips(f, apos, Units(c, units), c.dataStrips, bsize, erased, 0, (i: nat) => leftover(rpos, i));
    var par := ReadStrips(parity, ppos, Units(c, units), c.parityStrips, bsize, erased, c.dataStrips,
      (i: nat) => leftover(rpos, i));
    var rebuilt := DecodeBlock(c, data, par, n, bsize);
    if Restored(original, f, foffset, strip, c.dataStrips, erased, 0, lo, 0) {
      Rebuilt(c, units, original, f, foffset, parity, poffset, erased, u, n, data, par);
    }
    assert FrontFits(foffset, strip, c.dataStrips, fsize, erased) &&
      Restored(original, f, foffset, strip, c.dataStrips, erased, 0, lo, 0)
      ==> Proper(original, fsize, foffset, strip, rebuilt, erased, lo, bsize);
    hide WellShaped, Corrects, Damaged, Restored, FrontFits, Units, Proper;
    r := WriteBack(original, f, fsize, foffset, apos, Units(c, units), rebuilt, erased, lo, bsize);
  }

  lemma Rebuilt(c: Code, units: nat, original: Block, f: Block, foffset: nat, parity: Block, poffset: nat,
                erased: set<nat>, u: nat, n: nat, data: seq<Block>, par: seq<Block>)
    requires WellShaped(c) && Corrects(c, erased) && Damaged(c, units, original, foffset, parity, poffset, erased)
    requires u + n <= units && Units(c, u) + Units(c, n) == Units(c, u + n) <= Units(c, units)
    requires Restored(original, f, foffset, Units(c, units), c.dataStrips, erased, 0, Units(c, u), 0)
    requires Shaped(data, c.dataStrips, Units(c, n)) && Shaped(par, c.parityStrips, Units(c, n))
    requires forall i :: 0 <= i < c.dataStrips && 0 + i !in erased ==>
      data[i] == ReadAt(f, Place(foffset + Units(c, u), Units(c, units), i), Units(c, n))
    requires forall i :: 0 <= i < c.parityStrips && c.dataStrips + i !in erased ==>
      par[i] == ReadAt(parity, Place(poffset + Units(c, u), Units(c, units), i), Units(c, n))
    ensures Decoded(c, data, par, n) == BlockOf(c, units, original, foffset, u, n)
  {
    var x := BlockOf(c, units, original, foffset, u, n);
    forall i | 0 <= i < c.dataStrips && i !in erased ensures x[i] == data[i] {
      DataSurvives(c, units, original, f, foffset, erased, u, n, i);
    }
    forall i | 0 <= i < c.parityStrips && c.dataStrips + i !in erased ensures Encoded(c, x, 0, n)[i] == par[i] {
      ParitySurvives(c, units, original, foffset, parity, poffset, erased, u, n, i);
    }
    DecodedBlock(c, x, data, par, erased, n);
  }

  lemma DecodedBlock(c: Code, x: seq<Block>, data: seq<Block>, par: seq<Block>, erased: set<nat>, n: nat)
    requires WellShaped(c) && Corrects(c, erased)
    requires Shaped(x, c.dataStrips, Units(c, n)) && Shaped(data, c.dataStrips, Units(c, n)) &&
      Shaped(par, c.parityStrips, Units(c, n))
    requires forall i :: 0 <= i < c.dataStrips && i !in erased ==> x[i] == data[i]
    requires forall i :: 0 <= i < c.parityStrips && c.dataStrips + i !in erased ==> Encoded(c, x, 0, n)[i] == par[i]
    ensures Decoded(c, data, par, n) == x
  {
    DecodedIsData(c, x, data, par, erased, n);
    forall i | 0 <= i < c.dataStrips ensures x[i][0..Units(c, n)] == x[i] {
    }
    assert Slices(x, 0, Units(c, n)) == x;
  }

  /** The last block begins at the greatest multiple of the block size below the strip's length. */
  lemma AtLastBlock(units: nat, blockUnits: nat, u: nat)
    requires 0 < blockUnits && u < units && u % blockUnits == 0
    ensures u <= LastBlock(units, blockUnits)
    ensures u + blockUnits >= units ==> u == LastBlock(units, blockUnits)
  {
    Division.QuotientsOrdered(u, units - 1, blockUnits);
    Division.Ordered(u / blockUnits, (units - 1) / blockUnits, blockUnits);
    if u + blockUnits >= units {
      Division.Unique(units - 1, blockUnits, u / blockUnits, units - 1 - u);
    }
  }

  /**
   et_decode: the erased strips are rebuilt, and the file is exactly the original again if and only
   if the file reaches to the end of every erased strip before the last and, when the last is
   erased, to where its last block begins.
   */
  method DecodeFile(c: Code, units: nat, fsize: nat, file: Block, foffset: nat, parity: Block, poffset: nat,
                    bufferSize: nat, erased: set<nat>, leftover: (nat, nat) -> Block, ghost original: Block)
    returns (r: Option<Block>)
    requires WellShaped(c) && 0 < c.dataStrips && Corrects(c, erased) && |original| == fsize
    requires Damaged(c, units, original, foffset, parity, poffset, erased)
    requires Restored(original, file, foffset, Units(c, units), c.dataStrips, erased, 0, 0, 0)
    ensures r == Some(original) <==> Fits(c, units, BlockUnits(c, bufferSize), fsize, foffset, erased)
  {
    ghost var blockUnits := BlockUnits(c, bufferSize);
    if erased == {} {
      assert file == original;
      return Some(file);
    }
    var blockSize := BlockSize(c, bufferSize);
    var stripSize := Units(c, units);
    var f := file;
    var apos, ppos, rpos := foffset, poffset, 0;
    ghost var u := 0;
    ghost var fits := Fits(c, units, blockUnits, fsize, foffset, erased);
    while rpos < stripSize
      invariant u <= units && Units(c, u) <= stripSize
      invariant if rpos < stripSize then rpos == Units(c, u) else u == units
      invariant apos == foffset + rpos && ppos == poffset + rpos
      invariant u < units ==> u % blockUnits == 0
      invariant fsize <= |f|
      invariant u > 0 ==> forall i :: 0 <= i < c.dataStrips - 1 && i in erased ==>
        Place(foffset, stripSize, i) + Units(c, u) <= |f|
      invariant u == units && u > 0 && c.dataStrips - 1 in erased ==>
        Place(foffset, stripSize, c.dataStrips - 1) + Units(c, LastBlock(units, blockUnits)) <= fsize
      invariant fits ==> Restored(original, f, foffset, stripSize, c.dataStrips, erased, 0, Units(c, u), 0)
      decreases units - u
    {
      var bsize := if rpos + blockSize > stripSize then stripSize - rpos else blockSize;
      ghost var n := BlockLength(c, u, blockUnits, units);
      AtLastBlock(units, blockUnits, u);
      UnitsInOrder(c, u, LastBlock(units, blockUnits));
      hide WellShaped, Corrects, Damaged, Restored, Units, LastBlock;
      var next := DecodeTurn(c, units, original, f, fsize, foffset, parity, poffset, apos, ppos, bsize, erased,
        leftover, rpos, u, n);
      if next.None? {
        return None;
      }
      f := next.value;
      apos, ppos, rpos := apos + blockSize, ppos + blockSize, rpos + blockSize;
      if u + n < units {
        Division.MultipleAdded(u, 1, blockUnits);
      }
      u := u + n;
    }
    if fits {
      assert f == original;
    }
    return Some(f);
  }

  /**
   Every loss is restored exactly when the padding, from the end of the file to the end of the last
   strip, is no longer than the last block.
   */
  lemma FitsWhateverIsLost(c: Code, units: nat, blockUnits: nat, fsize: nat)
    requires 0 < c.dataStrips && 0 < c.unit && 0 < units && 0 < blockUnits
    ensures
      var strip := Units(c, units);
      (forall erased: set<nat> :: Fits(c, units, blockUnits, fsize, 0, erased))
        <==> Place(0, strip, c.dataStrips) - fsize <= strip - Units(c, LastBlock(units, blockUnits))
  {
    var strip := Units(c, units);
    var last := c.dataStrips - 1;
    NextPlace(0, strip, last);
    if forall erased: set<nat> :: Fits(c, units, blockUnits, fsize, 0, erased) {
      assert Fits(c, units, blockUnits, fsize, 0, {last});
    }
    if Place(0, strip, c.dataStrips) - fsize <= strip - Units(c, LastBlock(units, blockUnits)) {
      forall erased: set<nat> ensures Fits(c, units, blockUnits, fsize, 0, erased) {
        forall i | 0 <= i < last && i in erased ensures Place(0, strip, i) + strip <= fsize {
          PlacesApart(0, strip, i, last);
        }
      }
    }
  }
}
