/**
 Erasure codes as the planner uses them: a code works on runs of `unit` bytes of every strip,
 each run on its own, so that coding a block at a time is coding the whole strip. RAID4
 (raid4.c:39-85) is one.
 */
module ErasureCode {
  import Division
  import opened ErasureFiles

  /** `enc` turns one unit of every data strip into one of every parity strip; `dec` rebuilds the data. */
  datatype Code = Code(
    dataStrips: nat,
    parityStrips: nat,
    unit: nat,
    enc: seq<Block> -> seq<Block>,
    dec: (seq<Block>, seq<Block>) -> seq<Block>)

  ghost predicate WellShaped(c: Code) {
    && 0 < c.unit
    && (forall x :: Shaped(x, c.dataStrips, c.unit) ==> Shaped(c.enc(x), c.parityStrips, c.unit))
    && (forall x, y :: Shaped(x, c.dataStrips, c.unit) && Shaped(y, c.parityStrips, c.unit) ==>
          Shaped(c.dec(x, y), c.dataStrips, c.unit))
  }

  ghost predicate AgreeOutside(x: seq<Block>, y: seq<Block>, erased: set<nat>, shift: nat) {
    |x| == |y| && forall i :: 0 <= i < |x| && shift + i !in erased ==> x[i] == y[i]
  }

  /** From the surviving strips, whatever stands in the erased ones, the decoder rebuilds all the data. */
  ghost predicate Corrects(c: Code, erased: set<nat>) {
    forall x, y, q :: Survives(c, erased, x, y, q) ==> c.dec(y, q) == x
  }

  /** `y` and `q` are data `x` and its parity with nothing changed outside the erased strips. */
  ghost predicate Survives(c: Code, erased: set<nat>, x: seq<Block>, y: seq<Block>, q: seq<Block>) {
    && Shaped(x, c.dataStrips, c.unit)
    && Shaped(y, c.dataStrips, c.unit)
    && Shaped(q, c.parityStrips, c.unit)
    && AgreeOutside(x, y, erased, 0)
    && AgreeOutside(c.enc(x), q, erased, c.dataStrips)
  }

  function Units(c: Code, n: nat): nat {
    Division.NonNegative(n, c.unit);
    n * c.unit
  }

  lemma UnitsAdd(c: Code, a: nat, b: nat)
    ensures Units(c, a + b) == Units(c, a) + Units(c, b)
  {
    Division.Distributes(a, b, c.unit);
  }

  ghost predicate Holds(x: seq<Block>, count: nat, len: nat) {
    |x| == count && forall i :: 0 <= i < count ==> len <= |x[i]|
  }

  /** The parity of the `k`-th unit of the strips. */
  ghost function UnitParity(c: Code, x: seq<Block>, k: nat): (p: seq<Block>)
    requires WellShaped(c) && Holds(x, c.dataStrips, Units(c, k + 1))
    ensures Shaped(p, c.parityStrips, c.unit)
  {
    UnitsAdd(c, k, 1);
    c.enc(Slices(x, Units(c, k), Units(c, k + 1)))
  }

  /** encode_block on the `n` units of the data that come after the first `from`. */
  ghost function Encoded(c: Code, x: seq<Block>, from: nat, n: nat): (p: seq<Block>)
    requires WellShaped(c) && Holds(x, c.dataStrips, Units(c, from + n))
    ensures Shaped(p, c.parityStrips, Units(c, n))
    decreases n
  {
    if n == 0 then seq(c.parityStrips, _ => [])
    else
      UnitsAdd(c, n - 1, 1);
      UnitsAdd(c, from + n - 1, 1);
      Join(Encoded(c, x, from, n - 1), UnitParity(c, x, from + n - 1))
  }

  /** decode_block on the first `n` units of the data and the parity. */
  ghost function Decoded(c: Code, x: seq<Block>, p: seq<Block>, n: nat): (y: seq<Block>)
    requires WellShaped(c) && Holds(x, c.dataStrips, Units(c, n)) && Holds(p, c.parityStrips, Units(c, n))
    ensures Shaped(y, c.dataStrips, Units(c, n))
    decreases n
  {
    if n == 0 then seq(c.dataStrips, _ => [])
    else
      UnitsAdd(c, n - 1, 1);
      Join(Decoded(c, x, p, n - 1),
           c.dec(Slices(x, Units(c, n - 1), Units(c, n)), Slices(p, Units(c, n - 1), Units(c, n))))
  }

  /** Coding `a` units and then the next `b` is coding `a + b` units at once. */
  lemma {:induction false} EncodedInBlocks(c: Code, x: seq<Block>, a: nat, b: nat)
    requires WellShaped(c) && Holds(x, c.dataStrips, Units(c, a + b))
    ensures Holds(x, c.dataStrips, Units(c, a))
    ensures Encoded(c, x, 0, a + b) == Join(Encoded(c, x, 0, a), Encoded(c, x, a, b))
    decreases b
  {
    UnitsAdd(c, a, b);
    if b == 0 {
      NoMoreUnits(c, x, a);
    } else {
      UnitsAdd(c, a + b - 1, 1);
      hide WellShaped, Join, Encoded, UnitParity, Shaped;
      EncodedInBlocks(c, x, a, b - 1);
      OneMoreUnit(c, x, a, b - 1);
    }
  }

  lemma NoMoreUnits(c: Code, x: seq<Block>, a: nat)
    requires WellShaped(c) && Holds(x, c.dataStrips, Units(c, a))
    ensures Encoded(c, x, 0, a) == Join(Encoded(c, x, 0, a), Encoded(c, x, a, 0))
  {
    hide WellShaped;
    JoinEmpty(Encoded(c, x, 0, a), Encoded(c, x, a, 0));
  }

  lemma OneMoreUnit(c: Code, x: seq<Block>, a: nat, b: nat)
    requires WellShaped(c) && Holds(x, c.dataStrips, Units(c, a + b + 1))
    requires Holds(x, c.dataStrips, Units(c, a + b)) && Holds(x, c.dataStrips, Units(c, a))
    requires Encoded(c, x, 0, a + b) == Join(Encoded(c, x, 0, a), Encoded(c, x, a, b))
    ensures Encoded(c, x, 0, a + b + 1) == Join(Encoded(c, x, 0, a), Encoded(c, x, a, b + 1))
  {
    hide WellShaped, UnitParity, Units, Join;
    JoinAssociates(Encoded(c, x, 0, a), Encoded(c, x, a, b), UnitParity(c, x, a + b));
  }

  lemma JoinEmpty(x: seq<Block>, y: seq<Block>)
    requires Shaped(y, |x|, 0)
    ensures Join(x, y) == x
  {
    forall i | 0 <= i < |x| ensures x[i] + y[i] == x[i] {
    }
  }

  /** `y` holds the `n` units of `x` that come after the first `from`. */
  ghost predicate Excerpt(c: Code, x: seq<Block>, y: seq<Block>, from: nat, n: nat) {
    && Holds(x, c.dataStrips, Units(c, from + n))
    && Holds(y, c.dataStrips, Units(c, n))
    && Units(c, from) + Units(c, n) == Units(c, from + n)
    && forall i :: 0 <= i < c.dataStrips ==> y[i][..Units(c, n)] == x[i][Units(c, from)..Units(c, from + n)]
  }

  lemma ExcerptShorter(c: Code, x: seq<Block>, y: seq<Block>, from: nat, n: nat)
    requires Excerpt(c, x, y, from, n) && n > 0
    ensures Units(c, n - 1) <= Units(c, n) && Units(c, from + n - 1) <= Units(c, from + n)
    ensures Excerpt(c, x, y, from, n - 1)
    ensures Slices(y, Units(c, n - 1), Units(c, n)) == Slices(x, Units(c, from + n - 1), Units(c, from + n))
  {
    UnitsAdd(c, n - 1, 1);
    UnitsAdd(c, from, n - 1);
    UnitsAdd(c, from + n - 1, 1);
    var short, long := Units(c, n - 1), Units(c, n);
    var lo, mid, hi := Units(c, from), Units(c, from + n - 1), Units(c, from + n);
    forall i | 0 <= i < c.dataStrips ensures y[i][..short] == x[i][lo..mid] && y[i][short..long] == x[i][mid..hi] {
      assert y[i][..short] == y[i][..long][..short] && y[i][short..long] == y[i][..long][short..];
      assert x[i][lo..mid] == x[i][lo..hi][..short] && x[i][mid..hi] == x[i][lo..hi][short..];
    }
  }

  /** A block read out of the strips is coded as it is in place. */
  lemma {:induction false} EncodedInPlace(c: Code, x: seq<Block>, y: seq<Block>, from: nat, n: nat)
    requires WellShaped(c) && Excerpt(c, x, y, from, n)
    ensures Encoded(c, y, 0, n) == Encoded(c, x, from, n)
    decreases n
  {
    if n > 0 {
      ExcerptShorter(c, x, y, from, n);
      EncodedInPlace(c, x, y, from, n - 1);
    }
  }

  lemma JoinAssociates(x: seq<Block>, y: seq<Block>, z: seq<Block>)
    requires |x| == |y| == |z|
    ensures Join(Join(x, y), z) == Join(x, Join(y, z))
  {
    forall i | 0 <= i < |x| ensures x[i] + y[i] + z[i] == x[i] + (y[i] + z[i]) {
    }
  }

  /** Outside the erased strips, `y` and `q` hold the first `n` units of `x` and of its parity. */
  ghost predicate Surviving(c: Code, x: seq<Block>, y: seq<Block>, q: seq<Block>, erased: set<nat>, n: nat)
    requires WellShaped(c)
    requires Holds(x, c.dataStrips, Units(c, n)) && Holds(y, c.dataStrips, Units(c, n)) &&
      Holds(q, c.parityStrips, Units(c, n))
  {
    && (forall i :: 0 <= i < c.dataStrips && i !in erased ==> x[i][..Units(c, n)] == y[i][..Units(c, n)])
    && (forall i :: 0 <= i < c.parityStrips && c.dataStrips + i !in erased ==>
       Encoded(c, x, 0, n)[i] == q[i][..Units(c, n)])
  }

  /** So they do for one unit less, and for the last unit alone. */
  lemma LastUnitSurvives(c: Code, x: seq<Block>, y: seq<Block>, q: seq<Block>, erased: set<nat>, n: nat)
    requires WellShaped(c) && n > 0
    requires Holds(x, c.dataStrips, Units(c, n)) && Holds(y, c.dataStrips, Units(c, n)) &&
      Holds(q, c.parityStrips, Units(c, n))
    requires Surviving(c, x, y, q, erased, n)
    ensures Units(c, n - 1) + c.unit == Units(c, n)
    ensures Surviving(c, x, y, q, erased, n - 1)
    ensures
      var a, b := Units(c, n - 1), Units(c, n);
      Survives(c, erased, Slices(x, a, b), Slices(y, a, b), Slices(q, a, b))
  {
    UnitsAdd(c, n - 1, 1);
    LastDataSurvives(c, x, y, erased, n);
    LastParitySurvives(c, x, q, erased, n);
    hide WellShaped, Encoded;
  }

  lemma LastDataSurvives(c: Code, x: seq<Block>, y: seq<Block>, erased: set<nat>, n: nat)
    requires n > 0 && Holds(x, c.dataStrips, Units(c, n)) && Holds(y, c.dataStrips, Units(c, n))
    requires forall i :: 0 <= i < c.dataStrips && i !in erased ==> x[i][..Units(c, n)] == y[i][..Units(c, n)]
    ensures Units(c, n - 1) + c.unit == Units(c, n)
    ensures
      var a, b := Units(c, n - 1), Units(c, n);
      && (forall i :: 0 <= i < c.dataStrips && i !in erased ==> x[i][..a] == y[i][..a])
      && AgreeOutside(Slices(x, a, b), Slices(y, a, b), erased, 0)
  {
    UnitsAdd(c, n - 1, 1);
    var a, b := Units(c, n - 1), Units(c, n);
    forall i | 0 <= i < c.dataStrips && i !in erased ensures x[i][..a] == y[i][..a] && x[i][a..b] == y[i][a..b] {
      assert x[i][..a] == x[i][..b][..a] && x[i][a..b] == x[i][..b][a..];
      assert y[i][..a] == y[i][..b][..a] && y[i][a..b] == y[i][..b][a..];
    }
  }

  lemma LastParitySurvives(c: Code, x: seq<Block>, q: seq<Block>, erased: set<nat>, n: nat)
    requires WellShaped(c) && n > 0
    requires Holds(x, c.dataStrips, Units(c, n)) && Holds(q, c.parityStrips, Units(c, n))
    requires forall i :: 0 <= i < c.parityStrips && c.dataStrips + i !in erased ==>
      Encoded(c, x, 0, n)[i] == q[i][..Units(c, n)]
    ensures Units(c, n - 1) + c.unit == Units(c, n)
    ensures
      var a, b := Units(c, n - 1), Units(c, n);
      && (forall i :: 0 <= i < c.parityStrips && c.dataStrips + i !in erased ==>
           Encoded(c, x, 0, n - 1)[i] == q[i][..a])
      && Shaped(c.enc(Slices(x, a, b)), c.parityStrips, c.unit)
      && AgreeOutside(c.enc(Slices(x, a, b)), Slices(q, a, b), erased, c.dataStrips)
  {
    UnitsAdd(c, n - 1, 1);
    var a, b := Units(c, n - 1), Units(c, n);
    var last := c.enc(Slices(x, a, b));
    forall i | 0 <= i < c.parityStrips && c.dataStrips + i !in erased
      ensures Encoded(c, x, 0, n - 1)[i] == q[i][..a] && last[i] == q[i][a..b]
    {
      var whole := q[i][..b];
      assert whole == Encoded(c, x, 0, n - 1)[i] + last[i];
      assert q[i][..a] == whole[..a] && q[i][a..b] == whole[a..];
    }
  }

  /** With a correct decoder the data comes back from the survivors, however many units there are. */
  lemma {:induction false} DecodedIsData(c: Code, x: seq<Block>, y: seq<Block>, q: seq<Block>, erased: set<nat>, n: nat)
    requires WellShaped(c) && Corrects(c, erased)
    requires Holds(x, c.dataStrips, Units(c, n)) && Holds(y, c.dataStrips, Units(c, n)) &&
      Holds(q, c.parityStrips, Units(c, n))
    requires Surviving(c, x, y, q, erased, n)
    ensures Decoded(c, y, q, n) == Slices(x, 0, Units(c, n))
    decreases n
  {
    if n == 0 {
      assert Decoded(c, y, q, n) == Slices(x, 0, 0);
    } else {
      LastUnitSurvives(c, x, y, q, erased, n);
      DecodedIsData(c, x, y, q, erased, n - 1);
      hide WellShaped, Surviving, Survives;
      var a, b := Units(c, n - 1), Units(c, n);
      assert c.dec(Slices(y, a, b), Slices(q, a, b)) == Slices(x, a, b);
      SlicesJoin(x, a, b);
    }
  }

  lemma SlicesJoin(x: seq<Block>, a: nat, b: nat)
    requires a <= b && forall i :: 0 <= i < |x| ==> b <= |x[i]|
    ensures Join(Slices(x, 0, a), Slices(x, a, b)) == Slices(x, 0, b)
  {
    forall i | 0 <= i < |x| ensures x[i][0..a] + x[i][a..b] == x[i][0..b] {
    }
  }

  // ---------------------------------------------------------------- RAID4

  function XorBlock(x: Block, y: Block): (z: Block)
    requires |x| == |y|
    ensures |z| == |x| && forall k :: 0 <= k < |x| ==> z[k] == x[k] ^ y[k]
  {
    seq(|x|, k requires 0 <= k < |x| => x[k] ^ y[k])
  }

  /** The XOR of a block with all of the given strips but one; `skip` past the end skips none. */
  function XorStrips(x: seq<Block>, start: Block, skip: nat): (z: Block)
    requires forall i :: 0 <= i < |x| ==> |x[i]| == |start|
    ensures |z| == |start|
    decreases |x|
  {
    if x == [] then start
    else
      var last := |x| - 1;
      var before := XorStrips(x[..last], start, skip);
      if last == skip then before else XorBlock(before, x[last])
  }

  /** raid4_encode: the first data strip XORed with all the others. */
  function Raid4Parity(x: seq<Block>, unit: nat): (p: Block)
    requires |x| > 0 && forall i :: 0 <= i < |x| ==> |x[i]| == unit
    ensures |p| == unit
  {
    XorStrips(x[1..], x[0], |x|)
  }

  /** raid4_decode for one lost data strip: the parity XORed with all the others. */
  function Raid4Code(dataStrips: nat, unit: nat, lost: nat): Code {
    Code(dataStrips, 1, unit,
      x => if 0 < dataStrips == |x| && (forall i | 0 <= i < |x| :: |x[i]| == unit) then [Raid4Parity(x, unit)] else [],
      (x, p) =>
        if |x| == dataStrips && |p| == 1 && |p[0]| == unit && (forall i | 0 <= i < |x| :: |x[i]| == unit) &&
          lost < dataStrips
        then x[lost := XorStrips(x, p[0], lost)] else x)
  }

  /** Skipping a strip and then XORing it in is XORing them all in, and the start may come last. */
  lemma {:induction false} XorStripsAt(x: seq<Block>, start: Block, skip: nat, k: nat)
    requires forall i :: 0 <= i < |x| ==> |x[i]| == |start|
    requires skip < |x| && k < |start|
    ensures XorStrips(x, start, |x|)[k] == XorStrips(x, start, skip)[k] ^ x[skip][k]
    decreases |x|
  {
    var last := |x| - 1;
    SkipPast(x[..last], start, |x| - 1, |x|);
    if skip < last {
      XorStripsAt(x[..last], start, skip, k);
      assert XorStrips(x[..last], start, |x|) == XorStrips(x[..last], start, last);
      var a, b, d := XorStrips(x[..last], start, skip)[k], x[skip][k], x[last][k];
      XorSwap(a, b, d);
    } else {
      SkipPast(x[..last], start, last, |x|);
    }
  }

  lemma XorSwap(a: Byte, b: Byte, d: Byte)
    ensures (a ^ b) ^ d == (a ^ d) ^ b
  {
  }

  lemma XorCancel(a: Byte, b: Byte)
    ensures (a ^ b) ^ a == b && (a ^ b) ^ b == a && a ^ b == b ^ a
  {
  }

  lemma {:induction false} SkipPast(x: seq<Block>, start: Block, s: nat, t: nat)
    requires forall i :: 0 <= i < |x| ==> |x[i]| == |start|
    requires s >= |x| && t >= |x|
    ensures XorStrips(x, start, s) == XorStrips(x, start, t)
    decreases |x|
  {
    if x != [] {
      SkipPast(x[..|x| - 1], start, s, t);
    }
  }

  /** A different start shows through at every byte. */
  lemma {:induction false} StartShows(x: seq<Block>, a: Block, b: Block, skip: nat, k: nat)
    requires |a| == |b| && k < |a| && forall i :: 0 <= i < |x| ==> |x[i]| == |a|
    ensures XorStrips(x, a, skip)[k] ^ b[k] == XorStrips(x, b, skip)[k] ^ a[k]
    decreases |x|
  {
    if x == [] {
      XorCancel(a[k], b[k]);
    } else {
      var last := |x| - 1;
      StartShows(x[..last], a, b, skip, k);
      if last != skip {
        XorSwap(XorStrips(x[..last], a, skip)[k], x[last][k], b[k]);
        XorSwap(XorStrips(x[..last], b, skip)[k], x[last][k], a[k]);
      }
    }
  }

  /** The strips of `x` and of `y` may differ at the skipped place. */
  lemma {:induction false} SkippedIgnored(x: seq<Block>, y: seq<Block>, start: Block, skip: nat)
    requires |x| == |y| && forall i :: 0 <= i < |x| ==> |x[i]| == |y[i]| == |start|
    requires forall i :: 0 <= i < |x| && i != skip ==> x[i] == y[i]
    ensures XorStrips(x, start, skip) == XorStrips(y, start, skip)
    decreases |x|
  {
    if x != [] {
      SkippedIgnored(x[..|x| - 1], y[..|x| - 1], start, skip);
    }
  }

  /** Starting from zeroes or from the first strip comes to the same. */
  lemma {:induction false} FirstAsStart(x: seq<Block>, zero: Block, skip: nat)
    requires |x| > 0 && skip >= |x| && forall i :: 0 <= i < |x| ==> |x[i]| == |zero|
    requires forall k :: 0 <= k < |zero| ==> zero[k] == 0
    ensures XorStrips(x[1..], x[0], skip) == XorStrips(x, zero, skip)
    decreases |x|
  {
    var last := |x| - 1;
    if last == 0 {
      assert x[..0] == [] && x[1..] == [];
      assert XorBlock(zero, x[0]) == x[0];
    } else {
      assert x[1..][..last - 1] == x[..last][1..];
      FirstAsStart(x[..last], zero, skip);
    }
  }

  /** The XOR of the `k`-th bytes of all strips. */
  function XorOfBytes(x: seq<Block>, k: nat): Byte
    requires forall i :: 0 <= i < |x| ==> k < |x[i]|
  {
    if x == [] then 0
    else
      var last := |x| - 1;
      XorOfBytes(x[..last], k) ^ x[last][k]
  }

  lemma {:induction false} XorStripsBytes(x: seq<Block>, start: Block, skip: nat, k: nat)
    requires (forall i :: 0 <= i < |x| ==> |x[i]| == |start|) && skip >= |x| && k < |start|
    ensures XorStrips(x, start, skip)[k] == start[k] ^ XorOfBytes(x, k)
    decreases |x|
  {
    if x != [] {
      var last := |x| - 1;
      XorStripsBytes(x[..last], start, skip, k);
      XorGroups(start[k], XorOfBytes(x[..last], k), x[last][k]);
    } else {
      XorGroups(start[k], 0, 0);
    }
  }

  lemma XorGroups(a: Byte, b: Byte, d: Byte)
    ensures (a ^ b) ^ d == a ^ (b ^ d) && a ^ 0 == a && 0 ^ a == a
  {
  }

  /** Each byte of the parity is the XOR of the bytes in its place in all data strips. */
  lemma Raid4ParityIsXor(x: seq<Block>, unit: nat, k: nat)
    requires |x| > 0 && (forall i :: 0 <= i < |x| ==> |x[i]| == unit) && k < unit
    ensures Raid4Parity(x, unit)[k] == XorOfBytes(x, k)
  {
    var zero: Block := seq(unit, _ => 0);
    FirstAsStart(x, zero, |x|);
    XorStripsBytes(x, zero, |x|, k);
    XorGroups(XorOfBytes(x, k), 0, 0);
  }

  /** One lost data strip of a RAID4 set is what the parity and the others give back. */
  lemma Raid4Restores(x: seq<Block>, unit: nat, lost: nat)
    requires lost < |x| && forall i :: 0 <= i < |x| ==> |x[i]| == unit
    ensures XorStrips(x, Raid4Parity(x, unit), lost) == x[lost]
  {
    var p := Raid4Parity(x, unit);
    var zero: Block := seq(unit, _ => 0);
    SkipPast(x[1..], x[0], |x|, |x|);
    FirstAsStart(x, zero, |x|);
    forall k | 0 <= k < unit ensures XorStrips(x, p, lost)[k] == x[lost][k] {
      XorStripsAt(x, p, lost, k);
      StartShows(x, p, zero, |x|, k);
      XorZero(XorStrips(x, p, |x|)[k], p[k], XorStrips(x, p, lost)[k], x[lost][k]);
    }
  }

  lemma XorZero(t: Byte, p: Byte, r: Byte, d: Byte)
    requires t ^ 0 == p ^ p && t == r ^ d
    ensures r == d
  {
  }

  /** RAID4 is a code of the kind the block coding needs, and corrects the loss of any one data strip. */
  lemma Raid4IsCode(dataStrips: nat, unit: nat, lost: nat)
    requires lost < dataStrips && 0 < unit
    ensures WellShaped(Raid4Code(dataStrips, unit, lost))
    ensures Corrects(Raid4Code(dataStrips, unit, lost), {lost})
  {
    var c := Raid4Code(dataStrips, unit, lost);
    forall x, y, q | Survives(c, {lost}, x, y, q) ensures c.dec(y, q) == x {
      assert c.enc(x) == [Raid4Parity(x, unit)];
      assert c.enc(x)[0] == q[0];
      SkippedIgnored(x, y, q[0], lost);
      Raid4Restores(x, unit, lost);
      assert y[lost := x[lost]] == x;
    }
  }
}
