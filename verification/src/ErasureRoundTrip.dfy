/**
 A file's whole life under an erasure plan (erasure_tools.c): plan, encode, lose strips, decode.
 */
module ErasureRoundTrip {
  import Division
  import opened Options
  import opened ErasureFiles
  import opened ErasureCode
  import opened ErasureBlocks
  import opened ErasureDecode
  import opened ErasurePlan

  /** What et_generate_plan promises of the plan it returns. */
  ghost predicate PlanFor(s: Search, plan: Plan) {
    && s.Sensible() && s.Candidate(plan.packetSize)
    && plan.stripSize >= 0
    && plan.stripSize * s.dataStrips == s.Padded(plan.packetSize)
    && Unit(s, plan) > 0
    && plan.stripSize % Unit(s, plan) == 0
  }

  /** The bytes of a strip that are coded together. */
  function Unit(s: Search, plan: Plan): int {
    s.w * plan.packetSize * s.baseUnit
  }

  function UnitsOf(s: Search, plan: Plan): (units: nat)
    requires PlanFor(s, plan)
    ensures units * Unit(s, plan) == plan.stripSize
  {
    var q := plan.stripSize / Unit(s, plan);
    Division.QuotientsOrdered(0, plan.stripSize, Unit(s, plan));
    q
  }

  /** The bytes of each strip in the last block that is coded. */
  function LastBlockBytes(s: Search, plan: Plan, c: Code, bufferSize: nat): int
    requires PlanFor(s, plan) && 0 < c.unit && 0 < c.dataStrips + c.parityStrips
  {
    plan.stripSize - Units(c, LastBlock(UnitsOf(s, plan), BlockUnits(c, bufferSize)))
  }

  /** `g` is a parity file `f` with nothing changed in the strips that survive. */
  ghost predicate ParityKept(f: Block, g: Block, poffset: nat, strip: nat, data: nat, parity: nat, erased: set<nat>) {
    forall i :: 0 <= i < parity && data + i !in erased && Covers(f, poffset, strip, i) ==>
      Covers(g, poffset, strip, i) && Strip(g, poffset, strip, i) == Strip(f, poffset, strip, i)
  }

  /** The padding that a plan adds is what the strips hold beyond the file. */
  lemma PaddingIsExcess(s: Search, plan: Plan, c: Code)
    requires PlanFor(s, plan) && c.unit == Unit(s, plan) && c.dataStrips == s.dataStrips
    ensures Units(c, UnitsOf(s, plan)) == plan.stripSize
    ensures Place(0, plan.stripSize, s.dataStrips) - s.fileSize == s.Excess(plan.packetSize)
  {
  }

  /** The padding is no longer than the last block: then any loss fits. */
  lemma SmallPaddingFits(s: Search, plan: Plan, c: Code, bufferSize: nat, erased: set<nat>)
    requires PlanFor(s, plan) && c.unit == Unit(s, plan) && c.dataStrips == s.dataStrips
    requires s.Excess(plan.packetSize) <= LastBlockBytes(s, plan, c, bufferSize)
    ensures Fits(c, UnitsOf(s, plan), BlockUnits(c, bufferSize), s.fileSize, 0, erased)
  {
    PaddingIsExcess(s, plan, c);
    if UnitsOf(s, plan) > 0 {
      FitsWhateverIsLost(c, UnitsOf(s, plan), BlockUnits(c, bufferSize), s.fileSize);
    }
  }

  /**
   For any plan that et_generate_plan makes and any code with a decoder correct for the strips that
   are lost: a file that is encoded, loses those strips, and is decoded is itself again whenever the
   plan's padding is no longer than the last block, and in general exactly when the file fits. The
   buffer sizes of the two may differ, and what is found in the lost strips does not matter.
   `loseParity` is what the loss does to the parity file.
   */
  method EncodeLoseDecode(s: Search, plan: Plan, c: Code, file: Block, damaged: Block, oldParity: Block, poffset: nat,
                          encodeBuffer: nat, decodeBuffer: nat, erased: set<nat>, loseParity: Block -> Block,
                          leftover: (nat, nat) -> Block)
    returns (r: Option<Block>)
    requires PlanFor(s, plan) && s.fileSize == |file|
    requires WellShaped(c) && Corrects(c, erased) && c.unit == Unit(s, plan) && c.dataStrips == s.dataStrips
    requires Restored(file, damaged, 0, plan.stripSize, c.dataStrips, erased, 0, 0, 0)
    requires forall f: Block ::
      ParityKept(f, loseParity(f), poffset, plan.stripSize, c.dataStrips, c.parityStrips, erased)
    ensures r == Some(file) <==> Fits(c, UnitsOf(s, plan), BlockUnits(c, decodeBuffer), |file|, 0, erased)
    ensures s.Excess(plan.packetSize) <= LastBlockBytes(s, plan, c, decodeBuffer) ==> r == Some(file)
  {
    var units := UnitsOf(s, plan);
    PaddingIsExcess(s, plan, c);
    hide PlanFor, Corrects, Restored, Units;
    var parity := EncodeFile(c, units, file, 0, oldParity, poffset, encodeBuffer);
    var kept := loseParity(parity);
    assert Damaged(c, units, file, 0, kept, poffset, erased) by {
      assert ParityKept(parity, kept, poffset, plan.stripSize, c.dataStrips, c.parityStrips, erased);
      forall i | 0 <= i < c.parityStrips && c.dataStrips + i !in erased
        ensures Covers(kept, poffset, plan.stripSize, i)
        ensures Strip(kept, poffset, plan.stripSize, i) == Strips(parity, poffset, plan.stripSize, c.parityStrips)[i]
      {
        assert Covers(parity, poffset, plan.stripSize, i);
      }
    }
    r := DecodeFile(c, units, |file|, damaged, 0, kept, poffset, decodeBuffer, erased, leftover, file);
    if s.Excess(plan.packetSize) <= LastBlockBytes(s, plan, c, decodeBuffer) {
      SmallPaddingFits(s, plan, c, decodeBuffer, erased);
    }
  }

  /** What the search ensures makes a plan sound. */
  lemma PlanIsSound(s: Search, plan: Plan)
    requires s.Sensible() && s.Candidate(plan.packetSize)
    requires plan.stripSize * s.dataStrips == s.Padded(plan.packetSize)
    requires Unit(s, plan) != 0 ==> plan.stripSize % Unit(s, plan) == 0
    ensures PlanFor(s, plan)
  {
    s.StripIsWhole(plan.packetSize);
    s.PaddedIsLeast(plan.packetSize);
    if plan.stripSize < 0 {
      Division.Ordered(plan.stripSize, -1, s.dataStrips);
    }
  }

  /** The last block of a strip that is not empty is at least one unit long. */
  lemma LastBlockIsAUnit(s: Search, plan: Plan, c: Code, bufferSize: nat)
    requires PlanFor(s, plan) && c.unit == Unit(s, plan) && 0 < c.dataStrips + c.parityStrips
    ensures plan.stripSize > 0 ==> LastBlockBytes(s, plan, c, bufferSize) >= c.unit
  {
    var units, blockUnits := UnitsOf(s, plan), BlockUnits(c, bufferSize);
    if plan.stripSize > 0 {
      Division.NonNegative((units - 1) / blockUnits, blockUnits);
      assert LastBlock(units, blockUnits) <= units - 1;
      UnitsInOrder(c, LastBlock(units, blockUnits), units - 1);
      UnitsAdd(c, units - 1, 1);
    }
  }

  /**
   RAID4 from beginning to end: plan for the file, encode it, lose any one data strip, decode. When
   there is a plan the file comes back whole exactly when it fits, and it does whenever the padding is
   at most one word, whichever strip was lost, for every file and all buffer sizes.
   */
  method Raid4Survives(file: Block, dataStrips: nat, w: nat, lost: nat, lose: nat -> Block, loseParity: Block -> Block,
                       oldParity: Block, poffset: nat, encodeBuffer: nat, decodeBuffer: nat,
                       leftover: (nat, nat) -> Block)
    returns (plan: Option<Plan>, r: Option<Block>)
    requires 0 < w && lost < dataStrips
    requires forall strip :: Restored(file, lose(strip), 0, strip, dataStrips, {lost}, 0, 0, 0)
    requires forall f: Block, strip :: ParityKept(f, loseParity(f), poffset, strip, dataStrips, 1, {lost})
    ensures plan.None? <==> Raid4Search(|file|, dataStrips, w).Excess(1) > 10 * |file|
    ensures plan.Some? ==> PlanFor(Raid4Search(|file|, dataStrips, w), plan.value) && plan.value.packetSize == 1
    ensures plan.Some? ==>
      var c := Raid4Code(dataStrips, w, lost);
      var units := UnitsOf(Raid4Search(|file|, dataStrips, w), plan.value);
      r == Some(file) <==> Fits(c, units, BlockUnits(c, decodeBuffer), |file|, 0, {lost})
    ensures plan.Some? && Raid4Search(|file|, dataStrips, w).Excess(1) <= w ==> r == Some(file)
  {
    var s := Raid4Search(|file|, dataStrips, w);
    plan := GeneratePlan(s);
    assert s.Candidate(1);
    if plan.None? {
      return plan, None;
    }
    PlanIsSound(s, plan.value);
    assert plan.value.packetSize == 1 && Unit(s, plan.value) == w;
    var c := Raid4Code(dataStrips, w, lost);
    Raid4IsCode(dataStrips, w, lost);
    LastBlockIsAUnit(s, plan.value, c, decodeBuffer);
    hide WellShaped, Corrects, Restored, ParityKept;
    r := EncodeLoseDecode(s, plan.value, c, file, lose(plan.value.stripSize), oldParity, poffset, encodeBuffer,
                          decodeBuffer, {lost}, loseParity, leftover);
  }

  /** For RAID4 there is one packet size to try. */
  function Raid4Search(fileSize: nat, dataStrips: nat, w: nat): Search {
    Search(fileSize, dataStrips, w, 1, 0, 1)
  }

  /** Nine bytes on four strips are padded to 32: the last strip lies beyond the file, and its loss is not made good. */
  lemma TooMuchPadding(bufferSize: nat)
    ensures
      var s, plan, c := Raid4Search(9, 4, 8), Plan(8, 1), Raid4Code(4, 8, 3);
      && PlanFor(s, plan)
      && s.Excess(1) == 23 > LastBlockBytes(s, plan, c, bufferSize) == 8
      && !Fits(c, UnitsOf(s, plan), BlockUnits(c, bufferSize), 9, 0, {3})
  {
    var s, plan, c := Raid4Search(9, 4, 8), Plan(8, 1), Raid4Code(4, 8, 3);
    assert s.Candidate(1) && s.Padded(1) == 32 && Unit(s, plan) == 8;
    assert UnitsOf(s, plan) == 1;
    var blockUnits := BlockUnits(c, bufferSize);
    Division.Unique(0, blockUnits, 0, 0);
    assert LastBlock(1, blockUnits) == 0;
    assert Place(0, 8, 3) == 24;
  }

  /** For a file of one byte the search finds no plan at all. */
  lemma NoPlanForOneByte()
    ensures Raid4Search(1, 4, 8).Excess(1) == 31 > 10 * 1
  {
    assert Raid4Search(1, 4, 8).Divisor(1) == 32;
  }
}
