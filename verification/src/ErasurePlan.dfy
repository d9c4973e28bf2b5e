/**
 The packet search of an erasure plan (erasure_tools.c:899-934): from the largest packet size
 down, find the one that pads the file least, and stop early at under one percent of padding.
 */
module ErasurePlan {
  import opened Options
  import Division

  /** What is fixed before the search: the geometry of the code and the range of packet sizes. */
  datatype Search = Search(fileSize: nat, dataStrips: nat, w: nat, baseUnit: nat, low: nat, high: nat) {
    predicate Sensible() {
      0 < dataStrips && 0 < w && 0 < baseUnit
    }

    /** The packet sizes the loop goes through, largest first. */
    predicate Candidate(packet: int) {
      low < packet <= high && baseUnit > 0 && (high - packet) % baseUnit == 0
    }

    /** The bytes that a plan's size has to be a multiple of. */
    function Divisor(packet: int): int {
      dataStrips * (w * packet * baseUnit)
    }

    /** The size the file is padded to. */
    function Padded(packet: int): int
      requires Sensible() && packet > 0
    {
      DivisorPositive(packet);
      var rem := fileSize % Divisor(packet);
      if rem > 0 then fileSize + (Divisor(packet) - rem) else fileSize
    }

    function Excess(packet: int): int
      requires Sensible() && packet > 0
    {
      Padded(packet) - fileSize
    }

    /** Under one percent of the file. */
    predicate CloseEnough(packet: int)
      requires Sensible() && packet > 0
    {
      100 * Excess(packet) < fileSize
    }

    lemma DivisorPositive(packet: int)
      requires Sensible() && packet > 0
      ensures Divisor(packet) > 0
    {
      Division.Ordered(1, packet, w);
      assert w * packet == packet * w;
      Division.Ordered(1, w * packet, baseUnit);
      Division.Ordered(1, w * packet * baseUnit, dataStrips);
      assert dataStrips * (w * packet * baseUnit) == (w * packet * baseUnit) * dataStrips;
    }

    /** The padded size is the least multiple of the divisor that holds the file. */
    lemma PaddedIsLeast(packet: int)
      requires Sensible() && packet > 0
      ensures Divisor(packet) > 0
      ensures Padded(packet) % Divisor(packet) == 0
      ensures fileSize <= Padded(packet) < fileSize + Divisor(packet)
      ensures forall k :: fileSize <= k * Divisor(packet) ==> Padded(packet) <= k * Divisor(packet)
    {
      DivisorPositive(packet);
      var i := Divisor(packet);
      var q := fileSize / i;
      assert fileSize == q * i + fileSize % i;
      Division.Distributes(q, 1, i);
      Division.Multiple(q, i);
      Division.Multiple(q + 1, i);
      forall k | fileSize <= k * i ensures Padded(packet) <= k * i {
        if k < q {
          Division.Ordered(k, q, i);
        } else if k == q {
        } else {
          Division.Ordered(q + 1, k, i);
        }
      }
    }

    /** Each of the strips is then a multiple of w * packet * baseUnit, and together they are the padded file. */
    lemma StripIsWhole(packet: int)
      requires Sensible() && packet > 0
      ensures
        var strip := Padded(packet) / dataStrips;
        && strip * dataStrips == Padded(packet)
        && w * packet * baseUnit > 0
        && strip % (w * packet * baseUnit) == 0
    {
      PaddedIsLeast(packet);
      var unit := w * packet * baseUnit;
      var q := Padded(packet) / Divisor(packet);
      assert Padded(packet) == q * (dataStrips * unit);
      assert q * (dataStrips * unit) == (q * unit) * dataStrips;
      Division.Multiple(q * unit, dataStrips);
      assert unit > 0 by {
        if unit <= 0 {
          Division.NonNegative(-unit, dataStrips);
        }
      }
      Division.Multiple(q, unit);
    }
  }

  datatype Plan = Plan(stripSize: int, packetSize: int)

  /** A candidate that the loop has tried by the time it is at `packet`. */
  ghost predicate Tried(s: Search, q: int, packet: int) {
    s.Candidate(q) && q > packet
  }

  /** The candidate that comes after `packet` is the next one down; there is none in between. */
  lemma NextDown(s: Search, packet: int, q: int)
    requires s.Sensible() && packet <= s.high && (s.high - packet) % s.baseUnit == 0
    requires s.Candidate(q) && q > packet - s.baseUnit
    ensures q >= packet
    ensures (s.high - (packet - s.baseUnit)) % s.baseUnit == 0
  {
    var b := s.baseUnit;
    Division.MultipleAdded(s.high - packet, 1, b);
    if q < packet {
      var x, y := (s.high - packet) / b, (s.high - q) / b;
      assert s.high - packet == x * b && s.high - q == y * b;
      if y <= x {
        Division.Ordered(y, x, b);
      } else {
        Division.Ordered(x, y, b);
      }
    }
  }

  /**
   et_generate_plan's search. A plan pads the file less than, or as little as, every packet size
   tried, and either every candidate was tried or the padding is under one percent of the file: it is
   the first that is, or else the smallest of those that pad least.
   There is none exactly when every candidate pads the file by more than ten times its size.
   */
  method GeneratePlan(s: Search) returns (plan: Option<Plan>)
    requires s.Sensible()
    ensures plan.None? <==> forall q :: s.Candidate(q) ==> s.Excess(q) > 10 * s.fileSize
    ensures plan.Some? ==>
      var p := plan.value.packetSize;
      && s.Candidate(p)
      && plan.value.stripSize * s.dataStrips == s.Padded(p)
      && plan.value.stripSize % (s.w * p * s.baseUnit) == 0
      && BestOf(s, p)
  {
    var smallestExcess := 10 * s.fileSize;
    var packetBest := -1;
    var bestSize := 0;
    var packet: int := s.high;
    var stopped := false;
    assert (s.high - packet) % s.baseUnit == 0;
    while packet > s.low && !stopped
      invariant packet <= s.high && (s.high - packet) % s.baseUnit == 0
      invariant packetBest == -1 ==> !stopped && smallestExcess == 10 * s.fileSize && NoneFits(s, packet)
      invariant packetBest != -1 ==>
        Leads(s, packetBest, packet) && bestSize == s.Padded(packetBest) && smallestExcess == s.Excess(packetBest)
      invariant if stopped then Stops(s, packetBest) else NoneClose(s, packet)
      decreases !stopped, packet
    {
      var excess, newSize := Try(s, packet);
      Turn(s, packet, packetBest);
      hide Leads, NoneFits, NoneClose, Stops;
      if excess <= smallestExcess {
        smallestExcess := excess;
        packetBest := packet;
        bestSize := newSize;
        stopped := 100 * excess < s.fileSize;
      }
      if !stopped {
        packet := packet - s.baseUnit;
      }
    }
    if packetBest == -1 {
      plan := None;
      AllTried(s, packet);
    } else {
      s.StripIsWhole(packetBest);
      plan := Some(Plan(bestSize / s.dataStrips, packetBest));
      if stopped {
        StoppedIsBest(s, packetBest);
      } else {
        LeaderIsBest(s, packetBest, packet);
      }
    }
  }

  /** 904-912: what a packet size would pad the file to, and by how much. */
  method Try(s: Search, packet: int) returns (excess: int, newSize: int)
    requires s.Sensible() && packet > 0
    ensures newSize == s.Padded(packet) && excess == s.Excess(packet)
  {
    s.DivisorPositive(packet);
    var i := s.dataStrips * (s.w * packet * s.baseUnit);
    newSize := s.fileSize;
    var rem := newSize % i;
    if rem > 0 {
      newSize := newSize + (i - rem);
    }
    excess := newSize - s.fileSize;
  }

  // ---------------------------------------------------------------- what the search knows

  ghost predicate NoneFits(s: Search, packet: int)
    requires s.Sensible()
  {
    forall q :: Tried(s, q, packet) ==> s.Excess(q) > 10 * s.fileSize
  }

  ghost predicate NoneClose(s: Search, packet: int)
    requires s.Sensible()
  {
    forall q :: Tried(s, q, packet) ==> !s.CloseEnough(q)
  }

  /** Of the sizes tried down to `packet`, this one pads least, and it is the smallest that does. */
  ghost predicate Leads(s: Search, best: int, packet: int)
    requires s.Sensible()
  {
    && s.Candidate(best) && best >= packet && s.Excess(best) <= 10 * s.fileSize
    && forall q :: Tried(s, q, packet) ==>
         && (q > best ==> s.Excess(best) <= s.Excess(q))
         && (q < best ==> s.Excess(best) < s.Excess(q))
  }

  /** The first that is close enough. */
  ghost predicate Stops(s: Search, best: int)
    requires s.Sensible()
  {
    s.Candidate(best) && s.CloseEnough(best) && NoneClose(s, best) && Leads(s, best, best)
  }

  /** One turn of the search. */
  lemma Turn(s: Search, packet: int, best: int)
    requires s.Sensible() && s.Candidate(packet) && NoneClose(s, packet)
    requires if best == -1 then NoneFits(s, packet) else Leads(s, best, packet)
    ensures (s.high - (packet - s.baseUnit)) % s.baseUnit == 0
    ensures
      var smallest := if best == -1 then 10 * s.fileSize else s.Excess(best);
      var next := packet - s.baseUnit;
      if s.Excess(packet) <= smallest then
        && Leads(s, packet, packet) && Leads(s, packet, next)
        && if s.CloseEnough(packet) then Stops(s, packet) else NoneClose(s, next)
      else
        && NoneClose(s, next)
        && if best == -1 then NoneFits(s, next) else Leads(s, best, next)
  {
    NextDown(s, packet, packet);
    forall q | s.Candidate(q) && q > packet - s.baseUnit ensures q == packet || Tried(s, q, packet) {
      NextDown(s, packet, q);
    }
    if s.Excess(packet) > (if best == -1 then 10 * s.fileSize else s.Excess(best)) {
      assert best != -1 && best > packet ==> Tried(s, best, packet);
    }
  }

  lemma AllTried(s: Search, packet: int)
    requires s.Sensible() && packet <= s.low && NoneFits(s, packet)
    ensures forall q :: s.Candidate(q) ==> s.Excess(q) > 10 * s.fileSize
  {
    forall q | s.Candidate(q) ensures s.Excess(q) > 10 * s.fileSize {
      assert Tried(s, q, packet);
    }
  }

  /** What is promised of the packet size of a plan. */
  ghost predicate BestOf(s: Search, p: int)
    requires s.Sensible() && p > 0
  {
    && (forall q :: s.Candidate(q) && (q >= p || !s.CloseEnough(p)) ==> s.Excess(p) <= s.Excess(q))
    && (forall q :: s.Candidate(q) && q > p ==> !s.CloseEnough(q))
    && (!s.CloseEnough(p) ==> forall q :: s.Candidate(q) && q < p ==> s.Excess(p) < s.Excess(q))
    && s.Excess(p) <= 10 * s.fileSize
  }

  lemma StoppedIsBest(s: Search, p: int)
    requires s.Sensible() && Stops(s, p)
    ensures BestOf(s, p)
  {
    forall q | s.Candidate(q) && q > p ensures Tried(s, q, p) {
    }
  }

  lemma LeaderIsBest(s: Search, p: int, packet: int)
    requires s.Sensible() && packet <= s.low && Leads(s, p, packet) && NoneClose(s, packet)
    ensures BestOf(s, p)
  {
    forall q | s.Candidate(q) ensures Tried(s, q, packet) {
    }
  }
}
