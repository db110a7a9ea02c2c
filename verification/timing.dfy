/** The bit-timing resolver and the settings consistency check.

    A CAN bit is divided into time quanta (Bosch CAN 2.0 Part B, section 10):
    one synchronization quantum, then phase segment 1 (here including the
    propagation segment), then phase segment 2; the sample point sits between
    the two phase segments. The peripheral clock frequency is a parameter
    `clock` of every operation that needs it. */
module BitTiming {
  import opened Bits

  const UInt32Max: nat := 0xFFFF_FFFF
  const DefaultTolerancePPM: nat := 1000
  const PartsPerMillion: nat := 1000000
  /** Highest wished rate at which triple sampling may be enabled. */
  const TripleSamplingMaxRate: nat := 125000

  datatype ModuleMode = Normal | InternalLoopBack | ExternalLoopBack | Silent
  datatype TransmitPriority = ByIdentifier | ByRequestOrder

  datatype Settings = Settings(
    wishedBitRate: nat,
    brp: nat,                 // bit rate prescaler, 1 ... 1024
    ps1: nat,                 // phase segment 1, 1 ... 16
    ps2: nat,                 // phase segment 2, 1 ... 8
    rjw: nat,                 // resynchronization jump width, 1 ... 4
    tripleSampling: bool,
    closeEnough: bool,        // achieved rate within the requested tolerance
    moduleMode: ModuleMode,
    openCollector: bool,
    transmitPriority: TransmitPriority,
    rx0Size: nat,
    rx1Size: nat,
    txSize: nat)

  // ---------------------------------------------------------------------------
  // The resolver's search space
  // ---------------------------------------------------------------------------

  /** The floor prescaler for `tq` quanta per bit: `clock / rate / tq`. */
  function FloorBrp(clock: nat, rate: nat, tq: nat): nat {
    if rate == 0 || tq == 0 then 0 else clock / rate / tq
  }

  /** The search loop runs its body for `tq`: every count from 25 down to `tq`
      passed the loop guard (count at least 5, floor prescaler at most 1024). */
  predicate Reached(clock: nat, rate: nat, tq: nat)
    decreases 25 - tq
  {
    && 5 <= tq <= 25
    && FloorBrp(clock, rate, tq) <= 1024
    && (tq == 25 || Reached(clock, rate, tq + 1))
  }

  /** `(tq, brp)` is one of the pairs whose error the loop computes. */
  predicate Candidate(clock: nat, rate: nat, tq: nat, brp: nat) {
    && Reached(clock, rate, tq)
    && ((brp == FloorBrp(clock, rate, tq) && brp > 0)
        || (brp == FloorBrp(clock, rate, tq) + 1 && FloorBrp(clock, rate, tq) < 1024))
  }

  /** Distance between the clock and the clock the pair would need for the wished rate. */
  function Error(clock: nat, rate: nat, tq: nat, brp: nat): nat {
    Dist(clock, rate * tq * brp)
  }

  /** `(t1, b1)` is examined before `(t2, b2)`: higher counts first, and within one
      count the floor prescaler before its successor. */
  predicate Earlier(t1: nat, b1: nat, t2: nat, b2: nat) {
    t1 > t2 || (t1 == t2 && b1 < b2)
  }

  /** The loop's variables `smallestError`, `bestBRP`, `bestTQCount`. */
  datatype Choice = Choice(err: nat, brp: nat, tq: nat)

  /** Their initial values: the slowest setting, with the 32-bit maximum as error. */
  const Initial: Choice := Choice(UInt32Max, 1024, 25)

  /** The precondition that keeps every 32-bit product of the resolver from wrapping. */
  predicate NoWrap(clock: nat, rate: nat) {
    rate > 0 && clock + 25 * rate < UInt32Max
  }

  // ---------------------------------------------------------------------------
  // Arithmetic facts
  // ---------------------------------------------------------------------------

  lemma MulMono(a: nat, x: nat, y: nat)
    ensures x <= y ==> a * x <= a * y
  {
  }

  /** The floor prescaler brackets the clock: `rate*tq*B <= clock < rate*tq*(B+1)`. */
  lemma FloorBrpBrackets(clock: nat, rate: nat, tq: nat)
    requires rate > 0 && tq > 0
    ensures rate * tq * FloorBrp(clock, rate, tq) <= clock
    ensures clock < rate * tq * (FloorBrp(clock, rate, tq) + 1)
  {
    var q := clock / rate;
    var b := q / tq;
    assert FloorBrp(clock, rate, tq) == b;
    DivBracket(clock, rate);
    DivBracket(q, tq);
    MulMono(rate, tq * b, q);
    MulMono(rate, q + 1, tq * (b + 1));
    MulAssoc(rate, tq, b);
    MulAssoc(rate, tq, b + 1);
  }

  /** Floor division brackets its dividend. */
  lemma DivBracket(x: nat, d: nat)
    requires d > 0
    ensures d * (x / d) <= x < d * (x / d + 1)
  {
    assert x == d * (x / d) + x % d;
  }

  lemma MulAssoc(a: nat, b: nat, c: nat)
    ensures a * (b * c) == a * b * c
  {
  }

  /** The two one-sided differences the loop computes in unsigned arithmetic are
      never negative, so they coincide with `Error`, which is below 32-bit range. */
  lemma {:induction false} CandidateErrors(clock: nat, rate: nat, tq: nat)
    requires NoWrap(clock, rate) && 5 <= tq <= 25
    ensures var b := FloorBrp(clock, rate, tq);
      && rate * tq * b <= clock
      && clock <= rate * tq * (b + 1)
      && Error(clock, rate, tq, b) == clock - rate * tq * b < UInt32Max
      && Error(clock, rate, tq, b + 1) == rate * tq * (b + 1) - clock < UInt32Max
      && rate * tq * (b + 1) < UInt32Max
  {
    var b := FloorBrp(clock, rate, tq);
    FloorBrpBrackets(clock, rate, tq);
    assert rate * tq * (b + 1) == rate * tq * b + rate * tq;
    MulMono(rate, tq, 25);
  }

  lemma {:induction false} ReachedAbove(clock: nat, rate: nat, lo: nat, hi: nat)
    requires Reached(clock, rate, lo) && lo <= hi <= 25
    ensures Reached(clock, rate, hi)
    decreases hi - lo
  {
    if lo < hi {
      ReachedAbove(clock, rate, lo + 1, hi);
    }
  }

  // ---------------------------------------------------------------------------
  // The search loop
  // ---------------------------------------------------------------------------

  /** Keep the candidate if its error is strictly smaller (ties keep the earlier one). */
  function Consider(clock: nat, rate: nat, tq: nat, brp: nat, acc: Choice): Choice {
    var e := Error(clock, rate, tq, brp);
    if e < acc.err then Choice(e, brp, tq) else acc
  }

  /** One iteration of the loop body for count `tq`. */
  function Step(clock: nat, rate: nat, tq: nat, acc: Choice): Choice {
    var b := FloorBrp(clock, rate, tq);
    var a1 := if b > 0 then Consider(clock, rate, tq, b, acc) else acc;
    if b < 1024 then Consider(clock, rate, tq, b + 1, a1) else a1
  }

  /** The pair `(t, b)` has been examined once the loop has finished every count above
      `tq` and, at count `tq`, every prescaler up to `bound`. */
  predicate Seen(tq: nat, bound: nat, t: nat, b: nat) {
    t > tq || (t == tq && b <= bound)
  }

  /** The accumulator holds the first examined pair of smallest error, or is still
      `Initial` when no pair has been examined. */
  ghost predicate SummarizesUpTo(clock: nat, rate: nat, tq: nat, bound: nat, acc: Choice) {
    && (forall t: nat, b: nat :: Candidate(clock, rate, t, b) && Seen(tq, bound, t, b)
          ==> acc.err <= Error(clock, rate, t, b))
    && (acc == Initial
        || (&& Candidate(clock, rate, acc.tq, acc.brp)
            && Seen(tq, bound, acc.tq, acc.brp)
            && acc.err == Error(clock, rate, acc.tq, acc.brp)
            && forall t: nat, b: nat :: Candidate(clock, rate, t, b) && Earlier(t, b, acc.tq, acc.brp)
                 ==> Error(clock, rate, t, b) > acc.err))
  }

  /** What the accumulator knows once every count above `tq` has been examined
      (no candidate at `tq` has a prescaler 0). */
  ghost predicate Summarizes(clock: nat, rate: nat, tq: nat, acc: Choice) {
    SummarizesUpTo(clock, rate, tq, 0, acc)
  }

  lemma CandidateErrorBound(clock: nat, rate: nat, t: nat, b: nat)
    requires NoWrap(clock, rate) && Candidate(clock, rate, t, b)
    ensures Error(clock, rate, t, b) < UInt32Max
  {
    CandidateErrors(clock, rate, t);
  }

  lemma {:induction false} ConsiderPreserves(clock: nat, rate: nat, tq: nat, bound: nat, bb: nat, acc: Choice)
    requires NoWrap(clock, rate) && Candidate(clock, rate, tq, bb) && bound < bb
    requires forall b: nat :: bound < b < bb ==> !Candidate(clock, rate, tq, b)
    requires SummarizesUpTo(clock, rate, tq, bound, acc)
    ensures SummarizesUpTo(clock, rate, tq, bb, Consider(clock, rate, tq, bb, acc))
  {
    CandidateErrorBound(clock, rate, tq, bb);
    var e := Error(clock, rate, tq, bb);
    forall t: nat, b: nat | Candidate(clock, rate, t, b) && Seen(tq, bb, t, b)
      ensures Consider(clock, rate, tq, bb, acc).err <= Error(clock, rate, t, b)
    {
      if !(t == tq && b == bb) {
        assert Seen(tq, bound, t, b);
      }
    }
    if e < acc.err {
      forall t: nat, b: nat | Candidate(clock, rate, t, b) && Earlier(t, b, tq, bb)
        ensures Error(clock, rate, t, b) > e
      {
        assert Seen(tq, bound, t, b);
      }
    }
  }

  lemma {:induction false} StepSummarizes(clock: nat, rate: nat, tq: nat, acc: Choice)
    requires NoWrap(clock, rate) && Reached(clock, rate, tq)
    requires Summarizes(clock, rate, tq, acc)
    ensures Summarizes(clock, rate, tq - 1, Step(clock, rate, tq, acc))
  {
    var b := FloorBrp(clock, rate, tq);
    var a1 := if b > 0 then Consider(clock, rate, tq, b, acc) else acc;
    if b > 0 {
      ConsiderPreserves(clock, rate, tq, 0, b, acc);
    }
    assert SummarizesUpTo(clock, rate, tq, b, a1);
    var a2 := Step(clock, rate, tq, acc);
    if b < 1024 {
      ConsiderPreserves(clock, rate, tq, b, b + 1, a1);
    }
    assert SummarizesUpTo(clock, rate, tq, b + 1, a2);
    forall t: nat, bb: nat | Candidate(clock, rate, t, bb) && Seen(tq - 1, 0, t, bb)
      ensures Seen(tq, b + 1, t, bb)
    {
    }
  }

  /** The whole loop from count `tq` down. */
  function Search(clock: nat, rate: nat, tq: nat, acc: Choice): (r: Choice)
    requires NoWrap(clock, rate) && 4 <= tq <= 25
    requires tq == 25 || Reached(clock, rate, tq + 1)
    requires Summarizes(clock, rate, tq, acc)
    ensures forall t: nat, b: nat :: Candidate(clock, rate, t, b) ==> r.err <= Error(clock, rate, t, b)
    ensures r == Initial
         || (&& Candidate(clock, rate, r.tq, r.brp)
             && r.err == Error(clock, rate, r.tq, r.brp)
             && forall t: nat, b: nat :: Candidate(clock, rate, t, b) && Earlier(t, b, r.tq, r.brp)
                  ==> Error(clock, rate, t, b) > r.err)
    decreases tq
  {
    if tq >= 5 && FloorBrp(clock, rate, tq) <= 1024 then
      assert Reached(clock, rate, tq);
      StepSummarizes(clock, rate, tq, acc);
      Search(clock, rate, tq - 1, Step(clock, rate, tq, acc))
    else
      assert forall t: nat :: Reached(clock, rate, t) ==> t > tq by {
        forall t: nat | Reached(clock, rate, t) ensures t > tq {
          if t <= tq { ReachedAbove(clock, rate, t, tq); }
        }
      }
      acc
  }

  /** The winner of the whole search. */
  function BestChoice(clock: nat, rate: nat): (r: Choice)
    requires NoWrap(clock, rate)
    ensures forall t: nat, b: nat :: Candidate(clock, rate, t, b) ==> r.err <= Error(clock, rate, t, b)
    ensures r == Initial
         || (&& Candidate(clock, rate, r.tq, r.brp)
             && r.err == Error(clock, rate, r.tq, r.brp)
             && forall t: nat, b: nat :: Candidate(clock, rate, t, b) && Earlier(t, b, r.tq, r.brp)
                  ==> Error(clock, rate, t, b) > r.err)
  {
    Search(clock, rate, 25, Initial)
  }

  // ---------------------------------------------------------------------------
  // The settings constructor and its queries
  // ---------------------------------------------------------------------------

  /** Number of quanta per bit: synchronization segment plus both phase segments. */
  function TqCount(s: Settings): nat {
    1 + s.ps1 + s.ps2
  }

  /** The clock frequency the settings would need to produce the wished rate exactly. */
  function NeededClock(s: Settings): nat {
    TqCount(s) * s.wishedBitRate * s.brp
  }

  /** `NeededClock` as the queries compute it, a product in 32-bit unsigned arithmetic:
      for settings filled in by hand it can wrap. */
  function NeededClock32(s: Settings): (w: nat)
    ensures w < 0x1_0000_0000
    ensures NeededClock(s) < 0x1_0000_0000 ==> w == NeededClock(s)
  {
    var n := NeededClock(s);
    DivMulAdd(n / 0x1_0000_0000, n % 0x1_0000_0000, 0x1_0000_0000);
    n % 0x1_0000_0000
  }

  /** The achieved clock `w` is within `tolerance` parts per million of `clock`. */
  predicate WithinTolerance(clock: nat, w: nat, tolerance: nat) {
    Dist(clock, w) * PartsPerMillion <= w * tolerance
  }

  /** The reference definition of a usable timing configuration. */
  predicate ConsistentTiming(s: Settings) {
    && 1 <= s.brp <= 1024
    && 1 <= s.ps1 <= 16
    && 1 <= s.ps2 <= 8
    && 1 <= s.rjw <= 4
    && s.rjw <= s.ps2
    && !(s.tripleSampling && (s.wishedBitRate > TripleSamplingMaxRate || s.ps1 == 1))
  }

  /** The settings constructor: resolve the prescaler and quantum count, derive the
      segments, and decide whether the achieved rate is within `tolerance` ppm. The
      remaining fields take their declared defaults. */
  function Resolve(clock: nat, rate: nat, tolerance: nat): (s: Settings)
    requires NoWrap(clock, rate)
    ensures s.wishedBitRate == rate
    ensures 1 <= s.brp <= 1024 && 5 <= TqCount(s) <= 25
    ensures s.ps2 == 1 + 2 * TqCount(s) / 7 && 2 <= s.ps2 <= 8 && 2 <= s.ps1 <= 16
    ensures 0 < NeededClock(s) < UInt32Max
    ensures s.rjw <= 4 && s.rjw <= s.ps2 && (s.rjw == 4 || s.rjw == s.ps2)
    ensures s.tripleSampling <==> rate <= TripleSamplingMaxRate && s.ps1 > 1
    ensures s.closeEnough <==> WithinTolerance(clock, NeededClock(s), tolerance)
    ensures ConsistentTiming(s)
    ensures s.moduleMode == Normal && s.transmitPriority == ByIdentifier && !s.openCollector
    ensures s.rx0Size == 32 && s.rx1Size == 0 && s.txSize == 16
  {
    var best := Winner(clock, rate);
    var tq := best.tq;
    var (ps1, ps2) := Segments(tq);
    var rjw := if ps2 >= 4 then 4 else ps2;
    var triple := rate <= TripleSamplingMaxRate && ps1 > 1;
    var s0 := Settings(rate, best.brp, ps1, ps2, rjw, triple, false,
                       Normal, false, ByIdentifier, 32, 0, 16);
    assert TqCount(s0) == tq;
    NeededClockPositive(s0);
    // the quantum count times the wished rate times the prescaler, against the clock
    var s := s0.(closeEnough := WithinTolerance(clock, NeededClock(s0), tolerance));
    assert TqCount(s) == tq && NeededClock(s) == NeededClock(s0);
    s
  }

  /** The winning pair, with only its ranges exposed; the clock it needs fits the
      32-bit product the constructor computes. */
  function Winner(clock: nat, rate: nat): (c: Choice)
    requires NoWrap(clock, rate)
    ensures 1 <= c.brp <= 1024 && 5 <= c.tq <= 25
    ensures c.tq * rate * c.brp < UInt32Max
  {
    WinnerFits(clock, rate);
    BestChoice(clock, rate)
  }

  /** The winner's clock stays below 2^32: a candidate prescaler is at most one above the
      floor one, and when the loop examines no pair the floor prescaler for 25 quanta
      already exceeds 1024. */
  lemma WinnerFits(clock: nat, rate: nat)
    requires NoWrap(clock, rate)
    ensures var c := BestChoice(clock, rate); c.tq * rate * c.brp < UInt32Max
  {
    var c := BestChoice(clock, rate);
    if Candidate(clock, rate, c.tq, c.brp) {
      CandidateFits(clock, rate, c.tq, c.brp);
    } else {
      forall t: nat, b: nat | Candidate(clock, rate, t, b) ensures false {
        CandidateErrorBound(clock, rate, t, b);
      }
      NoCandidateFits(clock, rate);
    }
  }

  lemma CandidateFits(clock: nat, rate: nat, tq: nat, brp: nat)
    requires NoWrap(clock, rate) && Candidate(clock, rate, tq, brp)
    ensures tq * rate * brp < UInt32Max
  {
    var b := FloorBrp(clock, rate, tq);
    CandidateErrors(clock, rate, tq);
    MulMono(rate * tq, brp, b + 1);
    assert tq * rate == rate * tq;
  }

  lemma NoCandidateFits(clock: nat, rate: nat)
    requires NoWrap(clock, rate)
    requires forall t: nat, b: nat :: !Candidate(clock, rate, t, b)
    ensures 25 * rate * 1024 < UInt32Max
  {
    var b := FloorBrp(clock, rate, 25);
    assert !Candidate(clock, rate, 25, b) && !Candidate(clock, rate, 25, b + 1);
    assert b > 1024;
    FloorBrpBrackets(clock, rate, 25);
    MulMono(rate * 25, 1024, b);
  }

  /** Phase segment 2 gets `1 + 2*tq/7` quanta and phase segment 1 what remains
      after it and the synchronization quantum. */
  function Segments(tq: nat): (r: (nat, nat))
    requires 5 <= tq <= 25
    ensures r.1 == 1 + 2 * tq / 7
    ensures 1 + r.0 + r.1 == tq
    ensures 2 <= r.0 <= 16 && 2 <= r.1 <= 8
  {
    var ps2 := 1 + 2 * tq / 7;
    (tq - ps2 - 1, ps2)
  }

  /** The resolver picks, among all pairs the loop examines, the first one of smallest
      error; when the loop examines none, the slowest setting 1024 x 25 is kept. */
  lemma ResolveIsOptimal(clock: nat, rate: nat, tolerance: nat)
    requires NoWrap(clock, rate)
    ensures var s := Resolve(clock, rate, tolerance);
      && (Candidate(clock, rate, TqCount(s), s.brp)
          || (s.brp == 1024 && TqCount(s) == 25
              && forall t: nat, b: nat :: !Candidate(clock, rate, t, b)))
      && (Candidate(clock, rate, TqCount(s), s.brp) ==>
            forall t: nat, b: nat :: Candidate(clock, rate, t, b) ==>
              && Error(clock, rate, TqCount(s), s.brp) <= Error(clock, rate, t, b)
              && (Earlier(t, b, TqCount(s), s.brp) ==> Error(clock, rate, TqCount(s), s.brp) < Error(clock, rate, t, b)))
  {
    var s := Resolve(clock, rate, tolerance);
    var best := BestChoice(clock, rate);
    assert best == Winner(clock, rate);
    assert TqCount(s) == best.tq && s.brp == best.brp;
    if best == Initial {
      forall t: nat, b: nat | Candidate(clock, rate, t, b) ensures false {
        CandidateErrorBound(clock, rate, t, b);
      }
    } else {
      assert Error(clock, rate, TqCount(s), s.brp) == Error(clock, rate, best.tq, best.brp) == best.err;
    }
  }

  /** `actualBitRate`: the rate the prescaler and quantum count really produce,
      rounded down. */
  function ActualBitRate(clock: nat, s: Settings): (r: nat)
    requires s.brp > 0
    ensures s.brp * TqCount(s) * r <= clock < s.brp * TqCount(s) * (r + 1)
    ensures clock == NeededClock(s) ==> r == s.wishedBitRate
  {
    var d := TqCount(s);
    FloorBrpBrackets(clock, s.brp, d);
    var r := FloorBrp(clock, s.brp, d);
    assert s.brp * d * r <= clock < s.brp * d * (r + 1);
    if clock == NeededClock(s) then
      assert clock == (s.brp * d) * s.wishedBitRate;
      FloorUnique(s.brp * d, s.wishedBitRate, r);
      r
    else
      r
  }

  lemma FloorUnique(d: nat, x: nat, r: nat)
    requires d > 0 && d * r <= d * x < d * (r + 1)
    ensures r == x
  {
    MulMono(d, r + 1, x);
    MulMono(d, x + 1, r);
  }

  /** `exactBitRate`: the clock equals the 32-bit product of prescaler, wished rate and
      quantum count. When that product does not wrap, this says the clock is an exact
      multiple of the prescaled quantum count and the quotient is the wished rate. */
  function ExactBitRate(clock: nat, s: Settings): (b: bool)
    ensures s.brp > 0 && NeededClock(s) < 0x1_0000_0000 ==>
      (b <==> clock % (s.brp * TqCount(s)) == 0 && clock / (s.brp * TqCount(s)) == s.wishedBitRate)
    ensures s.brp == 0 ==> (b <==> clock == 0)
  {
    ExactMultiple(clock, s);
    // the source multiplies prescaler, rate and count in that order; modulo 2^32 the
    // order does not matter
    clock == NeededClock32(s)
  }

  lemma ExactMultiple(clock: nat, s: Settings)
    ensures s.brp > 0 && NeededClock(s) < 0x1_0000_0000 ==>
      (clock == NeededClock32(s) <==>
         clock % (s.brp * TqCount(s)) == 0 && clock / (s.brp * TqCount(s)) == s.wishedBitRate)
  {
    if s.brp > 0 && NeededClock(s) < 0x1_0000_0000 {
      var d := s.brp * TqCount(s);
      assert NeededClock(s) == d * s.wishedBitRate;
      DivMulAdd(s.wishedBitRate, 0, d);
      DivBracket(clock, d);
      assert clock == d * (clock / d) + clock % d;
    }
  }

  /** With a hand-set prescaler of 1024, 25 quanta and a wished rate of 1 Mbit/s the
      32-bit product wraps to 4125163520, so that clock counts as exact although it
      produces 161139 bit/s. */
  lemma ExactBitRateWraps()
    ensures var s := Settings(1000000, 1024, 16, 8, 4, false, false, Normal, false,
                              ByIdentifier, 32, 0, 16);
      && NeededClock(s) == 25600000000
      && ExactBitRate(4125163520, s)
      && ActualBitRate(4125163520, s) == 161139
  {
    var s := Settings(1000000, 1024, 16, 8, 4, false, false, Normal, false, ByIdentifier, 32, 0, 16);
    DivMulAdd(161139, 4125163520 - 161139 * 25600, 25600);
  }

  /** `ppmFromWishedBitRate`: the distance between the clock and the 32-bit needed
      clock, in parts per million of the latter, rounded down and truncated to 32 bits
      on return. A zero product would be a division by zero. */
  function PpmFromWishedBitRate(clock: nat, s: Settings): (p: nat)
    requires NeededClock32(s) > 0
    ensures p < 0x1_0000_0000
    ensures var w, x := NeededClock32(s), Dist(clock, NeededClock32(s)) * PartsPerMillion;
      x < w * 0x1_0000_0000 ==> p * w <= x < (p + 1) * w
    ensures ExactBitRate(clock, s) ==> p == 0
  {
    var w := NeededClock32(s);
    var x := Dist(clock, w) * PartsPerMillion;
    QuotientFits(x, w);
    (x / w) % 0x1_0000_0000
  }

  /** A quotient below 2^32 is unchanged by the truncation and brackets its dividend. */
  lemma QuotientFits(x: nat, w: nat)
    requires w > 0
    ensures x < w * 0x1_0000_0000 ==> (x / w) % 0x1_0000_0000 == x / w
    ensures (x / w) * w <= x < (x / w + 1) * w
  {
    var q := x / w;
    DivBracket(x, w);
    if x < w * 0x1_0000_0000 {
      MulMono(w, 0x1_0000_0000, q);
      assert q < 0x1_0000_0000;
      DivMulAdd(0, q, 0x1_0000_0000);
    }
  }

  /** A setting whose needed clock fits in 32 bits and is within tolerance reports a
      deviation of at most the tolerance. */
  lemma {:induction false} PpmWithinTolerance(clock: nat, s: Settings, tolerance: nat)
    requires s.brp > 0 && s.wishedBitRate > 0 && tolerance < 0x1_0000_0000
    requires NeededClock(s) < 0x1_0000_0000
    requires WithinTolerance(clock, NeededClock(s), tolerance)
    ensures PpmFromWishedBitRate(clock, s) <= tolerance
  {
    var w := NeededClock(s);
    NeededClockPositive(s);
    assert NeededClock32(s) == w;
    var x := Dist(clock, w) * PartsPerMillion;
    DivLe(x, w, tolerance);
    assert x / w < 0x1_0000_0000;
  }

  lemma NeededClockPositive(s: Settings)
    requires s.brp > 0 && s.wishedBitRate > 0
    ensures NeededClock(s) > 0
  {
    var a := TqCount(s) * s.wishedBitRate;
    assert a > 0;
    MulMono(a, 1, s.brp);
  }

  /** A setting the resolver declared close enough deviates by at most the tolerance. */
  lemma CloseEnoughWithinTolerance(clock: nat, rate: nat, tolerance: nat)
    requires NoWrap(clock, rate) && tolerance < 0x1_0000_0000
    ensures var s := Resolve(clock, rate, tolerance);
      s.closeEnough ==> PpmFromWishedBitRate(clock, s) <= tolerance
  {
    var s := Resolve(clock, rate, tolerance);
    if s.closeEnough {
      PpmWithinTolerance(clock, s, tolerance);
    }
  }

  lemma DivLe(x: nat, w: nat, k: nat)
    requires w > 0 && x <= w * k
    ensures x / w <= k
  {
    assert x == w * (x / w) + x % w;
    MulMono(w, k + 1, x / w);
  }

  /** `samplePointFromBitStart`: percentage of the bit before the sample point. */
  function SamplePointFromBitStart(s: Settings): (p: nat)
    ensures p * TqCount(s) <= (1 + s.ps1) * 100 < (p + 1) * TqCount(s)
    ensures s.ps2 >= 1 ==> p < 100
  {
    var x := (1 + s.ps1) * 100;
    var d := TqCount(s);
    assert x == d * (x / d) + x % d;
    MulMono(d, 100, x / d);
    x / d
  }

  // ---------------------------------------------------------------------------
  // Consistency check
  // ---------------------------------------------------------------------------

  const BitRatePrescalerIsZero: bv32            := 1 << 0
  const BitRatePrescalerIsGreaterThan1024: bv32 := 1 << 1
  const PhaseSegment1IsZero: bv32               := 1 << 2
  const PhaseSegment1IsGreaterThan16: bv32      := 1 << 3
  const PhaseSegment2IsZero: bv32               := 1 << 4
  const PhaseSegment2IsGreaterThan8: bv32       := 1 << 5
  const RJWIsZero: bv32                         := 1 << 6
  const RJWIsGreaterThan4: bv32                 := 1 << 7
  const RJWIsGreaterThanPhaseSegment2: bv32     := 1 << 8
  const PhaseSegment1Is1AndTripleSampling: bv32 := 1 << 9
  /** The union of the ten consistency error bits. */
  const ConsistencyBits: bv32 := 0x3FF

  /** `CANBitSettingConsistency`: one bit per violated range or relation; zero means
      the configuration may be written to the peripheral. */
  function Consistency(s: Settings): (m: bv32)
    ensures m == 0 <==> ConsistentTiming(s)
    ensures m & !ConsistencyBits == 0
    ensures (m & BitRatePrescalerIsZero != 0) <==> s.brp == 0
    ensures (m & BitRatePrescalerIsGreaterThan1024 != 0) <==> s.brp > 1024
    ensures (m & PhaseSegment1IsZero != 0) <==> s.ps1 == 0
    ensures (m & PhaseSegment1IsGreaterThan16 != 0) <==> s.ps1 > 16
    ensures (m & PhaseSegment2IsZero != 0) <==> s.ps2 == 0
    ensures (m & PhaseSegment2IsGreaterThan8 != 0) <==> s.ps2 > 8
    ensures (m & RJWIsZero != 0) <==> s.rjw == 0
    ensures (m & RJWIsGreaterThan4 != 0) <==> s.rjw > 4
    ensures (m & RJWIsGreaterThanPhaseSegment2 != 0) <==> s.rjw > s.ps2
    ensures (m & PhaseSegment1Is1AndTripleSampling != 0) <==>
      s.tripleSampling && (s.wishedBitRate > TripleSamplingMaxRate || s.ps1 == 1)
  {
    Flag(s.brp == 0, BitRatePrescalerIsZero)
    | Flag(s.brp > 1024, BitRatePrescalerIsGreaterThan1024)
    | Flag(s.ps1 == 0, PhaseSegment1IsZero)
    | Flag(s.ps1 > 16, PhaseSegment1IsGreaterThan16)
    | Flag(s.ps2 == 0, PhaseSegment2IsZero)
    | Flag(s.ps2 > 8, PhaseSegment2IsGreaterThan8)
    | Flag(s.rjw == 0, RJWIsZero)
    | Flag(s.rjw > 4, RJWIsGreaterThan4)
    | Flag(s.rjw > s.ps2, RJWIsGreaterThanPhaseSegment2)
    | Flag(s.tripleSampling && (s.wishedBitRate > TripleSamplingMaxRate || s.ps1 == 1),
           PhaseSegment1Is1AndTripleSampling)
  }

  /** The error bit `bit` when `violated`, else nothing. */
  function Flag(violated: bool, bit: bv32): bv32 {
    if violated then bit else 0
  }

  /** Every settings object the constructor builds passes the consistency check. */
  lemma ResolvedIsConsistent(clock: nat, rate: nat, tolerance: nat)
    requires NoWrap(clock, rate)
    ensures Consistency(Resolve(clock, rate, tolerance)) == 0
  {
  }

  /** A zero phase segment 2 is never reported alone: either the jump width is zero
      too, or it exceeds phase segment 2. */
  lemma PhaseSegment2ZeroNeverAlone(s: Settings)
    requires s.ps2 == 0
    ensures Consistency(s) != PhaseSegment2IsZero
    ensures Consistency(s) & (RJWIsZero | RJWIsGreaterThanPhaseSegment2) != 0
  {
  }
}
