/**
 The ledger-decay trust score of `contracts/registry/src/trust_score.rs`: outcomes are
 counted per bucket of ledgers and halved every 64 buckets in fixed point.
 */
module TrustScores {
  import opened Wrappers
  import opened Integers
  import opened NumberTheory

  const BUCKET_SIZE_LEDGERS: nat := 10_000
  const MAX_DECAY_STEPS: nat := 32
  const SCALE: nat := 0x1_0000_0000
  const BASE_SCORE: nat := 50
  const FULFILLED_WEIGHT: nat := 10
  const LATE_WEIGHT: nat := 10
  const BREACH_WEIGHT: nat := 50

  datatype OutcomeCounts = OutcomeCounts(fulfilled: u64, late: u64, breached: u64)

  datatype TrustHistory = TrustHistory(epoch: u32, current: OutcomeCounts, aged: OutcomeCounts)

  const ZERO_COUNTS: OutcomeCounts := OutcomeCounts(0, 0, 0)

  /** The three lanes of a history; other statuses are not scored. */
  datatype Lane = Fulfilled | Late | Breached

  function Count(c: OutcomeCounts, x: Lane): u64 {
    match x
    case Fulfilled => c.fulfilled
    case Late => c.late
    case Breached => c.breached
  }

  function WithCount(c: OutcomeCounts, x: Lane, v: u64): OutcomeCounts {
    match x
    case Fulfilled => c.(fulfilled := v)
    case Late => c.(late := v)
    case Breached => c.(breached := v)
  }

  // -------------------------------------------------------------------- decay

  /** `decay_steps`: one halving every 64 buckets, at most 32. */
  function DecaySteps(delta: u32): nat {
    var steps := delta / 64;
    if steps > MAX_DECAY_STEPS then MAX_DECAY_STEPS else steps
  }

  /** `decay_weight`: `2^(32 - steps)`, and exactly 0 from 32 steps on. */
  function DecayWeight(steps: nat): nat {
    if steps >= MAX_DECAY_STEPS then 0
    else
      DivisionFacts(SCALE, TwoTo(steps));
      SCALE / TwoTo(steps)
  }

  /** `effective_value`, at scale `2^32`. */
  function EffectiveValue(aged: nat, current: nat, steps: nat): nat {
    (aged * DecayWeight(steps)) / SCALE + current * DecayWeight(steps)
  }

  /** `fold_value`: the same value, capped at the u64 maximum. */
  function FoldValue(aged: u64, current: u64, steps: nat): u64 {
    var sum := EffectiveValue(aged, current, steps);
    if sum > U64_MAX then U64_MAX else sum
  }

  function Lead(aged: nat, current: nat): nat {
    aged + current * SCALE
  }

  lemma ScaleIsTwoTo32()
    ensures TwoTo(32) == SCALE
  {
    assert TwoTo(8) == 256;
    TwoToAdd(8, 8);
    TwoToAdd(16, 16);
  }

  /** Below 32 steps a weight divides the scale exactly. */
  lemma WeightDividesScale(steps: nat)
    requires steps < 32
    ensures DecayWeight(steps) == TwoTo(32 - steps) && TwoTo(steps) * DecayWeight(steps) == SCALE
  {
    ScaleIsTwoTo32();
    TwoToAdd(steps, 32 - steps);
    ExactQuotient(SCALE, TwoTo(steps), TwoTo(32 - steps));
  }

  lemma ExactQuotient(a: nat, t: nat, w: nat)
    requires t > 0 && a == t * w
    ensures a / t == w
  {
    assert t * w == w * t + 0;
    DivModUnique(a, t, w, 0);
  }

  /** Multiplying by the weight and dropping 32 bits is a right shift by `steps`. */
  lemma ScaledShift(aged: nat, steps: nat)
    requires steps < 32
    ensures (aged * DecayWeight(steps)) / SCALE == aged / TwoTo(steps)
  {
    WeightDividesScale(steps);
    WeightedQuotient(aged, TwoTo(steps), DecayWeight(steps));
  }

  lemma WeightedParts(t: nat, q: nat, r: nat, w: nat)
    ensures (t * q + r) * w == q * (t * w) + r * w
  {
    Distribute(t * q, r, w);
    RegroupScale(q, t, w);
    RotateFactors(q, t, w);
    assert (t * q) * w == q * (t * w) by { RotateFactors(t, q, w); }
  }

  lemma WeightedQuotient(a: nat, t: nat, w: nat)
    requires t > 0 && w > 0
    ensures t * w > 0 && (a * w) / (t * w) == a / t
  {
    DivisionFacts(a, t);
    MulAtLeast(w, t);
    var q, r := a / t, a % t;
    WeightedParts(t, q, r, w);
    RemainderBelow(r, t, w);
    DivModUnique(a * w, t * w, q, r * w);
  }

  lemma RemainderBelow(r: nat, t: nat, w: nat)
    requires r < t && w > 0
    ensures 0 <= r * w && r * w + w <= t * w
  {
    Distribute(r, t - r, w);
    MulAtLeast(t - r, w);
    assert r * w >= 0;
  }

  lemma ShiftAbsorbsMultiple(a: nat, c: nat, t: nat)
    requires t > 0
    ensures (a + c * t) / t == a / t + c
  {
    DivisionFacts(a, t);
    var q, r := a / t, a % t;
    assert a + c * t == (q + c) * t + r;
    DivModUnique(a + c * t, t, q + c, r);
  }

  lemma ShiftTwice(a: nat, s: nat, t: nat)
    requires s > 0 && t > 0
    ensures s * t > 0 && (a / s) / t == a / (s * t)
  {
    DivisionFacts(a, s);
    var q, r := a / s, a % s;
    DivisionFacts(q, t);
    var p, v := q / t, q % t;
    NestedRemainder(s, t, p, v, r);
    DivModUnique(a, s * t, p, s * v + r);
  }

  lemma NestedRemainder(s: nat, t: nat, p: nat, v: nat, r: nat)
    requires s > 0 && v < t && r < s
    ensures s * t > 0 && 0 <= s * v + r < s * t
    ensures s * (t * p + v) + r == p * (s * t) + (s * v + r)
  {
    RemainderBelow(v, t, s);
    Distribute(t * p, v, s);
    RotateFactors(s, t, p);
  }

  lemma RotateFactors(s: nat, t: nat, p: nat)
    ensures s * (t * p) == p * (s * t) && s * t == t * s
  {
  }

  /** A lane's effective value is its undecayed value, shifted. */
  lemma EffectiveIsShift(aged: nat, current: nat, steps: nat)
    ensures EffectiveValue(aged, current, steps) == if steps >= 32 then 0 else Lead(aged, current) / TwoTo(steps)
  {
    if steps < 32 {
      ScaledShift(aged, steps);
      WeightDividesScale(steps);
      RegroupScale(current, TwoTo(steps), DecayWeight(steps));
      ShiftAbsorbsMultiple(aged, current * DecayWeight(steps), TwoTo(steps));
    }
  }

  lemma RegroupScale(c: nat, t: nat, w: nat)
    ensures c * (t * w) == (c * w) * t
  {
  }

  lemma ShiftMonotone(a: nat, b: nat, t: nat)
    requires t > 0 && a <= b
    ensures a / t <= b / t
  {
    DivisionFacts(a, t);
    var q := a / t;
    var d := b - t * q;
    assert d + q * t == b;
    ShiftAbsorbsMultiple(d, q, t);
    DivisionFacts(d, t);
  }

  /** More steps never leave more. */
  lemma EffectiveNonIncreasing(aged: nat, current: nat, s: nat, t: nat)
    requires s <= t
    ensures EffectiveValue(aged, current, t) <= EffectiveValue(aged, current, s) <= Lead(aged, current)
  {
    EffectiveIsShift(aged, current, s);
    EffectiveIsShift(aged, current, t);
    var l := Lead(aged, current);
    if s < 32 {
      ShiftTwice(l, TwoTo(0), TwoTo(s));
      DivideShrinks(l, TwoTo(s));
    }
    if t < 32 {
      TwoToAdd(s, t - s);
      ShiftTwice(l, TwoTo(s), TwoTo(t - s));
      DivideShrinks(l / TwoTo(s), TwoTo(t - s));
    }
  }

  lemma DivideShrinks(a: nat, t: nat)
    requires t > 0
    ensures a / t <= a
  {
    DivisionFacts(a, t);
    MulAtLeast(t, a / t);
  }

  lemma StepsMonotone(d: u32, e: u32)
    requires d <= e
    ensures DecaySteps(d) <= DecaySteps(e)
  {
  }

  // ------------------------------------------------------- amortised folding

  /** Folding is exact when the sum fits, which is when it keeps every query at that bucket. */
  lemma FoldKeepsQueryIff(aged: u64, current: u64, steps: nat)
    ensures EffectiveValue(FoldValue(aged, current, steps), 0, 0) == EffectiveValue(aged, current, steps)
            <==> EffectiveValue(aged, current, steps) <= U64_MAX
  {
    EffectiveIsShift(FoldValue(aged, current, steps), 0, 0);
  }

  /** Folding never adds value. */
  lemma FoldNeverInflates(aged: u64, current: u64, steps: nat)
    ensures Lead(FoldValue(aged, current, steps), 0) <= Lead(aged, current)
  {
    EffectiveNonIncreasing(aged, current, 0, steps);
  }

  /** Folding after `d` buckets and querying `e` later decays no more than one fold over both. */
  lemma SplitGapDecaysNoMore(aged: u64, current: u64, d: u32, e: u32)
    requires d + e < 0x1_0000_0000 && EffectiveValue(aged, current, DecaySteps(d)) <= U64_MAX
    ensures EffectiveValue(FoldValue(aged, current, DecaySteps(d)), 0, DecaySteps(e))
            >= EffectiveValue(aged, current, DecaySteps(d + e))
  {
    var s, t, u := DecaySteps(d), DecaySteps(e), DecaySteps(d + e);
    var l := Lead(aged, current);
    EffectiveIsShift(aged, current, s);
    EffectiveIsShift(aged, current, u);
    EffectiveIsShift(FoldValue(aged, current, s), 0, t);
    if u < 32 {
      assert s + t <= u;
      TwoToAdd(s, t);
      ShiftTwice(l, TwoTo(s), TwoTo(t));
      TwoToAdd(s + t, u - (s + t));
      ShiftTwice(l, TwoTo(s + t), TwoTo(u - (s + t)));
      DivideShrinks(l / TwoTo(s + t), TwoTo(u - (s + t)));
    }
  }

  /** The aged aggregate after folding through successive gaps. */
  function FoldThrough(aged: u64, current: u64, gaps: seq<u32>): u64 {
    if gaps == [] then FoldValue(aged, current, 0)
    else if |gaps| == 1 then FoldValue(aged, current, DecaySteps(gaps[0]))
    else FoldValue(FoldThrough(aged, current, gaps[..|gaps| - 1]), 0, DecaySteps(gaps[|gaps| - 1]))
  }

  function TotalGap(gaps: seq<u32>): nat {
    if gaps == [] then 0 else TotalGap(gaps[..|gaps| - 1]) + gaps[|gaps| - 1]
  }

  lemma EffectiveMonotone(a: nat, b: nat, steps: nat)
    requires a <= b
    ensures EffectiveValue(a, 0, steps) <= EffectiveValue(b, 0, steps)
  {
    EffectiveIsShift(a, 0, steps);
    EffectiveIsShift(b, 0, steps);
    if steps < 32 { ShiftMonotone(a, b, TwoTo(steps)); }
  }

  /**
   However a gap is split into folds, the result decays no more than a single fold over the
   whole gap, provided the first fold does not saturate: no later fold can.
   */
  lemma {:induction false} AnySplitDecaysNoMore(aged: u64, current: u64, gaps: seq<u32>)
    requires gaps != [] && TotalGap(gaps) < 0x1_0000_0000
    requires EffectiveValue(aged, current, DecaySteps(gaps[0])) <= U64_MAX
    ensures TotalGap(gaps) >= gaps[0]
    ensures FoldThrough(aged, current, gaps) >= FoldValue(aged, current, DecaySteps(TotalGap(gaps)))
    ensures FoldThrough(aged, current, gaps) <= Lead(aged, current)
  {
    var k := |gaps| - 1;
    if k == 0 {
      assert TotalGap(gaps[..0]) == 0;
      EffectiveNonIncreasing(aged, current, 0, DecaySteps(gaps[0]));
    } else {
      var front := gaps[..k];
      var d, e := TotalGap(front), gaps[k];
      AnySplitDecaysNoMore(aged, current, front);
      var f := FoldThrough(aged, current, front);
      StepsMonotone(gaps[0], d);
      EffectiveNonIncreasing(aged, current, DecaySteps(gaps[0]), DecaySteps(d));
      StepsMonotone(d, d + e);
      EffectiveNonIncreasing(aged, current, DecaySteps(d), DecaySteps(d + e));
      EffectiveNonIncreasing(f, 0, 0, DecaySteps(e));
      SplitGapDecaysNoMore(aged, current, d, e);
      EffectiveMonotone(FoldValue(aged, current, DecaySteps(d)), f, DecaySteps(e));
    }
  }

  // ------------------------------------------------------------------ updates

  function Bucket(ledger: u32): u32 {
    ledger / BUCKET_SIZE_LEDGERS
  }

  function WrappingSub(a: u32, b: u32): u32 {
    (a - b) % 0x1_0000_0000
  }

  function FoldCounts(h: TrustHistory, steps: nat): OutcomeCounts {
    OutcomeCounts(FoldValue(h.aged.fulfilled, h.current.fulfilled, steps),
                  FoldValue(h.aged.late, h.current.late, steps),
                  FoldValue(h.aged.breached, h.current.breached, steps))
  }

  function FoldTo(h: TrustHistory, bucket: u32): TrustHistory {
    if bucket > h.epoch
    then TrustHistory(bucket, ZERO_COUNTS, FoldCounts(h, DecaySteps(WrappingSub(bucket, h.epoch))))
    else h
  }

  /** `adjust_count`: prefer the raw count; otherwise take one scaled unit from the aggregate. */
  function Adjust(h: TrustHistory, x: Lane, increment: bool): TrustHistory {
    var c, a := Count(h.current, x), Count(h.aged, x);
    if increment then h.(current := WithCount(h.current, x, if c == U64_MAX then U64_MAX else c + 1))
    else if c > 0 then h.(current := WithCount(h.current, x, c - 1))
    else h.(aged := WithCount(h.aged, x, if a < SCALE then 0 else a - SCALE))
  }

  /**
   Adding an outcome adds exactly one scaled unit to its lane's undecayed value, unless the raw
   count is full; retracting one takes exactly one unit, or what is left of it. The other lanes
   and the bucket stay, and a retraction undoes an addition that was not full.
   */
  lemma AdjustMovesOneUnit(h: TrustHistory, x: Lane, increment: bool)
    ensures var g, full := Adjust(h, x, increment), Count(h.current, x) == U64_MAX;
            var w := Lead(Count(h.aged, x), Count(h.current, x));
            && Lead(Count(g.aged, x), Count(g.current, x))
               == (if increment then (if full then w else w + SCALE) else if w < SCALE then 0 else w - SCALE)
            && g.epoch == h.epoch
            && (forall y :: y != x ==>
                  Count(g.aged, y) == Count(h.aged, y) && Count(g.current, y) == Count(h.current, y))
            && (increment && !full ==> Adjust(g, x, false) == h)
  {
  }

  /** The stored row after `update_trust_history`. */
  function Updated(row: Option<TrustHistory>, x: Lane, increment: bool, ledger: u32): TrustHistory {
    var bucket := Bucket(ledger);
    var h := if row.Some? then row.value else TrustHistory(bucket, ZERO_COUNTS, ZERO_COUNTS);
    Adjust(FoldTo(h, bucket), x, increment)
  }

  /** A lane's undecayed value. */
  function Weight(row: Option<TrustHistory>, x: Lane): nat {
    if row.None? then 0 else Lead(Count(row.value.aged, x), Count(row.value.current, x))
  }

  /**
   Adding an outcome adds at most one scaled unit to its lane; retracting one removes at
   least one unit or empties the lane; the other lanes never grow.
   */
  lemma UpdateBoundsWeight(row: Option<TrustHistory>, x: Lane, increment: bool, ledger: u32, y: Lane)
    ensures var after := Weight(Some(Updated(row, x, increment, ledger)), y);
            && (y != x ==> after <= Weight(row, y))
            && (y == x && increment ==> after <= Weight(row, y) + SCALE)
            && (y == x && !increment ==> after + SCALE <= Weight(row, y) || after == 0)
  {
    var bucket := Bucket(ledger);
    var h := if row.Some? then row.value else TrustHistory(bucket, ZERO_COUNTS, ZERO_COUNTS);
    var f := FoldTo(h, bucket);
    if bucket > h.epoch {
      FoldNeverInflates(Count(h.aged, y), Count(h.current, y), DecaySteps(WrappingSub(bucket, h.epoch)));
    }
    assert Lead(Count(f.aged, y), Count(f.current, y)) <= Weight(row, y);
  }

  // -------------------------------------------------------------------- score

  function Effective(h: TrustHistory, x: Lane, steps: nat): nat {
    EffectiveValue(Count(h.aged, x), Count(h.current, x), steps)
  }

  function Balance(h: TrustHistory, steps: nat): int {
    FULFILLED_WEIGHT * Effective(h, Fulfilled, steps) - LATE_WEIGHT * Effective(h, Late, steps)
    - BREACH_WEIGHT * Effective(h, Breached, steps)
  }

  function ClampScore(raw: int): (score: u32)
    ensures 0 <= score <= 100
  {
    if raw <= 0 then 0 else if raw >= 100 then 100 else raw
  }

  /** The score `delta` buckets after the last write. */
  function ScoreAfter(h: TrustHistory, delta: u32): u32 {
    ClampScore((BASE_SCORE * SCALE + Balance(h, DecaySteps(delta))) / SCALE)
  }

  /** `get_trust_score`, on live rows. */
  function TrustScore(row: Option<TrustHistory>, ledger: u32): u32 {
    if row.None? then BASE_SCORE else ScoreAfter(row.value, WrappingSub(Bucket(ledger), row.value.epoch))
  }

  /** What is left of a lane at an age in buckets: halved every 64, gone from 2048 on, at scale 2^32. */
  function Remaining(aged: u64, current: u64, age: nat): nat {
    if age >= 2048 then 0
    else
      DivisionFacts(aged + current * 0x1_0000_0000, TwoTo(age / 64));
      (aged + current * 0x1_0000_0000) / TwoTo(age / 64)
  }

  /**
   The score in numbers: a baseline of 50, ten points for each fulfilled outcome, minus ten
   for each late and fifty for each breached one, each lane halved every 64 buckets of
   10000 ledgers, rounded down and kept between 0 and 100.
   */
  lemma ScoreFormula(h: TrustHistory, ledger: u32)
    requires h.epoch <= ledger / 10_000
    ensures var age := ledger / 10_000 - h.epoch;
            var raw := (50 * 0x1_0000_0000 + 10 * Remaining(h.aged.fulfilled, h.current.fulfilled, age)
                        - 10 * Remaining(h.aged.late, h.current.late, age)
                        - 50 * Remaining(h.aged.breached, h.current.breached, age)) / 0x1_0000_0000;
            TrustScore(Some(h), ledger) == if raw < 0 then 0 else if raw > 100 then 100 else raw
  {
    var age := ledger / 10_000 - h.epoch;
    RemainsEffective(h.aged.fulfilled, h.current.fulfilled, age);
    RemainsEffective(h.aged.late, h.current.late, age);
    RemainsEffective(h.aged.breached, h.current.breached, age);
    ScoredAtAge(h, ledger, age);
    ScoreFrom(h, age, Remaining(h.aged.fulfilled, h.current.fulfilled, age),
              Remaining(h.aged.late, h.current.late, age), Remaining(h.aged.breached, h.current.breached, age));
  }

  lemma ScoredAtAge(h: TrustHistory, ledger: u32, age: u32)
    requires age == ledger / 10_000 - h.epoch
    ensures TrustScore(Some(h), ledger) == ScoreAfter(h, age)
  {
  }

  lemma RemainsEffective(aged: u64, current: u64, age: u32)
    ensures EffectiveValue(aged, current, DecaySteps(age)) == Remaining(aged, current, age)
  {
    EffectiveIsShift(aged, current, DecaySteps(age));
  }

  lemma ScoreFrom(h: TrustHistory, age: u32, f: nat, l: nat, b: nat)
    requires f == Effective(h, Fulfilled, DecaySteps(age)) && l == Effective(h, Late, DecaySteps(age))
    requires b == Effective(h, Breached, DecaySteps(age))
    ensures var raw := (50 * 0x1_0000_0000 + 10 * f - 10 * l - 50 * b) / 0x1_0000_0000;
            ScoreAfter(h, age) == if raw < 0 then 0 else if raw > 100 then 100 else raw
  {
  }

  lemma WholeUnits(n: int)
    ensures n * 0x1_0000_0000 / 0x1_0000_0000 == n
  {
  }

  /** Within the bucket of its outcomes an unaged row scores their plain weighted sum. */
  lemma FreshCountsScore(f: u64, l: u64, b: u64, epoch: u32, ledger: u32)
    requires ledger / 10_000 == epoch
    ensures var raw := 50 + 10 * f - 10 * l - 50 * b;
            TrustScore(Some(TrustHistory(epoch, OutcomeCounts(f, l, b), OutcomeCounts(0, 0, 0))), ledger)
            == if raw < 0 then 0 else if raw > 100 then 100 else raw
  {
    ScoreFormula(TrustHistory(epoch, OutcomeCounts(f, l, b), OutcomeCounts(0, 0, 0)), ledger);
    assert TwoTo(0) == 1;
    WholeUnits(50 + 10 * f - 10 * l - 50 * b);
  }

  /** What a query at a ledger makes of a lane. */
  function Seen(row: Option<TrustHistory>, x: Lane, ledger: u32): nat {
    if row.None? then 0 else Effective(row.value, x, DecaySteps(WrappingSub(Bucket(ledger), row.value.epoch)))
  }

  /**
   An update at a ledger moves what a query at that ledger sees of its lane by exactly one
   unit, up, or down as far as zero, and of the other lanes by nothing; a fold first caps
   each lane at the u64 maximum, and a full raw count takes no more.
   */
  lemma UpdateMovesSeen(row: Option<TrustHistory>, x: Lane, increment: bool, ledger: u32, y: Lane)
    requires row.Some? ==> row.value.epoch <= Bucket(ledger)
    ensures var after := Updated(row, x, increment, ledger);
            var folds := row.Some? && row.value.epoch < Bucket(ledger);
            var before := if folds && Seen(row, y, ledger) > U64_MAX then U64_MAX else Seen(row, y, ledger);
            var full := row.Some? && !folds && Count(row.value.current, y) == U64_MAX;
            && after.epoch == Bucket(ledger)
            && Seen(Some(after), y, ledger)
               == if y != x || (increment && full) then before
                  else if increment then before + 0x1_0000_0000
                  else if before < 0x1_0000_0000 then 0 else before - 0x1_0000_0000
  {
    var bucket := Bucket(ledger);
    var h := if row.Some? then row.value else TrustHistory(bucket, ZERO_COUNTS, ZERO_COUNTS);
    var f := FoldTo(h, bucket);
    FoldSeen(h, ledger, y);
    if row.None? { SeenNow(h, y, ledger); }
    AdjustMovesOneUnit(f, x, increment);
    SeenNow(Adjust(f, x, increment), y, ledger);
  }

  lemma SeenNow(h: TrustHistory, y: Lane, ledger: u32)
    requires h.epoch == Bucket(ledger)
    ensures Seen(Some(h), y, ledger) == Lead(Count(h.aged, y), Count(h.current, y))
  {
    assert TwoTo(0) == 1;
    EffectiveIsShift(Count(h.aged, y), Count(h.current, y), 0);
  }

  lemma FoldSeen(h: TrustHistory, ledger: u32, y: Lane)
    requires h.epoch <= Bucket(ledger)
    ensures var f, seen := FoldTo(h, Bucket(ledger)), Seen(Some(h), y, ledger);
            && f.epoch == Bucket(ledger)
            && Lead(Count(f.aged, y), Count(f.current, y))
               == (if h.epoch < Bucket(ledger) && seen > U64_MAX then U64_MAX else seen)
            && Count(f.current, y) == if h.epoch < Bucket(ledger) then 0 else Count(h.current, y)
  {
    if h.epoch == Bucket(ledger) { SeenNow(h, y, ledger); }
  }

  const I128_MAX: nat := 0x7FFF_FFFF_FFFF_FFFF_FFFF_FFFF_FFFF_FFFF

  /** No intermediate of the score leaves i128. */
  lemma ScoreFitsI128(h: TrustHistory, x: Lane, steps: nat)
    ensures Count(h.aged, x) * DecayWeight(steps) <= I128_MAX
    ensures BASE_SCORE * SCALE + 50 * Effective(h, x, steps) <= I128_MAX / 4
    ensures 0 <= BASE_SCORE * SCALE + Balance(h, steps) + I128_MAX <= 2 * I128_MAX
  {
    LaneFits(Count(h.aged, x), Count(h.current, x), steps);
    LaneFits(h.aged.fulfilled, h.current.fulfilled, steps);
    LaneFits(h.aged.late, h.current.late, steps);
    LaneFits(h.aged.breached, h.current.breached, steps);
  }

  lemma LaneFits(aged: u64, current: u64, steps: nat)
    ensures aged * DecayWeight(steps) <= U64_MAX * SCALE
    ensures EffectiveValue(aged, current, steps) <= U64_MAX + U64_MAX * SCALE
  {
    EffectiveNonIncreasing(aged, current, 0, steps);
    assert DecayWeight(steps) <= SCALE by { if steps < 32 { DivideShrinks(SCALE, TwoTo(steps)); } }
    ProductBelow(aged, U64_MAX, DecayWeight(steps), SCALE);
    ProductBelow(current, U64_MAX, SCALE, SCALE);
  }

  lemma ProductBelow(a: nat, b: nat, c: nat, d: nat)
    requires a <= b && c <= d
    ensures a * c <= b * d
  {
    Distribute(a, b - a, d);
    Distribute(c, d - c, a);
    assert (b - a) * d >= 0 && a * (d - c) >= 0;
  }

  /** Fully decayed history scores the baseline: 2048 buckets after the last write, exactly 50. */
  lemma FullyDecayedScoresBase(row: Option<TrustHistory>, ledger: u32)
    requires row.Some? ==> WrappingSub(Bucket(ledger), row.value.epoch) >= 2048
    ensures TrustScore(row, ledger) == BASE_SCORE
  {
    if row.Some? { ScoresBaseAfter(row.value, WrappingSub(Bucket(ledger), row.value.epoch)); }
  }

  lemma ScoresBaseAfter(h: TrustHistory, delta: u32)
    requires delta >= 2048
    ensures ScoreAfter(h, delta) == BASE_SCORE
  {
    EffectiveIsShift(h.aged.fulfilled, h.current.fulfilled, 32);
    EffectiveIsShift(h.aged.late, h.current.late, 32);
    EffectiveIsShift(h.aged.breached, h.current.breached, 32);
    DivModUnique(BASE_SCORE * SCALE, SCALE, BASE_SCORE, 0);
  }

  /** One more halving step halves a lane, dropping at most half a unit. */
  lemma NextStepHalves(aged: nat, current: nat, steps: nat)
    requires steps < 31
    ensures EffectiveValue(aged, current, steps + 1) == EffectiveValue(aged, current, steps) / 2
  {
    EffectiveIsShift(aged, current, steps);
    EffectiveIsShift(aged, current, steps + 1);
    assert TwoTo(1) == 2;
    TwoToAdd(steps, 1);
    ShiftTwice(Lead(aged, current), TwoTo(steps), 2);
  }

  function FromBalance(v: int): u32 {
    ClampScore((BASE_SCORE * SCALE + v) / SCALE)
  }

  lemma FromBalanceFacts(v: int, w: int)
    ensures v <= w ==> FromBalance(v) <= FromBalance(w)
    ensures v < SCALE <==> FromBalance(v) <= BASE_SCORE
    ensures 0 <= v < SCALE ==> FromBalance(v) == BASE_SCORE
  {
  }

  /** At or below the baseline, a halving step does not lower the score. */
  lemma StepKeepsLowScore(h: TrustHistory, steps: nat)
    requires steps < 32 && Balance(h, steps) < SCALE
    ensures Balance(h, steps + 1) < SCALE
    ensures FromBalance(Balance(h, steps)) <= FromBalance(Balance(h, steps + 1))
  {
    var v, w := Balance(h, steps), Balance(h, steps + 1);
    if steps == 31 {
      EffectiveIsShift(h.aged.fulfilled, h.current.fulfilled, 32);
      EffectiveIsShift(h.aged.late, h.current.late, 32);
      EffectiveIsShift(h.aged.breached, h.current.breached, 32);
    } else {
      NextStepHalves(h.aged.fulfilled, h.current.fulfilled, steps);
      NextStepHalves(h.aged.late, h.current.late, steps);
      NextStepHalves(h.aged.breached, h.current.breached, steps);
      HalvedBalance(Effective(h, Fulfilled, steps), Effective(h, Late, steps), Effective(h, Breached, steps));
    }
    FromBalanceFacts(v, w);
    FromBalanceFacts(w, v);
  }

  lemma HalvedBalance(f: nat, l: nat, b: nat)
    ensures var v := 10 * f - 10 * l - 50 * b;
            var w := 10 * (f / 2) - 10 * (l / 2) - 50 * (b / 2);
            && (v <= 0 ==> v <= w <= 30)
            && (v > 0 ==> 0 <= w && 2 * w <= v + 60)
  {
  }

  lemma {:induction false} LowScoreNeverFalls(h: TrustHistory, s: nat, t: nat)
    requires s <= t <= 32 && Balance(h, s) < SCALE
    ensures FromBalance(Balance(h, s)) <= FromBalance(Balance(h, t)) && Balance(h, t) < SCALE
    decreases t
  {
    if s < t {
      LowScoreNeverFalls(h, s, t - 1);
      StepKeepsLowScore(h, t - 1);
    }
  }

  lemma LowScoreKept(h: TrustHistory, delta: u32, later: u32)
    requires delta <= later && ScoreAfter(h, delta) <= BASE_SCORE
    ensures ScoreAfter(h, delta) <= ScoreAfter(h, later)
  {
    FromBalanceFacts(Balance(h, DecaySteps(delta)), 0);
    StepsMonotone(delta, later);
    LowScoreNeverFalls(h, DecaySteps(delta), DecaySteps(later));
  }

  /** The ledgers in which a history decays completely. */
  const FULL_DECAY_LEDGERS: nat := 2048 * BUCKET_SIZE_LEDGERS

  lemma LowTrustScoreKept(row: Option<TrustHistory>, ledger: u32, later: u32)
    requires row.Some? ==> row.value.epoch <= Bucket(ledger)
    requires ledger <= later && TrustScore(row, ledger) <= BASE_SCORE
    ensures TrustScore(row, ledger) <= TrustScore(row, later)
  {
    if row.Some? {
      BucketsSince(row.value.epoch, ledger, later);
      LowScoreKept(row.value, Bucket(ledger) - row.value.epoch, Bucket(later) - row.value.epoch);
    }
  }

  lemma BucketsSince(epoch: u32, ledger: u32, later: u32)
    requires epoch <= Bucket(ledger) && ledger <= later
    ensures Bucket(ledger) <= Bucket(later)
    ensures WrappingSub(Bucket(ledger), epoch) == Bucket(ledger) - epoch
    ensures WrappingSub(Bucket(later), epoch) == Bucket(later) - epoch
  {
  }

  lemma HighTrustScoreFalls(row: Option<TrustHistory>, ledger: u32)
    requires row.Some? ==> row.value.epoch <= Bucket(ledger)
    requires ledger + FULL_DECAY_LEDGERS <= U32_MAX
    ensures TrustScore(row, ledger + FULL_DECAY_LEDGERS) == BASE_SCORE
  {
    if row.Some? {
      BucketsSince(row.value.epoch, ledger, ledger + FULL_DECAY_LEDGERS);
      assert Bucket(ledger + FULL_DECAY_LEDGERS) == Bucket(ledger) + 2048;
    }
    FullyDecayedScoresBase(row, ledger + FULL_DECAY_LEDGERS);
  }

  /**
   The documented claim that an untouched score never decreases holds from a given ledger on
   if and only if the score at that ledger is at most 50. The row was written at or before
   the ledger, and the ledger sequence has room for a full decay.
   */
  lemma ScoreNeverFallsIff(row: Option<TrustHistory>, ledger: u32)
    requires row.Some? ==> row.value.epoch <= Bucket(ledger)
    requires ledger + FULL_DECAY_LEDGERS <= U32_MAX
    ensures (forall later: u32 :: ledger <= later ==> TrustScore(row, ledger) <= TrustScore(row, later))
            <==> TrustScore(row, ledger) <= BASE_SCORE
  {
    if TrustScore(row, ledger) <= BASE_SCORE {
      forall later: u32 | ledger <= later ensures TrustScore(row, ledger) <= TrustScore(row, later) {
        LowTrustScoreKept(row, ledger, later);
      }
    } else {
      HighTrustScoreFalls(row, ledger);
    }
  }

  /** One fulfilled outcome scores 60 at first and 55 after 64 buckets. */
  lemma ScoreCanFall()
    ensures var row := Some(TrustHistory(0, OutcomeCounts(1, 0, 0), ZERO_COUNTS));
            TrustScore(row, 0) == 60 && TrustScore(row, 640_000) == 55
  {
    EffectiveIsShift(0, 1, 0);
    EffectiveIsShift(0, 1, 1);
    EffectiveIsShift(0, 0, 0);
    EffectiveIsShift(0, 0, 1);
    assert TwoTo(1) == 2;
  }
}
