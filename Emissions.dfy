/** The per-cycle arithmetic of the B3TR emissions simulator: the slider
    settings, the two decay rules, and the computation of one cycle's four
    pools (XAllocations, Vote2Earn, Treasury, GM-NFT). All amounts are in
    micro-units. */
module Emissions {
  import opened Rounding

  /** B3TR_CAP, the hard supply ceiling, in micro-units. */
  const Cap: int := 1000243154 * Micro
  /** INITIAL_X_APP_ALLOCATION, in micro-units. */
  const InitialAllocation: int := 2000000 * Micro
  /** The testnet migration airdrop counted toward the cap, in micro-units. */
  const MigrationAmount: int := 3750000 * Micro

  /** The sidebar settings. `treasuryPercentage` is held as the source holds
      it: the slider value times 100, later divided by 10000. */
  datatype Config = Config(
    xAllocationsDecay: int,
    xAllocationsDecayPeriod: int,
    vote2earnDecay: int,
    vote2earnDecayPeriod: int,
    maxVote2earnDecay: int,
    treasuryPercentage: int,
    gmNftStartRound: int,
    gmNftPercentage: int)

  /** The ranges the sliders and the number input allow. */
  predicate ValidConfig(c: Config)
  {
    && 0 <= c.xAllocationsDecay <= 100
    && 1 <= c.xAllocationsDecayPeriod <= 1000
    && 0 <= c.vote2earnDecay <= 100
    && 1 <= c.vote2earnDecayPeriod <= 100
    && 0 <= c.maxVote2earnDecay <= 100
    && 0 <= c.treasuryPercentage <= 10000 && c.treasuryPercentage % 100 == 0
    && 1 <= c.gmNftStartRound
    && 0 <= c.gmNftPercentage <= 100
  }

  /** The settings the sliders start at. */
  const DefaultConfig: Config := Config(4, 12, 20, 50, 80, 25 * 100, 44, 25)

  /** The starting settings are among those the sidebar allows. */
  lemma DefaultConfigIsValid()
    ensures ValidConfig(DefaultConfig)
  {
  }

  /** One row of the emissions table. */
  datatype CycleRecord = CycleRecord(
    cycle: int,
    xAllocations: int,
    vote2earn: int,
    treasury: int,
    gmNft: int,
    total: int,
    cumulative: int)

  /** The four pools of a record add up to its total. */
  predicate TotalIsSum(r: CycleRecord)
  {
    r.total == r.xAllocations + r.vote2earn + r.treasury + r.gmNft
  }

  /** No pool of a record is negative. */
  predicate NonNegativePools(r: CycleRecord)
  {
    0 <= r.xAllocations && 0 <= r.vote2earn && 0 <= r.treasury && 0 <= r.gmNft
  }

  /** Vote2Earn decay, a percentage: the decay per period times the whole
      periods elapsed since cycle 1, clamped to the maximum. It does not
      compound. */
  function Vote2EarnDecayPercentage(c: Config, cycle: int): (r: int)
    requires ValidConfig(c)
    ensures cycle <= 1 ==> r == 0
    ensures 0 <= r <= c.maxVote2earnDecay
    ensures cycle > 1 ==> r <= c.vote2earnDecay * ((cycle - 1) / c.vote2earnDecayPeriod)
  {
    if cycle <= 1 then 0
    else
      var decayPeriods := (cycle - 1) / c.vote2earnDecayPeriod;
      var decay := c.vote2earnDecay * decayPeriods;
      if decay < c.maxVote2earnDecay then decay else c.maxVote2earnDecay
  }

  /** True on the cycles whose XAllocations amount is decayed. */
  predicate IsDecayBoundary(c: Config, cycle: int)
    requires ValidConfig(c)
  {
    (cycle - 1) % c.xAllocationsDecayPeriod == 0
  }

  /** The XAllocations amount of `cycle` from that of the cycle before. */
  function NextXAllocation(c: Config, cycle: int, last: int): (r: int)
    requires ValidConfig(c)
    ensures cycle < 2 ==> r == InitialAllocation
    ensures cycle >= 2 && !IsDecayBoundary(c, cycle) ==> r == last
    ensures cycle >= 2 && IsDecayBoundary(c, cycle) ==>
      IsRounding(r, last * (100 - c.xAllocationsDecay), 100)
    ensures cycle >= 2 && last >= 0 ==> 0 <= r <= last
  {
    if cycle < 2 then InitialAllocation
    else if !IsDecayBoundary(c, cycle) then last
    else
      ShareBounds(last, 100 - c.xAllocationsDecay, 100);
      RoundDiv(last * (100 - c.xAllocationsDecay), 100)
  }

  /** The treasury share of a cycle's XAllocations and Vote2Earn, before the
      GM-NFT carve-out. */
  function TreasuryShare(c: Config, xAllocation: int, vote2earn: int): (r: int)
    requires ValidConfig(c)
    ensures IsRounding(r, (xAllocation + vote2earn) * c.treasuryPercentage, 10000)
    ensures xAllocation + vote2earn >= 0 ==> 0 <= r <= xAllocation + vote2earn
  {
    var base := xAllocation + vote2earn;
    ShareBounds(base, c.treasuryPercentage, 10000);
    RoundDiv(base * c.treasuryPercentage, 10000)
  }

  /** Cycle 1, appended without a cap check. */
  function Bootstrap(c: Config): (r: CycleRecord)
    requires ValidConfig(c)
    ensures r.cycle == 1
    ensures r.xAllocations == InitialAllocation && r.vote2earn == InitialAllocation
    ensures r.gmNft == 0
    ensures IsRounding(r.treasury, 2 * InitialAllocation * c.treasuryPercentage, 10000)
    ensures TotalIsSum(r) && r.cumulative == r.total
  {
    var x := InitialAllocation;
    var v := x;
    var treasury := TreasuryShare(c, x, v);
    var total := x + v + treasury + 0;
    CycleRecord(1, x, v, treasury, 0, total, total)
  }

  /** The candidate record for `cycle` (at least 2), given the previous
      cycle's XAllocations amount and the cumulative emissions so far:
      allocation, then Vote2Earn, then treasury, then the GM-NFT carve-out. */
  function Candidate(c: Config, cycle: int, lastAllocation: int, emitted: int): (r: CycleRecord)
    requires ValidConfig(c)
    ensures r.cycle == cycle
    ensures r.xAllocations == NextXAllocation(c, cycle, lastAllocation)
    ensures IsRounding(r.vote2earn,
                       r.xAllocations * (100 - Vote2EarnDecayPercentage(c, cycle)), 100)
    ensures cycle < c.gmNftStartRound ==>
              r.gmNft == 0 && r.treasury == TreasuryShare(c, r.xAllocations, r.vote2earn)
    ensures cycle >= c.gmNftStartRound ==>
              IsRounding(r.gmNft, TreasuryShare(c, r.xAllocations, r.vote2earn) * c.gmNftPercentage, 100)
    ensures r.treasury + r.gmNft == TreasuryShare(c, r.xAllocations, r.vote2earn)
    ensures TotalIsSum(r) && r.cumulative == emitted + r.total
  {
    var x := NextXAllocation(c, cycle, lastAllocation);
    var v := RoundDiv(x * (100 - Vote2EarnDecayPercentage(c, cycle)), 100);
    var share := TreasuryShare(c, x, v);
    var gm := if cycle >= c.gmNftStartRound then RoundDiv(share * c.gmNftPercentage, 100) else 0;
    var total := x + v + (share - gm) + gm;
    CycleRecord(cycle, x, v, share - gm, gm, total, emitted + total)
  }

  /** The candidate that follows record `prev`. */
  function Next(c: Config, prev: CycleRecord): CycleRecord
    requires ValidConfig(c)
  {
    Candidate(c, prev.cycle + 1, prev.xAllocations, prev.cumulative)
  }

  /** The cap check: a record is kept only if its cumulative emissions plus the
      migration amount stay within the cap. */
  predicate Fits(r: CycleRecord)
  {
    r.cumulative + MigrationAmount <= Cap
  }

  /** `Fits` is the loop's test read the other way round: the next candidate
      is kept exactly when the emissions so far, its total and the migration
      amount do not exceed the cap. */
  lemma CapCheck(c: Config, prev: CycleRecord)
    requires ValidConfig(c)
    ensures Fits(Next(c, prev)) <==> !(prev.cumulative + Next(c, prev).total + MigrationAmount > Cap)
  {
  }

  /** The XAllocations amount after `periods` whole decay periods. */
  function DecayedAllocation(c: Config, periods: nat): (r: int)
    requires ValidConfig(c)
    ensures 0 <= r <= InitialAllocation
  {
    if periods == 0 then InitialAllocation
    else
      var before := DecayedAllocation(c, periods - 1);
      ShareBounds(before, 100 - c.xAllocationsDecay, 100);
      RoundDiv(before * (100 - c.xAllocationsDecay), 100)
  }

  // ---------------------------------------------------------------------
  // Division facts used by the decay lemmas

  lemma DivMono(a: int, b: int, p: int)
    requires p > 0 && a <= b
    ensures a / p <= b / p
  {
    DivBounds(a, p);
    DivBounds(b, p);
    MulCancel(p, a / p, b / p + 1);
  }

  /** Stepping an index by one advances its quotient exactly when the new
      index is a multiple of the divisor. */
  lemma DivStep(i: int, p: int)
    requires p > 0
    ensures i % p == 0 ==> i / p == (i - 1) / p + 1
    ensures i % p != 0 ==> i / p == (i - 1) / p
    ensures i >= 1 ==> 0 <= (i - 1) / p
  {
    assert i == p * (i / p) + i % p;
    assert i - 1 == p * ((i - 1) / p) + (i - 1) % p;
    var q := (i - 1) / p;
    if (i - 1) % p == p - 1 {
      assert i == p * (q + 1) + 0;
      QuotientIsUnique(i, p, q + 1, 0);
    } else {
      assert i == p * q + ((i - 1) % p + 1);
      QuotientIsUnique(i, p, q, (i - 1) % p + 1);
    }
  }

  lemma QuotientIsUnique(a: int, p: int, q: int, m: int)
    requires p > 0 && 0 <= m < p && a == p * q + m
    ensures a / p == q && a % p == m
  {
    DivBounds(a, p);
    MulCancel(p, a / p, q + 1);
    MulCancel(p, q, a / p + 1);
  }

  // ---------------------------------------------------------------------
  // Vote2Earn decay percentage

  /** The decay percentage never goes down as cycles pass. */
  lemma Vote2EarnDecayMonotone(c: Config, c1: int, c2: int)
    requires ValidConfig(c) && c1 <= c2
    ensures Vote2EarnDecayPercentage(c, c1) <= Vote2EarnDecayPercentage(c, c2)
  {
    if c1 > 1 {
      var q1, q2 := (c1 - 1) / c.vote2earnDecayPeriod, (c2 - 1) / c.vote2earnDecayPeriod;
      DivMono(c1 - 1, c2 - 1, c.vote2earnDecayPeriod);
      MulMono(c.vote2earnDecay, q1, q2);
    }
  }

  /** The decay percentage changes from one cycle to the next only when the
      elapsed cycle count crosses a multiple of the period. */
  lemma Vote2EarnDecayStepsAtPeriods(c: Config, cycle: int)
    requires ValidConfig(c) && cycle >= 2
    requires (cycle - 1) % c.vote2earnDecayPeriod != 0
    ensures Vote2EarnDecayPercentage(c, cycle) == Vote2EarnDecayPercentage(c, cycle - 1)
  {
    DivStep(cycle - 1, c.vote2earnDecayPeriod);
  }

  /** Once the linear decay reaches the maximum, the percentage is the maximum. */
  lemma Vote2EarnDecaySaturates(c: Config, cycle: int)
    requires ValidConfig(c) && cycle > 1
    requires c.vote2earnDecay * ((cycle - 1) / c.vote2earnDecayPeriod) >= c.maxVote2earnDecay
    ensures Vote2EarnDecayPercentage(c, cycle) == c.maxVote2earnDecay
  {
  }

  /** With the default settings (20% per 50 cycles, at most 80%) the decay
      reaches 80% at cycle 201 and stays there. */
  lemma DefaultVote2EarnDecayCap(cycle: int)
    requires cycle >= 201
    ensures Vote2EarnDecayPercentage(DefaultConfig, cycle) == 80
    ensures Vote2EarnDecayPercentage(DefaultConfig, 200) == 60
  {
    DivMono(200, cycle - 1, 50);
    Vote2EarnDecaySaturates(DefaultConfig, cycle);
    assert Vote2EarnDecayPercentage(DefaultConfig, 200) == 60 by {
      QuotientIsUnique(199, 50, 3, 49);
    }
  }

  // ---------------------------------------------------------------------
  // XAllocations decay

  /** With no decay the allocation is carried over unchanged. */
  lemma NoDecayKeepsAllocation(c: Config, cycle: int, last: int)
    requires ValidConfig(c) && c.xAllocationsDecay == 0 && cycle >= 2
    ensures NextXAllocation(c, cycle, last) == last
  {
    RoundExact(last, 100);
  }

  /** A 100% decay empties the allocation on a boundary. */
  lemma FullDecayEmptiesAllocation(c: Config, cycle: int, last: int)
    requires ValidConfig(c) && c.xAllocationsDecay == 100 && cycle >= 2
    requires IsDecayBoundary(c, cycle)
    ensures NextXAllocation(c, cycle, last) == 0
  {
    RoundExact(0, 100);
  }

  /** The decayed allocation never increases with more elapsed periods. */
  lemma {:induction false} DecayedAllocationMonotone(c: Config, k1: nat, k2: nat)
    requires ValidConfig(c) && k1 <= k2
    ensures DecayedAllocation(c, k2) <= DecayedAllocation(c, k1)
  {
    if k1 < k2 {
      DecayedAllocationMonotone(c, k1, k2 - 1);
      var before := DecayedAllocation(c, k2 - 1);
      ShareBounds(before, 100 - c.xAllocationsDecay, 100);
    }
  }

  // ---------------------------------------------------------------------
  // One cycle

  /** From a non-negative previous allocation, every pool of a candidate is
      non-negative, Vote2Earn never exceeds XAllocations, and the cycle adds
      at least its XAllocations amount to the running total. */
  lemma CandidateBounds(c: Config, cycle: int, lastAllocation: int, emitted: int)
    requires ValidConfig(c) && cycle >= 2 && lastAllocation >= 0
    ensures var r := Candidate(c, cycle, lastAllocation, emitted);
      && 0 <= r.xAllocations <= lastAllocation
      && 0 <= r.vote2earn <= r.xAllocations
      && 0 <= r.treasury && 0 <= r.gmNft
      && r.xAllocations <= r.total
      && emitted <= r.cumulative
  {
    var r := Candidate(c, cycle, lastAllocation, emitted);
    ShareBounds(r.xAllocations, 100 - Vote2EarnDecayPercentage(c, cycle), 100);
    var share := TreasuryShare(c, r.xAllocations, r.vote2earn);
    ShareBounds(share, c.gmNftPercentage, 100);
  }

  /** While the decay percentage is 0, Vote2Earn equals XAllocations. */
  lemma Vote2EarnUndecayed(c: Config, cycle: int, lastAllocation: int, emitted: int)
    requires ValidConfig(c) && Vote2EarnDecayPercentage(c, cycle) == 0
    ensures var r := Candidate(c, cycle, lastAllocation, emitted);
      r.vote2earn == r.xAllocations
  {
    RoundExact(NextXAllocation(c, cycle, lastAllocation), 100);
  }

  /** The GM-NFT carve-out moves value from treasury to GM-NFT without
      changing the cycle total: the total is what it would be without it. */
  lemma CarveOutKeepsTotal(c: Config, cycle: int, lastAllocation: int, emitted: int)
    requires ValidConfig(c)
    ensures var r := Candidate(c, cycle, lastAllocation, emitted);
      r.total == r.xAllocations + r.vote2earn + TreasuryShare(c, r.xAllocations, r.vote2earn)
  {
  }
}
