/** The schedule under the settings the sliders start at: 4% XAllocations
    decay every 12 cycles, 20% Vote2Earn decay every 50 cycles up to 80%,
    25% treasury, and a 25% GM-NFT share from round 44. */
module Scenario {
  import opened Rounding
  import opened Emissions
  import opened Simulation

  /** Cycle 1: 2,000,000 to XAllocations and to Vote2Earn, 1,000,000 to
      treasury, nothing to GM-NFT; 5,000,000 in all. */
  lemma DefaultBootstrap()
    ensures Bootstrap(DefaultConfig) ==
      CycleRecord(1, 2000000 * Micro, 2000000 * Micro, 1000000 * Micro, 0,
                  5000000 * Micro, 5000000 * Micro)
  {
    RoundExact(1000000 * Micro, 10000);
  }

  /** XAllocations stays at 2,000,000 for cycles 1 to 12 and is 1,920,000
      for cycles 13 to 24. */
  lemma DefaultAllocationSchedule(rs: seq<CycleRecord>, i: int)
    requires IsTrace(DefaultConfig, rs) && 0 <= i < |rs| && i < 24
    ensures i < 12 ==> rs[i].xAllocations == 2000000 * Micro
    ensures 12 <= i ==> rs[i].xAllocations == 1920000 * Micro
  {
    TraceAt(DefaultConfig, rs, i);
    if i < 12 {
      QuotientIsUnique(i, 12, 0, i);
    } else {
      QuotientIsUnique(i, 12, 1, i - 12);
      RoundExact(1920000 * Micro, 100);
      assert DecayedAllocation(DefaultConfig, 1) == RoundDiv(2000000 * Micro * 96, 100);
    }
  }

  /** GM-NFT receives nothing through cycle 43; from cycle 44 on it takes a
      quarter of the treasury share, and treasury keeps the rest. */
  lemma DefaultGmNftActivation(rs: seq<CycleRecord>, i: int)
    requires IsTrace(DefaultConfig, rs) && 1 <= i < |rs|
    ensures i < 43 ==> rs[i].gmNft == 0
    ensures 43 <= i ==>
      var share := TreasuryShare(DefaultConfig, rs[i].xAllocations, rs[i].vote2earn);
      IsRounding(rs[i].gmNft, share * 25, 100) && rs[i].treasury == share - rs[i].gmNft
  {
    TraceAt(DefaultConfig, rs, i);
    assert KeptAt(DefaultConfig, rs, i);
  }
}
