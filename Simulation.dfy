/** The emissions simulation: a bootstrap cycle 1, then one candidate cycle
    after another, each kept only while the cumulative emissions plus the
    migration amount stay within the cap. The source loops `while True`; here
    the loop is also bounded by a last cycle `maxCycle`, because the source
    loop does not always end (see FullDecayNeverReachesCap). */
module Simulation {
  import opened Rounding
  import opened Emissions

  datatype StopReason =
    | CapReached   // the next candidate would exceed the cap
    | CycleLimit   // `maxCycle` was simulated without reaching the cap

  function Last(rs: seq<CycleRecord>): CycleRecord
    requires |rs| > 0
  {
    rs[|rs| - 1]
  }

  /** `rs` is a table the simulation can produce: the bootstrap record, then
      records each of which is the candidate following the one before and
      passed the cap check. */
  predicate IsTrace(c: Config, rs: seq<CycleRecord>)
  {
    && ValidConfig(c)
    && |rs| >= 1
    && rs[0] == Bootstrap(c)
    && forall i :: 1 <= i < |rs| ==> KeptAt(c, rs, i)
  }

  /** Record `i` of `rs` is the candidate that follows record `i - 1`, and it
      passed the cap check. */
  predicate KeptAt(c: Config, rs: seq<CycleRecord>, i: int)
  {
    && ValidConfig(c)
    && 1 <= i < |rs|
    && rs[i] == Next(c, rs[i - 1])
    && Fits(rs[i])
  }

  /** Runs the simulation up to cycle `maxCycle` at most. */
  method Simulate(c: Config, maxCycle: int) returns (records: seq<CycleRecord>, stop: StopReason)
    requires ValidConfig(c)
    ensures IsTrace(c, records)
    ensures stop == CapReached ==> !Fits(Next(c, Last(records)))
    ensures stop == CapReached ==> forall t :: IsTrace(c, t) ==> |t| <= |records|
    ensures stop == CycleLimit ==> |records| == if maxCycle <= 1 then 1 else maxCycle
    ensures |records| <= if maxCycle <= 1 then 1 else maxCycle
    ensures c.xAllocationsDecay == 0 && maxCycle > MaxCyclesWithoutDecay ==> stop == CapReached
    ensures c.xAllocationsDecay == 100 && c.xAllocationsDecayPeriod == 1 ==> stop == CycleLimit
  {
    var cycle := 2;
    var totalEmissions := 0;
    // bootstrap cycle 1
    var bootstrapX := InitialAllocation;
    var bootstrapVote2earn := bootstrapX;
    var bootstrapTreasury := RoundDiv((bootstrapX + bootstrapVote2earn) * c.treasuryPercentage, 10000);
    var bootstrapGmNft := 0;
    var bootstrapTotal := bootstrapX + bootstrapVote2earn + bootstrapTreasury + bootstrapGmNft;
    totalEmissions := bootstrapTotal;
    records := [CycleRecord(1, bootstrapX, bootstrapVote2earn, bootstrapTreasury, bootstrapGmNft,
                            bootstrapTotal, totalEmissions)];
    var lastX := InitialAllocation;

    stop := CycleLimit;
    while cycle <= maxCycle
      invariant 2 <= cycle == |records| + 1
      invariant cycle == 2 || cycle <= maxCycle + 1
      invariant IsTrace(c, records)
      invariant Last(records).cycle == cycle - 1
      invariant lastX == Last(records).xAllocations
      invariant totalEmissions == Last(records).cumulative
      decreases maxCycle - cycle
    {
      ghost var prev := Last(records);
      var x := NextXAllocation(c, cycle, lastX);
      lastX := x;
      var vote2earnDecayPct := Vote2EarnDecayPercentage(c, cycle);
      var vote2earn := RoundDiv(x * (100 - vote2earnDecayPct), 100);
      var treasury := RoundDiv((x + vote2earn) * c.treasuryPercentage, 10000);
      var gmNft := 0;
      if cycle >= c.gmNftStartRound {
        gmNft := RoundDiv(treasury * c.gmNftPercentage, 100);
        treasury := treasury - gmNft;
      }
      var cycleTotal := x + vote2earn + treasury + gmNft;
      if totalEmissions + cycleTotal + MigrationAmount > Cap {
        stop := CapReached;
        break;
      }
      totalEmissions := totalEmissions + cycleTotal;
      var record := CycleRecord(cycle, x, vote2earn, treasury, gmNft, cycleTotal, totalEmissions);
      assert record == Next(c, prev);
      TraceExtend(c, records, record);
      records := records + [record];
      cycle := cycle + 1;
    }

    if stop == CapReached {
      forall t | IsTrace(c, t) ensures |t| <= |records| {
        CapStopIsMaximal(c, records, t);
      }
    }
    if c.xAllocationsDecay == 0 {
      NoDecayTraceBound(c, records);
    }
    if c.xAllocationsDecay == 100 && c.xAllocationsDecayPeriod == 1 && stop == CapReached {
      FullDecayNeverReachesCap(c, records);
    }
  }

  // ---------------------------------------------------------------------
  // Properties of every trace

  /** What holds of record `i` of a trace: its cycle number, the allocation
      it carries (bounded, never above the one before, and equal to the
      allocation after its whole decay periods), its total and its
      cumulative emissions. */
  lemma {:induction false} TraceAt(c: Config, rs: seq<CycleRecord>, i: int)
    requires IsTrace(c, rs) && 0 <= i < |rs|
    ensures rs[i].cycle == i + 1
    ensures 0 <= rs[i].xAllocations <= InitialAllocation
    ensures rs[i].xAllocations == DecayedAllocation(c, i / c.xAllocationsDecayPeriod)
    ensures 0 <= rs[i].vote2earn && 0 <= rs[i].treasury && 0 <= rs[i].gmNft
    ensures TotalIsSum(rs[i])
    ensures i == 0 ==> rs[i].cumulative == rs[i].total
    ensures i > 0 ==> rs[i].cumulative == rs[i - 1].cumulative + rs[i].total
    ensures i > 0 ==> rs[i].xAllocations <= rs[i - 1].xAllocations
    ensures i > 0 ==> rs[i - 1].cumulative <= rs[i].cumulative
  {
    var p := c.xAllocationsDecayPeriod;
    if i == 0 {
      assert 0 / p == 0;
      TreasuryShareOfInitial(c);
    } else {
      TraceAt(c, rs, i - 1);
      assert KeptAt(c, rs, i);
      var prev := rs[i - 1];
      CandidateBounds(c, i + 1, prev.xAllocations, prev.cumulative);
      DivStep(i, p);
      if i % p != 0 {
        assert !IsDecayBoundary(c, i + 1);
      } else {
        assert IsDecayBoundary(c, i + 1);
        var before := DecayedAllocation(c, (i - 1) / p);
        RoundingIsUnique(rs[i].xAllocations, RoundDiv(before * (100 - c.xAllocationsDecay), 100),
                         before * (100 - c.xAllocationsDecay), 100);
      }
    }
  }

  /** Record `i` of a trace is for cycle `i + 1`. */
  lemma {:induction false} TraceCycle(c: Config, rs: seq<CycleRecord>, i: int)
    requires IsTrace(c, rs) && 0 <= i < |rs|
    ensures rs[i].cycle == i + 1
  {
    if i > 0 {
      TraceCycle(c, rs, i - 1);
      assert KeptAt(c, rs, i);
    }
  }

  lemma TreasuryShareOfInitial(c: Config)
    requires ValidConfig(c)
    ensures 0 <= TreasuryShare(c, InitialAllocation, InitialAllocation) <= 2 * InitialAllocation
  {
  }

  /** Along a trace XAllocations never increases and Cumulative never decreases. */
  lemma TraceMonotone(c: Config, rs: seq<CycleRecord>, i: int, j: int)
    requires IsTrace(c, rs) && 0 <= i <= j < |rs|
    ensures rs[j].xAllocations <= rs[i].xAllocations
    ensures rs[i].cumulative <= rs[j].cumulative
    decreases j - i
  {
    if i < j {
      TraceAt(c, rs, j);
      TraceMonotone(c, rs, i, j - 1);
    }
  }

  /** Every record kept after the bootstrap respects the cap. */
  lemma TraceRespectsCap(c: Config, rs: seq<CycleRecord>, i: int)
    requires IsTrace(c, rs) && 1 <= i < |rs|
    ensures rs[i].cumulative + MigrationAmount <= Cap
  {
    assert KeptAt(c, rs, i);
  }

  /** The bootstrap record itself is well within the cap, whatever the settings. */
  lemma BootstrapFits(c: Config)
    requires ValidConfig(c)
    ensures Fits(Bootstrap(c))
  {
    TreasuryShareOfInitial(c);
  }

  /** A prefix of a trace is a trace. */
  lemma TracePrefix(c: Config, rs: seq<CycleRecord>, n: int)
    requires IsTrace(c, rs) && 1 <= n <= |rs|
    ensures IsTrace(c, rs[..n])
  {
    forall i | 1 <= i < n ensures KeptAt(c, rs[..n], i) {
      assert KeptAt(c, rs, i);
      assert rs[..n][i] == rs[i] && rs[..n][i - 1] == rs[i - 1];
    }
  }

  /** A trace extended by the next candidate, when that passes the cap
      check, is a trace. */
  lemma TraceExtend(c: Config, rs: seq<CycleRecord>, r: CycleRecord)
    requires IsTrace(c, rs) && r == Next(c, Last(rs)) && Fits(r)
    ensures IsTrace(c, rs + [r])
  {
    var rs' := rs + [r];
    forall i | 1 <= i < |rs'| ensures KeptAt(c, rs', i) {
      if i < |rs| {
        assert KeptAt(c, rs, i);
        assert rs'[i] == rs[i] && rs'[i - 1] == rs[i - 1];
      } else {
        assert rs'[i - 1] == Last(rs) && rs'[i] == r;
      }
    }
  }

  /** The simulation is deterministic: of two traces for the same settings,
      the shorter is a prefix of the longer. */
  lemma {:induction false} TracesAgree(c: Config, a: seq<CycleRecord>, b: seq<CycleRecord>)
    requires IsTrace(c, a) && IsTrace(c, b) && |a| <= |b|
    ensures a == b[..|a|]
  {
    var n := |a|;
    if n > 1 {
      var a' := a[..n - 1];
      TracePrefix(c, a, n - 1);
      TracesAgree(c, a', b);
      assert KeptAt(c, a, n - 1) && KeptAt(c, b, n - 1);
      assert a[n - 2] == a'[n - 2] == b[n - 2];
      assert a == a' + [a[n - 1]];
      assert b[..n] == b[..n - 1] + [b[n - 1]];
    } else {
      assert a == [a[0]] && b[..1] == [b[0]];
    }
  }

  /** A longer trace continues a trace with its next candidate. */
  lemma LongerTraceContinues(c: Config, rs: seq<CycleRecord>, t: seq<CycleRecord>)
    requires IsTrace(c, rs) && IsTrace(c, t) && |t| > |rs|
    ensures t[|rs|] == Next(c, Last(rs)) && Fits(t[|rs|])
  {
    TracesAgree(c, rs, t);
    assert KeptAt(c, t, |rs|);
    assert t[|rs| - 1] == rs[|rs| - 1];
  }

  /** When the next candidate fails the cap check, no trace is longer: the
      table is the longest one the cap allows. */
  lemma CapStopIsMaximal(c: Config, rs: seq<CycleRecord>, t: seq<CycleRecord>)
    requires IsTrace(c, rs) && !Fits(Next(c, Last(rs)))
    requires IsTrace(c, t)
    ensures |t| <= |rs|
  {
    if |t| > |rs| {
      LongerTraceContinues(c, rs, t);
    }
  }

  // ---------------------------------------------------------------------
  // When the loop ends

  /** With no XAllocations decay every cycle emits at least the initial
      allocation, so no trace is longer than this many cycles. */
  const MaxCyclesWithoutDecay: int := 498

  lemma NoDecayTraceBound(c: Config, rs: seq<CycleRecord>)
    requires IsTrace(c, rs) && c.xAllocationsDecay == 0
    ensures |rs| <= MaxCyclesWithoutDecay
  {
    var n := |rs|;
    NoDecayCumulative(c, rs, n - 1);
    if n > 1 {
      assert KeptAt(c, rs, n - 1);
    }
  }

  lemma {:induction false} NoDecayCumulative(c: Config, rs: seq<CycleRecord>, i: int)
    requires IsTrace(c, rs) && c.xAllocationsDecay == 0 && 0 <= i < |rs|
    ensures rs[i].xAllocations == InitialAllocation
    ensures rs[i].cumulative >= (i + 1) * InitialAllocation
  {
    TraceAt(c, rs, i);
    if i > 0 {
      NoDecayCumulative(c, rs, i - 1);
      assert KeptAt(c, rs, i);
      NoDecayKeepsAllocation(c, i + 1, rs[i - 1].xAllocations);
      assert (i + 1) * InitialAllocation == i * InitialAllocation + InitialAllocation;
    }
  }

  /** With a 100% XAllocations decay every cycle, the allocation is 0 from
      cycle 2 on, every later cycle emits nothing, and every candidate passes
      the cap check: the source's `while True` then never ends. */
  lemma FullDecayNeverReachesCap(c: Config, rs: seq<CycleRecord>)
    requires IsTrace(c, rs) && c.xAllocationsDecay == 100 && c.xAllocationsDecayPeriod == 1
    ensures IsTrace(c, rs + [Next(c, Last(rs))])
  {
    FullDecayNextFits(c, rs);
    TraceExtend(c, rs, Next(c, Last(rs)));
  }

  lemma FullDecayNextFits(c: Config, rs: seq<CycleRecord>)
    requires IsTrace(c, rs) && c.xAllocationsDecay == 100 && c.xAllocationsDecayPeriod == 1
    ensures Fits(Next(c, Last(rs)))
  {
    FullDecayNextCumulative(c, rs);
    BootstrapFits(c);
  }

  lemma FullDecayNextCumulative(c: Config, rs: seq<CycleRecord>)
    requires IsTrace(c, rs) && c.xAllocationsDecay == 100 && c.xAllocationsDecayPeriod == 1
    ensures Next(c, Last(rs)).cumulative == rs[0].cumulative
  {
    var last := Last(rs);
    FullDecayCumulative(c, rs, |rs| - 1);
    TraceCycle(c, rs, |rs| - 1);
    var cycle := last.cycle + 1;
    assert NextXAllocation(c, cycle, last.xAllocations) == 0 by {
      assert (cycle - 1) % 1 == 0;
      FullDecayEmptiesAllocation(c, cycle, last.xAllocations);
    }
    ZeroAllocationEmitsNothing(c, cycle, last.xAllocations, last.cumulative);
  }

  lemma {:induction false} FullDecayCumulative(c: Config, rs: seq<CycleRecord>, i: int)
    requires IsTrace(c, rs) && c.xAllocationsDecay == 100 && c.xAllocationsDecayPeriod == 1
    requires 0 <= i < |rs|
    ensures rs[i].cumulative == rs[0].cumulative
    ensures i > 0 ==> rs[i].xAllocations == 0
  {
    if i > 0 {
      FullDecayCumulative(c, rs, i - 1);
      TraceAt(c, rs, i);
      assert KeptAt(c, rs, i);
      FullDecayEmptiesAllocation(c, i + 1, rs[i - 1].xAllocations);
      ZeroAllocationEmitsNothing(c, i + 1, rs[i - 1].xAllocations, rs[i - 1].cumulative);
    }
  }

  /** A cycle whose XAllocations amount is 0 emits nothing into any pool. */
  lemma ZeroAllocationEmitsNothing(c: Config, cycle: int, last: int, emitted: int)
    requires ValidConfig(c) && cycle >= 2 && NextXAllocation(c, cycle, last) == 0
    ensures Candidate(c, cycle, last, emitted).total == 0
    ensures Candidate(c, cycle, last, emitted).cumulative == emitted
    ensures var r := Candidate(c, cycle, last, emitted);
      r.xAllocations == 0 && r.vote2earn == 0 && r.treasury == 0 && r.gmNft == 0
  {
    var r := Candidate(c, cycle, last, emitted);
    var pct := Vote2EarnDecayPercentage(c, cycle);
    assert r.xAllocations * (100 - pct) == 0;
    RoundingIsUnique(r.vote2earn, 0, 0, 100);
    var share := TreasuryShare(c, 0, 0);
    RoundingIsUnique(share, 0, 0, 10000);
    RoundingIsUnique(r.treasury + r.gmNft, 0, 0, 10000);
    if cycle >= c.gmNftStartRound {
      RoundingIsUnique(r.gmNft, 0, 0, 100);
    }
  }
}
