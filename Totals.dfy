/** The read-only summary under the chart: each pool summed over the records
    up to a selected cycle, and the supply that implies once the migration
    amount is added. */
module Totals {
  import opened Emissions
  import opened Simulation

  datatype PoolTotals = PoolTotals(xAllocations: int, vote2earn: int, treasury: int, gmNft: int)

  function Sum(p: PoolTotals): int
  {
    p.xAllocations + p.vote2earn + p.treasury + p.gmNft
  }

  /** No pool total is negative. */
  predicate NonNegativeTotals(p: PoolTotals)
  {
    0 <= p.xAllocations && 0 <= p.vote2earn && 0 <= p.treasury && 0 <= p.gmNft
  }

  /** Every record of `rs` is for a cycle after `selected`. */
  predicate AllAfter(rs: seq<CycleRecord>, selected: int)
  {
    forall i :: 0 <= i < |rs| ==> rs[i].cycle > selected
  }

  /** No record of `rs` has a negative pool. */
  predicate AllNonNegative(rs: seq<CycleRecord>)
  {
    forall i :: 0 <= i < |rs| ==> NonNegativePools(rs[i])
  }

  /** Each pool summed over the records whose cycle is at most `selected`:
      nothing when no record is that early, and no pool negative when no
      record has a negative pool. */
  function PoolTotalsUpTo(rs: seq<CycleRecord>, selected: int): (p: PoolTotals)
    ensures AllAfter(rs, selected) ==> p == PoolTotals(0, 0, 0, 0)
    ensures AllNonNegative(rs) ==> NonNegativeTotals(p)
  {
    if rs == [] then PoolTotals(0, 0, 0, 0)
    else
      var before := PoolTotalsUpTo(rs[..|rs| - 1], selected);
      var r := rs[|rs| - 1];
      if r.cycle <= selected then
        PoolTotals(before.xAllocations + r.xAllocations, before.vote2earn + r.vote2earn,
                   before.treasury + r.treasury, before.gmNft + r.gmNft)
      else before
  }

  /** The displayed total supply: all pools up to `selected` plus the
      migration amount, so never below that amount when no pool is negative. */
  function TotalSupply(rs: seq<CycleRecord>, selected: int): (r: int)
    ensures AllNonNegative(rs) ==> r >= MigrationAmount
    ensures AllAfter(rs, selected) ==> r == MigrationAmount
  {
    Sum(PoolTotalsUpTo(rs, selected)) + MigrationAmount
  }

  /** Over a trace, the pools summed up to a selected cycle add up to that
      cycle's Cumulative, and the displayed supply is that plus the
      migration amount, within the cap. */
  lemma TotalsMatchCumulative(c: Config, rs: seq<CycleRecord>, selected: int)
    requires IsTrace(c, rs) && 1 <= selected <= |rs|
    ensures Sum(PoolTotalsUpTo(rs, selected)) == rs[selected - 1].cumulative
    ensures TotalSupply(rs, selected) == rs[selected - 1].cumulative + MigrationAmount
    ensures TotalSupply(rs, selected) <= Cap
    ensures NonNegativeTotals(PoolTotalsUpTo(rs, selected))
  {
    TracePoolsNonNegative(c, rs);
    LaterCyclesExcluded(c, rs, selected, |rs|);
    assert rs[..|rs|] == rs;
    PrefixSum(c, rs, selected, selected);
    if selected > 1 {
      TraceRespectsCap(c, rs, selected - 1);
    } else {
      BootstrapFits(c);
    }
  }

  /** No record of a trace has a negative pool. */
  lemma TracePoolsNonNegative(c: Config, rs: seq<CycleRecord>)
    requires IsTrace(c, rs)
    ensures AllNonNegative(rs)
  {
    forall i | 0 <= i < |rs| ensures NonNegativePools(rs[i]) {
      TraceAt(c, rs, i);
    }
  }

  /** Records after the selected cycle add nothing to the totals. */
  lemma {:induction false} LaterCyclesExcluded(c: Config, rs: seq<CycleRecord>, selected: int, n: int)
    requires IsTrace(c, rs) && 1 <= selected <= n <= |rs|
    ensures PoolTotalsUpTo(rs[..n], selected) == PoolTotalsUpTo(rs[..selected], selected)
    decreases n
  {
    if n > selected {
      TraceAt(c, rs, n - 1);
      assert rs[..n][..n - 1] == rs[..n - 1];
      LaterCyclesExcluded(c, rs, selected, n - 1);
    }
  }

  /** Over the first `n` records of a trace, none after the selected cycle,
      the four pools add up to the Cumulative of record `n`. */
  lemma {:induction false} PrefixSum(c: Config, rs: seq<CycleRecord>, selected: int, n: int)
    requires IsTrace(c, rs) && 1 <= n <= selected && n <= |rs|
    ensures Sum(PoolTotalsUpTo(rs[..n], selected)) == rs[n - 1].cumulative
    decreases n
  {
    var r := rs[n - 1];
    var before := PoolTotalsUpTo(rs[..n - 1], selected);
    assert Sum(PoolTotalsUpTo(rs[..n], selected)) == Sum(before) + r.total by {
      TraceAt(c, rs, n - 1);
      assert rs[..n][..n - 1] == rs[..n - 1] && rs[..n][n - 1] == r;
    }
    if n > 1 {
      PrefixSum(c, rs, selected, n - 1);
      TraceAt(c, rs, n - 1);
    } else {
      TraceAt(c, rs, 0);
    }
  }
}
