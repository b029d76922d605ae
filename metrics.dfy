/** The latency tracker: a count, a running sum, a minimum and a maximum of
    recorded cycle counts, kept in u64 counters.

    The counters are atomics so that several threads can record; one thread
    at a time is modelled, and the compare-and-swap retry loops of `record`
    are replaced by their single-threaded effect (the first exchange
    succeeds). The ghost `Recorded` lists every value recorded since the last
    reset, in order. */
module Metrics {
  import opened Types

  /** The exact sum of the samples. */
  function Sum(s: seq<u64>): nat
  {
    if s == [] then 0 else Sum(s[..|s| - 1]) + s[|s| - 1]
  }

  /** The smallest sample, starting from the sentinel `u64::MAX`. */
  function Minimum(s: seq<u64>): u64
  {
    if s == [] then U64_MAX
    else
      var m := Minimum(s[..|s| - 1]);
      if s[|s| - 1] < m then s[|s| - 1] else m
  }

  /** The largest sample, starting from 0. */
  function Maximum(s: seq<u64>): u64
  {
    if s == [] then 0
    else
      var m := Maximum(s[..|s| - 1]);
      if s[|s| - 1] > m then s[|s| - 1] else m
  }

  /** The minimum is a sample and no sample is smaller. */
  lemma {:induction false} MinimumIsLeast(s: seq<u64>)
    ensures forall v :: v in s ==> Minimum(s) <= v
    ensures s != [] ==> Minimum(s) in s
  {
    if s != [] {
      var p := s[..|s| - 1];
      MinimumIsLeast(p);
      assert s == p + [s[|s| - 1]];
    }
  }

  /** The maximum is a sample and no sample is larger. */
  lemma {:induction false} MaximumIsGreatest(s: seq<u64>)
    ensures forall v :: v in s ==> v <= Maximum(s)
    ensures s != [] ==> Maximum(s) in s
  {
    if s != [] {
      var p := s[..|s| - 1];
      MaximumIsGreatest(p);
      assert s == p + [s[|s| - 1]];
    }
  }

  lemma MulMonotone(n: nat, a: int, b: int)
    ensures a <= b ==> n * a <= n * b
  {
  }

  lemma MulSucc(n: nat, a: int)
    ensures (n + 1) * a == n * a + a
  {
  }

  /** The sum lies between count × minimum and count × maximum. */
  lemma {:induction false} SumBetween(s: seq<u64>)
    ensures |s| * Minimum(s) <= Sum(s) <= |s| * Maximum(s)
  {
    if s != [] {
      var p, x := s[..|s| - 1], s[|s| - 1];
      var lo, hi := Minimum(s), Maximum(s);
      SumBetween(p);
      assert lo <= Minimum(p) && lo <= x;
      assert Maximum(p) <= hi && x <= hi;
      MulMonotone(|p|, lo, Minimum(p));
      MulMonotone(|p|, Maximum(p), hi);
      MulSucc(|p|, lo);
      MulSucc(|p|, hi);
      assert Sum(s) == Sum(p) + x;
    }
  }

  /** Integer division of a value between n·lo and n·hi lands between lo and hi. */
  lemma DivBetween(a: nat, n: nat, lo: nat, hi: nat)
    requires n > 0 && n * lo <= a <= n * hi
    ensures lo <= a / n <= hi
  {
    var q := a / n;
    assert n * q <= a < n * (q + 1);
    MulMonotone(n, q + 1, lo);
    MulMonotone(n, hi + 1, q);
    assert n * (hi + 1) == n * hi + n;
  }

  /** The truncated mean of a non-empty sample lies between its minimum and maximum. */
  lemma MeanBetween(s: seq<u64>)
    ensures s != [] ==> Minimum(s) <= Sum(s) / |s| <= Maximum(s)
  {
    if s != [] {
      SumBetween(s);
      DivBetween(Sum(s), |s|, Minimum(s), Maximum(s));
    }
  }

  /** What `stats` reports. */
  datatype LatencyStats = LatencyStats(count: u64, min: u64, max: u64, avg: u64)

  class LatencyTracker {
    var count: u64
    var sum: u64
    var min: u64
    var max: u64
    /** The values recorded since construction or the last reset. */
    ghost var Recorded: seq<u64>

    /** Every counter is a function of the recorded values: `count` and `sum`
        wrap around modulo 2^64 like `fetch_add`. */
    ghost predicate Valid()
      reads this
    {
      && count as int == |Recorded| % U64_MODULUS
      && sum as int == Sum(Recorded) % U64_MODULUS
      && min == Minimum(Recorded)
      && max == Maximum(Recorded)
    }

    /** `LatencyTracker::new`: nothing recorded, `min` at the sentinel `u64::MAX`. */
    constructor ()
      ensures Valid() && Recorded == []
      ensures count == 0 && sum == 0 && min == U64_MAX && max == 0
    {
      count, sum, min, max := 0, 0, U64_MAX, 0;
      Recorded := [];
    }

    /** `record`: bump the count, add to the sum, lower the minimum and raise
        the maximum when `cycles` goes beyond them. */
    method Record(cycles: u64)
      requires Valid()
      modifies this
      ensures Valid() && Recorded == old(Recorded) + [cycles]
    {
      AddMod(|Recorded|, 1);
      AddMod(Sum(Recorded), cycles);
      count := WrappingAdd(count, 1);
      sum := WrappingAdd(sum, cycles);
      if cycles < min {
        min := cycles;
      }
      if cycles > max {
        max := cycles;
      }
      Recorded := Recorded + [cycles];
      assert Recorded[..|Recorded| - 1] == old(Recorded);
    }

    /** `stats`: the count; the minimum, reported as 0 while it is still the
        sentinel; the maximum; and the truncated mean `sum / count` (0 when
        nothing is recorded). Every recorded value lies between the reported
        minimum and maximum, and while the count and sum have not wrapped the
        mean is the true truncated mean and lies between them too. */
    function Stats(): (r: LatencyStats)
      reads this
      requires Valid()
      ensures r.count as int == |Recorded| % U64_MODULUS
      ensures Recorded == [] ==> r == LatencyStats(0, 0, 0, 0)
      ensures forall v :: v in Recorded ==> r.min <= v <= r.max
      ensures Recorded != [] ==> r.max in Recorded
      ensures Recorded != [] ==> r.min in Recorded || (r.min == 0 && forall v :: v in Recorded ==> v == U64_MAX)
      ensures 0 < |Recorded| < U64_MODULUS && Sum(Recorded) < U64_MODULUS ==>
                r.avg as int == Sum(Recorded) / |Recorded| && r.min <= r.avg <= r.max
    {
      StatsReport(Recorded, count, sum, min, max);
      StatsOf(count, sum, min, max)
    }

    /** `reset`: back to the state of a new tracker. */
    method Reset()
      modifies this
      ensures Valid() && Recorded == []
      ensures count == 0 && sum == 0 && min == U64_MAX && max == 0
    {
      count, sum, min, max := 0, 0, U64_MAX, 0;
      Recorded := [];
    }
  }

  /** The arithmetic of `stats` on the four counters. */
  function StatsOf(count: u64, sum: u64, min: u64, max: u64): LatencyStats
  {
    var avg := if count > 0 then sum / count else 0;
    LatencyStats(count, if min == U64_MAX then 0 else min, max, avg)
  }

  /** What `stats` reports about counters that hold the sample `s`. */
  lemma StatsReport(s: seq<u64>, count: u64, sum: u64, min: u64, max: u64)
    requires count as int == |s| % U64_MODULUS && sum as int == Sum(s) % U64_MODULUS
    requires min == Minimum(s) && max == Maximum(s)
    ensures var r := StatsOf(count, sum, min, max);
            && r.count == count
            && (s == [] ==> r == LatencyStats(0, 0, 0, 0))
            && (forall v :: v in s ==> r.min <= v <= r.max)
            && (s != [] ==> r.max in s)
            && (s != [] ==> r.min in s || (r.min == 0 && forall v :: v in s ==> v == U64_MAX))
            && (0 < |s| < U64_MODULUS && Sum(s) < U64_MODULUS ==>
                  r.avg as int == Sum(s) / |s| && r.min <= r.avg <= r.max)
  {
    var r := StatsOf(count, sum, min, max);
    MinimumIsLeast(s);
    MaximumIsGreatest(s);
    if 0 < |s| < U64_MODULUS && Sum(s) < U64_MODULUS {
      ModUnique(|s|, 0, |s|, U64_MODULUS);
      ModUnique(Sum(s), 0, Sum(s), U64_MODULUS);
      MeanBetween(s);
      assert r.avg as int == Sum(s) / |s|;
    }
  }

  /** Recording 100, 200 and 50 reports count 3, min 50, max 200 and the
      truncated mean 116; after a reset everything reads 0. */
  method RecordThreeThenReset() returns (before: LatencyStats, after: LatencyStats)
    ensures before == LatencyStats(3, 50, 200, 116)
    ensures after == LatencyStats(0, 0, 0, 0)
  {
    var t := new LatencyTracker();
    t.Record(100);
    t.Record(200);
    t.Record(50);
    assert t.Recorded == [100, 200, 50];
    before := t.Stats();
    t.Reset();
    after := t.Stats();
  }
}
