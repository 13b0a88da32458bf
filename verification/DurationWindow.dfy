/** The fixed ring of the most recent duration samples. */
module DurationWindow {
  import opened Wrappers
  import opened NearestRank

  const WINDOW: nat := 512
  const U32_MAX: nat := 0xFFFF_FFFF

  datatype LatencyPercentiles = LatencyPercentiles(p50: nat, p95: nat, p99: nat, samples: nat)

  /** Whole microseconds of a nanosecond duration, saturated to 32 bits. */
  function DurationMicros(nanoseconds: nat): nat {
    Min(nanoseconds / 1000, U32_MAX)
  }

  /** The newest samples a window can hold. */
  function Recent<T>(log: seq<T>): seq<T> {
    log[Max(0, |log| - WINDOW)..]
  }

  function WindowPercentile(sorted: seq<nat>, percentile: nat): nat {
    if sorted == [] then 0 else PercentileOf(sorted, percentile)
  }

  /** What a window over the log reports. */
  function PercentilesOf(log: seq<nat>): LatencyPercentiles {
    var sorted := Sorted(Recent(log));
    LatencyPercentiles(WindowPercentile(sorted, 50), WindowPercentile(sorted, 95),
                       WindowPercentile(sorted, 99), |Recent(log)|)
  }

  /** Cell `k % WINDOW` of the ring holds entry `k` of the log, for the newest entries. */
  ghost predicate RingHolds<T>(cells: seq<T>, log: seq<T>) {
    && |cells| == WINDOW
    && forall k :: Max(0, |log| - WINDOW) <= k < |log| ==> cells[k % WINDOW] == log[k]
  }

  lemma RingPush<T>(cells: seq<T>, log: seq<T>, x: T)
    requires RingHolds(cells, log)
    ensures RingHolds(cells[|log| % WINDOW := x], log + [x])
  {
  }

  lemma RingAdvance(n: nat)
    ensures (n % WINDOW + 1) % WINDOW == (n + 1) % WINDOW
  {
  }

  /** Read from the oldest live cell, a ring lists the newest entries of its log in order. */
  lemma RingInOrder<T>(cells: seq<T>, log: seq<T>)
    requires RingHolds(cells, log)
    ensures |log| < WINDOW ==> cells[..|log|] == Recent(log)
    ensures |log| >= WINDOW ==> cells[|log| % WINDOW..] + cells[..|log| % WINDOW] == Recent(log)
  {
    if |log| < WINDOW {
      forall i | 0 <= i < |log| ensures cells[i] == log[i] {
        assert i % WINDOW == i;
        assert cells[i % WINDOW] == log[i];
      }
    } else {
      var next := |log| % WINDOW;
      var rotated := cells[next..] + cells[..next];
      forall i | 0 <= i < WINDOW ensures rotated[i] == Recent(log)[i] {
        var k := |log| - WINDOW + i;
        assert cells[k % WINDOW] == log[k];
        assert k % WINDOW == if next + i < WINDOW then next + i else next + i - WINDOW;
      }
    }
  }

  class DurationRing {
    const values: array<nat>
    var next: nat
    var count: nat
    ghost var samples: seq<nat>

    ghost predicate Valid()
      reads this, values
    {
      && values.Length == WINDOW
      && next == |samples| % WINDOW
      && count == Min(|samples|, WINDOW)
      && RingHolds(values[..], samples)
    }

    constructor ()
      ensures Valid() && fresh(values) && samples == []
    {
      values := new nat[WINDOW](_ => 0);
      next, count, samples := 0, 0, [];
    }

    method Record(nanoseconds: nat)
      requires Valid()
      modifies this, values
      ensures Valid() && samples == old(samples) + [DurationMicros(nanoseconds)]
    {
      RingPush(values[..], samples, DurationMicros(nanoseconds));
      RingAdvance(|samples|);
      values[next] := DurationMicros(nanoseconds);
      next := (next + 1) % WINDOW;
      count := Min(count + 1, WINDOW);
      samples := samples + [DurationMicros(nanoseconds)];
    }

    method Percentiles() returns (r: LatencyPercentiles)
      requires Valid()
      ensures r == PercentilesOf(samples)
    {
      var sorted := Sorted(values[..count]);
      RingHoldsRecentSamples(values[..], samples);
      OrderedIsUnique(sorted, Sorted(Recent(samples)));
      r := LatencyPercentiles(WindowPercentile(sorted, 50), WindowPercentile(sorted, 95),
                              WindowPercentile(sorted, 99), count);
    }
  }

  /** As a multiset the live cells are exactly the newest samples. */
  lemma RingHoldsRecentSamples(cells: seq<nat>, samples: seq<nat>)
    requires RingHolds(cells, samples)
    ensures multiset(cells[..Min(|samples|, WINDOW)]) == multiset(Recent(samples))
  {
    RingInOrder(cells, samples);
    if |samples| >= WINDOW {
      var next := |samples| % WINDOW;
      assert cells == cells[..next] + cells[next..];
      assert cells[..WINDOW] == cells;
    }
  }

  /**
   What a window reports after any number of records: zeros when empty, otherwise three
   nearest-rank order statistics of the newest samples, in order.
   */
  lemma WindowReportsOrderStatistics(log: seq<nat>)
    ensures var r := PercentilesOf(log);
            && r.samples == (if |log| < 512 then |log| else 512)
            && Recent(log) == log[|log| - r.samples..]
            && r.p50 <= r.p95 <= r.p99
            && (log == [] ==> r == LatencyPercentiles(0, 0, 0, 0))
            && (log != [] ==>
                  && IsNearestRank(Recent(log), 50, r.p50)
                  && IsNearestRank(Recent(log), 95, r.p95)
                  && IsNearestRank(Recent(log), 99, r.p99))
  {
    if log != [] {
      var sorted := Sorted(Recent(log));
      PercentileIsNearestRank(Recent(log), 50);
      PercentileIsNearestRank(Recent(log), 95);
      PercentileIsNearestRank(Recent(log), 99);
      PercentilesAreMonotone(sorted, 50, 95);
      PercentilesAreMonotone(sorted, 95, 99);
    }
  }

  ghost predicate IsNearestRank(samples: seq<nat>, p: nat, v: nat) {
    && v in samples
    && 100 * CountAtMost(samples, v) >= p * |samples|
    && 100 * CountBelow(samples, v) < p * |samples|
  }
}
