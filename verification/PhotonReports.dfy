/**
 What an action-to-photon report says, in numbers: the outcome of every trial, the ranks of the
 percentiles, and the error of every recording that is not reported.
 */
module PhotonReports {
  import opened ActionPhoton
  import opened NearestRank
  import opened Wrappers

  // ------------------------------------------------------------------
  // One trial
  // ------------------------------------------------------------------

  /** Sample `k` is at or above the threshold, and the one before it below. */
  predicate LightsAt(run: seq<OpticalSample>, threshold: nat, k: nat) {
    1 <= k < |run| && run[k - 1].inputLed < threshold && run[k].inputLed >= threshold
  }

  predicate ShowsAt(run: seq<OpticalSample>, threshold: nat, k: nat) {
    1 <= k < |run| && run[k - 1].display < threshold && run[k].display >= threshold
  }

  predicate Timed(run: seq<OpticalSample>) {
    forall k: nat :: 1 <= k < |run| ==> run[k - 1].elapsed < run[k].elapsed
  }

  ghost predicate Lights(run: seq<OpticalSample>, threshold: nat) {
    exists k: nat :: LightsAt(run, threshold, k)
  }

  ghost predicate Shows(run: seq<OpticalSample>, threshold: nat) {
    exists k: nat :: ShowsAt(run, threshold, k)
  }

  lemma EdgesAre(run: seq<OpticalSample>, threshold: nat, k: nat)
    ensures EdgeAt(run, threshold, InputLed, k) <==> LightsAt(run, threshold, k)
    ensures EdgeAt(run, threshold, Display, k) <==> ShowsAt(run, threshold, k)
  {
  }

  lemma TimedIs(run: seq<OpticalSample>)
    ensures Increasing(run) <==> Timed(run)
  {
    if Timed(run) {
      forall i, j | 0 <= i && j == i + 1 < |run| ensures run[i].elapsed < run[j].elapsed {
        assert run[j - 1].elapsed < run[j].elapsed;
      }
    }
    if Increasing(run) {
      forall k: nat | 1 <= k < |run| ensures run[k - 1].elapsed < run[k].elapsed {
        var before := k - 1;
        assert run[before].elapsed < run[k].elapsed;
      }
    }
  }

  /** The first light of a trial, if there is one. */
  lemma FirstLight(run: seq<OpticalSample>, threshold: nat) returns (k: nat)
    ensures RisingEdge(run, threshold, InputLed).Some? <==> Lights(run, threshold)
    ensures Lights(run, threshold) ==>
              && LightsAt(run, threshold, k) && (forall j: nat :: j < k ==> !LightsAt(run, threshold, j))
              && RisingEdge(run, threshold, InputLed) == Some(run[k].elapsed)
  {
    hide RisingEdge;
    k := FirstEdge(run, threshold, InputLed);
    forall j: nat ensures EdgeAt(run, threshold, InputLed, j) <==> LightsAt(run, threshold, j) {
      EdgesAre(run, threshold, j);
    }
  }

  lemma FirstShow(run: seq<OpticalSample>, threshold: nat) returns (k: nat)
    ensures RisingEdge(run, threshold, Display).Some? <==> Shows(run, threshold)
    ensures Shows(run, threshold) ==>
              && ShowsAt(run, threshold, k) && (forall j: nat :: j < k ==> !ShowsAt(run, threshold, j))
              && RisingEdge(run, threshold, Display) == Some(run[k].elapsed)
  {
    hide RisingEdge;
    k := FirstEdge(run, threshold, Display);
    forall j: nat ensures EdgeAt(run, threshold, Display, j) <==> ShowsAt(run, threshold, j) {
      EdgesAre(run, threshold, j);
    }
  }

  lemma FirstEdge(run: seq<OpticalSample>, threshold: nat, channel: Channel) returns (k: nat)
    ensures RisingEdge(run, threshold, channel).Some? <==> exists j: nat :: EdgeAt(run, threshold, channel, j)
    ensures RisingEdge(run, threshold, channel).Some? ==>
              && EdgeAt(run, threshold, channel, k) && (forall j: nat :: j < k ==> !EdgeAt(run, threshold, channel, j))
              && RisingEdge(run, threshold, channel).value == run[k].elapsed
  {
    hide RisingEdge, EdgeAt;
    k := 0;
    forall j: nat | EdgeAt(run, threshold, channel, j) ensures 1 <= j < |run| {
      EdgeInRun(run, threshold, channel, j);
    }
    if RisingEdge(run, threshold, channel).Some? {
      var first :| 1 <= first < |run| && EdgeAt(run, threshold, channel, first)
                   && RisingEdge(run, threshold, channel).value == run[first].elapsed
                   && forall j :: 1 <= j < first ==> !EdgeAt(run, threshold, channel, j);
      k := first;
    }
  }

  /** The outcome of a trial: the first of its faults, or the time from its first light to its first show. */
  lemma TrialOutcome(run: seq<OpticalSample>, threshold: nat) returns (light: nat, show: nat)
    requires run != []
    ensures Lights(run, threshold) ==> LightsAt(run, threshold, light) && forall j: nat :: j < light ==> !LightsAt(run, threshold, j)
    ensures Shows(run, threshold) ==> ShowsAt(run, threshold, show) && forall j: nat :: j < show ==> !ShowsAt(run, threshold, j)
    ensures var outcome, trial := TrialLatency(run, threshold), run[0].trial;
            if |run| > 16384 then outcome == Err(TooManySamples)
            else if !Timed(run) then outcome == Err(TrialOrder(trial))
            else if !Lights(run, threshold) then outcome == Err(MissingInputEdge(trial))
            else if !Shows(run, threshold) then outcome == Err(MissingDisplayEdge(trial))
            else if run[show].elapsed < run[light].elapsed then outcome == Err(DisplayPrecedesInput(trial))
            else outcome == Ok(run[show].elapsed - run[light].elapsed)
  {
    hide RisingEdge, Increasing, Timed, Lights, Shows, LightsAt, ShowsAt;
    TimedIs(run);
    light := FirstLight(run, threshold);
    show := FirstShow(run, threshold);
    if Lights(run, threshold) {
      LightIsInside(run, threshold, light);
    }
    if Shows(run, threshold) {
      ShowIsInside(run, threshold, show);
    }
  }

  lemma LightIsInside(run: seq<OpticalSample>, threshold: nat, k: nat)
    requires LightsAt(run, threshold, k)
    ensures k < |run|
  {
  }

  lemma ShowIsInside(run: seq<OpticalSample>, threshold: nat, k: nat)
    requires ShowsAt(run, threshold, k)
    ensures k < |run|
  {
  }

  // ------------------------------------------------------------------
  // The statistics
  // ------------------------------------------------------------------

  /** At least `p` in a hundred of the samples are at or below the value, and fewer than `p` below it. */
  predicate HasRank(samples: seq<nat>, p: nat, v: nat) {
    && v in samples
    && 100 * CountAtMost(samples, v) >= p * |samples|
    && 100 * CountBelow(samples, v) < p * |samples|
  }

  /** Only one value has a rank. */
  lemma RankIsUnique(samples: seq<nat>, p: nat, v: nat, w: nat)
    requires HasRank(samples, p, v) && HasRank(samples, p, w)
    ensures v == w
  {
    if v < w {
      AtMostIsBelow(samples, v, w);
    } else if w < v {
      AtMostIsBelow(samples, w, v);
    }
  }

  lemma {:induction false} AtMostIsBelow(samples: seq<nat>, v: nat, w: nat)
    requires v < w
    ensures CountAtMost(samples, v) <= CountBelow(samples, w)
  {
    if samples != [] {
      AtMostIsBelow(samples[..|samples| - 1], v, w);
    }
  }

  /** The six numbers of a report: the 50, 95 and 99 percent ranks, the ends, and how many. */
  lemma SummaryInNumbers(latencies: seq<nat>)
    requires latencies != []
    ensures var r := Summary(latencies);
            && HasRank(latencies, 50, r.p50) && HasRank(latencies, 95, r.p95) && HasRank(latencies, 99, r.p99)
            && r.minimum in latencies && r.maximum in latencies && (forall v :: v in latencies ==> r.minimum <= v <= r.maximum)
            && r.trials == |latencies|
  {
    hide CountAtMost, CountBelow, Sorted, PercentileOf;
    PercentileIsNearestRank(latencies, 50);
    PercentileIsNearestRank(latencies, 95);
    PercentileIsNearestRank(latencies, 99);
    SummaryIsOrdered(latencies);
  }

  // ------------------------------------------------------------------
  // The recording
  // ------------------------------------------------------------------

  lemma HeadersComeFirst(f: Fixture)
    ensures f.schema != 1 ==> Analysis(f) == Err(WrongSchema(f.schema))
    ensures f.schema == 1 && (f.width == 0 || f.height == 0 || f.refresh == 0) ==> Analysis(f) == Err(InvalidDisplayMode)
    ensures f.schema == 1 && f.width > 0 && f.height > 0 && f.refresh > 0 && f.interval == 0 ==>
              Analysis(f) == Err(InvalidSampleInterval)
    ensures WellFormed(f) <==> f.schema == 1 && f.width > 0 && f.height > 0 && f.refresh > 0 && f.interval > 0
    ensures WellFormed(f) && |f.samples| > 67108864 ==> Analysis(f) == Err(TooManySamples)
  {
    hide Collected, Runs;
  }

  lemma TooManyAreRefused(runs: seq<seq<OpticalSample>>, threshold: nat, taken: seq<nat>)
    requires Nonempty(runs) && |taken| <= MAX_PHYSICAL_TRIALS < |taken| + |runs|
    requires forall i :: 0 <= i < MAX_PHYSICAL_TRIALS - |taken| ==> Measurable(runs[i], threshold)
    ensures Collected(runs, threshold, taken) == Err(TooManyTrials)
    decreases |runs|
  {
    hide TrialLatency;
    if |taken| < MAX_PHYSICAL_TRIALS {
      assert Measurable(runs[0], threshold);
      TooManyAreRefused(runs[1..], threshold, taken + [Measured(runs[0], threshold)]);
    }
  }

  /**
   The outcome of a recording with sound headers, for the one way to cut it into trials: the
   error of the first trial that has one, the trial cap if 4096 others come before, the error of a
   missing edge if there is no trial, and otherwise the report on one latency per trial.
   */
  lemma RecordingOutcome(f: Fixture, trials: seq<seq<OpticalSample>>)
    requires WellFormed(f) && |f.samples| <= 67108864 && Segmented(trials) && Flat(trials) == f.samples
    ensures trials == [] ==> Analysis(f) == Err(MissingInputEdge(0))
    ensures forall bad: nat ::
              bad < |trials| && bad < 4096 && (forall i :: 0 <= i < bad ==> Measurable(trials[i], f.threshold))
              && trials[bad] != [] && TrialLatency(trials[bad], f.threshold).Err? ==>
                Analysis(f) == Err(TrialLatency(trials[bad], f.threshold).error)
    ensures |trials| > 4096 && (forall i :: 0 <= i < 4096 ==> Measurable(trials[i], f.threshold)) ==>
              Analysis(f) == Err(TooManyTrials)
    ensures 1 <= |trials| <= 4096 && AllMeasurable(trials, f.threshold) ==>
              Analysis(f) == Ok(Summary(Gaps(trials, f.threshold)))
  {
    hide Collected, Runs, Flat, Segmented, TrialLatency, Gaps, Summary, AllMeasurable;
    SegmentationIsUnique(trials);
    RunsAreNonempty(f.samples);
    ReportsExactlyMeasurableRecordings(f);
    CollectedIs(trials, f.threshold, []);
    forall bad: nat | bad < |trials| && bad < 4096 && (forall i :: 0 <= i < bad ==> Measurable(trials[i], f.threshold))
                      && trials[bad] != [] && TrialLatency(trials[bad], f.threshold).Err?
      ensures Analysis(f) == Err(TrialLatency(trials[bad], f.threshold).error)
    {
      FirstBadTrialIsReported(trials, f.threshold, [], bad);
    }
    if |trials| > 4096 && (forall i :: 0 <= i < 4096 ==> Measurable(trials[i], f.threshold)) {
      TooManyAreRefused(trials, f.threshold, []);
    }
    if trials == [] {
      NothingCollected(f.threshold);
    }
  }

  lemma NothingCollected(threshold: nat)
    ensures Nonempty([]) && Collected([], threshold, []) == Ok([])
  {
  }
}
