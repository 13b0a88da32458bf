/** The optical action-to-photon fixture: segmenting trials, finding edges, reporting latencies. */
module ActionPhoton {
  import opened NearestRank
  import opened Wrappers

  const SCHEMA_VERSION: nat := 1
  const MAX_PHYSICAL_TRIALS: nat := 4096
  const MAX_SAMPLES_PER_TRIAL: nat := 16384

  datatype OpticalSample = OpticalSample(trial: nat, elapsed: nat, inputLed: nat, display: nat)

  datatype Channel = InputLed | Display

  datatype Fixture = Fixture(
    schema: nat, width: nat, height: nat, refresh: nat, interval: nat, threshold: nat, samples: seq<OpticalSample>)

  datatype PhysicalLatency = PhysicalLatency(
    p50: nat, p95: nat, p99: nat, minimum: nat, maximum: nat, trials: nat)

  datatype PhotonError =
    | WrongSchema(version: nat)
    | InvalidDisplayMode
    | InvalidSampleInterval
    | TooManySamples
    | TooManyTrials
    | TrialOrder(trial: nat)
    | MissingInputEdge(trial: nat)
    | MissingDisplayEdge(trial: nat)
    | DisplayPrecedesInput(trial: nat)

  // ------------------------------------------------------------------
  // Trials
  // ------------------------------------------------------------------

  predicate SameTrial(run: seq<OpticalSample>) {
    forall i, j :: 0 <= i < |run| && 0 <= j < |run| ==> run[i].trial == run[j].trial
  }

  /** How many samples the first trial takes. */
  function LeadingRun(s: seq<OpticalSample>): (n: nat)
    requires s != []
    ensures 1 <= n <= |s| && SameTrial(s[..n])
    ensures n < |s| ==> s[n].trial != s[0].trial
  {
    if |s| == 1 || s[1].trial != s[0].trial then 1
    else
      var n := 1 + LeadingRun(s[1..]);
      assert forall i :: 0 < i < n ==> s[..n][i] == s[1..][..n - 1][i - 1];
      n
  }

  lemma LeadingRunIs(s: seq<OpticalSample>, n: nat)
    requires 1 <= n <= |s| && forall k :: 0 <= k < n ==> s[k].trial == s[0].trial
    requires n < |s| ==> s[n].trial != s[0].trial
    ensures LeadingRun(s) == n
  {
    var m := LeadingRun(s);
    forall k | 0 <= k < m ensures s[k].trial == s[0].trial {
      assert s[..m][k].trial == s[..m][0].trial;
    }
  }

  /** The trials: maximal stretches of one trial id. */
  function Runs(s: seq<OpticalSample>): seq<seq<OpticalSample>> {
    if s == [] then [] else
      var n := LeadingRun(s);
      [s[..n]] + Runs(s[n..])
  }

  function Flat(runs: seq<seq<OpticalSample>>): seq<OpticalSample> {
    if runs == [] then [] else runs[0] + Flat(runs[1..])
  }

  /** Nonempty single-trial stretches whose neighbours belong to different trials. */
  predicate Segmented(runs: seq<seq<OpticalSample>>) {
    && (forall i :: 0 <= i < |runs| ==> runs[i] != [] && SameTrial(runs[i]))
    && (forall i, j :: 0 <= i && j == i + 1 < |runs| ==> runs[i][0].trial != runs[j][0].trial)
  }

  lemma {:induction false} FlatStart(runs: seq<seq<OpticalSample>>)
    requires runs != [] && runs[0] != []
    ensures Flat(runs) != [] && Flat(runs)[0] == runs[0][0]
  {
  }

  lemma SegmentedWith(run: seq<OpticalSample>, rest: seq<seq<OpticalSample>>)
    requires run != [] && SameTrial(run) && Segmented(rest)
    requires rest != [] ==> rest[0][0].trial != run[0].trial
    ensures Segmented([run] + rest)
  {
    hide SameTrial;
    var runs: seq<seq<OpticalSample>> := [run] + rest;
    forall i, j | 0 <= i && j == i + 1 < |runs| ensures runs[i][0].trial != runs[j][0].trial {
      if i > 0 {
        var k := i - 1;
        assert rest[k][0].trial != rest[i][0].trial;
      }
    }
  }

  /** The trials of a recording put together again are the recording. */
  lemma {:induction false} RunsSegment(s: seq<OpticalSample>)
    ensures Segmented(Runs(s)) && Flat(Runs(s)) == s
    ensures s != [] ==> Runs(s) != [] && Runs(s)[0] != [] && Runs(s)[0][0] == s[0]
  {
    hide Segmented, SameTrial, LeadingRun, Flat;
    if s != [] {
      var n := LeadingRun(s);
      RunsSegment(s[n..]);
      SegmentedWith(s[..n], Runs(s[n..]));
      FlatWith(s[..n], Runs(s[n..]));
      assert s == s[..n] + s[n..];
    } else {
      NothingSegmented();
    }
  }

  lemma NothingSegmented()
    ensures Segmented([]) && Flat([]) == []
  {
  }

  lemma FlatWith(run: seq<OpticalSample>, rest: seq<seq<OpticalSample>>)
    ensures Flat([run] + rest) == run + Flat(rest)
  {
    assert ([run] + rest)[1..] == rest;
  }

  /** And there is no other way to cut a recording into maximal single-trial stretches. */
  lemma {:induction false} SegmentationIsUnique(runs: seq<seq<OpticalSample>>)
    requires Segmented(runs)
    ensures Runs(Flat(runs)) == runs
  {
    if runs != [] {
      var s, n := Flat(runs), |runs[0]|;
      forall i, j | 0 <= i && j == i + 1 < |runs[1..]| ensures runs[1..][i][0].trial != runs[1..][j][0].trial {
        assert runs[1..][i] == runs[i + 1] && runs[1..][j] == runs[j + 1];
      }
      SegmentationIsUnique(runs[1..]);
      assert s[..n] == runs[0] && s[n..] == Flat(runs[1..]);
      if |runs| > 1 {
        FlatStart(runs[1..]);
        var one := 1;
        assert runs[0][0].trial != runs[one][0].trial;
      }
      LeadingRunIs(s, n);
    }
  }

  // ------------------------------------------------------------------
  // Edges
  // ------------------------------------------------------------------

  function Level(sample: OpticalSample, channel: Channel): nat {
    match channel case InputLed => sample.inputLed case Display => sample.display
  }

  predicate EdgeAt(run: seq<OpticalSample>, threshold: nat, channel: Channel, k: nat) {
    0 < k < |run| && Level(run[k - 1], channel) < threshold <= Level(run[k], channel)
  }

  /** The time of the first upward crossing at or after sample `from`. */
  function RisingEdge(run: seq<OpticalSample>, threshold: nat, channel: Channel, from: nat := 1): (r: Option<nat>)
    ensures r.None? ==> forall k :: from <= k < |run| ==> !EdgeAt(run, threshold, channel, k)
    ensures r.Some? ==> exists k :: from <= k < |run| && EdgeAt(run, threshold, channel, k) && r.value == run[k].elapsed
                          && forall j :: from <= j < k ==> !EdgeAt(run, threshold, channel, j)
    decreases |run| - from
  {
    if from >= |run| then None
    else if EdgeAt(run, threshold, channel, from) then Some(run[from].elapsed)
    else RisingEdge(run, threshold, channel, from + 1)
  }

  predicate Increasing(run: seq<OpticalSample>) {
    forall i, j :: 0 <= i && j == i + 1 < |run| ==> run[i].elapsed < run[j].elapsed
  }

  lemma {:induction false} IncreasingAcross(run: seq<OpticalSample>, i: nat, j: nat)
    requires Increasing(run) && i < j < |run|
    ensures run[i].elapsed < run[j].elapsed
    decreases j - i
  {
    var k := j - 1;
    assert run[k].elapsed < run[j].elapsed;
    if i < k {
      IncreasingAcross(run, i, k);
    }
  }

  function TrialLatency(run: seq<OpticalSample>, threshold: nat): Result<nat, PhotonError>
    requires run != []
  {
    var trial := run[0].trial;
    if |run| > MAX_SAMPLES_PER_TRIAL then Err(TooManySamples)
    else if !Increasing(run) then Err(TrialOrder(trial))
    else match RisingEdge(run, threshold, InputLed)
      case None => Err(MissingInputEdge(trial))
      case Some(input) =>
        match RisingEdge(run, threshold, Display)
        case None => Err(MissingDisplayEdge(trial))
        case Some(display) =>
          if display < input then Err(DisplayPrecedesInput(trial)) else Ok(display - input)
  }

  /** `t` is when the channel crosses the threshold upward for the first time. */
  ghost predicate FirstCrossing(run: seq<OpticalSample>, threshold: nat, channel: Channel, t: nat) {
    && (exists k: nat :: EdgeAt(run, threshold, channel, k) && run[k].elapsed == t)
    && (forall k: nat :: EdgeAt(run, threshold, channel, k) ==> t <= run[k].elapsed)
  }

  lemma EdgeInRun(run: seq<OpticalSample>, threshold: nat, channel: Channel, k: nat)
    requires EdgeAt(run, threshold, channel, k)
    ensures 1 <= k < |run|
  {
  }

  lemma RisingEdgeIsEarliest(run: seq<OpticalSample>, threshold: nat, channel: Channel)
    requires Increasing(run)
    ensures forall t: nat :: FirstCrossing(run, threshold, channel, t) <==> RisingEdge(run, threshold, channel) == Some(t)
  {
    hide EdgeAt, Increasing, RisingEdge;
    var r := RisingEdge(run, threshold, channel);
    forall k: nat | EdgeAt(run, threshold, channel, k) ensures 1 <= k < |run| && r.Some? && r.value <= run[k].elapsed {
      EdgeInRun(run, threshold, channel, k);
      var first :| 1 <= first < |run| && EdgeAt(run, threshold, channel, first) && r.value == run[first].elapsed
                   && forall j :: 1 <= j < first ==> !EdgeAt(run, threshold, channel, j);
      if first < k {
        IncreasingAcross(run, first, k);
      }
    }
    assert r.Some? ==> FirstCrossing(run, threshold, channel, r.value);
  }

  /** A trial yields a latency exactly when it is bounded, ordered and lit before it is shown. */
  lemma LatencyIsDisplayMinusInput(run: seq<OpticalSample>, threshold: nat, v: nat)
    requires run != []
    ensures TrialLatency(run, threshold) == Ok(v) <==>
            && |run| <= MAX_SAMPLES_PER_TRIAL && Increasing(run)
            && exists input: nat, display: nat ::
                 && FirstCrossing(run, threshold, InputLed, input) && FirstCrossing(run, threshold, Display, display)
                 && display - input == v
  {
    hide FirstCrossing, RisingEdge, Increasing;
    if Increasing(run) {
      RisingEdgeIsEarliest(run, threshold, InputLed);
      RisingEdgeIsEarliest(run, threshold, Display);
    }
  }

  // ------------------------------------------------------------------
  // The analysis
  // ------------------------------------------------------------------

  predicate Nonempty(runs: seq<seq<OpticalSample>>) {
    forall i :: 0 <= i < |runs| ==> runs[i] != []
  }

  /** The latencies of the remaining trials, behind those already taken. */
  function Collected(runs: seq<seq<OpticalSample>>, threshold: nat, taken: seq<nat>): Result<seq<nat>, PhotonError>
    requires Nonempty(runs)
    decreases |runs|
  {
    if runs == [] then Ok(taken)
    else if |taken| >= MAX_PHYSICAL_TRIALS then Err(TooManyTrials)
    else match TrialLatency(runs[0], threshold)
      case Err(e) => Err(e)
      case Ok(v) => Collected(runs[1..], threshold, taken + [v])
  }

  function Summary(latencies: seq<nat>): PhysicalLatency
    requires latencies != []
  {
    var sorted := Sorted(latencies);
    PhysicalLatency(PercentileOf(sorted, 50), PercentileOf(sorted, 95), PercentileOf(sorted, 99),
                    sorted[0], sorted[|sorted| - 1], |sorted|)
  }

  predicate WellFormed(f: Fixture) {
    f.schema == SCHEMA_VERSION && f.width > 0 && f.height > 0 && f.refresh > 0 && f.interval > 0
  }

  function Analysis(f: Fixture): Result<PhysicalLatency, PhotonError> {
    RunsAreNonempty(f.samples);
    if f.schema != SCHEMA_VERSION then Err(WrongSchema(f.schema))
    else if f.width == 0 || f.height == 0 || f.refresh == 0 then Err(InvalidDisplayMode)
    else if f.interval == 0 then Err(InvalidSampleInterval)
    else if |f.samples| > MAX_PHYSICAL_TRIALS * MAX_SAMPLES_PER_TRIAL then Err(TooManySamples)
    else match Collected(Runs(f.samples), f.threshold, [])
      case Err(e) => Err(e)
      case Ok(latencies) => if latencies == [] then Err(MissingInputEdge(0)) else Ok(Summary(latencies))
  }

  method Analyze(f: Fixture) returns (r: Result<PhysicalLatency, PhotonError>)
    ensures r == Analysis(f)
  {
    hide TrialLatency, Sorted, PercentileOf, Runs, Collected, Nonempty;
    if f.schema != SCHEMA_VERSION {
      return Err(WrongSchema(f.schema));
    }
    if f.width == 0 || f.height == 0 || f.refresh == 0 {
      return Err(InvalidDisplayMode);
    }
    if f.interval == 0 {
      return Err(InvalidSampleInterval);
    }
    var s := f.samples;
    if |s| > MAX_PHYSICAL_TRIALS * MAX_SAMPLES_PER_TRIAL {
      return Err(TooManySamples);
    }
    var latencies: seq<nat> := [];
    var start := 0;
    RunsAreNonempty(s);
    assert s[0..] == s;
    RunsAreNonempty(s[0..]);
    while start < |s|
      invariant 0 <= start <= |s|
      invariant Nonempty(Runs(s)) && Nonempty(Runs(s[start..]))
      invariant Collected(Runs(s), f.threshold, []) == Collected(Runs(s[start..]), f.threshold, latencies)
    {
      if |latencies| >= MAX_PHYSICAL_TRIALS {
        ManyTrials(s[start..], f.threshold, latencies);
        return Err(TooManyTrials);
      }
      var trial := s[start].trial;
      var end := start + 1;
      while end < |s| && s[end].trial == trial
        invariant start < end <= |s|
        invariant forall k :: start <= k < end ==> s[k].trial == trial
      {
        end := end + 1;
      }
      NextTrial(s, start, end, f.threshold, latencies);
      var run := s[start..end];
      match TrialLatency(run, f.threshold) {
        case Err(e) => return Err(e);
        case Ok(v) => latencies := latencies + [v];
      }
      start := end;
    }
    NoMoreTrials(s[start..], f.threshold, latencies);
    if latencies == [] {
      return Err(MissingInputEdge(0));
    }
    latencies := Sorted(latencies);
    return Ok(PhysicalLatency(PercentileOf(latencies, 50), PercentileOf(latencies, 95), PercentileOf(latencies, 99),
                              latencies[0], latencies[|latencies| - 1], |latencies|));
  }

  lemma RunsAreNonempty(s: seq<OpticalSample>)
    ensures Nonempty(Runs(s))
  {
    RunsSegment(s);
  }

  lemma NoMoreTrials(s: seq<OpticalSample>, threshold: nat, taken: seq<nat>)
    requires s == []
    ensures Collected(Runs(s), threshold, taken) == Ok(taken)
  {
  }

  lemma ManyTrials(s: seq<OpticalSample>, threshold: nat, taken: seq<nat>)
    requires s != [] && Nonempty(Runs(s)) && |taken| >= MAX_PHYSICAL_TRIALS
    ensures Collected(Runs(s), threshold, taken) == Err(TooManyTrials)
  {
  }

  /** One turn of the trial loop. */
  lemma NextTrial(s: seq<OpticalSample>, start: nat, end: nat, threshold: nat, taken: seq<nat>)
    requires start < end <= |s| && forall k :: start <= k < end ==> s[k].trial == s[start].trial
    requires end < |s| ==> s[end].trial != s[start].trial
    ensures Runs(s[start..]) == [s[start..end]] + Runs(s[end..])
    ensures Nonempty(Runs(s[start..])) && Nonempty(Runs(s[end..]))
    ensures Collected(Runs(s[start..]), threshold, taken) ==
            if |taken| >= MAX_PHYSICAL_TRIALS then Err(TooManyTrials)
            else if TrialLatency(s[start..end], threshold).Err? then Err(TrialLatency(s[start..end], threshold).error)
            else Collected(Runs(s[end..]), threshold, taken + [TrialLatency(s[start..end], threshold).value])
  {
    hide TrialLatency, SameTrial, LeadingRun;
    RunsAreNonempty(s[start..]);
    RunsAreNonempty(s[end..]);
    LeadingRunIs(s[start..], end - start);
    assert s[start..][..end - start] == s[start..end] && s[start..][end - start..] == s[end..];
    assert Runs(s[start..])[1..] == Runs(s[end..]);
  }

  // ------------------------------------------------------------------
  // What a report means
  // ------------------------------------------------------------------

  predicate Measurable(run: seq<OpticalSample>, threshold: nat) {
    run != [] && TrialLatency(run, threshold).Ok?
  }

  predicate AllMeasurable(runs: seq<seq<OpticalSample>>, threshold: nat) {
    forall i :: 0 <= i < |runs| ==> Measurable(runs[i], threshold)
  }

  function Measured(run: seq<OpticalSample>, threshold: nat): nat
    requires Measurable(run, threshold)
  {
    TrialLatency(run, threshold).value
  }

  function Gaps(runs: seq<seq<OpticalSample>>, threshold: nat): (r: seq<nat>)
    requires AllMeasurable(runs, threshold)
    ensures |r| == |runs|
    ensures forall i :: 0 <= i < |runs| ==> r[i] == Measured(runs[i], threshold)
  {
    if runs == [] then [] else [Measured(runs[0], threshold)] + Gaps(runs[1..], threshold)
  }

  lemma MeasurableStep(runs: seq<seq<OpticalSample>>, threshold: nat)
    ensures AllMeasurable(runs, threshold) <==>
            runs == [] || (Measurable(runs[0], threshold) && AllMeasurable(runs[1..], threshold))
  {
    hide Measurable;
    assert forall i :: 0 < i < |runs| ==> runs[i] == runs[1..][i - 1];
  }

  lemma {:induction false} CollectedIs(runs: seq<seq<OpticalSample>>, threshold: nat, taken: seq<nat>)
    requires Nonempty(runs) && |taken| <= MAX_PHYSICAL_TRIALS
    ensures Collected(runs, threshold, taken).Ok? <==>
            |taken| + |runs| <= MAX_PHYSICAL_TRIALS && AllMeasurable(runs, threshold)
    ensures Collected(runs, threshold, taken).Ok? ==> Collected(runs, threshold, taken).value == taken + Gaps(runs, threshold)
    decreases |runs|
  {
    hide TrialLatency, AllMeasurable;
    MeasurableStep(runs, threshold);
    if runs != [] && |taken| < MAX_PHYSICAL_TRIALS && Measurable(runs[0], threshold) {
      var v := Measured(runs[0], threshold);
      CollectedIs(runs[1..], threshold, taken + [v]);
      if Collected(runs, threshold, taken).Ok? {
        assert taken + [v] + Gaps(runs[1..], threshold) == taken + Gaps(runs, threshold);
      }
    }
  }

  lemma {:induction false} FlatIsBounded(runs: seq<seq<OpticalSample>>, cap: nat)
    requires forall i :: 0 <= i < |runs| ==> |runs[i]| <= cap
    ensures |Flat(runs)| <= |runs| * cap
  {
    if runs != [] {
      FlatIsBounded(runs[1..], cap);
    }
  }

  /** Measurable trials within their own caps never exceed the overall sample cap. */
  lemma MeasurableTrialsFit(runs: seq<seq<OpticalSample>>, threshold: nat)
    requires |runs| <= MAX_PHYSICAL_TRIALS && AllMeasurable(runs, threshold)
    ensures |Flat(runs)| <= MAX_PHYSICAL_TRIALS * MAX_SAMPLES_PER_TRIAL
  {
    hide Flat;
    FlatIsBounded(runs, MAX_SAMPLES_PER_TRIAL);
  }

  /**
   A recording is reported exactly when its headers are sound and it has between one and
   the cap of measurable trials; the overall sample cap never refuses such a recording.
   The report summarizes one latency per trial.
   */
  lemma ReportsExactlyMeasurableRecordings(f: Fixture)
    ensures Analysis(f).Ok? <==>
            && WellFormed(f) && 1 <= |Runs(f.samples)| <= MAX_PHYSICAL_TRIALS
            && AllMeasurable(Runs(f.samples), f.threshold)
    ensures Analysis(f).Ok? ==> Analysis(f).value == Summary(Gaps(Runs(f.samples), f.threshold))
  {
    hide Summary, AllMeasurable, Collected, Runs, Flat, Gaps, Segmented;
    var runs := Runs(f.samples);
    RunsSegment(f.samples);
    RunsAreNonempty(f.samples);
    CollectedIs(runs, f.threshold, []);
    if |runs| <= MAX_PHYSICAL_TRIALS && AllMeasurable(runs, f.threshold) {
      MeasurableTrialsFit(runs, f.threshold);
      assert [] + Gaps(runs, f.threshold) == Gaps(runs, f.threshold);
    }
  }

  /** The first trial that cannot be measured decides the error. */
  lemma {:induction false} FirstBadTrialIsReported(runs: seq<seq<OpticalSample>>, threshold: nat, taken: seq<nat>, bad: nat)
    requires Nonempty(runs)
    requires bad < |runs| && |taken| + bad < MAX_PHYSICAL_TRIALS
    requires forall i :: 0 <= i < bad ==> Measurable(runs[i], threshold)
    requires !Measurable(runs[bad], threshold)
    ensures Collected(runs, threshold, taken) == Err(TrialLatency(runs[bad], threshold).error)
    decreases bad
  {
    hide TrialLatency;
    if bad > 0 {
      assert Measurable(runs[0], threshold);
      FirstBadTrialIsReported(runs[1..], threshold, taken + [Measured(runs[0], threshold)], bad - 1);
    }
  }

  /** The reported statistics are ordered, and each percentile is a latency that was measured. */
  lemma SummaryIsOrdered(latencies: seq<nat>)
    requires latencies != []
    ensures var r := Summary(latencies);
            && r.minimum <= r.p50 <= r.p95 <= r.p99 <= r.maximum
            && r.trials == |latencies|
            && r.minimum in latencies && r.p50 in latencies && r.p95 in latencies && r.p99 in latencies && r.maximum in latencies
            && forall v :: v in latencies ==> r.minimum <= v <= r.maximum
  {
    var sorted := Sorted(latencies);
    PercentilesAreMonotone(sorted, 50, 95);
    PercentilesAreMonotone(sorted, 95, 99);
    PercentileIsNearestRank(latencies, 50);
    PercentileIsNearestRank(latencies, 95);
    PercentileIsNearestRank(latencies, 99);
    assert sorted[0] in multiset(latencies) && sorted[|sorted| - 1] in multiset(latencies);
    forall v | v in latencies ensures sorted[0] <= v <= sorted[|sorted| - 1] {
      assert v in multiset(sorted);
    }
  }

  // ------------------------------------------------------------------
  // Clock shifts
  // ------------------------------------------------------------------

  /** The same recording, except that every trial may have started its clock elsewhere. */
  predicate ClocksShifted(a: seq<OpticalSample>, b: seq<OpticalSample>) {
    && |a| == |b|
    && (forall i :: 0 <= i < |a| ==> b[i] == a[i].(elapsed := b[i].elapsed))
    && (forall i, j :: 0 <= i && j == i + 1 < |a| && a[i].trial == a[j].trial ==>
          b[j].elapsed - b[i].elapsed == a[j].elapsed - a[i].elapsed)
  }

  /** One trial with its clock moved by a constant. */
  predicate MovedBy(a: seq<OpticalSample>, b: seq<OpticalSample>, d: int) {
    |a| == |b| && forall i :: 0 <= i < |a| ==> b[i] == a[i].(elapsed := b[i].elapsed) && b[i].elapsed == a[i].elapsed + d
  }

  lemma {:induction false} OneTrialMoves(a: seq<OpticalSample>, b: seq<OpticalSample>, n: nat)
    requires ClocksShifted(a, b) && n <= |a| && a != [] && forall k :: 0 <= k < n ==> a[k].trial == a[0].trial
    ensures MovedBy(a[..n], b[..n], b[0].elapsed - a[0].elapsed)
  {
    if n > 1 {
      OneTrialMoves(a, b, n - 1);
      var i, j := n - 2, n - 1;
      assert a[i].trial == a[j].trial;
      assert b[..j][i].elapsed == a[..j][i].elapsed + (b[0].elapsed - a[0].elapsed);
      forall k | 0 <= k < j ensures b[k].elapsed == a[k].elapsed + (b[0].elapsed - a[0].elapsed) {
        assert b[..j][k] == b[k] && a[..j][k] == a[k];
      }
    }
  }

  lemma {:induction false} EdgesMove(a: seq<OpticalSample>, b: seq<OpticalSample>, d: int, threshold: nat, channel: Channel, from: nat)
    requires MovedBy(a, b, d)
    ensures var r, s := RisingEdge(a, threshold, channel, from), RisingEdge(b, threshold, channel, from);
            r.Some? == s.Some? && (r.Some? ==> s.value == r.value + d)
    decreases |a| - from
  {
    if from < |a| {
      assert EdgeAt(a, threshold, channel, from) == EdgeAt(b, threshold, channel, from);
      EdgesMove(a, b, d, threshold, channel, from + 1);
    }
  }

  lemma LatencyIgnoresTheClock(a: seq<OpticalSample>, b: seq<OpticalSample>, d: int, threshold: nat)
    requires MovedBy(a, b, d) && a != []
    ensures TrialLatency(a, threshold) == TrialLatency(b, threshold)
  {
    hide RisingEdge, Increasing;
    EdgesMove(a, b, d, threshold, InputLed, 1);
    EdgesMove(a, b, d, threshold, Display, 1);
    OrderMoves(a, b, d);
  }

  lemma OrderMoves(a: seq<OpticalSample>, b: seq<OpticalSample>, d: int)
    requires MovedBy(a, b, d)
    ensures Increasing(a) == Increasing(b)
  {
  }

  lemma ShiftedRest(a: seq<OpticalSample>, b: seq<OpticalSample>, n: nat)
    requires ClocksShifted(a, b) && n <= |a|
    ensures ClocksShifted(a[n..], b[n..])
  {
    forall i, j | 0 <= i && j == i + 1 < |a[n..]| && a[n..][i].trial == a[n..][j].trial
      ensures b[n..][j].elapsed - b[n..][i].elapsed == a[n..][j].elapsed - a[n..][i].elapsed
    {
      var u, v := n + i, n + j;
      assert a[n..][i] == a[u] && a[n..][j] == a[v];
    }
  }

  lemma {:induction false} CollectedIgnoresClocks(a: seq<OpticalSample>, b: seq<OpticalSample>, threshold: nat, taken: seq<nat>)
    requires ClocksShifted(a, b)
    requires Nonempty(Runs(a)) && Nonempty(Runs(b))
    ensures Collected(Runs(a), threshold, taken) == Collected(Runs(b), threshold, taken)
    decreases |a|
  {
    hide TrialLatency, MovedBy, ClocksShifted;
    if a != [] {
      var n := LeadingRun(a);
      SameLeadingRun(a, b);
      OneTrialMoves(a, b, n);
      LatencyIgnoresTheClock(a[..n], b[..n], b[0].elapsed - a[0].elapsed, threshold);
      ShiftedRest(a, b, n);
      assert Runs(a) == [a[..n]] + Runs(a[n..]) && Runs(b) == [b[..n]] + Runs(b[n..]);
      assert Runs(a)[1..] == Runs(a[n..]) && Runs(b)[1..] == Runs(b[n..]);
      var r := TrialLatency(a[..n], threshold);
      if r.Ok? {
        CollectedIgnoresClocks(a[n..], b[n..], threshold, taken + [r.value]);
      }
    } else {
      SameLength(a, b);
    }
  }

  lemma SameLength(a: seq<OpticalSample>, b: seq<OpticalSample>)
    requires ClocksShifted(a, b)
    ensures |a| == |b|
  {
  }

  lemma SameLeadingRun(a: seq<OpticalSample>, b: seq<OpticalSample>)
    requires ClocksShifted(a, b) && a != []
    ensures |b| == |a| && LeadingRun(b) == LeadingRun(a)
    ensures forall k :: 0 <= k < LeadingRun(a) ==> a[k].trial == a[0].trial
  {
    var n := LeadingRun(a);
    forall k | 0 <= k < n ensures a[k].trial == a[0].trial {
      assert a[..n][k].trial == a[..n][0].trial;
    }
    LeadingRunIs(b, n);
  }

  /** No report, and no error, depends on where a trial's clock started. */
  lemma ReportIgnoresTrialClocks(f: Fixture, samples: seq<OpticalSample>)
    requires ClocksShifted(f.samples, samples)
    ensures Analysis(f.(samples := samples)) == Analysis(f)
  {
    hide Collected, Runs, Summary;
    RunsAreNonempty(f.samples);
    RunsAreNonempty(samples);
    CollectedIgnoresClocks(f.samples, samples, f.threshold, []);
  }

  // ------------------------------------------------------------------
  // Order of trials
  // ------------------------------------------------------------------

  lemma {:induction false} GapsSplit(a: seq<seq<OpticalSample>>, b: seq<seq<OpticalSample>>, threshold: nat)
    requires AllMeasurable(a, threshold) && AllMeasurable(b, threshold)
    ensures AllMeasurable(a + b, threshold)
    ensures Gaps(a + b, threshold) == Gaps(a, threshold) + Gaps(b, threshold)
  {
    hide Measurable;
  }

  lemma MeasurableParts(front: seq<seq<OpticalSample>>, run: seq<OpticalSample>, back: seq<seq<OpticalSample>>, threshold: nat)
    requires AllMeasurable(front + [run] + back, threshold)
    ensures AllMeasurable(front, threshold) && Measurable(run, threshold) && AllMeasurable(back, threshold)
  {
    hide Measurable;
    var whole := front + [run] + back;
    assert forall i :: 0 <= i < |front| ==> front[i] == whole[i];
    assert forall i :: 0 <= i < |back| ==> back[i] == whole[|front| + 1 + i];
    assert whole[|front|] == run;
  }

  lemma OneGap(run: seq<OpticalSample>, threshold: nat)
    requires Measurable(run, threshold)
    ensures AllMeasurable([run], threshold) && Gaps([run], threshold) == [Measured(run, threshold)]
  {
    hide Measurable, Measured;
  }

  /** One trial moved to the front changes the latencies only in order. */
  lemma GapsWithFirst(front: seq<seq<OpticalSample>>, run: seq<OpticalSample>, back: seq<seq<OpticalSample>>, threshold: nat)
    requires AllMeasurable(front + [run] + back, threshold)
    ensures AllMeasurable(front + back, threshold) && Measurable(run, threshold)
    ensures multiset(Gaps(front + [run] + back, threshold)) ==
            multiset(Gaps(front + back, threshold)) + multiset{Measured(run, threshold)}
  {
    hide Measurable, Measured, AllMeasurable, Gaps;
    MeasurableParts(front, run, back, threshold);
    OneGap(run, threshold);
    GapsSplit(front, back, threshold);
    GapsSplit(front, [run], threshold);
    GapsSplit(front + [run], back, threshold);
  }

  lemma SameFirst<T>(a: seq<T>, b: seq<T>) returns (i: nat)
    requires multiset(a) == multiset(b) && a != []
    ensures i < |b| && b == b[..i] + [a[0]] + b[i + 1..]
    ensures multiset(a[1..]) == multiset(b[..i] + b[i + 1..])
  {
    assert a == [a[0]] + a[1..];
    assert a[0] in multiset(b);
    i :| 0 <= i < |b| && b[i] == a[0];
    assert b == b[..i] + [a[0]] + b[i + 1..];
    assert multiset(a[1..]) == multiset(a) - multiset{a[0]} == multiset(b[..i] + b[i + 1..]);
  }

  lemma MeasurablePermutation(a: seq<seq<OpticalSample>>, b: seq<seq<OpticalSample>>, threshold: nat)
    requires multiset(a) == multiset(b) && AllMeasurable(a, threshold)
    ensures AllMeasurable(b, threshold)
  {
    hide Measurable;
    forall i | 0 <= i < |b| ensures Measurable(b[i], threshold) {
      assert b[i] in multiset(a);
    }
  }

  lemma {:induction false} GapsOfPermutation(a: seq<seq<OpticalSample>>, b: seq<seq<OpticalSample>>, threshold: nat)
    requires multiset(a) == multiset(b) && AllMeasurable(a, threshold)
    ensures AllMeasurable(b, threshold)
    ensures multiset(Gaps(a, threshold)) == multiset(Gaps(b, threshold))
  {
    hide Measurable, Measured, Gaps, AllMeasurable;
    MeasurablePermutation(a, b, threshold);
    if a == [] {
      assert |b| == |multiset(b)| == 0;
    } else {
      var i := SameFirst(a, b);
      assert a == [] + [a[0]] + a[1..] && [] + a[1..] == a[1..];
      GapsWithFirst([], a[0], a[1..], threshold);
      GapsWithFirst(b[..i], a[0], b[i + 1..], threshold);
      GapsOfPermutation(a[1..], b[..i] + b[i + 1..], threshold);
    }
  }

  lemma SummaryOfPermutation(a: seq<nat>, b: seq<nat>)
    requires multiset(a) == multiset(b) && a != []
    ensures b != [] && Summary(a) == Summary(b)
  {
    assert |a| == |multiset(a)| == |multiset(b)| == |b|;
    OrderedIsUnique(Sorted(a), Sorted(b));
  }

  /**
   Whole trials may be recorded in any order that keeps neighbours distinct: the reordered
   recording is reported whenever the original is, and with the same statistics.
   */
  lemma ReportIgnoresTrialOrder(f: Fixture, trials: seq<seq<OpticalSample>>)
    requires Segmented(trials) && multiset(trials) == multiset(Runs(f.samples))
    ensures Analysis(f).Ok? <==> Analysis(f.(samples := Flat(trials))).Ok?
    ensures Analysis(f).Ok? ==> Analysis(f.(samples := Flat(trials))) == Analysis(f)
  {
    hide Analysis, Summary, AllMeasurable, Segmented, Runs, Flat, Gaps;
    var g := f.(samples := Flat(trials));
    SegmentationIsUnique(trials);
    var runs := Runs(f.samples);
    assert |runs| == |multiset(runs)| == |multiset(trials)| == |trials|;
    ReportsExactlyMeasurableRecordings(f);
    ReportsExactlyMeasurableRecordings(g);
    if Analysis(f).Ok? {
      GapsOfPermutation(runs, trials, f.threshold);
      SummaryOfPermutation(Gaps(runs, f.threshold), Gaps(trials, f.threshold));
    } else if Analysis(g).Ok? {
      GapsOfPermutation(trials, runs, f.threshold);
    }
  }
}
