/**
 Beat accounting of the Autopilot: which crossings count, and when a Once plan is over.
 */
module AutopilotTiming {
  import opened Wrappers
  import opened Autopilot
  import opened AutopilotRuns

  /** Crossings of the frames that were admitted while the media ran. */
  function AdmittedCrossings(s: State, es: seq<Event>): nat {
    if es == [] then 0
    else
      var m := Run(s, es[..|es| - 1]).0;
      var e := es[|es| - 1];
      AdmittedCrossings(s, es[..|es| - 1]) +
      if e.OnFrame? && Admits(m, e.input) then e.input.crossedBeats else 0
  }

  lemma CommittedKeepsBeats(s: State)
    ensures Committed(s).0.acceptedBeats == s.acceptedBeats
  {
  }

  lemma StepAdvancesBeats(s: State, e: Event)
    requires !e.OnPlay? && !e.OnReset?
    ensures Step(s, e).0.acceptedBeats ==
            SaturatingAdd(s.acceptedBeats, if e.OnFrame? && Admits(s, e.input) then e.input.crossedBeats else 0)
  {
    if e.OnFrame? && Admits(s, e.input) {
      var l := Latched(s, e.input.readiness);
      CommittedKeepsBeats(l.(acceptedBeats := SaturatingAdd(l.acceptedBeats, e.input.crossedBeats)));
    }
  }

  /** The accepted ordinal is exactly the (saturating) sum of the admitted crossings. */
  lemma {:induction false} AcceptedBeatsCountAdmittedCrossings(s: State, es: seq<Event>)
    requires WithinOnePlay(es)
    ensures Run(s, es).0.acceptedBeats == SaturatingAdd(s.acceptedBeats, AdmittedCrossings(s, es))
  {
    if es != [] {
      var before := es[..|es| - 1];
      AcceptedBeatsCountAdmittedCrossings(s, before);
      StepAdvancesBeats(Run(s, before).0, es[|es| - 1]);
    }
  }

  // ------------------------------------------------------------------
  // Completion of a Once plan
  // ------------------------------------------------------------------

  /** Beats held by the steps from index `i` on. */
  function HoldsFrom(plan: Plan, i: nat): nat
    requires i <= |plan.steps|
    decreases |plan.steps| - i
  {
    if i == |plan.steps| then 0 else plan.steps[i].holdBeats + HoldsFrom(plan, i + 1)
  }

  /** A Once plan that is holding one of its steps (possibly paused), or has finished. */
  predicate OnceHolding(s: State, plan: Plan) {
    && plan.repeat == Once && s.plan == Some(plan)
    && (s.phase == Paused ==> s.resumePhase == Some(Running))
    && s.activeCursor.Some? && s.activeCursor.value < |plan.steps|
    && (Underlying(s) == Complete || Underlying(s) == Running)
    && (Underlying(s) == Running ==>
          && s.dueBeat.Some? && s.acceptedBeats < s.dueBeat.value
          && !s.suppressFirstRelease
          && if s.activeCursor.value + 1 == |plan.steps| then s.expected.None?
             else s.expected.Some? && s.expected.value.stepIndex == s.activeCursor.value + 1)
  }

  /** The beats still to be admitted before the plan is over. */
  function RemainingBeats(s: State, plan: Plan): nat
    requires OnceHolding(s, plan)
  {
    if Underlying(s) == Complete then 0
    else s.dueBeat.value - s.acceptedBeats + HoldsFrom(plan, s.activeCursor.value + 1)
  }

  /** One beat at most per admitted frame, and readiness has arrived by the due beat. */
  predicate Punctual(s: State, e: Event) {
    match e
    case OnPause => true
    case OnResume => true
    case OnFrame(input) =>
      && !RejectsExpected(s, input.readiness)
      && (Admits(s, input) ==> input.crossedBeats <= 1)
      && (Admits(s, input) && s.phase == Running && s.expected.Some? && s.dueBeat.Some?
          && s.acceptedBeats + input.crossedBeats >= s.dueBeat.value ==>
            s.expectedReady || input.readiness == Ready(s.expected.value))
    case _ => false
  }

  predicate PunctualRun(s: State, es: seq<Event>) {
    es == [] ||
    (PunctualRun(s, es[..|es| - 1]) && Punctual(Run(s, es[..|es| - 1]).0, es[|es| - 1]))
  }

  lemma CutSpendsOneBeat(t: State, plan: Plan, index: nat)
    requires plan.repeat == Once && t.plan == Some(plan) && t.phase == Running
    requires t.expected.Some? && t.expected.value.stepIndex == index + 1 < |plan.steps|
    requires !t.suppressFirstRelease
    requires t.acceptedBeats + HoldsFrom(plan, index + 1) <= U64_MAX
    ensures OnceHolding(Committed(t).0, plan)
    ensures RemainingBeats(Committed(t).0, plan) == HoldsFrom(plan, index + 1)
  {
  }

  lemma NoHoldsLeft(plan: Plan)
    ensures HoldsFrom(plan, |plan.steps|) == 0
  {
  }

  lemma PunctualStepSpendsItsBeats(s: State, e: Event, plan: Plan)
    requires OnceHolding(s, plan) && Punctual(s, e)
    requires s.acceptedBeats + RemainingBeats(s, plan) <= U64_MAX
    ensures var spent := if e.OnFrame? && Admits(s, e.input) then e.input.crossedBeats else 0;
            && OnceHolding(Step(s, e).0, plan)
            && RemainingBeats(Step(s, e).0, plan) == RemainingBeats(s, plan) - spent
  {
    hide HoldsFrom, WrappingNext;
    NoHoldsLeft(plan);
    if e.OnFrame? && Admits(s, e.input) && e.input.crossedBeats == 1 {
      var l := Latched(s, e.input.readiness);
      var t := l.(acceptedBeats := SaturatingAdd(l.acceptedBeats, 1));
      var index := s.activeCursor.value;
      if t.acceptedBeats >= t.dueBeat.value && t.expected.Some? {
        CutSpendsOneBeat(t, plan, index);
      }
    }
  }

  /**
   A punctual Once plan spends exactly one remaining beat per admitted crossing and is
   Complete exactly when they are all spent: never early, never late, pauses and
   freezes costing nothing.
   */
  lemma {:induction false} PunctualPlanSpendsItsBeats(s: State, es: seq<Event>, plan: Plan)
    requires OnceHolding(s, plan) && PunctualRun(s, es)
    requires s.acceptedBeats + RemainingBeats(s, plan) <= U64_MAX
    ensures var end := Run(s, es).0;
            && OnceHolding(end, plan)
            && RemainingBeats(end, plan) == RemainingBeats(s, plan) - AdmittedCrossings(s, es)
            && end.acceptedBeats == s.acceptedBeats + AdmittedCrossings(s, es)
            && (end.phase == Complete <==> AdmittedCrossings(s, es) == RemainingBeats(s, plan))
  {
    if es != [] {
      var before := es[..|es| - 1];
      PunctualPlanSpendsItsBeats(s, before, plan);
      PunctualStepSpendsItsBeats(Run(s, before).0, es[|es| - 1], plan);
      StepAdvancesBeats(Run(s, before).0, es[|es| - 1]);
    }
  }

  /** From its first cut, a punctual Once plan completes after exactly the sum of all its holds. */
  lemma OncePlanCompletesAfterItsHolds(s: State, plan: Plan, epoch: u64, es: seq<Event>)
    requires plan.steps != [] && plan.repeat == Once
    requires OnSchedule(s, plan, epoch, 1, [s.acceptedBeats]) && s.phase == Running && !s.suppressFirstRelease
    requires s.acceptedBeats + HoldsFrom(plan, 0) <= U64_MAX
    requires PunctualRun(s, es)
    ensures Run(s, es).0.phase == Complete <==> AdmittedCrossings(s, es) == HoldsFrom(plan, 0)
    ensures AdmittedCrossings(s, es) <= HoldsFrom(plan, 0)
  {
    hide OnSchedule, OnceHolding, RemainingBeats, HoldsFrom, Run, PunctualRun, AdmittedCrossings;
    FirstCutHolds(s, plan, epoch);
    PunctualPlanSpendsItsBeats(s, es, plan);
  }

  /** Right after its first cut a Once plan has all its holds left. */
  lemma FirstCutHolds(s: State, plan: Plan, epoch: u64)
    requires plan.steps != [] && plan.repeat == Once
    requires OnSchedule(s, plan, epoch, 1, [s.acceptedBeats]) && s.phase == Running && !s.suppressFirstRelease
    requires s.acceptedBeats + HoldsFrom(plan, 0) <= U64_MAX
    ensures OnceHolding(s, plan) && RemainingBeats(s, plan) == HoldsFrom(plan, 0)
  {
    assert HoldsFrom(plan, 0) == plan.steps[0].holdBeats + HoldsFrom(plan, 1);
  }

  // ------------------------------------------------------------------
  // From play to completion
  // ------------------------------------------------------------------

  lemma {:induction false} RunConcat(s: State, a: seq<Event>, b: seq<Event>)
    ensures Run(s, a + b).0 == Run(Run(s, a).0, b).0
    ensures AdmittedCrossings(s, a + b) == AdmittedCrossings(s, a) + AdmittedCrossings(Run(s, a).0, b)
  {
    hide Step, Admits;
    if b == [] {
      assert a + b == a;
    } else {
      assert (a + b)[..|a + b| - 1] == a + b[..|b| - 1];
      RunConcat(s, a, b[..|b| - 1]);
    }
  }

  /** A step that cuts leaves the hold running, with no frame left to suppress. */
  lemma CutStartsHold(s: State, e: Event)
    requires CommitsIn(Step(s, e).1) != []
    ensures Step(s, e).0.phase == Running && !Step(s, e).0.suppressFirstRelease
  {
    hide CommitsIn, WrappingNext, SaturatingAdd;
    CommitsInBatch(Step(s, e).1);
  }

  /** The first cut of a run is its last event. */
  predicate EndsWithFirstCut(s: State, es: seq<Event>) {
    es != [] && CommitsIn(Run(s, es[..|es| - 1]).1) == [] && CommitsIn(Run(s, es).1) != []
  }

  /** The state of a first cut. */
  lemma FirstCutIsOnSchedule(s: State, plan: Plan, scenes: set<SceneId>, es: seq<Event>)
    requires Playable(plan, scenes) && WithinOnePlay(es)
    requires EndsWithFirstCut(Step(s, OnPlay(plan, scenes)).0, es)
    ensures var armed := Step(s, OnPlay(plan, scenes)).0;
            var cut := Run(armed, es).0;
            OnSchedule(cut, plan, armed.epoch, 1, [cut.acceptedBeats]) && cut.phase == Running && !cut.suppressFirstRelease
  {
    hide Step, OnSchedule, InOrder, Dwells, CommitsIn;
    var armed := Step(s, OnPlay(plan, scenes)).0;
    var before, last := es[..|es| - 1], es[|es| - 1];
    var (m, log) := Run(armed, before);
    NoSkip(s, plan, scenes, before);
    NoSkip(s, plan, scenes, es);
    NoCommits();
    CommitsInConcat(log, Step(m, last).1);
    CutStartsHold(m, last);
    assert CommitBeats(armed, es) == [Run(armed, es).0.acceptedBeats];
  }

  lemma NoCommits()
    ensures CommitsIn([]) == []
  {
  }

  /**
   Whole play: a Once plan that is punctual from its first cut on is Complete exactly when the
   beats admitted since that cut are the sum of all its holds, whatever preceded the cut.
   */
  lemma PlayCompletesAfterItsHolds(s: State, plan: Plan, scenes: set<SceneId>, es: seq<Event>, later: seq<Event>)
    requires Playable(plan, scenes) && plan.repeat == Once && WithinOnePlay(es)
    requires EndsWithFirstCut(Step(s, OnPlay(plan, scenes)).0, es)
    requires PunctualRun(Run(Step(s, OnPlay(plan, scenes)).0, es).0, later)
    requires AdmittedCrossings(Step(s, OnPlay(plan, scenes)).0, es) + HoldsFrom(plan, 0) <= U64_MAX
    ensures var armed := Step(s, OnPlay(plan, scenes)).0;
            var holds := AdmittedCrossings(armed, es) + HoldsFrom(plan, 0);
            && AdmittedCrossings(armed, es + later) <= holds
            && (Run(armed, es + later).0.phase == Complete <==> AdmittedCrossings(armed, es + later) == holds)
  {
    hide Step, OnSchedule, InOrder, Dwells, CommitsIn, Run, AdmittedCrossings, PunctualRun, HoldsFrom, EndsWithFirstCut;
    var armed := Step(s, OnPlay(plan, scenes)).0;
    var cut := Run(armed, es).0;
    FirstCutIsOnSchedule(s, plan, scenes, es);
    PlayStartsAtBeatZero(s, plan, scenes);
    AcceptedBeatsCountAdmittedCrossings(armed, es);
    OncePlanCompletesAfterItsHolds(cut, plan, armed.epoch, later);
    RunConcat(armed, es, later);
  }

  lemma PlayStartsAtBeatZero(s: State, plan: Plan, scenes: set<SceneId>)
    requires Playable(plan, scenes)
    ensures Step(s, OnPlay(plan, scenes)).0.acceptedBeats == 0
  {
  }

  // ------------------------------------------------------------------
  // Held stretches
  // ------------------------------------------------------------------

  /** Frames only, none of which reports the expected token as failed. */
  predicate Unrejected(s: State, es: seq<Event>) {
    forall i :: 0 <= i < |es| ==> es[i].OnFrame? && !RejectsExpected(s, es[i].input.readiness)
  }

  /** Whether some frame of the stretch reports the expected token ready. */
  predicate Heard(s: State, es: seq<Event>) {
    exists i :: 0 <= i < |es| && es[i].OnFrame? && s.expected.Some? && es[i].input.readiness == Ready(s.expected.value)
  }

  lemma HeardMore(s: State, es: seq<Event>)
    requires es != []
    ensures var last := es[|es| - 1];
            Heard(s, es) <==>
            Heard(s, es[..|es| - 1]) || (last.OnFrame? && s.expected.Some? && last.input.readiness == Ready(s.expected.value))
  {
  }

  lemma {:induction false} PausedFramesOnlyListen(s: State, es: seq<Event>)
    requires s.phase == Paused && Unrejected(s, es)
    ensures Run(s, es).0 == s.(expectedReady := s.expectedReady || Heard(s, es)) && Run(s, es).1 == []
  {
    if es != [] {
      var before, last := es[..|es| - 1], es[|es| - 1];
      PausedFramesOnlyListen(s, before);
      HeardMore(s, es);
      var m := s.(expectedReady := s.expectedReady || Heard(s, before));
      assert Step(m, last) == (Latched(m, last.input.readiness), []);
    }
  }

  /**
   Pausing, any frames meanwhile, and resuming: nothing is emitted and everything is as it
   was, remaining dwell included, except that a preparation may have become ready.
   */
  lemma PauseKeepsTheDwell(s: State, es: seq<Event>)
    requires Inv(s) && s.phase in {Starting, Running, Stalled} && Unrejected(s, es)
    ensures var (held, log) := Run(Step(s, OnPause).0, es);
            && log == []
            && Step(held, OnResume) == (s.(expectedReady := s.expectedReady || Heard(s, es)), [])
  {
    var paused := Step(s, OnPause).0;
    PausedFramesOnlyListen(paused, es);
    assert Heard(paused, es) == Heard(s, es);
  }

  /** The same for a stretch of frames on which the media does not run. */
  lemma {:induction false} FreezeKeepsTheDwell(s: State, es: seq<Event>)
    requires s.phase in {Starting, Running, Stalled} && Unrejected(s, es)
    requires forall i :: 0 <= i < |es| ==> es[i].OnFrame? && !es[i].input.mediaRunning
    ensures Run(s, es).1 == []
    ensures Run(s, es).0 ==
            s.(expectedReady := s.expectedReady || Heard(s, es), suppressFirstRelease := s.suppressFirstRelease && es == [])
  {
    if es != [] {
      var before, last := es[..|es| - 1], es[|es| - 1];
      FreezeKeepsTheDwell(s, before);
      HeardMore(s, es);
      var m := s.(expectedReady := s.expectedReady || Heard(s, before),
                  suppressFirstRelease := s.suppressFirstRelease && before == []);
      assert Step(m, last) == (Latched(m, last.input.readiness).(suppressFirstRelease := false), []);
    }
  }
}
