/**
 Whole-run properties of the Autopilot scheduler: what holds in every reachable
 state, and what the stream of Commit commands of one play looks like under any
 interleaving of frames, pauses, resumes, readiness reports and faults.
 */
module AutopilotRuns {
  import opened Wrappers
  import opened Autopilot

  datatype Event =
    | OnPlay(plan: Plan, scenes: set<SceneId>)
    | OnReset
    | OnPause
    | OnResume
    | OnFrame(input: FrameInput)
    | OnFault(reason: FaultReason)

  function Step(s: State, e: Event): (State, seq<Command>) {
    match e
    case OnPlay(plan, scenes) =>
      var (t, r) := AfterPlay(s, plan, scenes);
      (t, match r case Ok(commands) => commands case Err(failure) => failure.commands)
    case OnReset => AfterReset(s)
    case OnPause => (AfterPause(s), [])
    case OnResume => (AfterResume(s), [])
    case OnFrame(input) => AfterFrame(s, input)
    case OnFault(reason) => AfterFault(s, reason)
  }

  /** The state after a run and every command it emitted, in order. */
  function Run(s: State, es: seq<Event>): (State, seq<Command>) {
    if es == [] then (s, [])
    else
      var (m, log) := Run(s, es[..|es| - 1]);
      var (t, commands) := Step(m, es[|es| - 1]);
      (t, log + commands)
  }

  function CommitsIn(log: seq<Command>): seq<Target> {
    if log == [] then []
    else CommitsIn(log[..|log| - 1]) +
         if log[|log| - 1].Commit? then [log[|log| - 1].target] else []
  }

  lemma {:induction false} CommitsInConcat(a: seq<Command>, b: seq<Command>)
    ensures CommitsIn(a + b) == CommitsIn(a) + CommitsIn(b)
  {
    if b == [] {
      assert a + b == a;
    } else {
      assert (a + b)[..|a + b| - 1] == a + b[..|b| - 1];
      CommitsInConcat(a, b[..|b| - 1]);
    }
  }

  /** Batches emitted by the scheduler, unfolded. */
  lemma CommitsInBatch(log: seq<Command>)
    ensures |log| == 0 ==> CommitsIn(log) == []
    ensures |log| == 1 ==> CommitsIn(log) == if log[0].Commit? then [log[0].target] else []
    ensures |log| == 2 && !log[1].Commit? ==>
              CommitsIn(log) == if log[0].Commit? then [log[0].target] else []
  {
    if |log| == 1 {
      assert log[..0] == [];
    } else if |log| == 2 {
      assert log[..1][..0] == [];
      assert log[..1] == [log[0]];
    }
  }

  // ------------------------------------------------------------------
  // Reachable states
  // ------------------------------------------------------------------

  /** The phase the scheduler is in, looking through Pause. */
  function Underlying(s: State): Phase {
    if s.phase == Paused && s.resumePhase.Some? then s.resumePhase.value else s.phase
  }

  predicate Scheduling(s: State) {
    Underlying(s) in {Starting, Running, Stalled}
  }

  predicate ValidStep(s: State, index: nat) {
    s.plan.Some? && index < |s.plan.value.steps|
  }

  ghost predicate Inv(s: State) {
    && (s.phase == Paused <==> s.resumePhase.Some?)
    && (s.resumePhase.Some? ==> s.resumePhase.value in {Starting, Running, Stalled})
    && (s.dueBeat.Some? <==> Underlying(s) in {Running, Stalled})
    && (Underlying(s) in {Starting, Stalled} ==> s.expected.Some?)
    && (s.expectedReady ==> s.expected.Some?)
    && (s.expected.Some? ==>
          var t := s.expected.value;
          && Scheduling(s)
          && ValidStep(s, t.stepIndex)
          && t.sceneId == s.plan.value.steps[t.stepIndex].sceneId
          && t.epoch == s.epoch
          && s.nextSequence == WrappingNext(t.sequence))
    && (s.activeCursor.Some? ==> ValidStep(s, s.activeCursor.value))
    && s.cursor == (if s.activeCursor.Some? then s.activeCursor.value else 0)
    && (Underlying(s) in {Running, Stalled} ==> s.activeCursor.Some?)
    && (Underlying(s) == Running && s.expected.None? ==>
          && s.plan.value.repeat == Once
          && s.activeCursor.value == |s.plan.value.steps| - 1)
    && (s.lastCommit.Some? ==>
          && s.activeCursor == Some(s.lastCommit.value.target.stepIndex)
          && (s.lastCommit.value.priorCursor.Some? ==> ValidStep(s, s.lastCommit.value.priorCursor.value)))
    && (Underlying(s) in {Starting, Stopped} ==> s.activeCursor.None? && s.lastCommit.None?)
    && (s.phase == Faulted ==> s.lastCommit.None?)
  }

  lemma CommittedKeepsInv(s: State)
    requires Inv(s) && s.phase in {Starting, Running, Stalled} && s.expected.Some?
    ensures Inv(Committed(s).0)
  {
  }

  lemma FaultingEstablishesInv(s: State, reason: FaultReason)
    requires s.activeCursor.Some? ==> ValidStep(s, s.activeCursor.value)
    requires s.cursor == (if s.activeCursor.Some? then s.activeCursor.value else 0)
    ensures Inv(Faulting(s, reason).0)
  {
  }

  lemma FrameKeepsInv(s: State, input: FrameInput)
    requires Inv(s)
    ensures Inv(AfterFrame(s, input).0)
  {
    if RejectsExpected(s, input.readiness) {
      FaultingEstablishesInv(s, PreparationFault(input.readiness.target));
    } else {
      var l := Latched(s, input.readiness);
      assert Inv(l);
      if Admits(s, input) && input.crossedBeats > 0 {
        var t := l.(acceptedBeats := SaturatingAdd(l.acceptedBeats, input.crossedBeats));
        assert Inv(t);
        if t.expectedReady {
          CommittedKeepsInv(t);
        }
      }
    }
  }

  lemma PlayEstablishesInv(s: State, plan: Plan, scenes: set<SceneId>)
    requires Inv(s)
    ensures Inv(AfterPlay(s, plan, scenes).0)
  {
  }

  lemma StepKeepsInv(s: State, e: Event)
    requires Inv(s)
    ensures Inv(Step(s, e).0)
  {
    match e {
      case OnPlay(plan, scenes) => PlayEstablishesInv(s, plan, scenes);
      case OnFrame(input) => FrameKeepsInv(s, input);
      case OnFault(reason) => FaultingEstablishesInv(RolledBack(s, reason), reason);
      case _ =>
    }
  }

  /** Every state any run can reach from construction satisfies the phase invariant. */
  lemma {:induction false} ReachableStatesSatisfyInv(es: seq<Event>)
    ensures Inv(Run(DEFAULT_STATE, es).0)
  {
    if es != [] {
      ReachableStatesSatisfyInv(es[..|es| - 1]);
      StepKeepsInv(Run(DEFAULT_STATE, es[..|es| - 1]).0, es[|es| - 1]);
    }
  }

  /** Frames and readiness can never raise the Invariant fault; only a host can report it. */
  lemma {:induction false} OnlyTheHostRaisesInvariantFault(es: seq<Event>)
    requires forall i :: 0 <= i < |es| ==> es[i] != OnFault(InvariantFault)
    ensures Run(DEFAULT_STATE, es).0.fault != Some(InvariantFault)
  {
    hide Step, Inv;
    if es != [] {
      var before := es[..|es| - 1];
      OnlyTheHostRaisesInvariantFault(before);
      ReachableStatesSatisfyInv(before);
      StepRaisesNoInvariantFault(Run(DEFAULT_STATE, before).0, es[|es| - 1]);
    }
  }

  lemma StepRaisesNoInvariantFault(s: State, e: Event)
    requires Inv(s) && s.fault != Some(InvariantFault) && e != OnFault(InvariantFault)
    ensures Step(s, e).0.fault != Some(InvariantFault)
  {
  }

  /**
   Exactly when a frame cuts: the frame is admitted with at least one crossing, the
   token is the expected one, its readiness was reported on this or an earlier
   frame, and the hold has run out.  The early returns of the commit path are
   therefore never taken in a reachable state.
   */
  lemma FrameCommitsExactlyWhen(s: State, input: FrameInput, t: Target)
    requires Inv(s)
    ensures Commit(t) in AfterFrame(s, input).1 <==>
            && Admits(s, input)
            && input.crossedBeats > 0
            && s.expected == Some(t)
            && (s.expectedReady || input.readiness == Ready(t))
            && (s.phase == Running ==> SaturatingAdd(s.acceptedBeats, input.crossedBeats) >= s.dueBeat.value)
  {
  }

  /** A frame never emits more than one cut, whatever it crossed, and a new hold starts from its own beat. */
  lemma OneCutPerFrameAndNoCatchUp(s: State, e: Event)
    requires Inv(s)
    ensures |CommitsIn(Step(s, e).1)| <= 1
    ensures !e.OnFrame? ==> CommitsIn(Step(s, e).1) == []
    ensures forall t :: Commit(t) in Step(s, e).1 ==>
              && CommitsIn(Step(s, e).1) == [t]
              && ValidStep(s, t.stepIndex)
              && Step(s, e).0.dueBeat ==
                 Some(SaturatingAdd(Step(s, e).0.acceptedBeats, s.plan.value.steps[t.stepIndex].holdBeats))
  {
    hide CommitsIn;
    CommitsInBatch(Step(s, e).1);
    forall t | Commit(t) in Step(s, e).1
      ensures CommitsIn(Step(s, e).1) == [t] && ValidStep(s, t.stepIndex)
      ensures Step(s, e).0.dueBeat ==
              Some(SaturatingAdd(Step(s, e).0.acceptedBeats, s.plan.value.steps[t.stepIndex].holdBeats))
    {
      CutHoldsFromNow(s, e, t);
    }
  }

  lemma CutHoldsFromNow(s: State, e: Event, t: Target)
    requires Inv(s) && Commit(t) in Step(s, e).1
    ensures CommitsIn(Step(s, e).1) == [t] && ValidStep(s, t.stepIndex)
    ensures Step(s, e).0.dueBeat ==
            Some(SaturatingAdd(Step(s, e).0.acceptedBeats, s.plan.value.steps[t.stepIndex].holdBeats))
  {
    hide CommitsIn, WrappingNext, SaturatingAdd;
    CommitsInBatch(Step(s, e).1);
  }

  /** A late, duplicated or foreign token is exactly a frame without a report. */
  lemma StaleTokensAreIgnored(s: State, input: FrameInput)
    requires !input.readiness.Pending? && s.expected != Some(input.readiness.target)
    ensures AfterFrame(s, input) == AfterFrame(s, input.(readiness := Pending))
  {
  }

  // ------------------------------------------------------------------
  // No-skip over a whole play
  // ------------------------------------------------------------------

  /** The i-th token of a play. */
  function TokenAt(plan: Plan, epoch: u64, i: nat): Target
    requires plan.steps != []
  {
    Target(epoch, i % U64_COUNT, i % |plan.steps|, plan.steps[i % |plan.steps|].sceneId)
  }

  function HoldAt(plan: Plan, i: nat): HoldBeats
    requires plan.steps != []
  {
    plan.steps[i % |plan.steps|].holdBeats
  }

  /** Accepted-beat ordinals at which the commits of a run happened. */
  function CommitBeats(s: State, es: seq<Event>): seq<u64> {
    if es == [] then []
    else
      var m := Run(s, es[..|es| - 1]).0;
      var (t, commands) := Step(m, es[|es| - 1]);
      CommitBeats(s, es[..|es| - 1]) + if CommitsIn(commands) == [] then [] else [t.acceptedBeats]
  }

  predicate WithinOnePlay(es: seq<Event>) {
    forall i :: 0 <= i < |es| ==> !es[i].OnPlay? && !es[i].OnReset?
  }

  predicate Playable(plan: Plan, scenes: set<SceneId>) {
    plan.steps != [] && forall i :: 0 <= i < |plan.steps| ==> plan.steps[i].sceneId in scenes
  }

  predicate InOrder(plan: Plan, epoch: u64, commits: seq<Target>)
    requires plan.steps != []
  {
    && (forall i :: 0 <= i < |commits| ==> commits[i] == TokenAt(plan, epoch, i))
    && (plan.repeat == Once ==> |commits| <= |plan.steps|)
  }

  predicate Dwells(plan: Plan, beats: seq<u64>)
    requires plan.steps != []
  {
    forall i :: 0 <= i < |beats| - 1 ==> beats[i + 1] >= SaturatingAdd(beats[i], HoldAt(plan, i))
  }

  /** What the state must be after `k` commits of a play that has not faulted. */
  predicate OnSchedule(s: State, plan: Plan, epoch: u64, k: nat, beats: seq<u64>)
    requires plan.steps != [] && |beats| == k
  {
    && s.plan == Some(plan) && s.epoch == epoch
    && (plan.repeat == Once ==> k <= |plan.steps|)
    && Underlying(s) in {Starting, Running, Stalled, Complete}
    && (s.phase == Paused ==> s.resumePhase.Some?)
    && (k == 0 <==> Underlying(s) == Starting)
    && (k > 0 ==> s.activeCursor == Some((k - 1) % |plan.steps|) && s.acceptedBeats >= beats[k - 1])
    && (if plan.repeat == Once && k == |plan.steps| then s.expected.None? && s.nextSequence == k % U64_COUNT
        else s.expected == Some(TokenAt(plan, epoch, k)) && s.nextSequence == (k + 1) % U64_COUNT)
    && (Underlying(s) in {Running, Stalled} ==>
          s.dueBeat == Some(SaturatingAdd(beats[k - 1], HoldAt(plan, k - 1))))
    && (Underlying(s) == Stalled ==> s.expected.Some? && s.acceptedBeats >= s.dueBeat.value)
    && (Underlying(s) == Complete ==> s.expected.None?)
  }

  predicate History(s: State, plan: Plan, epoch: u64, commits: seq<Target>, beats: seq<u64>)
    requires plan.steps != []
  {
    && |beats| == |commits|
    && InOrder(plan, epoch, commits)
    && Dwells(plan, beats)
    && (s.phase == Faulted || OnSchedule(s, plan, epoch, |commits|, beats))
  }

  lemma NextIndexWraps(k: nat, n: nat)
    requires 0 < n
    ensures (k + 1) % n == if k % n + 1 < n then k % n + 1 else 0
  {
    assert k + 1 == n * (k / n) + k % n + 1;
    if k % n + 1 < n {
      DivisionIsUnique(k + 1, n, k / n, k % n + 1);
    } else {
      DivisionIsUnique(k + 1, n, k / n + 1, 0);
    }
  }

  /** One cut moves the schedule from `k` commits to `k + 1`. */
  lemma CutKeepsSchedule(s: State, plan: Plan, epoch: u64, k: nat)
    requires plan.steps != [] && s.plan == Some(plan) && s.epoch == epoch
    requires s.expected == Some(TokenAt(plan, epoch, k)) && s.nextSequence == (k + 1) % U64_COUNT
    requires plan.repeat == Once ==> k < |plan.steps|
    ensures var (t, commands) := Committed(s);
            && CommitsIn(commands) == [TokenAt(plan, epoch, k)]
            && t.plan == Some(plan) && t.epoch == epoch && t.phase == Running
            && t.acceptedBeats == s.acceptedBeats
            && t.activeCursor == Some(k % |plan.steps|)
            && t.dueBeat == Some(SaturatingAdd(s.acceptedBeats, HoldAt(plan, k)))
            && if plan.repeat == Once && k + 1 == |plan.steps|
               then t.expected.None? && t.nextSequence == (k + 1) % U64_COUNT
               else t.expected == Some(TokenAt(plan, epoch, k + 1)) && t.nextSequence == (k + 2) % U64_COUNT
  {
    hide Committed, Lookahead, CommitsIn;
    LookaheadOf(plan, k);
    NextSequence(k + 1);
    CutIs(s, plan, TokenAt(plan, epoch, k));
  }

  /** The step after the k-th in plan order. */
  lemma LookaheadOf(plan: Plan, k: nat)
    requires plan.steps != [] && (plan.repeat == Once ==> k < |plan.steps|)
    ensures Lookahead(plan, k % |plan.steps|) ==
            if plan.repeat == Once && k + 1 == |plan.steps| then None else Some((k + 1) % |plan.steps|)
  {
    var n := |plan.steps|;
    NextIndexWraps(k, n);
    if plan.repeat == Once {
      DivisionIsUnique(k, n, 0, k);
    }
  }

  lemma NextSequence(k: nat)
    ensures WrappingNext(k % U64_COUNT) == (k + 1) % U64_COUNT
  {
    NextIndexWraps(k, U64_COUNT);
  }

  /** One cut, field by field. */
  lemma CutIs(s: State, plan: Plan, target: Target)
    requires s.plan == Some(plan) && s.expected == Some(target) && target.stepIndex < |plan.steps|
    ensures var (t, commands) := Committed(s);
            && CommitsIn(commands) == [target]
            && t.plan == Some(plan) && t.epoch == s.epoch && t.phase == Running
            && t.acceptedBeats == s.acceptedBeats && t.activeCursor == Some(target.stepIndex)
            && t.dueBeat == Some(SaturatingAdd(s.acceptedBeats, plan.steps[target.stepIndex].holdBeats))
            && var next := Lookahead(plan, target.stepIndex);
               if next.None? then t.expected.None? && t.nextSequence == s.nextSequence
               else
                 && t.expected == Some(Target(s.epoch, s.nextSequence, next.value, plan.steps[next.value].sceneId))
                 && t.nextSequence == WrappingNext(s.nextSequence)
  {
    hide CommitsIn, WrappingNext, SaturatingAdd, Lookahead;
    CommitsInBatch(Committed(s).1);
  }

  /** Every step that does not cut leaves the schedule where it was, or faults. */
  lemma QuietStepKeepsSchedule(s: State, e: Event, plan: Plan, epoch: u64, k: nat, beats: seq<u64>)
    requires plan.steps != [] && |beats| == k && OnSchedule(s, plan, epoch, k, beats)
    requires !e.OnPlay? && !e.OnReset?
    requires CommitsIn(Step(s, e).1) == []
    ensures Step(s, e).0.phase == Faulted || OnSchedule(Step(s, e).0, plan, epoch, k, beats)
  {
    if e.OnFrame? && !RejectsExpected(s, e.input.readiness) {
      var l := Latched(s, e.input.readiness);
      assert OnSchedule(l, plan, epoch, k, beats);
      if Admits(s, e.input) && e.input.crossedBeats > 0 {
        var t := l.(acceptedBeats := SaturatingAdd(l.acceptedBeats, e.input.crossedBeats));
        assert OnSchedule(t, plan, epoch, k, beats);
        QuietTickKeepsSchedule(l, t, e.input.crossedBeats, plan, epoch, k, beats);
      }
    }
  }

  lemma QuietTickKeepsSchedule(l: State, t: State, crossed: nat, plan: Plan, epoch: u64, k: nat, beats: seq<u64>)
    requires plan.steps != [] && |beats| == k && OnSchedule(t, plan, epoch, k, beats)
    requires l.phase in {Starting, Running, Stalled}
    requires t == l.(acceptedBeats := SaturatingAdd(l.acceptedBeats, crossed))
    requires CommitsIn(Ticked(l, crossed).1) == []
    ensures Ticked(l, crossed).0.phase == Faulted || OnSchedule(Ticked(l, crossed).0, plan, epoch, k, beats)
  {
    if t.expected.Some? && t.expectedReady {
      CutKeepsSchedule(t, plan, epoch, k);
    }
  }

  /** Only an admitted, ready frame whose hold has run out cuts, and it cuts the ticked state. */
  lemma CuttingStep(s: State, e: Event, plan: Plan, epoch: u64, k: nat, beats: seq<u64>)
    requires plan.steps != [] && |beats| == k && OnSchedule(s, plan, epoch, k, beats)
    requires !e.OnPlay? && !e.OnReset?
    requires CommitsIn(Step(s, e).1) != []
    ensures && e.OnFrame?
            && s.phase in {Starting, Running, Stalled}
            && s.expected == Some(TokenAt(plan, epoch, k))
            && var l := Latched(s, e.input.readiness);
               var t := l.(acceptedBeats := SaturatingAdd(l.acceptedBeats, e.input.crossedBeats));
               Step(s, e) == Committed(t)
               && (s.phase == Running ==> t.acceptedBeats >= s.dueBeat.value)
  {
    CommitsInBatch(Step(s, e).1);
  }

  lemma CutKeepsDwell(s: State, t: State, plan: Plan, epoch: u64, k: nat, beats: seq<u64>)
    requires plan.steps != [] && |beats| == k && OnSchedule(s, plan, epoch, k, beats)
    requires s.phase in {Starting, Running, Stalled} && t.acceptedBeats >= s.acceptedBeats
    requires s.phase == Running ==> t.acceptedBeats >= s.dueBeat.value
    requires Dwells(plan, beats)
    ensures Dwells(plan, beats + [t.acceptedBeats])
  {
  }

  lemma StepKeepsHistory(s: State, e: Event, plan: Plan, epoch: u64, commits: seq<Target>, beats: seq<u64>)
    requires plan.steps != [] && History(s, plan, epoch, commits, beats)
    requires !e.OnPlay? && !e.OnReset?
    ensures var (t, commands) := Step(s, e);
            var cut := CommitsIn(commands);
            History(t, plan, epoch, commits + cut, beats + if cut == [] then [] else [t.acceptedBeats])
  {
    hide Step, CommitsIn, OnSchedule, InOrder, Dwells, TokenAt;
    var cut := CommitsIn(Step(s, e).1);
    if s.phase == Faulted {
      FaultedStaysFaulted(s, e);
    }
    if cut == [] {
      assert commits + cut == commits && beats + [] == beats;
      if s.phase != Faulted {
        QuietStepKeepsSchedule(s, e, plan, epoch, |commits|, beats);
      }
    } else {
      CutKeepsHistory(s, e, plan, epoch, commits, beats);
    }
  }

  lemma CutKeepsHistory(s: State, e: Event, plan: Plan, epoch: u64, commits: seq<Target>, beats: seq<u64>)
    requires plan.steps != [] && History(s, plan, epoch, commits, beats) && s.phase != Faulted
    requires !e.OnPlay? && !e.OnReset? && CommitsIn(Step(s, e).1) != []
    ensures var (t, commands) := Step(s, e);
            History(t, plan, epoch, commits + CommitsIn(commands), beats + [t.acceptedBeats])
  {
    hide Step, CommitsIn, OnSchedule, InOrder, Dwells, TokenAt, Committed;
    var k := |commits|;
    var t := Step(s, e).0;
    CuttingStep(s, e, plan, epoch, k, beats);
    ScheduleMeans(s, plan, epoch, k, beats);
    var l := Latched(s, e.input.readiness);
    var ticked := l.(acceptedBeats := SaturatingAdd(l.acceptedBeats, e.input.crossedBeats));
    CutKeepsSchedule(ticked, plan, epoch, k);
    CutKeepsDwell(s, t, plan, epoch, k, beats);
    OneMoreInOrder(plan, epoch, commits);
    ScheduleAfterCut(t, plan, epoch, k, beats);
  }

  /** What a state that still expects its token in order has at hand. */
  lemma ScheduleMeans(s: State, plan: Plan, epoch: u64, k: nat, beats: seq<u64>)
    requires plan.steps != [] && |beats| == k && OnSchedule(s, plan, epoch, k, beats) && s.expected.Some?
    ensures s.plan == Some(plan) && s.epoch == epoch && s.nextSequence == (k + 1) % U64_COUNT
    ensures plan.repeat == Once ==> k < |plan.steps|
  {
    hide TokenAt, HoldAt;
  }

  lemma OneMoreInOrder(plan: Plan, epoch: u64, commits: seq<Target>)
    requires plan.steps != [] && InOrder(plan, epoch, commits)
    requires plan.repeat == Once ==> |commits| < |plan.steps|
    ensures InOrder(plan, epoch, commits + [TokenAt(plan, epoch, |commits|)])
  {
    hide TokenAt;
  }

  /** The fields of a state right after the k-th cut put it on schedule for the next. */
  lemma ScheduleAfterCut(t: State, plan: Plan, epoch: u64, k: nat, beats: seq<u64>)
    requires plan.steps != [] && |beats| == k && (plan.repeat == Once ==> k < |plan.steps|)
    requires t.plan == Some(plan) && t.epoch == epoch && t.phase == Running
    requires t.activeCursor == Some(k % |plan.steps|)
    requires t.dueBeat == Some(SaturatingAdd(t.acceptedBeats, HoldAt(plan, k)))
    requires if plan.repeat == Once && k + 1 == |plan.steps|
             then t.expected.None? && t.nextSequence == (k + 1) % U64_COUNT
             else t.expected == Some(TokenAt(plan, epoch, k + 1)) && t.nextSequence == (k + 2) % U64_COUNT
    ensures OnSchedule(t, plan, epoch, k + 1, beats + [t.acceptedBeats])
  {
    hide TokenAt, HoldAt, SaturatingAdd;
    assert (beats + [t.acceptedBeats])[k] == t.acceptedBeats;
  }

  lemma FaultedStaysFaulted(s: State, e: Event)
    requires s.phase == Faulted && !e.OnPlay? && !e.OnReset?
    ensures Step(s, e).0.phase == Faulted
    ensures CommitsIn(Step(s, e).1) == []
    ensures s.resumePhase.None? && s.expected.None? && s.lastCommit.None? ==>
              var t := Step(s, e).0;
              t.resumePhase.None? && t.expected.None? && t.lastCommit.None? && t.activeCursor == s.activeCursor && t.plan == s.plan
  {
    CommitsInBatch(Step(s, e).1);
  }

  lemma {:induction false} RunKeepsHistory(s: State, plan: Plan, es: seq<Event>)
    requires plan.steps != [] && History(s, plan, s.epoch, [], [])
    requires WithinOnePlay(es)
    ensures History(Run(s, es).0, plan, s.epoch, CommitsIn(Run(s, es).1), CommitBeats(s, es))
  {
    if es != [] {
      var before := es[..|es| - 1];
      RunKeepsHistory(s, plan, before);
      var (m, log) := Run(s, before);
      var e := es[|es| - 1];
      StepKeepsHistory(m, e, plan, s.epoch, CommitsIn(log), CommitBeats(s, before));
      CommitsInConcat(log, Step(m, e).1);
    }
  }

  /**
   No skip, no catch-up, whole run: after a successful play from any state, and under
   any interleaving of frames, pauses, resumes, readiness reports and faults, the
   i-th cut carries the play's epoch, sequence i (modulo 2^64) and step i mod n; Once
   cuts at most n times; each cut waits at least the hold of the one before it; and
   the scheduler has faulted or stands exactly at the next token in order.
   */
  lemma NoSkip(s: State, plan: Plan, scenes: set<SceneId>, es: seq<Event>)
    requires Playable(plan, scenes) && WithinOnePlay(es)
    ensures var (armed, first) := Step(s, OnPlay(plan, scenes));
            var (end, log) := Run(armed, es);
            && CommitsIn(first) == []
            && armed.epoch == NextEpoch(s.epoch) != s.epoch
            && InOrder(plan, armed.epoch, CommitsIn(log))
            && |CommitBeats(armed, es)| == |CommitsIn(log)|
            && Dwells(plan, CommitBeats(armed, es))
            && (end.phase == Faulted || OnSchedule(end, plan, armed.epoch, |CommitsIn(log)|, CommitBeats(armed, es)))
  {
    var (armed, first) := Step(s, OnPlay(plan, scenes));
    CommitsInBatch(first);
    RunKeepsHistory(armed, plan, es);
  }

  /** A play that is not admissible never cuts at all, and says which step is broken first. */
  lemma RejectedPlayNeverCuts(s: State, plan: Plan, scenes: set<SceneId>)
    requires !Playable(plan, scenes)
    ensures plan.steps == [] ==> Step(s, OnPlay(plan, scenes)) == (s, [])
    ensures plan.steps != [] ==>
              var (t, commands) := Step(s, OnPlay(plan, scenes));
              && t.phase == Faulted && commands == [CancelOwned(s.epoch)]
              && t.fault.Some? && t.fault.value.MissingSceneFault?
              && var i := t.fault.value.issue.stepIndex;
                 && i < |plan.steps| && plan.steps[i].sceneId !in scenes
                 && forall j :: 0 <= j < i ==> plan.steps[j].sceneId in scenes
  {
  }

  /** A faulted sequence holds its output: no later event short of Play or Reset cuts or moves it. */
  lemma {:induction false} FaultedHoldsUntilPlay(s: State, es: seq<Event>)
    requires s.phase == Faulted && s.resumePhase.None? && s.expected.None? && s.lastCommit.None?
    requires WithinOnePlay(es)
    ensures var (end, log) := Run(s, es);
            && CommitsIn(log) == []
            && end.phase == Faulted && end.resumePhase.None? && end.expected.None? && end.lastCommit.None?
            && end.activeCursor == s.activeCursor && end.plan == s.plan
  {
    if es != [] {
      var before := es[..|es| - 1];
      FaultedHoldsUntilPlay(s, before);
      var (m, log) := Run(s, before);
      CommitsInConcat(log, Step(m, es[|es| - 1]).1);
      FaultedStaysFaulted(m, es[|es| - 1]);
    }
  }
}
