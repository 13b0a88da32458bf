/**
 What the single calls and the first frames of a play do, told by what an observer sees: the
 release frame that never counts, stalling and completing, epochs and recorded faults.
 */
module AutopilotFrames {
  import opened Wrappers
  import opened Autopilot
  import opened AutopilotRuns

  // ------------------------------------------------------------------
  // The release frame
  // ------------------------------------------------------------------

  /** A frame that finds the scheduler in one of the three live phases. */
  predicate LiveFrame(s: State, e: Event) {
    e.OnFrame? && (s.phase == Starting || s.phase == Running || s.phase == Stalled)
  }

  /** How many frames of the run did. */
  function LiveFrames(s: State, es: seq<Event>): nat {
    if es == [] then 0
    else
      LiveFrames(s, es[..|es| - 1]) + if LiveFrame(Run(s, es[..|es| - 1]).0, es[|es| - 1]) then 1 else 0
  }

  /** The state a play leaves. */
  function Armed(s: State, plan: Plan, scenes: set<SceneId>): State {
    Step(s, OnPlay(plan, scenes)).0
  }

  /** Some live phase is still ahead, and the release frame with it exactly while none has been live. */
  predicate ReleaseAhead(m: State, live: nat) {
    && (m.phase == Paused ==> m.resumePhase.Some?)
    && (Scheduling(m) ==> (m.suppressFirstRelease <==> live == 0))
    && (live == 0 ==> m.acceptedBeats == 0)
  }

  lemma ArmedIsAhead(s: State, plan: Plan, scenes: set<SceneId>)
    requires Playable(plan, scenes)
    ensures ReleaseAhead(Armed(s, plan, scenes), 0) && Inv(Armed(s, plan, scenes))
  {
  }

  lemma StepKeepsAhead(m: State, e: Event, live: nat)
    requires ReleaseAhead(m, live) && Inv(m) && !e.OnPlay? && !e.OnReset?
    ensures ReleaseAhead(Step(m, e).0, live + if LiveFrame(m, e) then 1 else 0)
  {
    if e.OnFrame? && Admits(m, e.input) && e.input.crossedBeats > 0 {
      var l := Latched(m, e.input.readiness);
      CommittedKeepsFlag(l.(acceptedBeats := SaturatingAdd(l.acceptedBeats, e.input.crossedBeats)));
    }
  }

  lemma CommittedKeepsFlag(s: State)
    ensures var t := Committed(s).0;
            t.suppressFirstRelease == s.suppressFirstRelease && (t.phase == Running || t.phase == s.phase)
    ensures Committed(s).0.resumePhase == s.resumePhase
  {
  }

  lemma {:induction false} PlayStaysAhead(s: State, plan: Plan, scenes: set<SceneId>, es: seq<Event>)
    requires Playable(plan, scenes) && WithinOnePlay(es)
    ensures var armed := Armed(s, plan, scenes);
            ReleaseAhead(Run(armed, es).0, LiveFrames(armed, es)) && Inv(Run(armed, es).0)
  {
    hide ReleaseAhead, Inv, Step, LiveFrame;
    var armed := Armed(s, plan, scenes);
    if es == [] {
      ArmedIsAhead(s, plan, scenes);
    } else {
      var before, last := es[..|es| - 1], es[|es| - 1];
      PlayStaysAhead(s, plan, scenes, before);
      StepKeepsAhead(Run(armed, before).0, last, LiveFrames(armed, before));
      StepKeepsInv(Run(armed, before).0, last);
    }
  }

  /**
   From any state: the first frame after a play that finds the scheduler live neither cuts nor
   counts a crossing, whatever it reports and whatever came in between.
   */
  lemma FirstLiveFrameIsSpent(s: State, plan: Plan, scenes: set<SceneId>, es: seq<Event>, e: Event)
    requires Playable(plan, scenes) && WithinOnePlay(es)
    requires LiveFrames(Armed(s, plan, scenes), es) == 0 && LiveFrame(Run(Armed(s, plan, scenes), es).0, e)
    ensures var m := Run(Armed(s, plan, scenes), es).0;
            var (t, commands) := Step(m, e);
            && t.acceptedBeats == m.acceptedBeats == 0
            && (forall c :: c in commands ==> c == CancelOwned(m.epoch))
            && (t.phase == Faulted || (commands == [] && t.phase == m.phase && t.expected == m.expected))
  {
    hide Run, LiveFrames, Inv;
    PlayStaysAhead(s, plan, scenes, es);
  }

  /** So every cut of a play has a live frame before it. */
  lemma CutNeedsAnEarlierLiveFrame(s: State, plan: Plan, scenes: set<SceneId>, es: seq<Event>, e: Event)
    requires Playable(plan, scenes) && WithinOnePlay(es) && !e.OnPlay? && !e.OnReset?
    requires CommitsIn(Step(Run(Armed(s, plan, scenes), es).0, e).1) != []
    ensures exists j :: 0 <= j < |es| && LiveFrame(Run(Armed(s, plan, scenes), es[..j]).0, es[j])
  {
    hide Run, LiveFrames, Step, CommitsIn, Inv;
    var armed := Armed(s, plan, scenes);
    var m := Run(armed, es).0;
    PlayStaysAhead(s, plan, scenes, es);
    OneCutPerFrameAndNoCatchUp(m, e);
    CutIsLive(m, e);
    if LiveFrames(armed, es) == 0 {
      FirstLiveFrameIsSpent(s, plan, scenes, es, e);
      var commands := Step(m, e).1;
      assert forall i :: 0 <= i < |commands| ==> commands[i] in commands;
      NothingCut(commands, m.epoch);
      assert false;
    }
    SomeLiveFrame(armed, es);
  }

  lemma CutIsLive(m: State, e: Event)
    requires Inv(m) && !e.OnPlay? && !e.OnReset? && CommitsIn(Step(m, e).1) != []
    ensures LiveFrame(m, e)
  {
    CommitsInBatch(Step(m, e).1);
  }

  lemma {:induction false} NothingCut(log: seq<Command>, epoch: u64)
    requires forall i :: 0 <= i < |log| ==> log[i] == CancelOwned(epoch)
    ensures CommitsIn(log) == []
  {
    if log != [] {
      NothingCut(log[..|log| - 1], epoch);
    }
  }

  lemma {:induction false} SomeLiveFrame(s: State, es: seq<Event>)
    requires LiveFrames(s, es) > 0
    ensures exists j :: 0 <= j < |es| && LiveFrame(Run(s, es[..j]).0, es[j])
  {
    hide LiveFrame, Run;
    var before := es[..|es| - 1];
    if LiveFrame(Run(s, before).0, es[|es| - 1]) {
      assert LiveFrame(Run(s, es[..|es| - 1]).0, es[|es| - 1]);
    } else {
      SomeLiveFrame(s, before);
      var j :| 0 <= j < |before| && LiveFrame(Run(s, before[..j]).0, before[j]);
      assert before[..j] == es[..j] && before[j] == es[j];
    }
  }

  /** The crossings that count: of live frames after the first, with the media running and nothing rejected. */
  function CountedCrossings(s: State, es: seq<Event>): nat {
    if es == [] then 0
    else
      var before, e := es[..|es| - 1], es[|es| - 1];
      var m := Run(s, before).0;
      CountedCrossings(s, before) +
      if LiveFrame(m, e) && LiveFrames(s, before) > 0 && e.input.mediaRunning
         && !(m.expected.Some? && e.input.readiness == Failed(m.expected.value))
      then e.input.crossedBeats else 0
  }

  /** The beat ordinal of a play is exactly the sum of those, up to the widest 64-bit number. */
  lemma {:induction false} BeatsOfAPlay(s: State, plan: Plan, scenes: set<SceneId>, es: seq<Event>)
    requires Playable(plan, scenes) && WithinOnePlay(es)
    ensures var armed := Armed(s, plan, scenes);
            var sum := CountedCrossings(armed, es);
            Run(armed, es).0.acceptedBeats == if sum < 0x1_0000_0000_0000_0000 then sum else 0xFFFF_FFFF_FFFF_FFFF
  {
    hide Step, Inv, LiveFrames;
    var armed := Armed(s, plan, scenes);
    if es == [] {
      ArmedIsAhead(s, plan, scenes);
      NoFrames(armed);
    } else {
      var before, last := es[..|es| - 1], es[|es| - 1];
      BeatsOfAPlay(s, plan, scenes, before);
      PlayStaysAhead(s, plan, scenes, before);
      CountsOne(Run(armed, before).0, last, LiveFrames(armed, before));
    }
  }

  lemma NoFrames(s: State)
    ensures LiveFrames(s, []) == 0
  {
  }

  lemma CountsOne(m: State, e: Event, live: nat)
    requires ReleaseAhead(m, live) && !e.OnPlay? && !e.OnReset?
    ensures var counted := LiveFrame(m, e) && live > 0 && e.input.mediaRunning
                           && !(m.expected.Some? && e.input.readiness == Failed(m.expected.value));
            var sum := m.acceptedBeats + if counted then e.input.crossedBeats else 0;
            Step(m, e).0.acceptedBeats == if sum < 0x1_0000_0000_0000_0000 then sum else 0xFFFF_FFFF_FFFF_FFFF
  {
    if e.OnFrame? && Admits(m, e.input) && e.input.crossedBeats > 0 {
      var l := Latched(m, e.input.readiness);
      CommittedKeepsOrdinal(l.(acceptedBeats := SaturatingAdd(l.acceptedBeats, e.input.crossedBeats)));
    }
  }

  lemma CommittedKeepsOrdinal(s: State)
    ensures Committed(s).0.acceptedBeats == s.acceptedBeats
  {
  }

  /**
   When a frame of a play cuts, and which token: some live frame came before it, the media runs,
   a beat was crossed, the token is the expected one and reported ready, and the hold is over.
   */
  lemma PlayCutsExactlyWhen(s: State, plan: Plan, scenes: set<SceneId>, es: seq<Event>, input: FrameInput, t: Target)
    requires Playable(plan, scenes) && WithinOnePlay(es)
    ensures var m := Run(Armed(s, plan, scenes), es).0;
            m.phase == Running ==> m.dueBeat.Some?
    ensures var armed := Armed(s, plan, scenes);
            var m := Run(armed, es).0;
            Commit(t) in Step(m, OnFrame(input)).1 <==>
              && LiveFrame(m, OnFrame(input)) && LiveFrames(armed, es) > 0
              && input.mediaRunning && input.crossedBeats > 0
              && m.expected == Some(t) && (m.expectedReady || input.readiness == Ready(t)) && input.readiness != Failed(t)
              && (m.phase == Running ==> m.acceptedBeats + input.crossedBeats >= m.dueBeat.value)
  {
    hide Run, LiveFrames, Inv;
    PlayStaysAhead(s, plan, scenes, es);
    CutsExactlyWhen(Run(Armed(s, plan, scenes), es).0, input, t);
  }

  lemma CutsExactlyWhen(m: State, input: FrameInput, t: Target)
    requires Inv(m)
    ensures m.phase == Running ==> m.dueBeat.Some?
    ensures Commit(t) in Step(m, OnFrame(input)).1 <==>
              && LiveFrame(m, OnFrame(input)) && !m.suppressFirstRelease
              && input.mediaRunning && input.crossedBeats > 0
              && m.expected == Some(t) && (m.expectedReady || input.readiness == Ready(t)) && input.readiness != Failed(t)
              && (m.phase == Running ==> m.acceptedBeats + input.crossedBeats >= m.dueBeat.value)
  {
    FrameCommitsExactlyWhen(m, input, t);
  }

  // ------------------------------------------------------------------
  // Stalling and completing
  // ------------------------------------------------------------------

  /** Where an admitted frame that crossed beats leaves a running hold: it goes on, or it is over. */
  lemma HoldEndsExactlyWhen(s: State, input: FrameInput)
    requires Inv(s) && s.phase == Running && !s.suppressFirstRelease && input.mediaRunning && input.crossedBeats > 0
    requires s.expected.None? || input.readiness != Failed(s.expected.value)
    ensures s.dueBeat.Some?
    ensures var (t, commands) := Step(s, OnFrame(input));
            var due := s.acceptedBeats + input.crossedBeats >= s.dueBeat.value;
            var ready := s.expected.Some? && (s.expectedReady || input.readiness == Ready(s.expected.value));
            && (t.phase == Stalled <==> due && s.expected.Some? && !ready)
            && (t.phase == Complete <==> due && s.expected.None?)
            && (t.phase == Running <==> !due || ready)
            && (commands == [] <==> !due || !ready)
            && (t.phase == Stalled ==> t.dueBeat == s.dueBeat && t.activeCursor == s.activeCursor && t.expected == s.expected)
            && (t.phase == Complete ==> t.dueBeat.None? && t.activeCursor == s.activeCursor)
  {
    if s.expected.Some? {
      CommittedCuts(Latched(s, input.readiness).(acceptedBeats := SaturatingAdd(s.acceptedBeats, input.crossedBeats)));
    }
  }

  lemma CommittedCuts(s: State)
    requires s.expected.Some? && ValidStep(s, s.expected.value.stepIndex)
    ensures Committed(s).1 != [] && Committed(s).0.phase == Running
  {
  }

  /** A stalled or starting scheduler waits, counting beats, until its token is ready. */
  lemma WaitsUntilReady(s: State, input: FrameInput)
    requires Inv(s) && s.phase in {Starting, Stalled}
    requires !s.expectedReady && (input.readiness.Pending? || s.expected != Some(input.readiness.target))
    ensures Step(s, OnFrame(input)).0.phase == s.phase && Step(s, OnFrame(input)).1 == []
    ensures Step(s, OnFrame(input)).0.expected == s.expected
  {
  }

  // ------------------------------------------------------------------
  // Epochs and faults
  // ------------------------------------------------------------------

  /** The calls that end an epoch. */
  predicate EndsEpoch(s: State, e: Event) {
    match e
    case OnPlay(plan, _) => plan.steps != []
    case OnReset => true
    case OnFault(_) => true
    case OnFrame(input) => s.expected.Some? && input.readiness == Failed(s.expected.value)
    case _ => false
  }

  /**
   Exactly those calls cancel, first of all and only once; they cancel what was owned under the
   epoch they end, and go on in the next, which is never zero.
   */
  lemma EpochsEndWithTheirCancel(s: State, e: Event)
    requires Inv(s)
    ensures var (t, commands) := Step(s, e);
            if EndsEpoch(s, e) then
              && commands != [] && commands[0] == CancelOwned(s.epoch)
              && (forall i :: 0 < i < |commands| ==> !commands[i].CancelOwned?)
              && t.epoch == (if s.epoch == 0xFFFF_FFFF_FFFF_FFFF then 1 else s.epoch + 1)
            else
              t.epoch == s.epoch && forall c :: c in commands ==> !c.CancelOwned?
  {
  }

  /** A play arms its first step under the new epoch, whatever was going on. */
  lemma PlayArmsItsFirstStep(s: State, plan: Plan, scenes: set<SceneId>)
    requires Playable(plan, scenes)
    ensures var (t, commands) := Step(s, OnPlay(plan, scenes));
            var first := Target(if s.epoch == 0xFFFF_FFFF_FFFF_FFFF then 1 else s.epoch + 1, 0, 0, plan.steps[0].sceneId);
            && commands == [CancelOwned(s.epoch), Prepare(first)]
            && t.phase == Starting && t.expected == Some(first) && !t.expectedReady
            && t.activeCursor.None? && t.dueBeat.None? && t.fault.None? && t.acceptedBeats == 0
    ensures AfterPlay(s, plan, scenes).1 == Ok(Step(s, OnPlay(plan, scenes)).1)
  {
  }

  /** The error a refused play returns, beside the fault it leaves. */
  lemma RefusedPlaySaysWhy(s: State, plan: Plan, scenes: set<SceneId>)
    requires !Playable(plan, scenes)
    ensures var (t, r) := AfterPlay(s, plan, scenes);
            && r.Err? && r.error.commands == Step(s, OnPlay(plan, scenes)).1
            && (plan.steps == [] ==> r.error.error == EmptyPlan)
            && (plan.steps != [] ==> r.error.error.MissingScene? && t.fault == Some(MissingSceneFault(r.error.error.issue)))
  {
  }

  /** Nothing but the epoch survives a play that is not empty, or a reset. */
  lemma PastIsForgotten(s: State, t: State, plan: Plan, scenes: set<SceneId>)
    requires s.epoch == t.epoch
    ensures plan.steps != [] ==> Step(s, OnPlay(plan, scenes)) == Step(t, OnPlay(plan, scenes))
    ensures Step(s, OnReset) == Step(t, OnReset)
    ensures Step(s, OnReset).0 == DEFAULT_STATE.(epoch := Step(s, OnReset).0.epoch)
  {
  }

  /** What a fault records, and what it leaves in place. */
  lemma FaultsAreRecorded(s: State, e: Event)
    requires Inv(s) && EndsEpoch(s, e) && !e.OnPlay? && !e.OnReset?
    ensures var t := Step(s, e).0;
            && t.phase == Faulted
            && t.fault == Some(if e.OnFault? then e.reason else PreparationFault(s.expected.value))
            && t.plan == s.plan && t.acceptedBeats == s.acceptedBeats
            && t.expected.None? && t.dueBeat.None? && t.lastCommit.None?
            && t.activeCursor == (if e.OnFault? && e.reason.CommitFault? && s.lastCommit.Some?
                                     && s.lastCommit.value.target == e.reason.target
                                  then s.lastCommit.value.priorCursor else s.activeCursor)
  {
  }

  /** The pauses: from the three live phases into Paused and back; anywhere else they change nothing. */
  lemma PausesAreExact(s: State)
    requires Inv(s)
    ensures Step(s, OnPause).1 == [] && Step(s, OnResume).1 == []
    ensures s.phase in {Starting, Running, Stalled} ==>
              && Step(s, OnPause).0.phase == Paused
              && Step(Step(s, OnPause).0, OnResume).0 == s
    ensures s.phase !in {Starting, Running, Stalled} ==> Step(s, OnPause).0 == s
    ensures s.phase != Paused ==> Step(s, OnResume).0 == s
  {
  }
}
