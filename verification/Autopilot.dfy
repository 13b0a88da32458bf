/**
 The Scene-only beat Autopilot scheduler.

 `Scheduler` is the object the host drives: its methods update fields in place
 and return command batches.  `State` is a snapshot of those fields, and the
 functions over `State` say which state and which commands every method must
 produce.  Whole-run properties live in AutopilotRuns and AutopilotHost.
 */
module Autopilot {
  import opened Wrappers

  type SceneId = nat

  type HoldBeats = n: int | 1 <= n <= 256 witness 1

  datatype Repeat = Once | Loop

  datatype PlanStep = PlanStep(sceneId: SceneId, holdBeats: HoldBeats)

  datatype Plan = Plan(repeat: Repeat, steps: seq<PlanStep>)

  datatype Phase = Stopped | Starting | Running | Paused | Stalled | Faulted | Complete

  /** Identity of one preparation/commit request. */
  datatype Target = Target(epoch: u64, sequence: u64, stepIndex: nat, sceneId: SceneId)

  datatype Command =
    | CancelOwned(epoch: u64)
    | Prepare(target: Target)
    | Commit(target: Target)

  datatype Readiness = Pending | Ready(target: Target) | Failed(target: Target)

  datatype FrameInput = FrameInput(crossedBeats: nat, mediaRunning: bool, readiness: Readiness)

  datatype SceneIssue = SceneIssue(stepIndex: nat, sceneId: SceneId)

  datatype PlayError = EmptyPlan | MissingScene(issue: SceneIssue)

  datatype PlayFailure = PlayFailure(error: PlayError, commands: seq<Command>)

  datatype FaultReason =
    | EmptyPlanFault
    | MissingSceneFault(issue: SceneIssue)
    | PreparationFault(target: Target)
    | CommitFault(target: Target)
    | ReferenceFault(sceneId: SceneId)
    | InvariantFault

  /** The committed target together with the step that was active before it. */
  datatype LastCommit = LastCommit(target: Target, priorCursor: Option<nat>)

  datatype State = State(
    phase: Phase,
    resumePhase: Option<Phase>,
    epoch: u64,
    nextSequence: u64,
    plan: Option<Plan>,
    cursor: nat,
    activeCursor: Option<nat>,
    lastCommit: Option<LastCommit>,
    acceptedBeats: u64,
    dueBeat: Option<u64>,
    expected: Option<Target>,
    expectedReady: bool,
    suppressFirstRelease: bool,
    fault: Option<FaultReason>)

  const DEFAULT_STATE: State :=
    State(Stopped, None, 0, 0, None, 0, None, None, 0, None, None, false, false, None)

  // ------------------------------------------------------------------
  // What each operation does to a snapshot
  // ------------------------------------------------------------------

  /** Wrapping successor of the epoch; zero is never reused. */
  function NextEpoch(epoch: u64): u64 {
    if WrappingNext(epoch) == 0 then 1 else WrappingNext(epoch)
  }

  /** The first step at or after `from` whose Scene is not authored. */
  function FirstMissing(plan: Plan, scenes: set<SceneId>, from: nat): (issue: Option<SceneIssue>)
    requires from <= |plan.steps|
    ensures issue.None? <==> forall i :: from <= i < |plan.steps| ==> plan.steps[i].sceneId in scenes
    ensures issue.Some? ==>
              && from <= issue.value.stepIndex < |plan.steps|
              && plan.steps[issue.value.stepIndex].sceneId == issue.value.sceneId
              && issue.value.sceneId !in scenes
              && forall i :: from <= i < issue.value.stepIndex ==> plan.steps[i].sceneId in scenes
    decreases |plan.steps| - from
  {
    if from == |plan.steps| then None
    else if plan.steps[from].sceneId !in scenes then Some(SceneIssue(from, plan.steps[from].sceneId))
    else FirstMissing(plan, scenes, from + 1)
  }

  function Cleared(phase: Phase, epoch: u64): State {
    DEFAULT_STATE.(phase := phase, epoch := epoch)
  }

  function TargetFor(s: State, stepIndex: nat): (target: Target)
    requires s.plan.Some? && stepIndex < |s.plan.value.steps|
  {
    Target(s.epoch, s.nextSequence, stepIndex, s.plan.value.steps[stepIndex].sceneId)
  }

  function Prepared(s: State, stepIndex: nat): State
    requires s.plan.Some? && stepIndex < |s.plan.value.steps|
  {
    s.(nextSequence := WrappingNext(s.nextSequence),
    expected := Some(TargetFor(s, stepIndex)),
    expectedReady := false)
  }

  function AfterPlay(s: State, plan: Plan, scenes: set<SceneId>): (State, Result<seq<Command>, PlayFailure>) {
    var cancel := [CancelOwned(s.epoch)];
    if plan.steps == [] then
      (s, Err(PlayFailure(EmptyPlan, [])))
    else match FirstMissing(plan, scenes, 0)
      case Some(issue) =>
        (Cleared(Faulted, NextEpoch(s.epoch)).(fault := Some(MissingSceneFault(issue))),
        Err(PlayFailure(MissingScene(issue), cancel)))
      case None =>
        var armed := Cleared(Starting, NextEpoch(s.epoch)).(plan := Some(plan), suppressFirstRelease := true);
        (Prepared(armed, 0), Ok(cancel + [Prepare(TargetFor(armed, 0))]))
  }

  function AfterReset(s: State): (State, seq<Command>) {
    (Cleared(Stopped, NextEpoch(s.epoch)), [CancelOwned(s.epoch)])
  }

  function AfterPause(s: State): State {
    if s.phase in {Starting, Running, Stalled} then s.(phase := Paused, resumePhase := Some(s.phase)) else s
  }

  function AfterResume(s: State): State {
    if s.phase != Paused then s
    else s.(phase := if s.resumePhase.Some? then s.resumePhase.value else Running, resumePhase := None)
  }

  function Faulting(s: State, fault: FaultReason): (State, seq<Command>) {
    (s.(epoch := NextEpoch(s.epoch),
     phase := Faulted,
     resumePhase := None,
     fault := Some(fault),
     dueBeat := None,
     expected := None,
     expectedReady := false,
     lastCommit := None),
     [CancelOwned(s.epoch)])
  }

  /** A rejected commit restores the step that was visible before it. */
  function RolledBack(s: State, fault: FaultReason): State {
    if fault.CommitFault? && s.lastCommit.Some? && s.lastCommit.value.target == fault.target then
      var prior := s.lastCommit.value.priorCursor;
      s.(activeCursor := prior, cursor := if prior.Some? then prior.value else 0)
    else s
  }

  function AfterFault(s: State, fault: FaultReason): (State, seq<Command>) {
    Faulting(RolledBack(s, fault), fault)
  }

  /** The step prepared behind a commit of `stepIndex`, if the plan has one. */
  function Lookahead(plan: Plan, stepIndex: nat): (next: Option<nat>)
    requires stepIndex < |plan.steps|
    ensures next.Some? ==> next.value < |plan.steps|
  {
    if stepIndex + 1 < |plan.steps| then Some(stepIndex + 1)
    else if plan.repeat == Loop then Some(0)
    else None
  }

  /** `target` becomes the active step and its hold starts at the present beat. */
  function Cut(s: State, target: Target): State
    requires s.plan.Some? && target.stepIndex < |s.plan.value.steps|
  {
    s.(expected := None,
    expectedReady := false,
    cursor := target.stepIndex,
    activeCursor := Some(target.stepIndex),
    lastCommit := Some(LastCommit(target, s.activeCursor)),
    phase := Running,
    dueBeat := Some(SaturatingAdd(s.acceptedBeats, s.plan.value.steps[target.stepIndex].holdBeats)))
  }

  function Committed(s: State): (State, seq<Command>) {
    if s.expected.None? then (s, [])
    else if s.plan.None? || s.expected.value.stepIndex >= |s.plan.value.steps| then (s.(expected := None), [])
    else
      var target := s.expected.value;
      var cut := Cut(s, target);
      match Lookahead(s.plan.value, target.stepIndex)
      case None => (cut, [Commit(target)])
      case Some(next) => (Prepared(cut, next), [Commit(target), Prepare(TargetFor(cut, next))])
  }

  /** `readiness` reports that the current expected target failed to prepare. */
  predicate RejectsExpected(s: State, readiness: Readiness) {
    readiness.Failed? && s.expected == Some(readiness.target)
  }

  function Latched(s: State, readiness: Readiness): State {
    s.(expectedReady := s.expectedReady || (readiness.Ready? && s.expected == Some(readiness.target)))
  }

  /** The frame's crossings reach the beat ordinal. */
  predicate Admits(s: State, input: FrameInput) {
    && !RejectsExpected(s, input.readiness)
    && s.phase in {Starting, Running, Stalled}
    && !s.suppressFirstRelease
    && input.mediaRunning
  }

  function Ticked(s: State, crossed: nat): (State, seq<Command>) {
    var t := s.(acceptedBeats := SaturatingAdd(s.acceptedBeats, crossed));
    if t.phase == Running && t.dueBeat.None? then Faulting(t, InvariantFault)
    else if t.phase == Running && t.acceptedBeats < t.dueBeat.value then (t, [])
    else if t.phase == Running && t.expected.None? then (t.(phase := Complete, dueBeat := None), [])
    else if t.expectedReady then Committed(t)
    else if t.phase == Running then (t.(phase := Stalled), [])
    else (t, [])
  }

  function AfterFrame(s: State, input: FrameInput): (State, seq<Command>) {
    if RejectsExpected(s, input.readiness) then Faulting(s, PreparationFault(input.readiness.target))
    else
      var l := Latched(s, input.readiness);
      if l.phase !in {Starting, Running, Stalled} then (l, [])
      else if l.suppressFirstRelease then (l.(suppressFirstRelease := false), [])
      else if !input.mediaRunning || input.crossedBeats == 0 then (l, [])
      else Ticked(l, input.crossedBeats)
  }

  // ------------------------------------------------------------------
  // The object
  // ------------------------------------------------------------------

  method ValidateScenes(plan: Plan, scenes: set<SceneId>) returns (issue: Option<SceneIssue>)
    ensures issue == FirstMissing(plan, scenes, 0)
  {
    var i := 0;
    while i < |plan.steps|
      invariant 0 <= i <= |plan.steps|
      invariant FirstMissing(plan, scenes, 0) == FirstMissing(plan, scenes, i)
    {
      if plan.steps[i].sceneId !in scenes {
        return Some(SceneIssue(i, plan.steps[i].sceneId));
      }
      i := i + 1;
    }
    return None;
  }

  class Scheduler {
    var phase: Phase
    var resumePhase: Option<Phase>
    var epoch: u64
    var nextSequence: u64
    var plan: Option<Plan>
    var cursor: nat
    var activeCursor: Option<nat>
    var lastCommit: Option<LastCommit>
    var acceptedBeats: u64
    var dueBeat: Option<u64>
    var expected: Option<Target>
    var expectedReady: bool
    var suppressFirstRelease: bool
    var fault: Option<FaultReason>

    ghost function Snapshot(): State
      reads this
    {
      State(phase, resumePhase, epoch, nextSequence, plan, cursor, activeCursor, lastCommit,
            acceptedBeats, dueBeat, expected, expectedReady, suppressFirstRelease, fault)
    }

    constructor ()
      ensures Snapshot() == DEFAULT_STATE
    {
      phase, resumePhase, epoch, nextSequence := Stopped, None, 0, 0;
      plan, cursor, activeCursor, lastCommit := None, 0, None, None;
      acceptedBeats, dueBeat, expected, expectedReady := 0, None, None, false;
      suppressFirstRelease, fault := false, None;
    }

    method Play(newPlan: Plan, scenes: set<SceneId>) returns (r: Result<seq<Command>, PlayFailure>)
      modifies this
      ensures (Snapshot(), r) == AfterPlay(old(Snapshot()), newPlan, scenes)
    {
      if newPlan.steps == [] {
        return Err(PlayFailure(EmptyPlan, []));
      }
      var validation := ValidateScenes(newPlan, scenes);
      var oldEpoch := AdvanceEpoch();
      ClearSequenceState();
      var commands := [CancelOwned(oldEpoch)];
      if validation.Some? {
        phase := Faulted;
        fault := Some(MissingSceneFault(validation.value));
        return Err(PlayFailure(MissingScene(validation.value), commands));
      }
      plan := Some(newPlan);
      phase := Starting;
      suppressFirstRelease := true;
      var prepare := PrepareStep(0);
      if prepare.Some? {
        commands := commands + [prepare.value];
      }
      return Ok(commands);
    }

    method Reset() returns (commands: seq<Command>)
      modifies this
      ensures (Snapshot(), commands) == AfterReset(old(Snapshot()))
    {
      var oldEpoch := AdvanceEpoch();
      ClearSequenceState();
      phase := Stopped;
      commands := [CancelOwned(oldEpoch)];
    }

    method Pause() returns (changed: bool)
      modifies this
      ensures Snapshot() == AfterPause(old(Snapshot()))
      ensures changed <==> old(phase) in {Starting, Running, Stalled}
    {
      if phase == Starting || phase == Running || phase == Stalled {
        resumePhase := Some(phase);
        phase := Paused;
        return true;
      }
      return false;
    }

    method Resume() returns (changed: bool)
      modifies this
      ensures Snapshot() == AfterResume(old(Snapshot()))
      ensures changed <==> old(phase) == Paused
    {
      if phase != Paused {
        return false;
      }
      phase := if resumePhase.Some? then resumePhase.value else Running;
      resumePhase := None;
      return true;
    }

    method AdvanceFrame(input: FrameInput) returns (commands: seq<Command>)
      modifies this
      ensures (Snapshot(), commands) == AfterFrame(old(Snapshot()), input)
    {
      commands := [];
      var failure := AcceptReadiness(input.readiness);
      if failure.Some? {
        return [failure.value];
      }
      if phase !in {Starting, Running, Paused, Stalled} {
        return;
      }
      if phase == Paused {
        return;
      }
      if suppressFirstRelease {
        suppressFirstRelease := false;
        return;
      }
      if !input.mediaRunning || input.crossedBeats == 0 {
        return;
      }
      acceptedBeats := SaturatingAdd(acceptedBeats, input.crossedBeats);
      match phase {
        case Starting =>
          if expectedReady {
            commands := CommitExpected(commands);
          }
        case Running =>
          if dueBeat.None? {
            commands := EnterFault(InvariantFault);
            return;
          }
          if acceptedBeats < dueBeat.value {
            return;
          }
          if expected.None? {
            phase := Complete;
            dueBeat := None;
          } else if expectedReady {
            commands := CommitExpected(commands);
          } else {
            phase := Stalled;
          }
        case Stalled =>
          if expectedReady {
            commands := CommitExpected(commands);
          }
        case _ =>
      }
    }

    method Fault(reason: FaultReason) returns (commands: seq<Command>)
      modifies this
      ensures (Snapshot(), commands) == AfterFault(old(Snapshot()), reason)
    {
      if reason.CommitFault? {
        if lastCommit.Some? {
          if lastCommit.value.target == reason.target {
            var prior := lastCommit.value.priorCursor;
            activeCursor := prior;
            cursor := if prior.Some? then prior.value else 0;
          }
        }
      }
      commands := EnterFault(reason);
    }

    method AcceptReadiness(readiness: Readiness) returns (command: Option<Command>)
      modifies this
      ensures RejectsExpected(old(Snapshot()), readiness) ==>
                && Snapshot() == Faulting(old(Snapshot()), PreparationFault(readiness.target)).0
                && command == Some(CancelOwned(old(epoch)))
      ensures !RejectsExpected(old(Snapshot()), readiness) ==>
                Snapshot() == Latched(old(Snapshot()), readiness) && command == None
    {
      match readiness {
        case Pending =>
          return None;
        case Ready(target) =>
          if expected == Some(target) {
            expectedReady := true;
          }
          return None;
        case Failed(target) =>
          if expected == Some(target) {
            var commands := EnterFault(PreparationFault(target));
            return Some(commands[0]);
          }
          return None;
      }
    }

    method CommitExpected(commands: seq<Command>) returns (extended: seq<Command>)
      modifies this
      ensures Snapshot() == Committed(old(Snapshot())).0
      ensures extended == commands + Committed(old(Snapshot())).1
      ensures commands == [] ==> extended == Committed(old(Snapshot())).1
    {
      extended := commands;
      if expected.None? {
        return;
      }
      var target := expected.value;
      expected := None;
      if plan.None? || target.stepIndex >= |plan.value.steps| {
        return;
      }
      var step := plan.value.steps[target.stepIndex];
      var priorCursor := activeCursor;
      cursor := target.stepIndex;
      activeCursor := Some(target.stepIndex);
      lastCommit := Some(LastCommit(target, priorCursor));
      expectedReady := false;
      phase := Running;
      dueBeat := Some(SaturatingAdd(acceptedBeats, step.holdBeats));
      extended := extended + [Commit(target)];
      assert Snapshot() == Cut(old(Snapshot()), target);
      var nextIndex :=
        if cursor + 1 < |plan.value.steps| then Some(cursor + 1)
        else if plan.value.repeat == Loop then Some(0)
        else None;
      if nextIndex.Some? {
        var prepare := PrepareStep(nextIndex.value);
        if prepare.Some? {
          extended := extended + [prepare.value];
        }
      }
    }

    method PrepareStep(stepIndex: nat) returns (command: Option<Command>)
      modifies this
      ensures old(plan).Some? && stepIndex < |old(plan).value.steps| ==>
                && Snapshot() == Prepared(old(Snapshot()), stepIndex)
                && command == Some(Prepare(TargetFor(old(Snapshot()), stepIndex)))
      ensures !(old(plan).Some? && stepIndex < |old(plan).value.steps|) ==>
                Snapshot() == old(Snapshot()) && command == None
    {
      if plan.None? || stepIndex >= |plan.value.steps| {
        return None;
      }
      var target := Target(epoch, nextSequence, stepIndex, plan.value.steps[stepIndex].sceneId);
      nextSequence := WrappingNext(nextSequence);
      expected := Some(target);
      expectedReady := false;
      return Some(Prepare(target));
    }

    method EnterFault(reason: FaultReason) returns (commands: seq<Command>)
      modifies this
      ensures (Snapshot(), commands) == Faulting(old(Snapshot()), reason)
    {
      var oldEpoch := AdvanceEpoch();
      phase := Faulted;
      resumePhase := None;
      fault := Some(reason);
      dueBeat := None;
      expected := None;
      expectedReady := false;
      lastCommit := None;
      commands := [CancelOwned(oldEpoch)];
    }

    method AdvanceEpoch() returns (oldEpoch: u64)
      modifies this
      ensures Snapshot() == old(Snapshot()).(epoch := NextEpoch(old(epoch)))
      ensures oldEpoch == old(epoch)
    {
      oldEpoch := epoch;
      epoch := WrappingNext(epoch);
      if epoch == 0 {
        epoch := 1;
      }
    }

    method ClearSequenceState()
      modifies this
      ensures Snapshot() == Cleared(old(phase), old(epoch))
    {
      resumePhase, nextSequence, plan, cursor := None, 0, None, 0;
      activeCursor, lastCommit, acceptedBeats, dueBeat := None, None, 0, None;
      expected, expectedReady, suppressFirstRelease, fault := None, false, false, None;
    }
  }
}
