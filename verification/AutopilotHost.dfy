/**
 The scheduler together with the host that makes Scenes visible.  `Execute` follows the
 host's command queue; `Deferred` is a host that may learn of a rejected cut only later.
 */
module AutopilotHost {
  import opened Wrappers
  import opened Autopilot
  import opened AutopilotRuns

  /** `shown` is the step of the present sequence on the output, if any. */
  datatype Host = Host(scheduler: State, shown: Option<nat>)

  /** What the host's work on one batch comes to. */
  datatype Outcome = Outcome(cutSucceeds: bool, stagingSucceeds: bool)

  function Weight(queue: seq<Command>): nat {
    if queue == [] then 0 else (if queue[0].CancelOwned? then 1 else 2) + Weight(queue[1..])
  }

  lemma {:induction false} WeightConcat(a: seq<Command>, b: seq<Command>)
    ensures Weight(a + b) == Weight(a) + Weight(b)
  {
    if a == [] {
      assert a + b == b;
    } else {
      assert (a + b)[1..] == a[1..] + b;
      WeightConcat(a[1..], b);
    }
  }

  /** The host drains its queue; a failed cut clears it, a failed staging appends to it. */
  function Execute(h: Host, queue: seq<Command>, outcome: Outcome): Host
    decreases Weight(queue)
  {
    if queue == [] then h
    else
      var rest := queue[1..];
      match queue[0]
      case CancelOwned(_) => Execute(h, rest, outcome)
      case Prepare(target) =>
        if target.epoch != h.scheduler.epoch || outcome.stagingSucceeds then Execute(h, rest, outcome)
        else
          var (s, commands) := AfterFault(h.scheduler, PreparationFault(target));
          WeightConcat(rest, commands);
          Execute(h.(scheduler := s), rest + commands, outcome)
      case Commit(target) =>
        if target.epoch != h.scheduler.epoch then Execute(h, rest, outcome)
        else if outcome.cutSucceeds then Execute(h.(shown := Some(target.stepIndex)), rest, outcome)
        else
          var (s, commands) := AfterFault(h.scheduler, CommitFault(target));
          assert Weight(commands[1..]) == 0;
          Execute(h.(scheduler := s), commands, outcome)
  }

  /** What the host reports on its own: everything but a failed cut, which it reports while draining. */
  type LoneFault = r: FaultReason | !r.CommitFault? witness InvariantFault

  datatype HostEvent =
    | HostPlay(plan: Plan, scenes: set<SceneId>, outcome: Outcome)
    | HostReset
    | HostPause
    | HostResume
    | HostFrame(input: FrameInput, outcome: Outcome)
    | HostFault(reason: LoneFault, outcome: Outcome)

  /** A rejected Play is tried on a clone, so it changes nothing. */
  function HostStep(h: Host, e: HostEvent): Host {
    match e
    case HostPlay(plan, scenes, outcome) =>
      var (s, r) := AfterPlay(h.scheduler, plan, scenes);
      if r.Err? then h else Execute(Host(s, None), r.value, outcome)
    case HostReset =>
      var (s, commands) := AfterReset(h.scheduler);
      Execute(Host(s, None), commands, Outcome(true, true))
    case HostPause => h.(scheduler := AfterPause(h.scheduler))
    case HostResume => h.(scheduler := AfterResume(h.scheduler))
    case HostFrame(input, outcome) =>
      var (s, commands) := AfterFrame(h.scheduler, input);
      Execute(h.(scheduler := s), commands, outcome)
    case HostFault(reason, outcome) =>
      var (s, commands) := AfterFault(h.scheduler, reason);
      Execute(h.(scheduler := s), commands, outcome)
  }

  function HostRun(h: Host, es: seq<HostEvent>): Host {
    if es == [] then h else HostStep(HostRun(h, es[..|es| - 1]), es[|es| - 1])
  }

  predicate Agrees(h: Host) {
    h.scheduler.activeCursor == h.shown
  }

  /** Batches without a cut leave the output and the active step alone. */
  lemma {:induction false} QuietBatchKeepsOutput(h: Host, queue: seq<Command>, outcome: Outcome)
    requires Inv(h.scheduler)
    requires forall i :: 0 <= i < |queue| ==> !queue[i].Commit?
    ensures var r := Execute(h, queue, outcome);
            Inv(r.scheduler) && r.shown == h.shown && r.scheduler.activeCursor == h.scheduler.activeCursor
    decreases Weight(queue)
  {
    if queue != [] {
      var rest := queue[1..];
      if queue[0].Prepare? && queue[0].target.epoch == h.scheduler.epoch && !outcome.stagingSucceeds {
        var (s, commands) := AfterFault(h.scheduler, PreparationFault(queue[0].target));
        StepKeepsInv(h.scheduler, OnFault(PreparationFault(queue[0].target)));
        WeightConcat(rest, commands);
        QuietBatchKeepsOutput(h.(scheduler := s), rest + commands, outcome);
      } else {
        QuietBatchKeepsOutput(h, rest, outcome);
      }
    }
  }

  /** The batch of a cut: shown if the cut succeeds, rolled back if it does not. */
  lemma CutBatchKeepsAgreement(s: State, outcome: Outcome, shown: Option<nat>)
    requires Inv(s) && s.phase in {Starting, Running, Stalled} && s.expected.Some? && s.activeCursor == shown
    ensures var (t, commands) := Committed(s);
            var r := Execute(Host(t, shown), commands, outcome);
            Inv(r.scheduler) && Agrees(r)
  {
    hide Inv, Execute, Committed;
    var (t, commands) := Committed(s);
    CommittedKeepsInv(s);
    CutBatch(s);
    ExecuteCut(Host(t, shown), commands, outcome);
    var target := s.expected.value;
    if outcome.cutSucceeds {
      QuietBatchKeepsOutput(Host(t, Some(target.stepIndex)), commands[1..], outcome);
    } else {
      var (u, cancel) := AfterFault(t, CommitFault(target));
      StepKeepsInv(t, OnFault(CommitFault(target)));
      QuietBatchKeepsOutput(Host(u, shown), cancel, outcome);
    }
  }

  /** The batch of a cut: its command first, and a preparation at most behind it. */
  lemma CutBatch(s: State)
    requires Inv(s) && s.phase in {Starting, Running, Stalled} && s.expected.Some?
    ensures var (t, commands) := Committed(s);
            var target := s.expected.value;
            && commands != [] && commands[0] == Commit(target) && target.epoch == t.epoch
            && (forall i :: 0 < i < |commands| ==> !commands[i].Commit?)
            && t.activeCursor == Some(target.stepIndex)
            && t.lastCommit == Some(LastCommit(target, s.activeCursor))
  {
  }

  lemma ExecuteCut(h: Host, queue: seq<Command>, outcome: Outcome)
    requires queue != [] && queue[0].Commit? && queue[0].target.epoch == h.scheduler.epoch
    ensures Execute(h, queue, outcome) ==
            if outcome.cutSucceeds then Execute(h.(shown := Some(queue[0].target.stepIndex)), queue[1..], outcome)
            else
              var (s, commands) := AfterFault(h.scheduler, CommitFault(queue[0].target));
              Execute(h.(scheduler := s), commands, outcome)
  {
  }

  lemma HostFrameKeepsAgreement(h: Host, input: FrameInput, outcome: Outcome)
    requires Inv(h.scheduler) && Agrees(h)
    ensures var r := HostStep(h, HostFrame(input, outcome));
            Inv(r.scheduler) && Agrees(r)
  {
    var s := h.scheduler;
    FrameKeepsInv(s, input);
    var l := Latched(s, input.readiness);
    var t := l.(acceptedBeats := SaturatingAdd(l.acceptedBeats, input.crossedBeats));
    if AfterFrame(s, input) == Committed(t) && Admits(s, input) && t.expected.Some? {
      assert Inv(t);
      CutBatchKeepsAgreement(t, outcome, h.shown);
    } else {
      QuietFrameKeepsActive(s, input);
      QuietBatchKeepsOutput(h.(scheduler := AfterFrame(s, input).0), AfterFrame(s, input).1, outcome);
    }
  }

  lemma QuietFrameKeepsActive(s: State, input: FrameInput)
    requires Inv(s)
    requires var l := Latched(s, input.readiness);
             var t := l.(acceptedBeats := SaturatingAdd(l.acceptedBeats, input.crossedBeats));
             !(AfterFrame(s, input) == Committed(t) && Admits(s, input) && t.expected.Some?)
    ensures AfterFrame(s, input).0.activeCursor == s.activeCursor
    ensures forall i :: 0 <= i < |AfterFrame(s, input).1| ==> !AfterFrame(s, input).1[i].Commit?
  {
  }

  lemma HostStepKeepsAgreement(h: Host, e: HostEvent)
    requires Inv(h.scheduler) && Agrees(h)
    ensures Inv(HostStep(h, e).scheduler) && Agrees(HostStep(h, e))
  {
    match e {
      case HostPlay(plan, scenes, outcome) =>
        var (s, r) := AfterPlay(h.scheduler, plan, scenes);
        PlayEstablishesInv(h.scheduler, plan, scenes);
        if r.Ok? {
          QuietBatchKeepsOutput(Host(s, None), r.value, outcome);
        }
      case HostReset =>
        var (s, commands) := AfterReset(h.scheduler);
        QuietBatchKeepsOutput(Host(s, None), commands, Outcome(true, true));
      case HostFrame(input, outcome) => HostFrameKeepsAgreement(h, input, outcome);
      case HostFault(reason, outcome) =>
        var (s, commands) := AfterFault(h.scheduler, reason);
        StepKeepsInv(h.scheduler, OnFault(reason));
        QuietBatchKeepsOutput(h.(scheduler := s), commands, outcome);
      case _ =>
    }
  }

  /**
   Whatever cuts, stagings or asynchronous preparations fail, after every host event of every
   run the scheduler's active step is the step the host is actually showing.
   */
  lemma {:induction false} HostAlwaysAgrees(es: seq<HostEvent>)
    ensures Inv(HostRun(Host(DEFAULT_STATE, None), es).scheduler)
    ensures Agrees(HostRun(Host(DEFAULT_STATE, None), es))
  {
    if es != [] {
      HostAlwaysAgrees(es[..|es| - 1]);
      HostStepKeepsAgreement(HostRun(Host(DEFAULT_STATE, None), es[..|es| - 1]), es[|es| - 1]);
    }
  }

  // ------------------------------------------------------------------
  // Rejections that arrive late
  // ------------------------------------------------------------------

  /** A host that shows cuts at once and may have to withdraw the latest one later. */
  datatype Deferred = Deferred(scheduler: State, shown: Option<nat>, prior: Option<nat>, latest: Option<Target>)

  function DeferredStep(d: Deferred, e: Event): Deferred {
    var (s, commands) := Step(d.scheduler, e);
    if RejectsLatest(d, e) then Withdraw(d)
    else if e.OnReset? || (e.OnPlay? && e.plan.steps != []) then Deferred(s, None, None, None)
    else
      var cut := CommitsIn(commands);
      if cut == [] then d.(scheduler := s)
      else Deferred(s, Some(cut[0].stepIndex), d.shown, Some(cut[0]))
  }

  /** The report that the latest cut has been rejected. */
  predicate RejectsLatest(d: Deferred, e: Event) {
    e.OnFault? && e.reason.CommitFault? && d.latest == Some(e.reason.target)
  }

  /** The host withdraws its latest cut and reports it. */
  function Withdraw(d: Deferred): Deferred
    requires d.latest.Some?
  {
    Deferred(AfterFault(d.scheduler, CommitFault(d.latest.value)).0, d.prior, d.prior, None)
  }

  predicate Agreed(d: Deferred) {
    d.scheduler.activeCursor == d.shown
  }

  ghost predicate DeferredInv(d: Deferred) {
    && Inv(d.scheduler)
    && Agreed(d)
    && (d.scheduler.lastCommit.Some? ==>
          d.latest.Some? && d.scheduler.lastCommit == Some(LastCommit(d.latest.value, d.prior)))
    && (d.latest.Some? && d.scheduler.phase != Faulted ==> d.scheduler.lastCommit.Some?)
  }

  /** A rejection of the latest cut that comes after another fault, and would move the output. */
  predicate LateWithdrawal(d: Deferred, e: Event) {
    RejectsLatest(d, e) && d.scheduler.phase == Faulted && d.prior != d.shown
  }

  /** One event, of any kind: scheduler and output part exactly when a withdrawal is late. */
  lemma DeferredStepKeepsAgreement(d: Deferred, e: Event)
    requires DeferredInv(d)
    ensures !LateWithdrawal(d, e) ==> DeferredInv(DeferredStep(d, e))
    ensures LateWithdrawal(d, e) ==> !Agreed(DeferredStep(d, e))
  {
    var s := d.scheduler;
    StepKeepsInv(s, e);
    CommitsInBatch(Step(s, e).1);
    if e.OnFrame? {
      DeferredFrameKeepsAgreement(d, e.input);
    } else if RejectsLatest(d, e) {
      WithdrawalAgreesAt(d);
    }
  }

  function DeferredRun(es: seq<Event>): Deferred {
    if es == [] then Deferred(DEFAULT_STATE, None, None, None)
    else DeferredStep(DeferredRun(es[..|es| - 1]), es[|es| - 1])
  }

  /** No withdrawal of the run was late. */
  predicate InTime(es: seq<Event>) {
    es == [] || (InTime(es[..|es| - 1]) && !LateWithdrawal(DeferredRun(es[..|es| - 1]), es[|es| - 1]))
  }

  /** Scheduler and output agreed after every event of the run. */
  predicate AlwaysAgreed(es: seq<Event>) {
    Agreed(DeferredRun(es)) && (es != [] ==> AlwaysAgreed(es[..|es| - 1]))
  }

  /**
   Over every run from construction, whatever is reported and when: scheduler and output agree
   all along if and only if no withdrawal is late.
   */
  lemma {:induction false} DeferredAgreementExactlyWhenInTime(es: seq<Event>)
    ensures AlwaysAgreed(es) <==> InTime(es)
    ensures InTime(es) ==> DeferredInv(DeferredRun(es))
  {
    hide DeferredInv, DeferredStep, LateWithdrawal, Agreed;
    if es == [] {
      DeferredStart();
    } else {
      var before, last := es[..|es| - 1], es[|es| - 1];
      DeferredAgreementExactlyWhenInTime(before);
      if InTime(before) {
        DeferredStepKeepsAgreement(DeferredRun(before), last);
      }
      InvAgrees(DeferredRun(es));
    }
  }

  lemma DeferredStart()
    ensures DeferredInv(DeferredRun([])) && Agreed(DeferredRun([]))
  {
  }

  lemma InvAgrees(d: Deferred)
    ensures DeferredInv(d) ==> Agreed(d)
  {
  }

  lemma DeferredFrameKeepsAgreement(d: Deferred, input: FrameInput)
    requires DeferredInv(d)
    ensures DeferredInv(DeferredStep(d, OnFrame(input)))
  {
    FrameKeepsInv(d.scheduler, input);
    if CommitsIn(AfterFrame(d.scheduler, input).1) == [] {
      QuietFrameRemembers(d.scheduler, input);
    } else {
      CutFrameRemembers(d.scheduler, input);
    }
  }

  lemma QuietFrameRemembers(s: State, input: FrameInput)
    requires Inv(s) && CommitsIn(AfterFrame(s, input).1) == []
    ensures var t := AfterFrame(s, input).0;
            && t.activeCursor == s.activeCursor
            && (t.phase != Faulted ==> t.lastCommit == s.lastCommit && s.phase != Faulted)
            && (t.phase == Faulted ==> t.lastCommit.None? || t.lastCommit == s.lastCommit)
  {
    var l := Latched(s, input.readiness);
    var t := l.(acceptedBeats := SaturatingAdd(l.acceptedBeats, input.crossedBeats));
    if AfterFrame(s, input) == Committed(t) && t.expected.Some? && Admits(s, input) {
      CommittedRemembers(t);
    }
  }

  lemma CutFrameRemembers(s: State, input: FrameInput)
    requires Inv(s) && CommitsIn(AfterFrame(s, input).1) != []
    ensures var (t, commands) := AfterFrame(s, input);
            && s.expected.Some? && CommitsIn(commands) == [s.expected.value]
            && t.lastCommit == Some(LastCommit(s.expected.value, s.activeCursor))
            && t.activeCursor == Some(s.expected.value.stepIndex)
            && t.phase == Running
  {
    CommitsInBatch(AfterFrame(s, input).1);
    var l := Latched(s, input.readiness);
    var t := l.(acceptedBeats := SaturatingAdd(l.acceptedBeats, input.crossedBeats));
    assert AfterFrame(s, input) == Committed(t);
    CommittedRemembers(t);
  }

  lemma CommittedRemembers(s: State)
    requires s.expected.Some? && ValidStep(s, s.expected.value.stepIndex)
    ensures var (t, commands) := Committed(s);
            && t.lastCommit == Some(LastCommit(s.expected.value, s.activeCursor))
            && t.activeCursor == Some(s.expected.value.stepIndex)
            && t.phase == Running
            && CommitsIn(commands) == [s.expected.value]
  {
    CommitsInBatch(Committed(s).1);
  }

  /**
   A withdrawn cut is rolled back exactly when no other fault has been entered since:
   a fault forgets the latest commit, so a rejection reported after it leaves the
   scheduler on a step the host no longer shows (unless both are the same step).
   */
  lemma WithdrawalAgreesAt(d: Deferred)
    requires DeferredInv(d) && d.latest.Some?
    ensures Agreed(Withdraw(d)) <==> d.scheduler.phase != Faulted || d.prior == d.shown
    ensures Agreed(Withdraw(d)) ==> DeferredInv(Withdraw(d))
  {
    StepKeepsInv(d.scheduler, OnFault(CommitFault(d.latest.value)));
  }

  /** The same for every state a run in time can reach. */
  lemma WithdrawalAgreesExactlyWhen(es: seq<Event>)
    requires InTime(es) && DeferredRun(es).latest.Some?
    ensures var d := DeferredRun(es);
            Agreed(Withdraw(d)) <==> d.scheduler.phase != Faulted || d.prior == d.shown
  {
    hide DeferredInv;
    DeferredAgreementExactlyWhenInTime(es);
    WithdrawalAgreesAt(DeferredRun(es));
  }

  /** The failing family is inhabited: a Reference fault between the cut and its rejection. */
  lemma LateRejectionIsLost()
    ensures exists es: seq<Event>, t: Target, f: FaultReason ::
              var s := Run(DEFAULT_STATE, es).0;
              && s.lastCommit == Some(LastCommit(t, None))
              && AfterFault(s, CommitFault(t)).0.activeCursor == None
              && AfterFault(AfterFault(s, f).0, CommitFault(t)).0.activeCursor == Some(t.stepIndex)
  {
    var plan := Plan(Once, [PlanStep(1, 1)]);
    var t := Target(1, 0, 0, 1);
    var s := LateRejectionRun(plan, t);
    assert AfterFault(s, CommitFault(t)).0.activeCursor == None;
    assert AfterFault(AfterFault(s, ReferenceFault(1)).0, CommitFault(t)).0.activeCursor == Some(0);
  }

  lemma LateRejectionRun(plan: Plan, t: Target) returns (s: State)
    requires plan == Plan(Once, [PlanStep(1, 1)]) && t == Target(1, 0, 0, 1)
    ensures s.lastCommit == Some(LastCommit(t, None)) && s.activeCursor == Some(0)
    ensures exists es: seq<Event> :: s == Run(DEFAULT_STATE, es).0
  {
    var es := [OnPlay(plan, {1}), OnFrame(FrameInput(0, true, Ready(t))), OnFrame(FrameInput(1, true, Pending))];
    assert FirstMissing(plan, {1}, 1).None?;
    assert es[..2][..1] == [es[0]] && es[..2][..1][..0] == [] && es[..3][..2] == es[..2] && es[..3] == es;
    var s1 := Step(DEFAULT_STATE, es[0]).0;
    assert Run(DEFAULT_STATE, es[..1]).0 == s1;
    assert s1.expected == Some(t);
    var s2 := Step(s1, es[1]).0;
    assert Run(DEFAULT_STATE, es[..2]).0 == s2;
    s := Step(s2, es[2]).0;
    assert Run(DEFAULT_STATE, es).0 == s;
  }

  /** Reporting the same rejection twice does not roll back twice. */
  lemma RepeatedRejectionRollsBackOnce(s: State, t: Target)
    ensures var once := AfterFault(s, CommitFault(t)).0;
            var twice := AfterFault(once, CommitFault(t)).0;
            && twice.activeCursor == once.activeCursor && twice.cursor == once.cursor
            && (s.lastCommit.Some? && s.lastCommit.value.target == t ==>
                  once.activeCursor == s.lastCommit.value.priorCursor)
            && (s.lastCommit.None? || s.lastCommit.value.target != t ==> once.activeCursor == s.activeCursor)
  {
  }
}
