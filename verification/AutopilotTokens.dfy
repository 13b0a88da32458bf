/**
 Token discipline of the Autopilot over whole runs: a cut needs its own token reported
 after it was prepared, and no two preparations ever share a token.
 */
module AutopilotTokens {
  import opened Wrappers
  import opened Autopilot
  import opened AutopilotRuns

  /** The state before event `k` of a run from construction. */
  function StateBefore(es: seq<Event>, k: nat): State
    requires k <= |es|
  {
    Run(DEFAULT_STATE, es[..k]).0
  }

  function Emitted(es: seq<Event>, k: nat): seq<Command>
    requires k < |es|
  {
    Step(StateBefore(es, k), es[k]).1
  }

  predicate Reports(e: Event, t: Target) {
    e.OnFrame? && e.input.readiness == Ready(t)
  }

  lemma StateAfter(es: seq<Event>, k: nat)
    requires k < |es|
    ensures StateBefore(es, k + 1) == Step(StateBefore(es, k), es[k]).0
  {
    assert es[..k + 1][..k] == es[..k];
  }

  /** What one step can do to the expected token. */
  lemma StepChangesExpected(s: State, e: Event)
    ensures var (t, commands) := Step(s, e);
            t.expected.Some? ==>
              if Prepare(t.expected.value) in commands then !t.expectedReady
              else t.expected == s.expected && (t.expectedReady ==> s.expectedReady || Reports(e, t.expected.value))
  {
    if e.OnFrame? && Admits(s, e.input) && e.input.crossedBeats > 0 {
      var l := Latched(s, e.input.readiness);
      CommittedChangesExpected(l.(acceptedBeats := SaturatingAdd(l.acceptedBeats, e.input.crossedBeats)));
    }
  }

  lemma CommittedChangesExpected(s: State)
    ensures var (t, commands) := Committed(s);
            t.expected.Some? ==> Prepare(t.expected.value) in commands && !t.expectedReady
  {
    if s.expected.Some? && ValidStep(s, s.expected.value.stepIndex)
       && Lookahead(s.plan.value, s.expected.value.stepIndex).Some? {
      var (t, commands) := Committed(s);
      assert commands[1] == Prepare(t.expected.value);
    }
  }

  lemma StartExpectsNothing(es: seq<Event>)
    ensures StateBefore(es, 0).expected.None?
  {
  }

  /** Where the expected token came from, and when it was reported ready. */
  lemma {:induction false} ExpectedOrigin(es: seq<Event>, k: nat) returns (i: nat, j: nat)
    requires k <= |es| && StateBefore(es, k).expected.Some?
    ensures var t := StateBefore(es, k).expected.value;
            && i < k && Prepare(t) in Emitted(es, i)
            && (StateBefore(es, k).expectedReady ==> i < j < k && Reports(es[j], t))
  {
    hide StateBefore, Step, Run;
    i, j := 0, 0;
    if k == 0 {
      StartExpectsNothing(es);
    } else {
      StateAfter(es, k - 1);
      var t := StateBefore(es, k).expected.value;
      StepChangesExpected(StateBefore(es, k - 1), es[k - 1]);
      if Prepare(t) in Emitted(es, k - 1) {
        i := k - 1;
      } else {
        i, j := ExpectedOrigin(es, k - 1);
        if Reports(es[k - 1], t) {
          j := k - 1;
        }
      }
    }
  }

  /**
   In every run from construction, a cut of `t` at event `k` was preceded by the
   preparation of exactly `t` and, strictly after that, by a frame reporting exactly
   `t` ready, no later than event `k` itself.
   */
  lemma CutNeedsItsOwnReport(es: seq<Event>, k: nat, t: Target) returns (i: nat, j: nat)
    requires k < |es| && Commit(t) in Emitted(es, k)
    ensures i < j <= k && Prepare(t) in Emitted(es, i) && Reports(es[j], t)
  {
    var s := StateBefore(es, k);
    ReachableStatesSatisfyInv(es[..k]);
    if es[k].OnFrame? {
      FrameCommitsExactlyWhen(s, es[k].input, t);
    }
    i, j := ExpectedOrigin(es, k);
    if !s.expectedReady {
      j := k;
    }
  }

  // ------------------------------------------------------------------
  // Tokens never alias
  // ------------------------------------------------------------------

  /** The token was minted before the scheduler's present (epoch, sequence). */
  predicate Minted(t: Target, s: State) {
    t.epoch < s.epoch || (t.epoch == s.epoch && t.sequence < s.nextSequence)
  }

  lemma StepMints(s: State, e: Event)
    requires s.epoch < U64_MAX && s.nextSequence < U64_MAX
    ensures var (t, commands) := Step(s, e);
            && s.epoch <= t.epoch <= s.epoch + 1
            && t.nextSequence <= s.nextSequence + 1
            && (t.epoch == s.epoch ==> s.nextSequence <= t.nextSequence)
            && forall target :: Prepare(target) in commands ==> Minted(target, t) && !Minted(target, s)
  {
    if e.OnFrame? && Admits(s, e.input) && e.input.crossedBeats > 0 {
      var l := Latched(s, e.input.readiness);
      CommittedMints(l.(acceptedBeats := SaturatingAdd(l.acceptedBeats, e.input.crossedBeats)));
    }
  }

  lemma CommittedMints(s: State)
    requires s.nextSequence < U64_MAX
    ensures var (t, commands) := Committed(s);
            && t.epoch == s.epoch && s.nextSequence <= t.nextSequence <= s.nextSequence + 1
            && forall target :: Prepare(target) in commands ==> Minted(target, t) && !Minted(target, s)
  {
  }

  lemma {:induction false} CountersBounded(es: seq<Event>, k: nat)
    requires k <= |es| <= U64_MAX
    ensures StateBefore(es, k).epoch <= k && StateBefore(es, k).nextSequence <= k
  {
    hide Step, Minted;
    if k > 0 {
      CountersBounded(es, k - 1);
      StateAfter(es, k - 1);
      StepMints(StateBefore(es, k - 1), es[k - 1]);
    }
  }

  lemma MintedNext(es: seq<Event>, k: nat, t: Target)
    requires k < |es| <= U64_MAX
    requires Minted(t, StateBefore(es, k)) || Prepare(t) in Emitted(es, k)
    ensures Minted(t, StateBefore(es, k + 1))
  {
    hide StateBefore, Step, Run;
    CountersBounded(es, k);
    StateAfter(es, k);
    StepMints(StateBefore(es, k), es[k]);
  }

  lemma {:induction false} MintedStays(es: seq<Event>, i: nat, k: nat, t: Target)
    requires i <= k <= |es| <= U64_MAX && Minted(t, StateBefore(es, i))
    ensures Minted(t, StateBefore(es, k))
  {
    hide Minted, StateBefore, Emitted;
    if i < k {
      MintedStays(es, i, k - 1, t);
      MintedNext(es, k - 1, t);
    }
  }

  /** No run shorter than the 64-bit counters ever prepares the same token twice. */
  lemma TokensNeverAlias(es: seq<Event>, i: nat, j: nat, t: Target)
    requires |es| <= U64_MAX && i < j < |es|
    requires Prepare(t) in Emitted(es, i)
    ensures Prepare(t) !in Emitted(es, j)
  {
    MintedNext(es, i, t);
    MintedStays(es, i + 1, j, t);
    CountersBounded(es, j);
    StepMints(StateBefore(es, j), es[j]);
  }
}
