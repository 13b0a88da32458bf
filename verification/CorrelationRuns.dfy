/**
 Whole-run properties of the correlation monitor: every action offered is settled exactly
 once or still pending, and a polling reader misses nothing it could have kept up with.
 */
module CorrelationRuns {
  import opened Wrappers
  import opened DurationWindow
  import opened ActionCorrelation

  datatype Call =
    | Applying(id: Identity, applied: nat)
    | Terminating(sequence: u64, source: Source, disposition: Disposition)
    | TerminatingAll(disposition: Disposition)
    | Submitting(highest: u64, generation: u64, submitted: nat)

  function CallOn(j: Journal, c: Call): Journal {
    match c
    case Applying(id, applied) => AfterApply(j, id, applied)
    case Terminating(sequence, source, disposition) => AfterTerminal(j, sequence, source, disposition)
    case TerminatingAll(disposition) => AfterTerminalizeAll(j, disposition)
    case Submitting(highest, generation, submitted) => AfterSubmission(j, highest, generation, submitted)
  }

  function JournalAfter(cs: seq<Call>): Journal {
    if cs == [] then EmptyJournal() else CallOn(JournalAfter(cs[..|cs| - 1]), cs[|cs| - 1])
  }

  // ------------------------------------------------------------------
  // Exactly-once accounting
  // ------------------------------------------------------------------

  /** One call of `record_apply_identity`, as an occurrence. */
  function Occurrence(id: Identity, applied: nat): PendingAction {
    PendingAction(id.sequence, id.source, id.ingress, Max(applied, id.ingress))
  }

  function OfferedBy(c: Call): seq<PendingAction> {
    if c.Applying? then [Occurrence(c.id, c.applied)] else []
  }

  function Offered(cs: seq<Call>): seq<PendingAction> {
    if cs == [] then [] else Offered(cs[..|cs| - 1]) + OfferedBy(cs[|cs| - 1])
  }

  /** Receipts the adapters asked for directly, without an applied action. */
  function Direct(cs: seq<Call>): seq<Receipt> {
    if cs == [] then []
    else
      var c := cs[|cs| - 1];
      Direct(cs[..|cs| - 1]) +
      if c.Terminating? then [Receipt(c.sequence, c.source, c.disposition, None, None, None)] else []
  }

  /** Occurrences settled by a call, each with the receipt it got. */
  datatype Settlement = Settlement(actions: seq<PendingAction>, receipts: seq<Receipt>)

  function Settles(j: Journal, c: Call): Settlement {
    match c
    case Applying(id, applied) =>
      if Full(j.slots) then
        Settlement([Occurrence(id, applied)], [TerminalReceipt(id.sequence, id.source, NotYetPresented)])
      else Settlement([], [])
    case Terminating(_, _, _) => Settlement([], [])
    case TerminatingAll(disposition) =>
      var closed := Closed(j.slots, Everything);
      Settlement(closed, TerminalReceipts(closed, disposition))
    case Submitting(highest, generation, submitted) =>
      var closed := Closed(j.slots, UpTo(highest));
      Settlement(closed, PresentedReceipts(closed, generation, submitted))
  }

  function SettledBy(cs: seq<Call>): Settlement {
    if cs == [] then Settlement([], [])
    else
      var earlier := SettledBy(cs[..|cs| - 1]);
      var now := Settles(JournalAfter(cs[..|cs| - 1]), cs[|cs| - 1]);
      Settlement(earlier.actions + now.actions, earlier.receipts + now.receipts)
  }

  /** The calls that settled them, by their place in the run. */
  function SettledWhen(cs: seq<Call>): seq<nat> {
    if cs == [] then []
    else
      var now := Settles(JournalAfter(cs[..|cs| - 1]), cs[|cs| - 1]);
      SettledWhen(cs[..|cs| - 1]) + seq(|now.actions|, _ => |cs| - 1)
  }

  /** Whole microseconds between two instants, at most the widest 32-bit number; none if they are out of order. */
  function MicrosBetween(earlier: nat, later: nat): nat {
    if later <= earlier then 0
    else if (later - earlier) / 1000 < 0x1_0000_0000 then (later - earlier) / 1000
    else 0xFFFF_FFFF
  }

  /** The receipt an action gets from the call that settles it. */
  predicate Answers(r: Receipt, p: PendingAction, c: Call) {
    match c
    case Submitting(highest, generation, submitted) =>
      && p.sequence <= highest
      && r == Receipt(p.sequence, p.source, Presented, Some(MicrosBetween(p.ingress, p.applied)),
                      Some(MicrosBetween(p.applied, submitted)), Some(generation))
    case TerminatingAll(disposition) => r == Receipt(p.sequence, p.source, disposition, None, None, None)
    case Applying(_, _) => r == Receipt(p.sequence, p.source, NotYetPresented, None, None, None)
    case Terminating(_, _, _) => false
  }

  /** The action was offered by an application before call `k`, or by that very call. */
  predicate OfferedBefore(cs: seq<Call>, p: PendingAction, k: nat) {
    exists j: nat :: j <= k && j < |cs| && OfferedAt(cs[j], p) && (k < |cs| && cs[k].Applying? <==> j == k)
  }

  /** The call offers the action; it counts as applied no earlier than it came in. */
  predicate OfferedAt(c: Call, p: PendingAction) {
    && c.Applying?
    && p == PendingAction(c.id.sequence, c.id.source, c.id.ingress, if c.applied < c.id.ingress then c.id.ingress else c.applied)
  }

  lemma CallConserves(j: Journal, c: Call)
    ensures |CallOn(j, c).slots| == |j.slots|
    ensures multiset(Live(CallOn(j, c).slots)) + multiset(Settles(j, c).actions) ==
            multiset(Live(j.slots)) + multiset(OfferedBy(c))
  {
    match c {
      case Applying(id, applied) =>
        if !Full(j.slots) {
          LiveAfterFill(j.slots, FirstFree(j.slots, 0), Occurrence(id, applied));
        }
      case Terminating(_, _, _) =>
      case TerminatingAll(_) => ClosingPartitions(j.slots, Everything);
      case Submitting(highest, _, _) => ClosingPartitions(j.slots, UpTo(highest));
    }
  }

  lemma CallAppendsReceipts(j: Journal, c: Call)
    ensures CallOn(j, c).receipts ==
            j.receipts + (if c.Terminating? then [Receipt(c.sequence, c.source, c.disposition, None, None, None)]
                          else Settles(j, c).receipts)
    ensures |Settles(j, c).actions| == |Settles(j, c).receipts|
    ensures forall i :: 0 <= i < |Settles(j, c).actions| ==> Answers(Settles(j, c).receipts[i], Settles(j, c).actions[i], c)
  {
    if c.Submitting? {
      SubmissionAnswers(j, c);
    }
  }

  lemma SubmissionAnswers(j: Journal, c: Call)
    requires c.Submitting?
    ensures var s := Settles(j, c);
            forall i :: 0 <= i < |s.actions| ==> Answers(s.receipts[i], s.actions[i], c)
  {
    hide Closed;
    ClosingRespectsScope(j.slots, UpTo(c.highest));
    var s := Settles(j, c);
    forall i | 0 <= i < |s.actions| ensures Answers(s.receipts[i], s.actions[i], c) {
      assert s.actions[i] in Closed(j.slots, UpTo(c.highest));
      TimesAre(s.actions[i], c.submitted);
    }
  }

  /** The two latencies of a presented action. */
  lemma TimesAre(p: PendingAction, submitted: nat)
    ensures SubmitMicros(p, submitted) == MicrosBetween(p.applied, submitted)
    ensures DurationMicros(Max(p.applied - p.ingress, 0)) == MicrosBetween(p.ingress, p.applied)
  {
  }

  lemma Balance<T>(offered: multiset<T>, arriving: multiset<T>, live: multiset<T>, settled: multiset<T>,
                   liveAfter: multiset<T>, settling: multiset<T>)
    requires offered == live + settled
    requires liveAfter + settling == live + arriving
    ensures offered + arriving == liveAfter + (settled + settling)
  {
    assert live + settled + arriving == (liveAfter + settling) + settled;
  }

  lemma {:induction false} OccurrencesAreConserved(cs: seq<Call>)
    ensures multiset(Offered(cs)) == multiset(Live(JournalAfter(cs).slots)) + multiset(SettledBy(cs).actions)
    ensures |JournalAfter(cs).slots| == IN_FLIGHT
  {
    if cs == [] {
      EmptyTableIsLiveless(IN_FLIGHT);
    } else {
      var before, c := cs[..|cs| - 1], cs[|cs| - 1];
      var j := JournalAfter(before);
      OccurrencesAreConserved(before);
      CallConserves(j, c);
      assert SettledBy(cs).actions == SettledBy(before).actions + Settles(j, c).actions;
      Balance(multiset(Offered(before)), multiset(OfferedBy(c)), multiset(Live(j.slots)),
              multiset(SettledBy(before).actions), multiset(Live(CallOn(j, c).slots)), multiset(Settles(j, c).actions));
    }
  }

  lemma {:induction false} ReceiptsAreAccountedFor(cs: seq<Call>)
    ensures multiset(JournalAfter(cs).receipts) == multiset(SettledBy(cs).receipts) + multiset(Direct(cs))
  {
    if cs != [] {
      ReceiptsAreAccountedFor(cs[..|cs| - 1]);
      CallAppendsReceipts(JournalAfter(cs[..|cs| - 1]), cs[|cs| - 1]);
    }
  }

  lemma {:induction false} SettlementsAnswer(cs: seq<Call>)
    ensures |SettledBy(cs).actions| == |SettledBy(cs).receipts| == |SettledWhen(cs)|
    ensures forall i :: 0 <= i < |SettledWhen(cs)| ==>
              SettledWhen(cs)[i] < |cs| && Answers(SettledBy(cs).receipts[i], SettledBy(cs).actions[i], cs[SettledWhen(cs)[i]])
  {
    hide Answers, Settles;
    if cs != [] {
      SettlementsAnswer(cs[..|cs| - 1]);
      CallAppendsReceipts(JournalAfter(cs[..|cs| - 1]), cs[|cs| - 1]);
    }
  }

  lemma {:induction false} OfferedMeans(cs: seq<Call>, p: PendingAction)
    requires p in Offered(cs)
    ensures exists j: nat :: j < |cs| && OfferedAt(cs[j], p)
  {
    var before, last := cs[..|cs| - 1], cs[|cs| - 1];
    if p in Offered(before) {
      OfferedMeans(before, p);
      var j: nat :| j < |before| && OfferedAt(before[j], p);
      assert OfferedAt(cs[j], p);
    } else {
      assert OfferedAt(cs[|cs| - 1], p);
    }
  }

  /** What is pending was offered. */
  lemma PendingWasOffered(cs: seq<Call>, p: PendingAction)
    requires p in Live(JournalAfter(cs).slots)
    ensures exists j: nat :: j < |cs| && OfferedAt(cs[j], p)
  {
    hide Live, JournalAfter, Offered, OfferedAt;
    OccurrencesAreConserved(cs);
    assert p in multiset(Live(JournalAfter(cs).slots));
    assert p in multiset(Offered(cs));
    OfferedMeans(cs, p);
  }

  lemma SettledWereOffered(cs: seq<Call>, p: PendingAction)
    requires cs != [] && p in Settles(JournalAfter(cs[..|cs| - 1]), cs[|cs| - 1]).actions
    ensures OfferedBefore(cs, p, |cs| - 1)
  {
    hide Live, JournalAfter, Offered, Closed, Full;
    var before, c := cs[..|cs| - 1], cs[|cs| - 1];
    if c.Applying? {
      assert OfferedAt(cs[|cs| - 1], p);
    } else {
      ClosingRespectsScope(JournalAfter(before).slots, if c.TerminatingAll? then Everything else UpTo(c.highest));
      PendingWasOffered(before, p);
      var j: nat :| j < |before| && OfferedAt(before[j], p);
      assert OfferedAt(cs[j], p);
    }
  }

  lemma {:induction false} SettlementsFollowOffers(cs: seq<Call>)
    ensures |SettledBy(cs).actions| == |SettledWhen(cs)|
    ensures forall i :: 0 <= i < |SettledWhen(cs)| ==> OfferedBefore(cs, SettledBy(cs).actions[i], SettledWhen(cs)[i])
  {
    hide OfferedBefore, Settles;
    SettlementsAnswer(cs);
    if cs != [] {
      var before := cs[..|cs| - 1];
      SettlementsFollowOffers(before);
      SettlementsAnswer(before);
      var now := Settles(JournalAfter(before), cs[|cs| - 1]).actions;
      forall i | 0 <= i < |SettledWhen(cs)| ensures OfferedBefore(cs, SettledBy(cs).actions[i], SettledWhen(cs)[i]) {
        if i < |SettledWhen(before)| {
          OfferedStays(before, cs[|cs| - 1], SettledBy(before).actions[i], SettledWhen(before)[i]);
          assert before + [cs[|cs| - 1]] == cs;
        } else {
          assert SettledBy(cs).actions[i] in now;
          SettledWereOffered(cs, SettledBy(cs).actions[i]);
        }
      }
    }
  }

  lemma OfferedStays(cs: seq<Call>, c: Call, p: PendingAction, k: nat)
    requires k < |cs| && OfferedBefore(cs, p, k)
    ensures OfferedBefore(cs + [c], p, k)
  {
    var j: nat :| j <= k && j < |cs| && OfferedAt(cs[j], p) && (k < |cs| && cs[k].Applying? <==> j == k);
    assert OfferedAt((cs + [c])[j], p);
  }

  /**
   Over any run: the occurrences offered are exactly those still pending plus those
   settled; each settled occurrence was offered by an application and has, from the later call
   that settled it, its own receipt with its own latencies; and the receipts ever pushed are
   exactly the settlements plus the direct ones. Nothing is lost or answered twice.
   */
  lemma EveryActionIsSettledOnceOrPending(cs: seq<Call>)
    ensures var j, s, when := JournalAfter(cs), SettledBy(cs), SettledWhen(cs);
            && multiset(Offered(cs)) == multiset(Live(j.slots)) + multiset(s.actions)
            && |s.actions| == |s.receipts| == |when|
            && (forall i :: 0 <= i < |s.actions| ==>
                  && when[i] < |cs|
                  && Answers(s.receipts[i], s.actions[i], cs[when[i]])
                  && OfferedBefore(cs, s.actions[i], when[i]))
            && multiset(j.receipts) == multiset(s.receipts) + multiset(Direct(cs))
            && |Live(j.slots)| <= 512
  {
    hide Answers, OfferedBefore;
    OccurrencesAreConserved(cs);
    ReceiptsAreAccountedFor(cs);
    SettlementsAnswer(cs);
    SettlementsFollowOffers(cs);
    LiveCountsOccupied(JournalAfter(cs).slots);
  }

  /** A submission presents exactly the pending actions up to its sequence and keeps the others. */
  lemma SubmissionPresentsExactlyItsPrefix(j: Journal, highest: u64, generation: u64, submitted: nat)
    ensures var t := AfterSubmission(j, highest, generation, submitted);
            && (forall p :: p in Live(t.slots) <==> p in Live(j.slots) && p.sequence > highest)
            && (forall p :: p in Closed(j.slots, UpTo(highest)) <==> p in Live(j.slots) && p.sequence <= highest)
            && j.receipts <= t.receipts
            && (forall r :: r in t.receipts[|j.receipts|..] ==>
                  r.disposition == Presented && r.sequence <= highest && r.generation == Some(generation))
  {
    ClosingRespectsScope(j.slots, UpTo(highest));
    var closed := Closed(j.slots, UpTo(highest));
    var t := AfterSubmission(j, highest, generation, submitted);
    assert t.receipts[|j.receipts|..] == PresentedReceipts(closed, generation, submitted);
    forall r | r in PresentedReceipts(closed, generation, submitted)
      ensures r.disposition == Presented && r.sequence <= highest && r.generation == Some(generation)
    {
      var i :| 0 <= i < |closed| && r == PresentedReceipt(closed[i], generation, submitted);
      assert closed[i] in closed;
    }
  }

  /** Terminalizing everything a second time is a no-op, as shutdown relies on. */
  lemma TerminalizingTwiceIsOnce(j: Journal, d: Disposition, e: Disposition)
    ensures Live(AfterTerminalizeAll(j, d).slots) == []
    ensures AfterTerminalizeAll(AfterTerminalizeAll(j, d), e) == AfterTerminalizeAll(j, d)
  {
    hide Live, Closed, Vacated;
    var t := AfterTerminalizeAll(j, d);
    ClosingPartitions(j.slots, Everything);
    EverythingClosesAll(j.slots);
    assert |Live(t.slots)| == 0;
    EverythingClosesAll(t.slots);
    VacatedTwice(j.slots);
    assert TerminalReceipts([], e) == [];
    assert t.receipts + [] == t.receipts;
  }

  lemma VacatedTwice(slots: Slots)
    ensures Vacated(Vacated(slots, Everything), Everything) == Vacated(slots, Everything)
  {
    var once := Vacated(slots, Everything);
    forall i | 0 <= i < |once| ensures Vacated(once, Everything)[i] == once[i] {
    }
  }

  // ------------------------------------------------------------------
  // Highest presented sequence
  // ------------------------------------------------------------------

  function HighestPresented(receipts: seq<Receipt>): u64 {
    if receipts == [] then 0
    else
      var r := receipts[|receipts| - 1];
      var earlier := HighestPresented(receipts[..|receipts| - 1]);
      if r.disposition == Presented then Max(earlier, r.sequence) else earlier
  }

  lemma {:induction false} PresentedRaisesHighest(receipts: seq<Receipt>, ps: seq<PendingAction>, generation: u64, submitted: nat)
    ensures HighestPresented(receipts + PresentedReceipts(ps, generation, submitted)) ==
            HighestSequence(ps, HighestPresented(receipts))
  {
    var more := receipts + PresentedReceipts(ps, generation, submitted);
    if ps == [] {
      assert more == receipts;
    } else {
      var rest := ps[..|ps| - 1];
      PresentedRaisesHighest(receipts, rest, generation, submitted);
      assert more[..|more| - 1] == receipts + PresentedReceipts(rest, generation, submitted);
    }
  }

  lemma {:induction false} TerminalsKeepHighest(receipts: seq<Receipt>, ps: seq<PendingAction>, d: Disposition)
    requires d != Presented
    ensures HighestPresented(receipts + TerminalReceipts(ps, d)) == HighestPresented(receipts)
  {
    var more := receipts + TerminalReceipts(ps, d);
    if ps == [] {
      assert more == receipts;
    } else {
      var rest := ps[..|ps| - 1];
      TerminalsKeepHighest(receipts, rest, d);
      assert more[..|more| - 1] == receipts + TerminalReceipts(rest, d);
    }
  }

  /** No adapter terminates an action as Presented (the debug assertion of the source). */
  predicate HonestCall(c: Call) {
    match c
    case Terminating(_, _, d) => d != Presented
    case TerminatingAll(d) => d != Presented
    case _ => true
  }

  /** The reported sequence is the highest one any receipt ever presented. */
  lemma {:induction false} LastPresentedIsHighest(cs: seq<Call>)
    requires forall i :: 0 <= i < |cs| ==> HonestCall(cs[i])
    ensures JournalAfter(cs).lastPresented == HighestPresented(JournalAfter(cs).receipts)
  {
    if cs != [] {
      var before, c := cs[..|cs| - 1], cs[|cs| - 1];
      LastPresentedIsHighest(before);
      var j := JournalAfter(before);
      assert HonestCall(c);
      match c {
        case Applying(id, _) =>
          var r := TerminalReceipt(id.sequence, id.source, NotYetPresented);
          assert (j.receipts + [r])[..|j.receipts|] == j.receipts;
        case Terminating(sequence, source, d) =>
          assert (j.receipts + [TerminalReceipt(sequence, source, d)])[..|j.receipts|] == j.receipts;
        case TerminatingAll(d) => TerminalsKeepHighest(j.receipts, Closed(j.slots, Everything), d);
        case Submitting(highest, generation, submitted) =>
          PresentedRaisesHighest(j.receipts, Closed(j.slots, UpTo(highest)), generation, submitted);
      }
    }
  }

  /** The submission latencies the receipts carry, in completion order. */
  function SubmitLatencies(receipts: seq<Receipt>): seq<nat> {
    if receipts == [] then []
    else
      var last := receipts[|receipts| - 1];
      SubmitLatencies(receipts[..|receipts| - 1]) + if last.applyToSubmit.Some? then [last.applyToSubmit.value] else []
  }

  lemma {:induction false} LatenciesConcat(a: seq<Receipt>, b: seq<Receipt>)
    ensures SubmitLatencies(a + b) == SubmitLatencies(a) + SubmitLatencies(b)
  {
    if b == [] {
      assert a + b == a;
    } else {
      assert (a + b)[..|a + b| - 1] == a + b[..|b| - 1];
      LatenciesConcat(a, b[..|b| - 1]);
    }
  }

  lemma {:induction false} LatenciesOfPresented(ps: seq<PendingAction>, generation: u64, submitted: nat)
    ensures SubmitLatencies(PresentedReceipts(ps, generation, submitted)) == SubmitSamples(ps, submitted)
  {
    if ps != [] {
      var rest := ps[..|ps| - 1];
      LatenciesOfPresented(rest, generation, submitted);
      assert PresentedReceipts(ps, generation, submitted)[..|ps| - 1] == PresentedReceipts(rest, generation, submitted);
      assert SubmitSamples(ps, submitted) == SubmitSamples(rest, submitted) + [SubmitMicros(ps[|ps| - 1], submitted)];
    }
  }

  lemma {:induction false} LatenciesOfTerminals(ps: seq<PendingAction>, d: Disposition)
    ensures SubmitLatencies(TerminalReceipts(ps, d)) == []
  {
    if ps != [] {
      var rest := ps[..|ps| - 1];
      LatenciesOfTerminals(rest, d);
      assert TerminalReceipts(ps, d)[..|ps| - 1] == TerminalReceipts(rest, d);
    }
  }

  /** The submission window and the receipts tell the same story: one sample per presented receipt, with its value. */
  lemma {:induction false} SubmitSamplesAreTheReceipts(cs: seq<Call>)
    ensures JournalAfter(cs).submitSamples == SubmitLatencies(JournalAfter(cs).receipts)
  {
    hide SubmitLatencies, Closed, Vacated, Full, SubmitSamples, PresentedReceipts, TerminalReceipts;
    if cs != [] {
      var before, c := cs[..|cs| - 1], cs[|cs| - 1];
      SubmitSamplesAreTheReceipts(before);
      var j := JournalAfter(before);
      match c {
        case Applying(id, _) =>
          SilentReceipt(j.receipts, TerminalReceipt(id.sequence, id.source, NotYetPresented));
        case Terminating(sequence, source, d) => SilentReceipt(j.receipts, TerminalReceipt(sequence, source, d));
        case TerminatingAll(d) =>
          LatenciesOfTerminals(Closed(j.slots, Everything), d);
          LatenciesConcat(j.receipts, TerminalReceipts(Closed(j.slots, Everything), d));
        case Submitting(highest, generation, submitted) =>
          LatenciesOfPresented(Closed(j.slots, UpTo(highest)), generation, submitted);
          LatenciesConcat(j.receipts, PresentedReceipts(Closed(j.slots, UpTo(highest)), generation, submitted));
      }
    } else {
      NoLatencies();
    }
  }

  lemma NoLatencies()
    ensures SubmitLatencies([]) == []
  {
  }

  lemma SilentReceipt(receipts: seq<Receipt>, r: Receipt)
    requires r.applyToSubmit.None?
    ensures SubmitLatencies(receipts + [r]) == SubmitLatencies(receipts)
  {
    assert (receipts + [r])[..|receipts|] == receipts;
  }

  // ------------------------------------------------------------------
  // The other counters
  // ------------------------------------------------------------------

  /** The application finds all 512 places taken. */
  predicate TurnedAway(j: Journal, c: Call) {
    c.Applying? && |Live(j.slots)| >= 512
  }

  /** The delays from ingress to application, of the applications that found a place. */
  function ApplyDelays(cs: seq<Call>): seq<nat> {
    if cs == [] then []
    else
      var c := cs[|cs| - 1];
      ApplyDelays(cs[..|cs| - 1]) +
      if c.Applying? && !TurnedAway(JournalAfter(cs[..|cs| - 1]), c) then [MicrosBetween(c.id.ingress, c.applied)] else []
  }

  function TurnedAwayCount(cs: seq<Call>): nat {
    if cs == [] then 0
    else TurnedAwayCount(cs[..|cs| - 1]) + if TurnedAway(JournalAfter(cs[..|cs| - 1]), cs[|cs| - 1]) then 1 else 0
  }

  /** The highest generation ever submitted. */
  function HighestGeneration(cs: seq<Call>): nat {
    if cs == [] then 0
    else
      var earlier, c := HighestGeneration(cs[..|cs| - 1]), cs[|cs| - 1];
      if c.Submitting? && c.generation > earlier then c.generation else earlier
  }

  lemma CountersStep(j: Journal, c: Call)
    requires |j.slots| == 512
    ensures var t := CallOn(j, c);
            && t.applySamples == j.applySamples +
               (if c.Applying? && !TurnedAway(j, c) then [MicrosBetween(c.id.ingress, c.applied)] else [])
            && t.overCapacity == (if TurnedAway(j, c) && j.overCapacity < 0xFFFF_FFFF_FFFF_FFFF then j.overCapacity + 1 else j.overCapacity)
            && t.lastGeneration == (if c.Submitting? && c.generation > j.lastGeneration then c.generation else j.lastGeneration)
  {
    hide Closed, Vacated, FirstFree, Full, Live, HighestSequence, PresentedReceipts, SubmitSamples, TerminalReceipts;
    LiveCountsOccupied(j.slots);
  }

  /**
   Over any run, what the snapshot reports beside the receipts: one delay in the apply window per
   application that found a place, every other application counted, and the highest generation.
   */
  lemma {:induction false} CountersAreExact(cs: seq<Call>)
    ensures var j := JournalAfter(cs);
            && j.applySamples == ApplyDelays(cs)
            && j.overCapacity == (if TurnedAwayCount(cs) < 0x1_0000_0000_0000_0000 then TurnedAwayCount(cs) else 0xFFFF_FFFF_FFFF_FFFF)
            && j.lastGeneration == HighestGeneration(cs)
  {
    hide CallOn, TurnedAway;
    if cs != [] {
      var before, last := cs[..|cs| - 1], cs[|cs| - 1];
      CountersAreExact(before);
      OccurrencesAreConserved(before);
      CountersStep(JournalAfter(before), last);
    }
  }

  // ------------------------------------------------------------------
  // Cursor delivery
  // ------------------------------------------------------------------

  /** A reader of the receipt ring: the last ordinal it saw and everything it received. */
  datatype Reader = Reader(cursor: u64, received: seq<Receipt>)

  function ReceiptsOf(delivered: seq<(u64, Receipt)>): seq<Receipt> {
    seq(|delivered|, i requires 0 <= i < |delivered| => delivered[i].1)
  }

  /** One poll while `receipts` have been pushed. */
  function Poll(r: Reader, receipts: seq<Receipt>): Reader {
    var delivered := DeliveredAfter(receipts, r.cursor);
    if delivered == [] then r
    else Reader(delivered[|delivered| - 1].0, r.received + ReceiptsOf(delivered))
  }

  /** The reader after polling when `polls[0]`, `polls[1]`, ... receipts had been pushed. */
  function ReaderAfter(log: seq<Receipt>, polls: seq<nat>): Reader
    requires forall i :: 0 <= i < |polls| ==> polls[i] <= |log|
  {
    if polls == [] then Reader(0, [])
    else Poll(ReaderAfter(log, polls[..|polls| - 1]), log[..polls[|polls| - 1]])
  }

  /** Receipts pushed before the last poll. */
  function Seen(polls: seq<nat>): nat {
    if polls == [] then 0 else polls[|polls| - 1]
  }

  predicate Rising(polls: seq<nat>) {
    polls == [] || (Rising(polls[..|polls| - 1]) && Seen(polls[..|polls| - 1]) <= polls[|polls| - 1])
  }

  /** Every poll comes at most 512 pushes after the one before, and before ordinals run out. */
  predicate KeepsUp(polls: seq<nat>) {
    polls == [] ||
    var earlier := polls[..|polls| - 1];
    KeepsUp(earlier) && polls[|polls| - 1] <= Seen(earlier) + 512
    && (polls[|polls| - 1] > Seen(earlier) ==> Seen(earlier) < U64_MAX)
  }

  lemma {:induction false} DeliveredFromIsSuffix(receipts: seq<Receipt>, seen: nat, from: nat)
    requires from <= |receipts|
    ensures var delivered := DeliveredFrom(receipts, Min(seen, U64_MAX), from);
            var start := if seen >= U64_MAX then |receipts| else Min(Max(seen, from), |receipts|);
            && ReceiptsOf(delivered) == receipts[start..]
            && (forall i :: 0 <= i < |delivered| ==> delivered[i].0 == Ordinal(start + i))
  {
    if from < |receipts| {
      var last := |receipts| - 1;
      DeliveredFromIsSuffix(receipts[..last], seen, from);
      if seen < U64_MAX && seen <= last {
        var start := Max(seen, from);
        assert receipts[start..] == receipts[..last][start..] + [receipts[last]];
      }
    }
  }

  lemma PollDelivers(r: Reader, receipts: seq<Receipt>, seen: nat)
    requires seen <= |receipts| && r.cursor == Min(seen, U64_MAX)
    ensures var start := if seen >= U64_MAX then |receipts| else Max(seen, |receipts| - WINDOW);
            Poll(r, receipts) == Reader(Min(|receipts|, U64_MAX), r.received + receipts[start..])
  {
    var from := Max(0, |receipts| - WINDOW);
    DeliveredFromIsSuffix(receipts, seen, from);
    var start := if seen >= U64_MAX then |receipts| else Max(seen, |receipts| - WINDOW);
    var delivered := DeliveredAfter(receipts, r.cursor);
    assert |delivered| == |ReceiptsOf(delivered)| == |receipts[start..]|;
    if delivered == [] {
      assert r.received + receipts[start..] == r.received;
    }
  }

  /**
   A reader that always polls with the last ordinal it saw holds every receipt pushed so
   far, once each and in completion order, exactly when each of its polls kept up.
   */
  lemma {:induction false} ReaderHoldsEverythingExactlyWhenItKeepsUp(log: seq<Receipt>, polls: seq<nat>)
    requires forall i :: 0 <= i < |polls| ==> polls[i] <= |log|
    requires Rising(polls)
    ensures ReaderAfter(log, polls).cursor == Min(Seen(polls), U64_MAX)
    ensures |ReaderAfter(log, polls).received| <= Seen(polls)
    ensures ReaderAfter(log, polls).received == log[..Seen(polls)] <==> KeepsUp(polls)
    ensures |ReaderAfter(log, polls).received| == Seen(polls) <==> KeepsUp(polls)
  {
    if polls != [] {
      var earlier, now := polls[..|polls| - 1], Seen(polls);
      ReaderHoldsEverythingExactlyWhenItKeepsUp(log, earlier);
      PollDelivers(ReaderAfter(log, earlier), log[..now], Seen(earlier));
      var start := if Seen(earlier) >= U64_MAX then now else Max(Seen(earlier), now - WINDOW);
      assert log[..Seen(earlier)] + log[..now][Seen(earlier)..] == log[..now];
      assert |ReaderAfter(log, polls).received| == |ReaderAfter(log, earlier).received| + now - start;
      if KeepsUp(polls) {
        assert start == Seen(earlier) || now == Seen(earlier);
      }
    }
  }

  /** Monitor calls only ever append receipts, so a run's log is a log in the reader's sense. */
  lemma {:induction false} ReceiptsOnlyGrow(cs: seq<Call>, k: nat)
    requires k <= |cs|
    ensures JournalAfter(cs[..k]).receipts <= JournalAfter(cs).receipts
  {
    if k == |cs| {
      assert cs[..k] == cs;
    } else {
      var before := cs[..|cs| - 1];
      ReceiptsOnlyGrow(before, k);
      assert before[..k] == cs[..k];
      CallAppendsReceipts(JournalAfter(before), cs[|cs| - 1]);
    }
  }

  // ------------------------------------------------------------------
  // The ingress sequencer
  // ------------------------------------------------------------------

  /** The shared counter; one `EnvelopeAt` is one atomic step. */
  class Sequencer {
    var next: u64

    constructor ()
      ensures next == 1
    {
      next := 1;
    }

    method EnvelopeAt(source: Source, ingress: nat) returns (id: Identity)
      modifies this
      ensures id == Identity(Max(old(next), 1), source, ingress)
      ensures next == AfterEnvelope(old(next))
    {
      var current := next;
      next := if current == U64_MAX then 1 else current + 1;
      id := Identity(Max(current, 1), source, ingress);
    }
  }

  function AfterEnvelope(next: u64): u64 {
    if next == U64_MAX then 1 else next + 1
  }

  /** The counter before the k-th envelope of a process. */
  function CounterAt(k: nat): u64 {
    if k == 0 then 1 else AfterEnvelope(CounterAt(k - 1))
  }

  lemma {:induction false} CounterCycles(k: nat)
    ensures CounterAt(k) == k % U64_MAX + 1
  {
    if k > 0 {
      CounterCycles(k - 1);
    }
  }

  /** Sequences are never zero, and two envelopes share one exactly when a whole cycle lies between them. */
  lemma SequencesRepeatOnlyAfterAFullCycle(i: nat, k: nat)
    requires i <= k
    ensures CounterAt(i) != 0
    ensures CounterAt(i) == CounterAt(k) <==> (k - i) % U64_MAX == 0
    ensures i < k < i + U64_MAX ==> CounterAt(i) != CounterAt(k)
  {
    hide CounterAt;
    CounterCycles(i);
    CounterCycles(k);
    SameResidue(i, k, U64_MAX);
    if i < k < i + U64_MAX {
      SmallResidue(k - i, U64_MAX);
    }
  }

  lemma SmallResidue(d: nat, m: nat)
    requires 0 < d < m
    ensures d % m != 0
  {
    DivisionIsUnique(d, m, 0, d);
  }

  /** Two numbers leave the same remainder exactly when their difference leaves none. */
  lemma SameResidue(i: nat, k: nat, m: nat)
    requires i <= k && 0 < m
    ensures i % m == k % m <==> (k - i) % m == 0
  {
    var p, q, e := i / m, k / m, (k - i) / m;
    var r, s, t := i % m, k % m, (k - i) % m;
    if t == 0 {
      Distributes(m, p, e);
      DivisionIsUnique(k, m, p + e, r);
    }
    if r == s {
      Distributes(m, p, q - p);
      DivisionIsUnique(k - i, m, q - p, 0);
    }
  }

  lemma Distributes(m: int, a: int, b: int)
    ensures m * (a + b) == m * a + m * b
  {
  }
}
