/**
 The bounded action-correlation monitor of the live control path.

 `Monitor` is the fixed-capacity object: a slot table, two sample rings and a receipt
 ring.  `Journal` is its unbounded meaning: the same slots with complete logs.  Every
 method must act on the journal as the functions over `Journal` say.
 */
module ActionCorrelation {
  import opened Wrappers
  import opened DurationWindow

  const IN_FLIGHT: nat := 512

  datatype Source = Browser | Phone | Native | Midi | Osc | Automation | Replay

  datatype Disposition = Presented | Coalesced | Refused | Superseded | Quantized | NotYetPresented

  /** Instants are nanosecond ordinals of the engine clock. */
  datatype Identity = Identity(sequence: u64, source: Source, ingress: nat)

  datatype Receipt = Receipt(
    sequence: u64,
    source: Source,
    disposition: Disposition,
    ingressToApply: Option<nat>,
    applyToSubmit: Option<nat>,
    generation: Option<u64>)

  datatype PendingAction = PendingAction(sequence: u64, source: Source, ingress: nat, applied: nat)

  datatype StoredReceipt = StoredReceipt(ordinal: u64, receipt: Receipt)

  datatype Snapshot = Snapshot(
    ingressToApply: LatencyPercentiles,
    applyToSubmit: LatencyPercentiles,
    lastPresented: u64,
    lastGeneration: u64,
    pending: nat,
    overCapacity: u64)

  type Slots = seq<Option<PendingAction>>

  datatype Journal = Journal(
    slots: Slots,
    receipts: seq<Receipt>,
    applySamples: seq<nat>,
    submitSamples: seq<nat>,
    lastPresented: u64,
    lastGeneration: u64,
    overCapacity: u64)

  // ------------------------------------------------------------------
  // What each operation does to a journal
  // ------------------------------------------------------------------

  /** Which pending actions an operation closes. */
  datatype Scope = Everything | UpTo(highest: u64)

  predicate Covers(scope: Scope, p: PendingAction) {
    scope.Everything? || p.sequence <= scope.highest
  }

  /** Occupied slots in table order. */
  function Live(slots: Slots): seq<PendingAction> {
    if slots == [] then []
    else Live(slots[..|slots| - 1]) + if slots[|slots| - 1].Some? then [slots[|slots| - 1].value] else []
  }

  /** The pending actions an operation closes, in table order. */
  function Closed(slots: Slots, scope: Scope): seq<PendingAction> {
    if slots == [] then []
    else
      var last := slots[|slots| - 1];
      Closed(slots[..|slots| - 1], scope) + if last.Some? && Covers(scope, last.value) then [last.value] else []
  }

  /** The slot table once they are closed. */
  function Vacated(slots: Slots, scope: Scope): (r: Slots)
    ensures |r| == |slots|
  {
    seq(|slots|, i requires 0 <= i < |slots| =>
      if slots[i].Some? && Covers(scope, slots[i].value) then None else slots[i])
  }

  predicate Full(slots: Slots) {
    forall i :: 0 <= i < |slots| ==> slots[i].Some?
  }

  function FirstFree(slots: Slots, from: nat): (i: nat)
    requires from <= |slots| && exists j :: from <= j < |slots| && slots[j].None?
    ensures from <= i < |slots| && slots[i].None?
    ensures forall j :: from <= j < i ==> slots[j].Some?
    decreases |slots| - from
  {
    if slots[from].None? then from else FirstFree(slots, from + 1)
  }

  function TerminalReceipt(sequence: u64, source: Source, disposition: Disposition): Receipt {
    Receipt(sequence, source, disposition, None, None, None)
  }

  function PresentedReceipt(p: PendingAction, generation: u64, submitted: nat): Receipt {
    Receipt(p.sequence, p.source, Presented,
            Some(DurationMicros(Max(p.applied - p.ingress, 0))),
            Some(SubmitMicros(p, submitted)), Some(generation))
  }

  function SubmitMicros(p: PendingAction, submitted: nat): nat {
    DurationMicros(Max(submitted, p.applied) - p.applied)
  }

  function TerminalReceipts(ps: seq<PendingAction>, disposition: Disposition): seq<Receipt> {
    seq(|ps|, i requires 0 <= i < |ps| => TerminalReceipt(ps[i].sequence, ps[i].source, disposition))
  }

  function PresentedReceipts(ps: seq<PendingAction>, generation: u64, submitted: nat): seq<Receipt> {
    seq(|ps|, i requires 0 <= i < |ps| => PresentedReceipt(ps[i], generation, submitted))
  }

  function SubmitSamples(ps: seq<PendingAction>, submitted: nat): seq<nat> {
    seq(|ps|, i requires 0 <= i < |ps| => SubmitMicros(ps[i], submitted))
  }

  function HighestSequence(ps: seq<PendingAction>, floor: u64): u64 {
    if ps == [] then floor else Max(HighestSequence(ps[..|ps| - 1], floor), ps[|ps| - 1].sequence)
  }

  function AfterApply(j: Journal, id: Identity, applied: nat): Journal {
    if Full(j.slots) then
      j.(receipts := j.receipts + [TerminalReceipt(id.sequence, id.source, NotYetPresented)],
      overCapacity := SaturatingAdd(j.overCapacity, 1))
    else
      var at := Max(applied, id.ingress);
      j.(slots := j.slots[FirstFree(j.slots, 0) := Some(PendingAction(id.sequence, id.source, id.ingress, at))],
      applySamples := j.applySamples + [DurationMicros(at - id.ingress)])
  }

  function AfterTerminal(j: Journal, sequence: u64, source: Source, disposition: Disposition): Journal {
    j.(receipts := j.receipts + [TerminalReceipt(sequence, source, disposition)])
  }

  function AfterTerminalizeAll(j: Journal, disposition: Disposition): Journal {
    j.(slots := Vacated(j.slots, Everything),
    receipts := j.receipts + TerminalReceipts(Closed(j.slots, Everything), disposition))
  }

  function AfterSubmission(j: Journal, highest: u64, generation: u64, submitted: nat): Journal {
    var closed := Closed(j.slots, UpTo(highest));
    j.(slots := Vacated(j.slots, UpTo(highest)),
    receipts := j.receipts + PresentedReceipts(closed, generation, submitted),
    submitSamples := j.submitSamples + SubmitSamples(closed, submitted),
    lastPresented := HighestSequence(closed, j.lastPresented),
    lastGeneration := Max(j.lastGeneration, generation))
  }

  /** Completion ordinal of the k-th receipt ever pushed. */
  function Ordinal(k: nat): u64 {
    Min(k + 1, U64_MAX)
  }

  /** Receipts a poll with this cursor returns, oldest first. */
  function DeliveredAfter(receipts: seq<Receipt>, cursor: u64): seq<(u64, Receipt)> {
    DeliveredFrom(receipts, cursor, Max(0, |receipts| - WINDOW))
  }

  function DeliveredFrom(receipts: seq<Receipt>, cursor: u64, from: nat): seq<(u64, Receipt)>
    requires from <= |receipts|
  {
    if from == |receipts| then []
    else
      var last := |receipts| - 1;
      DeliveredFrom(receipts[..last], cursor, from) +
      if Ordinal(last) > cursor then [(Ordinal(last), receipts[last])] else []
  }

  // ------------------------------------------------------------------
  // Slot table facts
  // ------------------------------------------------------------------

  lemma {:induction false} LiveCountsOccupied(slots: Slots)
    ensures |Live(slots)| <= |slots|
    ensures |Live(slots)| == |slots| <==> Full(slots)
  {
    if slots != [] {
      LiveCountsOccupied(slots[..|slots| - 1]);
      assert slots == slots[..|slots| - 1] + [slots[|slots| - 1]];
    }
  }

  lemma {:induction false} LiveConcat(a: Slots, b: Slots)
    ensures Live(a + b) == Live(a) + Live(b)
  {
    if b == [] {
      assert a + b == a;
    } else {
      assert (a + b)[..|a + b| - 1] == a + b[..|b| - 1];
      LiveConcat(a, b[..|b| - 1]);
    }
  }

  lemma LiveOne(slot: Option<PendingAction>)
    ensures Live([slot]) == if slot.Some? then [slot.value] else []
  {
    assert [slot][..0] == [];
  }

  lemma LiveSplit(slots: Slots, i: nat)
    requires i < |slots|
    ensures Live(slots) == Live(slots[..i]) + Live([slots[i]]) + Live(slots[i + 1..])
  {
    var a, b, c := slots[..i], [slots[i]], slots[i + 1..];
    LiveConcat(a, b);
    LiveConcat(a + b, c);
    assert slots == (a + b) + c;
  }

  /** Filling a free slot adds exactly that action to the live ones. */
  lemma LiveAfterFill(slots: Slots, i: nat, p: PendingAction)
    requires i < |slots| && slots[i].None?
    ensures multiset(Live(slots[i := Some(p)])) == multiset(Live(slots)) + multiset{p}
    ensures |Live(slots[i := Some(p)])| == |Live(slots)| + 1
  {
    var filled := slots[i := Some(p)];
    LiveSplit(slots, i);
    LiveSplit(filled, i);
    LiveOne(None);
    LiveOne(Some(p));
    assert filled[..i] == slots[..i] && filled[i + 1..] == slots[i + 1..];
  }

  /** Closing partitions the live actions: the closed ones leave, the others stay. */
  lemma {:induction false} ClosingPartitions(slots: Slots, scope: Scope)
    ensures multiset(Live(slots)) == multiset(Closed(slots, scope)) + multiset(Live(Vacated(slots, scope)))
    ensures |Live(slots)| == |Closed(slots, scope)| + |Live(Vacated(slots, scope))|
  {
    if slots != [] {
      ClosingPartitions(slots[..|slots| - 1], scope);
      SplitLast(slots, scope);
    }
  }

  lemma SplitLast(slots: Slots, scope: Scope)
    requires slots != []
    ensures var rest, last := slots[..|slots| - 1], slots[|slots| - 1];
            var leaves := last.Some? && Covers(scope, last.value);
            && Closed(slots, scope) == Closed(rest, scope) + (if leaves then [last.value] else [])
            && Live(Vacated(slots, scope)) ==
               Live(Vacated(rest, scope)) + (if last.Some? && !leaves then [last.value] else [])
  {
    assert Vacated(slots, scope)[..|slots| - 1] == Vacated(slots[..|slots| - 1], scope);
  }

  /** Exactly the covered actions are closed. */
  lemma {:induction false} ClosingRespectsScope(slots: Slots, scope: Scope)
    ensures forall p :: p in Closed(slots, scope) <==> p in Live(slots) && Covers(scope, p)
    ensures forall p :: p in Live(Vacated(slots, scope)) <==> p in Live(slots) && !Covers(scope, p)
  {
    if slots != [] {
      var rest := slots[..|slots| - 1];
      ClosingRespectsScope(rest, scope);
      SplitLast(slots, scope);
    }
  }

  /** They are closed in table order: before the action of slot `i` come those of the slots before it. */
  lemma {:induction false} ClosedInTableOrder(slots: Slots, scope: Scope, i: nat)
    requires i < |slots| && slots[i].Some? && Covers(scope, slots[i].value)
    ensures var k := |Closed(slots[..i], scope)|;
            k < |Closed(slots, scope)| && Closed(slots, scope)[k] == slots[i].value
            && Closed(slots[..i], scope) <= Closed(slots, scope)
  {
    var rest := slots[..|slots| - 1];
    if i < |slots| - 1 {
      ClosedInTableOrder(rest, scope, i);
      assert rest[..i] == slots[..i];
    }
  }

  // ------------------------------------------------------------------
  // The object
  // ------------------------------------------------------------------

  lemma NoneClosed(scope: Scope)
    ensures Closed([], scope) == []
  {
  }

  /** What the sweep does at one slot. */
  lemma OneMoreSwept(slots: Slots, scope: Scope, i: nat)
    requires i < |slots|
    ensures var leaves := slots[i].Some? && Covers(scope, slots[i].value);
            && Closed(slots[..i + 1], scope) == Closed(slots[..i], scope) + (if leaves then [slots[i].value] else [])
            && Vacated(slots, scope)[i] == if leaves then None else slots[i]
  {
    assert slots[..i + 1][..i] == slots[..i];
  }

  /** Move the covered occupants of `slots` to the front of `completed`, in table order. */
  method Sweep(slots: array<Option<PendingAction>>, scope: Scope, completed: array<Option<PendingAction>>)
    returns (count: nat)
    requires slots != completed && slots.Length == completed.Length
    modifies slots, completed
    ensures slots[..] == Vacated(old(slots[..]), scope)
    ensures count == |Closed(old(slots[..]), scope)| <= slots.Length
    ensures forall m :: 0 <= m < count ==> completed[m] == Some(Closed(old(slots[..]), scope)[m])
  {
    hide Closed, Vacated;
    ghost var was := slots[..];
    assert was[..0] == [];
    NoneClosed(scope);
    count := 0;
    var i := 0;
    while i < slots.Length
      invariant 0 <= i <= slots.Length
      invariant count == |Closed(was[..i], scope)| <= i
      invariant forall m :: 0 <= m < count ==> completed[m] == Some(Closed(was[..i], scope)[m])
      invariant forall m :: 0 <= m < i ==> slots[m] == Vacated(was, scope)[m]
      invariant forall m :: i <= m < slots.Length ==> slots[m] == was[m]
    {
      OneMoreSwept(was, scope, i);
      if slots[i].Some? && (scope.Everything? || slots[i].value.sequence <= scope.highest) {
        completed[count] := slots[i];
        count := count + 1;
        slots[i] := None;
      }
      i := i + 1;
    }
    assert was[..i] == was;
  }

  class Monitor {
    const pending: array<Option<PendingAction>>
    var pendingCount: nat
    const receipts: array<Option<StoredReceipt>>
    var nextReceipt: nat
    var receiptCount: nat
    var nextOrdinal: u64
    const ingressToApply: DurationRing
    const applyToSubmit: DurationRing
    var lastPresented: u64
    var lastGeneration: u64
    var overCapacity: u64
    ghost var log: seq<Receipt>

    /** The objects of the monitor; none is ever replaced. */
    ghost function Repr(): set<object> {
      {this, pending, receipts, ingressToApply, ingressToApply.values, applyToSubmit, applyToSubmit.values}
    }

    ghost predicate Valid()
      reads Repr()
    {
      && ingressToApply != applyToSubmit && ingressToApply.values != applyToSubmit.values
      && ingressToApply.Valid() && applyToSubmit.Valid()
      && pending.Length == IN_FLIGHT
      && pendingCount == |Live(pending[..])|
      && ValidRing()
    }

    /** The receipt ring holds the newest receipts under their completion ordinals. */
    ghost predicate ValidRing()
      reads this, receipts
    {
      && receipts.Length == WINDOW
      && nextReceipt == |log| % WINDOW
      && receiptCount == Min(|log|, WINDOW)
      && nextOrdinal == Ordinal(|log|)
      && RingHolds(receipts[..], StoredLog(log))
    }

    ghost function Contents(): Journal
      reads Repr()
      requires Valid()
    {
      Journal(pending[..], log, ingressToApply.samples, applyToSubmit.samples,
              lastPresented, lastGeneration, overCapacity)
    }

    constructor ()
      ensures Valid() && fresh(Repr())
      ensures Contents() == EmptyJournal()
    {
      pending := new Option<PendingAction>[IN_FLIGHT](_ => None);
      receipts := new Option<StoredReceipt>[WINDOW](_ => None);
      pendingCount, nextReceipt, receiptCount, nextOrdinal := 0, 0, 0, 1;
      var first := new DurationRing();
      var second := new DurationRing();
      ingressToApply := first;
      applyToSubmit := second;
      lastPresented, lastGeneration, overCapacity := 0, 0, 0;
      log := [];
      new;
      EmptyTableIsLiveless(IN_FLIGHT);
      assert pending[..] == seq(IN_FLIGHT, _ => None);
    }

    method RecordApplyIdentity(id: Identity, applied: nat) returns (tracked: bool)
      requires Valid()
      modifies Repr()
      ensures Valid()
      ensures Contents() == AfterApply(old(Contents()), id, applied)
      ensures tracked <==> |Live(old(pending[..]))| < IN_FLIGHT
    {
      hide Live, FirstFree, RingHolds, StoredLog, AfterApply, TerminalReceipt;
      LiveCountsOccupied(pending[..]);
      ApplyIs(Contents(), id, applied);
      if pendingCount >= IN_FLIGHT {
        overCapacity := SaturatingAdd(overCapacity, 1);
        RecordTerminal(id.sequence, id.source, NotYetPresented);
        return false;
      }
      var i := 0;
      while i < pending.Length && pending[i].Some?
        invariant 0 <= i <= pending.Length
        invariant forall k :: 0 <= k < i ==> pending[k].Some?
      {
        i := i + 1;
      }
      if i == pending.Length {
        // The second capacity branch: a count below capacity always leaves a free slot.
        assert false;
      }
      var at := Max(applied, id.ingress);
      ingressToApply.Record(at - id.ingress);
      LiveAfterFill(pending[..], i, PendingAction(id.sequence, id.source, id.ingress, at));
      FirstFreeIs(pending[..], i);
      pending[i] := Some(PendingAction(id.sequence, id.source, id.ingress, at));
      pendingCount := pendingCount + 1;
      return true;
    }

    method RecordTerminal(sequence: u64, source: Source, disposition: Disposition)
      requires Valid() && disposition != Presented
      modifies this, receipts
      ensures Valid()
      ensures Contents() == AfterTerminal(old(Contents()), sequence, source, disposition)
    {
      PushReceipt(TerminalReceipt(sequence, source, disposition));
    }

    method TerminalizeAllPending(disposition: Disposition) returns (completedCount: nat)
      requires Valid() && disposition != Presented
      modifies Repr()
      ensures Valid()
      ensures Contents() == AfterTerminalizeAll(old(Contents()), disposition)
      ensures completedCount == |Live(old(pending[..]))|
    {
      hide Terminalizing, AfterTerminalizeAll, AfterTerminal, Closed, Vacated, Live, ValidRing, Ordinal;
      EverythingClosesAll(pending[..]);
      var completed := new Option<PendingAction>[IN_FLIGHT](_ => None);
      completedCount := TakeCovered(Everything, completed);
      ghost var closed := Closed(old(pending[..]), Everything);
      ghost var before := Contents();
      NothingTerminalized(before, disposition);
      assert closed[..0] == [];
      var k := 0;
      while k < completedCount
        invariant 0 <= k <= completedCount == |closed|
        invariant Valid()
        invariant Contents() == Terminalizing(before, closed[..k], disposition)
        invariant forall m :: 0 <= m < completedCount ==> completed[m] == Some(closed[m])
      {
        RecordTerminal(completed[k].value.sequence, completed[k].value.source, disposition);
        ExtendTerminals(before, closed, k, disposition);
        k := k + 1;
      }
      assert closed[..completedCount] == closed;
      TerminalizingAllIs(old(Contents()), disposition);
    }

    method RecordSubmission(highest: u64, generation: u64, submitted: nat)
      requires Valid()
      modifies Repr()
      ensures Valid()
      ensures Contents() == AfterSubmission(old(Contents()), highest, generation, submitted)
    {
      hide Presenting, PresentingOne, AfterSubmission, Closed, Vacated, Live, Ordinal, RingHolds, StoredLog;
      var completed := new Option<PendingAction>[IN_FLIGHT](_ => None);
      var completedCount := TakeCovered(UpTo(highest), completed);
      ghost var closed := Closed(old(pending[..]), UpTo(highest));
      ghost var before := Contents();
      NothingPresented(before, generation, submitted);
      assert closed[..0] == [];
      var k := 0;
      while k < completedCount
        invariant 0 <= k <= completedCount == |closed|
        invariant Valid()
        invariant Contents() == Presenting(before, closed[..k], generation, submitted)
        invariant forall m :: 0 <= m < completedCount ==> completed[m] == Some(closed[m])
      {
        Present(completed[k].value, generation, submitted);
        ExtendPresented(before, closed, k, generation, submitted);
        k := k + 1;
      }
      assert closed[..completedCount] == closed;
      SubmissionIs(old(Contents()), highest, generation, submitted);
      lastGeneration := Max(lastGeneration, generation);
    }

    /** The body of the submission loop: one completed action becomes one presented receipt. */
    method Present(p: PendingAction, generation: u64, submitted: nat)
      requires Valid()
      modifies this, receipts, applyToSubmit, applyToSubmit.values
      ensures Valid()
      ensures Contents() == PresentingOne(old(Contents()), p, generation, submitted)
    {
      var at := Max(submitted, p.applied);
      applyToSubmit.Record(at - p.applied);
      PushReceipt(Receipt(p.sequence, p.source, Presented,
                          Some(DurationMicros(Max(p.applied - p.ingress, 0))),
                          Some(DurationMicros(at - p.applied)),
                          Some(generation)));
      lastPresented := Max(lastPresented, p.sequence);
    }

    /** The table sweep: covered actions move to the scratch array in table order. */
    method TakeCovered(scope: Scope, completed: array<Option<PendingAction>>) returns (count: nat)
      requires Valid() && completed.Length == IN_FLIGHT && completed !in Repr()
      modifies this`pendingCount, pending, completed
      ensures Valid()
      ensures Contents() == old(Contents()).(slots := Vacated(old(pending[..]), scope))
      ensures count == |Closed(old(pending[..]), scope)| <= IN_FLIGHT
      ensures forall m :: 0 <= m < count ==> completed[m] == Some(Closed(old(pending[..]), scope)[m])
    {
      count := Sweep(pending, scope, completed);
      ClosingPartitions(old(pending[..]), scope);
      pendingCount := Max(pendingCount - count, 0);
    }

    method PushReceipt(receipt: Receipt)
      requires Valid()
      modifies this, receipts
      ensures Valid()
      ensures Contents() == old(Contents()).(receipts := old(log) + [receipt])
    {
      var ordinal := nextOrdinal;
      RingPush(receipts[..], StoredLog(log), Some(StoredReceipt(ordinal, receipt)));
      RingAdvance(|log|);
      nextOrdinal := SaturatingAdd(nextOrdinal, 1);
      receipts[nextReceipt] := Some(StoredReceipt(ordinal, receipt));
      nextReceipt := (nextReceipt + 1) % WINDOW;
      receiptCount := Min(receiptCount + 1, WINDOW);
      assert StoredLog(log + [receipt]) == StoredLog(log) + [Some(StoredReceipt(ordinal, receipt))];
      log := log + [receipt];
    }

    method ReceiptsAfter(cursor: u64) returns (delivered: seq<(u64, Receipt)>)
      requires Valid()
      ensures delivered == DeliveredAfter(Contents().receipts, cursor)
    {
      hide DeliveredFrom, Ordinal, RingHolds, StoredLog, Live;
      var start := if receiptCount == WINDOW then nextReceipt else 0;
      NothingDelivered(log[..Max(0, |log| - WINDOW)], cursor);
      ghost var oldest := Max(0, |log| - WINDOW);
      delivered := [];
      var offset := 0;
      while offset < receiptCount
        invariant 0 <= offset <= receiptCount
        invariant delivered == DeliveredFrom(log[..oldest + offset], cursor, oldest)
      {
        var stored := receipts[(start + offset) % WINDOW];
        RingCell(receipts[..], log, offset);
        if stored.Some? && stored.value.ordinal > cursor {
          delivered := delivered + [(stored.value.ordinal, stored.value.receipt)];
        }
        DeliverNext(log, cursor, oldest, oldest + offset);
        offset := offset + 1;
      }
      assert log[..oldest + offset] == log;
    }

    method TakeSnapshot() returns (r: Snapshot)
      requires Valid()
      ensures r == Snapshot(PercentilesOf(Contents().applySamples), PercentilesOf(Contents().submitSamples),
                            Contents().lastPresented, Contents().lastGeneration,
                            |Live(Contents().slots)|, Contents().overCapacity)
    {
      var first := ingressToApply.Percentiles();
      var second := applyToSubmit.Percentiles();
      r := Snapshot(first, second, lastPresented, lastGeneration, pendingCount, overCapacity);
    }
  }

  function EmptyJournal(): Journal {
    Journal(seq(IN_FLIGHT, _ => None), [], [], [], 0, 0, 0)
  }

  lemma {:induction false} EmptyTableIsLiveless(n: nat)
    ensures Live(seq(n, _ => None)) == []
  {
    if n > 0 {
      var table: Slots := seq(n, _ => None);
      assert table[..n - 1] == seq(n - 1, _ => None);
      EmptyTableIsLiveless(n - 1);
    }
  }

  lemma FirstFreeIs(slots: Slots, i: nat)
    requires i < |slots| && slots[i].None? && forall k :: 0 <= k < i ==> slots[k].Some?
    ensures !Full(slots) && FirstFree(slots, 0) == i
  {
  }

  lemma {:induction false} EverythingClosesAll(slots: Slots)
    ensures Closed(slots, Everything) == Live(slots)
  {
    if slots != [] {
      EverythingClosesAll(slots[..|slots| - 1]);
    }
  }

  ghost function StoredLog(log: seq<Receipt>): seq<Option<StoredReceipt>> {
    seq(|log|, k requires 0 <= k < |log| => Some(StoredReceipt(Ordinal(k), log[k])))
  }

  /** The `offset`-th live cell of the ring is the matching entry of the newest receipts. */
  lemma RingCell(cells: seq<Option<StoredReceipt>>, log: seq<Receipt>, offset: nat)
    requires RingHolds(cells, StoredLog(log)) && offset < Min(|log|, WINDOW)
    ensures var start := if |log| >= WINDOW then |log| % WINDOW else 0;
            var k := Max(0, |log| - WINDOW) + offset;
            cells[(start + offset) % WINDOW] == Some(StoredReceipt(Ordinal(k), log[k]))
  {
    hide Ordinal;
    var k := Max(0, |log| - WINDOW) + offset;
    assert cells[k % WINDOW] == StoredLog(log)[k];
    CellOf(|log|, offset);
  }

  /** The ring position of the `offset`-th newest entry of a log of length `n`. */
  lemma CellOf(n: nat, offset: nat)
    requires offset < Min(n, WINDOW)
    ensures ((if n >= WINDOW then n % WINDOW else 0) + offset) % WINDOW == (Max(0, n - WINDOW) + offset) % WINDOW
  {
  }

  lemma NothingDelivered(receipts: seq<Receipt>, cursor: u64)
    ensures DeliveredFrom(receipts, cursor, |receipts|) == []
  {
  }

  lemma DeliverNext(log: seq<Receipt>, cursor: u64, oldest: nat, k: nat)
    requires oldest <= k < |log|
    ensures DeliveredFrom(log[..k + 1], cursor, oldest) ==
            DeliveredFrom(log[..k], cursor, oldest) + if Ordinal(k) > cursor then [(Ordinal(k), log[k])] else []
  {
    assert log[..k + 1][..k] == log[..k];
  }

  ghost function PresentingOne(j: Journal, p: PendingAction, generation: u64, submitted: nat): Journal {
    j.(receipts := j.receipts + [PresentedReceipt(p, generation, submitted)],
    submitSamples := j.submitSamples + [SubmitMicros(p, submitted)],
    lastPresented := Max(j.lastPresented, p.sequence))
  }

  ghost function Presenting(j: Journal, ps: seq<PendingAction>, generation: u64, submitted: nat): Journal {
    j.(receipts := j.receipts + PresentedReceipts(ps, generation, submitted),
    submitSamples := j.submitSamples + SubmitSamples(ps, submitted),
    lastPresented := HighestSequence(ps, j.lastPresented))
  }

  /** The two outcomes of an application. */
  lemma ApplyIs(j: Journal, id: Identity, applied: nat)
    ensures Full(j.slots) ==>
              AfterApply(j, id, applied) ==
              j.(receipts := j.receipts + [TerminalReceipt(id.sequence, id.source, NotYetPresented)],
                 overCapacity := SaturatingAdd(j.overCapacity, 1))
    ensures !Full(j.slots) ==>
              var at := Max(applied, id.ingress);
              AfterApply(j, id, applied) ==
              j.(slots := j.slots[FirstFree(j.slots, 0) := Some(PendingAction(id.sequence, id.source, id.ingress, at))],
                 applySamples := j.applySamples + [DurationMicros(at - id.ingress)])
  {
  }

  lemma NothingPresented(j: Journal, generation: u64, submitted: nat)
    ensures Presenting(j, [], generation, submitted) == j
  {
    assert j.receipts + PresentedReceipts([], generation, submitted) == j.receipts;
    assert j.submitSamples + SubmitSamples([], submitted) == j.submitSamples;
  }

  lemma NothingTerminalized(j: Journal, disposition: Disposition)
    ensures Terminalizing(j, [], disposition) == j
  {
    assert j.receipts + TerminalReceipts([], disposition) == j.receipts;
  }

  /** A submission is the sweep, the presentation of what it took, and the generation. */
  lemma SubmissionIs(j: Journal, highest: u64, generation: u64, submitted: nat)
    ensures var swept := j.(slots := Vacated(j.slots, UpTo(highest)));
            var presented := Presenting(swept, Closed(j.slots, UpTo(highest)), generation, submitted);
            AfterSubmission(j, highest, generation, submitted) ==
            presented.(lastGeneration := Max(presented.lastGeneration, generation))
  {
    hide Closed, Vacated;
  }

  lemma TerminalizingAllIs(j: Journal, disposition: Disposition)
    ensures AfterTerminalizeAll(j, disposition) ==
            Terminalizing(j.(slots := Vacated(j.slots, Everything)), Closed(j.slots, Everything), disposition)
  {
    hide Closed, Vacated;
  }

  lemma ExtendPresented(j: Journal, closed: seq<PendingAction>, k: nat, generation: u64, submitted: nat)
    requires k < |closed|
    ensures PresentingOne(Presenting(j, closed[..k], generation, submitted), closed[k], generation, submitted) ==
            Presenting(j, closed[..k + 1], generation, submitted)
  {
    assert closed[..k + 1][..k] == closed[..k];
    assert PresentedReceipts(closed[..k + 1], generation, submitted) ==
           PresentedReceipts(closed[..k], generation, submitted) + [PresentedReceipt(closed[k], generation, submitted)];
    assert SubmitSamples(closed[..k + 1], submitted) ==
           SubmitSamples(closed[..k], submitted) + [SubmitMicros(closed[k], submitted)];
  }

  ghost function Terminalizing(j: Journal, ps: seq<PendingAction>, disposition: Disposition): Journal {
    j.(receipts := j.receipts + TerminalReceipts(ps, disposition))
  }

  lemma ExtendTerminals(j: Journal, closed: seq<PendingAction>, k: nat, disposition: Disposition)
    requires k < |closed|
    ensures AfterTerminal(Terminalizing(j, closed[..k], disposition), closed[k].sequence, closed[k].source, disposition) ==
            Terminalizing(j, closed[..k + 1], disposition)
  {
    assert TerminalReceipts(closed[..k + 1], disposition) ==
           TerminalReceipts(closed[..k], disposition) +
           [TerminalReceipt(closed[k].sequence, closed[k].source, disposition)];
  }
}
