/** Admission of recordable edits: who may record, and the bounded same-frame staging of what was accepted. */
module CreativeMutation {
  import opened Wrappers

  datatype Source = FromBrowser | FromPhone | FromNative | FromMidi | FromOsc | FromAutomation | FromReplay

  datatype Origin = Browser | Phone | Native | Midi | Osc | Automation

  datatype OriginPolicy = Recordable(origin: Origin) | ReplayExcluded

  /** One accepted edit; `raw` is what the operator sent, `canonical` its code under the law. */
  datatype Mutation<C(==), L(==), V> = Mutation(origin: Origin, control: C, law: L, raw: V, canonical: nat)

  datatype Verdict = Inserted | Duplicate | Full

  function PolicyOf(source: Source): OriginPolicy {
    match source
    case FromBrowser => Recordable(Browser)
    case FromPhone => Recordable(Phone)
    case FromNative => Recordable(Native)
    case FromMidi => Recordable(Midi)
    case FromOsc => Recordable(Osc)
    case FromAutomation => Recordable(Automation)
    case FromReplay => ReplayExcluded
  }

  /** An edit as it arrives, before the policy and the law have seen it. */
  datatype Action<C(==), L(==), V> = Action(source: Source, control: C, law: L, raw: V)

  type Encoder<!L, !V> = (L, V) -> Option<nat>

  function Candidate<C, L, V>(a: Action<C, L, V>, encode: Encoder<L, V>): Option<Mutation<C, L, V>> {
    match PolicyOf(a.source)
    case ReplayExcluded => None
    case Recordable(origin) =>
      match encode(a.law, a.raw)
      case None => None
      case Some(code) => Some(Mutation(origin, a.control, a.law, a.raw, code))
  }

  predicate SameCanonicalEvent<C, L, V>(m: Mutation<C, L, V>, n: Mutation<C, L, V>) {
    m.control == n.control && m.law == n.law && m.canonical == n.canonical
  }

  function VerdictOn<C, L, V>(pending: seq<Mutation<C, L, V>>, m: Mutation<C, L, V>, maxPending: nat): Verdict {
    if pending != [] && SameCanonicalEvent(Last(pending), m) then Duplicate
    else if |pending| >= maxPending then Full
    else Inserted
  }

  function Staged<C, L, V>(pending: seq<Mutation<C, L, V>>, m: Mutation<C, L, V>, maxPending: nat): seq<Mutation<C, L, V>> {
    if VerdictOn(pending, m, maxPending).Inserted? then pending + [m] else pending
  }

  /** The host's pending list of one accepted frame. */
  class StagingArea<C(==), L(==), V> {
    var pending: seq<Mutation<C, L, V>>

    constructor ()
      ensures pending == []
    {
      pending := [];
    }

    method Stage(m: Mutation<C, L, V>, maxPending: nat) returns (verdict: Verdict)
      modifies this
      ensures verdict == VerdictOn(old(pending), m, maxPending)
      ensures pending == Staged(old(pending), m, maxPending)
    {
      if |pending| > 0 && SameCanonicalEvent(pending[|pending| - 1], m) {
        return Duplicate;
      }
      if |pending| >= maxPending {
        return Full;
      }
      pending := pending + [m];
      return Inserted;
    }
  }

  // ------------------------------------------------------------------
  // Whole streams
  // ------------------------------------------------------------------

  /** What staging a whole stream leaves. */
  function StagedStream<C, L, V>(stream: seq<Mutation<C, L, V>>, maxPending: nat): seq<Mutation<C, L, V>> {
    if stream == [] then []
    else Staged(StagedStream(stream[..|stream| - 1], maxPending), Last(stream), maxPending)
  }

  /** How many edits of the stream are reported as refused. */
  function Refused<C, L, V>(stream: seq<Mutation<C, L, V>>, maxPending: nat): nat {
    if stream == [] then 0
    else
      var before := stream[..|stream| - 1];
      Refused(before, maxPending) + if VerdictOn(StagedStream(before, maxPending), Last(stream), maxPending).Full? then 1 else 0
  }

  /** The edits that differ from the one delivered just before them. */
  function Changes<C, L, V>(stream: seq<Mutation<C, L, V>>): seq<Mutation<C, L, V>> {
    if stream == [] then []
    else
      var before := Changes(stream[..|stream| - 1]);
      if |stream| > 1 && SameCanonicalEvent(stream[|stream| - 2], Last(stream)) then before else before + [Last(stream)]
  }

  function Take<T>(s: seq<T>, n: nat): seq<T> {
    s[..Min(|s|, n)]
  }

  lemma {:induction false} LastChange<C, L, V>(stream: seq<Mutation<C, L, V>>)
    requires stream != []
    ensures Changes(stream) != [] && SameCanonicalEvent(Last(Changes(stream)), Last(stream))
  {
    if |stream| > 1 {
      LastChange(stream[..|stream| - 1]);
      assert Last(stream[..|stream| - 1]) == stream[|stream| - 2];
    }
  }

  /**
   Staging any stream leaves exactly the first `maxPending` of its changes: repeated
   delivery collapses, an intervening edit is a barrier, and nothing is reordered.
   */
  lemma {:induction false} StagingTakesTheFirstChanges<C, L, V>(stream: seq<Mutation<C, L, V>>, maxPending: nat)
    ensures StagedStream(stream, maxPending) == Take(Changes(stream), maxPending)
  {
    hide SameCanonicalEvent;
    if stream != [] {
      var before := stream[..|stream| - 1];
      StagingTakesTheFirstChanges(before, maxPending);
      if before != [] {
        LastChange(before);
        assert Last(before) == stream[|stream| - 2];
        SameAs(Last(Changes(before)), Last(before), Last(stream));
      }
    }
  }

  lemma SameAs<C, L, V>(a: Mutation<C, L, V>, b: Mutation<C, L, V>, c: Mutation<C, L, V>)
    requires SameCanonicalEvent(a, b)
    ensures SameCanonicalEvent(a, c) == SameCanonicalEvent(b, c)
  {
  }

  /** A refusal is reported exactly when the stream has more changes than fit. */
  lemma {:induction false} RefusalIsReportedExactlyOnOverflow<C, L, V>(stream: seq<Mutation<C, L, V>>, maxPending: nat)
    ensures Refused(stream, maxPending) > 0 <==> |Changes(stream)| > maxPending
  {
    hide SameCanonicalEvent;
    if stream != [] {
      var before := stream[..|stream| - 1];
      RefusalIsReportedExactlyOnOverflow(before, maxPending);
      StagingTakesTheFirstChanges(before, maxPending);
      if before != [] {
        LastChange(before);
        assert Last(before) == stream[|stream| - 2];
        SameAs(Last(Changes(before)), Last(before), Last(stream));
      }
    }
  }

  // ------------------------------------------------------------------
  // What the count of refusals counts
  // ------------------------------------------------------------------

  /** How many deliveries it takes to fill the list, or all of them if they never do. */
  function FullAt<C, L, V>(stream: seq<Mutation<C, L, V>>, maxPending: nat): (n: nat)
    ensures n <= |stream|
  {
    if stream == [] || |Changes(stream)| < maxPending then |stream|
    else if |Changes(stream[..|stream| - 1])| >= maxPending then FullAt(stream[..|stream| - 1], maxPending)
    else |stream|
  }

  /** The delivery that filled the list, if one had to. */
  function Filler<C, L, V>(stream: seq<Mutation<C, L, V>>, maxPending: nat): Option<Mutation<C, L, V>> {
    var n := FullAt(stream, maxPending);
    if n == 0 then None else Some(stream[n - 1])
  }

  /** The deliveries after the list was full. */
  function Tail<C, L, V>(stream: seq<Mutation<C, L, V>>, maxPending: nat): seq<Mutation<C, L, V>> {
    stream[FullAt(stream, maxPending)..]
  }

  /** The list is full after that many deliveries and not before. */
  lemma {:induction false} FullAtIsFirst<C, L, V>(stream: seq<Mutation<C, L, V>>, maxPending: nat, n: nat)
    requires n <= |stream|
    ensures |Changes(stream)| >= maxPending ==> |Changes(stream[..FullAt(stream, maxPending)])| == maxPending
    ensures n < FullAt(stream, maxPending) ==> |Changes(stream[..n])| < maxPending
  {
    hide SameCanonicalEvent;
    assert stream[..|stream|] == stream;
    if stream != [] {
      var before := stream[..|stream| - 1];
      var k := FullAt(before, maxPending);
      FullAtIsFirst(before, maxPending, if n < |stream| then n else n - 1);
      assert k <= |before| && before[..k] == stream[..k];
      assert n < |stream| ==> before[..n] == stream[..n];
      if |Changes(before)| < maxPending && n < |stream| {
        ChangesOfPrefix(before, n);
      }
    }
  }

  lemma {:induction false} ChangesOfPrefix<C, L, V>(stream: seq<Mutation<C, L, V>>, n: nat)
    requires n <= |stream|
    ensures Changes(stream[..n]) <= Changes(stream)
  {
    hide SameCanonicalEvent;
    if n < |stream| {
      ChangesOfPrefix(stream[..|stream| - 1], n);
      assert stream[..|stream| - 1][..n] == stream[..n];
    } else {
      assert stream[..n] == stream;
    }
  }

  predicate DiffersFrom<C, L, V>(kept: Option<Mutation<C, L, V>>, m: Mutation<C, L, V>) {
    kept.None? || !SameCanonicalEvent(kept.value, m)
  }

  /** The delivery just before the last of the tail; `kept` stands in front of the tail. */
  function Previous<C, L, V>(kept: Option<Mutation<C, L, V>>, tail: seq<Mutation<C, L, V>>): Option<Mutation<C, L, V>>
    requires tail != []
  {
    if |tail| == 1 then kept else Some(tail[|tail| - 2])
  }

  /** Deliveries of the tail unlike the last item kept. */
  function Unkept<C, L, V>(kept: Option<Mutation<C, L, V>>, tail: seq<Mutation<C, L, V>>): nat {
    if tail == [] then 0
    else Unkept(kept, tail[..|tail| - 1]) + if DiffersFrom(kept, Last(tail)) then 1 else 0
  }

  /** Deliveries of the tail unlike the one just before. */
  function Alterations<C, L, V>(kept: Option<Mutation<C, L, V>>, tail: seq<Mutation<C, L, V>>): nat {
    if tail == [] then 0
    else Alterations(kept, tail[..|tail| - 1]) + if DiffersFrom(Previous(kept, tail), Last(tail)) then 1 else 0
  }

  /** Refused items delivered again right away. */
  function RefusedRepeats<C, L, V>(kept: Option<Mutation<C, L, V>>, tail: seq<Mutation<C, L, V>>): nat {
    if tail == [] then 0
    else
      RefusedRepeats(kept, tail[..|tail| - 1]) +
      if DiffersFrom(kept, Last(tail)) && !DiffersFrom(Previous(kept, tail), Last(tail)) then 1 else 0
  }

  /** Changes back to the last item kept. */
  function Returns<C, L, V>(kept: Option<Mutation<C, L, V>>, tail: seq<Mutation<C, L, V>>): nat {
    if tail == [] then 0
    else
      Returns(kept, tail[..|tail| - 1]) +
      if !DiffersFrom(kept, Last(tail)) && DiffersFrom(Previous(kept, tail), Last(tail)) then 1 else 0
  }

  lemma {:induction false} RepeatsAgainstReturns<C, L, V>(kept: Option<Mutation<C, L, V>>, tail: seq<Mutation<C, L, V>>)
    ensures Unkept(kept, tail) + Returns(kept, tail) == Alterations(kept, tail) + RefusedRepeats(kept, tail)
  {
    hide DiffersFrom;
    if tail != [] {
      RepeatsAgainstReturns(kept, tail[..|tail| - 1]);
    }
  }

  /** One more delivery to a full list lengthens the tail; before that there is no tail. */
  lemma TailGrows<C, L, V>(stream: seq<Mutation<C, L, V>>, maxPending: nat)
    requires stream != []
    ensures var before := stream[..|stream| - 1];
            if |Changes(before)| >= maxPending
            then && Tail(stream, maxPending) == Tail(before, maxPending) + [Last(stream)]
                 && Filler(stream, maxPending) == Filler(before, maxPending)
            else Tail(stream, maxPending) == []
  {
    hide SameCanonicalEvent;
    var before := stream[..|stream| - 1];
    if |Changes(before)| >= maxPending {
      var n := FullAt(before, maxPending);
      assert FullAt(stream, maxPending) == n;
      assert stream[n..] == before[n..] + [Last(stream)];
    }
  }

  /** The delivery that fills the list is the last item kept, whatever follows. */
  lemma {:induction false} FillerIsTheLastKept<C, L, V>(stream: seq<Mutation<C, L, V>>, maxPending: nat)
    requires |Changes(stream)| >= maxPending
    ensures Filler(stream, maxPending).None? <==> maxPending == 0
    ensures maxPending > 0 ==> Filler(stream, maxPending) == Some(Changes(stream)[maxPending - 1])
    ensures |StagedStream(stream, maxPending)| == maxPending
    ensures maxPending > 0 ==> Filler(stream, maxPending) == Some(Last(StagedStream(stream, maxPending)))
  {
    hide SameCanonicalEvent;
    StagingTakesTheFirstChanges(stream, maxPending);
    if stream != [] {
      var before := stream[..|stream| - 1];
      if |Changes(before)| >= maxPending {
        FillerIsTheLastKept(before, maxPending);
        TailGrows(stream, maxPending);
      }
    }
  }

  /** What the delivery before the last one was. */
  lemma PreviousOfTail<C, L, V>(stream: seq<Mutation<C, L, V>>, maxPending: nat)
    requires stream != [] && |Changes(stream[..|stream| - 1])| >= maxPending
    ensures Tail(stream, maxPending) != []
    ensures Previous(Filler(stream, maxPending), Tail(stream, maxPending)) ==
            if |stream| == 1 then None else Some(stream[|stream| - 2])
  {
    TailGrows(stream, maxPending);
  }

  /**
   For every stream: the refusals are the deliveries to a full list that differ from its last
   item, while the changes lost are the deliveries to a full list that differ from the one
   before them.
   */
  lemma {:induction false} RefusalsAndLosses<C, L, V>(stream: seq<Mutation<C, L, V>>, maxPending: nat)
    ensures Refused(stream, maxPending) == Unkept(Filler(stream, maxPending), Tail(stream, maxPending))
    ensures |Changes(stream)| - |StagedStream(stream, maxPending)| ==
            Alterations(Filler(stream, maxPending), Tail(stream, maxPending))
  {
    hide SameCanonicalEvent, FullAt, Filler, Tail, Previous, Refused, Changes, StagedStream;
    StagingTakesTheFirstChanges(stream, maxPending);
    if stream == [] {
      NothingDelivered<C, L, V>(maxPending);
    } else {
      var before := stream[..|stream| - 1];
      RefusalsAndLosses(before, maxPending);
      StagingTakesTheFirstChanges(before, maxPending);
      TailGrows(stream, maxPending);
      RefusalStep(stream, maxPending);
      if |Changes(before)| >= maxPending {
        PreviousOfTail(stream, maxPending);
        FillerIsTheLastKept(before, maxPending);
        assert Tail(stream, maxPending)[..|Tail(stream, maxPending)| - 1] == Tail(before, maxPending);
      } else {
        NoneRefusedBelow(before, maxPending);
      }
    }
  }

  lemma NothingDelivered<C, L, V>(maxPending: nat)
    ensures var none: seq<Mutation<C, L, V>> := [];
            && Refused(none, maxPending) == 0 && Changes(none) == [] && Tail(none, maxPending) == []
  {
  }

  lemma RefusalStep<C, L, V>(stream: seq<Mutation<C, L, V>>, maxPending: nat)
    requires stream != []
    ensures var before, m := stream[..|stream| - 1], Last(stream);
            && Refused(stream, maxPending) == Refused(before, maxPending) +
               (if VerdictOn(StagedStream(before, maxPending), m, maxPending).Full? then 1 else 0)
            && |Changes(stream)| == |Changes(before)| +
               (if DiffersFrom(if |stream| == 1 then None else Some(stream[|stream| - 2]), m) then 1 else 0)
  {
    hide SameCanonicalEvent;
  }

  lemma NoneRefusedBelow<C, L, V>(stream: seq<Mutation<C, L, V>>, maxPending: nat)
    requires |Changes(stream)| < maxPending
    ensures Refused(stream, maxPending) == 0 && |StagedStream(stream, maxPending)| < maxPending
  {
    RefusalIsReportedExactlyOnOverflow(stream, maxPending);
    StagingTakesTheFirstChanges(stream, maxPending);
  }

  /**
   The number of refusals is the number of changes lost if and only if, after the list is full,
   refused items are delivered again exactly as often as the stream returns to the last item kept.
   */
  lemma RefusalsEqualLossesExactlyWhen<C, L, V>(stream: seq<Mutation<C, L, V>>, maxPending: nat)
    ensures var kept, tail := Filler(stream, maxPending), Tail(stream, maxPending);
            Refused(stream, maxPending) == |Changes(stream)| - |StagedStream(stream, maxPending)| <==>
            RefusedRepeats(kept, tail) == Returns(kept, tail)
  {
    RefusalsAndLosses(stream, maxPending);
    RepeatsAgainstReturns(Filler(stream, maxPending), Tail(stream, maxPending));
  }

  /**
   Both ways it can fail: a return to the last item kept is a change lost that is not refused,
   and a refused item delivered again is refused again but no change.
   */
  lemma RefusalsCountDeliveriesNotChanges<C, L, V>(a: Mutation<C, L, V>, b: Mutation<C, L, V>)
    requires !SameCanonicalEvent(a, b)
    ensures |Changes([a, b, a])| - |StagedStream([a, b, a], 1)| == 2 && Refused([a, b, a], 1) == 1
    ensures Filler([a, b, a], 1) == Some(a) && Tail([a, b, a], 1) == [b, a]
    ensures Returns(Some(a), [b, a]) == 1 && RefusedRepeats(Some(a), [b, a]) == 0
    ensures |Changes([a, b, b])| - |StagedStream([a, b, b], 1)| == 1 && Refused([a, b, b], 1) == 2
    ensures Filler([a, b, b], 1) == Some(a) && Tail([a, b, b], 1) == [b, b]
    ensures Returns(Some(a), [b, b]) == 0 && RefusedRepeats(Some(a), [b, b]) == 1
  {
    OneThenOther(a, b);
    var aba, abb := [a, b, a], [a, b, b];
    assert aba[..2] == [a, b] && abb[..2] == [a, b];
    TailGrows(aba, 1);
    TailGrows(abb, 1);
    assert [b] + [a] == [b, a] && [b] + [b] == [b, b];
    TwoDeliveries(Some(a), b, a);
    TwoDeliveries(Some(a), b, b);
  }

  lemma TwoDeliveries<C, L, V>(kept: Option<Mutation<C, L, V>>, m: Mutation<C, L, V>, n: Mutation<C, L, V>)
    requires DiffersFrom(kept, m)
    ensures Returns(kept, [m, n]) == if !DiffersFrom(kept, n) && DiffersFrom(Some(m), n) then 1 else 0
    ensures RefusedRepeats(kept, [m, n]) == if DiffersFrom(kept, n) && !DiffersFrom(Some(m), n) then 1 else 0
  {
    hide DiffersFrom;
    var one, two := [m], [m, n];
    assert two[..1] == one && one[..0] == [] && Last(one) == m && Last(two) == n;
    assert Previous(kept, one) == kept && Previous(kept, two) == Some(m);
    assert Returns(kept, one) == 0 && RefusedRepeats(kept, one) == 0;
  }

  lemma OneThenOther<C, L, V>(a: Mutation<C, L, V>, b: Mutation<C, L, V>)
    requires !SameCanonicalEvent(a, b)
    ensures Changes([a, b]) == [a, b] && StagedStream([a, b], 1) == [a] && Refused([a, b], 1) == 1
    ensures Filler([a, b], 1) == Some(a) && Tail([a, b], 1) == [b]
  {
    var one, two := [a], [a, b];
    assert one[..0] == [] && two[..1] == one;
    assert Changes(one) == [a] && StagedStream(one, 1) == [a] && Refused(one, 1) == 0;
    assert FullAt(one, 1) == 1 && FullAt(two, 1) == 1;
  }

  // ------------------------------------------------------------------
  // Provenance
  // ------------------------------------------------------------------

  /** What a take records of an edit. */
  datatype Event<C, L> = Event(control: C, law: L, canonical: nat)

  function Events<C, L, V>(s: seq<Mutation<C, L, V>>): (r: seq<Event<C, L>>)
    ensures |r| == |s|
    ensures forall i :: 0 <= i < |s| ==> r[i] == Event(s[i].control, s[i].law, s[i].canonical)
  {
    seq(|s|, i requires 0 <= i < |s| => Event(s[i].control, s[i].law, s[i].canonical))
  }

  lemma EventsOfFront<C, L, V>(s: seq<Mutation<C, L, V>>, t: seq<Mutation<C, L, V>>)
    requires Events(s) == Events(t) && s != []
    ensures t != [] && Events(s[..|s| - 1]) == Events(t[..|t| - 1])
    ensures forall n :: SameCanonicalEvent(n, Last(s)) == SameCanonicalEvent(n, Last(t))
  {
    assert |s| == |t| && Events(s)[|s| - 1] == Events(t)[|s| - 1];
    var n := |s| - 1;
    assert Events(s[..n]) == Events(s)[..n] && Events(t[..n]) == Events(t)[..n];
  }

  /**
   Provenance and raw carriers never reach the take: two streams with the same canonical
   events, from whatever adapters, record the same events and the same refusals.
   */
  lemma {:induction false} TakesIgnoreProvenance<C, L, V>(s: seq<Mutation<C, L, V>>, t: seq<Mutation<C, L, V>>, maxPending: nat)
    requires Events(s) == Events(t)
    ensures Events(StagedStream(s, maxPending)) == Events(StagedStream(t, maxPending))
    ensures Refused(s, maxPending) == Refused(t, maxPending)
  {
    if s != [] {
      EventsOfFront(s, t);
      var p, q := StagedStream(s[..|s| - 1], maxPending), StagedStream(t[..|t| - 1], maxPending);
      TakesIgnoreProvenance(s[..|s| - 1], t[..|t| - 1], maxPending);
      SameVerdict(p, q, Last(s), Last(t), maxPending);
    } else {
      assert |t| == |Events(t)| == 0;
    }
  }

  lemma SameVerdict<C, L, V>(p: seq<Mutation<C, L, V>>, q: seq<Mutation<C, L, V>>,
                             m: Mutation<C, L, V>, n: Mutation<C, L, V>, maxPending: nat)
    requires Events(p) == Events(q) && SameCanonicalEvent(m, n)
    ensures VerdictOn(p, m, maxPending) == VerdictOn(q, n, maxPending)
    ensures Events(Staged(p, m, maxPending)) == Events(Staged(q, n, maxPending))
  {
    assert |p| == |Events(p)| == |Events(q)| == |q|;
    if p != [] {
      assert Events(p)[|p| - 1] == Events(q)[|p| - 1];
    }
    assert Events(p + [m]) == Events(p) + Events([m]);
    assert Events(q + [n]) == Events(q) + Events([n]);
    assert Events([m]) == Events([n]);
  }

  /**
   What an action puts forward: nothing if it is replayed or its value does not encode, and
   otherwise its own control, law and value, its code, and the adapter it came from.
   */
  lemma CandidateIs<C, L, V>(a: Action<C, L, V>, encode: Encoder<L, V>)
    ensures Candidate(a, encode).None? <==> a.source == FromReplay || encode(a.law, a.raw).None?
    ensures Candidate(a, encode).Some? ==>
              var m := Candidate(a, encode).value;
              && m.control == a.control && m.law == a.law && m.raw == a.raw && Some(m.canonical) == encode(a.law, a.raw)
              && (m.origin == Browser <==> a.source == FromBrowser) && (m.origin == Phone <==> a.source == FromPhone)
              && (m.origin == Native <==> a.source == FromNative) && (m.origin == Midi <==> a.source == FromMidi)
              && (m.origin == Osc <==> a.source == FromOsc) && (m.origin == Automation <==> a.source == FromAutomation)
  {
  }

  /** The mutations a stream of actions puts forward. */
  function Candidates<C, L, V>(actions: seq<Action<C, L, V>>, encode: Encoder<L, V>): seq<Mutation<C, L, V>> {
    if actions == [] then []
    else
      var rest := Candidates(actions[1..], encode);
      match Candidate(actions[0], encode)
      case None => rest
      case Some(m) => [m] + rest
  }

  function WithoutReplay<C, L, V>(actions: seq<Action<C, L, V>>): seq<Action<C, L, V>> {
    if actions == [] then []
    else if actions[0].source.FromReplay? then WithoutReplay(actions[1..])
    else [actions[0]] + WithoutReplay(actions[1..])
  }

  /** Replayed actions record nothing, and do not even separate the live edits around them. */
  lemma {:induction false} ReplayIsInvisible<C, L, V>(actions: seq<Action<C, L, V>>, encode: Encoder<L, V>, maxPending: nat)
    ensures Candidates(actions, encode) == Candidates(WithoutReplay(actions), encode)
    ensures StagedStream(Candidates(actions, encode), maxPending) ==
            StagedStream(Candidates(WithoutReplay(actions), encode), maxPending)
  {
    if actions != [] {
      ReplayIsInvisible(actions[1..], encode, maxPending);
      assert ([actions[0]] + WithoutReplay(actions[1..]))[1..] == WithoutReplay(actions[1..]);
    }
  }
}
