/**
 What normalization promises: the same release document from every checkout, the same
 dependency graph up to renaming, and an unchanged semantic profile.
 */
module SbomLaws {
  import opened JsonTree
  import opened SbomLayout
  import opened SbomNormalizer

  const SOURCE_PLACEHOLDER := "<exact-collide-o-scope-source-commit>"
  const TIMESTAMP_PLACEHOLDER := "<exact-source-date-epoch>"

  /** The document a semantic digest is taken of: references and timestamp made anonymous. */
  function SemanticProfile(doc: Json, base: string): Json
    requires IsText(doc, TIMESTAMP)
    requires IsText(RebasedDocument(doc, base, SOURCE_PLACEHOLDER), TIMESTAMP)
  {
    Put(RebasedDocument(doc, base, SOURCE_PLACEHOLDER), TIMESTAMP, Str(TIMESTAMP_PLACEHOLDER))
  }

  lemma PlaceholderIsAnchor()
    ensures IsAnchor(SOURCE_PLACEHOLDER)
  {
    assert SOURCE_PLACEHOLDER == "<exact" + ("-collide-o-scope" + "-source-commit>") && "<exact"[0] == '<';
  }

  /** The timestamp is never a slot, so rebasing leaves it alone. */
  lemma TimestampSurvives(doc: Json, base: string, target: string)
    ensures IsText(RebasedDocument(doc, base, target), TIMESTAMP) <==> IsText(doc, TIMESTAMP)
    ensures Text(RebasedDocument(doc, base, target), TIMESTAMP) == Text(doc, TIMESTAMP)
  {
    hide Slots;
    if TIMESTAMP in Slots(doc) {
      SlotEnding(doc, TIMESTAMP);
    }
    RenamedFrame(doc, SlotSet(doc), (v: string) => Rebased(base, target, v), TIMESTAMP);
  }

  /** Rebasing in two steps is rebasing in one. */
  lemma RebasingComposes(doc: Json, base: string, middle: string, target: string)
    requires Reviewed(doc, base) && IsAnchor(base) && IsAnchor(middle)
    ensures RebasedDocument(RebasedDocument(doc, base, middle), middle, target) == RebasedDocument(doc, base, target)
  {
    hide Reviewed, Slots, Rebased, Renamed, IsAnchor;
    var f := (v: string) => Rebased(base, middle, v);
    var g := (v: string) => Rebased(middle, target, v);
    var h := (v: string) => Rebased(base, target, v);
    RenamedKeepsSlots(doc, SlotSet(doc), f);
    forall p | IsText(doc, p) && [] + p in SlotSet(doc)
      ensures g(f(Get(doc, p).text)) == h(Get(doc, p).text)
    {
      assert [] + p == p;
      SlotsAreHereOrForeign(doc, base, p);
      RebasedTwice(base, middle, target, Text(doc, p));
    }
    RenamedTwice(doc, SlotSet(doc), f, g, h, []);
  }

  lemma {:induction false} PutTwice(t: Json, p: Path, v: Json, w: Json)
    requires Has(t, p)
    ensures Has(Put(t, p, v), p) && Put(Put(t, p, v), p, w) == Put(t, p, w)
  {
    if p != [] {
      PutTwice(Child(t, p[0]), p[1..], v, w);
    }
  }

  /** Two documents that agree once their timestamps are blanked, and on their timestamps, are equal. */
  lemma SameBehindTimestamp(a: Json, b: Json, stamp: Json)
    requires IsText(a, TIMESTAMP) && IsText(b, TIMESTAMP)
    requires Put(a, TIMESTAMP, stamp) == Put(b, TIMESTAMP, stamp)
    requires Text(a, TIMESTAMP) == Text(b, TIMESTAMP)
    ensures a == b
  {
    hide Put;
    PutTwice(a, TIMESTAMP, stamp, Get(a, TIMESTAMP));
    PutTwice(b, TIMESTAMP, stamp, Get(b, TIMESTAMP));
    PutSame(a, TIMESTAMP);
    PutSame(b, TIMESTAMP);
  }

  /**
   Normalization keeps the semantic profile: the document bound to the commit has, under
   its own base, the very profile the checkout document had under the checkout's.
   */
  lemma NormalizationKeepsSemanticProfile(doc: Json, raw: string, canonical: string)
    requires Reviewed(doc, raw) && IsAnchor(raw) && IsAnchor(canonical) && IsText(doc, TIMESTAMP)
    ensures var normalized := RebasedDocument(doc, raw, canonical);
            && IsText(normalized, TIMESTAMP)
            && IsText(RebasedDocument(doc, raw, SOURCE_PLACEHOLDER), TIMESTAMP)
            && IsText(RebasedDocument(normalized, canonical, SOURCE_PLACEHOLDER), TIMESTAMP)
            && SemanticProfile(normalized, canonical) == SemanticProfile(doc, raw)
  {
    hide Reviewed, RebasedDocument, IsAnchor, Put;
    TimestampSurvives(doc, raw, canonical);
    TimestampSurvives(doc, raw, SOURCE_PLACEHOLDER);
    RebasingComposes(doc, raw, canonical, SOURCE_PLACEHOLDER);
  }

  /**
   Checkout independence: two reviewed documents with the same semantic profile and
   timestamp, whatever directories they were generated in, normalize to the same document.
   */
  lemma NormalizationIsCheckoutIndependent(a: Json, rawA: string, b: Json, rawB: string, canonical: string)
    requires Reviewed(a, rawA) && Reviewed(b, rawB) && IsAnchor(rawA) && IsAnchor(rawB)
    requires IsText(a, TIMESTAMP) && IsText(b, TIMESTAMP) && Text(a, TIMESTAMP) == Text(b, TIMESTAMP)
    requires IsText(RebasedDocument(a, rawA, SOURCE_PLACEHOLDER), TIMESTAMP)
    requires IsText(RebasedDocument(b, rawB, SOURCE_PLACEHOLDER), TIMESTAMP)
    requires SemanticProfile(a, rawA) == SemanticProfile(b, rawB)
    ensures RebasedDocument(a, rawA, canonical) == RebasedDocument(b, rawB, canonical)
  {
    hide Reviewed, RebasedDocument, Put;
    PlaceholderIsAnchor();
    TimestampSurvives(a, rawA, SOURCE_PLACEHOLDER);
    TimestampSurvives(b, rawB, SOURCE_PLACEHOLDER);
    SameBehindTimestamp(RebasedDocument(a, rawA, SOURCE_PLACEHOLDER), RebasedDocument(b, rawB, SOURCE_PLACEHOLDER),
                        Str(TIMESTAMP_PLACEHOLDER));
    RebasingComposes(a, rawA, SOURCE_PLACEHOLDER, canonical);
    RebasingComposes(b, rawB, SOURCE_PLACEHOLDER, canonical);
  }

  /** Moving the same document to another checkout directory changes nothing in the release document. */
  lemma MovingTheCheckoutChangesNothing(doc: Json, raw: string, elsewhere: string, canonical: string)
    requires Reviewed(doc, raw) && IsAnchor(raw) && IsAnchor(elsewhere)
    ensures Reviewed(RebasedDocument(doc, raw, elsewhere), elsewhere)
    ensures RebasedDocument(RebasedDocument(doc, raw, elsewhere), elsewhere, canonical) ==
            RebasedDocument(doc, raw, canonical)
  {
    hide Reviewed, RebasedDocument;
    RebasedStaysReviewed(doc, raw, elsewhere);
    RebasingComposes(doc, raw, elsewhere, canonical);
  }

  // ------------------------------------------------------------------
  // The graph is preserved
  // ------------------------------------------------------------------

  predicate HasEdge(graph: map<string, seq<string>>, u: string, v: string) {
    u in graph && v in graph[u]
  }

  lemma {:induction false} GraphMentionsReferences(doc: Json, base: string, k: nat, u: string)
    requires Reviewed(doc, base) && k <= Length(doc, ROWS) && u in RowsUpTo(doc, k)
    ensures HereOrForeign(base, u)
    ensures forall v :: v in RowsUpTo(doc, k)[u] ==> HereOrForeign(base, v)
  {
    hide Reviewed, Slots, Text;
    var i: nat := k - 1;
    if u == Text(doc, RefSlot(i)) {
      RefIsSlot(doc, i);
      SlotsAreHereOrForeign(doc, base, RefSlot(i));
      forall j: nat | j < Length(doc, Edges(i)) ensures HereOrForeign(base, Text(doc, EdgeSlot(i, j))) {
        EdgeIsSlot(doc, i, j);
        SlotsAreHereOrForeign(doc, base, EdgeSlot(i, j));
      }
    } else {
      GraphMentionsReferences(doc, base, k - 1, u);
    }
  }

  /**
   The dependency graph of the normalized document is isomorphic to the original: renaming is
   injective on its references, every row keeps its degree, and an edge is there after
   normalization exactly when it was there before.
   */
  lemma NormalizationPreservesTheGraph(doc: Json, raw: string, canonical: string, u: string, v: string)
    requires Reviewed(doc, raw) && IsAnchor(raw) && IsAnchor(canonical)
    requires HereOrForeign(raw, u) && HereOrForeign(raw, v)
    ensures var before, after := GraphRows(doc), GraphRows(RebasedDocument(doc, raw, canonical));
            var fu, fv := Rebased(raw, canonical, u), Rebased(raw, canonical, v);
            && (fu == fv <==> u == v)
            && (u in before <==> fu in after)
            && (u in before ==> |after[fu]| == |before[u]|)
            && (HasEdge(before, u, v) <==> HasEdge(after, fu, fv))
  {
    hide Reviewed, IsAnchor, Rebased, RebasedDocument, RowsUpTo, Length;
    GraphIsRenamed(doc, raw, canonical);
    var before, after := GraphRows(doc), GraphRows(RebasedDocument(doc, raw, canonical));
    var f := (w: string) => Rebased(raw, canonical, w);
    if f(u) == f(v) {
      RebasedIsInjective(raw, canonical, u, v);
    }
    if f(u) in after {
      var w :| w in before && f(w) == f(u);
      GraphMentionsReferences(doc, raw, Length(doc, ROWS), w);
      RebasedIsInjective(raw, canonical, u, w);
    }
    if u in before {
      GraphMentionsReferences(doc, raw, Length(doc, ROWS), u);
      EdgesUnderInjection(before[u], raw, canonical, v);
    }
  }

  lemma EdgesUnderInjection(edges: seq<string>, raw: string, canonical: string, v: string)
    requires IsAnchor(raw) && IsAnchor(canonical) && HereOrForeign(raw, v)
    requires forall e :: e in edges ==> HereOrForeign(raw, e)
    ensures var f := (w: string) => Rebased(raw, canonical, w);
            v in edges <==> f(v) in MapAll(f, edges)
  {
    hide Rebased, IsAnchor, HereOrForeign;
    var f := (w: string) => Rebased(raw, canonical, w);
    var image := MapAll(f, edges);
    if v in edges {
      var i :| 0 <= i < |edges| && edges[i] == v;
      assert image[i] == f(v);
    }
    if f(v) in image {
      var i :| 0 <= i < |image| && image[i] == f(v);
      assert edges[i] in edges;
      RebasedIsInjective(raw, canonical, v, edges[i]);
    }
  }
}
