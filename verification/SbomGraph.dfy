/** The dependency-graph checks of the release profile, and that normalization cannot break them. */
module SbomGraph {
  import opened JsonTree
  import opened SbomLayout
  import opened SbomNormalizer
  import opened Wrappers

  const EXPECTED_DEPENDENCY_ROWS: nat := 360
  const EXPECTED_DEPENDENCY_EDGES: nat := 856
  const EXPECTED_ROOT_EDGES: nat := 35

  datatype GraphFault =
    | RowCount
    | RowKeys(row: nat)
    | UnknownReference(row: nat)
    | DuplicateRow
    | UnknownEdge(row: nat)
    | DuplicateEdge(row: nat)
    | SelfEdge(row: nat)
    | Coverage
    | EdgeCount
    | RootEdgeCount

  function Row(i: nat): Path {
    [Field("dependencies"), Index(i)]
  }

  function KeysOf(doc: Json, p: Path): set<string> {
    if IsObj(doc, p) then Get(doc, p).fields.Keys else {}
  }

  function Ref(doc: Json, i: nat): string {
    Text(doc, RefSlot(i))
  }

  predicate EdgesSound(reference: string, edges: seq<string>, known: set<string>) {
    && (forall e :: e in edges ==> e in known)
    && Distinct(edges)
    && reference !in edges
  }

  predicate RowSound(doc: Json, i: nat, known: set<string>) {
    && KeysOf(doc, Row(i)) <= {"ref", "dependsOn"}
    && Ref(doc, i) in known
    && EdgesSound(Ref(doc, i), RowEdges(doc, i), known)
  }

  function EdgesUpTo(doc: Json, k: nat): nat {
    if k == 0 then 0 else EdgesUpTo(doc, k - 1) + |RowEdges(doc, k - 1)|
  }

  /** The root and every top-level component, which must have one row each. */
  function ExpectedRows(doc: Json): set<string> {
    {Text(doc, ROOT_SLOT)} + set i: nat | i < EXPECTED_TOP_COMPONENTS :: Text(doc, TopSlot(i))
  }

  predicate SoundGraph(doc: Json) {
    && Length(doc, ROWS) == EXPECTED_DEPENDENCY_ROWS
    && (forall i: nat :: i < EXPECTED_DEPENDENCY_ROWS ==> RowSound(doc, i, Declarations(doc)))
    && RowsOnce(doc)
    && GraphRows(doc).Keys == ExpectedRows(doc)
    && EdgesUpTo(doc, EXPECTED_DEPENDENCY_ROWS) == EXPECTED_DEPENDENCY_EDGES
    && |GraphRows(doc)[Text(doc, ROOT_SLOT)]| == EXPECTED_ROOT_EDGES
  }

  /** Counting the set of edges detects repetition. */
  lemma {:induction false} DistinctBySize(s: seq<string>)
    ensures |set e | e in s| <= |s|
    ensures |set e | e in s| == |s| <==> Distinct(s)
  {
    if s != [] {
      var front, last := s[..|s| - 1], s[|s| - 1];
      DistinctBySize(front);
      assert s == front + [last];
      assert (set e | e in s) == (set e | e in front) + {last};
      if last in front {
        assert (set e | e in s) == (set e | e in front);
        var i :| 0 <= i < |front| && front[i] == last;
        assert s[i] == s[|s| - 1];
      }
    }
  }

  lemma {:induction false} RowsSeen(doc: Json, k: nat, r: string)
    ensures r in RowsUpTo(doc, k) <==> exists i: nat :: i < k && r == Ref(doc, i)
  {
    hide Text;
    if k > 0 {
      assert RowsUpTo(doc, k) == RowsUpTo(doc, k - 1)[Ref(doc, k - 1) := RowEdges(doc, k - 1)];
      RowsSeen(doc, k - 1, r);
    }
  }

  /** What is wrong with a document that is refused with this fault: the first bad row, or a total. */
  predicate IsReal(doc: Json, fault: GraphFault) {
    match fault
    case RowCount => Length(doc, ROWS) != 360
    case RowKeys(i) => FirstRows(doc, i) && !(KeysOf(doc, Row(i)) <= {"ref", "dependsOn"})
    case UnknownReference(i) => FirstRows(doc, i) && Ref(doc, i) !in Declarations(doc)
    case DuplicateRow => !RowsOnce(doc)
    case UnknownEdge(i) => FirstRows(doc, i) && exists e :: e in RowEdges(doc, i) && e !in Declarations(doc)
    case DuplicateEdge(i) => FirstRows(doc, i) && !Distinct(RowEdges(doc, i))
    case SelfEdge(i) => FirstRows(doc, i) && Ref(doc, i) in RowEdges(doc, i)
    case Coverage => GraphRows(doc).Keys != ExpectedRows(doc)
    case EdgeCount => EdgesUpTo(doc, 360) != 856
    case RootEdgeCount => Text(doc, ROOT_SLOT) in GraphRows(doc) && |GraphRows(doc)[Text(doc, ROOT_SLOT)]| != 35
  }

  /** Row `i` exists, and nothing is wrong with those before it. */
  predicate FirstRows(doc: Json, i: nat) {
    i < 360 && forall k: nat :: k < i ==> RowSound(doc, k, Declarations(doc))
  }

  /** A fault found at row `i` once the rows before it have passed. */
  lemma RowFaultIsReal(doc: Json, i: nat, fault: GraphFault)
    requires i < EXPECTED_DEPENDENCY_ROWS && forall k: nat :: k < i ==> RowSound(doc, k, Declarations(doc))
    requires || (fault == RowKeys(i) && !(KeysOf(doc, Row(i)) <= {"ref", "dependsOn"}))
             || (fault == UnknownReference(i) && Ref(doc, i) !in Declarations(doc))
             || (fault == UnknownEdge(i) && exists e :: e in RowEdges(doc, i) && e !in Declarations(doc))
             || (fault == DuplicateEdge(i) && !Distinct(RowEdges(doc, i)))
             || (fault == SelfEdge(i) && Ref(doc, i) in RowEdges(doc, i))
    ensures IsReal(doc, fault)
  {
    hide KeysOf, RowEdges, Declarations, Ref, Distinct, RowSound;
  }

  lemma TotalFaultIsReal(doc: Json, fault: GraphFault)
    requires || (fault == RowCount && Length(doc, ROWS) != EXPECTED_DEPENDENCY_ROWS)
             || (fault == DuplicateRow && !RowsOnce(doc))
             || (fault == Coverage && GraphRows(doc).Keys != ExpectedRows(doc))
             || (fault == EdgeCount && EdgesUpTo(doc, EXPECTED_DEPENDENCY_ROWS) != EXPECTED_DEPENDENCY_EDGES)
             || (fault == RootEdgeCount && Text(doc, ROOT_SLOT) in GraphRows(doc)
                 && |GraphRows(doc)[Text(doc, ROOT_SLOT)]| != EXPECTED_ROOT_EDGES)
    ensures IsReal(doc, fault)
  {
    hide GraphRows, ExpectedRows, EdgesUpTo, RowsOnce, Text, Length;
  }

  /** The accumulating pass over the rows; an accepted graph is the one the rows spell out. */
  method ValidateReferenceGraph(doc: Json) returns (r: Result<map<string, seq<string>>, GraphFault>)
    requires Referenced(doc)
    ensures r.Ok? <==> SoundGraph(doc)
    ensures r.Ok? ==> r.value == GraphRows(doc)
    ensures r.Err? ==> IsReal(doc, r.error)
  {
    hide Referenced, Length, Text, RowEdges, Declarations, ExpectedRows, EdgesSound, Distinct, KeysOf, RowsUpTo, RowSound, RefsApart, RowsOnce,
         Ref, IsReal, EdgesUpTo;
    var known := Declarations(doc);
    if Length(doc, ROWS) != EXPECTED_DEPENDENCY_ROWS {
      TotalFaultIsReal(doc, RowCount);
      return Err(RowCount);
    }
    var observed: map<string, seq<string>> := map[];
    var edgeCount := 0;
    var i := 0;
    NoRowsYet(doc);
    NextTotal(doc, 0);
    NoneApart(doc);
    while i < EXPECTED_DEPENDENCY_ROWS
      invariant 0 <= i <= EXPECTED_DEPENDENCY_ROWS
      invariant observed == RowsUpTo(doc, i) && edgeCount == EdgesUpTo(doc, i)
      invariant forall k: nat :: k < i ==> RowSound(doc, k, known)
      invariant RefsApart(doc, i)
    {
      var reference, edges := Ref(doc, i), RowEdges(doc, i);
      RowSoundIs(doc, i, known);
      if !(KeysOf(doc, Row(i)) <= {"ref", "dependsOn"}) {
        RowFaultIsReal(doc, i, RowKeys(i));
        return Err(RowKeys(i));
      }
      if reference !in known {
        RowFaultIsReal(doc, i, UnknownReference(i));
        return Err(UnknownReference(i));
      }
      OneMoreApart(doc, i);
      if reference in observed {
        DuplicatesStay(doc, i + 1);
        TotalFaultIsReal(doc, DuplicateRow);
        return Err(DuplicateRow);
      }
      var fault := EdgeFault(i, reference, edges, known);
      if fault.Some? {
        RowFaultIsReal(doc, i, fault.value);
        return Err(fault.value);
      }
      NextRow(doc, i);
      NextTotal(doc, i);
      observed := observed[reference := edges];
      edgeCount := edgeCount + |edges|;
      i := i + 1;
    }
    RowsApart(doc);
    if observed.Keys != ExpectedRows(doc) {
      TotalFaultIsReal(doc, Coverage);
      return Err(Coverage);
    }
    if edgeCount != EXPECTED_DEPENDENCY_EDGES {
      TotalFaultIsReal(doc, EdgeCount);
      return Err(EdgeCount);
    }
    RootExpected(doc);
    if |observed[Text(doc, ROOT_SLOT)]| != EXPECTED_ROOT_EDGES {
      TotalFaultIsReal(doc, RootEdgeCount);
      return Err(RootEdgeCount);
    }
    return Ok(observed);
  }

  method EdgeFault(row: nat, reference: string, edges: seq<string>, known: set<string>) returns (fault: Option<GraphFault>)
    ensures fault.None? <==> EdgesSound(reference, edges, known)
    ensures fault == Some(UnknownEdge(row)) <==> exists e :: e in edges && e !in known
    ensures fault == Some(DuplicateEdge(row)) <==> (forall e :: e in edges ==> e in known) && !Distinct(edges)
    ensures fault in {None, Some(UnknownEdge(row)), Some(DuplicateEdge(row)), Some(SelfEdge(row))}
    ensures fault == Some(SelfEdge(row)) <==> (forall e :: e in edges ==> e in known) && Distinct(edges) && reference in edges
  {
    DistinctBySize(edges);
    if exists e :: e in edges && e !in known {
      return Some(UnknownEdge(row));
    }
    if |edges| != |set e | e in edges| {
      return Some(DuplicateEdge(row));
    }
    if reference in edges {
      return Some(SelfEdge(row));
    }
    return None;
  }

  lemma NextRow(doc: Json, i: nat)
    ensures RowsUpTo(doc, i + 1) == RowsUpTo(doc, i)[Ref(doc, i) := RowEdges(doc, i)]
  {
  }

  lemma NextTotal(doc: Json, i: nat)
    ensures EdgesUpTo(doc, 0) == 0 && EdgesUpTo(doc, i + 1) == EdgesUpTo(doc, i) + |RowEdges(doc, i)|
  {
    hide RowEdges;
  }

  lemma RowSoundIs(doc: Json, i: nat, known: set<string>)
    ensures RowSound(doc, i, known) <==>
            KeysOf(doc, Row(i)) <= {"ref", "dependsOn"} && Ref(doc, i) in known
            && EdgesSound(Ref(doc, i), RowEdges(doc, i), known)
  {
  }

  predicate RefsApart(doc: Json, k: nat) {
    forall i: nat, j: nat :: i < j < k ==> Ref(doc, i) != Ref(doc, j)
  }

  lemma NoneApart(doc: Json)
    ensures RefsApart(doc, 0)
  {
  }

  /** A reference not seen in the first rows stays apart from them; a seen one does not. */
  lemma OneMoreApart(doc: Json, i: nat)
    ensures RefsApart(doc, i + 1) <==> RefsApart(doc, i) && Ref(doc, i) !in RowsUpTo(doc, i)
  {
    hide Text, RowsUpTo;
    RowsSeen(doc, i, Ref(doc, i));
  }

  lemma RowsApart(doc: Json)
    ensures RefsApart(doc, Length(doc, ROWS)) <==> RowsOnce(doc)
  {
    hide Text;
    if RefsApart(doc, Length(doc, ROWS)) {
      forall i: nat, j: nat | i < j < Length(doc, ROWS) ensures Text(doc, RefSlot(i)) != Text(doc, RefSlot(j)) {
        assert Ref(doc, i) != Ref(doc, j);
      }
    }
  }

  /** Once a reference is repeated, the rows are not apart. */
  lemma DuplicatesStay(doc: Json, k: nat)
    requires k <= Length(doc, ROWS) && !RefsApart(doc, k)
    ensures !RowsOnce(doc)
  {
    hide Text;
    RowsApart(doc);
  }

  lemma RootExpected(doc: Json)
    ensures Text(doc, ROOT_SLOT) in ExpectedRows(doc)
  {
  }

  // ------------------------------------------------------------------
  // Normalization keeps a sound graph sound
  // ------------------------------------------------------------------

  /** Renaming apart keeps the three edge checks. */
  lemma EdgesStaySound(doc: Json, base: string, target: string, reference: string, edges: seq<string>)
    requires Reviewed(doc, base) && IsAnchor(base) && IsAnchor(target)
    requires reference in Declarations(doc) && EdgesSound(reference, edges, Declarations(doc))
    ensures var f := (v: string) => Rebased(base, target, v);
            EdgesSound(f(reference), MapAll(f, edges), Declarations(RebasedDocument(doc, base, target)))
  {
    hide Reviewed, Rebased, Declarations, IsAnchor;
    var f := (v: string) => Rebased(base, target, v);
    var renamed := MapAll(f, edges);
    forall i | 0 <= i < |edges|
      ensures edges[i] in Declarations(doc) && f(edges[i]) in Declarations(RebasedDocument(doc, base, target))
      ensures f(edges[i]) != f(reference)
    {
      assert edges[i] in edges;
      DeclarationRenamed(doc, base, target, edges[i]);
      Apart(doc, base, target, edges[i], reference);
    }
    forall i, j | 0 <= i < j < |edges| ensures renamed[i] != renamed[j] {
      assert edges[i] in edges && edges[j] in edges;
      Apart(doc, base, target, edges[i], edges[j]);
    }
  }

  lemma DeclarationRenamed(doc: Json, base: string, target: string, v: string)
    requires Reviewed(doc, base) && v in Declarations(doc)
    ensures HereOrForeign(base, v)
    ensures Rebased(base, target, v) in Declarations(RebasedDocument(doc, base, target))
  {
    hide Reviewed, Rebased, Text, Slots, HereOrForeign;
    var p :| p in DeclarationSlots() && v == Text(doc, p);
    DeclarationsAreSlots(doc, p);
    SlotText(doc, base, (w: string) => Rebased(base, target, w), p);
  }

  lemma Apart(doc: Json, base: string, target: string, u: string, v: string)
    requires Reviewed(doc, base) && IsAnchor(base) && IsAnchor(target)
    requires u in Declarations(doc) && v in Declarations(doc)
    ensures Rebased(base, target, u) == Rebased(base, target, v) ==> u == v
  {
    hide Reviewed, Rebased, Declarations, IsAnchor, HereOrForeign;
    DeclarationRenamed(doc, base, target, u);
    DeclarationRenamed(doc, base, target, v);
    if Rebased(base, target, u) == Rebased(base, target, v) {
      RebasedIsInjective(base, target, u, v);
    }
  }

  lemma RowStaysSound(doc: Json, base: string, target: string, i: nat)
    requires Reviewed(doc, base) && IsAnchor(base) && IsAnchor(target)
    requires i < Length(doc, ROWS) && RowSound(doc, i, Declarations(doc))
    ensures var r := RebasedDocument(doc, base, target);
            RowSound(r, i, Declarations(r)) && |RowEdges(r, i)| == |RowEdges(doc, i)|
  {
    hide Reviewed, Rebased, Declarations, IsAnchor, Text, RowEdges, EdgesSound, Length;
    var f := (v: string) => Rebased(base, target, v);
    RenamedFrame(doc, SlotSet(doc), f, Row(i));
    RenamedRow(doc, base, f, i);
    DeclarationRenamed(doc, base, target, Ref(doc, i));
    EdgesStaySound(doc, base, target, Ref(doc, i), RowEdges(doc, i));
  }

  lemma {:induction false} EdgeTotalStays(doc: Json, base: string, target: string, k: nat)
    requires Reviewed(doc, base) && IsAnchor(base) && IsAnchor(target) && k <= Length(doc, ROWS)
    requires forall i: nat :: i < k ==> RowSound(doc, i, Declarations(doc))
    ensures EdgesUpTo(RebasedDocument(doc, base, target), k) == EdgesUpTo(doc, k)
  {
    hide Reviewed, Declarations, IsAnchor, RowEdges, RowSound, Length, RebasedDocument;
    if k > 0 {
      RowStaysSound(doc, base, target, k - 1);
      EdgeTotalStays(doc, base, target, k - 1);
    }
  }

  lemma ExpectedRowsRenamed(doc: Json, base: string, target: string)
    requires Reviewed(doc, base)
    ensures ExpectedRows(RebasedDocument(doc, base, target)) ==
            set v | v in ExpectedRows(doc) :: Rebased(base, target, v)
    ensures Text(RebasedDocument(doc, base, target), ROOT_SLOT) == Rebased(base, target, Text(doc, ROOT_SLOT))
  {
    hide Reviewed, Rebased, Text, Slots, HereOrForeign, DeclarationSlots;
    var f := (w: string) => Rebased(base, target, w);
    var r := RebasedDocument(doc, base, target);
    forall p | p == ROOT_SLOT || exists i: nat :: i < EXPECTED_TOP_COMPONENTS && p == TopSlot(i)
      ensures Text(r, p) == Rebased(base, target, Text(doc, p))
    {
      DeclarationSlotsAre(p);
      DeclarationsAreSlots(doc, p);
      SlotText(doc, base, f, p);
    }
  }

  /**
   The graph checks run again on the normalized document can only pass: rows, coverage,
   edge total, root degree and the absence of repetition and self-edges all carry over.
   */
  lemma NormalizationKeepsGraphSound(doc: Json, base: string, target: string)
    requires Reviewed(doc, base) && IsAnchor(base) && IsAnchor(target) && SoundGraph(doc)
    ensures SoundGraph(RebasedDocument(doc, base, target))
  {
    hide Reviewed, Rebased, Declarations, IsAnchor, Text, RowSound, ExpectedRows, RowsUpTo, EdgesUpTo, Length, RebasedDocument;
    var f := (v: string) => Rebased(base, target, v);
    var r := RebasedDocument(doc, base, target);
    var n := EXPECTED_DEPENDENCY_ROWS;
    RowCountStays(doc, base, target);
    forall i: nat | i < n ensures RowSound(r, i, Declarations(r)) {
      RowStaysSound(doc, base, target, i);
    }
    RebasedKeepsRowsOnce(doc, base, target);
    EdgeTotalStays(doc, base, target, n);
    ExpectedRowsRenamed(doc, base, target);
    GraphIsRenamed(doc, base, target);
    RootExpected(doc);
  }

  lemma RowCountStays(doc: Json, base: string, target: string)
    ensures Length(RebasedDocument(doc, base, target), ROWS) == Length(doc, ROWS)
  {
    RenamedFrame(doc, SlotSet(doc), (v: string) => Rebased(base, target, v), ROWS);
  }

  lemma RebasedKeepsRowsOnce(doc: Json, base: string, target: string)
    requires Reviewed(doc, base) && IsAnchor(base) && IsAnchor(target)
    ensures RowsOnce(RebasedDocument(doc, base, target))
  {
    RebasedStaysReviewed(doc, base, target);
  }
}
