/**
 What the reviewed and the normalized document say, spelled out: their reference slots by path,
 the commit in every rewritten reference, and the dependency graph row by row.
 */
module SbomTexts {
  import opened Wrappers
  import opened JsonTree
  import opened SbomLayout
  import opened SbomNormalizer
  import opened SbomGraph
  import opened SbomLaws

  // ------------------------------------------------------------------
  // Slots
  // ------------------------------------------------------------------

  predicate DeclaresAt(p: Path) {
    || p == [Field("metadata"), Field("component"), Field("bom-ref")]
    || (exists i: nat :: i < 6 && p == [Field("metadata"), Field("component"), Field("components"), Index(i), Field("bom-ref")])
    || (exists i: nat :: i < 359 && p == [Field("components"), Index(i), Field("bom-ref")])
  }

  /** The string at a path, if there is one. */
  predicate Says(doc: Json, p: Path, text: string) {
    Has(doc, p) && Get(doc, p) == Str(text)
  }

  predicate RowAt(doc: Json, i: nat) {
    Has(doc, [Field("dependencies"), Index(i)])
  }

  predicate EdgeAt(doc: Json, i: nat, j: nat) {
    Has(doc, [Field("dependencies"), Index(i), Field("dependsOn"), Index(j)])
  }

  lemma DeclarationsAt(p: Path)
    ensures p in DeclarationSlots() <==> DeclaresAt(p)
  {
    DeclarationSlotsAre(p);
    if IsDeclarationSlot(p) {
      if exists i: nat :: i < EXPECTED_TARGET_COMPONENTS && p == TargetSlot(i) {
        var i: nat :| i < EXPECTED_TARGET_COMPONENTS && p == TargetSlot(i);
        assert p == [Field("metadata"), Field("component"), Field("components"), Index(i), Field("bom-ref")];
      } else if exists i: nat :: i < EXPECTED_TOP_COMPONENTS && p == TopSlot(i) {
        var i: nat :| i < EXPECTED_TOP_COMPONENTS && p == TopSlot(i);
        assert p == [Field("components"), Index(i), Field("bom-ref")];
      }
    }
    if DeclaresAt(p) {
      if exists i: nat :: i < 6 && p == [Field("metadata"), Field("component"), Field("components"), Index(i), Field("bom-ref")] {
        var i: nat :| i < 6 && p == [Field("metadata"), Field("component"), Field("components"), Index(i), Field("bom-ref")];
        assert p == TargetSlot(i);
      } else if exists i: nat :: i < 359 && p == [Field("components"), Index(i), Field("bom-ref")] {
        var i: nat :| i < 359 && p == [Field("components"), Index(i), Field("bom-ref")];
        assert p == TopSlot(i);
      }
    }
  }

  lemma RowsAt(doc: Json, i: nat)
    requires Referenced(doc)
    ensures RowAt(doc, i) <==> i < Length(doc, ROWS)
  {
    hide ComponentLayout, RowShape;
    ItemAt(doc, ROWS, i);
    assert ROWS + [Index(i)] == [Field("dependencies"), Index(i)];
  }

  lemma {:induction false} ItemAt(t: Json, p: Path, i: nat)
    ensures IsArr(t, p) ==> (Has(t, p + [Index(i)]) <==> i < Length(t, p))
    ensures Has(t, p + [Index(i)]) ==> IsArr(t, p)
  {
    var q := p + [Index(i)];
    if p == [] {
      assert q[1..] == [];
    } else {
      assert q[0] == p[0] && q[1..] == p[1..] + [Index(i)];
      if HasChild(t, p[0]) {
        ItemAt(Child(t, p[0]), p[1..], i);
      }
    }
  }

  lemma EdgesAt(doc: Json, i: nat, j: nat)
    requires Referenced(doc) && i < Length(doc, ROWS)
    ensures EdgeAt(doc, i, j) <==> j < Length(doc, Edges(i))
  {
    hide ComponentLayout;
    assert RowShape(doc, i);
    ItemAt(doc, Edges(i), j);
    assert Edges(i) + [Index(j)] == [Field("dependencies"), Index(i), Field("dependsOn"), Index(j)];
  }

  /** Every reference-bearing slot of a referenced document, by its path. */
  lemma SlotsAt(doc: Json, p: Path)
    requires Referenced(doc)
    ensures p in Slots(doc) <==>
              || DeclaresAt(p)
              || (exists i: nat :: RowAt(doc, i) && p == [Field("dependencies"), Index(i), Field("ref")])
              || (exists i: nat, j: nat ::
                    EdgeAt(doc, i, j) && p == [Field("dependencies"), Index(i), Field("dependsOn"), Index(j)])
  {
    hide Referenced, DeclaresAt, DeclarationSlots, RowAt, EdgeAt, Length;
    DeclarationsAt(p);
    SlotsOfRowsAre(doc, Length(doc, ROWS), p);
    forall i: nat ensures RowAt(doc, i) <==> i < Length(doc, ROWS) {
      RowsAt(doc, i);
    }
    forall i: nat, j: nat ensures EdgeAt(doc, i, j) <==> i < Length(doc, ROWS) && j < Length(doc, Edges(i)) {
      EdgesNeedTheirRow(doc, i, j);
      RowsAt(doc, i);
      if i < Length(doc, ROWS) {
        EdgesAt(doc, i, j);
      }
    }
    RowSlotPaths(doc, Length(doc, ROWS), p);
  }

  lemma EdgesNeedTheirRow(doc: Json, i: nat, j: nat)
    ensures EdgeAt(doc, i, j) ==> RowAt(doc, i)
  {
    if EdgeAt(doc, i, j) {
      assert [Field("dependencies"), Index(i)] + [Field("dependsOn"), Index(j)] ==
             [Field("dependencies"), Index(i), Field("dependsOn"), Index(j)];
      HasPrefix(doc, [Field("dependencies"), Index(i)], [Field("dependsOn"), Index(j)]);
    }
  }

  lemma {:induction false} HasPrefix(t: Json, p: Path, q: Path)
    requires Has(t, p + q)
    ensures Has(t, p)
  {
    if p != [] {
      assert (p + q)[0] == p[0] && (p + q)[1..] == p[1..] + q;
      HasPrefix(Child(t, p[0]), p[1..], q);
    }
  }

  lemma RowSlotPaths(doc: Json, k: nat, p: Path)
    ensures IsRowSlot(doc, k, p) <==>
              || (exists i: nat :: i < k && p == [Field("dependencies"), Index(i), Field("ref")])
              || (exists i: nat, j: nat :: i < k && j < Length(doc, Edges(i))
                                           && p == [Field("dependencies"), Index(i), Field("dependsOn"), Index(j)])
  {
    hide Length;
    forall i: nat ensures RefSlot(i) == [Field("dependencies"), Index(i), Field("ref")] {
    }
    forall i: nat, j: nat ensures EdgeSlot(i, j) == [Field("dependencies"), Index(i), Field("dependsOn"), Index(j)] {
    }
    if IsRowSlot(doc, k, p) {
      if exists i: nat :: i < k && p == RefSlot(i) {
        var i: nat :| i < k && p == RefSlot(i);
        assert p == [Field("dependencies"), Index(i), Field("ref")];
      } else {
        var i: nat, j: nat :| i < k && j < Length(doc, Edges(i)) && p == EdgeSlot(i, j);
        assert p == [Field("dependencies"), Index(i), Field("dependsOn"), Index(j)];
      }
    }
    if exists i: nat :: i < k && p == [Field("dependencies"), Index(i), Field("ref")] {
      var i: nat :| i < k && p == [Field("dependencies"), Index(i), Field("ref")];
      assert p == RefSlot(i);
    }
    if exists i: nat, j: nat :: i < k && j < Length(doc, Edges(i))
                                && p == [Field("dependencies"), Index(i), Field("dependsOn"), Index(j)] {
      var i: nat, j: nat :| i < k && j < Length(doc, Edges(i))
                            && p == [Field("dependencies"), Index(i), Field("dependsOn"), Index(j)];
      assert p == EdgeSlot(i, j);
    }
  }

  // ------------------------------------------------------------------
  // Shapes
  // ------------------------------------------------------------------

  /** The object at a path has at least and at most these fields. */
  predicate FieldsAt(doc: Json, p: Path, least: set<string>, most: set<string>) {
    IsObj(doc, p) && least <= Get(doc, p).fields.Keys <= most
  }

  /** A nonempty string stands at the path. */
  predicate WordAt(doc: Json, p: Path) {
    Has(doc, p) && Get(doc, p).Str? && Get(doc, p).text != ""
  }

  predicate ListAt(doc: Json, p: Path, length: nat) {
    Has(doc, p) && Get(doc, p).Arr? && |Get(doc, p).items| == length
  }

  predicate TargetAt(doc: Json, i: nat) {
    var fields := {"type", "bom-ref", "name", "version", "purl"};
    FieldsAt(doc, [Field("metadata"), Field("component"), Field("components"), Index(i)], fields, fields)
  }

  predicate TopAt(doc: Json, i: nat) {
    && FieldsAt(doc, [Field("components"), Index(i)], {"type", "bom-ref", "name", "version", "purl"},
                {"author", "bom-ref", "description", "externalReferences", "hashes", "licenses", "name", "purl", "scope",
                 "type", "version"})
    && Says(doc, [Field("components"), Index(i), Field("type")], "library")
    && WordAt(doc, [Field("components"), Index(i), Field("name")])
    && WordAt(doc, [Field("components"), Index(i), Field("version")])
    && WordAt(doc, [Field("components"), Index(i), Field("purl")])
  }

  lemma TargetIs(doc: Json, i: nat)
    ensures TargetShape(doc, i) <==> TargetAt(doc, i)
  {
    hide Get, Has;
    assert Target(i) == [Field("metadata"), Field("component"), Field("components"), Index(i)];
  }

  lemma TopIs(doc: Json, i: nat)
    ensures TopShape(doc, i) <==> TopAt(doc, i)
  {
    hide Get, Has;
    forall name: string ensures TopField(i, name) == [Field("components"), Index(i), Field(name)] {
    }
    assert {"type", "bom-ref", "author", "name", "version", "description", "scope", "hashes", "licenses", "purl", "externalReferences"}
           == {"author", "bom-ref", "description", "externalReferences", "hashes", "licenses", "name", "purl", "scope", "type", "version"};
  }

  /** The component layout: 6 binary targets of the root and 359 libraries, each of its own shape. */
  lemma LayoutMeans(doc: Json)
    ensures ComponentLayout(doc) <==>
              && IsObj(doc, [Field("metadata"), Field("component")])
              && ListAt(doc, [Field("metadata"), Field("component"), Field("components")], 6)
              && ListAt(doc, [Field("components")], 359)
              && (forall i: nat :: i < 6 ==> TargetAt(doc, i))
              && (forall i: nat :: i < 359 ==> TopAt(doc, i))
  {
    hide Get, Has, TargetAt, TopAt, TargetShape, TopShape;
    forall i: nat ensures TargetShape(doc, i) <==> TargetAt(doc, i) {
      TargetIs(doc, i);
    }
    forall i: nat ensures TopShape(doc, i) <==> TopAt(doc, i) {
      TopIs(doc, i);
    }
  }

  /** A row: an object with a nonempty `ref`, and no `dependsOn` or a list of nonempty strings. */
  predicate RowWellFormed(doc: Json, i: nat) {
    && IsObj(doc, [Field("dependencies"), Index(i)])
    && WordAt(doc, [Field("dependencies"), Index(i), Field("ref")])
    && (Has(doc, [Field("dependencies"), Index(i), Field("dependsOn")]) ==>
          IsArr(doc, [Field("dependencies"), Index(i), Field("dependsOn")]))
    && forall j: nat :: j < Length(doc, [Field("dependencies"), Index(i), Field("dependsOn")]) ==>
         WordAt(doc, [Field("dependencies"), Index(i), Field("dependsOn"), Index(j)])
  }

  lemma RowIs(doc: Json, i: nat)
    ensures RowShape(doc, i) <==> RowWellFormed(doc, i)
  {
    hide Get, Has, Length, IsArr, IsObj;
    assert RefSlot(i) == [Field("dependencies"), Index(i), Field("ref")];
    assert Edges(i) == [Field("dependencies"), Index(i), Field("dependsOn")];
    forall j: nat ensures EdgeSlot(i, j) == [Field("dependencies"), Index(i), Field("dependsOn"), Index(j)] {
    }
  }

  /** What a document must have for its reference slots to be collected. */
  lemma ReferencedMeans(doc: Json)
    ensures Referenced(doc) <==>
              && ComponentLayout(doc)
              && (forall p :: p in DeclarationSlots() ==> WordAt(doc, p))
              && IsArr(doc, [Field("dependencies")])
              && (forall i: nat :: i < Length(doc, [Field("dependencies")]) ==> RowWellFormed(doc, i))
  {
    hide Get, Has, Length, ComponentLayout, RowShape, RowWellFormed, DeclarationSlots, IsArr, IsWord;
    forall p: Path ensures IsWord(doc, p) <==> WordAt(doc, p) {
      WordIs(doc, p);
    }
    forall i: nat ensures RowShape(doc, i) <==> RowWellFormed(doc, i) {
      RowIs(doc, i);
    }
    if forall p :: p in DeclarationSlots() ==> WordAt(doc, p) {
      assert forall k :: 0 <= k < |DeclarationSlots()| ==> DeclarationSlots()[k] in DeclarationSlots();
      GoodDeclarations(doc);
    }
    if Referenced(doc) {
      forall p | p in DeclarationSlots() ensures WordAt(doc, p) {
        DeclarationSlotsAre(p);
      }
    }
  }

  lemma WordIs(doc: Json, p: Path)
    ensures IsWord(doc, p) <==> WordAt(doc, p)
  {
  }

  // ------------------------------------------------------------------
  // References
  // ------------------------------------------------------------------

  /**
   What a reviewed document's references are: every slot holds one of the declared references,
   every declared reference starts with the base, `registry+` or `git+`, and neither two
   declarations nor two dependency rows share one.
   */
  lemma ReviewedMeans(doc: Json, base: string)
    requires Referenced(doc)
    ensures Reviewed(doc, base) <==>
              && (forall p, q :: p in DeclarationSlots() && q in DeclarationSlots() && Text(doc, p) == Text(doc, q) ==> p == q)
              && (forall p :: p in DeclarationSlots() ==>
                    base <= Text(doc, p) || "registry+" <= Text(doc, p) || "git+" <= Text(doc, p))
              && (forall p :: p in Slots(doc) ==> exists q :: q in DeclarationSlots() && Text(doc, q) == Text(doc, p))
              && (forall i: nat, j: nat ::
                    i < Length(doc, ROWS) && j < Length(doc, ROWS) && Text(doc, RefSlot(i)) == Text(doc, RefSlot(j)) ==> i == j)
  {
    hide Referenced, Text, Slots, DeclarationSlots, Length;
    DeclaredOnceMeans(doc);
    RowsOnceMeans(doc);
    DeclaredMeans(doc);
  }

  lemma DeclaredOnceMeans(doc: Json)
    ensures DeclaredOnce(doc) <==>
              forall p, q :: p in DeclarationSlots() && q in DeclarationSlots() && Text(doc, p) == Text(doc, q) ==> p == q
  {
    hide Text, DeclarationSlots;
    var slots := DeclarationSlots();
    if DeclaredOnce(doc) {
      forall p, q | p in slots && q in slots && Text(doc, p) == Text(doc, q) ensures p == q {
        var i :| 0 <= i < |slots| && slots[i] == p;
        var j :| 0 <= j < |slots| && slots[j] == q;
      }
    }
    if forall p, q :: p in slots && q in slots && Text(doc, p) == Text(doc, q) ==> p == q {
      DeclarationSlotsDistinct();
      forall i, j | 0 <= i < j < |slots| ensures Text(doc, slots[i]) != Text(doc, slots[j]) {
        assert slots[i] in slots && slots[j] in slots && slots[i] != slots[j];
      }
    }
  }

  lemma RowsOnceMeans(doc: Json)
    ensures RowsOnce(doc) <==>
              forall i: nat, j: nat ::
                i < Length(doc, ROWS) && j < Length(doc, ROWS) && Text(doc, RefSlot(i)) == Text(doc, RefSlot(j)) ==> i == j
  {
    hide Text, Length;
    if RowsOnce(doc) {
      forall i: nat, j: nat | i < Length(doc, ROWS) && j < Length(doc, ROWS) && Text(doc, RefSlot(i)) == Text(doc, RefSlot(j))
        ensures i == j
      {
        assert i < j ==> Text(doc, RefSlot(i)) != Text(doc, RefSlot(j));
        assert j < i ==> Text(doc, RefSlot(j)) != Text(doc, RefSlot(i));
      }
    }
  }

  lemma DeclaredMeans(doc: Json)
    ensures EveryReferenceDeclared(doc) <==>
              forall p :: p in Slots(doc) ==> exists q :: q in DeclarationSlots() && Text(doc, q) == Text(doc, p)
  {
    hide Text, Slots, DeclarationSlots;
    forall v: string ensures v in Declarations(doc) <==> exists q :: q in DeclarationSlots() && Text(doc, q) == v {
    }
  }

  /** A commit: forty lower-case hexadecimal digits. */
  lemma CommitsAre(commit: string)
    ensures IsCommit(commit) <==>
              |commit| == 40 && forall c :: c in commit ==> c in "0123456789abcdef"
  {
    var hex := "0123456789abcdef";
    forall c: char ensures c in hex <==> '0' <= c <= '9' || 'a' <= c <= 'f' {
      assert hex[0] == '0' && hex[1] == '1' && hex[2] == '2' && hex[3] == '3' && hex[4] == '4' && hex[5] == '5'
             && hex[6] == '6' && hex[7] == '7' && hex[8] == '8' && hex[9] == '9' && hex[10] == 'a' && hex[11] == 'b'
             && hex[12] == 'c' && hex[13] == 'd' && hex[14] == 'e' && hex[15] == 'f';
    }
    if |commit| == 40 && forall c :: c in commit ==> c in hex {
      assert forall i :: 0 <= i < 40 ==> commit[i] in commit;
    }
  }

  /** One document released for two commits gives one release document only if the commits are the same. */
  lemma ReleasesNameTheirCommit(doc: Json, sourceUri: string, commit: string, other: string)
    requires Reviewed(doc, "path+" + sourceUri) && IsCommit(commit) && IsCommit(other)
    requires LocalSlots(doc, "path+" + sourceUri) != {}
    ensures var raw := "path+" + sourceUri;
            (RebasedDocument(doc, raw, CanonicalUri(commit)) == RebasedDocument(doc, raw, CanonicalUri(other))) <==> commit == other
  {
    hide Reviewed, Slots, Text, RebasedDocument, CanonicalUri;
    var raw := "path+" + sourceUri;
    ReleaseTexts(doc, sourceUri, commit);
    ReleaseTexts(doc, sourceUri, other);
    var p :| p in LocalSlots(doc, raw);
    var url, rest := "https://github.com/Spacejunk-io/collide-o-scope/tree/", Text(doc, p)[|raw|..];
    if RebasedDocument(doc, raw, CanonicalUri(commit)) == RebasedDocument(doc, raw, CanonicalUri(other)) {
      assert url + commit + rest == url + other + rest;
      assert (url + commit + rest)[|url|..|url| + 40] == commit;
      assert (url + other + rest)[|url|..|url| + 40] == other;
    }
  }

  /** No component has components of its own, so there are no reference slots but those. */
  lemma NoNestedComponents(doc: Json, i: nat)
    requires Referenced(doc)
    ensures i < 359 ==> !Has(doc, [Field("components"), Index(i), Field("components")])
                        && Says(doc, [Field("components"), Index(i), Field("type")], "library")
    ensures i < 6 ==> !Has(doc, [Field("metadata"), Field("component"), Field("components"), Index(i), Field("components")])
    ensures (Has(doc, [Field("components"), Index(i)]) <==> i < 359)
    ensures (Has(doc, [Field("metadata"), Field("component"), Field("components"), Index(i)]) <==> i < 6)
  {
    hide RowShape, Get, Has, Length;
    ItemAt(doc, TOP, i);
    ItemAt(doc, TARGETS, i);
    assert TOP + [Index(i)] == [Field("components"), Index(i)];
    assert TARGETS + [Index(i)] == Target(i);
    if i < 359 {
      assert TopShape(doc, i);
      FieldAt(doc, [Field("components"), Index(i)], "components");
      assert [Field("components"), Index(i)] + [Field("components")] == [Field("components"), Index(i), Field("components")];
    }
    if i < 6 {
      assert TargetShape(doc, i);
      FieldAt(doc, Target(i), "components");
      assert Target(i) + [Field("components")] ==
             [Field("metadata"), Field("component"), Field("components"), Index(i), Field("components")];
    }
  }

  lemma {:induction false} FieldAt(t: Json, p: Path, name: string)
    requires IsObj(t, p)
    ensures Has(t, p + [Field(name)]) <==> name in Get(t, p).fields
  {
    var q := p + [Field(name)];
    if p == [] {
      assert q[1..] == [];
    } else {
      assert q[0] == p[0] && q[1..] == p[1..] + [Field(name)];
      FieldAt(Child(t, p[0]), p[1..], name);
    }
  }

  // ------------------------------------------------------------------
  // The graph, row by row
  // ------------------------------------------------------------------

  lemma {:induction false} RowsSpell(doc: Json, k: nat, i: nat)
    requires Referenced(doc) && RowsOnce(doc) && i < k <= Length(doc, ROWS)
    ensures Text(doc, RefSlot(i)) in RowsUpTo(doc, k)
    ensures RowsUpTo(doc, k)[Text(doc, RefSlot(i))] == RowEdges(doc, i)
  {
    hide Referenced, Text, RowEdges, Length;
    if i < k - 1 {
      RowsSpell(doc, k - 1, i);
      assert Text(doc, RefSlot(i)) != Text(doc, RefSlot(k - 1));
    }
  }

  /** The document's own row: it refers to `u` and lists `v`. */
  ghost predicate SomeRowLists(doc: Json, u: string, v: string) {
    exists i: nat, j: nat ::
      && Says(doc, [Field("dependencies"), Index(i), Field("ref")], u)
      && Says(doc, [Field("dependencies"), Index(i), Field("dependsOn"), Index(j)], v)
  }

  ghost predicate SomeRowRefers(doc: Json, u: string) {
    exists i: nat :: Says(doc, [Field("dependencies"), Index(i), Field("ref")], u)
  }

  lemma RefSays(doc: Json, i: nat, u: string)
    requires Referenced(doc)
    ensures Says(doc, [Field("dependencies"), Index(i), Field("ref")], u) <==> i < Length(doc, ROWS) && Text(doc, RefSlot(i)) == u
  {
    hide ComponentLayout, Get, Has;
    assert RefSlot(i) == [Field("dependencies"), Index(i), Field("ref")];
    RowsAt(doc, i);
    if Has(doc, RefSlot(i)) {
      assert [Field("dependencies"), Index(i)] + [Field("ref")] == RefSlot(i);
      HasPrefix(doc, [Field("dependencies"), Index(i)], [Field("ref")]);
    }
    if i < Length(doc, ROWS) {
      assert RowShape(doc, i);
    }
  }

  lemma EdgeSays(doc: Json, i: nat, j: nat, v: string)
    requires Referenced(doc) && i < Length(doc, ROWS)
    ensures Says(doc, [Field("dependencies"), Index(i), Field("dependsOn"), Index(j)], v) <==>
            j < |RowEdges(doc, i)| && RowEdges(doc, i)[j] == v
  {
    hide ComponentLayout, Get, Has, Length;
    assert EdgeSlot(i, j) == [Field("dependencies"), Index(i), Field("dependsOn"), Index(j)];
    assert RowShape(doc, i);
    EdgesAt(doc, i, j);
  }

  /** A reference has a row in the graph exactly when some row of the document refers to it. */
  lemma GraphRefers(doc: Json, u: string)
    requires Referenced(doc)
    ensures u in GraphRows(doc) <==> SomeRowRefers(doc, u)
  {
    hide Referenced, Text, RowEdges, Length, Says, RowsUpTo;
    var n := Length(doc, ROWS);
    RowsSeen(doc, n, u);
    if u in GraphRows(doc) {
      var i: nat :| i < n && u == Ref(doc, i);
      RefSays(doc, i, u);
    }
    if SomeRowRefers(doc, u) {
      var i: nat :| Says(doc, [Field("dependencies"), Index(i), Field("ref")], u);
      RefSays(doc, i, u);
      assert u == Ref(doc, i);
    }
  }

  /**
   An edge goes from `u` to `v` exactly when some row of the document refers to `u` and lists
   `v`, as long as no two rows refer to the same thing.
   */
  lemma GraphSaysWhatRowsSay(doc: Json, u: string, v: string)
    requires Referenced(doc) && RowsOnce(doc)
    ensures HasEdge(GraphRows(doc), u, v) <==> SomeRowLists(doc, u, v)
  {
    hide Referenced, Text, RowEdges, Length, Says, RowsUpTo, RowsOnce;
    var n := Length(doc, ROWS);
    if HasEdge(GraphRows(doc), u, v) {
      RowsSeen(doc, n, u);
      var i: nat :| i < n && u == Ref(doc, i);
      RowsSpell(doc, n, i);
      var j: nat :| j < |RowEdges(doc, i)| && RowEdges(doc, i)[j] == v;
      RefSays(doc, i, u);
      EdgeSays(doc, i, j, v);
    }
    if SomeRowLists(doc, u, v) {
      var i: nat, j: nat :| Says(doc, [Field("dependencies"), Index(i), Field("ref")], u)
                            && Says(doc, [Field("dependencies"), Index(i), Field("dependsOn"), Index(j)], v);
      RefSays(doc, i, u);
      EdgeSays(doc, i, j, v);
      RowsSpell(doc, n, i);
    }
  }

  // ------------------------------------------------------------------
  // Totals of a sound graph
  // ------------------------------------------------------------------

  /** The edges of a graph as pairs. */
  function Pairs(graph: map<string, seq<string>>): set<(string, string)> {
    set u, v | u in graph && v in graph[u] :: (u, v)
  }

  function Fan(u: string, edges: seq<string>): set<(string, string)> {
    set v | v in edges :: (u, v)
  }

  lemma {:induction false} FanSize(u: string, edges: seq<string>)
    requires Distinct(edges)
    ensures |Fan(u, edges)| == |edges|
  {
    if edges != [] {
      var front, last := edges[..|edges| - 1], edges[|edges| - 1];
      FanSize(u, front);
      assert edges == front + [last];
      assert Fan(u, edges) == Fan(u, front) + {(u, last)};
      assert (u, last) !in Fan(u, front);
    }
  }

  lemma PairsWithRow(graph: map<string, seq<string>>, u: string, edges: seq<string>)
    requires u !in graph && Distinct(edges)
    ensures |Pairs(graph[u := edges])| == |Pairs(graph)| + |edges|
  {
    FanSize(u, edges);
    PairsSplit(graph, u, edges);
    var rest, fan := Pairs(graph), Fan(u, edges);
    assert |rest + fan| == |rest| + |fan|;
  }

  lemma PairsSplit(graph: map<string, seq<string>>, u: string, edges: seq<string>)
    requires u !in graph
    ensures Pairs(graph[u := edges]) == Pairs(graph) + Fan(u, edges) && Pairs(graph) !! Fan(u, edges)
  {
    var after := graph[u := edges];
    forall a, b ensures (a, b) in Pairs(after) <==> (a, b) in Pairs(graph) || (a, b) in Fan(u, edges) {
    }
  }

  lemma {:induction false} EdgesArePairs(doc: Json, k: nat, known: set<string>)
    requires RefsApart(doc, k) && forall i: nat :: i < k ==> RowSound(doc, i, known)
    ensures |Pairs(RowsUpTo(doc, k))| == EdgesUpTo(doc, k) && |RowsUpTo(doc, k)| == k
  {
    hide Text, RowEdges, KeysOf, Pairs, Distinct;
    if k > 0 {
      OneMoreApart(doc, k - 1);
      EdgesArePairs(doc, k - 1, known);
      NextRow(doc, k - 1);
      assert RowSound(doc, k - 1, known);
      PairsWithRow(RowsUpTo(doc, k - 1), Ref(doc, k - 1), RowEdges(doc, k - 1));
    } else {
      NoRowsYet(doc);
      NoPairs();
    }
  }

  lemma NoPairs()
    ensures |Pairs(map[])| == 0
  {
    assert Pairs(map[]) == {};
  }

  /**
   A sound graph in numbers: 360 references, which are the root and the top-level components,
   856 edges, 35 of them from the root, all between declared components and none to itself.
   */
  lemma SoundGraphMeans(doc: Json)
    requires Referenced(doc) && SoundGraph(doc)
    ensures var g, root := GraphRows(doc), Text(doc, [Field("metadata"), Field("component"), Field("bom-ref")]);
            && |g| == 360 && |Pairs(g)| == 856
            && (forall u :: u in g <==>
                  u == root || exists i: nat :: i < 359 && u == Text(doc, [Field("components"), Index(i), Field("bom-ref")]))
            && root in g && |g[root]| == 35
            && forall u, v :: HasEdge(g, u, v) ==> u != v && v in Declarations(doc) && u in Declarations(doc)
  {
    hide Referenced, Text, RowEdges, KeysOf, Length, Declarations, Pairs, RowsUpTo, Distinct, RowsOnce;
    var known := Declarations(doc);
    RowsApart(doc);
    EdgesArePairs(doc, 360, known);
    RootExpected(doc);
    forall i: nat ensures TopSlot(i) == [Field("components"), Index(i), Field("bom-ref")] {
    }
    forall u, v | HasEdge(GraphRows(doc), u, v) ensures u != v && v in known && u in known {
      RowsSeen(doc, 360, u);
      var i: nat :| i < 360 && u == Ref(doc, i);
      assert RowSound(doc, i, known);
      RowsSpell(doc, 360, i);
    }
  }

  /** The rows of a sound graph have two fields at most, and say nothing else. */
  lemma SoundRowsHaveTwoFields(doc: Json, i: nat, name: string)
    requires Referenced(doc) && SoundGraph(doc)
    ensures Has(doc, [Field("dependencies"), Index(i), Field(name)]) ==> i < 360 && name in {"ref", "dependsOn"}
  {
    hide ComponentLayout, Get, Has, Length, EdgesSound, ExpectedRows, RowsUpTo, EdgesUpTo;
    var row := [Field("dependencies"), Index(i)];
    assert row + [Field(name)] == [Field("dependencies"), Index(i), Field(name)];
    if Has(doc, row + [Field(name)]) {
      HasPrefix(doc, row, [Field(name)]);
      RowsAt(doc, i);
      assert RowShape(doc, i) && RowSound(doc, i, Declarations(doc));
      FieldAt(doc, row, name);
    }
  }

  // ------------------------------------------------------------------
  // The anonymous profile
  // ------------------------------------------------------------------

  lemma {:induction false} PutIsThere(t: Json, p: Path, v: Json)
    requires Has(t, p)
    ensures Has(Put(t, p, v), p) && Get(Put(t, p, v), p) == v
  {
    if p != [] {
      PutIsThere(Child(t, p[0]), p[1..], v);
    }
  }

  /** The profile names neither the commit nor the time, but two fixed placeholders. */
  lemma ProfileIsAnonymous(doc: Json, base: string)
    requires Reviewed(doc, base) && IsText(doc, TIMESTAMP)
    ensures IsText(RebasedDocument(doc, base, SOURCE_PLACEHOLDER), TIMESTAMP)
    ensures Says(SemanticProfile(doc, base), [Field("metadata"), Field("timestamp")], "<exact-source-date-epoch>")
    ensures forall p :: p in Slots(doc) ==>
              Text(RebasedDocument(doc, base, SOURCE_PLACEHOLDER), p) ==
              if base <= Text(doc, p) then "<exact-collide-o-scope-source-commit>" + Text(doc, p)[|base|..] else Text(doc, p)
  {
    hide Reviewed, Slots, Text, Put, Get, Has;
    TimestampSurvives(doc, base, SOURCE_PLACEHOLDER);
    PutIsThere(RebasedDocument(doc, base, SOURCE_PLACEHOLDER), TIMESTAMP, Str(TIMESTAMP_PLACEHOLDER));
    forall p | p in Slots(doc)
      ensures Text(RebasedDocument(doc, base, SOURCE_PLACEHOLDER), p) ==
              if base <= Text(doc, p) then "<exact-collide-o-scope-source-commit>" + Text(doc, p)[|base|..] else Text(doc, p)
    {
      SlotText(doc, base, (v: string) => Rebased(base, SOURCE_PLACEHOLDER, v), p);
    }
  }
}
