/**
 The reviewed shape of a cargo-cyclonedx document: where its components, its dependency rows
 and its reference-bearing slots are.
 */
module SbomLayout {
  import opened Wrappers
  import opened JsonTree

  const EXPECTED_TOP_COMPONENTS: nat := 359
  const EXPECTED_TARGET_COMPONENTS: nat := 6

  const ROOT: Path := [Field("metadata"), Field("component")]
  const ROOT_SLOT: Path := [Field("metadata"), Field("component"), Field("bom-ref")]
  const TARGETS: Path := [Field("metadata"), Field("component"), Field("components")]
  const TOP: Path := [Field("components")]
  const ROWS: Path := [Field("dependencies")]
  const TIMESTAMP: Path := [Field("metadata"), Field("timestamp")]

  function Target(i: nat): Path {
    [Field("metadata"), Field("component"), Field("components"), Index(i)]
  }

  function TargetSlot(i: nat): Path {
    [Field("metadata"), Field("component"), Field("components"), Index(i), Field("bom-ref")]
  }

  function TopSlot(i: nat): Path {
    [Field("components"), Index(i), Field("bom-ref")]
  }

  function TopField(i: nat, name: string): Path {
    [Field("components"), Index(i), Field(name)]
  }

  function RefSlot(i: nat): Path {
    [Field("dependencies"), Index(i), Field("ref")]
  }

  function Edges(i: nat): Path {
    [Field("dependencies"), Index(i), Field("dependsOn")]
  }

  function EdgeSlot(i: nat, j: nat): Path {
    [Field("dependencies"), Index(i), Field("dependsOn"), Index(j)]
  }

  predicate IsObj(doc: Json, p: Path) {
    Has(doc, p) && Get(doc, p).Obj?
  }

  predicate IsArr(doc: Json, p: Path) {
    Has(doc, p) && Get(doc, p).Arr?
  }

  predicate IsWord(doc: Json, p: Path) {
    IsText(doc, p) && Get(doc, p).text != ""
  }

  function Length(doc: Json, p: Path): nat {
    if IsArr(doc, p) then |Get(doc, p).items| else 0
  }

  function Text(doc: Json, p: Path): string {
    if IsText(doc, p) then Get(doc, p).text else ""
  }

  predicate TargetShape(doc: Json, i: nat) {
    IsObj(doc, Target(i)) && Get(doc, Target(i)).fields.Keys == {"type", "bom-ref", "name", "version", "purl"}
  }

  predicate TopShape(doc: Json, i: nat) {
    && IsObj(doc, [Field("components"), Index(i)])
    && {"type", "bom-ref", "name", "version", "purl"} <= Get(doc, [Field("components"), Index(i)]).fields.Keys
    && Get(doc, [Field("components"), Index(i)]).fields.Keys <=
       {"type", "bom-ref", "author", "name", "version", "description", "scope", "hashes", "licenses", "purl", "externalReferences"}
    && Text(doc, TopField(i, "type")) == "library"
    && IsWord(doc, TopField(i, "name")) && IsWord(doc, TopField(i, "version")) && IsWord(doc, TopField(i, "purl"))
  }

  /** The checks of `component_layout`; allowed key sets leave no room for nested components. */
  predicate ComponentLayout(doc: Json) {
    && IsObj(doc, ROOT) && IsArr(doc, TARGETS) && IsArr(doc, TOP)
    && Length(doc, TARGETS) == EXPECTED_TARGET_COMPONENTS
    && Length(doc, TOP) == EXPECTED_TOP_COMPONENTS
    && (forall i: nat :: i < EXPECTED_TARGET_COMPONENTS ==> TargetShape(doc, i))
    && (forall i: nat :: i < EXPECTED_TOP_COMPONENTS ==> TopShape(doc, i))
  }

  predicate RowShape(doc: Json, i: nat) {
    && IsObj(doc, [Field("dependencies"), Index(i)])
    && IsWord(doc, RefSlot(i))
    && (Has(doc, Edges(i)) ==> IsArr(doc, Edges(i)))
    && (forall j: nat :: j < Length(doc, Edges(i)) ==> IsWord(doc, EdgeSlot(i, j)))
  }

  /** The checks of `reference_slots`. */
  predicate Referenced(doc: Json) {
    && ComponentLayout(doc)
    && IsWord(doc, ROOT_SLOT)
    && (forall i: nat :: i < EXPECTED_TARGET_COMPONENTS ==> IsWord(doc, TargetSlot(i)))
    && (forall i: nat :: i < EXPECTED_TOP_COMPONENTS ==> IsWord(doc, TopSlot(i)))
    && IsArr(doc, ROWS)
    && (forall i: nat :: i < Length(doc, ROWS) ==> RowShape(doc, i))
  }

  function DeclarationSlots(): seq<Path> {
    [ROOT_SLOT] + seq(EXPECTED_TARGET_COMPONENTS, i requires 0 <= i => TargetSlot(i))
    + seq(EXPECTED_TOP_COMPONENTS, i requires 0 <= i => TopSlot(i))
  }

  /** The slots of row `i`: its reference, then its edges. */
  function RowSlots(doc: Json, i: nat): seq<Path> {
    [RefSlot(i)] + seq(Length(doc, Edges(i)), j requires 0 <= j => EdgeSlot(i, j))
  }

  function SlotsOfRows(doc: Json, k: nat): seq<Path> {
    if k == 0 then [] else SlotsOfRows(doc, k - 1) + RowSlots(doc, k - 1)
  }

  function Slots(doc: Json): seq<Path> {
    DeclarationSlots() + SlotsOfRows(doc, Length(doc, ROWS))
  }

  // ------------------------------------------------------------------
  // Which paths are slots
  // ------------------------------------------------------------------

  predicate IsDeclarationSlot(p: Path) {
    || p == ROOT_SLOT
    || (exists i: nat :: i < EXPECTED_TARGET_COMPONENTS && p == TargetSlot(i))
    || (exists i: nat :: i < EXPECTED_TOP_COMPONENTS && p == TopSlot(i))
  }

  predicate IsRowSlot(doc: Json, k: nat, p: Path) {
    || (exists i: nat :: i < k && p == RefSlot(i))
    || (exists i: nat, j: nat :: i < k && j < Length(doc, Edges(i)) && p == EdgeSlot(i, j))
  }

  lemma DeclarationSlotsAre(p: Path)
    ensures p in DeclarationSlots() <==> IsDeclarationSlot(p)
  {
    var slots := DeclarationSlots();
    if exists i: nat :: i < EXPECTED_TARGET_COMPONENTS && p == TargetSlot(i) {
      var i: nat :| i < EXPECTED_TARGET_COMPONENTS && p == TargetSlot(i);
      assert slots[1 + i] == p;
    } else if exists i: nat :: i < EXPECTED_TOP_COMPONENTS && p == TopSlot(i) {
      var i: nat :| i < EXPECTED_TOP_COMPONENTS && p == TopSlot(i);
      assert slots[1 + EXPECTED_TARGET_COMPONENTS + i] == p;
    } else if p == ROOT_SLOT {
      assert slots[0] == p;
    }
  }

  lemma RowSlotsAre(doc: Json, i: nat, p: Path)
    ensures p in RowSlots(doc, i) <==> p == RefSlot(i) || exists j: nat :: j < Length(doc, Edges(i)) && p == EdgeSlot(i, j)
  {
    var slots := RowSlots(doc, i);
    assert slots[0] == RefSlot(i);
    if exists j: nat :: j < Length(doc, Edges(i)) && p == EdgeSlot(i, j) {
      var j: nat :| j < Length(doc, Edges(i)) && p == EdgeSlot(i, j);
      assert slots[1 + j] == p;
    }
  }

  lemma {:induction false} SlotsOfRowsAre(doc: Json, k: nat, p: Path)
    ensures p in SlotsOfRows(doc, k) <==> IsRowSlot(doc, k, p)
  {
    if k > 0 {
      SlotsOfRowsAre(doc, k - 1, p);
      RowSlotsAre(doc, k - 1, p);
    }
  }

  lemma RowSlotsDistinct(doc: Json, i: nat)
    ensures Distinct(RowSlots(doc, i))
  {
    var slots := RowSlots(doc, i);
    forall a, b | 0 <= a < b < |slots| ensures slots[a] != slots[b] {
      assert slots[b] == EdgeSlot(i, b - 1) && |slots[b]| == 4;
      if a == 0 {
        assert |slots[a]| == 3;
      } else {
        assert slots[a] == EdgeSlot(i, a - 1);
        assert slots[a][3] == Index(a - 1) && slots[b][3] == Index(b - 1);
      }
    }
  }

  lemma RowSlotsAreNew(doc: Json, k: nat)
    ensures forall p :: p in SlotsOfRows(doc, k) ==> p !in RowSlots(doc, k)
  {
    forall p | p in SlotsOfRows(doc, k) ensures p !in RowSlots(doc, k) {
      SlotsOfRowsAre(doc, k, p);
      RowSlotsAre(doc, k, p);
      assert exists i: nat :: i < k && p[1] == Index(i);
      assert RefSlot(k)[1] == Index(k);
      assert forall j: nat :: EdgeSlot(k, j)[1] == Index(k);
    }
  }

  lemma {:induction false} SlotsOfRowsDistinct(doc: Json, k: nat)
    ensures Distinct(SlotsOfRows(doc, k))
  {
    if k > 0 {
      SlotsOfRowsDistinct(doc, k - 1);
      RowSlotsDistinct(doc, k - 1);
      RowSlotsAreNew(doc, k - 1);
      DistinctConcat(SlotsOfRows(doc, k - 1), RowSlots(doc, k - 1));
    }
  }

  lemma DeclarationSlotsDistinct()
    ensures Distinct(DeclarationSlots())
  {
    var slots := DeclarationSlots();
    forall a, b | 0 <= a < b < |slots| ensures slots[a] != slots[b] {
      if a == 0 {
        assert |slots[a]| == 3 && slots[a][0] == Field("metadata");
      }
      if 0 < b <= EXPECTED_TARGET_COMPONENTS {
        assert slots[b] == TargetSlot(b - 1) && |slots[b]| == 5 && slots[b][3] == Index(b - 1);
      }
      if 0 < a <= EXPECTED_TARGET_COMPONENTS {
        assert slots[a] == TargetSlot(a - 1) && |slots[a]| == 5 && slots[a][3] == Index(a - 1);
      }
      if b > EXPECTED_TARGET_COMPONENTS {
        assert slots[b] == TopSlot(b - 1 - EXPECTED_TARGET_COMPONENTS);
        assert slots[b][0] == Field("components") && |slots[b]| == 3 && slots[b][1] == Index(b - 1 - EXPECTED_TARGET_COMPONENTS);
      }
      if a > EXPECTED_TARGET_COMPONENTS {
        assert slots[a] == TopSlot(a - 1 - EXPECTED_TARGET_COMPONENTS);
        assert slots[a][1] == Index(a - 1 - EXPECTED_TARGET_COMPONENTS);
      }
    }
  }

  /** No location is visited twice. */
  lemma SlotsDistinct(doc: Json)
    ensures Distinct(Slots(doc))
  {
    DeclarationSlotsDistinct();
    SlotsOfRowsDistinct(doc, Length(doc, ROWS));
    forall p | p in DeclarationSlots() ensures p !in SlotsOfRows(doc, Length(doc, ROWS)) {
      DeclarationSlotsAre(p);
      SlotsOfRowsAre(doc, Length(doc, ROWS), p);
      assert p[0] != Field("dependencies");
      assert forall i: nat :: RefSlot(i)[0] == Field("dependencies");
      assert forall i: nat, j: nat :: EdgeSlot(i, j)[0] == Field("dependencies");
    }
    DistinctConcat(DeclarationSlots(), SlotsOfRows(doc, Length(doc, ROWS)));
  }

  /** Every slot of a referenced document holds a nonempty string. */
  lemma SlotsAreWords(doc: Json, p: Path)
    requires Referenced(doc) && p in Slots(doc)
    ensures IsWord(doc, p)
  {
    hide IsWord, ComponentLayout;
    DeclarationSlotsAre(p);
    SlotsOfRowsAre(doc, Length(doc, ROWS), p);
    if exists i: nat :: i < Length(doc, ROWS) && p == RefSlot(i) {
      var i: nat :| i < Length(doc, ROWS) && p == RefSlot(i);
      assert RowShape(doc, i);
    } else if exists i: nat, j: nat :: i < Length(doc, ROWS) && j < Length(doc, Edges(i)) && p == EdgeSlot(i, j) {
      var i: nat, j: nat :| i < Length(doc, ROWS) && j < Length(doc, Edges(i)) && p == EdgeSlot(i, j);
      assert RowShape(doc, i);
    }
  }

  /** The last key of a slot: nothing else in the document can be one. */
  lemma SlotEnding(doc: Json, p: Path)
    requires p in Slots(doc)
    ensures p != [] && (p[|p| - 1] == Field("bom-ref") || p[|p| - 1] == Field("ref") || p[|p| - 1].Index?)
  {
    DeclarationSlotsAre(p);
    SlotsOfRowsAre(doc, Length(doc, ROWS), p);
  }

  // ------------------------------------------------------------------
  // Collecting the slots
  // ------------------------------------------------------------------

  /** Collect every reference-bearing slot, refusing malformed references. */
  method ReferenceSlots(doc: Json) returns (slots: Option<seq<Path>>)
    ensures slots == if Referenced(doc) then Some(Slots(doc)) else None
  {
    hide ComponentLayout, IsWord, IsArr, Length, RowShape, DeclarationSlots;
    if !ComponentLayout(doc) {
      return None;
    }
    var declared := DeclarationSlots();
    for i := 0 to |declared|
      invariant forall k :: 0 <= k < i ==> IsWord(doc, declared[k])
    {
      if !IsWord(doc, declared[i]) {
        BadDeclaration(doc, declared[i]);
        return None;
      }
    }
    GoodDeclarations(doc);
    if !IsArr(doc, ROWS) {
      return None;
    }
    var collected := declared;
    for i := 0 to Length(doc, ROWS)
      invariant collected == declared + SlotsOfRows(doc, i)
      invariant forall k: nat :: k < i ==> RowShape(doc, k)
    {
      if !RowShape(doc, i) {
        return None;
      }
      var row := CollectRow(doc, i);
      collected := collected + row;
    }
    return Some(collected);
  }

  method CollectRow(doc: Json, i: nat) returns (row: seq<Path>)
    ensures row == RowSlots(doc, i)
  {
    row := [RefSlot(i)];
    for j := 0 to Length(doc, Edges(i))
      invariant row == RowSlots(doc, i)[..j + 1]
    {
      row := row + [EdgeSlot(i, j)];
    }
  }

  lemma BadDeclaration(doc: Json, p: Path)
    requires p in DeclarationSlots() && !IsWord(doc, p)
    ensures !Referenced(doc)
  {
    DeclarationSlotsAre(p);
  }

  lemma GoodDeclarations(doc: Json)
    requires forall k :: 0 <= k < |DeclarationSlots()| ==> IsWord(doc, DeclarationSlots()[k])
    ensures IsWord(doc, ROOT_SLOT)
    ensures forall i: nat :: i < EXPECTED_TARGET_COMPONENTS ==> IsWord(doc, TargetSlot(i))
    ensures forall i: nat :: i < EXPECTED_TOP_COMPONENTS ==> IsWord(doc, TopSlot(i))
  {
    hide IsWord;
    var slots := DeclarationSlots();
    assert slots[0] == ROOT_SLOT;
    forall i: nat | i < EXPECTED_TARGET_COMPONENTS ensures IsWord(doc, TargetSlot(i)) {
      assert slots[1 + i] == TargetSlot(i);
    }
    forall i: nat | i < EXPECTED_TOP_COMPONENTS ensures IsWord(doc, TopSlot(i)) {
      assert slots[1 + EXPECTED_TARGET_COMPONENTS + i] == TopSlot(i);
    }
  }
}
