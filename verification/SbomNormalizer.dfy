/**
 Replacing checkout-local component references by commit-bound ones: `_normalize_document`
 after the profile checks, together with the checks it makes on its own work.
 */
module SbomNormalizer {
  import opened Wrappers
  import opened JsonTree
  import opened SbomLayout

  const EXPECTED_LOCAL_DECLARATIONS: nat := 8
  const EXPECTED_REWRITTEN_REFERENCES: nat := 13
  const REPOSITORY_URL := "https://github.com/Spacejunk-io/collide-o-scope"

  datatype Failure =
    | OutsideProfile
    | BadCommit
    | LocalInventory
    | UndeclaredReference(path: Path)
    | Occurrences

  predicate IsCommit(commit: string) {
    |commit| == 40 && forall i :: 0 <= i < 40 ==> '0' <= commit[i] <= '9' || 'a' <= commit[i] <= 'f'
  }

  function CanonicalUri(commit: string): string {
    REPOSITORY_URL + "/tree/" + commit
  }

  /** `value` with the prefix `base`, if it has it, exchanged for `target`. */
  function Rebased(base: string, target: string, value: string): string {
    if base <= value then target + value[|base|..] else value
  }

  /** Registry and git references, by the only thing about them that matters here. */
  predicate IsForeign(reference: string) {
    "registry+" <= reference || "git+" <= reference
  }

  /** A prefix no foreign reference can start with. */
  predicate IsAnchor(base: string) {
    base != "" && base[0] !in {'r', 'g'}
  }

  function SlotSet(doc: Json): set<Path> {
    set p | p in Slots(doc)
  }

  function Declarations(doc: Json): set<string> {
    set p | p in DeclarationSlots() :: Text(doc, p)
  }

  predicate DeclaredOnce(doc: Json) {
    var slots := DeclarationSlots();
    forall i, j :: 0 <= i < j < |slots| ==> Text(doc, slots[i]) != Text(doc, slots[j])
  }

  predicate DeclaredHereOrForeign(doc: Json, base: string) {
    forall p :: p in DeclarationSlots() ==> base <= Text(doc, p) || IsForeign(Text(doc, p))
  }

  predicate EveryReferenceDeclared(doc: Json) {
    forall p :: p in Slots(doc) ==> Text(doc, p) in Declarations(doc)
  }

  predicate RowsOnce(doc: Json) {
    forall i: nat, j: nat :: i < j < Length(doc, ROWS) ==> Text(doc, RefSlot(i)) != Text(doc, RefSlot(j))
  }

  /** What the profile checks establish about the references of a document bound to `base`. */
  predicate Reviewed(doc: Json, base: string) {
    && Referenced(doc)
    && DeclaredOnce(doc)
    && DeclaredHereOrForeign(doc, base)
    && EveryReferenceDeclared(doc)
    && RowsOnce(doc)
  }

  /** The document with every reference slot rebased, and nothing else touched. */
  function RebasedDocument(doc: Json, base: string, target: string): Json {
    Renamed(doc, SlotSet(doc), (v: string) => Rebased(base, target, v), [])
  }

  // ------------------------------------------------------------------
  // Renaming slots keeps the layout
  // ------------------------------------------------------------------

  lemma RenamedFrame(doc: Json, at: set<Path>, f: string -> string, p: Path)
    ensures var r := Renamed(doc, at, f, []);
            && (Has(r, p) <==> Has(doc, p))
            && (IsObj(r, p) <==> IsObj(doc, p)) && (IsArr(r, p) <==> IsArr(doc, p)) && (IsText(r, p) <==> IsText(doc, p))
            && Length(r, p) == Length(doc, p)
            && (IsObj(doc, p) ==> Get(r, p).fields.Keys == Get(doc, p).fields.Keys)
            && (IsText(doc, p) ==> Text(r, p) == if p in at then f(Text(doc, p)) else Text(doc, p))
  {
    RenamedGet(doc, at, f, [], p);
    assert [] + p == p;
    if Has(doc, p) {
      RenamedRoot(Get(doc, p), at, f, p);
    }
  }

  lemma {:induction false} RenamedKeepsRows(doc: Json, at: set<Path>, f: string -> string, k: nat)
    ensures SlotsOfRows(Renamed(doc, at, f, []), k) == SlotsOfRows(doc, k)
  {
    if k > 0 {
      RenamedKeepsRows(doc, at, f, k - 1);
      RenamedFrame(doc, at, f, Edges(k - 1));
      assert RowSlots(Renamed(doc, at, f, []), k - 1) == RowSlots(doc, k - 1);
    }
  }

  lemma RenamedKeepsSlots(doc: Json, at: set<Path>, f: string -> string)
    ensures Slots(Renamed(doc, at, f, [])) == Slots(doc)
  {
    RenamedFrame(doc, at, f, ROWS);
    RenamedKeepsRows(doc, at, f, Length(doc, ROWS));
  }

  lemma RenamedKeepsWords(doc: Json, f: string -> string, p: Path)
    requires p in Slots(doc) && IsWord(doc, p) ==> f(Text(doc, p)) != ""
    requires IsWord(doc, p)
    ensures IsWord(Renamed(doc, SlotSet(doc), f, []), p)
  {
    RenamedFrame(doc, SlotSet(doc), f, p);
  }

  lemma RenamedKeepsTopShape(doc: Json, f: string -> string, i: nat)
    requires TopShape(doc, i)
    ensures TopShape(Renamed(doc, SlotSet(doc), f, []), i)
  {
    hide IsObj, IsArr, Slots, Get, Has;
    RenamedFrame(doc, SlotSet(doc), f, [Field("components"), Index(i)]);
    forall name | name in {"type", "name", "version", "purl"}
      ensures Text(Renamed(doc, SlotSet(doc), f, []), TopField(i, name)) == Text(doc, TopField(i, name))
      ensures IsWord(doc, TopField(i, name)) ==> IsWord(Renamed(doc, SlotSet(doc), f, []), TopField(i, name))
    {
      NotASlot(doc, i, name);
      RenamedFrame(doc, SlotSet(doc), f, TopField(i, name));
    }
  }

  lemma NotASlot(doc: Json, i: nat, name: string)
    requires name != "bom-ref" && name != "ref"
    ensures TopField(i, name) !in SlotSet(doc)
  {
    if TopField(i, name) in Slots(doc) {
      SlotEnding(doc, TopField(i, name));
    }
  }

  lemma RenamedKeepsComponents(doc: Json, f: string -> string)
    requires ComponentLayout(doc)
    ensures ComponentLayout(Renamed(doc, SlotSet(doc), f, []))
  {
    hide IsObj, IsArr, Slots, Get, Has, TopShape, Length;
    var at := SlotSet(doc);
    RenamedFrame(doc, at, f, ROOT);
    RenamedFrame(doc, at, f, TARGETS);
    RenamedFrame(doc, at, f, TOP);
    forall i: nat | i < EXPECTED_TARGET_COMPONENTS ensures TargetShape(Renamed(doc, at, f, []), i) {
      assert TargetShape(doc, i);
      RenamedFrame(doc, at, f, Target(i));
    }
    forall i: nat | i < EXPECTED_TOP_COMPONENTS ensures TopShape(Renamed(doc, at, f, []), i) {
      assert TopShape(doc, i);
      RenamedKeepsTopShape(doc, f, i);
    }
  }

  lemma RenamedKeepsReferenced(doc: Json, f: string -> string)
    requires Referenced(doc)
    requires forall p :: p in Slots(doc) ==> f(Text(doc, p)) != ""
    ensures Referenced(Renamed(doc, SlotSet(doc), f, []))
  {
    hide IsWord, IsArr, IsObj, ComponentLayout, Slots, Length;
    var r := Renamed(doc, SlotSet(doc), f, []);
    RenamedKeepsComponents(doc, f);
    forall p | IsWord(doc, p) ensures IsWord(r, p) {
      RenamedKeepsWords(doc, f, p);
    }
    RenamedFrame(doc, SlotSet(doc), f, ROWS);
    forall i: nat | i < Length(r, ROWS) ensures RowShape(r, i) {
      assert RowShape(doc, i);
      RenamedFrame(doc, SlotSet(doc), f, [Field("dependencies"), Index(i)]);
      RenamedFrame(doc, SlotSet(doc), f, Edges(i));
    }
  }

  // ------------------------------------------------------------------
  // Rebasing references is injective
  // ------------------------------------------------------------------

  predicate HereOrForeign(base: string, v: string) {
    base <= v || IsForeign(v)
  }

  lemma RebasedIsInjective(base: string, target: string, u: string, v: string)
    requires IsAnchor(base) && IsAnchor(target) && HereOrForeign(base, u) && HereOrForeign(base, v)
    requires Rebased(base, target, u) == Rebased(base, target, v)
    ensures u == v
  {
    RebasedLands(base, target, u);
    RebasedLands(base, target, v);
    if base <= u && base <= v {
      assert u[|base|..] == Rebased(base, target, u)[|target|..];
      assert v[|base|..] == Rebased(base, target, v)[|target|..];
      assert u == base + u[|base|..] && v == base + v[|base|..];
    }
  }

  lemma RebasedLands(base: string, target: string, v: string)
    requires IsAnchor(base) && IsAnchor(target) && HereOrForeign(base, v)
    ensures HereOrForeign(target, Rebased(base, target, v))
    ensures target <= Rebased(base, target, v) <==> base <= v
    ensures Rebased(base, target, v) != ""
  {
    if base <= v {
      assert target <= target + v[|base|..];
    }
  }

  /** Going through an intermediate base is going directly. */
  lemma RebasedTwice(base: string, middle: string, target: string, v: string)
    requires IsAnchor(base) && IsAnchor(middle) && HereOrForeign(base, v)
    ensures Rebased(middle, target, Rebased(base, middle, v)) == Rebased(base, target, v)
  {
    RebasedLands(base, middle, v);
    if base <= v {
      assert (middle + v[|base|..])[|middle|..] == v[|base|..];
    }
  }

  /** In a reviewed document every slot holds a reference of the base or a foreign one. */
  lemma SlotsAreHereOrForeign(doc: Json, base: string, p: Path)
    requires Reviewed(doc, base) && p in Slots(doc)
    ensures IsWord(doc, p) && HereOrForeign(base, Text(doc, p)) && Text(doc, p) in Declarations(doc)
  {
    hide Referenced, IsForeign, DeclaredOnce, RowsOnce;
    SlotsAreWords(doc, p);
    var q :| q in DeclarationSlots() && Text(doc, q) == Text(doc, p);
  }

  lemma DeclarationsAreSlots(doc: Json, p: Path)
    requires p in DeclarationSlots()
    ensures p in Slots(doc)
  {
  }

  /** A reviewed document stays reviewed, bound to the new base. */
  lemma RebasedStaysReviewed(doc: Json, base: string, target: string)
    requires Reviewed(doc, base) && IsAnchor(base) && IsAnchor(target)
    ensures Reviewed(RebasedDocument(doc, base, target), target)
  {
    hide Referenced, Rebased, IsForeign, Length, IsAnchor, Text;
    var f := (v: string) => Rebased(base, target, v);
    var r := Renamed(doc, SlotSet(doc), f, []);
    RenamedKeepsSlots(doc, SlotSet(doc), f);
    forall p | p in Slots(doc)
      ensures Text(r, p) == Rebased(base, target, Text(doc, p)) && Rebased(base, target, Text(doc, p)) != ""
    {
      SlotText(doc, base, f, p);
      RebasedLands(base, target, Text(doc, p));
    }
    RenamedKeepsReferenced(doc, f);
    RebasedDeclarations(doc, base, target, r);
    RebasedRowsOnce(doc, base, target, r);
  }

  lemma SlotText(doc: Json, base: string, f: string -> string, p: Path)
    requires Reviewed(doc, base) && p in Slots(doc)
    ensures Text(Renamed(doc, SlotSet(doc), f, []), p) == f(Text(doc, p))
    ensures HereOrForeign(base, Text(doc, p))
  {
    SlotsAreHereOrForeign(doc, base, p);
    RenamedFrame(doc, SlotSet(doc), f, p);
  }

  lemma RebasedDeclarations(doc: Json, base: string, target: string, r: Json)
    requires Reviewed(doc, base) && IsAnchor(base) && IsAnchor(target)
    requires Slots(r) == Slots(doc)
    requires forall p :: p in Slots(doc) ==> Text(r, p) == Rebased(base, target, Text(doc, p))
    ensures DeclaredOnce(r) && DeclaredHereOrForeign(r, target) && EveryReferenceDeclared(r)
  {
    hide Referenced, Rebased, IsForeign, Text, RowsOnce, IsAnchor;
    var slots := DeclarationSlots();
    forall p | p in slots ensures p in Slots(doc) && HereOrForeign(base, Text(doc, p)) {
      DeclarationsAreSlots(doc, p);
    }
    forall i, j | 0 <= i < j < |slots| ensures Text(r, slots[i]) != Text(r, slots[j]) {
      assert slots[i] in slots && slots[j] in slots;
      if Text(r, slots[i]) == Text(r, slots[j]) {
        RebasedIsInjective(base, target, Text(doc, slots[i]), Text(doc, slots[j]));
      }
    }
    forall p | p in slots ensures HereOrForeign(target, Text(r, p)) {
      RebasedLands(base, target, Text(doc, p));
    }
    forall p | p in Slots(r) ensures Text(r, p) in Declarations(r) {
      var q :| q in slots && Text(doc, q) == Text(doc, p);
      assert Text(r, q) == Text(r, p);
    }
  }

  lemma RebasedRowsOnce(doc: Json, base: string, target: string, r: Json)
    requires Reviewed(doc, base) && IsAnchor(base) && IsAnchor(target)
    requires Slots(r) == Slots(doc)
    requires forall p :: p in Slots(doc) ==> Text(r, p) == Rebased(base, target, Text(doc, p))
    requires r == Renamed(doc, SlotSet(doc), (v: string) => Rebased(base, target, v), [])
    ensures RowsOnce(r)
  {
    hide Referenced, Rebased, IsForeign, Text, DeclaredOnce, IsAnchor, Slots;
    RenamedFrame(doc, SlotSet(doc), (v: string) => Rebased(base, target, v), ROWS);
    forall i: nat, j: nat | i < j < Length(r, ROWS) ensures Text(r, RefSlot(i)) != Text(r, RefSlot(j)) {
      RefIsSlot(doc, i);
      RefIsSlot(doc, j);
      SlotsAreHereOrForeign(doc, base, RefSlot(i));
      SlotsAreHereOrForeign(doc, base, RefSlot(j));
      if Text(r, RefSlot(i)) == Text(r, RefSlot(j)) {
        RebasedIsInjective(base, target, Text(doc, RefSlot(i)), Text(doc, RefSlot(j)));
      }
    }
  }

  lemma RefIsSlot(doc: Json, i: nat)
    requires i < Length(doc, ROWS)
    ensures RefSlot(i) in Slots(doc)
  {
    SlotsOfRowsAre(doc, Length(doc, ROWS), RefSlot(i));
  }

  lemma EdgeIsSlot(doc: Json, i: nat, j: nat)
    requires i < Length(doc, ROWS) && j < Length(doc, Edges(i))
    ensures EdgeSlot(i, j) in Slots(doc)
  {
    SlotsOfRowsAre(doc, Length(doc, ROWS), EdgeSlot(i, j));
  }

  // ------------------------------------------------------------------
  // The dependency graph
  // ------------------------------------------------------------------

  function RowEdges(doc: Json, i: nat): seq<string> {
    seq(Length(doc, Edges(i)), j requires 0 <= j => Text(doc, EdgeSlot(i, j)))
  }

  function RowsUpTo(doc: Json, k: nat): map<string, seq<string>> {
    if k == 0 then map[] else RowsUpTo(doc, k - 1)[Text(doc, RefSlot(k - 1)) := RowEdges(doc, k - 1)]
  }

  /** References to their edges; a later row replaces an earlier one with the same reference. */
  function GraphRows(doc: Json): map<string, seq<string>> {
    RowsUpTo(doc, Length(doc, ROWS))
  }

  function MapAll(f: string -> string, edges: seq<string>): seq<string> {
    seq(|edges|, i requires 0 <= i < |edges| => f(edges[i]))
  }

  /** `after` is `before` with every reference and every edge renamed, and nothing more. */
  predicate IsRenamedGraph(before: map<string, seq<string>>, after: map<string, seq<string>>, f: string -> string) {
    && after.Keys == (set r | r in before :: f(r))
    && forall r :: r in before ==> f(r) in after && after[f(r)] == MapAll(f, before[r])
  }

  lemma RenamedRow(doc: Json, base: string, f: string -> string, i: nat)
    requires Reviewed(doc, base) && i < Length(doc, ROWS)
    ensures var r := Renamed(doc, SlotSet(doc), f, []);
            && Text(r, RefSlot(i)) == f(Text(doc, RefSlot(i)))
            && RowEdges(r, i) == MapAll(f, RowEdges(doc, i))
  {
    hide Text, Slots, Reviewed, Length;
    var r := Renamed(doc, SlotSet(doc), f, []);
    RefIsSlot(doc, i);
    SlotText(doc, base, f, RefSlot(i));
    RenamedFrame(doc, SlotSet(doc), f, Edges(i));
    forall j: nat | j < Length(doc, Edges(i)) ensures Text(r, EdgeSlot(i, j)) == f(Text(doc, EdgeSlot(i, j))) {
      EdgeIsSlot(doc, i, j);
      SlotText(doc, base, f, EdgeSlot(i, j));
    }
  }

  /** Adding one row to both sides of a renaming that keeps the new reference apart. */
  lemma RenamedGraphExtends(before: map<string, seq<string>>, after: map<string, seq<string>>, f: string -> string,
                            r: string, edges: seq<string>)
    requires IsRenamedGraph(before, after, f)
    requires forall s :: s in before && f(s) == f(r) ==> s == r
    ensures IsRenamedGraph(before[r := edges], after[f(r) := MapAll(f, edges)], f)
  {
  }

  lemma {:induction false} RowKeysAreSlots(doc: Json, k: nat, r: string)
    requires k <= Length(doc, ROWS) && r in RowsUpTo(doc, k)
    ensures exists i: nat :: i < k && r == Text(doc, RefSlot(i))
  {
    if r != Text(doc, RefSlot(k - 1)) {
      RowKeysAreSlots(doc, k - 1, r);
    }
  }

  lemma RowKeysStayApart(doc: Json, base: string, target: string, k: nat, s: string)
    requires Reviewed(doc, base) && IsAnchor(base) && IsAnchor(target) && k < Length(doc, ROWS) && s in RowsUpTo(doc, k)
    ensures Rebased(base, target, s) == Rebased(base, target, Text(doc, RefSlot(k))) ==> s == Text(doc, RefSlot(k))
  {
    hide Reviewed, IsAnchor, Length, Text, Rebased, RowsUpTo, HereOrForeign;
    var r := Text(doc, RefSlot(k));
    RowKeysAreSlots(doc, k, s);
    var i: nat :| i < k && s == Text(doc, RefSlot(i));
    RefIsSlot(doc, i);
    RefIsSlot(doc, k);
    SlotsAreHereOrForeign(doc, base, RefSlot(i));
    SlotsAreHereOrForeign(doc, base, RefSlot(k));
    if Rebased(base, target, s) == Rebased(base, target, r) {
      RebasedIsInjective(base, target, s, r);
    }
  }

  lemma NoRowsYet(doc: Json)
    ensures RowsUpTo(doc, 0) == map[]
  {
  }

  lemma NextRows(doc: Json, k: nat)
    ensures RowsUpTo(doc, k + 1) == RowsUpTo(doc, k)[Text(doc, RefSlot(k)) := RowEdges(doc, k)]
  {
  }

  lemma {:induction false} GraphIsRenamedUpTo(doc: Json, base: string, target: string, k: nat)
    requires Reviewed(doc, base) && IsAnchor(base) && IsAnchor(target) && k <= Length(doc, ROWS)
    ensures IsRenamedGraph(RowsUpTo(doc, k), RowsUpTo(RebasedDocument(doc, base, target), k),
                           (v: string) => Rebased(base, target, v))
  {
    hide Reviewed, IsAnchor, Length, Text, Rebased, RowEdges, IsRenamedGraph, RowsUpTo;
    var f := (v: string) => Rebased(base, target, v);
    if k == 0 {
      NoRowsYet(doc);
      NoRowsYet(RebasedDocument(doc, base, target));
      EmptyGraphIsRenamed(f);
    } else {
      GraphIsRenamedUpTo(doc, base, target, k - 1);
      RenamedRow(doc, base, f, k - 1);
      var r := Text(doc, RefSlot(k - 1));
      forall s | s in RowsUpTo(doc, k - 1) && f(s) == f(r) ensures s == r {
        RowKeysStayApart(doc, base, target, k - 1, s);
      }
      NextRows(doc, k - 1);
      NextRows(RebasedDocument(doc, base, target), k - 1);
      RenamedGraphExtends(RowsUpTo(doc, k - 1), RowsUpTo(RebasedDocument(doc, base, target), k - 1), f, r,
                          RowEdges(doc, k - 1));
    }
  }

  lemma EmptyGraphIsRenamed(f: string -> string)
    ensures IsRenamedGraph(map[], map[], f)
  {
  }

  /** The graph of the rebased document is the original one under the reference map. */
  lemma GraphIsRenamed(doc: Json, base: string, target: string)
    requires Reviewed(doc, base) && IsAnchor(base) && IsAnchor(target)
    ensures IsRenamedGraph(GraphRows(doc), GraphRows(RebasedDocument(doc, base, target)),
                           (v: string) => Rebased(base, target, v))
  {
    hide Reviewed, IsRenamedGraph, RowsUpTo;
    GraphIsRenamedUpTo(doc, base, target, Length(doc, ROWS));
    RenamedFrame(doc, SlotSet(doc), (v: string) => Rebased(base, target, v), ROWS);
  }

  // ------------------------------------------------------------------
  // The normalization
  // ------------------------------------------------------------------

  function LocalDeclarations(doc: Json, raw: string): set<string> {
    set r | r in Declarations(doc) && raw <= r
  }

  function LocalSlots(doc: Json, raw: string): set<Path> {
    set p | p in Slots(doc) && raw <= Text(doc, p)
  }

  function Mapping(doc: Json, raw: string, canonical: string): map<string, string> {
    map r | r in Declarations(doc) && raw <= r :: canonical + r[|raw|..]
  }

  /** A reference that only differs in letter case from a local one, without being declared. */
  predicate LooksLocal(doc: Json, raw: string, fold: string -> string, p: Path) {
    p in Slots(doc) && !(raw <= Text(doc, p)) && fold(raw) <= fold(Text(doc, p))
  }

  /** Everything one turn of the rewriting loop relies on. */
  lemma RewritingStep(doc: Json, raw: string, canonical: string, fold: string -> string, slots: seq<Path>, i: nat)
    requires Reviewed(doc, raw) && slots == Slots(doc) && Distinct(slots) && i < |slots|
    ensures var f, p := (v: string) => Rebased(raw, canonical, v), slots[i];
            var before, after := Renamed(doc, Prefix(slots, i), f, []), Renamed(doc, Prefix(slots, i + 1), f, []);
            var m := Mapping(doc, raw, canonical);
            && IsText(before, p) && Has(before, p)
            && var value := Get(before, p).text;
               if value in m then
                 && Put(before, p, Str(m[value])) == after && p !in LocalAmong(doc, raw, slots, i)
                 && LocalAmong(doc, raw, slots, i + 1) == LocalAmong(doc, raw, slots, i) + {p}
                 && !LooksLocal(doc, raw, fold, p)
               else
                 && before == after && LocalAmong(doc, raw, slots, i + 1) == LocalAmong(doc, raw, slots, i)
                 && (LooksLocal(doc, raw, fold, p) <==> fold(raw) <= fold(value))
  {
    hide Reviewed, Text, Rebased, Mapping, Put, Renamed, Prefix, LocalAmong, LooksLocal, Slots;
    SlotBefore(doc, raw, (v: string) => Rebased(raw, canonical, v), slots, i);
    MappingOf(doc, raw, canonical, slots[i]);
    IntruderOf(doc, raw, fold, slots[i]);
    SlotAfter(doc, raw, canonical, slots, i);
    assert LocalAmong(doc, raw, slots, i) + {} == LocalAmong(doc, raw, slots, i);
  }

  /** The rewriting loop over the collected slots of a private copy. */
  method RewriteSlots(doc: Json, raw: string, canonical: string, fold: string -> string)
    returns (r: Result<(Json, set<Path>, nat), Failure>)
    requires Reviewed(doc, raw)
    ensures r.Ok? <==> forall p :: !LooksLocal(doc, raw, fold, p)
    ensures r.Ok? ==> r.value == (RebasedDocument(doc, raw, canonical), LocalSlots(doc, raw), |LocalSlots(doc, raw)|)
    ensures r.Err? ==> r.error.UndeclaredReference? && LooksLocal(doc, raw, fold, r.error.path)
  {
    hide Reviewed, Text, Rebased, Mapping, Put, Renamed, Prefix, LocalAmong, LooksLocal, Slots, LocalSlots, Distinct,
         RebasedDocument, Get, Has;
    var mapping := Mapping(doc, raw, canonical);
    var collected := CollectReviewed(doc, raw);
    ghost var f := (v: string) => Rebased(raw, canonical, v);
    var normalized, changed, rewritten := doc, {}, 0;
    RewritingStarts(doc, raw, f, collected);
    var i := 0;
    while i < |collected|
      invariant 0 <= i <= |collected|
      invariant normalized == Renamed(doc, Prefix(collected, i), f, [])
      invariant changed == LocalAmong(doc, raw, collected, i) && rewritten == |changed|
      invariant forall k :: 0 <= k < i ==> !LooksLocal(doc, raw, fold, collected[k])
    {
      var p := collected[i];
      RewritingStep(doc, raw, canonical, fold, collected, i);
      var value := Get(normalized, p).text;
      if value in mapping {
        normalized := Put(normalized, p, Str(mapping[value]));
        changed := changed + {p};
        rewritten := rewritten + 1;
      } else if fold(raw) <= fold(value) {
        return Err(UndeclaredReference(p));
      }
      i := i + 1;
    }
    RewritingEnds(doc, raw, canonical, fold, collected);
    r := Ok((normalized, changed, rewritten));
  }

  lemma RewritingStarts(doc: Json, raw: string, f: string -> string, slots: seq<Path>)
    ensures Renamed(doc, Prefix(slots, 0), f, []) == doc
    ensures LocalAmong(doc, raw, slots, 0) == {}
  {
    RenamedNowhere(doc, f, []);
    assert Prefix(slots, 0) == {};
  }

  lemma RewritingEnds(doc: Json, raw: string, canonical: string, fold: string -> string, slots: seq<Path>)
    requires slots == Slots(doc)
    requires forall k :: 0 <= k < |slots| ==> !LooksLocal(doc, raw, fold, slots[k])
    ensures Renamed(doc, Prefix(slots, |slots|), (v: string) => Rebased(raw, canonical, v), []) ==
            RebasedDocument(doc, raw, canonical)
    ensures LocalAmong(doc, raw, slots, |slots|) == LocalSlots(doc, raw)
    ensures forall p :: !LooksLocal(doc, raw, fold, p)
  {
    hide Slots, Text;
    assert Prefix(slots, |slots|) == SlotSet(doc);
  }

  lemma IntruderOf(doc: Json, raw: string, fold: string -> string, p: Path)
    requires p in Slots(doc)
    ensures LooksLocal(doc, raw, fold, p) <==> !(raw <= Text(doc, p)) && fold(raw) <= fold(Text(doc, p))
  {
  }

  method CollectReviewed(doc: Json, base: string) returns (slots: seq<Path>)
    requires Reviewed(doc, base)
    ensures slots == Slots(doc) && Distinct(slots)
  {
    var collected := ReferenceSlots(doc);
    slots := collected.value;
    SlotsDistinct(doc);
  }

  function Prefix(slots: seq<Path>, i: nat): set<Path>
    requires i <= |slots|
  {
    set k | 0 <= k < i :: slots[k]
  }

  function LocalAmong(doc: Json, raw: string, slots: seq<Path>, i: nat): set<Path>
    requires i <= |slots|
  {
    set k | 0 <= k < i && raw <= Text(doc, slots[k]) :: slots[k]
  }

  /** When the loop reaches a slot, it still holds its original reference. */
  lemma SlotBefore(doc: Json, raw: string, f: string -> string, slots: seq<Path>, i: nat)
    requires Reviewed(doc, raw) && slots == Slots(doc) && Distinct(slots) && i < |slots|
    ensures var r := Renamed(doc, Prefix(slots, i), f, []);
            && IsText(doc, slots[i]) && IsText(r, slots[i])
            && Get(r, slots[i]).text == Text(doc, slots[i])
            && slots[i] !in Prefix(slots, i)
  {
    hide Reviewed, Slots;
    SlotsAreHereOrForeign(doc, raw, slots[i]);
    assert [] + slots[i] == slots[i];
    RenamedOneMore(doc, Prefix(slots, i), f, [], slots[i]);
  }

  lemma MappingOf(doc: Json, raw: string, canonical: string, p: Path)
    requires Reviewed(doc, raw) && p in Slots(doc)
    ensures Text(doc, p) in Mapping(doc, raw, canonical) <==> raw <= Text(doc, p)
    ensures raw <= Text(doc, p) ==>
              Mapping(doc, raw, canonical)[Text(doc, p)] == Rebased(raw, canonical, Text(doc, p))
  {
    hide Reviewed, Slots;
    SlotsAreHereOrForeign(doc, raw, p);
  }

  lemma PutSame(t: Json, p: Path)
    requires Has(t, p)
    ensures Put(t, p, Get(t, p)) == t
  {
    if p != [] {
      PutSame(Child(t, p[0]), p[1..]);
    }
  }

  lemma SlotAfter(doc: Json, raw: string, canonical: string, slots: seq<Path>, i: nat)
    requires Reviewed(doc, raw) && slots == Slots(doc) && Distinct(slots) && i < |slots|
    ensures var f := (v: string) => Rebased(raw, canonical, v);
            var before, after := Renamed(doc, Prefix(slots, i), f, []), Renamed(doc, Prefix(slots, i + 1), f, []);
            && Has(before, slots[i])
            && (raw <= Text(doc, slots[i]) ==> Put(before, slots[i], Str(Rebased(raw, canonical, Text(doc, slots[i])))) == after)
            && (!(raw <= Text(doc, slots[i])) ==> before == after)
    ensures slots[i] !in LocalAmong(doc, raw, slots, i)
    ensures LocalAmong(doc, raw, slots, i + 1) ==
            LocalAmong(doc, raw, slots, i) + if raw <= Text(doc, slots[i]) then {slots[i]} else {}
  {
    hide Reviewed, Slots, Text, Renamed, Put, Rebased;
    var f := (v: string) => Rebased(raw, canonical, v);
    SlotBefore(doc, raw, f, slots, i);
    OneMoreSlot(doc, f, slots, i);
    assert f(Text(doc, slots[i])) == Rebased(raw, canonical, Text(doc, slots[i]));
    RebasedKeeps(raw, canonical, Text(doc, slots[i]));
    assert slots[i] !in LocalAmong(doc, raw, slots, i);
  }

  lemma RebasedKeeps(base: string, target: string, v: string)
    ensures !(base <= v) ==> Rebased(base, target, v) == v
  {
  }

  lemma OneMoreSlot(doc: Json, f: string -> string, slots: seq<Path>, i: nat)
    requires i < |slots| && IsText(doc, slots[i]) && slots[i] !in Prefix(slots, i)
    ensures var before, after := Renamed(doc, Prefix(slots, i), f, []), Renamed(doc, Prefix(slots, i + 1), f, []);
            && Has(before, slots[i])
            && Put(before, slots[i], Str(f(Text(doc, slots[i])))) == after
            && (f(Text(doc, slots[i])) == Text(doc, slots[i]) ==> before == after)
  {
    hide Renamed, Put;
    assert [] + slots[i] == slots[i];
    RenamedOneMore(doc, Prefix(slots, i), f, [], slots[i]);
    assert Prefix(slots, i + 1) == Prefix(slots, i) + {slots[i]};
    PutSame(Renamed(doc, Prefix(slots, i), f, []), slots[i]);
  }

  /** Some slot of the document looks local without being declared. */
  predicate HasIntruder(doc: Json, raw: string, fold: string -> string) {
    exists p :: p in Slots(doc) && LooksLocal(doc, raw, fold, p)
  }

  /**
   Normalize one document. The checks on its own work (an injective map, no collision, no
   change outside the slots, a renamed graph, a reviewed result) can never fail: each is a
   dead branch here.
   */
  method NormalizeDocument(doc: Json, sourceUri: string, commit: string, fold: string -> string)
    returns (r: Result<(Json, nat), Failure>)
    ensures var raw, canonical := "path+" + sourceUri, CanonicalUri(commit);
            && (r.Ok? <==>
                  && Reviewed(doc, raw) && IsCommit(commit)
                  && |LocalDeclarations(doc, raw)| == 8
                  && |LocalSlots(doc, raw)| == 13
                  && !HasIntruder(doc, raw, fold))
            && (r.Ok? ==> r.value == (RebasedDocument(doc, raw, canonical), 13))
    ensures r.Ok? ==> forall p :: p in Slots(doc) ==>
              var raw := "path+" + sourceUri;
              Text(r.value.0, p) ==
              if raw <= Text(doc, p)
              then "https://github.com/Spacejunk-io/collide-o-scope/tree/" + commit + Text(doc, p)[|raw|..]
              else Text(doc, p)
    ensures var raw := "path+" + sourceUri;
            var inventory := Reviewed(doc, raw) && IsCommit(commit) && |LocalDeclarations(doc, raw)| == 8;
            && (!Reviewed(doc, raw) ==> r == Err(OutsideProfile))
            && (Reviewed(doc, raw) && !IsCommit(commit) ==> r == Err(BadCommit))
            && (Reviewed(doc, raw) && IsCommit(commit) && !inventory ==> r == Err(LocalInventory))
            && (inventory && HasIntruder(doc, raw, fold) ==>
                  r.Err? && r.error.UndeclaredReference? && LooksLocal(doc, raw, fold, r.error.path))
            && (inventory && !HasIntruder(doc, raw, fold) && r.Err? ==> r == Err(Occurrences))
  {
    hide Reviewed, Text, Rebased, DiffPaths, IsRenamedGraph, Slots, Declarations;
    var raw, canonical := "path+" + sourceUri, CanonicalUri(commit);
    if !Reviewed(doc, raw) {
      return Err(OutsideProfile);
    }
    if !IsCommit(commit) {
      return Err(BadCommit);
    }
    var mapping := Mapping(doc, raw, canonical);
    BasesAreAnchors(sourceUri, commit);
    MappingIsInjective(doc, raw, canonical);
    if |mapping| != EXPECTED_LOCAL_DECLARATIONS {
      return Err(LocalInventory);
    }
    if |mapping| != |mapping.Values| {
      assert false;
    }
    if mapping.Values * (Declarations(doc) - mapping.Keys) != {} {
      assert false;
    }
    var rewriting := RewriteSlots(doc, raw, canonical, fold);
    if rewriting.Err? {
      return Err(rewriting.error);
    }
    var (normalized, changed, rewritten) := rewriting.value;
    if rewritten != EXPECTED_REWRITTEN_REFERENCES {
      return Err(Occurrences);
    }
    DifferenceIsTheLocalSlots(doc, raw, canonical);
    if DiffPaths(doc, normalized, []) != changed {
      assert false;
    }
    GraphIsRenamed(doc, raw, canonical);
    if !IsRenamedGraph(GraphRows(doc), GraphRows(normalized), (v: string) => Rebased(raw, canonical, v)) {
      assert false;
    }
    RebasedStaysReviewed(doc, raw, canonical);
    if !Reviewed(normalized, canonical) {
      assert false;
    }
    ReleaseTexts(doc, sourceUri, commit);
    r := Ok((normalized, rewritten));
  }

  /** Every reference slot of the release document, in full: the tree page of the commit in place of the checkout. */
  lemma ReleaseTexts(doc: Json, sourceUri: string, commit: string)
    requires Reviewed(doc, "path+" + sourceUri)
    ensures var raw := "path+" + sourceUri;
            var r := RebasedDocument(doc, raw, CanonicalUri(commit));
            forall p :: p in Slots(doc) ==>
              Text(r, p) ==
              if raw <= Text(doc, p)
              then "https://github.com/Spacejunk-io/collide-o-scope/tree/" + commit + Text(doc, p)[|raw|..]
              else Text(doc, p)
  {
    hide Reviewed, Slots, Text;
    var raw, canonical := "path+" + sourceUri, CanonicalUri(commit);
    CanonicalUriIs(commit);
    forall p | p in Slots(doc)
      ensures Text(RebasedDocument(doc, raw, canonical), p) ==
              if raw <= Text(doc, p)
              then "https://github.com/Spacejunk-io/collide-o-scope/tree/" + commit + Text(doc, p)[|raw|..]
              else Text(doc, p)
    {
      SlotText(doc, raw, (v: string) => Rebased(raw, canonical, v), p);
    }
  }

  lemma CanonicalUriIs(commit: string)
    ensures CanonicalUri(commit) == "https://github.com/Spacejunk-io/collide-o-scope/tree/" + commit
  {
    assert REPOSITORY_URL + "/tree/" == "https://github.com/Spacejunk-io/collide-o-scope/tree/";
  }

  lemma MappingIsInjective(doc: Json, raw: string, canonical: string)
    requires Reviewed(doc, raw) && IsAnchor(raw) && IsAnchor(canonical)
    ensures var m := Mapping(doc, raw, canonical);
            && m.Keys == LocalDeclarations(doc, raw) && |m| == |m.Keys|
            && |m.Values| == |m|
            && m.Values * (Declarations(doc) - m.Keys) == {}
  {
    hide Reviewed, Rebased, Declarations, IsAnchor, HereOrForeign, Mapping, LocalDeclarations;
    var m := Mapping(doc, raw, canonical);
    MappingIs(doc, raw, canonical);
    forall a, b | a in m && b in m && m[a] == m[b] ensures a == b {
      LocalIsHere(raw, a);
      LocalIsHere(raw, b);
      RebasedIsInjective(raw, canonical, a, b);
    }
    InjectiveMapKeepsSize(m);
    forall v | v in m.Values && v in Declarations(doc) ensures v in m.Keys {
      var k :| k in m && m[k] == v;
      DeclaredIsHereOrForeign(doc, raw, v);
      LocalIsHere(raw, k);
      MappedStaysApart(raw, canonical, k, v);
    }
  }

  lemma MappingIs(doc: Json, raw: string, canonical: string)
    ensures var m := Mapping(doc, raw, canonical);
            && m.Keys == LocalDeclarations(doc, raw)
            && (forall r :: r in m <==> r in Declarations(doc) && raw <= r)
            && (forall r :: r in m ==> m[r] == Rebased(raw, canonical, r))
  {
    hide Declarations;
  }

  lemma LocalIsHere(raw: string, r: string)
    requires raw <= r
    ensures HereOrForeign(raw, r)
  {
  }

  lemma DeclaredIsHereOrForeign(doc: Json, raw: string, v: string)
    requires Reviewed(doc, raw) && v in Declarations(doc)
    ensures HereOrForeign(raw, v)
  {
    hide Reviewed, Text, Slots, HereOrForeign;
    var p :| p in DeclarationSlots() && Text(doc, p) == v;
    DeclarationsAreSlots(doc, p);
    SlotsAreHereOrForeign(doc, raw, p);
  }

  /** A rebased reference is no reference of the original base, unless that is what it was. */
  lemma MappedStaysApart(raw: string, canonical: string, k: string, v: string)
    requires IsAnchor(raw) && IsAnchor(canonical) && raw <= k && HereOrForeign(raw, v)
    requires Rebased(raw, canonical, k) == v
    ensures raw <= v
  {
    if !(raw <= v) {
      assert Rebased(raw, canonical, v) == v;
      RebasedIsInjective(raw, canonical, k, v);
    }
  }

  lemma {:induction false} InjectiveMapKeepsSize(m: map<string, string>)
    requires forall a, b :: a in m && b in m && m[a] == m[b] ==> a == b
    ensures |m.Values| == |m|
  {
    if m == map[] {
      assert m.Values == {};
    } else {
      var k :| k in m;
      WithoutOneKey(m, k);
      InjectiveMapKeepsSize(m - {k});
    }
  }

  lemma WithoutOneKey(m: map<string, string>, k: string)
    requires k in m && forall a :: a in m && m[a] == m[k] ==> a == k
    ensures m.Keys == (m - {k}).Keys + {k} && |m| == |m - {k}| + 1
    ensures m.Values == (m - {k}).Values + {m[k]} && m[k] !in (m - {k}).Values
  {
    var rest := m - {k};
    assert m.Keys == rest.Keys + {k};
    assert |m| == |m.Keys| && |rest| == |rest.Keys|;
    forall v | v in m.Values ensures v in rest.Values + {m[k]} {
      var a :| a in m && m[a] == v;
      assert a == k || (a in rest && rest[a] == v);
    }
  }

  lemma UrlStart()
    ensures REPOSITORY_URL != "" && REPOSITORY_URL[0] == 'h'
  {
    assert REPOSITORY_URL == ("https://git" + "hub.com/Spac") + ("ejunk-io/co" + "llide-o-scope") && "https://git"[0] == 'h';
  }

  lemma FirstOfBoth(a: string, b: string)
    requires a != ""
    ensures a + b != "" && (a + b)[0] == a[0]
  {
  }

  lemma BasesAreAnchors(sourceUri: string, commit: string)
    ensures var raw, canonical := "path+" + sourceUri, CanonicalUri(commit);
            IsAnchor(raw) && IsAnchor(canonical) && raw[0] != canonical[0]
  {
    hide REPOSITORY_URL;
    UrlStart();
    assert "path+"[0] == 'p';
    FirstOfBoth("path+", sourceUri);
    FirstOfBoth(REPOSITORY_URL, "/tree/");
    FirstOfBoth(REPOSITORY_URL + "/tree/", commit);
  }

  /** The independent structural difference reports exactly the rewritten slots. */
  lemma DifferenceIsTheLocalSlots(doc: Json, raw: string, canonical: string)
    requires Reviewed(doc, raw) && IsAnchor(raw) && IsAnchor(canonical) && raw[0] != canonical[0]
    ensures DiffPaths(doc, RebasedDocument(doc, raw, canonical), []) == LocalSlots(doc, raw)
  {
    hide Reviewed, Slots, DiffPaths, IsAnchor, RebasedDocument, LocalSlots;
    forall p: Path
      ensures p in DiffPaths(doc, RebasedDocument(doc, raw, canonical), []) <==> p in LocalSlots(doc, raw)
    {
      DifferenceAt(doc, raw, canonical, p);
    }
  }

  lemma DifferenceAt(doc: Json, raw: string, canonical: string, p: Path)
    requires Reviewed(doc, raw) && IsAnchor(raw) && IsAnchor(canonical) && raw[0] != canonical[0]
    ensures p in DiffPaths(doc, RebasedDocument(doc, raw, canonical), []) <==> p in LocalSlots(doc, raw)
  {
    hide Reviewed, Slots, DiffPaths, DiffersAt, Renamed;
    var f := (v: string) => Rebased(raw, canonical, v);
    DiffPathsAreDifferences(doc, RebasedDocument(doc, raw, canonical), [], p);
    assert p[0..] == p && [] + p == p;
    RenamedDiffers(doc, SlotSet(doc), f, [], p);
    if p in Slots(doc) {
      SlotsAreHereOrForeign(doc, raw, p);
      RebasingChanges(raw, canonical, Text(doc, p));
    }
  }

  lemma RebasingChanges(raw: string, canonical: string, v: string)
    requires raw != "" && canonical != "" && raw[0] != canonical[0]
    ensures Rebased(raw, canonical, v) != v <==> raw <= v
  {
    if raw <= v {
      assert Rebased(raw, canonical, v)[0] == canonical[0] && v[0] == raw[0];
    }
  }
}
