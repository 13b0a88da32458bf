/**
 The budgeted JSON builder: one node budget shared by the whole recursion, over the
 tokenizer's raw tree, where an object may still repeat a key.
 */
module BoundedJson {
  import opened JsonTree
  import opened Wrappers

  /** What the tokenizer hands to the visitor; a float may be out of range. */
  datatype Raw =
    | RawNull
    | RawBool(flag: bool)
    | RawInt(number: int)
    | RawFloat(fraction: Option<real>)
    | RawString(text: string)
    | RawArray(items: seq<Raw>)
    | RawObject(members: seq<Member>)

  datatype Member = Member(key: string, value: Raw)

  datatype Limits = Limits(maxBytes: nat, maxDepth: nat, maxNodes: nat, maxKeyBytes: nat, maxStringBytes: nat)

  datatype JsonError =
    | OverBytes(observed: nat, limit: nat)
    | OverDepth
    | OverNodes
    | TooNested
    | NotFinite
    | OverString(observed: nat)
    | InvalidKey
    | DuplicateKey(key: string)
    | TrailingCharacters

  /** The brackets that the JSON library reads inside one another, whatever limits the caller sets. */
  const LIBRARY_NESTING: nat := 127

  // ------------------------------------------------------------------
  // Text
  // ------------------------------------------------------------------

  /** Bytes of a character in UTF-8. */
  function Utf8Width(c: char): nat {
    if c <= '\U{7F}' then 1 else if c <= '\U{7FF}' then 2 else if c <= '\U{FFFF}' then 3 else 4
  }

  function Utf8Length(s: string): nat {
    if s == "" then 0 else Utf8Width(s[0]) + Utf8Length(s[1..])
  }

  /** `char::is_control`: the Unicode category Cc. */
  predicate IsControl(c: char) {
    c <= '\U{1F}' || '\U{7F}' <= c <= '\U{9F}'
  }

  predicate ValidKey(key: string, lim: Limits) {
    key != "" && Utf8Length(key) <= lim.maxKeyBytes && forall i :: 0 <= i < |key| ==> !IsControl(key[i])
  }

  // ------------------------------------------------------------------
  // Raw trees
  // ------------------------------------------------------------------

  function Arity(r: Raw): nat {
    match r
    case RawArray(items) => |items|
    case RawObject(members) => |members|
    case _ => 0
  }

  function Kid(r: Raw, k: nat): (c: Raw)
    requires k < Arity(r)
    ensures c < r
  {
    if r.RawArray? then r.items[k] else
      assert r.members[k] < r;
      r.members[k].value
  }

  function Step(r: Raw, k: nat): Key
    requires k < Arity(r)
  {
    if r.RawArray? then Index(k) else Field(r.members[k].key)
  }

  function Nodes(r: Raw): nat
    decreases r, 1, 0
  {
    1 + NodesFrom(r, 0)
  }

  function NodesFrom(r: Raw, k: nat): nat
    requires k <= Arity(r)
    decreases r, 0, Arity(r) - k
  {
    if k == Arity(r) then 0 else Nodes(Kid(r, k)) + NodesFrom(r, k + 1)
  }

  /** The key of member `k` is one the builder accepts at that point. */
  predicate KeyAdmitted(r: Raw, k: nat, lim: Limits)
    requires k < Arity(r)
  {
    r.RawObject? ==> ValidKey(r.members[k].key, lim) && !Repeats(r, k)
  }

  predicate Repeats(r: Raw, k: nat)
    requires r.RawObject? && k < Arity(r)
  {
    exists j :: 0 <= j < k && r.members[j].key == r.members[k].key
  }

  predicate LeafAdmitted(r: Raw, lim: Limits) {
    && (r.RawFloat? ==> r.fraction.Some?)
    && (r.RawString? ==> Utf8Length(r.text) <= lim.maxStringBytes)
  }

  /** The library opens an array or object here. */
  predicate Opens(r: Raw, depth: nat) {
    r.RawArray? || r.RawObject? ==> depth < LIBRARY_NESTING
  }

  /** Everything but the node count: depth, nesting, sizes, keys and finiteness, all the way down. */
  predicate Admits(r: Raw, depth: nat, lim: Limits)
    decreases r
  {
    && depth <= lim.maxDepth
    && Opens(r, depth)
    && LeafAdmitted(r, lim)
    && forall k: nat :: k < Arity(r) ==> KeyAdmitted(r, k, lim) && Admits(Kid(r, k), depth + 1, lim)
  }

  // ------------------------------------------------------------------
  // The fail-fast walk
  // ------------------------------------------------------------------

  /** What the builder answers with `remaining` nodes of budget: the budget left, or its first error. */
  function Walk(r: Raw, depth: nat, remaining: nat, lim: Limits): Result<nat, JsonError>
    decreases r, 1, 0
  {
    if depth > lim.maxDepth then Err(OverDepth)
    else if remaining == 0 then Err(OverNodes)
    else if !Opens(r, depth) then Err(TooNested)
    else if r.RawFloat? && r.fraction.None? then Err(NotFinite)
    else if r.RawString? && Utf8Length(r.text) > lim.maxStringBytes then Err(OverString(Utf8Length(r.text)))
    else WalkFrom(r, 0, depth + 1, remaining - 1, lim)
  }

  function WalkFrom(r: Raw, k: nat, depth: nat, remaining: nat, lim: Limits): Result<nat, JsonError>
    requires k <= Arity(r)
    decreases r, 0, Arity(r) - k
  {
    if k == Arity(r) then Ok(remaining)
    else if r.RawObject? && !ValidKey(r.members[k].key, lim) then Err(InvalidKey)
    else if r.RawObject? && Repeats(r, k) then Err(DuplicateKey(r.members[k].key))
    else
      var first := Walk(Kid(r, k), depth, remaining, lim);
      if first.Err? then first else WalkFrom(r, k + 1, depth, first.value, lim)
  }

  predicate AdmitsFrom(r: Raw, k: nat, depth: nat, lim: Limits)
    requires k <= Arity(r)
  {
    forall j: nat :: k <= j < Arity(r) ==> KeyAdmitted(r, j, lim) && Admits(Kid(r, j), depth, lim)
  }

  lemma AdmitsStep(r: Raw, k: nat, depth: nat, lim: Limits)
    requires k <= Arity(r)
    ensures AdmitsFrom(r, k, depth, lim) <==>
            k == Arity(r) || (KeyAdmitted(r, k, lim) && Admits(Kid(r, k), depth, lim) && AdmitsFrom(r, k + 1, depth, lim))
  {
    hide Admits, KeyAdmitted;
  }

  /**
   Acceptance is exact: the builder accepts precisely the trees within every limit, and
   spends precisely one unit of budget per node.
   */
  lemma {:induction false} WalkAcceptsExactly(r: Raw, depth: nat, remaining: nat, lim: Limits)
    ensures Walk(r, depth, remaining, lim).Ok? <==> Admits(r, depth, lim) && Nodes(r) <= remaining
    ensures Walk(r, depth, remaining, lim).Ok? ==> Walk(r, depth, remaining, lim).value == remaining - Nodes(r)
    decreases r, 1, 0
  {
    hide WalkFrom, NodesFrom, ValidKey;
    AdmitsRoot(r, depth, lim);
    if remaining > 0 {
      WalkFromAcceptsExactly(r, 0, depth + 1, remaining - 1, lim);
    }
  }

  lemma AdmitsRoot(r: Raw, depth: nat, lim: Limits)
    ensures Admits(r, depth, lim) <==>
            depth <= lim.maxDepth && Opens(r, depth) && LeafAdmitted(r, lim) && AdmitsFrom(r, 0, depth + 1, lim)
  {
    hide KeyAdmitted, LeafAdmitted, Arity, Opens;
  }

  lemma {:induction false} WalkFromAcceptsExactly(r: Raw, k: nat, depth: nat, remaining: nat, lim: Limits)
    requires k <= Arity(r)
    ensures WalkFrom(r, k, depth, remaining, lim).Ok? <==>
            AdmitsFrom(r, k, depth, lim) && NodesFrom(r, k) <= remaining
    ensures WalkFrom(r, k, depth, remaining, lim).Ok? ==>
              WalkFrom(r, k, depth, remaining, lim).value == remaining - NodesFrom(r, k)
    decreases r, 0, Arity(r) - k
  {
    hide Walk, Nodes, Admits, AdmitsFrom, ValidKey, Repeats, Kid;
    AdmitsStep(r, k, depth, lim);
    if k < Arity(r) {
      WalkAcceptsExactly(Kid(r, k), depth, remaining, lim);
      if Nodes(Kid(r, k)) <= remaining {
        WalkFromAcceptsExactly(r, k + 1, depth, remaining - Nodes(Kid(r, k)), lim);
      }
    }
  }

  /** A caller whose depth limit lies below the library's never meets the library's. */
  lemma {:induction false} CallerLimitComesFirst(r: Raw, depth: nat, remaining: nat, lim: Limits)
    requires lim.maxDepth < 127
    ensures Walk(r, depth, remaining, lim) != Err(TooNested)
    decreases r, 1, 0
  {
    hide WalkFrom, ValidKey;
    if remaining > 0 {
      CallerLimitComesFirstFrom(r, 0, depth + 1, remaining - 1, lim);
    }
  }

  lemma {:induction false} CallerLimitComesFirstFrom(r: Raw, k: nat, depth: nat, remaining: nat, lim: Limits)
    requires k <= Arity(r) && lim.maxDepth < 127
    ensures WalkFrom(r, k, depth, remaining, lim) != Err(TooNested)
    decreases r, 0, Arity(r) - k
  {
    hide Walk, ValidKey, Repeats, Kid;
    if k < Arity(r) {
      var first := Walk(Kid(r, k), depth, remaining, lim);
      CallerLimitComesFirst(Kid(r, k), depth, remaining, lim);
      if first.Ok? {
        CallerLimitComesFirstFrom(r, k + 1, depth, first.value, lim);
      }
    }
  }

  // ------------------------------------------------------------------
  // The builder
  // ------------------------------------------------------------------

  /** The value is the raw tree itself, with object members as a map. */
  predicate Represents(v: Json, r: Raw)
    decreases r
  {
    match r
    case RawNull => v == Null
    case RawBool(b) => v == Bool(b)
    case RawInt(n) => v == Int(n)
    case RawFloat(f) => f.Some? && v == Float(f.value)
    case RawString(s) => v == Str(s)
    case RawArray(items) =>
      v.Arr? && |v.items| == |items| && forall k: nat :: k < |items| ==> Represents(v.items[k], Kid(r, k))
    case RawObject(members) =>
      && v.Obj? && v.fields.Keys == KeysBefore(members, |members|)
      && forall k: nat :: k < |members| ==> Represents(v.fields[members[k].key], Kid(r, k))
  }

  function KeysBefore(members: seq<Member>, k: nat): set<string>
    requires k <= |members|
  {
    set j | 0 <= j < k :: members[j].key
  }

  class ParseBudget {
    var remaining: nat

    constructor (nodes: nat)
      ensures remaining == nodes
    {
      remaining := nodes;
    }

    /** Takes one node from the budget, if there is one. */
    method Consume() returns (ok: bool)
      modifies this
      ensures ok == (old(remaining) > 0)
      ensures remaining == if ok then old(remaining) - 1 else old(remaining)
    {
      if remaining == 0 {
        return false;
      }
      remaining := remaining - 1;
      return true;
    }
  }

  /** The answer agrees with the walk: same error, or same budget left and the tree itself. */
  predicate Answers(result: Result<Json, JsonError>, r: Raw, walk: Result<nat, JsonError>, left: nat) {
    match walk
    case Err(e) => result == Err(e)
    case Ok(n) => left == n && result.Ok? && Represents(result.value, r)
  }

  method Deserialize(r: Raw, depth: nat, budget: ParseBudget, lim: Limits) returns (result: Result<Json, JsonError>)
    modifies budget
    ensures Answers(result, r, Walk(r, depth, old(budget.remaining), lim), budget.remaining)
    decreases r, 1
  {
    hide WalkFrom, ValidKey, Utf8Length, Kid;
    if depth > lim.maxDepth {
      return Err(OverDepth);
    }
    var ok := budget.Consume();
    if !ok {
      return Err(OverNodes);
    }
    if !Opens(r, depth) {
      return Err(TooNested);
    }
    NoKids(r, depth + 1, budget.remaining, lim);
    match r {
      case RawNull => result := Ok(Null);
      case RawBool(b) => result := Ok(Bool(b));
      case RawInt(n) => result := Ok(Int(n));
      case RawFloat(f) => result := if f.Some? then Ok(Float(f.value)) else Err(NotFinite);
      case RawString(s) => result := if Utf8Length(s) > lim.maxStringBytes then Err(OverString(Utf8Length(s))) else Ok(Str(s));
      case RawArray(_) => result := VisitSeq(r, depth, budget, lim);
      case RawObject(_) => result := VisitMap(r, depth, budget, lim);
    }
  }

  lemma NoKids(r: Raw, depth: nat, remaining: nat, lim: Limits)
    ensures Arity(r) == 0 ==> WalkFrom(r, 0, depth, remaining, lim) == Ok(remaining)
  {
  }

  /** One turn of either collection loop. */
  lemma NextKid(r: Raw, k: nat, depth: nat, remaining: nat, lim: Limits)
    requires k < Arity(r)
    ensures var first := Walk(Kid(r, k), depth, remaining, lim);
            WalkFrom(r, k, depth, remaining, lim) ==
            if r.RawObject? && !ValidKey(r.members[k].key, lim) then Err(InvalidKey)
            else if r.RawObject? && Repeats(r, k) then Err(DuplicateKey(r.members[k].key))
            else if first.Err? then first
            else WalkFrom(r, k + 1, depth, first.value, lim)
  {
    hide Walk, ValidKey, Repeats;
  }

  method VisitSeq(r: Raw, depth: nat, budget: ParseBudget, lim: Limits) returns (result: Result<Json, JsonError>)
    requires r.RawArray?
    modifies budget
    ensures Answers(result, r, WalkFrom(r, 0, depth + 1, old(budget.remaining), lim), budget.remaining)
    decreases r, 0
  {
    hide Walk, WalkFrom, Kid;
    ghost var start := budget.remaining;
    var values: seq<Json> := [];
    var k := 0;
    while k < |r.items|
      invariant 0 <= k <= |r.items| == Arity(r) && |values| == k
      invariant forall j: nat :: j < k ==> Represents(values[j], Kid(r, j))
      invariant WalkFrom(r, 0, depth + 1, start, lim) == WalkFrom(r, k, depth + 1, budget.remaining, lim)
    {
      NextKid(r, k, depth + 1, budget.remaining, lim);
      ItemIsKid(r, k);
      var value := Deserialize(r.items[k], depth + 1, budget, lim);
      if value.Err? {
        return value;
      }
      values := values + [value.value];
      k := k + 1;
    }
    NoMoreKids(r, depth + 1, budget.remaining, lim);
    return Ok(Arr(values));
  }

  method VisitMap(r: Raw, depth: nat, budget: ParseBudget, lim: Limits) returns (result: Result<Json, JsonError>)
    requires r.RawObject?
    modifies budget
    ensures Answers(result, r, WalkFrom(r, 0, depth + 1, old(budget.remaining), lim), budget.remaining)
    decreases r, 0
  {
    hide Walk, WalkFrom, Kid, ValidKey;
    ghost var start := budget.remaining;
    var values: map<string, Json> := map[];
    var k := 0;
    while k < |r.members|
      invariant 0 <= k <= |r.members| == Arity(r) && values.Keys == KeysBefore(r.members, k)
      invariant forall j: nat :: j < k ==> Represents(values[r.members[j].key], Kid(r, j))
      invariant WalkFrom(r, 0, depth + 1, start, lim) == WalkFrom(r, k, depth + 1, budget.remaining, lim)
    {
      NextKid(r, k, depth + 1, budget.remaining, lim);
      ItemIsKid(r, k);
      var key := r.members[k].key;
      if !ValidKey(key, lim) {
        return Err(InvalidKey);
      }
      if key in values {
        return Err(DuplicateKey(key));
      }
      assert !Repeats(r, k);
      var value := Deserialize(r.members[k].value, depth + 1, budget, lim);
      if value.Err? {
        return value;
      }
      values := values[key := value.value];
      k := k + 1;
    }
    NoMoreKids(r, depth + 1, budget.remaining, lim);
    return Ok(Obj(values));
  }

  lemma ItemIsKid(r: Raw, k: nat)
    requires k < Arity(r)
    ensures r.RawArray? ==> r.items[k] == Kid(r, k)
    ensures r.RawObject? ==> r.members[k].value == Kid(r, k)
    ensures Kid(r, k) < r
  {
  }

  lemma NoMoreKids(r: Raw, depth: nat, remaining: nat, lim: Limits)
    ensures WalkFrom(r, Arity(r), depth, remaining, lim) == Ok(remaining)
  {
  }

  /** The whole parse of a document of `byteLength` bytes whose first value is `r`. */
  method ParseBoundedJson(byteLength: nat, r: Raw, trailing: bool, lim: Limits) returns (result: Result<Json, JsonError>)
    ensures result.Ok? <==>
            byteLength <= lim.maxBytes && Admits(r, 0, lim) && Nodes(r) <= lim.maxNodes && !trailing
    ensures result.Ok? ==> Represents(result.value, r)
    ensures byteLength > lim.maxBytes ==> result == Err(OverBytes(byteLength, lim.maxBytes))
    ensures byteLength <= lim.maxBytes && result.Err? ==>
              var walk := Walk(r, 0, lim.maxNodes, lim);
              if walk.Err? then result == Err(walk.error) else trailing && result == Err(TrailingCharacters)
  {
    hide Walk, Admits, Nodes, Represents;
    if byteLength > lim.maxBytes {
      return Err(OverBytes(byteLength, lim.maxBytes));
    }
    var budget := new ParseBudget(lim.maxNodes);
    WalkAcceptsExactly(r, 0, lim.maxNodes, lim);
    result := Deserialize(r, 0, budget, lim);
    if result.Ok? && trailing {
      return Err(TrailingCharacters);
    }
  }
}
