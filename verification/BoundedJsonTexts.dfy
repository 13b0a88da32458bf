/**
 The budgeted JSON builder's limits spelled out: bytes and control characters, what holds at
 every node of an accepted document, and what every error says about a refused one.
 */
module BoundedJsonTexts {
  import opened BoundedJson
  import opened JsonTree
  import opened Wrappers

  // ------------------------------------------------------------------
  // Text
  // ------------------------------------------------------------------

  /** UTF-8: one to four bytes a character, by its number. */
  lemma WidthsAre(c: char)
    ensures Utf8Length([c]) ==
            if c as int < 0x80 then 1 else if c as int < 0x800 then 2 else if c as int < 0x1_0000 then 3 else 4
  {
    assert [c][1..] == [];
  }

  lemma {:induction false} LengthsAdd(a: string, b: string)
    ensures Utf8Length(a + b) == Utf8Length(a) + Utf8Length(b)
  {
    if a == "" {
      assert a + b == b;
    } else {
      assert (a + b)[1..] == a[1..] + b;
      LengthsAdd(a[1..], b);
    }
  }

  lemma {:induction false} LengthIsBounded(s: string)
    ensures |s| <= Utf8Length(s) <= 4 * |s|
  {
    if s != "" {
      LengthIsBounded(s[1..]);
    }
  }

  predicate Control(c: char) {
    c as int < 32 || 127 <= c as int < 160
  }

  lemma KeysAre(key: string, lim: Limits)
    ensures ValidKey(key, lim) <==>
              key != "" && Utf8Length(key) <= lim.maxKeyBytes && forall c :: c in key ==> !Control(c)
  {
    forall i | 0 <= i < |key| ensures IsControl(key[i]) <==> Control(key[i]) {
    }
    if forall c :: c in key ==> !Control(c) {
      assert forall i :: 0 <= i < |key| ==> key[i] in key;
    }
  }

  // ------------------------------------------------------------------
  // Nodes
  // ------------------------------------------------------------------

  /** The list of child numbers leads to a node of the raw tree. */
  predicate Inside(r: Raw, p: seq<nat>) {
    p == [] || (p[0] < Arity(r) && Inside(Kid(r, p[0]), p[1..]))
  }

  function At(r: Raw, p: seq<nat>): Raw
    requires Inside(r, p)
  {
    if p == [] then r else At(Kid(r, p[0]), p[1..])
  }

  /** Every key is valid and none is repeated. */
  predicate KeysWithin(n: Raw, lim: Limits)
    requires n.RawObject?
  {
    && (forall k: nat :: k < |n.members| ==> ValidKey(n.members[k].key, lim))
    && (forall j: nat, k: nat :: j < |n.members| && k < |n.members| && n.members[j].key == n.members[k].key ==> j == k)
  }

  /** The node at `p` is within every limit, on its own. */
  predicate NodeWithin(n: Raw, depth: nat, lim: Limits) {
    && depth <= lim.maxDepth
    && (n.RawArray? || n.RawObject? ==> depth < 127)
    && (n.RawFloat? ==> n.fraction.Some?)
    && (n.RawString? ==> Utf8Length(n.text) <= lim.maxStringBytes)
    && (n.RawObject? ==> KeysWithin(n, lim))
  }

  ghost predicate AllWithin(r: Raw, depth: nat, lim: Limits) {
    forall p: seq<nat> :: Inside(r, p) ==> NodeWithin(At(r, p), depth + |p|, lim)
  }

  predicate KeysAdmitted(r: Raw, lim: Limits) {
    forall k: nat :: k < Arity(r) ==> KeyAdmitted(r, k, lim)
  }

  lemma KeysWithinMeans(r: Raw, lim: Limits)
    requires r.RawObject?
    ensures KeysAdmitted(r, lim) <==> KeysWithin(r, lim)
  {
    hide ValidKey;
    if KeysAdmitted(r, lim) {
      forall k: nat | k < |r.members| ensures ValidKey(r.members[k].key, lim) {
        assert KeyAdmitted(r, k, lim);
      }
      forall j: nat, k: nat | j < |r.members| && k < |r.members| && r.members[j].key == r.members[k].key ensures j == k {
        assert KeyAdmitted(r, j, lim) && KeyAdmitted(r, k, lim);
      }
    }
    if KeysWithin(r, lim) {
      forall k: nat | k < Arity(r) ensures KeyAdmitted(r, k, lim) {
        assert ValidKey(r.members[k].key, lim);
      }
    }
  }

  lemma RootWithin(r: Raw, depth: nat, lim: Limits)
    ensures depth <= lim.maxDepth && Opens(r, depth) && LeafAdmitted(r, lim) && KeysAdmitted(r, lim) <==>
            NodeWithin(r, depth, lim)
  {
    hide ValidKey, Utf8Length;
    if r.RawObject? {
      KeysWithinMeans(r, lim);
      hide KeysAdmitted;
    }
  }

  lemma KidsWithin(r: Raw, depth: nat, lim: Limits)
    ensures AllWithin(r, depth, lim) <==>
            NodeWithin(r, depth, lim) && forall k: nat :: k < Arity(r) ==> AllWithin(Kid(r, k), depth + 1, lim)
  {
    hide NodeWithin, Arity, Kid;
    if AllWithin(r, depth, lim) {
      assert Inside(r, []) && At(r, []) == r;
      forall k: nat | k < Arity(r) ensures AllWithin(Kid(r, k), depth + 1, lim) {
        forall p: seq<nat> | Inside(Kid(r, k), p) ensures NodeWithin(At(Kid(r, k), p), depth + 1 + |p|, lim) {
          var q := [k] + p;
          assert q[1..] == p && Inside(r, q) && At(r, q) == At(Kid(r, k), p);
        }
      }
    }
    if NodeWithin(r, depth, lim) && forall k: nat :: k < Arity(r) ==> AllWithin(Kid(r, k), depth + 1, lim) {
      forall p: seq<nat> | Inside(r, p) ensures NodeWithin(At(r, p), depth + |p|, lim) {
        if p != [] {
          assert AllWithin(Kid(r, p[0]), depth + 1, lim) && Inside(Kid(r, p[0]), p[1..]);
        }
      }
    }
  }

  /** A tree is admitted if and only if every one of its nodes is within every limit. */
  lemma {:induction false} AdmittedExactlyWhen(r: Raw, depth: nat, lim: Limits)
    ensures Admits(r, depth, lim) <==> AllWithin(r, depth, lim)
    decreases r
  {
    hide NodeWithin, AllWithin, Opens, LeafAdmitted, KeyAdmitted;
    forall k: nat | k < Arity(r) ensures Admits(Kid(r, k), depth + 1, lim) <==> AllWithin(Kid(r, k), depth + 1, lim) {
      AdmittedExactlyWhen(Kid(r, k), depth + 1, lim);
    }
    RootWithin(r, depth, lim);
    KidsWithin(r, depth, lim);
  }

  // ------------------------------------------------------------------
  // Errors
  // ------------------------------------------------------------------

  /** What an error says of the node it is about. */
  predicate Says(e: JsonError, n: Raw, depth: nat, lim: Limits) {
    match e
    case OverDepth => depth > lim.maxDepth
    case TooNested => (n.RawArray? || n.RawObject?) && depth >= 127
    case NotFinite => n.RawFloat? && n.fraction.None?
    case OverString(observed) => n.RawString? && Utf8Length(n.text) == observed > lim.maxStringBytes
    case InvalidKey => n.RawObject? && exists k: nat :: k < |n.members| && !ValidKey(n.members[k].key, lim)
    case DuplicateKey(key) =>
      n.RawObject? && exists j: nat, k: nat :: j < k < |n.members| && n.members[j].key == n.members[k].key == key
    case _ => false
  }

  ghost predicate SaidSomewhere(e: JsonError, r: Raw, depth: nat, lim: Limits) {
    exists p: seq<nat> :: Inside(r, p) && Says(e, At(r, p), depth + |p|, lim)
  }

  lemma SaidHere(e: JsonError, r: Raw, depth: nat, lim: Limits)
    requires Says(e, r, depth, lim)
    ensures SaidSomewhere(e, r, depth, lim)
  {
    hide Says;
    var here: seq<nat> := [];
    assert Inside(r, here) && At(r, here) == r && |here| == 0;
  }

  lemma SaidBelow(e: JsonError, r: Raw, k: nat, depth: nat, lim: Limits)
    requires k < Arity(r) && SaidSomewhere(e, Kid(r, k), depth + 1, lim)
    ensures SaidSomewhere(e, r, depth, lim)
  {
    hide Says, Kid, Arity;
    var p: seq<nat> :| Inside(Kid(r, k), p) && Says(e, At(Kid(r, k), p), depth + 1 + |p|, lim);
    var q := [k] + p;
    assert q[1..] == p && Inside(r, q) && At(r, q) == At(Kid(r, k), p);
  }

  /** Every error is true: of some node of the document, or of their number. */
  lemma {:induction false} ErrorsAreTrue(r: Raw, depth: nat, remaining: nat, lim: Limits)
    requires Walk(r, depth, remaining, lim).Err?
    ensures var e := Walk(r, depth, remaining, lim).error;
            if e == OverNodes then Nodes(r) > remaining else SaidSomewhere(e, r, depth, lim)
    decreases r, 1, 0
  {
    hide SaidSomewhere, WalkFrom, NodesFrom, ValidKey, Utf8Length;
    var e := Walk(r, depth, remaining, lim).error;
    if depth > lim.maxDepth || remaining == 0 || !Opens(r, depth) || !LeafAdmitted(r, lim) {
      if e != OverNodes {
        SaidHere(e, r, depth, lim);
      }
    } else {
      ErrorsAreTrueFrom(r, 0, depth, remaining - 1, lim);
    }
  }

  lemma {:induction false} ErrorsAreTrueFrom(r: Raw, k: nat, depth: nat, remaining: nat, lim: Limits)
    requires k <= Arity(r) && WalkFrom(r, k, depth + 1, remaining, lim).Err?
    ensures var e := WalkFrom(r, k, depth + 1, remaining, lim).error;
            if e == OverNodes then NodesFrom(r, k) > remaining else SaidSomewhere(e, r, depth, lim)
    decreases r, 0, Arity(r) - k
  {
    hide SaidSomewhere, Walk, Nodes, ValidKey, Kid;
    var e := WalkFrom(r, k, depth + 1, remaining, lim).error;
    if r.RawObject? && !ValidKey(r.members[k].key, lim) {
      SaidHere(e, r, depth, lim);
    } else if r.RawObject? && Repeats(r, k) {
      RepeatSays(r, k, depth, lim);
      SaidHere(e, r, depth, lim);
    } else {
      var first := Walk(Kid(r, k), depth + 1, remaining, lim);
      if first.Err? {
        ErrorsAreTrue(Kid(r, k), depth + 1, remaining, lim);
        if e != OverNodes {
          SaidBelow(e, r, k, depth, lim);
        }
      } else {
        WalkAcceptsExactly(Kid(r, k), depth + 1, remaining, lim);
        ErrorsAreTrueFrom(r, k + 1, depth, first.value, lim);
      }
    }
  }

  lemma RepeatSays(r: Raw, k: nat, depth: nat, lim: Limits)
    requires r.RawObject? && k < Arity(r) && Repeats(r, k)
    ensures Says(DuplicateKey(r.members[k].key), r, depth, lim)
  {
    var j: nat :| j < k && r.members[j].key == r.members[k].key;
  }

  // ------------------------------------------------------------------
  // The value
  // ------------------------------------------------------------------

  /** The location of a node in the value: positions in arrays, keys in objects. */
  function Location(r: Raw, p: seq<nat>): Path
    requires Inside(r, p)
  {
    if p == [] then []
    else [if r.RawObject? then Field(r.members[p[0]].key) else Index(p[0])] + Location(Kid(r, p[0]), p[1..])
  }

  /** The value at a location is the node: the same leaf, as many items, the same keys. */
  ghost predicate SameNode(v: Json, n: Raw) {
    && (n.RawNull? <==> v == Null)
    && (forall b :: n == RawBool(b) <==> v == Bool(b))
    && (forall i :: n == RawInt(i) <==> v == Int(i))
    && (n.RawFloat? <==> v.Float?) && (n.RawFloat? ==> n.fraction == Some(v.fraction))
    && (forall s :: n == RawString(s) <==> v == Str(s))
    && (n.RawArray? <==> v.Arr?) && (n.RawArray? ==> |n.items| == |v.items|)
    && (n.RawObject? <==> v.Obj?)
    && (n.RawObject? ==> forall name :: name in v.fields <==> exists k: nat :: k < |n.members| && n.members[k].key == name)
  }

  lemma RootIsSame(v: Json, r: Raw)
    requires Represents(v, r)
    ensures SameNode(v, r)
  {
    if r.RawObject? {
      forall name ensures name in v.fields <==> exists k: nat :: k < |r.members| && r.members[k].key == name {
      }
    }
  }

  lemma KidIsThere(v: Json, r: Raw, k: nat)
    requires Represents(v, r) && k < Arity(r)
    ensures var key := if r.RawObject? then Field(r.members[k].key) else Index(k);
            HasChild(v, key) && Represents(Child(v, key), Kid(r, k))
  {
  }

  /** The value returned is the document: every node of the raw tree is at its location, as it was read. */
  lemma {:induction false} ValueIsTheDocument(v: Json, r: Raw, p: seq<nat>)
    requires Represents(v, r) && Inside(r, p)
    ensures Has(v, Location(r, p)) && SameNode(Get(v, Location(r, p)), At(r, p))
    decreases p
  {
    hide Represents, SameNode, HasChild, Child, Kid;
    if p == [] {
      RootIsSame(v, r);
    } else {
      KidIsThere(v, r, p[0]);
      var key := if r.RawObject? then Field(r.members[p[0]].key) else Index(p[0]);
      ValueIsTheDocument(Child(v, key), Kid(r, p[0]), p[1..]);
      var q := Location(r, p);
      assert q[0] == key && q[1..] == Location(Kid(r, p[0]), p[1..]);
    }
  }
}
