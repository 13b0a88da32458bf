/**
 JSON trees, locations in them, and the structural difference of two trees.
 */
module JsonTree {

  datatype Json =
    | Null
    | Bool(value: bool)
    | Int(number: int)
    | Float(fraction: real)
    | Str(text: string)
    | Arr(items: seq<Json>)
    | Obj(fields: map<string, Json>)

  datatype Key = Field(name: string) | Index(index: nat)

  type Path = seq<Key>

  predicate HasChild(t: Json, k: Key) {
    match k
    case Field(name) => t.Obj? && name in t.fields
    case Index(i) => t.Arr? && i < |t.items|
  }

  function Child(t: Json, k: Key): (c: Json)
    requires HasChild(t, k)
    ensures c < t
  {
    match k
    case Field(name) => t.fields[name]
    case Index(i) => t.items[i]
  }

  predicate Has(t: Json, p: Path) {
    p == [] || (HasChild(t, p[0]) && Has(Child(t, p[0]), p[1..]))
  }

  function Get(t: Json, p: Path): Json
    requires Has(t, p)
  {
    if p == [] then t else Get(Child(t, p[0]), p[1..])
  }

  /** The tree with the subtree at `p` replaced. */
  function Put(t: Json, p: Path, v: Json): Json
    requires Has(t, p)
  {
    if p == [] then v
    else
      var c := Put(Child(t, p[0]), p[1..], v);
      match p[0]
      case Field(name) => Obj(t.fields[name := c])
      case Index(i) => Arr(t.items[i := c])
  }

  // ------------------------------------------------------------------
  // Structural difference
  // ------------------------------------------------------------------

  /** The two roots agree in kind, and in keys, length or value. */
  predicate SameRoot(a: Json, b: Json) {
    match (a, b)
    case (Obj(f), Obj(g)) => f.Keys == g.Keys
    case (Arr(s), Arr(t)) => |s| == |t|
    case (_, _) => a == b
  }

  /** The paths at which a walk of both trees first finds them different. */
  function DiffPaths(left: Json, right: Json, path: Path): set<Path>
    decreases left
  {
    if !SameRoot(left, right) then {path}
    else
      match left
      case Obj(fields) =>
        set name, p | name in fields && p in DiffPaths(Child(left, Field(name)), right.fields[name], path + [Field(name)]) :: p
      case Arr(items) =>
        set i: nat, p | i < |items| && p in DiffPaths(Child(left, Index(i)), right.items[i], path + [Index(i)]) :: p
      case _ => {}
  }

  /** Reference notion: the trees have equal roots all the way down to `q`, and differ there. */
  predicate DiffersAt(a: Json, b: Json, q: Path) {
    if q == [] then !SameRoot(a, b)
    else SameRoot(a, b) && HasChild(a, q[0]) && DiffersAt(Child(a, q[0]), Child(b, q[0]), q[1..])
  }

  lemma {:induction false} DiffPathsAreDifferences(a: Json, b: Json, path: Path, p: Path)
    ensures p in DiffPaths(a, b, path) <==> path <= p && DiffersAt(a, b, p[|path|..])
    decreases a
  {
    if path <= p {
      assert p == path + p[|path|..];
      assert p == path <==> p[|path|..] == [];
    }
    if SameRoot(a, b) && (a.Obj? || a.Arr?) {
      forall k | HasChild(a, k)
        ensures p in DiffPaths(Child(a, k), Child(b, k), path + [k]) <==>
                path + [k] <= p && DiffersAt(Child(a, k), Child(b, k), p[|path| + 1..])
      {
        DiffPathsAreDifferences(Child(a, k), Child(b, k), path + [k], p);
      }
      DiffPathsOfChildren(a, b, path, p);
      forall k: Key | path + [k] <= p ensures path < p && p[|path|] == k {
        assert (path + [k])[|path|] == k;
      }
      if path < p {
        var k := p[|path|];
        assert path + [k] <= p;
        assert p[|path|..][0] == k && p[|path|..][1..] == p[|path| + 1..];
        if DiffersAt(a, b, p[|path|..]) {
          assert HasChild(a, k) && p in DiffPaths(Child(a, k), Child(b, k), path + [k]);
        }
      } else {
        assert path <= p ==> p[|path|..] == [];
      }
    }
  }

  lemma DiffPathsOfChildren(a: Json, b: Json, path: Path, p: Path)
    requires SameRoot(a, b) && (a.Obj? || a.Arr?)
    ensures p in DiffPaths(a, b, path) <==>
            exists k :: HasChild(a, k) && p in DiffPaths(Child(a, k), Child(b, k), path + [k])
  {
    if p in DiffPaths(a, b, path) {
      if a.Obj? {
        var name :| name in a.fields && p in DiffPaths(Child(a, Field(name)), b.fields[name], path + [Field(name)]);
        assert HasChild(a, Field(name));
      } else {
        var i: nat :| i < |a.items| && p in DiffPaths(Child(a, Index(i)), b.items[i], path + [Index(i)]);
        assert HasChild(a, Index(i));
      }
    }
  }

  /** No path is reported exactly when the trees are equal; otherwise a path is found. */
  lemma {:induction false} UnequalTreesDifferSomewhere(a: Json, b: Json) returns (q: Path)
    ensures a != b <==> DiffersAt(a, b, q)
    decreases a
  {
    q := [];
    if SameRoot(a, b) && a != b {
      var k := DifferingChild(a, b);
      var rest := UnequalTreesDifferSomewhere(Child(a, k), Child(b, k));
      q := [k] + rest;
      assert q[1..] == rest;
    } else if a == b {
      EqualTreesDifferNowhere(a, q);
    }
  }

  lemma DifferingChild(a: Json, b: Json) returns (k: Key)
    requires SameRoot(a, b) && a != b
    ensures HasChild(a, k) && HasChild(b, k) && Child(a, k) != Child(b, k)
  {
    if a.Obj? {
      var name :| name in a.fields && a.fields[name] != b.fields[name];
      k := Field(name);
    } else {
      var i: nat :| i < |a.items| && a.items[i] != b.items[i];
      k := Index(i);
    }
  }

  lemma {:induction false} EqualTreesDifferNowhere(a: Json, q: Path)
    ensures !DiffersAt(a, a, q)
  {
    if q != [] && HasChild(a, q[0]) {
      EqualTreesDifferNowhere(Child(a, q[0]), q[1..]);
    }
  }

  /** A difference is a location of both trees holding different subtrees. */
  lemma {:induction false} DifferencesAreReal(a: Json, b: Json, q: Path)
    requires DiffersAt(a, b, q)
    ensures Has(a, q) && Has(b, q) && Get(a, q) != Get(b, q)
  {
    if q != [] {
      DifferencesAreReal(Child(a, q[0]), Child(b, q[0]), q[1..]);
    }
  }

  /** The left tree with the right subtrees grafted in at the given paths. */
  function Grafted(left: Json, right: Json, at: set<Path>, path: Path): Json {
    if path in at then right
    else
      match left
      case Obj(fields) =>
        Obj(map name | name in fields ::
          if HasChild(right, Field(name)) then
            Grafted(Child(left, Field(name)), Child(right, Field(name)), at, path + [Field(name)])
          else fields[name])
      case Arr(items) =>
        Arr(seq(|items|, i requires 0 <= i < |items| =>
          if HasChild(right, Index(i)) then
            Grafted(Child(left, Index(i)), Child(right, Index(i)), at, path + [Index(i)])
          else items[i]))
      case _ => left
  }

  /** Grafting needs only the reported paths below the present one. */
  lemma {:induction false} GraftRepairs(a: Json, b: Json, at: set<Path>, path: Path)
    requires forall p :: path <= p ==> (p in at <==> p in DiffPaths(a, b, path))
    ensures Grafted(a, b, at, path) == b
    decreases a
  {
    hide DiffPaths, HasChild, Child;
    DiffPathsAreDifferences(a, b, path, path);
    assert path[|path|..] == [];
    if SameRoot(a, b) && (a.Obj? || a.Arr?) {
      forall k | HasChild(a, k)
        ensures HasChild(b, k) && Grafted(Child(a, k), Child(b, k), at, path + [k]) == Child(b, k)
      {
        SameRootKeys(a, b, k);
        DifferencesBelow(a, b, at, path, k);
        GraftRepairs(Child(a, k), Child(b, k), at, path + [k]);
      }
      GraftedRoot(a, b, at, path);
    }
  }

  lemma SameRootKeys(a: Json, b: Json, k: Key)
    requires SameRoot(a, b)
    ensures HasChild(a, k) <==> HasChild(b, k)
  {
  }

  /** The reported paths below one child are that child's differences. */
  lemma DifferencesBelow(a: Json, b: Json, at: set<Path>, path: Path, k: Key)
    requires forall p :: path <= p ==> (p in at <==> p in DiffPaths(a, b, path))
    requires SameRoot(a, b) && HasChild(a, k) && HasChild(b, k)
    ensures forall p :: path + [k] <= p ==> (p in at <==> p in DiffPaths(Child(a, k), Child(b, k), path + [k]))
  {
    hide DiffPaths, HasChild, Child, SameRoot;
    forall p | path + [k] <= p
      ensures p in at <==> p in DiffPaths(Child(a, k), Child(b, k), path + [k])
    {
      DiffPathsAreDifferences(a, b, path, p);
      DiffPathsAreDifferences(Child(a, k), Child(b, k), path + [k], p);
      assert path <= p && p[|path|] == k && p[|path|..][1..] == p[|path| + 1..];
    }
  }

  /** A root that is kept, with every child repaired, is the right tree. */
  lemma GraftedRoot(a: Json, b: Json, at: set<Path>, path: Path)
    requires path !in at && SameRoot(a, b) && (a.Obj? || a.Arr?)
    requires forall k :: HasChild(a, k) ==>
               HasChild(b, k) && Grafted(Child(a, k), Child(b, k), at, path + [k]) == Child(b, k)
    ensures Grafted(a, b, at, path) == b
  {
    if a.Obj? {
      forall name | name in a.fields ensures Grafted(a, b, at, path).fields[name] == b.fields[name] {
        assert HasChild(a, Field(name));
      }
      assert Grafted(a, b, at, path).fields == b.fields;
    } else {
      forall i: nat | i < |a.items| ensures Grafted(a, b, at, path).items[i] == b.items[i] {
        assert HasChild(a, Index(i));
      }
      assert Grafted(a, b, at, path).items == b.items;
    }
  }

  /**
   The difference is sound and complete: empty exactly for equal trees, every reported path
   locates different subtrees, and grafting the right subtrees in at those paths gives the right tree.
   */
  lemma DiffPathsSoundAndComplete(a: Json, b: Json)
    ensures DiffPaths(a, b, []) == {} <==> a == b
    ensures forall p :: p in DiffPaths(a, b, []) ==> Has(a, p) && Has(b, p) && Get(a, p) != Get(b, p)
    ensures Grafted(a, b, DiffPaths(a, b, []), []) == b
  {
    forall p: Path ensures p in DiffPaths(a, b, []) <==> DiffersAt(a, b, p) {
      DiffPathsAreDifferences(a, b, [], p);
      assert p[0..] == p;
    }
    var q := UnequalTreesDifferSomewhere(a, b);
    if a == b {
      forall p: Path ensures !DiffersAt(a, b, p) {
        EqualTreesDifferNowhere(a, p);
      }
    }
    forall p | p in DiffPaths(a, b, []) ensures Has(a, p) && Has(b, p) && Get(a, p) != Get(b, p) {
      DifferencesAreReal(a, b, p);
    }
    GraftRepairs(a, b, DiffPaths(a, b, []), []);
  }

  // ------------------------------------------------------------------
  // Rewriting strings at given locations
  // ------------------------------------------------------------------

  predicate IsText(t: Json, p: Path) {
    Has(t, p) && Get(t, p).Str?
  }

  /** The tree with exactly the strings at the locations in `at` renamed. */
  function Renamed(t: Json, at: set<Path>, f: string -> string, path: Path): Json {
    match t
    case Str(text) => if path in at then Str(f(text)) else t
    case Obj(fields) =>
      Obj(map name | name in fields :: Renamed(Child(t, Field(name)), at, f, path + [Field(name)]))
    case Arr(items) =>
      Arr(seq(|items|, i requires 0 <= i < |items| => Renamed(Child(t, Index(i)), at, f, path + [Index(i)])))
    case _ => t
  }

  lemma RenamedChild(t: Json, at: set<Path>, f: string -> string, path: Path, k: Key)
    ensures HasChild(Renamed(t, at, f, path), k) <==> HasChild(t, k)
    ensures HasChild(t, k) ==> Child(Renamed(t, at, f, path), k) == Renamed(Child(t, k), at, f, path + [k])
  {
  }

  /** Two trees with equal roots and equal children are equal. */
  lemma SameChildren(a: Json, b: Json)
    requires SameRoot(a, b)
    requires forall k :: HasChild(a, k) ==> Child(a, k) == Child(b, k)
    ensures a == b
  {
    if a.Obj? {
      forall name | name in a.fields ensures a.fields[name] == b.fields[name] {
        assert HasChild(a, Field(name));
      }
    } else if a.Arr? {
      forall i: nat | i < |a.items| ensures a.items[i] == b.items[i] {
        assert HasChild(a, Index(i));
      }
    }
  }

  /** Renaming nothing changes nothing. */
  lemma {:induction false} RenamedNowhere(t: Json, f: string -> string, path: Path)
    ensures Renamed(t, {}, f, path) == t
  {
    forall k | HasChild(t, k) ensures Child(Renamed(t, {}, f, path), k) == Child(t, k) {
      RenamedChild(t, {}, f, path, k);
      RenamedNowhere(Child(t, k), f, path + [k]);
    }
    SameChildren(Renamed(t, {}, f, path), t);
  }

  /** Renamings compose pointwise. */
  lemma {:induction false} RenamedTwice(t: Json, at: set<Path>, f: string -> string, g: string -> string,
                                       h: string -> string, path: Path)
    requires forall p :: IsText(t, p) && path + p in at ==> g(f(Get(t, p).text)) == h(Get(t, p).text)
    ensures Renamed(Renamed(t, at, f, path), at, g, path) == Renamed(t, at, h, path)
    decreases t, 1
  {
    if t.Str? {
      assert IsText(t, []) && path + [] == path;
    } else {
      RenamedTwiceInside(t, at, f, g, h, path);
    }
  }

  /** The condition on a tree, for one of its children. */
  lemma TextsOfChild(t: Json, at: set<Path>, f: string -> string, g: string -> string, h: string -> string, path: Path, k: Key)
    requires forall p :: IsText(t, p) && path + p in at ==> g(f(Get(t, p).text)) == h(Get(t, p).text)
    requires HasChild(t, k)
    ensures forall p :: IsText(Child(t, k), p) && path + [k] + p in at ==>
              g(f(Get(Child(t, k), p).text)) == h(Get(Child(t, k), p).text)
  {
    hide HasChild, Child;
    forall p | IsText(Child(t, k), p) && path + [k] + p in at
      ensures g(f(Get(Child(t, k), p).text)) == h(Get(Child(t, k), p).text)
    {
      var q := [k] + p;
      assert q[1..] == p && path + q == path + [k] + p;
      assert IsText(t, q) && Get(t, q) == Get(Child(t, k), p);
    }
  }

  lemma {:induction false} RenamedTwiceInside(t: Json, at: set<Path>, f: string -> string, g: string -> string,
                                             h: string -> string, path: Path)
    requires !t.Str?
    requires forall p :: IsText(t, p) && path + p in at ==> g(f(Get(t, p).text)) == h(Get(t, p).text)
    ensures Renamed(Renamed(t, at, f, path), at, g, path) == Renamed(t, at, h, path)
    decreases t, 0
  {
    hide Renamed, HasChild, Child, IsText, Get, SameRoot;
    var once := Renamed(t, at, f, path);
    var twice, direct := Renamed(once, at, g, path), Renamed(t, at, h, path);
    forall k ensures HasChild(twice, k) <==> HasChild(t, k)
             ensures HasChild(direct, k) <==> HasChild(t, k)
             ensures HasChild(t, k) ==> Child(twice, k) == Child(direct, k)
    {
      RenamedChild(t, at, f, path, k);
      RenamedChild(t, at, h, path, k);
      RenamedChild(once, at, g, path, k);
      if HasChild(t, k) {
        TextsOfChild(t, at, f, g, h, path, k);
        RenamedTwice(Child(t, k), at, f, g, h, path + [k]);
      }
    }
    RenamedRoot(t, at, f, path);
    RenamedRoot(t, at, h, path);
    RenamedRoot(once, at, g, path);
    SameRoots(t, once, twice, direct);
    SameChildren(twice, direct);
  }

  lemma SameRoots(t: Json, once: Json, twice: Json, direct: Json)
    requires SameRoot(t, once) && SameRoot(once, twice) && SameRoot(t, direct)
    ensures SameRoot(twice, direct)
  {
  }

  lemma RenamedRoot(t: Json, at: set<Path>, f: string -> string, path: Path)
    ensures !t.Str? ==> SameRoot(t, Renamed(t, at, f, path))
    ensures t.Str? <==> Renamed(t, at, f, path).Str?
  {
  }

  /** What a renamed tree holds at each location. */
  lemma {:induction false} RenamedGet(t: Json, at: set<Path>, f: string -> string, path: Path, q: Path)
    ensures Has(Renamed(t, at, f, path), q) <==> Has(t, q)
    ensures Has(t, q) ==> Get(Renamed(t, at, f, path), q) == Renamed(Get(t, q), at, f, path + q)
  {
    if q == [] {
      assert path + [] == path;
    } else if HasChild(t, q[0]) {
      RenamedChild(t, at, f, path, q[0]);
      RenamedGet(Child(t, q[0]), at, f, path + [q[0]], q[1..]);
      assert path + [q[0]] + q[1..] == path + q;
    } else {
      RenamedChild(t, at, f, path, q[0]);
    }
  }

  /** Renaming one more location is one more in-place update. */
  lemma {:induction false} RenamedOneMore(t: Json, at: set<Path>, f: string -> string, path: Path, q: Path)
    requires IsText(t, q) && path + q !in at
    ensures Has(Renamed(t, at, f, path), q) && Get(Renamed(t, at, f, path), q) == Get(t, q)
    ensures Put(Renamed(t, at, f, path), q, Str(f(Get(t, q).text))) == Renamed(t, at + {path + q}, f, path)
    decreases q
  {
    RenamedGet(t, at, f, path, q);
    if q == [] {
      assert path + [] == path;
    } else {
      assert path + [q[0]] + q[1..] == path + q;
      RenamedOneMore(Child(t, q[0]), at, f, path + [q[0]], q[1..]);
      PutInside(t, at, f, path, q);
    }
  }

  /** The update below one child, when it is right for that child. */
  lemma PutInside(t: Json, at: set<Path>, f: string -> string, path: Path, q: Path)
    requires q != [] && IsText(t, q) && Has(Renamed(t, at, f, path), q)
    requires path + [q[0]] + q[1..] == path + q && Has(Renamed(Child(t, q[0]), at, f, path + [q[0]]), q[1..])
    requires Put(Renamed(Child(t, q[0]), at, f, path + [q[0]]), q[1..], Str(f(Get(t, q).text))) ==
             Renamed(Child(t, q[0]), at + {path + q}, f, path + [q[0]])
    ensures Put(Renamed(t, at, f, path), q, Str(f(Get(t, q).text))) == Renamed(t, at + {path + q}, f, path)
  {
    hide Renamed, HasChild, Child, SameRoot, Put;
    var r, s := Renamed(t, at, f, path), Renamed(t, at + {path + q}, f, path);
    var v := Str(f(Get(t, q).text));
    var put := Put(r, q, v);
    forall k ensures HasChild(put, k) <==> HasChild(t, k)
             ensures HasChild(s, k) <==> HasChild(t, k)
             ensures HasChild(t, k) ==> Child(put, k) == Child(s, k)
    {
      RenamedChild(t, at, f, path, k);
      RenamedChild(t, at + {path + q}, f, path, k);
      PutChild(r, q, v, k);
      if HasChild(t, k) && k != q[0] {
        assert (path + q)[|path|] == q[0] && (path + [k])[|path|] == k;
        RenamedElsewhere(Child(t, k), at, {path + q}, f, path + [k]);
      }
    }
    RenamedRoot(t, at, f, path);
    RenamedRoot(t, at + {path + q}, f, path);
    HasChildHere(t, q);
    PutRoot(r, q, v);
    SameRoots(t, r, put, s);
    SameChildren(put, s);
  }

  lemma HasChildHere(t: Json, q: Path)
    requires q != [] && Has(t, q)
    ensures HasChild(t, q[0]) && !t.Str?
  {
  }

  lemma PutChild(t: Json, q: Path, v: Json, k: Key)
    requires q != [] && Has(t, q)
    ensures HasChild(Put(t, q, v), k) <==> HasChild(t, k)
    ensures HasChild(t, k) ==> Child(Put(t, q, v), k) == if k == q[0] then Put(Child(t, k), q[1..], v) else Child(t, k)
  {
  }

  lemma PutRoot(t: Json, q: Path, v: Json)
    requires q != [] && Has(t, q)
    ensures SameRoot(t, Put(t, q, v))
  {
  }

  /** Locations outside the subtree do not matter to it. */
  lemma {:induction false} RenamedElsewhere(t: Json, at: set<Path>, more: set<Path>, f: string -> string, path: Path)
    requires forall p :: p in more ==> !(path <= p)
    ensures Renamed(t, at + more, f, path) == Renamed(t, at, f, path)
  {
    forall k | HasChild(t, k)
      ensures Child(Renamed(t, at + more, f, path), k) == Child(Renamed(t, at, f, path), k)
    {
      RenamedChild(t, at, f, path, k);
      RenamedChild(t, at + more, f, path, k);
      forall p | p in more ensures !(path + [k] <= p) {
        assert path + [k] <= p ==> path <= p;
      }
      RenamedElsewhere(Child(t, k), at, more, f, path + [k]);
    }
    RenamedRoot(t, at, f, path);
    RenamedRoot(t, at + more, f, path);
    if !t.Str? {
      forall k | HasChild(Renamed(t, at + more, f, path), k) ensures HasChild(t, k) {
        RenamedChild(t, at + more, f, path, k);
      }
      SameChildren(Renamed(t, at + more, f, path), Renamed(t, at, f, path));
    }
  }

  /** A renaming differs from its tree exactly at the strings it really changes. */
  lemma {:induction false} RenamedDiffers(t: Json, at: set<Path>, f: string -> string, path: Path, q: Path)
    ensures DiffersAt(t, Renamed(t, at, f, path), q) <==>
              IsText(t, q) && path + q in at && f(Get(t, q).text) != Get(t, q).text
  {
    RenamedRoot(t, at, f, path);
    if q == [] {
      assert path + [] == path;
    } else if HasChild(t, q[0]) {
      RenamedChild(t, at, f, path, q[0]);
      RenamedDiffers(Child(t, q[0]), at, f, path + [q[0]], q[1..]);
      assert path + [q[0]] + q[1..] == path + q;
    }
  }
}
