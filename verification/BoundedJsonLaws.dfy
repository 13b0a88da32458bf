/** What acceptance by the budgeted builder tells a caller about the value it got. */
module BoundedJsonLaws {
  import opened BoundedJson
  import opened JsonTree
  import opened Wrappers

  // ------------------------------------------------------------------
  // The builder's path through a tree
  // ------------------------------------------------------------------

  function Under(key: Key, ps: seq<Path>): (r: seq<Path>)
    ensures |r| == |ps| && forall i :: 0 <= i < |ps| ==> r[i] == [key] + ps[i]
  {
    seq(|ps|, i requires 0 <= i < |ps| => [key] + ps[i])
  }

  /** The locations that take a node from the budget, in the order they do. */
  function Visited(r: Raw): seq<Path>
    decreases r, 1, 0
  {
    [[]] + VisitedFrom(r, 0)
  }

  function VisitedFrom(r: Raw, k: nat): seq<Path>
    requires k <= Arity(r)
    decreases r, 0, Arity(r) - k
  {
    if k == Arity(r) then [] else Under(Step(r, k), Visited(Kid(r, k))) + VisitedFrom(r, k + 1)
  }

  lemma {:induction false} VisitsSpendTheBudget(r: Raw)
    ensures |Visited(r)| == Nodes(r)
    decreases r, 1, 0
  {
    VisitsFromSpend(r, 0);
  }

  lemma {:induction false} VisitsFromSpend(r: Raw, k: nat)
    requires k <= Arity(r)
    ensures |VisitedFrom(r, k)| == NodesFrom(r, k)
    decreases r, 0, Arity(r) - k
  {
    hide Arity;
    if k < Arity(r) {
      VisitsSpendTheBudget(Kid(r, k));
      VisitsFromSpend(r, k + 1);
    }
  }

  lemma UnderHolds(key: Key, ps: seq<Path>, p: Path)
    ensures p in Under(key, ps) <==> p != [] && p[0] == key && p[1..] in ps
  {
    if p in Under(key, ps) {
      var i :| 0 <= i < |ps| && Under(key, ps)[i] == p;
      assert ([key] + ps[i])[1..] == ps[i];
    }
    if p != [] && p[0] == key && p[1..] in ps {
      var i :| 0 <= i < |ps| && ps[i] == p[1..];
      assert p == [key] + p[1..];
      assert Under(key, ps)[i] == p;
    }
  }

  lemma {:induction false} VisitedFromHolds(r: Raw, k: nat, p: Path)
    requires k <= Arity(r)
    ensures p in VisitedFrom(r, k) <==>
            p != [] && exists j: nat :: k <= j < Arity(r) && Step(r, j) == p[0] && p[1..] in Visited(Kid(r, j))
    decreases Arity(r) - k
  {
    hide Step, Kid, Visited, Under, Arity;
    if k < Arity(r) {
      UnderHolds(Step(r, k), Visited(Kid(r, k)), p);
      VisitedFromHolds(r, k + 1, p);
    }
  }

  /** Where a member of a value comes from, and that its raw tree is the member's own. */
  lemma KidOf(v: Json, r: Raw, key: Key) returns (k: nat)
    requires Represents(v, r) && HasChild(v, key)
    ensures k < Arity(r) && Step(r, k) == key && Represents(Child(v, key), Kid(r, k))
  {
    match key
    case Index(i) => k := i;
    case Field(name) =>
      assert name in KeysBefore(r.members, |r.members|);
      k :| 0 <= k < |r.members| && r.members[k].key == name;
  }

  lemma ChildOf(v: Json, r: Raw, k: nat)
    requires Represents(v, r) && k < Arity(r)
    ensures HasChild(v, Step(r, k)) && Represents(Child(v, Step(r, k)), Kid(r, k))
  {
    if r.RawObject? {
      assert r.members[k].key in KeysBefore(r.members, |r.members|);
    }
  }

  /** The budget is charged at the locations of the returned value, and nowhere else. */
  lemma {:induction false} VisitedAreTheLocations(v: Json, r: Raw, p: Path)
    requires Represents(v, r)
    ensures p in Visited(r) <==> Has(v, p)
    decreases p
  {
    hide Represents, Step, Kid, HasChild, Child, VisitedFrom, Arity;
    if p != [] {
      VisitedFromHolds(r, 0, p);
      assert p in Visited(r) <==> p in VisitedFrom(r, 0);
      if p in Visited(r) {
        var k: nat :| k < Arity(r) && Step(r, k) == p[0] && p[1..] in Visited(Kid(r, k));
        ChildOf(v, r, k);
        VisitedAreTheLocations(Child(v, p[0]), Kid(r, k), p[1..]);
      }
      if Has(v, p) {
        var k := KidOf(v, r, p[0]);
        VisitedAreTheLocations(Child(v, p[0]), Kid(r, k), p[1..]);
      }
    }
  }

  lemma DistinctUnder(key: Key, ps: seq<Path>)
    requires Distinct(ps)
    ensures Distinct(Under(key, ps))
  {
    forall i, j | 0 <= i < j < |ps| ensures Under(key, ps)[i] != Under(key, ps)[j] {
      assert ([key] + ps[i])[1..] == ps[i] && ([key] + ps[j])[1..] == ps[j];
    }
  }

  /** No location is charged twice. */
  lemma {:induction false} NoLocationTwice(r: Raw, depth: nat, lim: Limits)
    requires Admits(r, depth, lim)
    ensures Distinct(Visited(r))
    decreases r, 1, 0
  {
    hide Distinct, VisitedFrom;
    AdmitsRoot(r, depth, lim);
    NoLocationTwiceFrom(r, 0, depth + 1, lim);
    RootFirst(VisitedFrom(r, 0), r);
  }

  lemma RootFirst(ps: seq<Path>, r: Raw)
    requires Distinct(ps) && ps == VisitedFrom(r, 0)
    ensures Distinct([[]] + ps)
  {
    hide VisitedFrom, Distinct;
    VisitedFromHolds(r, 0, []);
    Singleton([]);
    DistinctConcat([[]], ps);
  }

  lemma Singleton(p: Path)
    ensures Distinct([p])
  {
  }

  lemma StepsDiffer(r: Raw, k: nat, j: nat, lim: Limits)
    requires k < j < Arity(r) && KeyAdmitted(r, j, lim)
    ensures Step(r, k) != Step(r, j)
  {
  }

  lemma {:induction false} NoLocationTwiceFrom(r: Raw, k: nat, depth: nat, lim: Limits)
    requires k <= Arity(r) && AdmitsFrom(r, k, depth, lim)
    ensures Distinct(VisitedFrom(r, k))
    decreases r, 0, Arity(r) - k
  {
    hide Admits, KeyAdmitted, Visited, Step, Kid, Under, Distinct, Arity;
    AdmitsStep(r, k, depth, lim);
    if k < Arity(r) {
      NoLocationTwice(Kid(r, k), depth, lim);
      NoLocationTwiceFrom(r, k + 1, depth, lim);
      var here, later := Under(Step(r, k), Visited(Kid(r, k))), VisitedFrom(r, k + 1);
      DistinctUnder(Step(r, k), Visited(Kid(r, k)));
      forall p | p in here ensures p !in later {
        UnderHolds(Step(r, k), Visited(Kid(r, k)), p);
        VisitedFromHolds(r, k + 1, p);
        forall j: nat | k < j < Arity(r) ensures Step(r, k) != Step(r, j) {
          StepsDiffer(r, k, j, lim);
        }
      }
      DistinctConcat(here, later);
    } else {
      NothingTwice();
    }
  }

  lemma NothingTwice()
    ensures Distinct<Path>([])
  {
  }

  /**
   The budget spent on an accepted document is the number of locations of the value
   returned: its locations can be listed without repetition in that many entries.
   */
  lemma BudgetSpentIsTheValuesSize(v: Json, r: Raw, depth: nat, lim: Limits)
    requires Admits(r, depth, lim) && Represents(v, r)
    ensures |Visited(r)| == Nodes(r) && Distinct(Visited(r))
    ensures forall p :: p in Visited(r) <==> Has(v, p)
  {
    hide Admits, Represents, Visited, Nodes, Has;
    VisitsSpendTheBudget(r);
    NoLocationTwice(r, depth, lim);
    forall p: Path ensures p in Visited(r) <==> Has(v, p) {
      VisitedAreTheLocations(v, r, p);
    }
  }

  lemma {:induction false} ListingsAgree(a: seq<Path>, b: seq<Path>)
    requires Distinct(a) && Distinct(b) && forall p :: p in a ==> p in b
    ensures |a| <= |b|
  {
    if a != [] {
      assert a[0] in a;
      var i :| 0 <= i < |b| && b[i] == a[0];
      var rest := b[..i] + b[i + 1..];
      forall p | p in a[1..] ensures p in rest {
        var u :| 0 <= u < |a[1..]| && a[1..][u] == p;
        assert a[u + 1] == p && p in a;
        var j :| 0 <= j < |b| && b[j] == p;
        assert j < i ==> rest[j] == p;
        assert j > i ==> rest[j - 1] == p;
      }
      ListingsAgree(a[1..], rest);
    }
  }

  /** Documents of the same tree, whatever the order of their members, cost the same budget. */
  lemma CostDependsOnTheTreeOnly(v: Json, r: Raw, s: Raw, depth: nat, lim: Limits)
    requires Admits(r, depth, lim) && Represents(v, r) && Admits(s, depth, lim) && Represents(v, s)
    ensures Nodes(r) == Nodes(s)
  {
    hide Admits, Represents, Visited, Nodes, Has, Distinct;
    BudgetSpentIsTheValuesSize(v, r, depth, lim);
    BudgetSpentIsTheValuesSize(v, s, depth, lim);
    ListingsAgree(Visited(r), Visited(s));
    ListingsAgree(Visited(s), Visited(r));
  }

  // ------------------------------------------------------------------
  // Bounds on the value itself
  // ------------------------------------------------------------------

  predicate WithinLimits(v: Json, lim: Limits) {
    && (v.Str? ==> Utf8Length(v.text) <= lim.maxStringBytes)
    && (v.Obj? ==> forall name :: name in v.fields ==> ValidKey(name, lim))
  }

  lemma RootWithinLimits(v: Json, r: Raw, depth: nat, lim: Limits)
    requires Admits(r, depth, lim) && Represents(v, r)
    ensures WithinLimits(v, lim)
  {
    hide ValidKey, Utf8Length;
    if v.Obj? {
      forall name | name in v.fields ensures ValidKey(name, lim) {
        var k := KidOf(v, r, Field(name));
        assert KeyAdmitted(r, k, lim);
      }
    }
  }

  /** Every location of an accepted value lies within the depth limits and meets the size limits. */
  lemma {:induction false} AcceptedValueIsBounded(v: Json, r: Raw, depth: nat, lim: Limits, p: Path)
    requires Admits(r, depth, lim) && Represents(v, r) && Has(v, p)
    ensures depth + |p| <= lim.maxDepth && WithinLimits(Get(v, p), lim)
    ensures p != [] ==> depth + |p| <= 127
    decreases p
  {
    hide Represents, WithinLimits, HasChild, Child, Step, Kid, KeyAdmitted, LeafAdmitted;
    if p == [] {
      RootWithinLimits(v, r, depth, lim);
    } else {
      var k := KidOf(v, r, p[0]);
      AcceptedValueIsBounded(Child(v, p[0]), Kid(r, k), depth + 1, lim, p[1..]);
    }
  }

  /** A raw tree stands for one value only. */
  lemma {:induction false} ValueIsUnique(v: Json, w: Json, r: Raw)
    requires Represents(v, r) && Represents(w, r)
    ensures v == w
    decreases r
  {
    if r.RawArray? {
      forall k: nat | k < |r.items| ensures v.items[k] == w.items[k] {
        ValueIsUnique(v.items[k], w.items[k], Kid(r, k));
      }
      assert v.items == w.items;
    } else if r.RawObject? {
      forall name | name in v.fields ensures v.fields[name] == w.fields[name] {
        assert name in KeysBefore(r.members, |r.members|);
        var k: nat :| k < |r.members| && r.members[k].key == name;
        ValueIsUnique(v.fields[name], w.fields[name], Kid(r, k));
      }
      assert v.fields == w.fields;
    }
  }
}
