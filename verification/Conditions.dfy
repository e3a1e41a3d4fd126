/** The conditions of namespaces of a forest, and the walk to the nearest halted one. */
module Conditions {
  import opened Ancestry
  import opened World
  import opened Forest
  import Hierarchy

  /** Whether the namespace is halted for a reason of its own. */
  method IsHalted(ns: Namespace) returns (r: bool)
    ensures r <==> ns.Held().Halted()
  {
    for i := 0 to |ns.conditions|
      invariant forall j | 0 <= j < i :: ns.conditions[j].tp != ACTIVITIES_HALTED
    {
      if ns.conditions[i].tp == ACTIVITIES_HALTED {
        return true;
      }
    }
    return false;
  }

  method ClearConditions(f: Forest, ns: Namespace)
    requires f.Valid() && f.Has(ns)
    modifies f`world, ns
    ensures f.Valid() && f.world == Hierarchy.SetData(old(f.world), ns.name, ns.Held())
    ensures ns.Held() == old(ns.Held()).(conditions := [])
  {
    f.Store(ns, ns.Held().(conditions := []));
  }

  /** Sets a condition, in place of the one of its type if any; an inherited halt is never stored. */
  method SetCondition(f: Forest, ns: Namespace, tp: string, reason: string)
    requires f.Valid() && f.Has(ns)
    modifies f`world, ns
    ensures f.Valid() && f.world == Hierarchy.SetData(old(f.world), ns.name, ns.Held())
    ensures ns.Held() == old(ns.Held()).(conditions := Hierarchy.SetCondition(old(ns.conditions), tp, reason))
  {
    if reason == Hierarchy.REASON_ANCESTOR {
      assert f.MirrorsAt(ns.name);
      Hierarchy.SetDataSame(f.world, ns.name);
      return;
    }
    f.Store(ns, ns.Held().(conditions := Hierarchy.WithCondition(ns.conditions, Condition(tp, reason))));
  }

  /** r is the first halted namespace on the way up from n, k steps above it. */
  ghost predicate FirstHalted(w: World, n: Name, r: Name, k: nat) {
    && Steps(w.parents, n, r, k) && Hierarchy.IsHalted(w, r)
    && forall j: nat, m | j < k && Steps(w.parents, n, m, j) :: !Hierarchy.IsHalted(w, m)
  }

  /** r is the nearest halted namespace at or above n; no name if there is none. */
  ghost predicate IsHaltedRoot(w: World, n: Name, r: Name) {
    if r == "" then forall m | Reaches(w.parents, n, m) :: !Hierarchy.IsHalted(w, m)
    else exists k: nat :: FirstHalted(w, n, r, k)
  }

  lemma HaltedHere(w: World, n: Name)
    requires Hierarchy.IsHalted(w, n) && n != ""
    ensures IsHaltedRoot(w, n, n)
  {
    assert FirstHalted(w, n, n, 0);
  }

  lemma HaltedNowhere(w: World, n: Name)
    requires !Hierarchy.IsHalted(w, n) && n !in w.parents
    ensures IsHaltedRoot(w, n, "")
  {
    forall m | Reaches(w.parents, n, m) ensures m == n {
      ReachesCases(w.parents, n, m);
    }
  }

  lemma HaltedAbove(w: World, n: Name, r: Name)
    requires !Hierarchy.IsHalted(w, n) && n in w.parents && IsHaltedRoot(w, w.parents[n], r)
    ensures IsHaltedRoot(w, n, r)
  {
    var p := w.parents;
    if r == "" {
      forall m | Reaches(p, n, m) ensures !Hierarchy.IsHalted(w, m) {
        ReachesCases(p, n, m);
      }
    } else {
      var k: nat :| FirstHalted(w, p[n], r, k);
      assert FirstHalted(w, n, r, k + 1);
    }
  }

  /** On a cycle too there is only one nearest halted namespace. */
  lemma HaltedRootUnique(w: World, n: Name, r: Name, q: Name)
    requires IsHaltedRoot(w, n, r) && IsHaltedRoot(w, n, q)
    ensures r == q
  {
    if r != "" && q != "" {
      var j: nat :| FirstHalted(w, n, r, j);
      var k: nat :| FirstHalted(w, n, q, k);
      assert j == k;
      StepsUnique(w.parents, n, r, q, k);
    }
  }

  /** The nearest halted namespace at or above ns. The walk does not watch for cycles: it ends because
      every cycle holds a halted namespace. */
  method GetHaltedRoot(f: Forest, ns: Namespace, ghost k: nat) returns (r: Name)
    requires f.Valid() && f.Has(ns) && Hierarchy.Stops(f.world.parents, Hierarchy.Halts(f.world), ns.name, k)
    ensures IsHaltedRoot(f.world, ns.name, r)
    decreases k
  {
    f.ParentLink(ns);
    assert f.MirrorsAt(ns.name);
    var halted := IsHalted(ns);
    if halted {
      HaltedHere(f.world, ns.name);
      return ns.name;
    }
    if ns.parent == null {
      HaltedNowhere(f.world, ns.name);
      return "";
    }
    r := GetHaltedRoot(f, ns.parent, k - 1);
    HaltedAbove(f.world, ns.name, r);
  }

  /** In every forest that runs of the reconciler lead to, the walk ends. */
  method HaltedRootOf(f: Forest, ns: Namespace) returns (r: Name)
    requires f.Valid() && f.Has(ns) && Hierarchy.Inv(f.world)
    ensures IsHaltedRoot(f.world, ns.name, r)
  {
    ghost var k := Hierarchy.WalkStops(f.world, ns.name);
    r := GetHaltedRoot(f, ns, k);
  }
}
