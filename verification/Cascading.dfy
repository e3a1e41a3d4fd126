/** Whether deleting a namespace may delete what is below it. */
module Cascading {
  import opened Ancestry
  import opened World
  import opened Forest

  /** a, k steps above n, allows it, and no namespace on the way to a is on a cycle. */
  ghost predicate AllowedBy(w: World, n: Name, a: Name, k: nat) {
    && Steps(w.parents, n, a, k) && a in w.data && w.data[a].cascading
    && forall j: nat, m | j < k && Steps(w.parents, n, m, j) :: !OnCycle(w.parents, m)
  }

  ghost predicate Allowed(w: World, n: Name) {
    exists a, k: nat :: AllowedBy(w, n, a, k)
  }

  /** Some namespace at or above n allows it. */
  ghost predicate AllowedAbove(w: World, n: Name) {
    exists a | a in w.data :: Reaches(w.parents, n, a) && w.data[a].cascading
  }

  /** c is the first namespace on a cycle that the walk up from n meets, and nothing up to and including
      it allows it, but something further round the cycle does. */
  ghost predicate CutShort(w: World, n: Name, c: Name, k: nat) {
    && Steps(w.parents, n, c, k) && OnCycle(w.parents, c) && AllowedAbove(w, c)
    && forall j: nat, m | j <= k && Steps(w.parents, n, m, j) ::
         (j < k ==> !OnCycle(w.parents, m)) && (m in w.data ==> !w.data[m].cascading)
  }

  lemma AllowedIsAbove(w: World, n: Name)
    requires Allowed(w, n)
    ensures AllowedAbove(w, n)
  {
    var a, k: nat :| AllowedBy(w, n, a, k);
    assert Reaches(w.parents, n, a);
  }

  /** The search and "any of the ancestors" disagree exactly when the search is cut short by a cycle. */
  lemma CutShortExactly(w: World, n: Name)
    requires w.Valid() && n in w.names
    ensures (AllowedAbove(w, n) && !Allowed(w, n)) <==> exists c, k: nat :: CutShort(w, n, c, k)
    ensures Allowed(w, n) ==> AllowedAbove(w, n)
  {
    if Allowed(w, n) { AllowedIsAbove(w, n); }
    if AllowedAbove(w, n) && !Allowed(w, n) {
      var a :| a in w.data && Reaches(w.parents, n, a) && w.data[a].cascading;
      var i: nat :| Steps(w.parents, n, a, i);
      var c, k := FirstOnCycle(w, n, a, i);
      assert CutShort(w, n, c, k);
    }
    if c, k: nat :| CutShort(w, n, c, k) {
      CutShortRefuses(w, n, c, k);
    }
  }

  lemma CutShortRefuses(w: World, n: Name, c: Name, k: nat)
    requires CutShort(w, n, c, k)
    ensures AllowedAbove(w, n) && !Allowed(w, n)
  {
    var a :| a in w.data && Reaches(w.parents, c, a) && w.data[a].cascading;
    assert Reaches(w.parents, n, c);
    ReachesTrans(w.parents, n, c, a);
    assert forall b, j: nat :: !AllowedBy(w, n, b, j);
  }

  /** If a allows it and the search up from n misses it, then it meets a cycle first. */
  lemma {:induction false} FirstOnCycle(w: World, n: Name, a: Name, i: nat) returns (c: Name, k: nat)
    requires w.Valid() && n in w.names && !Allowed(w, n)
    requires Steps(w.parents, n, a, i) && a in w.data && w.data[a].cascading
    ensures CutShort(w, n, c, k)
    decreases i
  {
    if w.data[n].cascading {
      AllowedHere(w, n);
    }
    if OnCycle(w.parents, n) {
      assert Reaches(w.parents, n, a);
      c, k := n, 0;
    } else {
      AllowedOneUp(w, n);
      var p := w.parents[n];
      c, k := FirstOnCycle(w, p, a, i - 1);
      k := k + 1;
      forall j: nat, m | j <= k && Steps(w.parents, n, m, j)
        ensures (j < k ==> !OnCycle(w.parents, m)) && (m in w.data ==> !w.data[m].cascading)
      {
        if j > 0 { assert Steps(w.parents, p, m, j - 1); }
      }
    }
  }

  /** So without cycles above n, any namespace at or above it can allow it. */
  lemma AllowedOffCycles(w: World, n: Name)
    requires w.Valid() && n in w.names && CycleFree(w.parents, n)
    ensures Allowed(w, n) <==> AllowedAbove(w, n)
  {
    CutShortExactly(w, n);
    forall c, k: nat | Steps(w.parents, n, c, k) ensures !OnCycle(w.parents, c) {
      assert Reaches(w.parents, n, c);
    }
  }

  /** "a" and "b" are each other's parent, and halted; only "b" allows it. */
  function TwoCycle(): World {
    var d := NEW_DATA.(conditions := [Condition(ACTIVITIES_HALTED, "InCycle")]);
    World({"a", "b"}, map["a" := "b", "b" := "a"], {"a", "b"}, map["a" := d, "b" := d.(cascading := true)],
      map["a" := map[], "b" := map[]], map["a" := map[], "b" := map[]], map["a" := map[], "b" := map[]])
  }

  /** "a" is refused what its ancestor "b" allows. */
  lemma CycleRefuses()
    ensures var w := TwoCycle(); w.Valid() && AllowedAbove(w, "a") && !Allowed(w, "a")
  {
    var w := TwoCycle();
    assert Steps(w.parents, "a", "b", 1) && Steps(w.parents, "b", "a", 1);
    assert w.data["b"].cascading && Reaches(w.parents, "a", "b");
    assert CutShort(w, "a", "a", 0);
    CutShortRefuses(w, "a", "a", 0);
  }

  lemma AllowedHere(w: World, n: Name)
    requires n in w.data && w.data[n].cascading
    ensures Allowed(w, n)
  {
    assert AllowedBy(w, n, n, 0);
  }

  lemma AllowedNoFurther(w: World, n: Name)
    requires n in w.data && !w.data[n].cascading && (n !in w.parents || OnCycle(w.parents, n))
    ensures !Allowed(w, n)
  {
    if a, k: nat :| AllowedBy(w, n, a, k) {
      assert k > 0 && Steps(w.parents, n, n, 0);
      assert false;
    }
  }

  lemma AllowedOneUp(w: World, n: Name)
    requires n in w.data && !w.data[n].cascading && n in w.parents && !OnCycle(w.parents, n)
    ensures Allowed(w, n) <==> Allowed(w, w.parents[n])
  {
    var p := w.parents[n];
    if a, k: nat :| AllowedBy(w, n, a, k) {
      forall j: nat, m | j < k - 1 && Steps(w.parents, p, m, j) ensures !OnCycle(w.parents, m) {
        assert Steps(w.parents, n, m, j + 1);
      }
      assert AllowedBy(w, p, a, k - 1);
    }
    if a, k: nat :| AllowedBy(w, p, a, k) {
      forall j: nat, m | j < k + 1 && Steps(w.parents, n, m, j) ensures !OnCycle(w.parents, m) {
        if j > 0 { assert Steps(w.parents, p, m, j - 1); }
      }
      assert AllowedBy(w, n, a, k + 1);
    }
  }

  /** Whether ns, or a namespace above it, allows cascading deletion; the search ends at a cycle. */
  method AllowsCascadingDeletion(f: Forest, ns: Namespace) returns (r: bool)
    requires f.Valid() && f.Has(ns)
    ensures r <==> Allowed(f.world, ns.name)
    decreases |AncestryOf(f.world.parents, ns.name)|
  {
    f.ParentLink(ns);
    assert f.MirrorsAt(ns.name);
    if ns.cascading {
      AllowedHere(f.world, ns.name);
      return true;
    }
    var stop := RootOrOnCycle(f, ns);
    if stop {
      AllowedNoFurther(f.world, ns.name);
      return false;
    }
    AllowedOneUp(f.world, ns.name);
    AncestryUp(f.world.parents, ns.name);
    r := AllowsCascadingDeletion(f, ns.parent);
  }

  method RootOrOnCycle(f: Forest, ns: Namespace) returns (r: bool)
    requires f.Valid() && f.Has(ns)
    ensures r <==> ns.name !in f.world.parents || OnCycle(f.world.parents, ns.name)
  {
    f.ParentLink(ns);
    if ns.parent == null {
      return true;
    }
    var cycle := f.CycleNames(ns);
    return cycle != [];
  }
}
