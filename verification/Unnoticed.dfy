/** A deletion that leaves a namespace halted for a cycle that is no more, with nothing left in the queue. */
module Unnoticed {
  import opened Ancestry
  import opened Structure
  import opened World
  import opened Hierarchy
  import opened Convergence
  import Moves

  function Under(parent: Name): Config {
    Config(false, "", "", false, parent, Metadata([], []), None)
  }

  const ON_RING := NEW_DATA.(conditions := [Condition(ACTIVITIES_HALTED, REASON_IN_CYCLE)])

  /** "a" under "b" under "c" under "d" under "a", each halted for the cycle. */
  function Ring(): World {
    var none: map<string, int> := map[];
    World({"a", "b", "c", "d"}, map["a" := "b", "b" := "c", "c" := "d", "d" := "a"], {"a", "b", "c", "d"},
      map["a" := ON_RING, "b" := ON_RING, "c" := ON_RING, "d" := ON_RING],
      map["a" := map[], "b" := map[], "c" := map[], "d" := map[]],
      map["a" := none, "b" := none, "c" := none, "d" := none], map["a" := none, "b" := none, "c" := none, "d" := none])
  }

  /** The apiserver no longer has "a". */
  function WithoutA(): Site {
    Site(map["b" := Under("c"), "c" := Under("d"), "d" := Under("a")], {})
  }

  lemma RingCycle(n: Name)
    requires n in Ring().names
    ensures OnCycle(Ring().parents, n)
  {
    var p := Ring().parents;
    AncestryUnique(p, "a", ["a", "d", "c", "b", "a"]);
    CycleAtFront(p, "a");
    AncestryMembers(p, "a", n);
    CycleClosed(p, "a", n);
  }

  lemma RingInv()
    ensures Inv(Ring()) && ExternalAreRoots(Ring())
  {
    var w := Ring();
    assert ON_RING.conditions[0].tp == ACTIVITIES_HALTED;
    forall x | x in w.parents && OnCycle(w.parents, x) ensures ReachesHalted(w, x) {
      ReachesSelf(w.parents, x);
      assert IsHalted(w, x);
    }
  }

  lemma RingFresh()
    ensures Fresh(WithoutA(), State(Ring(), {"a"}))
  {
    RingInv();
    forall n | n in Concerned(WithoutA(), Ring()) && n != "a" ensures FreshAt(WithoutA(), Ring(), n) {
      RingCycle(n);
    }
  }

  /** The chain that is left once "a" is gone, with "c" and perhaps others as they were. */
  ghost predicate Broken(site: Site, w: World, others: set<Name>) {
    && Kept(site, w) && w.parents == map["b" := "c", "c" := "d", "d" := "a"] && w.present == {"b", "c", "d"}
    && w.data["c"] == ON_RING && others <= w.present && forall n | n in others :: w.data[n] == ON_RING
  }

  lemma BrokenShape(p: Parents)
    requires p == map["b" := "c", "c" := "d", "d" := "a"]
    ensures !OnCycle(p, "b") && !OnCycle(p, "c") && !OnCycle(p, "d") && Descendants(p, "b") == {}
  {
    AncestryUnique(p, "b", ["a", "d", "c", "b"]);
    RepeatIsCycle(p, "b");
    AncestryMembers(p, "b", "b");
    AncestryMembers(p, "b", "c");
    AncestryMembers(p, "b", "d");
    NothingBelow(p, "b");
  }

  lemma NothingBelow(p: Parents, n: Name)
    requires forall x | x in p :: p[x] != n
    ensures Descendants(p, n) == {}
  {
    forall x | x in p ensures !HasAncestor(p, x, n) {
      if k: nat :| Steps(p, p[x], n, k) {
        Moves.NoWayIn(p, p[x], n, k);
      }
    }
  }

  ghost predicate IsRing(w: World)
    requires w.Valid()
  {
    && w.present == {"a", "b", "c", "d"} && w.parents == map["a" := "b", "b" := "c", "c" := "d", "d" := "a"]
    && forall n | n in w.present :: w.data[n] == ON_RING
  }

  lemma RingIs()
    ensures Ring().Valid() && IsRing(Ring())
  {
  }

  lemma RingRelatives(p: Parents)
    requires p == map["a" := "b", "b" := "c", "c" := "d", "d" := "a"]
    ensures Relatives(p, "a") == {"b", "d"} && p - {"a"} == map["b" := "c", "c" := "d", "d" := "a"]
  {
    assert Children(p, "a") == {"d"};
  }

  lemma RingBroken(site: Site, w: World, v: World)
    requires Kept(site, w) && GoneTo(w, v, "a") && IsRing(w)
    ensures Broken(site, v, {"b", "d"})
  {
    GoneKept(site, w, v, "a");
    RingRelatives(w.parents);
    assert w.present - {"a"} == {"b", "c", "d"};
    forall n | n in v.present ensures v.data[n] == ON_RING {
      assert n in w.present && n != "a";
    }
  }

  /** Syncing "b" lifts its halt, with nothing below it. */
  lemma BottomFreed(site: Site, w: World, v: World)
    requires Broken(site, w, {"b", "d"}) && "b" in site.configs && site.configs["b"] == Under("c")
    requires SyncedTo(w, v, "b", site.configs["b"], site.unmanaged) && !w.data["b"].External()
    ensures Broken(site, v, {"d"}) && Affected(w, v, "b", site.configs["b"]) == {}
  {
    SyncKept(site, w, v, "b");
    BottomPlaced(site, w);
    SyncInPlace(site, w, v, "b");
    BrokenShape(w.parents);
    FreedBroken(site, w, v);
  }

  lemma BottomPlaced(site: Site, w: World)
    requires Broken(site, w, {"b", "d"}) && "b" in site.configs && site.configs["b"] == Under("c")
    requires !w.data["b"].External()
    ensures PlacedAt(site, w, "b")
  {
  }

  lemma FreedBroken(site: Site, w: World, v: World)
    requires Broken(site, w, {"b", "d"}) && Kept(site, v) && v.parents == w.parents && v.present == w.present
    requires v.data["c"] == w.data["c"] && v.data["d"] == w.data["d"]
    ensures Broken(site, v, {"d"})
  {
  }

  lemma TopPlaced(site: Site, w: World)
    requires Broken(site, w, {"d"}) && "d" in site.configs && site.configs["d"] == Under("a")
    ensures PlacedAt(site, w, "d")
  {
  }

  lemma StillBroken(site: Site, w: World, v: World)
    requires Broken(site, w, {"d"}) && Kept(site, v) && v.parents == w.parents && v.present == w.present
    requires v.data["c"] == w.data["c"]
    ensures Broken(site, v, {})
  {
  }

  /** Syncing "d" keeps it halted, now for its missing parent. */
  lemma TopStaysHalted(site: Site, w: World, v: World)
    requires Broken(site, w, {"d"}) && "d" in site.configs && site.configs["d"] == Under("a") && site.unmanaged == {}
    requires SyncedTo(w, v, "d", site.configs["d"], site.unmanaged)
    ensures Broken(site, v, {}) && Affected(w, v, "d", site.configs["d"]) == {}
  {
    SyncKept(site, w, v, "d");
    TopPlaced(site, w);
    SyncInPlace(site, w, v, "d");
    StillBroken(site, w, v);
    TopHalted(site, w, v);
  }

  lemma TopHalted(site: Site, w: World, v: World)
    requires Broken(site, w, {"d"}) && "d" in site.configs && site.configs["d"] == Under("a") && site.unmanaged == {}
    requires SyncedTo(w, v, "d", site.configs["d"], site.unmanaged)
    ensures IsHalted(w, "d") && IsHalted(v, "d")
  {
    RingHalts(w.data["d"]);
    OrphanHalted(w.present, v.data["d"], OnCycle(v.parents, "d"));
  }

  lemma OrphanHalted(present: set<Name>, d: Data, onCycle: bool)
    requires present == {"b", "c", "d"} && d.conditions == CycleConditions(Structural(Under("a"), {}, present), onCycle)
    ensures d.Halted()
  {
    MissingHalts(Under("a"), present, d, onCycle);
  }

  lemma RingHalts(d: Data)
    requires d == ON_RING
    ensures d.Halted()
  {
    assert d.conditions[0].tp == ACTIVITIES_HALTED;
  }

  lemma MissingHalts(c: Config, present: set<Name>, d: Data, onCycle: bool)
    requires !IsExternal(c) && WantedParent(c) != "" && WantedParent(c) !in present
    requires d.conditions == CycleConditions(Structural(c, {}, present), onCycle)
    ensures d.Halted()
  {
    assert Condition(ACTIVITIES_HALTED, REASON_PARENT_MISSING) in Structural(c, {}, present);
    assert onCycle ==> Condition(ACTIVITIES_HALTED, REASON_IN_CYCLE) in d.conditions;
  }

  lemma SyncStep(site: Site, s: State, t: State, n: Name)
    requires Kept(site, s.forest) && n in s.queue && n in site.configs && t == Reconciled(site, s, n)
    ensures SyncedTo(s.forest, t.forest, n, site.configs[n], site.unmanaged)
    ensures t.queue == s.queue - {n} + Affected(s.forest, t.forest, n, site.configs[n])
  {
    SyncGives(s.forest, n, site.configs[n], site.unmanaged);
  }

  lemma BothSynced(site: Site, s: State) returns (t: State)
    requires site == WithoutA() && Broken(site, s.forest, {"b", "d"}) && s.queue == {"b", "d"}
    ensures LeadsTo(site, s, ["b"] + ["d"], t) && t.queue == {} && Broken(site, t.forest, {})
  {
    var x := Reconciled(site, s, "b");
    SyncStep(site, s, x, "b");
    BottomFreed(site, s.forest, x.forest);
    assert x.queue == {"d"};
    t := Last(site, x);
    LeadsFrom(site, s, "b", ["d"], t);
  }

  lemma Last(site: Site, s: State) returns (t: State)
    requires site == WithoutA() && Broken(site, s.forest, {"d"}) && s.queue == {"d"}
    ensures LeadsTo(site, s, ["d"], t) && t.queue == {} && Broken(site, t.forest, {})
  {
    t := Reconciled(site, s, "d");
    SyncStep(site, s, t, "d");
    TopStaysHalted(site, s.forest, t.forest);
    LeadsFrom(site, s, "d", [], t);
    assert ["d"] + [] == ["d"];
  }

  lemma GoneStep(site: Site, s: State, t: State, n: Name)
    requires Kept(site, s.forest) && n in s.queue && n in s.forest.present && n !in site.configs
    requires t == Reconciled(site, s, n)
    ensures GoneTo(s.forest, t.forest, n) && t.queue == s.queue - {n} + Relatives(s.forest.parents, n)
  {
    GoneGives(s.forest, n);
  }

  lemma RingBreaks(site: Site, s: State, t: State)
    requires Kept(site, s.forest) && IsRing(s.forest) && GoneTo(s.forest, t.forest, "a")
    requires s.queue == {"a"} && t.queue == s.queue - {"a"} + Relatives(s.forest.parents, "a")
    ensures Broken(site, t.forest, {"b", "d"}) && t.queue == {"b", "d"}
  {
    RingRelatives(s.forest.parents);
    RingBroken(site, s.forest, t.forest);
  }

  lemma AllSynced(site: Site, s: State) returns (t: State)
    requires site == WithoutA() && Kept(site, s.forest) && IsRing(s.forest) && s.queue == {"a"}
    ensures LeadsTo(site, s, ["a"] + (["b"] + ["d"]), t) && t.queue == {} && Broken(site, t.forest, {})
  {
    var x := Reconciled(site, s, "a");
    GoneStep(site, s, x, "a");
    RingBreaks(site, s, x);
    t := BothSynced(site, x);
    LeadsFrom(site, s, "a", ["b"] + ["d"], t);
  }

  lemma StaleOnce(site: Site, w: World)
    requires site == WithoutA() && Broken(site, w, {})
    ensures "c" in site.configs && !FreshAt(site, w, "c") && IsHalted(w, "c") && Expected(site, w, "c") == []
  {
    BrokenShape(w.parents);
    assert w.data["c"].conditions[0].tp == ACTIVITIES_HALTED;
  }

  /** A queue can drain and leave a namespace halted for a cycle that is no more: when "a" is deleted, "b" and
      "d" are queued, and neither queues "c". */
  lemma StaysStale() returns (site: Site, s: State, t: State)
    ensures Fresh(site, s) && s == State(Ring(), {"a"}) && LeadsTo(site, s, ["a"] + (["b"] + ["d"]), t) && t.queue == {}
    ensures "c" in site.configs && !FreshAt(site, t.forest, "c")
    ensures IsHalted(t.forest, "c") && Expected(site, t.forest, "c") == []
  {
    site, s := WithoutA(), State(Ring(), {"a"});
    RingFresh();
    RingIs();
    t := AllSynced(site, s);
    StaleOnce(site, t.forest);
  }
}
