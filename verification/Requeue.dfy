/** Reconciling a namespace on the forest's own namespaces, with what that queues. */
module Requeue {
  import opened Ancestry
  import opened Structure
  import opened World
  import opened Forest
  import opened Convergence
  import Conditions
  import Hierarchy
  import Reconciler

  /** What a reconciliation looks at to decide what to queue. */
  datatype View = View(
    external: bool,
    halted: bool,
    present: bool,
    parent: set<Name>,
    children: set<Name>,
    cycle: set<Name>,
    below: set<Name>)

  ghost function ViewOf(w: World, n: Name): View {
    var p := w.parents;
    View(WasExternal(w, n), Hierarchy.IsHalted(w, n), n in w.present,
      Above(p, n), Children(p, n), Elems(CycleName(p, n)), Descendants(p, n))
  }

  method Look(f: Forest, ns: Namespace) returns (v: View)
    requires f.Valid() && f.Has(ns)
    ensures v == ViewOf(f.world, ns.name)
  {
    assert f.MirrorsAt(ns.name);
    f.ParentLink(ns);
    var parent := if ns.parent == null then {} else {ns.parent.name};
    var children := f.ChildNames(ns);
    assert Elems(children) == Children(f.world.parents, ns.name);
    var cycle := f.CycleNames(ns);
    var below := f.DescendantNames(ns);
    var halted := Conditions.IsHalted(ns);
    v := View(ns.Held().External(), halted, ns.present, parent, Elems(children), Elems(cycle), Elems(below));
  }

  /** What a sync queues, from what it saw before and after. */
  function Noticed(before: View, after: View, external: bool): set<Name> {
    (if before.external <==> external then {} else before.below)
    + (if external then before.parent
       else if before.parent == after.parent then {}
       else before.cycle + before.parent + after.parent + after.below)
    + (if before.present then {} else after.parent + after.children)
    + (if before.halted <==> after.halted then {} else after.below)
  }

  lemma NoticedIsAffected(w: World, v: World, n: Name, c: Hierarchy.Config)
    ensures Noticed(ViewOf(w, n), ViewOf(v, n), Hierarchy.IsExternal(c)) == Affected(w, v, n, c)
  {
    SameAbove(w.parents, v.parents, n);
  }

  lemma SameAbove(p: Parents, q: Parents, n: Name)
    ensures Above(p, n) == Above(q, n) <==> ParentName(p, n) == ParentName(q, n)
  {
    if n in p { assert p[n] in Above(p, n); }
    if n in q { assert q[n] in Above(q, n); }
  }

  /** Looking a name up beforehand makes no difference. */
  lemma SeenAlike(w: World, n: Name)
    requires Hierarchy.Inv(w) && n != ""
    ensures Hierarchy.Inv(Known(w, n)) && ViewOf(Known(w, n), n) == ViewOf(w, n)
    ensures Hierarchy.Gone(Known(w, n), n) == Hierarchy.Gone(w, n)
  {
    Hierarchy.KnownKeeps(w, n);
  }

  lemma SyncedAlike(w: World, n: Name, c: Hierarchy.Config, unmanaged: set<Name>)
    requires Hierarchy.Inv(w) && n != ""
    ensures Hierarchy.Inv(Known(w, n))
    ensures Hierarchy.Sync(Known(w, n), n, c, unmanaged) == Hierarchy.Sync(w, n, c, unmanaged)
  {
    Hierarchy.KnownKeeps(w, n);
  }

  method LookUp(f: Forest, nm: Name) returns (v: View)
    requires f.Valid() && Hierarchy.Inv(f.world) && nm != ""
    modifies f
    ensures f.Valid() && f.world == Known(old(f.world), nm) && Hierarchy.Inv(f.world)
    ensures fresh(f.namespaces.Values - old(f.namespaces.Values))
    ensures v == ViewOf(old(f.world), nm)
  {
    SeenAlike(f.world, nm);
    var ns := f.Get(nm);
    v := Look(f, ns);
  }

  /** Syncs a namespace that the apiserver has, and says what to queue. */
  method SyncAndEnqueue(f: Forest, nm: Name, c: Hierarchy.Config, unmanaged: set<Name>) returns (affected: set<Name>)
    requires f.Valid() && Hierarchy.Inv(f.world) && nm != ""
    modifies f, f.namespaces.Values
    ensures f.Valid() && Hierarchy.Inv(f.world) && f.world == Hierarchy.Sync(old(f.world), nm, c, unmanaged)
    ensures affected == Affected(old(f.world), f.world, nm, c)
  {
    SyncedAlike(f.world, nm, c, unmanaged);
    var before := LookUp(f, nm);
    var synced, metadata := Reconciler.SyncWithForest(f, nm, c, unmanaged);
    var after := Look(f, synced);
    NoticedIsAffected(old(f.world), f.world, nm, c);
    affected := Noticed(before, after, Hierarchy.IsExternal(c));
  }

  /** Takes note that the apiserver does not have a namespace, and says what to queue. */
  method MissAndEnqueue(f: Forest, nm: Name) returns (affected: set<Name>)
    requires f.Valid() && Hierarchy.Inv(f.world) && nm != ""
    modifies f, f.namespaces.Values
    ensures f.Valid() && Hierarchy.Inv(f.world) && f.world == Hierarchy.Gone(old(f.world), nm)
    ensures affected == Bereft(old(f.world), nm)
  {
    SeenAlike(f.world, nm);
    var before := LookUp(f, nm);
    Reconciler.OnMissingNamespace(f, nm);
    affected := if before.present then before.parent + before.children else {};
  }

  /** One reconciliation of a queued namespace. */
  method Reconcile(f: Forest, site: Site, queue: set<Name>, nm: Name) returns (rest: set<Name>)
    requires f.Valid() && Hierarchy.Inv(f.world) && nm in queue
    modifies f, f.namespaces.Values
    ensures f.Valid() && Hierarchy.Inv(f.world) && Hierarchy.Inv(old(f.world))
    ensures State(f.world, rest) == Reconciled(site, State(old(f.world), queue), nm)
  {
    rest := queue - {nm};
    if nm == "" || nm in site.unmanaged {
      return;
    }
    var affected;
    if nm in site.configs {
      affected := SyncAndEnqueue(f, nm, site.configs[nm], site.unmanaged);
    } else {
      affected := MissAndEnqueue(f, nm);
    }
    rest := rest + affected;
  }
}
