/** The hierarchy reconciler's step, performed on the forest's own namespaces. */
module Reconciler {
  import opened Ancestry
  import opened World
  import opened Forest
  import opened Conditions
  import Hierarchy
  import LabelIndex
  import LabelSync

  /** Updates the forest from what the apiserver says of a namespace. */
  method SyncWithForest(f: Forest, nm: Name, c: Hierarchy.Config, unmanaged: set<Name>)
    returns (ns: Namespace, metadata: Hierarchy.Metadata)
    requires f.Valid() && f.world.AbsentAreRoots() && nm != ""
    modifies f, f.namespaces.Values
    ensures f.Valid() && old(f.world).Valid() && f.world == Hierarchy.Sync(old(f.world), nm, c, unmanaged)
    ensures f.Has(ns) && ns.name == nm && metadata == Hierarchy.WantedMetadata(c)
    ensures ns in old(f.namespaces.Values) || fresh(ns)
    ensures Hierarchy.SetsMetadata(c, metadata)
    ensures Hierarchy.Inv(old(f.world)) ==>
              Hierarchy.Inv(f.world) && Hierarchy.PutsUnder(c, ParentName(f.world.parents, nm))
  {
    Hierarchy.ConfigMeans(c);
    if Hierarchy.Inv(f.world) {
      Hierarchy.SyncKeeps(f.world, nm, c, unmanaged);
    }
    ns, metadata := SyncPlace(f, nm, c, unmanaged);
  }

  method SyncPlace(f: Forest, nm: Name, c: Hierarchy.Config, unmanaged: set<Name>)
    returns (ns: Namespace, metadata: Hierarchy.Metadata)
    requires f.Valid() && f.world.AbsentAreRoots() && nm != ""
    modifies f, f.namespaces.Values
    ensures f.Valid() && old(f.world).Valid() && f.world == Hierarchy.Sync(old(f.world), nm, c, unmanaged)
    ensures f.Has(ns) && ns.name == nm && metadata == Hierarchy.WantedMetadata(c)
    ensures ns in old(f.namespaces.Values) || fresh(ns)
  {
    Hierarchy.PreparedExtends(f.world, nm, c);
    var parent;
    ns, parent, metadata := Prepare(f, nm, c);
    SyncParent(f, ns, parent, Hierarchy.IsExternal(c), unmanaged);
    f.SetPresent(ns, true);
  }

  /** Clears the conditions and takes over what does not depend on the structure. */
  method Prepare(f: Forest, nm: Name, c: Hierarchy.Config)
    returns (ns: Namespace, parent: Name, metadata: Hierarchy.Metadata)
    requires f.Valid() && nm != ""
    modifies f, f.namespaces.Values
    ensures f.Valid() && f.Has(ns) && ns.name == nm
    ensures parent == Hierarchy.WantedParent(c) && metadata == Hierarchy.WantedMetadata(c)
    ensures old(f.world).Valid() && f.world == Hierarchy.Prepared(old(f.world), nm, c)
    ensures fresh(f.namespaces.Values - old(f.namespaces.Values))
  {
    ns := f.Get(nm);
    parent, metadata := PrepareKnown(f, ns, c);
  }

  method PrepareKnown(f: Forest, ns: Namespace, c: Hierarchy.Config)
    returns (parent: Name, metadata: Hierarchy.Metadata)
    requires f.Valid() && f.Has(ns)
    modifies f`world, ns
    ensures parent == Hierarchy.WantedParent(c) && metadata == Hierarchy.WantedMetadata(c)
    ensures f.Valid() && ns.name in old(f.world).data
    ensures f.world == Hierarchy.SetData(old(f.world), ns.name, old(f.world).data[ns.name].(
              conditions := Hierarchy.EarlyConditions(c), manager := Hierarchy.Manager(c), isSub := Hierarchy.IsSub(c)))
  {
    ghost var w, n := f.world, ns.name;
    assert f.MirrorsAt(n);
    ResetConditions(f, ns, c.deletingCRD);
    ghost var d := ns.Held();
    SyncExternalNamespace(f, ns, c.managedBy);
    ghost var e := ns.Held();
    parent, metadata := SyncSubnamespace(f, ns, c);
    Hierarchy.SetDataTwice(w, n, d, e);
    Hierarchy.SetDataTwice(w, n, e, ns.Held());
  }

  method ResetConditions(f: Forest, ns: Namespace, deletingCRD: bool)
    requires f.Valid() && f.Has(ns)
    modifies f`world, ns
    ensures f.Valid() && f.world == Hierarchy.SetData(old(f.world), ns.name, ns.Held())
    ensures ns.Held() == old(ns.Held()).(conditions :=
              if deletingCRD then Hierarchy.SetCondition([], ACTIVITIES_HALTED, Hierarchy.REASON_DELETING_CRD) else [])
  {
    ClearConditions(f, ns);
    if deletingCRD {
      ghost var d := ns.Held();
      SetCondition(f, ns, ACTIVITIES_HALTED, Hierarchy.REASON_DELETING_CRD);
      Hierarchy.SetDataTwice(old(f.world), ns.name, d, ns.Held());
    }
  }

  method SyncExternalNamespace(f: Forest, ns: Namespace, managedBy: string)
    requires f.Valid() && f.Has(ns)
    modifies f`world, ns
    ensures f.Valid() && f.world == Hierarchy.SetData(old(f.world), ns.name, ns.Held())
    ensures ns.Held() == old(ns.Held()).(manager := if managedBy == "" then META_GROUP else managedBy)
  {
    if managedBy == "" || managedBy == META_GROUP {
      f.Store(ns, ns.Held().(manager := META_GROUP));
    } else {
      f.Store(ns, ns.Held().(manager := managedBy));
    }
  }

  /** Takes over the subnamespace status, and returns the parent and the labels and annotations to set. */
  method SyncSubnamespace(f: Forest, ns: Namespace, c: Hierarchy.Config)
    returns (parent: Name, metadata: Hierarchy.Metadata)
    requires f.Valid() && f.Has(ns) && ns.manager == Hierarchy.Manager(c)
    modifies f`world, ns
    ensures parent == (if Hierarchy.Owned(c) then c.subnamespaceOf else c.parent) && Hierarchy.SetsMetadata(c, metadata)
    ensures parent == Hierarchy.WantedParent(c) && metadata == Hierarchy.WantedMetadata(c)
    ensures f.Valid() && f.world == Hierarchy.SetData(old(f.world), ns.name, ns.Held())
    ensures ns.Held() == old(ns.Held()).(isSub := Hierarchy.IsSub(c), conditions :=
              if Hierarchy.IsSub(c) && c.anchor.None?
              then Hierarchy.SetCondition(old(ns.conditions), BAD_CONFIGURATION, Hierarchy.REASON_ANCHOR_MISSING)
              else old(ns.conditions))
  {
    ghost var w, n := f.world, ns.name;
    parent, metadata := c.parent, c.metadata;
    if ns.Held().External() {
      f.Store(ns, ns.Held().(isSub := false));
      return;
    }
    var pnm := c.subnamespaceOf;
    if pnm != "" && c.deleting {
      pnm := "";
    }
    f.Store(ns, ns.Held().(isSub := pnm != ""));
    if pnm == "" {
      return;
    }
    parent := pnm;
    if c.anchor.Some? {
      metadata := c.anchor.value;
    } else {
      ghost var d := ns.Held();
      SetCondition(f, ns, BAD_CONFIGURATION, Hierarchy.REASON_ANCHOR_MISSING);
      Hierarchy.SetDataTwice(w, n, d, ns.Held());
    }
  }

  /** Moves the namespace under the parent it is configured with, and halts it if it is on a cycle. */
  method SyncParent(f: Forest, ns: Namespace, parent: Name, external: bool, unmanaged: set<Name>)
    requires f.Valid() && f.Has(ns) && f.world.AbsentAreRoots()
    modifies f, f.namespaces.Values
    ensures f.Valid() && f.Has(ns) && old(f.world).Valid() && ns.name in old(f.world).names
    ensures f.world == Hierarchy.ParentSynced(old(f.world), ns.name, parent, external, unmanaged)
  {
    Hierarchy.ParentKnownExtends(f.world, ns.name, parent, external, unmanaged);
    var p: Namespace? := null;
    if !external {
      p := LookUpParent(f, ns, parent, unmanaged);
    }
    Place(f, ns, p, external);
  }

  method Place(f: Forest, ns: Namespace, p: Namespace?, always: bool)
    requires f.Valid() && f.Has(ns) && (p != null ==> f.Has(p)) && f.world.AbsentAreRoots() && (always ==> p == null)
    modifies f, f.namespaces.Values
    ensures f.Valid() && f.Has(ns)
    ensures old(f.world).Valid() && ns.name in old(f.world).names && (p != null ==> p.name in old(f.world).names)
    ensures Hierarchy.Placed(old(f.world), f.world, ns.name, NameOf(p), always)
  {
    Reparent(f, ns, p, always);
    SetCycleCondition(f, ns);
  }

  method LookUpParent(f: Forest, ns: Namespace, parent: Name, unmanaged: set<Name>) returns (p: Namespace?)
    requires f.Valid() && f.Has(ns)
    modifies f, ns
    ensures f.Valid() && f.Has(ns) && NameOf(p) == Hierarchy.Optional(parent) && (p != null ==> f.Has(p))
    ensures old(f.world).Valid() && ns.name in old(f.world).names
    ensures f.world == Hierarchy.LookedUp(old(f.world), ns.name, parent, unmanaged)
    ensures fresh(f.namespaces.Values - old(f.namespaces.Values))
  {
    assert f.world.Valid() && f.MirrorsAt(ns.name);
    p := f.Get(parent);
    CheckFound(f, ns, parent, p, unmanaged);
  }

  /** Halts the namespace if its parent is unmanaged or not there. */
  method CheckFound(f: Forest, ns: Namespace, parent: Name, p: Namespace?, unmanaged: set<Name>)
    requires f.Valid() && f.Has(ns) && NameOf(p) == Hierarchy.Optional(parent) && (p != null ==> f.Has(p))
    modifies f`world, ns
    ensures f.Valid() && ns.name in old(f.world).data
    ensures var d := old(f.world).data[ns.name];
            var cs := Hierarchy.ParentConditions(d.conditions, parent, unmanaged, old(f.world).present);
            f.world == Hierarchy.SetData(old(f.world), ns.name, d.(conditions := cs))
  {
    assert f.MirrorsAt(ns.name);
    if p != null { assert f.MirrorsAt(p.name); }
    if parent != "" && parent in unmanaged {
      SetCondition(f, ns, ACTIVITIES_HALTED, Hierarchy.REASON_ILLEGAL_PARENT);
    } else if p != null && !p.present {
      SetCondition(f, ns, ACTIVITIES_HALTED, Hierarchy.REASON_PARENT_MISSING);
    } else {
      Hierarchy.SetDataSame(f.world, ns.name);
    }
  }

  method Reparent(f: Forest, ns: Namespace, p: Namespace?, always: bool)
    requires f.Valid() && f.Has(ns) && (p != null ==> f.Has(p)) && f.world.AbsentAreRoots() && (always ==> p == null)
    modifies f, f.namespaces.Values
    ensures f.Valid() && f.Has(ns) && f.namespaces.Values <= old(f.namespaces.Values)
    ensures old(f.world).Valid() && ns.name in old(f.world).names && (p != null ==> p.name in old(f.world).names)
    ensures f.world == Hierarchy.Reparented(old(f.world), ns.name, NameOf(p), always)
  {
    assert f.LinkedAt(ns.name);
    if p != null { assert f.LinkedAt(p.name); }
    if ns.name in f.world.parents { assert f.LinkedAt(f.world.parents[ns.name]); }
    if !always && p == ns.parent {
      return;
    }
    Hierarchy.MovableIfDifferent(f.world, ns.name, NameOf(p));
    f.SetParent(ns, p);
  }

  method SetCycleCondition(f: Forest, ns: Namespace)
    requires f.Valid() && f.Has(ns)
    modifies f`world, ns
    ensures f.Valid() && old(f.world).Valid() && ns.name in old(f.world).names
    ensures f.world == Hierarchy.CycleChecked(old(f.world), ns.name)
  {
    assert f.MirrorsAt(ns.name);
    var cycle := f.CycleNames(ns);
    if cycle == [] {
      Hierarchy.SetDataSame(f.world, ns.name);
      return;
    }
    SetCondition(f, ns, ACTIVITIES_HALTED, Hierarchy.REASON_IN_CYCLE);
  }

  /** v is w with the managed labels of n recorded from those of its configuration, and its labels made from
      inst. */
  ghost predicate Labelled(w: World, v: World, n: Name, spec: Pairs, inst: Labels, labels: Labels,
                           isManaged: string -> bool) {
    && w.Valid() && n in w.names
    && var x := Hierarchy.SetData(w, n, LabelSync.Recorded(w.data[n], n, spec, inst, isManaged));
       LabelSync.MadeFrom(x, n, inst, isManaged, labels) && v == Hierarchy.SetData(x, n, x.data[n].(labels := labels))
  }

  method Label(f: Forest, ns: Namespace, spec: Pairs, inst: Labels, isManaged: string -> bool) returns (labels: Labels)
    requires f.Valid() && f.Has(ns) && Hierarchy.Inv(f.world)
    modifies f`world, ns
    ensures f.Valid() && Hierarchy.Inv(f.world) && f.world.present == old(f.world).present
    ensures Labelled(old(f.world), f.world, ns.name, spec, inst, labels, isManaged)
    ensures !f.world.data[ns.name].External() ==> LabelIndex.LabelSynced(f.world, ns.name, isManaged)
  {
    ghost var v, k;
    labels, v, k := LabelSync.SyncLabels(f, ns, spec, inst, isManaged);
    Hierarchy.StillHalted(v, ns.name, v.data[ns.name].(labels := labels));
  }

  /** The whole sync of a namespace: its place, then its labels. */
  method SyncNamespace(f: Forest, nm: Name, c: Hierarchy.Config, unmanaged: set<Name>, inst: Labels,
                       isManaged: string -> bool) returns (labels: Labels, ghost w: World, ghost spec: Pairs)
    requires f.Valid() && Hierarchy.Inv(f.world) && nm != ""
    modifies f, f.namespaces.Values
    ensures f.Valid() && Hierarchy.Inv(f.world) && nm in f.world.names && nm in f.world.present
    ensures !f.world.data[nm].External() ==> LabelIndex.LabelSynced(f.world, nm, isManaged)
    ensures old(f.world).Valid() && w == Hierarchy.Sync(old(f.world), nm, c, unmanaged)
    ensures f.world.parents == w.parents && f.world.data[nm].labels == labels
    ensures Hierarchy.PutsUnder(c, ParentName(f.world.parents, nm))
    ensures spec == (if Hierarchy.Owned(c) && c.anchor.Some? then c.anchor.value else c.metadata).labels
    ensures Labelled(w, f.world, nm, spec, inst, labels, isManaged)
  {
    Hierarchy.SyncKeeps(f.world, nm, c, unmanaged);
    var ns, metadata := SyncWithForest(f, nm, c, unmanaged);
    w, spec := f.world, metadata.labels;
    labels := Label(f, ns, metadata.labels, inst, isManaged);
  }

  /** Marks a namespace as gone: it has no parent any more, and is forgotten unless it has children. */
  method UnsetExists(f: Forest, ns: Namespace) returns (changed: bool)
    requires f.Valid() && f.Has(ns) && f.world.AbsentAreRoots()
    modifies f, f.namespaces.Values
    ensures f.Valid() && old(f.world).Valid() && ns.name in old(f.world).names
    ensures f.world == Hierarchy.Unset(old(f.world), ns.name)
    ensures changed <==> ns.name in old(f.world).present
  {
    assert f.MirrorsAt(ns.name);
    changed := ns.present;
    Hierarchy.MovableIfDifferent(f.world, ns.name, None);
    Hierarchy.SetParentRestructures(f.world, ns.name, None);
    f.SetParent(ns, null);
    Retire(f, ns);
  }

  method Retire(f: Forest, ns: Namespace)
    requires f.Valid() && f.Has(ns) && ns.name !in f.world.parents
    modifies f, ns`present
    ensures f.Valid() && f.world == Hierarchy.Retired(old(f.world), ns.name)
  {
    assert f.LinkedAt(ns.name);
    f.SetPresent(ns, false);
    f.Clean(ns);
  }

  /** What a sync does when the apiserver has no such namespace. */
  method OnMissingNamespace(f: Forest, nm: Name)
    requires f.Valid() && f.world.AbsentAreRoots() && nm != ""
    modifies f, f.namespaces.Values
    ensures f.Valid() && old(f.world).Valid() && f.world == Hierarchy.Gone(old(f.world), nm)
    ensures Hierarchy.Inv(old(f.world)) ==> Hierarchy.Inv(f.world)
  {
    if Hierarchy.Inv(f.world) {
      Hierarchy.GoneKeeps(f.world, nm);
    }
    Hierarchy.KnownExtends(f.world, nm, nm);
    var ns := f.Get(nm);
    assert f.MirrorsAt(nm);
    if ns.present {
      var changed := UnsetExists(f, ns);
    }
  }
}
