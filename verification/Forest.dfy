/** The in-memory forest: namespaces that refer to each other, and the map that names them. */
module Forest {
  import opened Ancestry
  import opened NameOrder
  import opened Structure
  import opened Resources
  import opened World
  import Quota
  import Moves
  import Ledger
  import opened LimitLists

  class Namespace {
    const name: Name
    var parent: Namespace?
    var children: map<Name, Namespace>
    var present: bool
    var conditions: seq<Condition>
    var manager: string
    var isSub: bool
    var cascading: bool
    var labels: map<string, string>
    var managed: map<string, string>
    var limits: map<string, ResourceList>
    var local: ResourceList
    var subtree: ResourceList
    var sources: map<string, Object>

    constructor (nm: Name)
      ensures name == nm && parent == null && children == map[] && !present && Held() == NEW_DATA
      ensures conditions == [] && manager == "" && !isSub && !cascading
      ensures labels == map[] && managed == map[] && sources == map[]
      ensures limits == map[] && local == map[] && subtree == map[]
    {
      name := nm;
      parent, children, present, conditions := null, map[], false, [];
      manager, isSub, cascading, labels, managed := "", false, false, map[], map[];
      limits, local, subtree, sources := map[], map[], map[], map[];
    }

    /** What the namespace holds besides its links and its quotas. */
    function Held(): Data
      reads this
    {
      Data.Data(conditions, manager, isSub, cascading, labels, managed, sources)
    }

    /** Takes the namespace out of its parent's children. */
    method Leave()
      requires parent != null
      modifies this, parent
      ensures parent == null && old(parent).children == old(parent.children) - {name}
      ensures this != old(parent) ==> children == old(children) && old(parent).parent == old(parent.parent)
      ensures SameData(this) && SameData(old(parent))
    {
      parent.children := parent.children - {name};
      parent := null;
    }

    /** Puts the namespace among the children of p. */
    method Join(p: Namespace)
      modifies this, p
      ensures parent == p && p.children == old(p.children)[name := this]
      ensures this != p ==> children == old(children) && p.parent == old(p.parent)
      ensures SameData(this) && SameData(p)
    {
      parent := p;
      p.children := p.children[name := this];
    }

    method Hold(d: Data)
      modifies this
      ensures Held() == d
      ensures unchanged(`parent) && unchanged(`children) && unchanged(`present)
      ensures unchanged(`limits) && unchanged(`local) && unchanged(`subtree)
    {
      conditions, manager, isSub, cascading := d.conditions, d.manager, d.isSub, d.cascading;
      labels, managed, sources := d.labels, d.managed, d.sources;
    }
  }

  twostate predicate SameData(ns: Namespace)
    reads *
  {
    && ns.present == old(ns.present) && ns.Held() == old(ns.Held())
    && ns.limits == old(ns.limits) && ns.local == old(ns.local) && ns.subtree == old(ns.subtree)
  }

  ghost function NameOf(p: Namespace?): Option<Name> {
    if p == null then None else Some(p.name)
  }

  class Forest {
    var namespaces: map<Name, Namespace>

    /** The forest as a value. */
    ghost var world: World

    constructor ()
      ensures Valid() && world == EMPTY_WORLD
    {
      namespaces, world := map[], EMPTY_WORLD;
    }

    /** ns is the forest's namespace of that name. */
    ghost predicate Has(ns: Namespace)
      reads this
    {
      ns.name in namespaces && namespaces[ns.name] == ns
    }

    /** The links are right and hold what `world` says. The local variable makes the verifier prove the
        conjunction as a whole: without it, each use of `Valid()` to be proved is split into its conjuncts,
        which costs much more. `Left` and `Joined` below do the same. */
    ghost predicate Valid()
      reads this, namespaces.Values
    {
      var ok := Linked() && Mirrored();
      ok
    }

    /** Parent and child links mirror each other and lead only to the forest's own namespaces. */
    ghost predicate Linked()
      reads this, namespaces.Values
    {
      && "" !in namespaces
      && Closed(namespaces.Keys, world.parents)
      && forall n {:trigger LinkedAt(n)} | n in namespaces :: LinkedAt(n)
    }

    ghost predicate LinkedAt(n: Name)
      requires n in namespaces && Closed(namespaces.Keys, world.parents)
      reads this, namespaces.Values
    {
      var ns, p := namespaces[n], world.parents;
      && ns.name == n
      && (if n in p then ns.parent == namespaces[p[n]] && n in namespaces[p[n]].children else ns.parent == null)
      && (forall c | c in ns.children :: c in p && p[c] == n && ns.children[c] == namespaces[c])
    }

    /** The value of the forest is what its namespaces hold. */
    ghost predicate Mirrored()
      reads this, namespaces.Values
    {
      && world.Valid()
      && world.names == namespaces.Keys
      && forall n {:trigger MirrorsAt(n)} | n in namespaces :: MirrorsAt(n)
    }

    ghost predicate MirrorsAt(n: Name)
      requires world.Valid() && n in world.names && n in namespaces
      reads this, namespaces.Values
    {
      var ns := namespaces[n];
      && (n in world.present <==> ns.present) && world.data[n] == ns.Held()
      && world.limits[n] == ns.limits && world.local[n] == ns.local && world.subtree[n] == ns.subtree
    }

    lemma ChildLinks(n: Name)
      requires Linked() && n in namespaces
      ensures namespaces[n].children.Keys == Children(world.parents, n)
    {
      assert LinkedAt(n);
      forall c | c in Children(world.parents, n) ensures c in namespaces[n].children {
        assert LinkedAt(c);
      }
    }

    lemma ParentLink(ns: Namespace)
      requires Linked() && Has(ns)
      ensures ns.parent == null <==> ns.name !in world.parents
      ensures ns.parent != null ==> Has(ns.parent) && world.parents[ns.name] == ns.parent.name
    {
      assert LinkedAt(ns.name);
      if ns.name in world.parents { assert LinkedAt(world.parents[ns.name]); }
    }

    /** The namespace of that name, created if the forest does not know it; no name, no namespace. */
    method Get(nm: Name) returns (ns: Namespace?)
      requires Valid()
      modifies this
      ensures Valid()
      ensures if nm == "" then ns == null else ns != null && ns.name == nm && Has(ns)
      ensures forall m | m in old(namespaces) :: m in namespaces && namespaces[m] == old(namespaces)[m]
      ensures fresh(namespaces.Values - old(namespaces.Values))
      ensures world == Known(old(world), nm)
    {
      if nm == "" {
        return null;
      }
      if nm in namespaces {
        assert LinkedAt(nm);
        return namespaces[nm];
      }
      ns := Insert(nm);
    }

    method Insert(nm: Name) returns (ns: Namespace)
      requires Valid() && nm != "" && nm !in namespaces
      modifies this
      ensures Valid() && fresh(ns) && ns.name == nm
      ensures namespaces == old(namespaces)[nm := ns] && world == old(world).Add(nm)
    {
      AddValid(world, nm);
      ns := new Namespace(nm);
      namespaces := namespaces[nm := ns];
      world := world.Add(nm);
      InsertKeeps(nm);
    }

    /** nm has just been put into the forest, with no links. */
    twostate predicate Inserted(nm: Name)
      reads *
    {
      && nm != "" && nm !in old(namespaces) && nm in namespaces
      && namespaces == old(namespaces)[nm := namespaces[nm]]
      && namespaces[nm].name == nm && namespaces[nm].parent == null && namespaces[nm].children == map[]
      && forall n | n in old(namespaces) :: unchanged(old(namespaces)[n])
    }

    twostate lemma InsertLinks(nm: Name)
      requires old(Linked()) && Inserted(nm) && world.parents == old(world).parents && nm !in world.parents
      ensures Linked()
    {
      forall n | n in namespaces ensures LinkedAt(n) {
        if n != nm {
          assert old(LinkedAt(n));
        }
      }
    }

    twostate lemma InsertMirrors(nm: Name)
      requires old(Mirrored()) && Inserted(nm) && world.Valid() && world.names == namespaces.Keys && MirrorsAt(nm)
      requires forall n {:trigger SameAt(old(world), world, n)} | n in old(namespaces) :: SameAt(old(world), world, n)
      ensures Mirrored()
    {
      forall n | n in namespaces ensures MirrorsAt(n) {
        if n != nm {
          assert old(MirrorsAt(n)) && SameAt(old(world), world, n);
        }
      }
    }

    twostate lemma InsertKeeps(nm: Name)
      requires old(Valid()) && Inserted(nm) && nm !in old(world).names && world == old(world).Add(nm)
      requires !namespaces[nm].present && namespaces[nm].Held() == NEW_DATA
      requires namespaces[nm].limits == map[] && namespaces[nm].local == map[] && namespaces[nm].subtree == map[]
      ensures Valid()
    {
      AddValid(old(world), nm);
      InsertLinks(nm);
      InsertMirrors(nm);
    }

    lemma ParentIs(n: Name)
      requires Linked() && n in namespaces
      ensures namespaces[n].parent == null <==> n !in world.parents
      ensures n in world.parents ==> world.parents[n] in namespaces
                                     && namespaces[n].parent == namespaces[world.parents[n]]
                                     && namespaces[n].parent.name == world.parents[n]
    {
      assert LinkedAt(n);
      if n in world.parents { assert LinkedAt(world.parents[n]); }
    }

    /** The namespace and its ancestors, topmost first; the first repeated name ends the list. */
    method AncestryNames(ns: Namespace) returns (ancestors: seq<Name>)
      requires Valid() && Has(ns)
      ensures Valid() && IsAncestry(world.parents, ns.name, ancestors)
      ensures forall a | a in ancestors :: a in namespaces
    {
      ghost var p := world.parents;
      var cycleCheck := {ns.name};
      ancestors := [ns.name];
      var anc := ns.parent;
      while anc != null
        invariant forall a | a in ancestors :: a in namespaces
        invariant Climbed(p, ns.name, ancestors) && cycleCheck == Elems(ancestors)
        invariant anc == namespaces[ancestors[0]].parent
        decreases p.Keys - cycleCheck, if anc != null then 1 else 0
      {
        ParentIs(ancestors[0]);
        ClimbStep(p, ns.name, ancestors, anc.name);
        ancestors := [anc.name] + ancestors;
        if anc.name in cycleCheck {
          return;
        }
        cycleCheck := cycleCheck + {anc.name};
        ParentIs(anc.name);
        anc := anc.parent;
      }
      ParentIs(ancestors[0]);
      ClimbEnd(p, ns.name, ancestors);
    }

    /** Empty off a cycle; on one, the same list for every member, the smallest name first and last. */
    method CycleNames(ns: Namespace) returns (r: seq<Name>)
      requires Valid() && Has(ns)
      ensures r == CycleName(world.parents, ns.name)
      ensures r == [] <==> !OnCycle(world.parents, ns.name)
    {
      var ancestors := AncestryNames(ns);
      AncestryUnique(world.parents, ns.name, ancestors);
      CycleAtFront(world.parents, ns.name);
      if |ancestors| == 1 || ancestors[0] != ns.name {
        return [];
      }
      ghost var k: nat;
      r, k := RotateToLeast(ancestors[1..]);
      CycleNameOfRotation(world.parents, ns.name, k);
    }

    /** Whether p may become the parent of ns: exactly when that puts ns on no cycle. */
    method CanSetParent(ns: Namespace, p: Namespace?) returns (ok: bool)
      requires Valid() && Has(ns) && (p != null ==> Has(p))
      ensures p == null ==> ok
      ensures p != null ==> (ok <==> !OnCycle(world.parents[ns.name := p.name], ns.name))
    {
      if p == null {
        return true;
      }
      CycleAfterMove(world.parents, ns.name, p.name);
      if p == ns {
        ReachesSelf(world.parents, ns.name);
        return false;
      }
      var ancestors := AncestryNames(p);
      AncestryUnique(world.parents, p.name, ancestors);
      AncestryMembers(world.parents, p.name, ns.name);
      var found := Contains(ancestors, ns.name);
      return !found;
    }

    method ChildNames(ns: Namespace) returns (r: seq<Name>)
      requires Linked() && Has(ns)
      ensures Sorted(r) && forall c :: c in r <==> c in world.parents && world.parents[c] == ns.name
    {
      ChildLinks(ns.name);
      r := SortNames(ns.children.Keys);
      assert forall c :: c in r <==> c in Elems(r) && c in Children(world.parents, ns.name);
    }

    /** All namespaces below ns, sorted, each once, on cycles too. */
    method DescendantNames(ns: Namespace) returns (r: seq<Name>)
      requires Linked() && Has(ns)
      ensures Sorted(r) && Elems(r) == Descendants(world.parents, ns.name)
    {
      var d := PopulateDescendants(ns, {});
      ghost var p := world.parents;
      forall x | x in Descendants(p, ns.name) ensures x in d {
        var k: nat :| Steps(p, p[x], ns.name, k);
        ChildClosedHolds(p, d, ns.name, x, k);
      }
      assert d == Descendants(p, ns.name);
      r := SortNames(d);
    }

    /** Adds to the visited names everything below ns that is not reached through a visited name. */
    method PopulateDescendants(ns: Namespace, visited: set<Name>) returns (d: set<Name>)
      requires Linked() && Has(ns) && visited <= namespaces.Keys
      ensures d <= namespaces.Keys
      ensures Explored(world.parents, ns.name, visited, d) && ChildrenIn(world.parents, {ns.name}, d)
      decreases namespaces.Keys - visited
    {
      d := visited;
      ghost var p := world.parents;
      var names := ChildNames(ns);
      for i := 0 to |names|
        invariant d <= namespaces.Keys
        invariant Explored(p, ns.name, visited, d)
        invariant Elems(names[..i]) <= d
      {
        var c := names[i];
        assert c in names && c in p && LinkedAt(c);
        assert Elems(names[..i + 1]) == Elems(names[..i]) + {c};
        if c in d {
          continue;
        }
        var below := PopulateDescendants(namespaces[c], d + {c});
        assert namespaces[c].name == c;
        ExploreChild(p, ns.name, c, visited, d, below);
        d := below;
      }
      assert names[..|names|] == names;
    }

    // ----- quotas -----

    /** The limits in force in ns: for each resource limited in ns or above, the smallest limit. */
    method Limits(ns: Namespace) returns (rs: ResourceList)
      requires Valid() && Has(ns)
      ensures Valid() && Quota.IsLimits(world, ns.name, rs)
    {
      var ancestors := AncestryNames(ns);
      ghost var seen: seq<ResourceList>;
      rs, seen := LimitsOf(ancestors);
      MinIsLimits(world, ns.name, ancestors, rs, seen);
    }

    method LimitsOf(names: seq<Name>) returns (rs: ResourceList, ghost seen: seq<ResourceList>)
      requires Mirrored() && forall a | a in names :: a in namespaces
      ensures IsMinOf(rs, seen) && Gathered(world.limits, names, seen)
    {
      ghost var q := world.limits;
      rs, seen := map[], [];
      for i := 0 to |names|
        invariant IsMinOf(rs, seen) && Gathered(q, names[..i], seen)
      {
        assert MirrorsAt(names[i]);
        ghost var before := seen;
        rs, seen := MinOver(rs, namespaces[names[i]].limits, seen);
        GatherOne(q, names, i, before, seen);
      }
      assert names[..|names|] == names;
    }

    /** Whether no tracked resource that grows in ns would exceed a quota object of ns or above. */
    method CanUseResources(ns: Namespace, u: ResourceList) returns (ok: bool)
      requires Valid() && Has(ns)
      ensures ok <==> Quota.Admitted(world, ns.name, u)
    {
      var ancestors := AncestryNames(ns);
      ok := CanUseIn(ns, u, ancestors);
      AncestryUnique(world.parents, ns.name, ancestors);
    }

    method CanUseIn(ns: Namespace, u: ResourceList, names: seq<Name>) returns (ok: bool)
      requires Mirrored() && Has(ns) && forall a | a in names :: a in namespaces
      ensures ok <==> forall a | a in names :: Quota.AllowedAt(world, ns.name, u, a)
    {
      assert MirrorsAt(ns.name);
      var increases := IncreasesOf(u, ns.local);
      for i := 0 to |names|
        invariant forall j | 0 <= j < i :: Quota.AllowedAt(world, ns.name, u, names[j])
      {
        assert MirrorsAt(names[i]);
        var allowed := WithinLimits(increases, namespaces[names[i]].subtree, namespaces[names[i]].limits);
        Quota.CheckMeans(world, ns.name, u, names[i], allowed);
        if !allowed {
          return false;
        }
      }
      return true;
    }

    /** What would grow, and by how much. */
    static method IncreasesOf(u: ResourceList, local: ResourceList) returns (increases: ResourceList)
      ensures increases == Positive(Minus(u, local))
    {
      var delta := Subtract(u, local);
      increases := OmitLTEZero(delta);
    }

    /** Whether the tracked usage with the increases is within every quota object. */
    static method WithinLimits(increases: ResourceList, subtree: ResourceList, limits: map<string, ResourceList>)
      returns (allowed: bool)
      ensures var x := PlusWhereBoth(increases, subtree);
              allowed <==> forall h, r | h in limits && r in limits[h] && r in x :: x[r] <= limits[h][r]
    {
      var proposed := AddIfExists(increases, subtree);
      var nm, exceeded;
      allowed, nm, exceeded := CheckLimits(limits, proposed);
    }

    // ----- changing the data of one namespace -----

    /** Only namespace n differs from before, and not in its links. */
    twostate predicate OnlyDataChanged(n: Name)
      requires n in old(namespaces)
      reads *
    {
      && namespaces == old(namespaces) && world.names == old(world).names && world.parents == old(world).parents
      && old(namespaces)[n].parent == old(namespaces[n].parent)
      && old(namespaces)[n].children == old(namespaces[n].children)
      && forall m | m in namespaces && namespaces[m] != namespaces[n] :: unchanged(namespaces[m])
    }

    twostate lemma DataChangeLinks(n: Name)
      requires old(Linked()) && n in old(namespaces) && OnlyDataChanged(n)
      ensures Linked()
    {
      forall m | m in namespaces ensures LinkedAt(m) {
        assert old(LinkedAt(m));
        if m in world.parents { assert old(LinkedAt(world.parents[m])); }
      }
    }

    twostate lemma DataChangeMirrors(n: Name)
      requires old(Valid()) && n in old(namespaces) && OnlyDataChanged(n)
      requires SameOff(old(world), world, n) && MirrorsAt(n)
      ensures Mirrored()
    {
      forall m | m in namespaces ensures MirrorsAt(m) {
        if m != n {
          assert old(MirrorsAt(m)) && old(LinkedAt(m)) && old(LinkedAt(n)) && SameAt(old(world), world, m);
        }
      }
    }

    twostate lemma DataChange(n: Name)
      requires old(Valid()) && n in old(namespaces) && OnlyDataChanged(n)
      requires SameOff(old(world), world, n) && MirrorsAt(n)
      ensures Valid()
    {
      DataChangeLinks(n);
      DataChangeMirrors(n);
    }

    method SetLocal(ns: Namespace, x: ResourceList)
      requires Valid() && Has(ns)
      modifies ns`local, `world
      ensures Valid() && world == old(world).(local := old(world).local[ns.name := x])
    {
      assert MirrorsAt(ns.name);
      SetLocalOff(world, ns.name, x);
      ns.local := x;
      world := world.(local := world.local[ns.name := x]);
      DataChange(ns.name);
    }

    method SetSubtree(ns: Namespace, x: ResourceList)
      requires Valid() && Has(ns)
      modifies ns`subtree, `world
      ensures Valid() && world == old(world).(subtree := old(world).subtree[ns.name := x])
    {
      assert MirrorsAt(ns.name);
      SetSubtreeOff(world, ns.name, x);
      ns.subtree := x;
      world := world.(subtree := world.subtree[ns.name := x]);
      DataChange(ns.name);
    }

    /** Replaces what ns holds besides its links and its quotas. */
    method Store(ns: Namespace, d: Data)
      requires Valid() && Has(ns)
      modifies ns, `world
      ensures Valid() && world == old(world).(data := old(world).data[ns.name := d])
      ensures ns.Held() == d
    {
      assert MirrorsAt(ns.name);
      SetDataOff(world, ns.name, d);
      ns.Hold(d);
      world := world.(data := world.data[ns.name := d]);
      DataChange(ns.name);
    }

    method SetPresent(ns: Namespace, present: bool)
      requires Valid() && Has(ns)
      modifies ns`present, `world
      ensures Valid() && ns.present == present
      ensures var was := old(world).present;
              world == old(world).(present := if present then was + {ns.name} else was - {ns.name})
    {
      assert MirrorsAt(ns.name);
      SetPresentOff(world, ns.name, present);
      ns.present := present;
      world := world.(present := if present then world.present + {ns.name} else world.present - {ns.name});
      DataChange(ns.name);
    }

    method SetLimits(ns: Namespace, limits: map<string, ResourceList>)
      requires Valid() && Has(ns)
      modifies ns`limits, `world
      ensures Valid() && world == old(world).(limits := old(world).limits[ns.name := limits])
    {
      assert MirrorsAt(ns.name);
      SetLimitsOff(world, ns.name, limits);
      ns.limits := limits;
      world := world.(limits := world.limits[ns.name := limits]);
      DataChange(ns.name);
    }

    /** Stores the limits of a quota object, and says whether they differ from those stored so far;
        limits on nothing do not differ from none. */
    method UpdateLimits(ns: Namespace, nm: string, l: ResourceList) returns (changed: bool)
      requires Valid() && Has(ns)
      modifies ns`limits, `world
      ensures Valid() && old(world).Valid() && ns.name in old(world).names
      ensures changed <==> l != Quota.LimitsNamed(old(world), ns.name, nm)
      ensures world == Quota.WithLimits(old(world), ns.name, nm, l)
    {
      assert MirrorsAt(ns.name);
      var same := Equals(if nm in ns.limits then ns.limits[nm] else map[], l);
      if same {
        return false;
      }
      SetLimits(ns, ns.limits[nm := l]);
      return true;
    }

    method RemoveLimits(ns: Namespace, nm: string)
      requires Valid() && Has(ns)
      modifies ns`limits, `world
      ensures Valid() && ns.name in old(world).limits
      ensures world == old(world).(limits := old(world).limits[ns.name := old(world).limits[ns.name] - {nm}])
    {
      assert MirrorsAt(ns.name);
      SetLimits(ns, ns.limits - {nm});
    }

    // ----- usage -----

    /** Sets the usage of ns and passes the change on to ns and its ancestors. */
    method UseResources(ns: Namespace, u: ResourceList)
      requires Valid() && Has(ns)
      modifies namespaces.Values`local, namespaces.Values`subtree, `world
      ensures Valid()
      ensures world == Quota.Use(old(world), ns.name, u)
    {
      Quota.UseCases(world, ns.name, u);
      var same, delta := ChangeUsage(ns, u);
      if !same {
        PassOn(ns, delta);
      }
    }

    /** Stores the limited part of a reported usage, and says how it differs from the usage so far. */
    method ChangeUsage(ns: Namespace, u: ResourceList) returns (same: bool, delta: ResourceList)
      requires Valid() && Has(ns)
      modifies ns`local, `world
      ensures Valid() && ns.name in old(world).names
      ensures var usage := Masked(u, Quota.Limited(old(world), ns.name));
              && (same <==> usage == old(world).local[ns.name])
              && delta == Minus(usage, old(world).local[ns.name])
              && world == if same then old(world) else old(world).(local := old(world).local[ns.name := usage])
    {
      assert MirrorsAt(ns.name);
      var limits := Limits(ns);
      var usage;
      same, usage, delta := NewUsage(u, limits, ns.local);
      if !same {
        SetLocal(ns, usage);
      }
    }

    /** Adds a change of usage to ns and its ancestors. */
    method PassOn(ns: Namespace, delta: ResourceList)
      requires Valid() && Has(ns)
      modifies namespaces.Values`subtree, `world
      ensures Valid()
      ensures forall a | a in old(world).Ancestors(ns.name) :: a in old(world).names
      ensures world == Quota.Bumped(old(world), old(world).Ancestors(ns.name), delta)
    {
      var ancestors := AncestryNames(ns);
      PassOnAll(ancestors, delta);
      AncestryUnique(old(world).parents, ns.name, ancestors);
    }

    method PassOnAll(names: seq<Name>, delta: ResourceList)
      requires Valid() && forall a | a in names :: a in namespaces
      modifies namespaces.Values`subtree, `world
      ensures Valid() && old(world).Valid() && old(world).names == namespaces.Keys
      ensures world == Quota.Bumped(old(world), names, delta)
    {
      ghost var w := world;
      Quota.BumpNone(w, names, delta);
      for i := 0 to |names|
        invariant Valid() && Quota.BumpedSoFar(w, names, i, delta, world)
      {
        Quota.BumpOneMore(w, names, i, delta, world);
        PassOnTo(names[i], delta);
      }
      Quota.BumpAll(w, names, delta, world);
    }

    /** Adds a change of usage to one namespace, keeping only its limited resources. */
    method PassOnTo(a: Name, delta: ResourceList)
      requires Valid() && a in namespaces
      modifies namespaces.Values`subtree, `world
      ensures Valid()
      ensures world == Quota.BumpedAt(old(world), a, delta)
    {
      assert LinkedAt(a) && MirrorsAt(a);
      var limits := Limits(namespaces[a]);
      var subtree := NewSubtree(delta, namespaces[a].subtree, limits);
      SetSubtree(namespaces[a], subtree);
    }

    /** Uses the resources if every ancestor's limits allow it; otherwise changes nothing. */
    method TryUseResources(ns: Namespace, u: ResourceList) returns (ok: bool)
      requires Valid() && Has(ns)
      modifies namespaces.Values`local, namespaces.Values`subtree, `world
      ensures Valid()
      ensures ok <==> Quota.Admitted(old(world), ns.name, u)
      ensures world == Quota.TryUse(old(world), ns.name, u)
    {
      ok := CanUseResources(ns, u);
      if ok {
        UseResources(ns, u);
      }
    }

    // ----- rectification -----

    /** The totals of all namespaces, computed from their own usages in one pass in any order. */
    method Tally() returns (usages: Ledger.Usages)
      requires Valid()
      ensures Ledger.Tallied(usages, Quota.ListsOf(world), world.local)
    {
      ghost var ls, local := Quota.ListsOf(world), world.local;
      usages := map[];
      Ledger.TallyNone(ls);
      var todo := namespaces.Keys;
      ghost var done: Ledger.Usages := map[];
      while todo != {}
        invariant todo <= namespaces.Keys && done == map m | m in local && m !in todo :: local[m]
        invariant Ledger.Tallied(usages, ls, done)
      {
        var nm :| nm in todo;
        ghost var before := usages;
        usages := TallyOne(usages, nm);
        Ledger.TallyOneMore(before, ls, done, nm, local[nm]);
        todo, done := todo - {nm}, done[nm := local[nm]];
      }
      assert done == local;
    }

    /** Adds the usage of one namespace to it and its ancestors. */
    method TallyOne(usages: Ledger.Usages, nm: Name) returns (r: Ledger.Usages)
      requires Valid() && nm in namespaces
      ensures Valid() && nm in Quota.ListsOf(world) && nm in world.local
      ensures r == Ledger.Spread(usages, Quota.ListsOf(world)[nm], world.local[nm])
    {
      var ancestors, u := AncestryAndUsage(nm);
      r := AddToEach(usages, ancestors, u);
    }

    method AncestryAndUsage(nm: Name) returns (ancestors: seq<Name>, u: ResourceList)
      requires Valid() && nm in namespaces
      ensures Valid() && nm in Quota.ListsOf(world)
      ensures ancestors == Quota.ListsOf(world)[nm] && u == world.local[nm]
    {
      assert LinkedAt(nm) && MirrorsAt(nm);
      ancestors := AncestryNames(namespaces[nm]);
      AncestryUnique(world.parents, nm, ancestors);
      u := namespaces[nm].local;
    }

    /** Recomputes every subtree usage and reports the quota objects of those that were wrong. */
    method RectifySubtreeUsages() returns (updated: seq<(Name, string)>)
      requires Valid()
      modifies namespaces.Values`subtree, `world
      ensures Valid()
      ensures world == Quota.Rectify(old(world))
      ensures forall n, h :: (n, h) in updated <==>
                n in old(world).names && world.subtree[n] != old(world).subtree[n] && h in old(world).limits[n]
    {
      var usages := Tally();
      ghost var w := world;
      forall n | n in w.names ensures Quota.Rectify(w).subtree[n] == Masked(Ledger.At(usages, n), Quota.Limited(w, n)) {
        Quota.TallyExact(w, usages, n);
      }
      updated := RectifyAll(usages, Quota.Rectify(w).subtree);
    }

    method RectifyAll(usages: Ledger.Usages, ghost exact: Ledger.Usages) returns (updated: seq<(Name, string)>)
      requires Valid() && exact.Keys == world.names
      requires forall n | n in exact :: exact[n] == Masked(Ledger.At(usages, n), Quota.Limited(world, n))
      modifies namespaces.Values`subtree, `world
      ensures Valid() && old(world).Valid()
      ensures world == old(world).(subtree := exact)
      ensures Reported(old(world).limits, old(world).subtree, exact, {}, updated)
    {
      ghost var w := world;
      updated := [];
      var todo := namespaces.Keys;
      while todo != {}
        invariant todo <= namespaces.Keys && Valid()
        invariant world == w.(subtree := world.subtree) && Replaced(w.subtree, exact, todo, world.subtree)
        invariant Reported(w.limits, w.subtree, exact, todo, updated)
      {
        var nm :| nm in todo;
        Moves.SameLimited(w, world, nm);
        ReplaceOne(w.subtree, exact, todo, world.subtree, nm);
        var more := RectifyAt(nm, usages);
        ReportOne(w.limits, w.subtree, exact, todo, nm, updated, more);
        updated, todo := updated + more, todo - {nm};
      }
      ReplacedAll(w.subtree, exact, world.subtree);
    }

    /** Replaces the subtree usage of one namespace by its total if they differ, and lists its quota
        objects then. */
    method RectifyAt(nm: Name, usages: Ledger.Usages) returns (more: seq<(Name, string)>)
      requires Valid() && nm in namespaces
      modifies namespaces.Values`subtree, `world
      ensures Valid() && old(world).Valid() && nm in old(world).names
      ensures var actual := Masked(Ledger.At(usages, nm), Quota.Limited(old(world), nm));
              && world == old(world).(subtree := old(world).subtree[nm := actual])
              && PairsAre(more, nm, if old(world).subtree[nm] != actual then old(world).limits[nm] else map[])
    {
      assert LinkedAt(nm) && MirrorsAt(nm);
      var limits := Limits(namespaces[nm]);
      var same, actual := Compare(namespaces[nm].subtree, if nm in usages then usages[nm] else map[], limits);
      more := PairsOf(nm, if same then map[] else namespaces[nm].limits);
      if !same {
        SetSubtree(namespaces[nm], actual);
      } else {
        assert world.subtree == world.subtree[nm := actual];
      }
    }

    // ----- links -----

    /** Only the parent link of n and the children of o have changed. */
    twostate predicate OnlyLinksChanged(n: Name, new o: Name)
      requires n in old(namespaces) && o in old(namespaces)
      reads *
    {
      && namespaces == old(namespaces) && world.names == old(world).names
      && (forall m | m in namespaces && namespaces[m] != namespaces[n] && namespaces[m] != namespaces[o] ::
            unchanged(namespaces[m]))
      && SameData(namespaces[n]) && SameData(namespaces[o])
      && (namespaces[n] != namespaces[o] ==>
            namespaces[n].children == old(namespaces[n].children) && namespaces[o].parent == old(namespaces[o].parent))
    }

    twostate lemma UnlinkKeepsLinks(n: Name, new o: Name)
      requires old(Linked()) && n in old(world).parents && o == old(world).parents[n] && n in old(namespaces)
      requires OnlyLinksChanged(n, o) && world.parents == old(world).parents - {n}
      requires namespaces[n].parent == null && namespaces[o].children == old(namespaces[o].children) - {n}
      ensures Linked()
    {
      forall m | m in namespaces ensures LinkedAt(m) {
        assert old(LinkedAt(m)) && old(LinkedAt(n)) && old(LinkedAt(o));
        if m in old(world).parents { assert old(LinkedAt(world.parents[m])); }
      }
    }

    twostate lemma LinkKeepsLinks(n: Name, new o: Name)
      requires old(Linked()) && n !in old(world).parents && n in old(namespaces) && o in old(namespaces)
      requires OnlyLinksChanged(n, o) && world.parents == old(world).parents[n := o]
      requires namespaces[n].parent == namespaces[o]
      requires namespaces[o].children == old(namespaces[o].children)[n := namespaces[n]]
      ensures Linked()
    {
      forall m | m in namespaces ensures LinkedAt(m) {
        assert old(LinkedAt(m)) && old(LinkedAt(n)) && old(LinkedAt(o));
        if m in old(world).parents { assert old(LinkedAt(world.parents[m])); }
      }
    }

    twostate lemma LinkMirrors(n: Name, new o: Name, new p: Option<Name>)
      requires old(Mirrored()) && n in old(namespaces) && o in old(namespaces) && OnlyLinksChanged(n, o)
      requires (p.Some? ==> p.value in old(world).names) && world == old(world).Link(n, p)
      ensures Mirrored()
    {
      LinkOff(old(world), n, p);
      forall m | m in namespaces ensures MirrorsAt(m) {
        assert old(MirrorsAt(m)) && SameAt(old(world), world, m) && SameData(namespaces[m]);
      }
    }

    /** n has left its parent o. As in `Valid`, the local variable keeps the conjunction whole. */
    twostate predicate Left(n: Name, new o: Name)
      requires n in old(namespaces) && o in old(namespaces)
      reads *
    {
      var left := OnlyLinksChanged(n, o) && world == old(world).Link(n, None)
                  && namespaces[n].parent == null
                  && namespaces[o].children == old(namespaces[o].children) - {n};
      left
    }

    twostate lemma UnlinkKeeps(n: Name, new o: Name)
      requires old(Valid()) && n in old(world).parents && o == old(world).parents[n] && n in old(namespaces)
      requires Left(n, o)
      ensures Valid()
    {
      UnlinkKeepsLinks(n, o);
      LinkMirrors(n, o, None);
    }

    /** n has joined the children of o. As in `Valid`, the local variable keeps the conjunction whole. */
    twostate predicate Joined(n: Name, new o: Name)
      requires n in old(namespaces) && o in old(namespaces)
      reads *
    {
      var joined := OnlyLinksChanged(n, o) && world == old(world).Link(n, Some(o))
                    && namespaces[n].parent == namespaces[o]
                    && namespaces[o].children == old(namespaces[o].children)[n := namespaces[n]];
      joined
    }

    twostate lemma LinkKeeps(n: Name, new o: Name)
      requires old(Valid()) && n !in old(world).parents && n in old(namespaces) && o in old(namespaces) && Joined(n, o)
      ensures Valid()
    {
      LinkKeepsLinks(n, o);
      LinkMirrors(n, o, Some(o));
    }

    /** Removes ns from the children of its parent. */
    method Unlink(ns: Namespace)
      requires Valid() && Has(ns) && ns.parent != null
      modifies ns, ns.parent, `world
      ensures Valid() && world == old(world).Link(ns.name, None)
      ensures ns.parent == null
    {
      ParentLink(ns);
      ghost var o := ns.parent.name;
      LeaveParent(ns);
      UnlinkKeeps(ns.name, o);
    }

    method LeaveParent(ns: Namespace)
      requires Has(ns) && ns.parent != null && Has(ns.parent)
      modifies ns, ns.parent, `world
      ensures ns.parent == null && ns.name in old(namespaces) && old(ns.parent).name in old(namespaces)
      ensures Left(ns.name, old(ns.parent).name)
    {
      ns.Leave();
      world := world.Link(ns.name, None);
    }

    /** Makes ns a child of p. */
    method LinkTo(ns: Namespace, p: Namespace)
      requires Valid() && Has(ns) && Has(p) && ns.parent == null
      modifies ns, p, `world
      ensures Valid() && world == old(world).Link(ns.name, Some(p.name))
    {
      ParentLink(ns);
      JoinParent(ns, p);
      LinkKeeps(ns.name, p.name);
    }

    method JoinParent(ns: Namespace, p: Namespace)
      requires Has(ns) && Has(p)
      modifies ns, p, `world
      ensures ns.name in old(namespaces) && p.name in old(namespaces) && Joined(ns.name, p.name)
    {
      ns.Join(p);
      world := world.Link(ns.name, Some(p.name));
    }

    twostate lemma CleanKeeps(o: Name)
      requires old(Valid()) && o in old(namespaces) && namespaces == old(namespaces) - {o}
      requires forall m | m in namespaces :: unchanged(namespaces[m])
      requires Moves.Alone(old(world).parents, o) && world == old(world).Forget({o})
      ensures Valid()
    {
      ForgetOff(old(world), o);
      forall m | m in namespaces ensures LinkedAt(m) {
        assert old(LinkedAt(m));
      }
      forall m | m in namespaces ensures MirrorsAt(m) {
        assert old(MirrorsAt(m)) && SameAt(old(world), world, m);
      }
    }

    lemma AloneInForest(o: Name)
      requires Linked() && o in namespaces && namespaces[o].parent == null && namespaces[o].children == map[]
      ensures Moves.Alone(world.parents, o)
    {
      assert LinkedAt(o);
      ChildLinks(o);
      forall m | m in world.parents ensures world.parents[m] != o {
        assert m !in Children(world.parents, o);
      }
    }

    /** Takes a namespace out of the map; the links stay right if nothing leads to or from it. */
    method Remove(ns: Namespace)
      requires Valid() && Has(ns)
      modifies `namespaces, `world
      ensures namespaces == old(namespaces) - {ns.name}
      ensures Moves.Alone(old(world).parents, ns.name) ==> Valid() && world == old(world).Forget({ns.name})
    {
      namespaces := namespaces - {ns.name};
      if Moves.Alone(world.parents, ns.name) {
        world := world.Forget({ns.name});
        CleanKeeps(ns.name);
      }
    }

    /** Removes a namespace from the forest unless it exists or has children. One that has a parent then
        stays among the children of that parent, so the links stay right exactly if it has none. */
    method Clean(ns: Namespace)
      requires Valid() && Has(ns)
      modifies `namespaces, `world
      ensures var kept := ns.name in old(world).present || Children(old(world).parents, ns.name) != {};
              && (kept ==> Valid() && namespaces == old(namespaces) && world == old(world))
              && (!kept ==> namespaces == old(namespaces) - {ns.name})
              && (!kept && ns.name !in old(world).parents ==> Valid() && world == old(world).Forget({ns.name}))
              && (!kept && ns.name in old(world).parents ==> ns.parent != null && ns.name in ns.parent.children)
    {
      assert MirrorsAt(ns.name);
      ChildLinks(ns.name);
      ParentLink(ns);
      if ns.present || |ns.children| > 0 {
        return;
      }
      if ns.parent == null {
        AloneInForest(ns.name);
      } else {
        assert LinkedAt(ns.name);
      }
      Remove(ns);
    }

    /** Moves ns under p, or makes it a root: its usage leaves the old ancestors and joins the new ones,
        and the old parent is forgotten if nothing refers to it any more. */
    method SetParent(ns: Namespace, p: Namespace?)
      requires Valid() && Has(ns) && (p != null ==> Has(p))
      requires world.AbsentAreRoots() && Moves.Movable(world, ns.name, NameOf(p))
      modifies this, namespaces.Values
      ensures Valid() && Has(ns) && (p != null ==> Has(p)) && namespaces.Values <= old(namespaces.Values)
      ensures old(world).Valid() && world == Moves.SetParent(old(world), ns.name, NameOf(p))
    {
      assert MirrorsAt(ns.name);
      var usage := ns.local;
      UseResources(ns, map[]);
      Relink(ns, p);
      UseResources(ns, usage);
    }

    /** Replaces the parent of ns, forgetting the old one if nothing refers to it any more. */
    method Relink(ns: Namespace, p: Namespace?)
      requires Valid() && Has(ns) && (p != null ==> Has(p))
      requires world.AbsentAreRoots() && Moves.Movable(world, ns.name, NameOf(p))
      modifies this, namespaces.Values
      ensures Valid() && Has(ns) && (p != null ==> Has(p)) && namespaces.Values <= old(namespaces.Values)
      ensures world == Moves.Relink(old(world), ns.name, NameOf(p))
    {
      Detach(ns);
      ghost var w := world;
      if p != null {
        LinkTo(ns, p);
      }
      Moves.RelinkInSteps(old(world), ns.name, NameOf(p));
    }

    method Detach(ns: Namespace)
      requires Valid() && Has(ns) && world.AbsentAreRoots() && ns.name !in Moves.Collected(world, ns.name)
      modifies this, namespaces.Values
      ensures Valid() && ns.parent == null && namespaces == old(namespaces) - Moves.Collected(old(world), ns.name)
      ensures world == old(world).Link(ns.name, None).Forget(Moves.Collected(old(world), ns.name))
    {
      ghost var w, n := world, ns.name;
      assert LinkedAt(n);
      if ns.parent == null {
        Moves.DetachNothing(w, n);
        return;
      }
      var o := ns.parent;
      assert LinkedAt(w.parents[n]) && MirrorsAt(w.parents[n]);
      Moves.DetachOne(w, n, o.name);
      Unlink(ns);
      Clean(o);
      assert Moves.Collected(w, n) == {} ==> namespaces == old(namespaces) - {};
    }
  }

  lemma TakeOne<T>(s: seq<T>, i: nat)
    requires i < |s|
    ensures s[..i + 1] == s[..i] + [s[i]]
  {
  }

  /** The usages with those not in todo replaced by the exact ones. */
  ghost predicate Replaced(was: Ledger.Usages, exact: Ledger.Usages, todo: set<Name>, now: Ledger.Usages) {
    && was.Keys == exact.Keys == now.Keys
    && forall n | n in was :: now[n] == if n in todo then was[n] else exact[n]
  }

  ghost predicate PairsAre(r: seq<(Name, string)>, nm: Name, quotas: map<string, ResourceList>) {
    forall n, h :: (n, h) in r <==> n == nm && h in quotas
  }

  /** The quota objects of the namespaces not in todo whose usage was not exact. */
  ghost predicate Reported(q: Quotas, was: Ledger.Usages, exact: Ledger.Usages, todo: set<Name>,
                           updated: seq<(Name, string)>)
    requires q.Keys == was.Keys == exact.Keys
  {
    forall n, h :: (n, h) in updated <==> n in was && n !in todo && was[n] != exact[n] && h in q[n]
  }

  lemma ReplaceOne(was: Ledger.Usages, exact: Ledger.Usages, todo: set<Name>, now: Ledger.Usages, nm: Name)
    requires Replaced(was, exact, todo, now) && nm in was
    ensures Replaced(was, exact, todo - {nm}, now[nm := exact[nm]])
    ensures nm in todo ==> now[nm] == was[nm]
  {
  }

  lemma ReplacedAll(was: Ledger.Usages, exact: Ledger.Usages, now: Ledger.Usages)
    requires Replaced(was, exact, {}, now)
    ensures now == exact
  {
  }

  lemma ReportOne(q: Quotas, was: Ledger.Usages, exact: Ledger.Usages, todo: set<Name>, nm: Name,
                   updated: seq<(Name, string)>, more: seq<(Name, string)>)
    requires q.Keys == was.Keys == exact.Keys && nm in todo && nm in was
    requires Reported(q, was, exact, todo, updated)
    requires PairsAre(more, nm, if was[nm] != exact[nm] then q[nm] else map[])
    ensures Reported(q, was, exact, todo - {nm}, updated + more)
  {
    var todo', updated' := todo - {nm}, updated + more;
    forall n, h ensures (n, h) in updated' <==> n in was && n !in todo' && was[n] != exact[n] && h in q[n] {
      assert (n, h) in updated' <==> (n, h) in updated || (n, h) in more;
    }
  }

  method Compare(have: ResourceList, total: ResourceList, limits: ResourceList)
    returns (same: bool, actual: ResourceList)
    ensures actual == Masked(total, limits.Keys) && (same <==> have == actual)
  {
    actual := FilterUnlimited(total, limits);
    same := Equals(have, actual);
  }

  /** Adds a usage to the entry of each name of a list in turn. */
  method AddToEach(usages: Ledger.Usages, names: seq<Name>, u: ResourceList) returns (r: Ledger.Usages)
    ensures r == Ledger.Spread(usages, names, u)
  {
    r := usages;
    for i := 0 to |names|
      invariant r == Ledger.Spread(usages, names[..i], u)
    {
      assert names[..i + 1][..i] == names[..i];
      if names[i] in r {
        var sum := Add(r[names[i]], u);
        r := r[names[i] := sum];
      } else {
        assert Plus(map[], u) == u;
        r := r[names[i] := u];
      }
    }
    assert names[..|names|] == names;
  }

  /** The quota objects of a namespace, with its name. */
  method PairsOf(nm: Name, quotas: map<string, ResourceList>) returns (r: seq<(Name, string)>)
    ensures PairsAre(r, nm, quotas)
  {
    r := [];
    var todo := quotas.Keys;
    while todo != {}
      invariant todo <= quotas.Keys
      invariant forall n, h :: (n, h) in r <==> n == nm && h in quotas && h !in todo
    {
      var h :| h in todo;
      r := r + [(nm, h)];
      todo := todo - {h};
    }
  }

  /** The part of a reported usage that is limited, and how it differs from the usage so far. */
  method NewUsage(u: ResourceList, limits: ResourceList, local: ResourceList)
    returns (same: bool, usage: ResourceList, delta: ResourceList)
    ensures usage == Masked(u, limits.Keys) && delta == Minus(usage, local)
    ensures same <==> usage == local
  {
    usage := FilterUnlimited(u, limits);
    same := Equals(local, usage);
    delta := Subtract(usage, local);
  }

  method NewSubtree(delta: ResourceList, subtree: ResourceList, limits: ResourceList) returns (r: ResourceList)
    ensures r == Masked(Plus(delta, subtree), limits.Keys)
  {
    var sum := Add(delta, subtree);
    r := FilterUnlimited(sum, limits);
  }

  /** seen holds exactly the limits of the quota objects of the namespaces in s. */
  ghost predicate Gathered(q: Quotas, s: seq<Name>, seen: seq<ResourceList>) {
    forall l :: l in seen <==> exists a :: a in s && a in q && Named(q[a], l)
  }

  lemma GatherOne(q: Quotas, s: seq<Name>, i: nat, before: seq<ResourceList>, after: seq<ResourceList>)
    requires i < |s| && Gathered(q, s[..i], before) && s[i] in q
    requires forall l :: l in after <==> l in before || Named(q[s[i]], l)
    ensures Gathered(q, s[..i + 1], after)
  {
    assert s[..i + 1] == s[..i] + [s[i]];
  }

  lemma MinIsLimits(w: World, n: Name, ancestors: seq<Name>, rs: ResourceList, seen: seq<ResourceList>)
    requires IsAncestry(w.parents, n, ancestors) && IsMinOf(rs, seen) && Gathered(w.limits, ancestors, seen)
    ensures Quota.IsLimits(w, n, rs)
  {
    AncestryUnique(w.parents, n, ancestors);
    MinIsLeast(w.limits, w.Ancestors(n), rs, seen);
  }

  lemma MinAttained(q: Quotas, s: seq<Name>, rs: ResourceList, seen: seq<ResourceList>, r: Resource)
    returns (a: Name, h: string)
    requires IsMinOf(rs, seen) && Gathered(q, s, seen) && r in rs
    ensures a in s && a in q && h in q[a] && r in q[a][h] && q[a][h][r] == rs[r]
  {
    var l :| l in seen && r in l && l[r] == rs[r];
    a :| a in s && a in q && Named(q[a], l);
    h :| h in q[a] && q[a][h] == l;
  }

  lemma MinBelow(q: Quotas, s: seq<Name>, rs: ResourceList, seen: seq<ResourceList>, a: Name, h: string, r: Resource)
    requires IsMinOf(rs, seen) && Gathered(q, s, seen)
    requires a in s && a in q && h in q[a] && r in q[a][h]
    ensures r in rs && rs[r] <= q[a][h][r]
  {
    assert Named(q[a], q[a][h]);
  }

  lemma MinKeys(q: Quotas, s: seq<Name>, rs: ResourceList, seen: seq<ResourceList>, r: Resource)
    requires IsMinOf(rs, seen) && Gathered(q, s, seen)
    ensures r in rs <==> r in Quota.LimitedBy(s, q)
  {
    if r in rs {
      var a, h := MinAttained(q, s, rs, seen, r);
      Quota.LimitedByIntro(s, q, a, h, r);
    } else if r in Quota.LimitedBy(s, q) {
      var a, h := Quota.LimitedByElim(s, q, r);
      MinBelow(q, s, rs, seen, a, h, r);
    }
  }

  lemma MinValue(q: Quotas, s: seq<Name>, rs: ResourceList, seen: seq<ResourceList>, r: Resource)
    requires IsMinOf(rs, seen) && Gathered(q, s, seen) && r in rs
    ensures Quota.Least(rs[r], Quota.ValuesBy(s, q, r))
  {
    var a, h := MinAttained(q, s, rs, seen, r);
    Quota.LimitedByIntro(s, q, a, h, r);
    forall y | y in Quota.ValuesBy(s, q, r) ensures rs[r] <= y {
      var b, k := Quota.ValuesByElim(s, q, r, y);
      MinBelow(q, s, rs, seen, b, k, r);
    }
  }

  lemma MinIsLeast(q: Quotas, s: seq<Name>, rs: ResourceList, seen: seq<ResourceList>)
    requires IsMinOf(rs, seen) && Gathered(q, s, seen)
    ensures rs.Keys == Quota.LimitedBy(s, q)
    ensures forall r | r in rs :: Quota.Least(rs[r], Quota.ValuesBy(s, q, r))
  {
    forall r ensures r in rs <==> r in Quota.LimitedBy(s, q) {
      MinKeys(q, s, rs, seen, r);
    }
    forall r | r in rs ensures Quota.Least(rs[r], Quota.ValuesBy(s, q, r)) {
      MinValue(q, s, rs, seen, r);
    }
  }

  /** The names added to the visited ones are below n, and with each its children were added. */
  ghost predicate Explored(p: Parents, n: Name, visited: set<Name>, d: set<Name>) {
    && visited <= d
    && (forall x | x in d && x !in visited :: HasAncestor(p, x, n))
    && ChildrenIn(p, d - visited, d)
  }

  lemma ExploreChild(p: Parents, n: Name, c: Name, visited: set<Name>, before: set<Name>, after: set<Name>)
    requires c in p && p[c] == n
    requires Explored(p, n, visited, before)
    requires Explored(p, c, before + {c}, after) && ChildrenIn(p, {c}, after)
    ensures Explored(p, n, visited, after) && before <= after && c in after
  {
    forall x | x in after && x !in visited ensures HasAncestor(p, x, n) {
      if x !in before { DescendantOfChild(p, n, c, x); }
    }
    forall x | x in p && p[x] in after - visited ensures x in after {
      assert p[x] in before - visited || p[x] == c || p[x] in after - (before + {c});
    }
  }

  /** Every child of a member of s is in d. */
  ghost predicate ChildrenIn(p: Parents, s: set<Name>, d: set<Name>) {
    forall c | c in p && p[c] in s :: c in d
  }

  /** Whether a list holds a name, searched from its end. */
  method Contains(names: seq<Name>, n: Name) returns (found: bool)
    ensures found <==> n in names
  {
    found := false;
    var i := |names|;
    while !found && i > 0
      invariant 0 <= i <= |names|
      invariant !found ==> n !in names[i..]
      invariant found ==> n in names
    {
      i := i - 1;
      found := names[i] == n;
    }
  }

  /** Turns a list of names to start at the smallest, which is repeated at the end. */
  method RotateToLeast(c: seq<Name>) returns (r: seq<Name>, ghost k: nat)
    requires |c| > 0
    ensures k < |c| && IsLeast(c[k], Elems(c))
    ensures r == c[k..] + c[..k] + [c[k]]
  {
    var sidx, snm := 0, c[0];
    for idx := 0 to |c|
      invariant 0 <= sidx < |c| && snm == c[sidx]
      invariant forall j | 0 <= j < idx :: c[j] == snm || Less(snm, c[j])
    {
      LessTotal(c[idx], snm);
      if Less(c[idx], snm) {
        forall j | 0 <= j < idx ensures Less(c[idx], c[j]) {
          if c[j] != snm { LessTransitive(c[idx], snm, c[j]); }
        }
        sidx, snm := idx, c[idx];
      }
    }
    k := sidx;
    r := c[sidx..] + c[..sidx] + [snm];
  }

  /** A partial ancestry list, not yet repeating. */
  ghost predicate Climbed(p: Parents, n: Name, acc: seq<Name>) {
    |acc| > 0 && acc[|acc| - 1] == n && Chained(p, acc) && Distinct(acc)
  }

  lemma ClimbEnd(p: Parents, n: Name, acc: seq<Name>)
    requires Climbed(p, n, acc) && acc[0] !in p
    ensures IsAncestry(p, n, acc)
  {
  }

  lemma ClimbStep(p: Parents, n: Name, acc: seq<Name>, a: Name)
    requires Climbed(p, n, acc) && acc[0] in p && p[acc[0]] == a
    ensures Elems([a] + acc) == Elems(acc) + {a}
    ensures a in Elems(acc) ==> IsAncestry(p, n, [a] + acc)
    ensures a !in Elems(acc) ==> Climbed(p, n, [a] + acc)
    ensures a !in Elems(acc) && a in p ==> p.Keys - Elems([a] + acc) < p.Keys - Elems(acc)
    ensures a !in Elems(acc) && a !in p ==> p.Keys - Elems([a] + acc) == p.Keys - Elems(acc)
  {
    assert ([a] + acc)[1..] == acc;
    if a !in acc {
      ClimbDecreases(p, acc);
    }
  }
}
