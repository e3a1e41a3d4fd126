/** Cached usages over whole runs of the forest: lookups, syncs, deletions, reports and requests. */
module Accounting {
  import opened Ancestry
  import opened Resources
  import opened World
  import opened Hierarchy
  import opened Quota
  import Ledger
  import Moves

  /** Nothing at or below n but n itself uses anything. */
  ghost predicate OnlyItself(w: World, n: Name) {
    forall m | m in Moves.Below(w, n) && m != n :: Moves.Idle(w, m)
  }

  /** A step that moves a namespace finds nothing below it in use. */
  ghost predicate Quiet(w: World, e: Event) {
    match e
    case Synced(n, c, unmanaged) =>
      ParentName(w.parents, n) == NewParent(WantedParent(c), IsExternal(c)) || OnlyItself(w, n)
    case Missing(n) => n !in w.parents || OnlyItself(w, n)
    case _ => true
  }

  // ----- what does not touch the books -----

  lemma SameBooks(w: World, v: World)
    requires w.Valid() && v.Valid() && Consistent(w)
    requires v.names == w.names && v.parents == w.parents
    requires v.limits == w.limits && v.local == w.local && v.subtree == w.subtree
    ensures Consistent(v)
  {
    forall a, r | a in v.names
      ensures Val(v.subtree[a], r) == if r in Limited(v, a) then Total(v, a, r) else 0
    {
      Moves.SameLimited(w, v, a);
      assert Total(v, a, r) == Total(w, a, r);
    }
  }

  lemma AddConsistent(w: World, n: Name)
    requires w.Valid() && n !in w.names && Consistent(w)
    ensures w.Add(n).Valid() && Consistent(w.Add(n))
  {
    var v := w.Add(n);
    AddBack(w, n);
    Moves.ForgetShape(v, n);
    ConsistentBooks(w);
    ConsistentBooks(v);
    BooksProper(v);
    Ledger.AddConsistent(ListsOf(v), KeptOf(v), BooksOf(v), n);
  }

  lemma AddDrop<V>(m: map<Name, V>, n: Name, x: V)
    requires n !in m
    ensures m[n := x] - {n} == m
  {
  }

  lemma NotLinked(w: World, n: Name)
    requires w.Valid() && n !in w.names
    ensures Moves.Alone(w.parents, n) && w.parents - {n} == w.parents
  {
  }

  lemma AddBack(w: World, n: Name)
    requires w.Valid() && n !in w.names
    ensures w.Add(n).Valid() && Moves.Alone(w.Add(n).parents, n) && w.Add(n).Forget({n}) == w
  {
    AddValid(w, n);
    NotLinked(w, n);
    AddDrop(w.data, n, NEW_DATA);
    AddDrop(w.limits, n, map[]);
    AddDrop(w.local, n, map[]);
    AddDrop(w.subtree, n, map[]);
    assert w.names + {n} - {n} == w.names && w.present - {n} == w.present;
  }

  lemma KnownConsistent(w: World, n: Name)
    requires w.Valid() && Consistent(w)
    ensures Known(w, n).Valid() && Consistent(Known(w, n))
  {
    if n != "" && n !in w.names { AddConsistent(w, n); }
  }

  /** What a namespace holds besides, and whether it is synced, is not in the books. */
  lemma SetDataConsistent(w: World, n: Name, d: Data)
    requires w.Valid() && n in w.names && Consistent(w)
    ensures SetData(w, n, d).Valid() && Consistent(SetData(w, n, d))
  {
    SameBooks(w, SetData(w, n, d));
  }

  lemma PresentConsistent(w: World, present: set<Name>)
    requires w.Valid() && Consistent(w) && present <= w.names
    ensures var v := w.(present := present); v.Valid() && Consistent(v)
  {
    SameBooks(w, w.(present := present));
  }

  // ----- moves -----

  /** Setting the parent a root has, none, takes its usage out and puts it back. */
  lemma StayRootConsistent(w: World, n: Name)
    requires w.Valid() && n in w.names && n !in w.parents && Consistent(w)
    ensures Moves.Movable(w, n, None) && Consistent(Moves.SetParent(w, n, None))
  {
    var x := Use(w, n, map[]);
    UseRefines(w, n, map[]);
    Moves.DetachNothing(x, n);
    Moves.RelinkInSteps(x, n, None);
    UseRefines(x, n, w.local[n]);
  }

  lemma ReparentedConsistent(w: World, n: Name, p: Option<Name>, always: bool)
    requires w.Valid() && n in w.names && w.AbsentAreRoots() && (p.Some? ==> p.value in w.names) && (always ==> p.None?)
    requires Consistent(w) && (ParentName(w.parents, n) == p || OnlyItself(w, n))
    ensures Reparented(w, n, p, always).Valid() && Consistent(Reparented(w, n, p, always))
  {
    if ParentName(w.parents, n) != p {
      MovableIfDifferent(w, n, p);
      Moves.MoveConserves(w, n, p);
    } else if always {
      StayRootConsistent(w, n);
    }
  }

  /** Looking names up changes neither what is below n nor what it uses. */
  lemma ExtendsOnlyItself(w: World, v: World, n: Name)
    requires w.Valid() && OnlyItself(w, n) && Extends(w, v, n)
    requires forall m | m in w.names :: v.local[m] == w.local[m]
    ensures OnlyItself(v, n)
  {
    forall m | m in Moves.Below(v, n) && m != n ensures Moves.Idle(v, m) {
      ReachesCases(v.parents, m, n);
      assert m in Moves.Below(w, n) && Moves.Idle(w, m);
    }
  }

  lemma KnownLocal(w: World, n: Name)
    requires w.Valid()
    ensures forall m | m in w.names :: m in Known(w, n).local && Known(w, n).local[m] == w.local[m]
  {
  }

  lemma PreparedConsistent(w: World, n: Name, c: Config)
    requires w.Valid() && n != "" && Consistent(w)
    ensures Prepared(w, n, c).Valid() && Consistent(Prepared(w, n, c))
    ensures forall m | m in w.names :: m in Prepared(w, n, c).local && Prepared(w, n, c).local[m] == w.local[m]
  {
    var v := Known(w, n);
    KnownConsistent(w, n);
    KnownLocal(w, n);
    KnownExtends(w, n, n);
    SetDataConsistent(v, n, v.data[n].(conditions := EarlyConditions(c), manager := Manager(c), isSub := IsSub(c)));
  }

  lemma ParentKnownConsistent(w: World, n: Name, parent: Name, external: bool, unmanaged: set<Name>)
    requires w.Valid() && n in w.names && Consistent(w)
    ensures var v := WithParentKnown(w, n, parent, external, unmanaged);
            && v.Valid() && Consistent(v)
            && forall m | m in w.names :: m in v.local && v.local[m] == w.local[m]
  {
    if !external {
      var v := Known(w, parent);
      KnownConsistent(w, parent);
      KnownLocal(w, parent);
      KnownExtends(w, parent, n);
      var cs := ParentConditions(v.data[n].conditions, parent, unmanaged, v.present);
      SetDataConsistent(v, n, v.data[n].(conditions := cs));
    }
  }

  lemma ParentSyncedConsistent(w: World, n: Name, parent: Name, external: bool, unmanaged: set<Name>)
    requires w.Valid() && w.AbsentAreRoots() && n in w.names && Consistent(w)
    requires ParentName(w.parents, n) == NewParent(parent, external) || OnlyItself(w, n)
    ensures var v := ParentSynced(w, n, parent, external, unmanaged); v.Valid() && n in v.names && Consistent(v)
  {
    var v, p := WithParentKnown(w, n, parent, external, unmanaged), NewParent(parent, external);
    ParentKnownExtends(w, n, parent, external, unmanaged);
    ParentKnownConsistent(w, n, parent, external, unmanaged);
    if OnlyItself(w, n) { ExtendsOnlyItself(w, v, n); }
    AfterStructure(v, n, p, external);
    ReparentedConsistent(v, n, p, external);
    var x := Reparented(v, n, p, external);
    SetDataConsistent(x, n, CycleChecked(x, n).data[n]);
  }

  lemma SyncConsistent(w: World, n: Name, c: Config, unmanaged: set<Name>)
    requires Inv(w) && n != "" && Consistent(w) && Quiet(w, Synced(n, c, unmanaged))
    ensures Sync(w, n, c, unmanaged).Valid() && Consistent(Sync(w, n, c, unmanaged))
  {
    var x := Prepared(w, n, c);
    PreparedExtends(w, n, c);
    PreparedConsistent(w, n, c);
    if OnlyItself(w, n) { ExtendsOnlyItself(w, x, n); }
    ParentSyncedConsistent(x, n, WantedParent(c), IsExternal(c), unmanaged);
    var v := ParentSynced(x, n, WantedParent(c), IsExternal(c), unmanaged);
    PresentConsistent(v, v.present + {n});
  }

  // ----- deletions -----

  lemma UnsetConsistent(w: World, n: Name)
    requires w.Valid() && n in w.names && w.AbsentAreRoots() && Consistent(w) && (n !in w.parents || OnlyItself(w, n))
    ensures Unset(w, n).Valid() && Consistent(Unset(w, n))
  {
    MovableIfDifferent(w, n, None);
    SetParentRestructures(w, n, None);
    if n in w.parents { Moves.MoveConserves(w, n, None); } else { StayRootConsistent(w, n); }
    var v := Moves.SetParent(w, n, None);
    PresentConsistent(v, v.present - {n});
    var x := v.(present := v.present - {n});
    if Children(x.parents, n) == {} {
      assert forall m | m in x.parents :: m in Children(x.parents, n) || x.parents[m] != n;
      Moves.ForgetConsistent(x, n);
    }
  }

  lemma GoneConsistent(w: World, n: Name)
    requires Inv(w) && n != "" && Consistent(w) && Quiet(w, Missing(n))
    ensures Gone(w, n).Valid() && Consistent(Gone(w, n))
  {
    var v := Known(w, n);
    KnownExtends(w, n, n);
    KnownConsistent(w, n);
    KnownLocal(w, n);
    if OnlyItself(w, n) { ExtendsOnlyItself(w, v, n); }
    if n in v.present { UnsetConsistent(v, n); }
  }

  // ----- runs -----

  lemma StepConserves(w: World, e: Event)
    requires Inv(w) && Consistent(w) && Quiet(w, e)
    ensures Hierarchy.Step(w, e).Valid() && Consistent(Hierarchy.Step(w, e))
  {
    match e
    case Lookup(n) => KnownConsistent(w, n);
    case Synced(n, c, unmanaged) => if n != "" { SyncConsistent(w, n, c, unmanaged); }
    case Missing(n) => if n != "" { GoneConsistent(w, n); }
    case Usage(n, u) => if n in w.names { UseRefines(w, n, u); }
    case Request(n, u) => if n in w.names { UseRefines(w, n, u); }
    case Update(n, d) => if n in w.names { SetDataConsistent(w, n, d); }
  }

  ghost predicate AllQuiet(w: World, events: seq<Event>)
    requires Inv(w)
    decreases |events|
  {
    if events == [] then true
    else
      StepKeeps(w, events[0]);
      Quiet(w, events[0]) && AllQuiet(Hierarchy.Step(w, events[0]), events[1..])
  }

  lemma EmptyConsistent()
    ensures EMPTY_WORLD.Valid() && Consistent(EMPTY_WORLD)
  {
  }

  /** Over every run in which nothing is in use below a namespace that moves or goes, every cached usage
      stays the sum, cycles or not. */
  lemma {:induction false} RunConserves(w: World, events: seq<Event>, v: World)
    requires Inv(w) && Consistent(w) && Leads(w, events, v) && AllQuiet(w, events)
    ensures v.Valid() && Consistent(v)
    decreases |events|
  {
    if events != [] {
      StepKeeps(w, events[0]);
      StepConserves(w, events[0]);
      RunConserves(Hierarchy.Step(w, events[0]), events[1..], v);
    }
  }
}
