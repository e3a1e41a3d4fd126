/** The hierarchy reconciler's step on the forest, and what every run of such steps keeps: links that
    lead nowhere else, parents only on synced namespaces, and a halted namespace on every cycle. */
module Hierarchy {
  import opened Ancestry
  import opened Structure
  import opened World
  import opened Resources
  import Quota
  import Moves

  const REASON_ANCESTOR := "AncestorHaltActivities"
  const REASON_ANCHOR_MISSING := "SubnamespaceAnchorMissing"
  const REASON_DELETING_CRD := "DeletingCRD"
  const REASON_ILLEGAL_PARENT := "IllegalParent"
  const REASON_IN_CYCLE := "InCycle"
  const REASON_PARENT_MISSING := "ParentMissing"

  /** The labels and annotations that a configuration or an anchor sets. */
  datatype Metadata = Metadata(labels: Pairs, annotations: Pairs)

  /** What the apiserver says of a namespace when it is synced: whether the configuration CRD is being
      deleted, the managed-by and subnamespace-of annotations (empty if absent), whether the namespace
      is being deleted, the parent (empty if none) and the metadata in its configuration, and the
      metadata in the anchor of a subnamespace, if that is there. */
  datatype Config = Config(
    deletingCRD: bool,
    managedBy: string,
    subnamespaceOf: Name,
    deleting: bool,
    parent: Name,
    metadata: Metadata,
    anchor: Option<Metadata>)

  /** A configuration says that something else than HNC manages the namespace. */
  predicate ManagedElsewhere(c: Config) {
    c.managedBy != "" && c.managedBy != META_GROUP
  }

  /** It says that the namespace is a live subnamespace of another one. */
  predicate Owned(c: Config) {
    !ManagedElsewhere(c) && c.subnamespaceOf != "" && !c.deleting
  }

  /** p is where it puts the namespace: nowhere if something else manages it, under its owner if it is owned,
      and else where it asks to be. */
  predicate PutsUnder(c: Config, p: Option<Name>) {
    if ManagedElsewhere(c) then p.None?
    else if Owned(c) then p == Some(c.subnamespaceOf)
    else if c.parent == "" then p.None?
    else p == Some(c.parent)
  }

  /** m is what it sets: the anchor's labels and annotations if the namespace is owned and the anchor there. */
  predicate SetsMetadata(c: Config, m: Metadata) {
    if Owned(c) && c.anchor.Some? then m == c.anchor.value else m == c.metadata
  }

  // ----- conditions -----

  /** The conditions with c set: it replaces the one of its type, if any. */
  function WithCondition(cs: seq<Condition>, c: Condition): (r: seq<Condition>)
    ensures c in r
    ensures forall d :: d in r ==> d == c || d in cs
    ensures forall d | d in cs && d.tp != c.tp :: d in r
  {
    if cs == [] then [c]
    else if cs[0].tp == c.tp then [c] + cs[1..]
    else
      assert forall d | d in cs && d != cs[0] :: d in cs[1..];
      [cs[0]] + WithCondition(cs[1..], c)
  }

  function SetCondition(cs: seq<Condition>, tp: string, reason: string): seq<Condition> {
    if reason == REASON_ANCESTOR then cs else WithCondition(cs, Condition(tp, reason))
  }

  /** An inherited halt is never stored. */
  lemma AncestorNotStored(cs: seq<Condition>, tp: string, reason: string, d: Condition)
    requires d.reason == REASON_ANCESTOR && d in SetCondition(cs, tp, reason)
    ensures d in cs
  {
  }

  // ----- the step -----

  function Manager(c: Config): string {
    if c.managedBy == "" || c.managedBy == META_GROUP then META_GROUP else c.managedBy
  }

  /** The namespace this one is a subnamespace of; a namespace being deleted is none. */
  function Owner(c: Config): Name {
    if c.subnamespaceOf != "" && c.deleting then "" else c.subnamespaceOf
  }

  predicate IsExternal(c: Config) {
    Manager(c) != META_GROUP
  }

  predicate IsSub(c: Config) {
    !IsExternal(c) && Owner(c) != ""
  }

  /** The parent after the subnamespace annotation has had its say. */
  function WantedParent(c: Config): Name {
    if IsSub(c) then Owner(c) else c.parent
  }

  /** The labels and annotations to set: a subnamespace takes those of its anchor. */
  function WantedMetadata(c: Config): Metadata {
    if IsSub(c) && c.anchor.Some? then c.anchor.value else c.metadata
  }

  /** What the steps on the way to a parent, a manager and metadata amount to. */
  lemma ConfigMeans(c: Config)
    ensures IsExternal(c) <==> ManagedElsewhere(c)
    ensures IsSub(c) <==> Owned(c)
    ensures PutsUnder(c, NewParent(WantedParent(c), IsExternal(c))) && SetsMetadata(c, WantedMetadata(c))
    ensures Manager(c) == if ManagedElsewhere(c) then c.managedBy else META_GROUP
  {
  }

  /** The conditions found before looking at the structure. */
  function EarlyConditions(c: Config): seq<Condition> {
    var cs := if c.deletingCRD then SetCondition([], ACTIVITIES_HALTED, REASON_DELETING_CRD) else [];
    if IsSub(c) && c.anchor.None? then SetCondition(cs, BAD_CONFIGURATION, REASON_ANCHOR_MISSING) else cs
  }

  /** The conditions about the parent: unmanaged, or not (yet) there. */
  function ParentConditions(cs: seq<Condition>, p: Name, unmanaged: set<Name>, present: set<Name>): seq<Condition> {
    if p != "" && p in unmanaged then SetCondition(cs, ACTIVITIES_HALTED, REASON_ILLEGAL_PARENT)
    else if p != "" && p !in present then SetCondition(cs, ACTIVITIES_HALTED, REASON_PARENT_MISSING)
    else cs
  }

  function CycleConditions(cs: seq<Condition>, onCycle: bool): seq<Condition> {
    if onCycle then SetCondition(cs, ACTIVITIES_HALTED, REASON_IN_CYCLE) else cs
  }

  function SetData(w: World, n: Name, d: Data): World {
    w.(data := w.data[n := d])
  }

  lemma SetDataSame(w: World, n: Name)
    requires n in w.data
    ensures SetData(w, n, w.data[n]) == w
  {
    assert w.data[n := w.data[n]] == w.data;
  }

  lemma SetDataTwice(w: World, n: Name, d: Data, e: Data)
    ensures SetData(SetData(w, n, d), n, e) == SetData(w, n, e)
  {
  }

  function Optional(nm: Name): Option<Name> {
    if nm == "" then None else Some(nm)
  }

  /** Before the structure: the namespace is known, its old conditions are cleared and its manager and
      subnamespace status are taken over. */
  function Prepared(w: World, n: Name, c: Config): World
    requires w.Valid()
  {
    var v := Known(w, n);
    if n !in v.names then v
    else SetData(v, n, v.data[n].(conditions := EarlyConditions(c), manager := Manager(c), isSub := IsSub(c)))
  }

  /** The forest once the parent in the configuration has been looked up, and the conditions about it. */
  function WithParentKnown(w: World, n: Name, parent: Name, external: bool, unmanaged: set<Name>): World
    requires w.Valid() && n in w.names
  {
    if external then w else LookedUp(w, n, parent, unmanaged)
  }

  function LookedUp(w: World, n: Name, parent: Name, unmanaged: set<Name>): World
    requires w.Valid() && n in w.names
  {
    var v := Known(w, parent);
    SetData(v, n, v.data[n].(conditions := ParentConditions(v.data[n].conditions, parent, unmanaged, v.present)))
  }

  function NewParent(parent: Name, external: bool): Option<Name> {
    if external then None else Optional(parent)
  }

  /** The parent changes only if it differs, except that an external namespace is always detached. */
  ghost function Reparented(w: World, n: Name, p: Option<Name>, always: bool): World
    requires w.Valid() && n in w.names && w.AbsentAreRoots() && (p.Some? ==> p.value in w.names)
    requires always ==> p.None?
  {
    if !always && ParentName(w.parents, n) == p then w
    else
      MovableIfDifferent(w, n, p);
      Moves.SetParent(w, n, p)
  }

  lemma MovableIfDifferent(w: World, n: Name, p: Option<Name>)
    requires w.Valid() && n in w.names && w.AbsentAreRoots() && (p.Some? ==> p.value in w.names)
    requires ParentName(w.parents, n) != p || p.None?
    ensures Moves.Movable(w, n, p)
  {
  }

  /** After the structure: a namespace on a cycle is halted. */
  ghost function CycleChecked(w: World, n: Name): World
    requires w.Valid() && n in w.names
  {
    SetData(w, n, w.data[n].(conditions := CycleConditions(w.data[n].conditions, OnCycle(w.parents, n))))
  }

  /** v is w with n at the place p, and halted if it is on a cycle there. */
  ghost predicate Placed(w: World, v: World, n: Name, p: Option<Name>, always: bool)
    requires w.Valid() && n in w.names && w.AbsentAreRoots() && (p.Some? ==> p.value in w.names)
    requires always ==> p.None?
  {
    var x := Reparented(w, n, p, always);
    x.Valid() && n in x.names && v == CycleChecked(x, n)
  }

  /** The forest once the namespace has been moved to where it is configured to be. */
  ghost function ParentSynced(w: World, n: Name, parent: Name, external: bool, unmanaged: set<Name>): World
    requires w.Valid() && w.AbsentAreRoots() && n in w.names
  {
    ParentKnownExtends(w, n, parent, external, unmanaged);
    var v := WithParentKnown(w, n, parent, external, unmanaged);
    AfterStructure(v, n, NewParent(parent, external), external);
    CycleChecked(Reparented(v, n, NewParent(parent, external), external), n)
  }

  /** What holds between steps. */
  ghost predicate Inv(w: World) {
    w.Valid() && w.AbsentAreRoots() && "" !in w.names && CyclesHalted(w)
  }

  /** No namespace with a parent is external. */
  ghost predicate ExternalAreRoots(w: World)
    requires w.Valid()
  {
    forall n | n in w.parents :: !w.data[n].External()
  }

  /** From every namespace on a cycle a halted one is reached: every cycle holds a halted namespace. */
  ghost predicate CyclesHalted(w: World)
    requires w.Valid()
  {
    forall x | x in w.parents && OnCycle(w.parents, x) :: ReachesHalted(w, x)
  }

  ghost predicate IsHalted(w: World, n: Name) {
    n in w.data && w.data[n].Halted()
  }

  ghost predicate ReachesHalted(w: World, x: Name) {
    exists m :: Reaches(w.parents, x, m) && IsHalted(w, m)
  }

  /** The whole step; at its end the namespace is marked as synced. */
  ghost function Sync(w: World, n: Name, c: Config, unmanaged: set<Name>): World
    requires w.Valid() && w.AbsentAreRoots() && n != ""
  {
    PreparedExtends(w, n, c);
    var v := ParentSynced(Prepared(w, n, c), n, WantedParent(c), IsExternal(c), unmanaged);
    v.(present := v.present + {n})
  }

  /** v knows what w knows, with the same parents, and holds the same except about n. */
  ghost predicate Extends(w: World, v: World, n: Name) {
    && v.Valid() && w.names <= v.names && v.parents == w.parents && v.present == w.present
    && forall m | m in w.names && m != n :: m in v.data && m in w.data && v.data[m] == w.data[m]
  }

  lemma KnownExtends(w: World, nm: Name, n: Name)
    requires w.Valid()
    ensures Extends(w, Known(w, nm), n) && (nm != "" ==> nm in Known(w, nm).names)
  {
    if nm != "" && nm !in w.names { AddValid(w, nm); }
  }

  lemma SetDataExtends(w: World, n: Name, d: Data)
    requires w.Valid() && n in w.names
    ensures Extends(w, SetData(w, n, d), n)
  {
  }

  lemma ExtendsTransitive(w: World, v: World, x: World, n: Name)
    requires Extends(w, v, n) && Extends(v, x, n)
    ensures Extends(w, x, n)
  {
  }

  lemma PreparedExtends(w: World, n: Name, c: Config)
    requires w.Valid() && n != ""
    ensures Extends(w, Prepared(w, n, c), n) && n in Prepared(w, n, c).names
  {
    var v := Known(w, n);
    KnownExtends(w, n, n);
    var d := v.data[n].(conditions := EarlyConditions(c), manager := Manager(c), isSub := IsSub(c));
    SetDataExtends(v, n, d);
    ExtendsTransitive(w, v, SetData(v, n, d), n);
  }

  lemma ParentKnownExtends(w: World, n: Name, parent: Name, external: bool, unmanaged: set<Name>)
    requires w.Valid() && n in w.names
    ensures var v := WithParentKnown(w, n, parent, external, unmanaged);
            && Extends(w, v, n) && n in v.names
            && (NewParent(parent, external).Some? ==> NewParent(parent, external).value in v.names)
  {
    if !external {
      var v := Known(w, parent);
      KnownExtends(w, parent, n);
      var d := v.data[n].(conditions := ParentConditions(v.data[n].conditions, parent, unmanaged, v.present));
      SetDataExtends(v, n, d);
      ExtendsTransitive(w, v, SetData(v, n, d), n);
    }
  }

  /** Only n's parent has changed, and only unsynced names without links have gone. */
  ghost predicate Restructured(w: World, v: World, n: Name) {
    && w.Valid() && v.Valid() && n in v.names && v.names <= w.names && AgreeOff(w.parents, v.parents, n)
    && (forall m | m in v.names :: v.data[m] == w.data[m] && (m in v.present <==> m in w.present))
  }

  lemma LinkRestructures(w: World, n: Name, p: Option<Name>)
    requires w.Valid() && n in w.names && (p.Some? ==> p.value in w.names)
    ensures Restructured(w, w.Link(n, p), n) && ParentName(w.Link(n, p).parents, n) == p
  {
  }

  lemma ForgetRestructures(w: World, v: World, n: Name, o: Name)
    requires Restructured(w, v, n) && o in v.names && o != n && Moves.Alone(v.parents, o)
    ensures Restructured(w, v.Forget({o}), n) && v.Forget({o}).parents == v.parents
  {
    ForgetOff(v, o);
  }

  lemma RelinkRestructures(w: World, n: Name, p: Option<Name>)
    requires w.Valid() && Moves.Movable(w, n, p) && w.AbsentAreRoots()
    ensures Restructured(w, Moves.Relink(w, n, p), n) && ParentName(Moves.Relink(w, n, p).parents, n) == p
  {
    LinkRestructures(w, n, p);
    var o := Moves.CollectedCases(w, n, p);
    if o.Some? {
      ForgetRestructures(w, w.Link(n, p), n, o.value);
    } else {
      Moves.ForgetNothing(w.Link(n, p));
    }
  }

  lemma SetParentRestructures(w: World, n: Name, p: Option<Name>)
    requires w.Valid() && Moves.Movable(w, n, p) && w.AbsentAreRoots()
    ensures Restructured(w, Moves.SetParent(w, n, p), n)
    ensures ParentName(Moves.SetParent(w, n, p).parents, n) == p
  {
    RelinkRestructures(w, n, p);
    UsageRestructures(w, Moves.Relink(w, n, p), Moves.SetParent(w, n, p), n);
  }

  lemma UsageRestructures(w: World, v: World, x: World, n: Name)
    requires Restructured(w, v, n) && x.Valid() && Quota.SameButUsage(v, x)
    ensures Restructured(w, x, n) && x.parents == v.parents
  {
  }

  lemma AfterStructure(w: World, n: Name, p: Option<Name>, always: bool)
    requires w.Valid() && n in w.names && w.AbsentAreRoots() && (p.Some? ==> p.value in w.names)
    requires always ==> p.None?
    ensures Restructured(w, Reparented(w, n, p, always), n)
    ensures ParentName(Reparented(w, n, p, always).parents, n) == p
  {
    if always || ParentName(w.parents, n) != p {
      MovableIfDifferent(w, n, p);
      SetParentRestructures(w, n, p);
    }
  }

  // ----- every cycle holds a halted namespace -----

  /** A change at n keeps cycles halted if it leaves n itself off cycles or halted. */
  lemma ChangeKeepsCyclesHalted(w: World, v: World, n: Name)
    requires w.Valid() && v.Valid() && CyclesHalted(w) && AgreeOff(w.parents, v.parents, n)
    requires forall m | m in v.names && m in w.names && m != n :: v.data[m] == w.data[m]
    requires OnCycle(v.parents, n) ==> IsHalted(v, n)
    ensures CyclesHalted(v)
  {
    forall x | x in v.parents && OnCycle(v.parents, x) ensures ReachesHalted(v, x) {
      if Reaches(v.parents, x, n) {
        CycleClosed(v.parents, x, n);
      } else {
        CycleElsewhere(w.parents, v.parents, n, x);
        assert x != n by { ReachesSelf(v.parents, n); }
        assert ReachesHalted(w, x);
        var m :| Reaches(w.parents, x, m) && IsHalted(w, m);
        HaltedElsewhere(w, v, n, x, m);
      }
    }
  }

  lemma HaltedElsewhere(w: World, v: World, n: Name, x: Name, m: Name)
    requires w.Valid() && v.Valid() && AgreeOff(w.parents, v.parents, n) && OnCycle(v.parents, x)
    requires forall k | k in v.names && k in w.names && k != n :: v.data[k] == w.data[k]
    requires !Reaches(v.parents, x, n) && Reaches(w.parents, x, m) && IsHalted(w, m)
    ensures Reaches(v.parents, x, m) && IsHalted(v, m)
  {
    ReachUnaffected(w.parents, v.parents, n, x);
    var k: nat :| Steps(w.parents, x, m, k);
    StepsAvoiding(w.parents, v.parents, n, x, m, k);
    CycleClosed(v.parents, x, m);
  }

  lemma CheckedHalts(w: World, n: Name)
    requires w.Valid() && n in w.names
    ensures var v := CycleChecked(w, n);
            && v.Valid() && v.parents == w.parents && v.names == w.names && v.present == w.present
            && (OnCycle(v.parents, n) ==> IsHalted(v, n))
            && forall m | m in w.names && m != n :: v.data[m] == w.data[m]
  {
    if OnCycle(w.parents, n) {
      var c := Condition(ACTIVITIES_HALTED, REASON_IN_CYCLE);
      assert c in CycleConditions(w.data[n].conditions, true);
    }
  }

  /** What moving n to its configured place does to the forest. */
  ghost predicate Moved(w: World, v: World, n: Name) {
    && w.Valid() && v.Valid() && n in v.names && AgreeOff(w.parents, v.parents, n)
    && (OnCycle(v.parents, n) ==> IsHalted(v, n))
    && (forall m | m in v.names && m in w.names && m != n :: v.data[m] == w.data[m])
    && forall m | m in v.names && m in w.names :: m in v.present <==> m in w.present
  }

  lemma ParentSyncedMoves(w: World, n: Name, parent: Name, external: bool, unmanaged: set<Name>)
    requires w.Valid() && w.AbsentAreRoots() && n in w.names && "" !in w.names
    ensures var v := ParentSynced(w, n, parent, external, unmanaged);
            && Moved(w, v, n) && "" !in v.names
            && ParentName(v.parents, n) == NewParent(parent, external)
  {
    ParentKnownExtends(w, n, parent, external, unmanaged);
    var v := WithParentKnown(w, n, parent, external, unmanaged);
    AfterStructure(v, n, NewParent(parent, external), external);
    CheckedHalts(Reparented(v, n, NewParent(parent, external), external), n);
    assert "" !in v.names;
  }

  /** One sync keeps everything that holds between steps, whatever the configuration says. */
  lemma SyncKeeps(w: World, n: Name, c: Config, unmanaged: set<Name>)
    requires Inv(w) && n != ""
    ensures var v := Sync(w, n, c, unmanaged);
            && Inv(v) && n in v.present && AgreeOff(w.parents, v.parents, n)
            && ParentName(v.parents, n) == NewParent(WantedParent(c), IsExternal(c))
  {
    PreparedExtends(w, n, c);
    var x := Prepared(w, n, c);
    ParentSyncedMoves(x, n, WantedParent(c), IsExternal(c), unmanaged);
    MovedKeeps(w, x, ParentSynced(x, n, WantedParent(c), IsExternal(c), unmanaged), n);
  }

  lemma MovedKeeps(w: World, x: World, v: World, n: Name)
    requires Inv(w) && Extends(w, x, n) && Moved(x, v, n) && "" !in v.names
    ensures var z := v.(present := v.present + {n}); Inv(z) && AgreeOff(w.parents, z.parents, n)
  {
    var z := v.(present := v.present + {n});
    assert z.Valid() && z.AbsentAreRoots();
    ChangeKeepsCyclesHalted(w, z, n);
  }

  // ----- deletion -----

  /** What becomes of a synced namespace when it is gone: it is detached, and forgotten unless it
      still has children. */
  ghost function Unset(w: World, n: Name): World
    requires w.Valid() && n in w.names && w.AbsentAreRoots()
  {
    MovableIfDifferent(w, n, None);
    Retired(Moves.SetParent(w, n, None), n)
  }

  ghost function Retired(w: World, n: Name): World {
    var x := w.(present := w.present - {n});
    if Children(x.parents, n) == {} then x.Forget({n}) else x
  }

  ghost function Gone(w: World, n: Name): World
    requires w.Valid() && w.AbsentAreRoots() && n != ""
  {
    var v := Known(w, n);
    KnownExtends(w, n, n);
    if n in v.present then Unset(v, n) else v
  }

  lemma UnsetShape(w: World, n: Name)
    requires w.Valid() && n in w.names && w.AbsentAreRoots()
    ensures var v := Unset(w, n);
            && v.Valid() && v.AbsentAreRoots() && v.names <= w.names && n !in v.parents && n !in v.present
            && AgreeOff(w.parents, v.parents, n)
            && forall m | m in v.names && m != n :: v.data[m] == w.data[m]
  {
    MovableIfDifferent(w, n, None);
    SetParentRestructures(w, n, None);
    var v := Moves.SetParent(w, n, None);
    var x := v.(present := v.present - {n});
    if Children(x.parents, n) == {} {
      assert forall m | m in x.parents :: m in Children(x.parents, n) || x.parents[m] != n;
      ForgetOff(x, n);
    }
  }

  lemma GoneOff(w: World, n: Name)
    requires w.Valid() && w.AbsentAreRoots() && n != ""
    ensures var v := Gone(w, n); AgreeOff(w.parents, v.parents, n) && n !in v.parents
  {
    KnownExtends(w, n, n);
    if n in Known(w, n).present { UnsetShape(Known(w, n), n); }
  }

  lemma GoneKeeps(w: World, n: Name)
    requires Inv(w) && n != ""
    ensures Inv(Gone(w, n)) && n !in Gone(w, n).present
  {
    KnownExtends(w, n, n);
    var v := Known(w, n);
    KnownKeeps(w, n);
    if n in v.present {
      UnsetShape(v, n);
      ChangeKeepsCyclesHalted(v, Unset(v, n), n);
    }
  }

  lemma KnownKeeps(w: World, n: Name)
    requires Inv(w)
    ensures Inv(Known(w, n))
  {
    KnownExtends(w, n, "");
    SameHalted(w, Known(w, n));
  }

  lemma SameHalted(w: World, v: World)
    requires w.Valid() && v.Valid() && CyclesHalted(w) && v.parents == w.parents
    requires forall m | m in w.names :: m in v.names && v.data[m] == w.data[m]
    ensures CyclesHalted(v)
  {
    forall x | x in v.parents && OnCycle(v.parents, x) ensures ReachesHalted(v, x) {
      assert ReachesHalted(w, x);
      var m :| Reaches(w.parents, x, m) && IsHalted(w, m);
      assert Reaches(v.parents, x, m) && IsHalted(v, m);
    }
  }

  /** A namespace may hold anything else as long as it stays halted if it was. */
  lemma StillHalted(w: World, n: Name, d: Data)
    requires Inv(w) && n in w.names && (w.data[n].Halted() ==> d.Halted())
    ensures Inv(SetData(w, n, d))
  {
    var v := SetData(w, n, d);
    forall x | x in v.parents && OnCycle(v.parents, x) ensures ReachesHalted(v, x) {
      assert ReachesHalted(w, x);
      var m :| Reaches(w.parents, x, m) && IsHalted(w, m);
      assert Reaches(v.parents, x, m) && IsHalted(v, m);
    }
  }

  // ----- runs -----

  /** The steps that change the forest: a name is looked up, a namespace is synced, or is found to be
      gone, its usage is reported or asked for, or what else it holds is updated without lifting a halt. */
  datatype Event =
    | Lookup(name: Name)
    | Synced(name: Name, config: Config, unmanaged: set<Name>)
    | Missing(name: Name)
    | Usage(name: Name, usage: ResourceList)
    | Request(name: Name, usage: ResourceList)
    | Update(name: Name, data: Data)

  ghost function Step(w: World, e: Event): World
    requires Inv(w)
  {
    match e
    case Lookup(n) => Known(w, n)
    case Synced(n, c, unmanaged) => if n == "" then w else Sync(w, n, c, unmanaged)
    case Missing(n) => if n == "" then w else Gone(w, n)
    case Usage(n, u) => if n in w.names then Quota.Use(w, n, u) else w
    case Request(n, u) => if n in w.names then Quota.TryUse(w, n, u) else w
    case Update(n, d) => if n in w.names && (w.data[n].Halted() ==> d.Halted()) then SetData(w, n, d) else w
  }

  lemma StepKeeps(w: World, e: Event)
    requires Inv(w)
    ensures Inv(Step(w, e))
  {
    match e
    case Lookup(n) => KnownKeeps(w, n);
    case Synced(n, c, unmanaged) => if n != "" { SyncKeeps(w, n, c, unmanaged); }
    case Missing(n) => if n != "" { GoneKeeps(w, n); }
    case Usage(n, u) => if n in w.names { UsageKeeps(w, Quota.Use(w, n, u)); }
    case Request(n, u) => if n in w.names { UsageKeeps(w, Quota.TryUse(w, n, u)); }
    case Update(n, d) => if n in w.names && (w.data[n].Halted() ==> d.Halted()) { StillHalted(w, n, d); }
  }

  lemma UsageKeeps(w: World, v: World)
    requires Inv(w) && v.Valid() && Quota.SameButUsage(w, v)
    ensures Inv(v)
  {
    SameHalted(w, v);
  }

  /** v is what some run of steps makes of w. */
  ghost predicate Leads(w: World, events: seq<Event>, v: World)
    requires Inv(w)
    decreases |events|
  {
    if events == [] then v == w
    else
      StepKeeps(w, events[0]);
      Leads(Step(w, events[0]), events[1..], v)
  }

  /** Every run from the empty forest keeps every cycle halted, links closed and absent names rootless. */
  lemma {:induction false} RunKeeps(w: World, events: seq<Event>, v: World)
    requires Inv(w) && Leads(w, events, v)
    ensures Inv(v)
    decreases |events|
  {
    if events != [] {
      StepKeeps(w, events[0]);
      RunKeeps(Step(w, events[0]), events[1..], v);
    }
  }

  /** The empty forest is where runs start. */
  lemma EmptyInv()
    ensures Inv(EMPTY_WORLD)
  {
  }

  // ----- walks that rely on it -----

  ghost function Halts(w: World): set<Name> {
    set n | n in w.data && w.data[n].Halted()
  }

  /** Walking up from n meets a member of h or a root within k steps. */
  ghost predicate Stops(p: Parents, h: set<Name>, n: Name, k: nat)
    decreases k
  {
    n in h || n !in p || (k > 0 && Stops(p, h, p[n], k - 1))
  }

  lemma {:induction false} StopsAt(p: Parents, h: set<Name>, n: Name, m: Name, k: nat)
    requires Steps(p, n, m, k) && (m in h || m !in p)
    ensures Stops(p, h, n, k)
    decreases k
  {
    if k > 0 { StopsAt(p, h, p[n], m, k - 1); }
  }

  /** The walks towards a halted namespace that do not watch for cycles end all the same, in every
      forest that any run leads to. */
  lemma WalkStops(w: World, n: Name) returns (k: nat)
    requires Inv(w)
    ensures Stops(w.parents, Halts(w), n, k)
  {
    var s := AncestryOf(w.parents, n);
    AncestryIs(w.parents, n);
    AncestrySteps(w.parents, n, s, 0);
    if s[0] !in w.parents {
      k := |s| - 1;
      StopsAt(w.parents, Halts(w), n, s[0], k);
    } else {
      RepeatIsCycle(w.parents, n);
      assert OnCycle(w.parents, s[0]);
      assert ReachesHalted(w, s[0]);
      var m :| Reaches(w.parents, s[0], m) && IsHalted(w, m);
      var j: nat :| Steps(w.parents, s[0], m, j);
      StepsConcat(w.parents, n, s[0], m, |s| - 1, j);
      k := |s| - 1 + j;
      StopsAt(w.parents, Halts(w), n, m, k);
    }
  }
}
