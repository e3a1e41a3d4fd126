/** The queue of the hierarchy reconciler: which namespaces a sync or a deletion queues again, that the queue
    drains, and what holds of the forest then. */
module Convergence {
  import opened Ancestry
  import opened Structure
  import opened World
  import opened Hierarchy
  import opened Resources
  import Moves
  import Quota

  /** What is on the apiserver and does not change meanwhile: the configuration of every managed namespace.
      Names that are not managed are skipped. */
  datatype Site = Site(configs: map<Name, Config>, unmanaged: set<Name>)
  {
    ghost predicate Valid() {
      "" !in configs && configs.Keys !! unmanaged
    }
  }

  /** The forest, and the namespaces that are to be reconciled. */
  datatype State = State(forest: World, queue: set<Name>)

  // ----- what a step does to the forest -----

  /** The conditions but for the one about cycles. */
  function Structural(c: Config, unmanaged: set<Name>, present: set<Name>): seq<Condition> {
    if IsExternal(c) then EarlyConditions(c)
    else ParentConditions(EarlyConditions(c), WantedParent(c), unmanaged, present)
  }

  function Place(c: Config): Option<Name> {
    NewParent(WantedParent(c), IsExternal(c))
  }

  /** v is w once n has been synced. */
  ghost predicate SyncedTo(w: World, v: World, n: Name, c: Config, unmanaged: set<Name>) {
    && Inv(w) && Inv(v) && v.present == w.present + {n}
    && AgreeOff(w.parents, v.parents, n) && ParentName(v.parents, n) == Place(c)
    && (forall m | m in w.present && m != n :: v.data[m] == w.data[m])
    && v.data[n].manager == Manager(c)
    && v.data[n].conditions == CycleConditions(Structural(c, unmanaged, w.present), OnCycle(v.parents, n))
  }

  lemma SetParentPresent(w: World, n: Name, p: Option<Name>)
    requires w.Valid() && Moves.Movable(w, n, p)
    ensures Moves.SetParent(w, n, p).present == w.present
  {
    assert w.present - Moves.Collected(w, n) == w.present;
  }

  lemma ReparentedPresent(w: World, n: Name, p: Option<Name>, always: bool)
    requires w.Valid() && n in w.names && w.AbsentAreRoots() && (p.Some? ==> p.value in w.names)
    requires always ==> p.None?
    ensures Reparented(w, n, p, always).present == w.present
  {
    if always || ParentName(w.parents, n) != p {
      MovableIfDifferent(w, n, p);
      SetParentPresent(w, n, p);
    }
  }

  lemma KnownParentHolds(w: World, n: Name, parent: Name, external: bool, unmanaged: set<Name>)
    requires w.Valid() && n in w.names
    ensures var x, cs := WithParentKnown(w, n, parent, external, unmanaged), w.data[n].conditions;
            && x.present == w.present && n in x.data && x.data[n].manager == w.data[n].manager
            && x.data[n].conditions == if external then cs else ParentConditions(cs, parent, unmanaged, w.present)
  {
    KnownExtends(w, parent, "");
  }

  /** What moving n to its place does to what it holds. */
  lemma ParentSyncedHolds(w: World, n: Name, parent: Name, external: bool, unmanaged: set<Name>)
    requires w.Valid() && w.AbsentAreRoots() && n in w.names
    ensures var v, cs := ParentSynced(w, n, parent, external, unmanaged), w.data[n].conditions;
            && v.present == w.present && n in v.data && v.data[n].manager == w.data[n].manager
            && v.data[n].conditions ==
               CycleConditions(if external then cs else ParentConditions(cs, parent, unmanaged, w.present),
                               OnCycle(v.parents, n))
  {
    var x := WithParentKnown(w, n, parent, external, unmanaged);
    ParentKnownExtends(w, n, parent, external, unmanaged);
    KnownParentHolds(w, n, parent, external, unmanaged);
    MovedHolds(x, n, NewParent(parent, external), external);
  }

  lemma MovedHolds(w: World, n: Name, p: Option<Name>, always: bool)
    requires w.Valid() && n in w.names && w.AbsentAreRoots() && (p.Some? ==> p.value in w.names)
    requires always ==> p.None?
    ensures Restructured(w, Reparented(w, n, p, always), n)
    ensures var v := CycleChecked(Reparented(w, n, p, always), n);
            && v.present == w.present && n in v.data && v.data[n].manager == w.data[n].manager
            && v.data[n].conditions == CycleConditions(w.data[n].conditions, OnCycle(v.parents, n))
  {
    AfterStructure(w, n, p, always);
    ReparentedPresent(w, n, p, always);
  }

  lemma SyncGives(w: World, n: Name, c: Config, unmanaged: set<Name>)
    requires Inv(w) && n != ""
    ensures SyncedTo(w, Sync(w, n, c, unmanaged), n, c, unmanaged)
  {
    SyncKeeps(w, n, c, unmanaged);
    SyncHolds(w, n, c, unmanaged);
    SyncKeepsOthers(w, n, c, unmanaged);
  }

  lemma SyncHolds(w: World, n: Name, c: Config, unmanaged: set<Name>)
    requires Inv(w) && n != ""
    ensures var v := Sync(w, n, c, unmanaged);
            && v.present == w.present + {n} && n in v.data && v.data[n].manager == Manager(c)
            && v.data[n].conditions == CycleConditions(Structural(c, unmanaged, w.present), OnCycle(v.parents, n))
  {
    PreparedExtends(w, n, c);
    ParentSyncedHolds(Prepared(w, n, c), n, WantedParent(c), IsExternal(c), unmanaged);
  }

  /** What n holds besides is left alone; a namespace that was not known holds nothing. */
  lemma SyncLeaves(w: World, n: Name, c: Config, unmanaged: set<Name>)
    requires Inv(w) && n != ""
    ensures var v := Sync(w, n, c, unmanaged);
            var d := if n in w.names then w.data[n] else NEW_DATA;
            && n in v.data && v.data[n].isSub == IsSub(c) && v.data[n].labels == d.labels
            && v.data[n].managed == d.managed && v.data[n].cascading == d.cascading && v.data[n].sources == d.sources
  {
    var x := Prepared(w, n, c);
    PreparedExtends(w, n, c);
    ParentSyncedLeaves(x, n, WantedParent(c), IsExternal(c), unmanaged);
  }

  lemma ParentSyncedLeaves(w: World, n: Name, parent: Name, external: bool, unmanaged: set<Name>)
    requires w.Valid() && w.AbsentAreRoots() && n in w.names
    ensures var v := ParentSynced(w, n, parent, external, unmanaged);
            n in v.data && v.data[n].(conditions := []) == w.data[n].(conditions := [])
  {
    var x := WithParentKnown(w, n, parent, external, unmanaged);
    ParentKnownExtends(w, n, parent, external, unmanaged);
    KnownParentLeaves(w, n, parent, external, unmanaged);
    MovedLeaves(x, n, NewParent(parent, external), external);
  }

  lemma KnownParentLeaves(w: World, n: Name, parent: Name, external: bool, unmanaged: set<Name>)
    requires w.Valid() && n in w.names
    ensures var x := WithParentKnown(w, n, parent, external, unmanaged);
            n in x.data && x.data[n].(conditions := []) == w.data[n].(conditions := [])
  {
    KnownExtends(w, parent, "");
  }

  lemma MovedLeaves(w: World, n: Name, p: Option<Name>, always: bool)
    requires w.Valid() && n in w.names && w.AbsentAreRoots() && (p.Some? ==> p.value in w.names)
    requires always ==> p.None?
    ensures Restructured(w, Reparented(w, n, p, always), n)
    ensures var v := CycleChecked(Reparented(w, n, p, always), n);
            n in v.data && v.data[n].(conditions := []) == w.data[n].(conditions := [])
  {
    AfterStructure(w, n, p, always);
  }

  ghost function UsageOf(w: World, n: Name): ResourceList {
    if n in w.local then w.local[n] else map[]
  }

  /** The usage of a namespace that moves, and of an external one at every sync, is cut to what is limited where
      it is then; that of any other stays. */
  lemma SyncUsage(w: World, n: Name, c: Config, unmanaged: set<Name>)
    requires Inv(w) && n != ""
    ensures var v := Sync(w, n, c, unmanaged);
            && n in v.local
            && v.local[n] == if ManagedElsewhere(c) || ParentName(w.parents, n) != ParentName(v.parents, n)
                             then Masked(UsageOf(w, n), Quota.Limited(v, n)) else UsageOf(w, n)
  {
    var x := Prepared(w, n, c);
    PreparedExtends(w, n, c);
    ConfigMeans(c);
    SyncKeeps(w, n, c, unmanaged);
    PreparedUsage(w, n, c);
    ParentKnownExtends(x, n, WantedParent(c), IsExternal(c), unmanaged);
    KnownParentUsage(x, n, WantedParent(c), IsExternal(c), unmanaged);
    MovedUsage(WithParentKnown(x, n, WantedParent(c), IsExternal(c), unmanaged), n, Place(c), IsExternal(c));
  }

  lemma PreparedUsage(w: World, n: Name, c: Config)
    requires w.Valid() && n != ""
    ensures UsageOf(Prepared(w, n, c), n) == UsageOf(w, n)
  {
  }

  lemma KnownParentUsage(w: World, n: Name, parent: Name, external: bool, unmanaged: set<Name>)
    requires w.Valid() && n in w.names
    ensures UsageOf(WithParentKnown(w, n, parent, external, unmanaged), n) == UsageOf(w, n)
  {
  }

  lemma MovedUsage(w: World, n: Name, p: Option<Name>, always: bool)
    requires w.Valid() && n in w.names && w.AbsentAreRoots() && (p.Some? ==> p.value in w.names)
    requires always ==> p.None?
    ensures var v := Reparented(w, n, p, always);
            && v.Valid() && n in v.names
            && v.local[n] == if always || ParentName(w.parents, n) != p
                             then Masked(w.local[n], Quota.Limited(v, n)) else w.local[n]
  {
    AfterStructure(w, n, p, always);
    if always || ParentName(w.parents, n) != p {
      MovableIfDifferent(w, n, p);
      SetParentUsage(w, n, p);
    }
  }

  lemma SetParentUsage(w: World, n: Name, p: Option<Name>)
    requires w.Valid() && Moves.Movable(w, n, p)
    ensures var v := Moves.SetParent(w, n, p); n in v.local && v.local[n] == Masked(w.local[n], Quota.Limited(v, n))
  {
    Moves.MoveKeepsUsage(w, n, p);
  }

  lemma SyncKeepsOthers(w: World, n: Name, c: Config, unmanaged: set<Name>)
    requires Inv(w) && n != ""
    ensures var v := Sync(w, n, c, unmanaged);
            forall m | m in w.present && m != n :: m in v.names ==> v.data[m] == w.data[m]
  {
    PreparedExtends(w, n, c);
    ParentSyncedMoves(Prepared(w, n, c), n, WantedParent(c), IsExternal(c), unmanaged);
  }

  // ----- the same in terms of the configuration -----

  /** n is halted for that reason: on a cycle for that; else for an unmanaged parent, a missing one, or the
      CRD being deleted, in that order. */
  ghost predicate HaltedFor(c: Config, unmanaged: set<Name>, present: set<Name>, onCycle: bool, reason: string) {
    if onCycle then reason == REASON_IN_CYCLE
    else if exists p :: PutsUnder(c, Some(p)) && p in unmanaged then reason == REASON_ILLEGAL_PARENT
    else if exists p :: PutsUnder(c, Some(p)) && p !in present then reason == REASON_PARENT_MISSING
    else c.deletingCRD && reason == REASON_DELETING_CRD
  }

  /** The conditions n should have: a halt if there is reason for one, and a note that the anchor of an owned
      namespace is missing. */
  ghost predicate Due(c: Config, unmanaged: set<Name>, present: set<Name>, onCycle: bool, d: Condition) {
    || (d.tp == ACTIVITIES_HALTED && HaltedFor(c, unmanaged, present, onCycle, d.reason))
    || (d == Condition(BAD_CONFIGURATION, REASON_ANCHOR_MISSING) && Owned(c) && c.anchor.None?)
  }

  lemma EarlyMeans(c: Config, d: Condition)
    ensures d in EarlyConditions(c) <==>
              || (c.deletingCRD && d == Condition(ACTIVITIES_HALTED, REASON_DELETING_CRD))
              || (Owned(c) && c.anchor.None? && d == Condition(BAD_CONFIGURATION, REASON_ANCHOR_MISSING))
    ensures OneHalt(EarlyConditions(c))
  {
    ConfigMeans(c);
  }

  /** There is at most one halt, so setting another replaces it. */
  ghost predicate OneHalt(cs: seq<Condition>) {
    forall i, j | 0 <= i < j < |cs| :: cs[i].tp != ACTIVITIES_HALTED || cs[j].tp != ACTIVITIES_HALTED
  }

  lemma {:induction false} HaltReplaces(cs: seq<Condition>, reason: string)
    requires OneHalt(cs)
    ensures var r := WithCondition(cs, Condition(ACTIVITIES_HALTED, reason));
            && OneHalt(r)
            && forall d :: d in r <==> if d.tp == ACTIVITIES_HALTED then d.reason == reason else d in cs
  {
    var c := Condition(ACTIVITIES_HALTED, reason);
    if cs != [] && cs[0].tp != ACTIVITIES_HALTED {
      HaltReplaces(cs[1..], reason);
      var r := WithCondition(cs[1..], c);
      assert WithCondition(cs, c) == [cs[0]] + r;
      forall d ensures d in [cs[0]] + r <==> if d.tp == ACTIVITIES_HALTED then d.reason == reason else d in cs {
        assert d in cs <==> d == cs[0] || d in cs[1..];
      }
    } else if cs != [] {
      assert WithCondition(cs, c) == [c] + cs[1..];
      forall d ensures d in [c] + cs[1..] <==> if d.tp == ACTIVITIES_HALTED then d.reason == reason else d in cs {
        assert d in cs <==> d == cs[0] || d in cs[1..];
      }
    }
  }

  lemma ConditionsMean(c: Config, unmanaged: set<Name>, present: set<Name>, onCycle: bool, d: Condition)
    ensures d in CycleConditions(Structural(c, unmanaged, present), onCycle) <==>
            Due(c, unmanaged, present, onCycle, d)
  {
    StructuralMeans(c, unmanaged, present, d);
    if onCycle { HaltReplaces(Structural(c, unmanaged, present), REASON_IN_CYCLE); }
  }

  lemma StructuralMeans(c: Config, unmanaged: set<Name>, present: set<Name>, d: Condition)
    ensures d in Structural(c, unmanaged, present) <==> Due(c, unmanaged, present, false, d)
    ensures OneHalt(Structural(c, unmanaged, present))
  {
    PutsUnderMeans(c);
    EarlyMeans(c, d);
    HaltReplaces(EarlyConditions(c), REASON_ILLEGAL_PARENT);
    HaltReplaces(EarlyConditions(c), REASON_PARENT_MISSING);
  }

  lemma PutsUnderMeans(c: Config)
    ensures forall p :: PutsUnder(c, Some(p)) <==> !IsExternal(c) && p != "" && p == WantedParent(c)
  {
    ConfigMeans(c);
  }

  /** A sync puts n where its configuration says, records who manages and owns it, and gives it exactly the
      conditions it should have there. */
  lemma SyncMeans(w: World, n: Name, c: Config, unmanaged: set<Name>)
    requires Inv(w) && n != ""
    ensures var v := Sync(w, n, c, unmanaged);
            && n in v.data && PutsUnder(c, ParentName(v.parents, n)) && (v.data[n].isSub <==> Owned(c))
            && v.data[n].manager == (if ManagedElsewhere(c) then c.managedBy else META_GROUP)
            && forall d :: d in v.data[n].conditions <==> Due(c, unmanaged, w.present, OnCycle(v.parents, n), d)
  {
    var v := Sync(w, n, c, unmanaged);
    ConfigMeans(c);
    SyncKeeps(w, n, c, unmanaged);
    SyncHolds(w, n, c, unmanaged);
    SyncLeaves(w, n, c, unmanaged);
    forall d ensures d in v.data[n].conditions <==> Due(c, unmanaged, w.present, OnCycle(v.parents, n), d) {
      ConditionsMean(c, unmanaged, w.present, OnCycle(v.parents, n), d);
    }
  }

  /** So under an unmanaged parent it is halted. */
  lemma UnmanagedParentHalts(w: World, n: Name, c: Config, unmanaged: set<Name>, p: Name)
    requires Inv(w) && n != "" && PutsUnder(c, Some(p)) && p in unmanaged
    ensures IsHalted(Sync(w, n, c, unmanaged), n)
  {
    SyncMeans(w, n, c, unmanaged);
    var v := Sync(w, n, c, unmanaged);
    var reason := if OnCycle(v.parents, n) then REASON_IN_CYCLE else REASON_ILLEGAL_PARENT;
    assert Condition(ACTIVITIES_HALTED, reason) in v.data[n].conditions;
  }

  /** v is w once n has been found to be gone. */
  ghost predicate GoneTo(w: World, v: World, n: Name) {
    && Inv(w) && Inv(v) && v.present == w.present - {n} && v.parents == w.parents - {n}
    && forall m | m in w.present && m != n :: v.data[m] == w.data[m]
  }

  lemma GoneGives(w: World, n: Name)
    requires Inv(w) && n != ""
    ensures GoneTo(w, Gone(w, n), n)
  {
    GoneKeeps(w, n);
    if n in w.present {
      UnsetGives(w, n);
    } else {
      KnownGives(w, n);
    }
  }

  lemma KnownGives(w: World, n: Name)
    requires Inv(w) && n !in w.present
    ensures GoneTo(w, Known(w, n), n)
  {
    KnownKeeps(w, n);
    KnownExtends(w, n, "");
    assert w.present - {n} == w.present && w.parents - {n} == w.parents;
  }

  lemma UnsetGives(w: World, n: Name)
    requires w.Valid() && n in w.names && w.AbsentAreRoots()
    ensures var v := Unset(w, n);
            && v.Valid() && v.present == w.present - {n} && v.parents == w.parents - {n}
            && forall m | m in w.present && m != n :: v.data[m] == w.data[m]
  {
    UnsetPresent(w, n);
    UnsetShape(w, n);
    OneLess(w.parents, Unset(w, n).parents, n);
  }

  lemma OneLess(p: Parents, q: Parents, n: Name)
    requires AgreeOff(p, q, n) && n !in q
    ensures q == p - {n}
  {
  }

  /** Another namespace than n has n as its parent. */
  ghost predicate ReferredTo(p: Parents, n: Name) {
    exists c | c in p :: c != n && p[c] == n
  }

  /** A namespace that is gone stays known exactly while another one refers to it. */
  lemma GoneForgets(w: World, n: Name)
    requires Inv(w) && n in w.present
    ensures n in Gone(w, n).names <==> ReferredTo(w.parents, n)
  {
    RetiredNames(w, n);
    ReferredOff(w.parents, n);
    assert n !in Moves.Collected(w, n);
  }

  /** Of the others it makes only its parent forgotten, exactly if that is gone too and had no other child. */
  lemma GoneForgetsParent(w: World, n: Name, m: Name)
    requires Inv(w) && n in w.present && m in w.names && m != n
    ensures m !in Gone(w, n).names <==>
            m !in w.present && ParentName(w.parents, n) == Some(m) && !ReferredTo(w.parents - {n}, m)
  {
    RetiredNames(w, n);
    CollectedWhen(w, n, m);
  }

  lemma ReferredOff(p: Parents, n: Name)
    ensures ReferredTo(p, n) <==> Children(p - {n}, n) != {}
  {
    if c :| c in p && c != n && p[c] == n { assert c in Children(p - {n}, n); }
    if c :| c in Children(p - {n}, n) { assert c in p && c != n && p[c] == n; }
  }

  lemma CollectedWhen(w: World, n: Name, m: Name)
    requires w.Valid() && m in w.names && m != n && w.AbsentAreRoots()
    ensures m in Moves.Collected(w, n) <==>
            m !in w.present && ParentName(w.parents, n) == Some(m) && !ReferredTo(w.parents - {n}, m)
  {
    var p := w.parents;
    if ParentName(p, n) == Some(m) && m !in w.present {
      assert n in Children(p, m) && m !in p;
      if Children(p, m) != {n} {
        var c :| c in Children(p, m) && c != n;
        assert c in p - {n} && (p - {n})[c] == m;
      }
      if c :| c in p - {n} && c != m && (p - {n})[c] == m { assert c in Children(p, m) && c != n; }
    }
  }

  lemma RetiredNames(w: World, n: Name)
    requires Inv(w) && n in w.present
    ensures Gone(w, n).names ==
            w.names - Moves.Collected(w, n) - (if Children(w.parents - {n}, n) == {} then {n} else {})
  {
    MovableIfDifferent(w, n, None);
    SetParentRestructures(w, n, None);
    OneLess(w.parents, Moves.SetParent(w, n, None).parents, n);
    MovedNames(w, n);
    RetiredIs(Moves.SetParent(w, n, None), n);
  }

  lemma MovedNames(w: World, n: Name)
    requires w.Valid() && Moves.Movable(w, n, None)
    ensures Moves.SetParent(w, n, None).names == w.names - Moves.Collected(w, n)
  {
  }

  lemma RetiredIs(w: World, n: Name)
    ensures Retired(w, n).names == w.names - (if Children(w.parents, n) == {} then {n} else {})
  {
  }

  lemma UnsetPresent(w: World, n: Name)
    requires w.Valid() && n in w.names && w.AbsentAreRoots()
    ensures Unset(w, n).present == w.present - {n}
  {
    MovableIfDifferent(w, n, None);
    SetParentPresent(w, n, None);
  }

  // ----- what a step queues -----

  function Above(p: Parents, n: Name): set<Name> {
    if n in p then {p[n]} else {}
  }

  /** The parent and the children. */
  ghost function Relatives(p: Parents, n: Name): set<Name> {
    Above(p, n) + Children(p, n)
  }

  ghost predicate WasExternal(w: World, n: Name) {
    n in w.data && w.data[n].External()
  }

  /** What the change of n's parent from that in p to that in q queues: the members of the cycle that may be
      broken, the old and the new parent, and everything below. */
  ghost function MoveAffects(p: Parents, q: Parents, n: Name, external: bool): set<Name> {
    if external then Above(p, n)
    else if ParentName(p, n) == ParentName(q, n) then {}
    else Elems(CycleName(p, n)) + Above(p, n) + Above(q, n) + Descendants(q, n)
  }

  /** What a sync of n that turns w into v queues: besides, everything below if n becomes or stops being
      external, the relatives if n is new, and everything below if n becomes or stops being halted. */
  ghost function Affected(w: World, v: World, n: Name, c: Config): set<Name> {
    (if WasExternal(w, n) <==> IsExternal(c) then {} else Descendants(w.parents, n))
    + MoveAffects(w.parents, v.parents, n, IsExternal(c))
    + (if n in w.present then {} else Relatives(v.parents, n))
    + (if IsHalted(w, n) <==> IsHalted(v, n) then {} else Descendants(v.parents, n))
  }

  /** What finding n gone queues. */
  ghost function Bereft(w: World, n: Name): set<Name> {
    if n in w.present then Relatives(w.parents, n) else {}
  }

  /** That is its parent and its children. */
  lemma BereftMeans(w: World, n: Name)
    ensures forall m :: m in Bereft(w, n) <==>
              n in w.present && (ParentName(w.parents, n) == Some(m) || ParentName(w.parents, m) == Some(n))
  {
    forall m ensures m in Children(w.parents, n) <==> ParentName(w.parents, m) == Some(n) {
    }
  }

  /** Reconciles n: it is synced if the apiserver has it, and otherwise is gone. */
  ghost function Reconciled(site: Site, s: State, n: Name): State
    requires Inv(s.forest) && n in s.queue
  {
    var w, rest := s.forest, s.queue - {n};
    if n == "" || n in site.unmanaged then State(w, rest)
    else if n in site.configs then
      var v := Sync(w, n, site.configs[n], site.unmanaged);
      State(v, rest + Affected(w, v, n, site.configs[n]))
    else State(Gone(w, n), rest + Bereft(w, n))
  }

  /** The relatives that a sync of n queues: whoever loses or gains n as a child, the children of one that is
      new, and everything below one that moves or becomes or stops being external or halted. */
  lemma RelativesQueued(w: World, v: World, n: Name, c: Config, unmanaged: set<Name>, m: Name)
    requires SyncedTo(w, v, n, c, unmanaged)
    ensures var p, q := ParentName(w.parents, n), ParentName(v.parents, n);
            var queued := m in Affected(w, v, n, c);
            && (p != q && (p == Some(m) || q == Some(m)) ==> queued)
            && (p != q && HasAncestor(v.parents, m, n) && !ManagedElsewhere(c) ==> queued)
            && (n !in w.present && (q == Some(m) || ParentName(v.parents, m) == Some(n)) ==> queued)
            && (WasExternal(w, n) != WasExternal(v, n) && HasAncestor(w.parents, m, n) ==> queued)
            && (IsHalted(w, n) != IsHalted(v, n) && HasAncestor(v.parents, m, n) ==> queued)
  {
    ConfigMeans(c);
    if ParentName(v.parents, m) == Some(n) { assert m in Children(v.parents, n); }
  }

  /** Nor does it queue anything but the relatives, what is below, and the members of a cycle it was on. */
  lemma OnlyRelativesQueued(w: World, v: World, n: Name, c: Config, m: Name)
    requires m in Affected(w, v, n, c)
    ensures || ParentName(w.parents, n) == Some(m) || ParentName(v.parents, n) == Some(m)
            || HasAncestor(w.parents, m, n) || HasAncestor(v.parents, m, n)
  {
    if m in Elems(CycleName(w.parents, n)) { OnlyMembers(w.parents, n, m); }
    if m in Children(v.parents, n) { ReachesSelf(v.parents, n); }
  }

  lemma OnlyMembers(p: Parents, n: Name, m: Name)
    requires m in Elems(CycleName(p, n))
    ensures HasAncestor(p, m, n)
  {
    var l := LeastMember(p, n);
    AncestryMembers(p, l, m);
    CycleMembersReach(p, n, l);
    ReachesTrans(p, n, l, m);
    CycleReturns(p, n, m);
    ReachesCases(p, m, n);
  }

  // ----- what is to hold -----

  /** What every step keeps of the forest, whatever is queued. */
  ghost predicate Kept(site: Site, w: World) {
    site.Valid() && Inv(w) && ExternalAreRoots(w) && w.present !! site.unmanaged
  }

  /** n is where the apiserver says it should be. */
  ghost predicate PlacedAt(site: Site, w: World, n: Name) {
    if n in site.configs then
      && n in w.present && n in w.data && ParentName(w.parents, n) == Place(site.configs[n])
      && (w.data[n].External() <==> IsExternal(site.configs[n]))
    else n !in w.present
  }

  /** The conditions that a sync would give n now, were it already in its place. */
  ghost function Expected(site: Site, w: World, n: Name): seq<Condition>
    requires n in site.configs
  {
    CycleConditions(Structural(site.configs[n], site.unmanaged, w.present), OnCycle(w.parents, n))
  }

  /** And n has the conditions it should have there. */
  ghost predicate FreshAt(site: Site, w: World, n: Name) {
    PlacedAt(site, w, n) && (n in site.configs ==> w.data[n].conditions == Expected(site, w, n))
  }

  /** The namespaces that should be there or are. */
  ghost function Concerned(site: Site, w: World): set<Name> {
    site.configs.Keys + w.present
  }

  /** What is not queued is in its place. */
  ghost predicate Placed(site: Site, s: State) {
    Kept(site, s.forest) && forall n | n in Concerned(site, s.forest) && n !in s.queue :: PlacedAt(site, s.forest, n)
  }

  /** What is not queued is in its place and has the conditions it should have. */
  ghost predicate Fresh(site: Site, s: State) {
    Kept(site, s.forest) && forall n | n in Concerned(site, s.forest) && n !in s.queue :: FreshAt(site, s.forest, n)
  }

  // ----- structure -----

  lemma SyncKept(site: Site, w: World, v: World, n: Name)
    requires Kept(site, w) && n in site.configs && SyncedTo(w, v, n, site.configs[n], site.unmanaged)
    ensures Kept(site, v) && PlacedAt(site, v, n)
  {
    forall m | m in v.parents ensures !v.data[m].External() {
      if m != n { assert m in w.parents && m in w.present; }
    }
  }

  lemma GoneKept(site: Site, w: World, v: World, n: Name)
    requires Kept(site, w) && GoneTo(w, v, n)
    ensures Kept(site, v)
  {
    forall m | m in v.parents ensures !v.data[m].External() {
      assert m in w.parents && m in w.present;
    }
  }

  /** A sync leaves the others in or out of their places. */
  lemma SyncPlacesOthers(site: Site, w: World, v: World, n: Name, c: Config, m: Name)
    requires SyncedTo(w, v, n, c, site.unmanaged) && m != n
    ensures PlacedAt(site, w, m) <==> PlacedAt(site, v, m)
  {
  }

  lemma GonePlacesOthers(site: Site, w: World, v: World, n: Name, m: Name)
    requires GoneTo(w, v, n) && m != n
    ensures PlacedAt(site, w, m) <==> PlacedAt(site, v, m)
  {
  }

  /** Outside n, the same are out of place. */
  ghost predicate SameElsewhere(site: Site, w: World, v: World, n: Name) {
    forall m | m != n :: (m in w.present <==> m in v.present) && (PlacedAt(site, w, m) <==> PlacedAt(site, v, m))
  }

  lemma SyncSame(site: Site, w: World, v: World, n: Name, c: Config)
    requires SyncedTo(w, v, n, c, site.unmanaged)
    ensures SameElsewhere(site, w, v, n)
  {
    forall m | m != n ensures PlacedAt(site, w, m) <==> PlacedAt(site, v, m) {
      SyncPlacesOthers(site, w, v, n, c, m);
    }
  }

  lemma GoneSame(site: Site, w: World, v: World, n: Name)
    requires GoneTo(w, v, n)
    ensures SameElsewhere(site, w, v, n)
  {
    forall m | m != n ensures PlacedAt(site, w, m) <==> PlacedAt(site, v, m) {
      GonePlacesOthers(site, w, v, n, m);
    }
  }

  // ----- cycles that come and go -----

  lemma InCycleName(p: Parents, n: Name, m: Name)
    requires OnCycle(p, n) && Reaches(p, n, m)
    ensures m in Elems(CycleName(p, n))
  {
    var l := LeastMember(p, n);
    CycleMembersReach(p, n, l);
    CycleReturns(p, n, l);
    ReachesTrans(p, l, n, m);
    AncestryMembers(p, l, m);
  }

  lemma CycleGone(p: Parents, q: Parents, n: Name, m: Name)
    requires AgreeOff(p, q, n) && OnCycle(p, m) && !OnCycle(q, m) && m != n
    ensures OnCycle(p, n) && Reaches(p, n, m) && m in Descendants(p, n) && ParentName(p, n) != ParentName(q, n)
  {
    if !Reaches(p, m, n) {
      CycleElsewhere(q, p, n, m);
      assert false;
    }
    CycleClosed(p, m, n);
    CycleReturns(p, m, n);
    ReachesCases(p, m, n);
    if ParentName(p, n) == ParentName(q, n) {
      SameParents(p, q, n);
      assert false;
    }
  }

  lemma SameParents(p: Parents, q: Parents, n: Name)
    requires AgreeOff(p, q, n) && ParentName(p, n) == ParentName(q, n)
    ensures p == q
  {
    assert p.Keys == q.Keys;
  }

  /** A namespace that joins or leaves a cycle because n has moved is queued. */
  lemma CycleQueued(w: World, v: World, n: Name, c: Config, unmanaged: set<Name>, m: Name)
    requires SyncedTo(w, v, n, c, unmanaged) && ExternalAreRoots(w) && m != n
    requires OnCycle(w.parents, m) != OnCycle(v.parents, m)
    ensures m in Affected(w, v, n, c)
  {
    if OnCycle(w.parents, m) {
      CycleGone(w.parents, v.parents, n, m);
      InCycleName(w.parents, n, m);
    } else {
      CycleGone(v.parents, w.parents, n, m);
    }
  }

  // ----- conditions -----

  lemma {:induction false} SameTypeReplaced(cs: seq<Condition>, c: Condition, d: Condition)
    requires c.tp == d.tp
    ensures WithCondition(WithCondition(cs, c), d) == WithCondition(cs, d)
  {
    if cs != [] && cs[0].tp != c.tp { SameTypeReplaced(cs[1..], c, d); }
  }

  /** The conditions do not depend on whether a namespace other than the parent is there. */
  lemma StructuralSame(c: Config, unmanaged: set<Name>, p: set<Name>, q: set<Name>, n: Name)
    requires forall m | m != n :: m in p <==> m in q
    requires IsExternal(c) || WantedParent(c) != n
    ensures Structural(c, unmanaged, p) == Structural(c, unmanaged, q)
  {
  }

  /** With the same structure, what holds the same is as fresh. */
  lemma FreshAlike(site: Site, w: World, v: World, m: Name)
    requires v.parents == w.parents && v.present == w.present && (PlacedAt(site, w, m) <==> PlacedAt(site, v, m))
    requires m in w.present ==> m in w.data && m in v.data && v.data[m] == w.data[m]
    ensures FreshAt(site, w, m) <==> FreshAt(site, v, m)
  {
  }

  /** A namespace that is its own parent and new is halted for the cycle, not for the missing parent. */
  lemma SyncedIsFresh(site: Site, w: World, v: World, n: Name)
    requires Kept(site, w) && n in site.configs && SyncedTo(w, v, n, site.configs[n], site.unmanaged)
    ensures FreshAt(site, v, n)
  {
    var c := site.configs[n];
    SyncKept(site, w, v, n);
    if !IsExternal(c) && WantedParent(c) == n && n !in w.present {
      ReachesSelf(v.parents, n);
      assert OnCycle(v.parents, n);
      SameTypeReplaced(EarlyConditions(c), Condition(ACTIVITIES_HALTED, REASON_PARENT_MISSING),
                       Condition(ACTIVITIES_HALTED, REASON_IN_CYCLE));
    }
  }

  /** What waits for a new namespace is queued. */
  lemma ChildQueued(site: Site, w: World, v: World, n: Name, m: Name)
    requires n in site.configs && SyncedTo(w, v, n, site.configs[n], site.unmanaged) && n !in w.present && n != ""
    requires m != n && m in site.configs && PlacedAt(site, w, m) && Place(site.configs[m]) == Some(n)
    ensures m in Affected(w, v, n, site.configs[n])
  {
    assert m in Children(v.parents, n);
  }

  /** What a sync does not queue keeps the conditions it should have. */
  lemma SyncFreshOthers(site: Site, w: World, v: World, n: Name, m: Name)
    requires Kept(site, w) && n in site.configs && SyncedTo(w, v, n, site.configs[n], site.unmanaged)
    requires m != n && m !in Affected(w, v, n, site.configs[n]) && FreshAt(site, w, m)
    ensures FreshAt(site, v, m)
  {
    SyncPlacesOthers(site, w, v, n, site.configs[n], m);
    if OnCycle(w.parents, m) != OnCycle(v.parents, m) {
      CycleQueued(w, v, n, site.configs[n], site.unmanaged, m);
    }
    if m in site.configs {
      if Place(site.configs[m]) == Some(n) && n !in w.present {
        ChildQueued(site, w, v, n, m);
      }
      OneMorePresent(site.configs[m], site.unmanaged, w.present, n);
    }
  }

  lemma OneMorePresent(c: Config, unmanaged: set<Name>, present: set<Name>, n: Name)
    requires n != "" && (Place(c) == Some(n) ==> n in present)
    ensures Structural(c, unmanaged, present + {n}) == Structural(c, unmanaged, present)
  {
    if Place(c) == Some(n) {
      assert present + {n} == present;
    } else {
      StructuralSame(c, unmanaged, present, present + {n}, n);
    }
  }

  /** None of the conditions a sync finds elsewhere is the one about cycles. */
  lemma NotForACycle(c: Config, unmanaged: set<Name>, present: set<Name>)
    ensures Condition(ACTIVITIES_HALTED, REASON_IN_CYCLE) !in Structural(c, unmanaged, present)
  {
  }

  // ----- one step -----

  /** What concerns t and is not queued there concerned s and was not queued. */
  lemma StillUnqueued(site: Site, s: State, t: State, n: Name, m: Name)
    requires SameElsewhere(site, s.forest, t.forest, n) && s.queue - {n} <= t.queue
    requires m in Concerned(site, t.forest) && m !in t.queue && m != n
    ensures m in Concerned(site, s.forest) && m !in s.queue
  {
  }

  lemma StaysPlaced(site: Site, s: State, t: State, n: Name)
    requires Placed(site, s) && Kept(site, t.forest) && SameElsewhere(site, s.forest, t.forest, n)
    requires s.queue - {n} <= t.queue && (n in Concerned(site, t.forest) ==> PlacedAt(site, t.forest, n))
    ensures Placed(site, t)
  {
    forall m | m in Concerned(site, t.forest) && m !in t.queue ensures PlacedAt(site, t.forest, m) {
      if m != n { StillUnqueued(site, s, t, n, m); }
    }
  }

  /** Every reconciliation leaves every namespace that is not queued in its place. */
  lemma StepPlaced(site: Site, s: State, n: Name)
    requires Placed(site, s) && n in s.queue
    ensures Placed(site, Reconciled(site, s, n))
  {
    var w, t := s.forest, Reconciled(site, s, n);
    if n in site.configs {
      SyncGives(w, n, site.configs[n], site.unmanaged);
      SyncKept(site, w, t.forest, n);
      SyncSame(site, w, t.forest, n, site.configs[n]);
      StaysPlaced(site, s, t, n);
    } else if n != "" && n !in site.unmanaged {
      GoneGives(w, n);
      GoneKept(site, w, t.forest, n);
      GoneSame(site, w, t.forest, n);
      StaysPlaced(site, s, t, n);
    }
  }

  lemma SyncFresh(site: Site, s: State, n: Name)
    requires Fresh(site, s) && n in s.queue && n in site.configs
    ensures Fresh(site, Reconciled(site, s, n))
  {
    var w, t := s.forest, Reconciled(site, s, n);
    SyncGives(w, n, site.configs[n], site.unmanaged);
    SyncKept(site, w, t.forest, n);
    SyncSame(site, w, t.forest, n, site.configs[n]);
    SyncedIsFresh(site, w, t.forest, n);
    forall m | m in Concerned(site, t.forest) && m !in t.queue && m != n ensures FreshAt(site, t.forest, m) {
      StillUnqueued(site, s, t, n, m);
      SyncFreshOthers(site, w, t.forest, n, m);
    }
  }

  /** Every member of the cycle that goes with n is a relative of n or is queued anyway. */
  ghost predicate Covered(s: State, n: Name) {
    n in s.forest.present && OnCycle(s.forest.parents, n) ==>
      forall m | Reaches(s.forest.parents, n, m) && m != n :: m in Relatives(s.forest.parents, n) || m in s.queue
  }

  /** What is not a relative of a namespace that goes keeps the conditions it should have, unless it was on a
      cycle with it. */
  lemma GoneFreshOthers(site: Site, w: World, v: World, n: Name, m: Name)
    requires Kept(site, w) && GoneTo(w, v, n) && FreshAt(site, w, m)
    requires n != "" && m != n && m !in Bereft(w, n) && (OnCycle(w.parents, n) ==> !Reaches(w.parents, n, m))
    ensures FreshAt(site, v, m)
  {
    GonePlacesOthers(site, w, v, n, m);
    if OnCycle(w.parents, m) != OnCycle(v.parents, m) {
      SameOffCycle(w.parents, v.parents, n, m);
    }
    if m in site.configs {
      if Place(site.configs[m]) == Some(n) {
        assert m in Children(w.parents, n);
      }
      OneLessPresent(site.configs[m], site.unmanaged, w.present, n);
    }
  }

  lemma OneLessPresent(c: Config, unmanaged: set<Name>, present: set<Name>, n: Name)
    requires n != "" && (Place(c) == Some(n) ==> n !in present)
    ensures Structural(c, unmanaged, present - {n}) == Structural(c, unmanaged, present)
  {
    if Place(c) == Some(n) {
      assert present - {n} == present;
    } else {
      StructuralSame(c, unmanaged, present, present - {n}, n);
    }
  }

  lemma SameOffCycle(p: Parents, q: Parents, n: Name, m: Name)
    requires AgreeOff(p, q, n) && n !in q && m != n && (OnCycle(p, n) ==> !Reaches(p, n, m))
    ensures OnCycle(p, m) <==> OnCycle(q, m)
  {
    if OnCycle(p, m) && !OnCycle(q, m) { CycleGone(p, q, n, m); }
    if OnCycle(q, m) && !OnCycle(p, m) { CycleGone(q, p, n, m); }
  }

  /** A member of the cycle that is not queued is left with a condition it should not have. */
  lemma LeftStale(site: Site, w: World, v: World, n: Name, m: Name)
    requires Kept(site, w) && GoneTo(w, v, n) && FreshAt(site, w, m)
    requires m != n && OnCycle(w.parents, n) && Reaches(w.parents, n, m)
    ensures m in Concerned(site, v) && !FreshAt(site, v, m)
  {
    var p, q := w.parents, v.parents;
    CycleClosed(p, n, m);
    CycleReturns(p, n, m);
    ReachUnaffected(p, q, n, m);
    if OnCycle(q, m) { CycleClosed(q, m, n); }
    assert m in w.parents && m in w.present;
    assert m in site.configs;
    NotForACycle(site.configs[m], site.unmanaged, v.present);
  }

  lemma GoneFreshExactly(site: Site, s: State, n: Name)
    requires Fresh(site, s) && n in s.queue && n != "" && n !in site.unmanaged && n !in site.configs
    ensures Fresh(site, Reconciled(site, s, n)) <==> Covered(s, n)
  {
    var w, t := s.forest, Reconciled(site, s, n);
    GoneGives(w, n);
    GoneKept(site, w, t.forest, n);
    if Covered(s, n) {
      forall m | m in Concerned(site, t.forest) && m !in t.queue ensures FreshAt(site, t.forest, m) {
        GoneFreshOthers(site, w, t.forest, n, m);
      }
    } else {
      var m :| Reaches(w.parents, n, m) && m != n && m !in Relatives(w.parents, n) && m !in s.queue;
      CycleClosed(w.parents, n, m);
      assert m in Concerned(site, w);
      LeftStale(site, w, t.forest, n, m);
    }
  }

  /** A reconciliation leaves every namespace that is not queued with the conditions a sync would give it,
      exactly if it is a sync, or finds gone a namespace none of whose cycle goes unnoticed. */
  lemma StepFreshExactly(site: Site, s: State, n: Name)
    requires Fresh(site, s) && n in s.queue
    ensures Fresh(site, Reconciled(site, s, n)) <==> n in site.configs || Covered(s, n)
  {
    if n in site.configs {
      SyncFresh(site, s, n);
    } else if n != "" && n !in site.unmanaged {
      GoneFreshExactly(site, s, n);
    }
  }

  /** With nothing else queued, that is a cycle of at most three. */
  lemma CoveredExactly(s: State, n: Name)
    requires s.queue == {n} && n in s.forest.present && OnCycle(s.forest.parents, n)
    ensures Covered(s, n) <==> |AncestryOf(s.forest.parents, n)| <= 4
  {
    var p := s.forest.parents;
    var l := AncestryOf(p, n);
    CycleAtFront(p, n);
    AncestryIs(p, n);
    if |l| <= 4 {
      forall m | Reaches(p, n, m) && m != n ensures m in Relatives(p, n) {
        AncestryMembers(p, n, m);
        var i :| 0 <= i < |l| && l[i] == m;
        assert l[1] in p && p[l[1]] == l[0];
        assert i == 1 || i == |l| - 2;
      }
    } else {
      AncestryMembers(p, n, l[2]);
      assert p[l[2]] == l[1] && p[l[|l| - 1]] == l[|l| - 2];
      assert l[2] != l[|l| - 1] && l[2] != l[|l| - 2] && l[1] != l[|l| - 1];
      assert l[2] !in Relatives(p, n);
    }
  }

  // ----- the queue drains -----

  ghost function Unplaced(site: Site, w: World): set<Name> {
    set n | n in Concerned(site, w) && !PlacedAt(site, w, n)
  }

  ghost function Stale(site: Site, w: World): set<Name> {
    set n | n in Concerned(site, w) && !FreshAt(site, w, n)
  }

  /** Fewer are out of place, or as many and fewer have other conditions than they should, or as many and
      fewer are queued. */
  ghost predicate Nearer(site: Site, s: State, t: State) {
    || Unplaced(site, t.forest) < Unplaced(site, s.forest)
    || (Unplaced(site, t.forest) == Unplaced(site, s.forest) && Stale(site, t.forest) < Stale(site, s.forest))
    || (Unplaced(site, t.forest) == Unplaced(site, s.forest) && Stale(site, t.forest) == Stale(site, s.forest)
        && t.queue < s.queue)
  }

  /** A sync of a namespace that is in its place changes no link, finds nothing new, and queues only what is
      below, if a halt comes or goes. */
  lemma SyncInPlace(site: Site, w: World, v: World, n: Name)
    requires Kept(site, w) && n in site.configs && PlacedAt(site, w, n)
    requires SyncedTo(w, v, n, site.configs[n], site.unmanaged)
    ensures v.parents == w.parents && v.present == w.present
    ensures Affected(w, v, n, site.configs[n]) ==
            if IsHalted(w, n) <==> IsHalted(v, n) then {} else Descendants(w.parents, n)
  {
    SameParents(w.parents, v.parents, n);
    assert v.present == w.present;
  }

  /** A namespace has the conditions it should have exactly if a sync would leave it where it is and give it
      those it has. */
  lemma FreshMeans(site: Site, w: World, n: Name)
    requires Kept(site, w) && n in site.configs
    ensures var v := Sync(w, n, site.configs[n], site.unmanaged);
            && n in v.data
            && (FreshAt(site, w, n) <==> PlacedAt(site, w, n) && v.data[n].conditions == w.data[n].conditions)
  {
    SyncGives(w, n, site.configs[n], site.unmanaged);
    if PlacedAt(site, w, n) {
      SyncInPlace(site, w, Sync(w, n, site.configs[n], site.unmanaged), n);
    }
  }

  lemma InPlaceOthers(site: Site, w: World, v: World, n: Name)
    requires Kept(site, w) && n in site.configs && PlacedAt(site, w, n)
    requires SyncedTo(w, v, n, site.configs[n], site.unmanaged)
    ensures forall m | m != n :: FreshAt(site, w, m) <==> FreshAt(site, v, m)
  {
    SyncInPlace(site, w, v, n);
    forall m | m != n ensures FreshAt(site, w, m) <==> FreshAt(site, v, m) {
      SyncPlacesOthers(site, w, v, n, site.configs[n], m);
      FreshAlike(site, w, v, m);
    }
  }

  lemma PutInPlace(site: Site, w: World, v: World, n: Name)
    requires SameElsewhere(site, w, v, n) && n in Concerned(site, w) && !PlacedAt(site, w, n) && PlacedAt(site, v, n)
    ensures Unplaced(site, v) < Unplaced(site, w)
  {
    assert n in Unplaced(site, w) && n !in Unplaced(site, v);
  }

  lemma LeftInPlace(site: Site, w: World, v: World, n: Name)
    requires SameElsewhere(site, w, v, n) && (n in w.present <==> n in v.present)
    requires PlacedAt(site, w, n) <==> PlacedAt(site, v, n)
    ensures Unplaced(site, v) == Unplaced(site, w)
  {
  }

  lemma Freshened(site: Site, w: World, v: World, n: Name)
    requires v.present == w.present && (forall m | m != n :: FreshAt(site, w, m) <==> FreshAt(site, v, m))
    requires n in site.configs && FreshAt(site, v, n)
    ensures if FreshAt(site, w, n) then Stale(site, v) == Stale(site, w) else Stale(site, v) < Stale(site, w)
  {
    if !FreshAt(site, w, n) { assert n in Stale(site, w) && n !in Stale(site, v); }
  }

  lemma SyncNearer(site: Site, s: State, n: Name)
    requires Kept(site, s.forest) && n in s.queue && n in site.configs
    ensures Nearer(site, s, Reconciled(site, s, n))
  {
    var w, v := s.forest, Reconciled(site, s, n).forest;
    SyncGives(w, n, site.configs[n], site.unmanaged);
    SyncSame(site, w, v, n, site.configs[n]);
    SyncedIsFresh(site, w, v, n);
    if PlacedAt(site, w, n) {
      SyncInPlace(site, w, v, n);
      InPlaceOthers(site, w, v, n);
      LeftInPlace(site, w, v, n);
      Freshened(site, w, v, n);
    } else {
      PutInPlace(site, w, v, n);
    }
  }

  lemma GoneAlready(site: Site, w: World, v: World, n: Name)
    requires GoneTo(w, v, n) && n !in w.present && n !in site.configs
    ensures Unplaced(site, v) == Unplaced(site, w) && Stale(site, v) == Stale(site, w)
  {
    GoneSame(site, w, v, n);
    LeftInPlace(site, w, v, n);
    assert v.present == w.present;
    forall m ensures FreshAt(site, w, m) <==> FreshAt(site, v, m) {
      GoneFreshAlike(site, w, v, n, m);
    }
  }

  lemma GoneFreshAlike(site: Site, w: World, v: World, n: Name, m: Name)
    requires GoneTo(w, v, n) && n !in w.present && n !in site.configs
    ensures FreshAt(site, w, m) <==> FreshAt(site, v, m)
  {
    assert w.present - {n} == w.present && w.parents - {n} == w.parents;
    if m != n { GonePlacesOthers(site, w, v, n, m); }
    FreshAlike(site, w, v, m);
  }

  lemma GoneNearer(site: Site, s: State, n: Name)
    requires Kept(site, s.forest) && n in s.queue && n != "" && n !in site.unmanaged && n !in site.configs
    ensures Nearer(site, s, Reconciled(site, s, n))
  {
    var w, v := s.forest, Reconciled(site, s, n).forest;
    GoneGives(w, n);
    if n in w.present {
      GoneSame(site, w, v, n);
      PutInPlace(site, w, v, n);
    } else {
      GoneAlready(site, w, v, n);
    }
  }

  /** Whichever queued namespace is taken next, the end is nearer, although much may be queued again. */
  lemma StepNearer(site: Site, s: State, n: Name)
    requires Kept(site, s.forest) && n in s.queue
    ensures Nearer(site, s, Reconciled(site, s, n))
  {
    if n in site.configs {
      SyncNearer(site, s, n);
    } else if n != "" && n !in site.unmanaged {
      GoneNearer(site, s, n);
    }
  }

  lemma StepKept(site: Site, s: State, n: Name)
    requires Kept(site, s.forest) && n in s.queue
    ensures Kept(site, Reconciled(site, s, n).forest)
  {
    var w, t := s.forest, Reconciled(site, s, n);
    if n in site.configs {
      SyncGives(w, n, site.configs[n], site.unmanaged);
      SyncKept(site, w, t.forest, n);
    } else if n != "" && n !in site.unmanaged {
      GoneGives(w, n);
      GoneKept(site, w, t.forest, n);
    }
  }

  // ----- runs -----

  /** A run that takes these namespaces from the queue, in this order, leads from s to t. */
  ghost predicate LeadsTo(site: Site, s: State, order: seq<Name>, t: State)
    decreases |order|
  {
    Kept(site, s.forest) &&
    if order == [] then t == s
    else order[0] in s.queue && LeadsTo(site, Reconciled(site, s, order[0]), order[1..], t)
  }

  lemma LeadsFrom(site: Site, s: State, n: Name, order: seq<Name>, t: State)
    requires Kept(site, s.forest) && n in s.queue && LeadsTo(site, Reconciled(site, s, n), order, t)
    ensures LeadsTo(site, s, [n] + order, t)
  {
    assert ([n] + order)[1..] == order;
  }

  /** Whatever is taken from the queue next, and next, some time the queue is empty. */
  lemma {:induction false} Drains(site: Site, s: State) returns (order: seq<Name>, t: State)
    requires Kept(site, s.forest)
    ensures LeadsTo(site, s, order, t) && t.queue == {}
    decreases Unplaced(site, s.forest), Stale(site, s.forest), s.queue
  {
    if n :| n in s.queue {
      StepKept(site, s, n);
      StepNearer(site, s, n);
      order, t := Drains(site, Reconciled(site, s, n));
      LeadsFrom(site, s, n, order, t);
      order := [n] + order;
    } else {
      order, t := [], s;
    }
  }

  lemma {:induction false} RunPlaces(site: Site, s: State, order: seq<Name>, t: State)
    requires Placed(site, s) && LeadsTo(site, s, order, t)
    ensures Placed(site, t)
    decreases |order|
  {
    if order != [] {
      StepPlaced(site, s, order[0]);
      RunPlaces(site, Reconciled(site, s, order[0]), order[1..], t);
    }
  }

  /** No namespace on a cycle is found gone with a member of the cycle unnoticed. */
  ghost predicate AllCovered(site: Site, s: State, order: seq<Name>)
    decreases |order|
  {
    order == [] ||
    (&& Kept(site, s.forest) && order[0] in s.queue && (order[0] in site.configs || Covered(s, order[0]))
     && AllCovered(site, Reconciled(site, s, order[0]), order[1..]))
  }

  lemma {:induction false} RunFreshens(site: Site, s: State, order: seq<Name>, t: State)
    requires Fresh(site, s) && LeadsTo(site, s, order, t) && AllCovered(site, s, order)
    ensures Fresh(site, t)
    decreases |order|
  {
    if order != [] {
      StepFreshExactly(site, s, order[0]);
      RunFreshens(site, Reconciled(site, s, order[0]), order[1..], t);
    }
  }

  /** Where the configurations put the namespaces. */
  function Links(site: Site): Parents {
    map n | n in site.configs && Place(site.configs[n]).Some? :: Place(site.configs[n]).value
  }

  /** So whatever the order, in the end exactly the configured namespaces are there, each in its place. */
  lemma DrainedPlaces(site: Site, s: State)
    requires Placed(site, s) && s.queue == {}
    ensures s.forest.present == site.configs.Keys && s.forest.parents == Links(site)
  {
    var w := s.forest;
    forall n ensures n in w.present <==> n in site.configs {
      if n in Concerned(site, w) { assert PlacedAt(site, w, n); }
    }
    forall n | n in w.parents || n in Links(site)
      ensures n in w.parents && n in Links(site) && w.parents[n] == Links(site)[n]
    {
      assert n in w.present;
      assert PlacedAt(site, w, n);
    }
  }

  /** In terms of the configurations: each is where its own puts it. */
  lemma LinksMean(site: Site, n: Name)
    requires n in site.configs
    ensures PutsUnder(site.configs[n], ParentName(Links(site), n))
  {
    ConfigMeans(site.configs[n]);
  }

  /** And if no cycle went unnoticed, each has the conditions that the configurations alone determine. */
  lemma DrainedConditions(site: Site, s: State, n: Name)
    requires Fresh(site, s) && s.queue == {} && n in site.configs
    ensures n in s.forest.data && s.forest.data[n].conditions ==
            CycleConditions(Structural(site.configs[n], site.unmanaged, site.configs.Keys), OnCycle(Links(site), n))
  {
    DrainedPlaces(site, s);
    assert FreshAt(site, s.forest, n);
  }

  /** At start-up nothing is known and everything is queued. */
  lemma StartFresh(site: Site)
    requires site.Valid()
    ensures Fresh(site, State(EMPTY_WORLD, site.configs.Keys))
  {
    EmptyInv();
  }

  /** A run that finds nothing gone misses nothing. */
  lemma {:induction false} NothingGone(site: Site, s: State, order: seq<Name>, t: State)
    requires LeadsTo(site, s, order, t) && s.forest.present <= site.configs.Keys
    ensures AllCovered(site, s, order)
    decreases |order|
  {
    if order != [] {
      var n := order[0];
      var w, x := s.forest, Reconciled(site, s, n);
      if n in site.configs {
        SyncGives(w, n, site.configs[n], site.unmanaged);
      } else if n != "" && n !in site.unmanaged {
        GoneGives(w, n);
      }
      NothingGone(site, x, order[1..], t);
    }
  }

  /** n is where its configuration puts it, among exactly the configured namespaces, with exactly the
      conditions it should have there. */
  ghost predicate AsConfigured(site: Site, w: World, n: Name)
    requires n in site.configs
  {
    && n in w.data && PutsUnder(site.configs[n], ParentName(w.parents, n))
    && forall d :: d in w.data[n].conditions <==>
                   Due(site.configs[n], site.unmanaged, site.configs.Keys, OnCycle(w.parents, n), d)
  }

  lemma DrainedMeans(site: Site, s: State, n: Name)
    requires Fresh(site, s) && s.queue == {} && n in site.configs
    ensures AsConfigured(site, s.forest, n)
  {
    DrainedPlaces(site, s);
    DrainedConditions(site, s, n);
    LinksMean(site, n);
    forall d
      ensures d in s.forest.data[n].conditions <==>
              Due(site.configs[n], site.unmanaged, site.configs.Keys, OnCycle(s.forest.parents, n), d)
    {
      ConditionsMean(site.configs[n], site.unmanaged, site.configs.Keys, OnCycle(s.forest.parents, n), d);
    }
  }

  /** So from start-up, in whatever order the namespaces are taken, the forest ends up as configured. */
  lemma StartUp(site: Site, order: seq<Name>, t: State)
    requires site.Valid() && LeadsTo(site, State(EMPTY_WORLD, site.configs.Keys), order, t) && t.queue == {}
    ensures t.forest.present == site.configs.Keys && t.forest.parents == Links(site)
    ensures forall n | n in site.configs :: AsConfigured(site, t.forest, n)
  {
    var s := State(EMPTY_WORLD, site.configs.Keys);
    StartFresh(site);
    NothingGone(site, s, order, t);
    RunFreshens(site, s, order, t);
    RunPlaces(site, s, order, t);
    DrainedPlaces(site, t);
    forall n | n in site.configs ensures AsConfigured(site, t.forest, n) {
      DrainedMeans(site, t, n);
    }
  }

  /** A user or a controller changes or deletes a namespace or its configuration, which queues it. */
  lemma EditKeeps(site: Site, s: State, n: Name, c: Option<Config>)
    requires Fresh(site, s) && n != "" && n !in site.unmanaged
    ensures var configs := if c.Some? then site.configs[n := c.value] else site.configs - {n};
            Fresh(site.(configs := configs), s.(queue := s.queue + {n}))
  {
    var after := site.(configs := if c.Some? then site.configs[n := c.value] else site.configs - {n});
    forall m | m in Concerned(after, s.forest) && m != n && m !in s.queue ensures FreshAt(after, s.forest, m) {
      assert FreshAt(site, s.forest, m);
    }
  }
}
