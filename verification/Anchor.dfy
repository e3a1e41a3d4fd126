/** Subnamespace anchors: the protocol by which an anchor and the namespace it stands for come and go. */
module Anchor {
  import opened Ancestry
  import opened World
  import opened Forest
  import Cascading

  datatype Status = Unset | Missing | Conflicting | Bound | Forbidden

  /** An anchor on the apiserver: its status, whether its deletion was asked for, and whether it has
      HNC's finalizer, which keeps it there. */
  datatype Anchor = Anchor(status: Status, deleting: bool, finalizer: bool)

  /** The namespace of the anchor's name: its subnamespace-of annotation, and whether its deletion was
      asked for. */
  datatype Subnamespace = Subnamespace(owner: Name, deleting: bool)

  /** An anchor in the namespace `parent` and the namespace of its name. `doomed` notes that HNC asked
      for the deletion of the namespace that is there now. */
  datatype Pair = Pair(parent: Name, anchor: Option<Anchor>, ns: Option<Subnamespace>, doomed: bool)

  /** What a reconciliation finds besides the pair: whether the names are managed by HNC, whether the
      CRD is being deleted, whether the namespace has no children in the forest, and whether cascading
      deletion is allowed for it. */
  datatype Context = Context(parentManaged: bool, nameManaged: bool, deletingCRD: bool, leaf: bool, cascading: bool)

  /** How the namespace relates to an anchor in that parent. */
  function StatusOf(parent: Name, ns: Option<Subnamespace>): Status {
    if ns.None? then Missing else if ns.value.owner != parent then Conflicting else Bound
  }

  predicate ShouldDelete(a: Anchor, ns: Option<Subnamespace>, c: Context) {
    && !c.deletingCRD && a.status == Bound && ns.Some? && !ns.value.deleting && a.finalizer
    && (c.leaf || c.cascading)
  }

  predicate ShouldFinalize(a: Anchor, ns: Option<Subnamespace>) {
    && a.finalizer
    && (a.status == Bound ==> ns.Some? && !ns.value.deleting)
  }

  datatype Action = DeleteNamespace | Finalize | Wait

  function OnDeleting(a: Anchor, ns: Option<Subnamespace>, c: Context): Action {
    if ShouldDelete(a, ns, c) then DeleteNamespace else if ShouldFinalize(a, ns) then Finalize else Wait
  }

  function Updated(s: Pair): Anchor
    requires s.anchor.Some?
  {
    s.anchor.value.(status := StatusOf(s.parent, s.ns))
  }

  /** One reconciliation of the anchor. */
  function Reconciled(s: Pair, c: Context): Pair {
    if s.anchor.None? then s
    else if !c.parentManaged then s.(anchor := Some(s.anchor.value.(finalizer := false)))
    else if !c.nameManaged then s.(anchor := Some(s.anchor.value.(status := Forbidden, finalizer := false)))
    else if s.anchor.value.deleting then
      match OnDeleting(Updated(s), s.ns, c)
      case DeleteNamespace => if s.ns.None? then s else s.(ns := Some(s.ns.value.(deleting := true)), doomed := true)
      case Finalize => s.(anchor := Some(Updated(s).(finalizer := false)))
      case Wait => s
    else
      s.(anchor := Some(Updated(s).(finalizer := true)),
         ns := if s.ns.None? then Some(Subnamespace(s.parent, false)) else s.ns)
  }

  /** What a reconciliation makes of an anchor that is there to stay: it has the finalizer, and there is a
      namespace: the one that was there, or else a new one of this parent. The status tells what was found. */
  lemma Establishes(s: Pair, c: Context)
    requires s.anchor.Some? && !s.anchor.value.deleting && c.parentManaged && c.nameManaged
    ensures var r := Reconciled(s, c);
            && r.parent == s.parent && r.doomed == s.doomed
            && r.anchor.Some? && r.anchor.value.finalizer && !r.anchor.value.deleting
            && (s.ns.Some? ==> r.ns == s.ns)
            && (s.ns.None? ==> r.ns.Some? && r.ns.value.owner == s.parent && !r.ns.value.deleting)
            && (r.anchor.value.status == Missing <==> s.ns.None?)
            && (r.anchor.value.status == Bound <==> s.ns.Some? && s.ns.value.owner == s.parent)
            && (r.anchor.value.status == Conflicting <==> s.ns.Some? && s.ns.value.owner != s.parent)
  {
  }

  /** The reconciliation takes the finalizer off an anchor that is being deleted. */
  predicate Finalizes(s: Pair, c: Context) {
    && s.anchor.Some? && s.anchor.value.deleting && s.anchor.value.finalizer
    && Reconciled(s, c).anchor.Some? && !Reconciled(s, c).anchor.value.finalizer
  }

  /** It does so exactly when the namespace is missing, is another parent's, or is there and stays; nothing else
      changes but the status, which then says what was found. */
  lemma FinalizesWhen(s: Pair, c: Context)
    requires c.parentManaged && c.nameManaged
    ensures Finalizes(s, c) <==>
              && s.anchor.Some? && s.anchor.value.deleting && s.anchor.value.finalizer
              && (s.ns.None? || s.ns.value.owner != s.parent
                  || (!s.ns.value.deleting && (c.deletingCRD || !(c.leaf || c.cascading))))
    ensures Finalizes(s, c) ==>
              && Reconciled(s, c) == s.(anchor := Reconciled(s, c).anchor) && Reconciled(s, c).anchor.value.deleting
              && (Reconciled(s, c).anchor.value.status == Missing <==> s.ns.None?)
              && (Reconciled(s, c).anchor.value.status == Bound <==> s.ns.Some? && s.ns.value.owner == s.parent)
              && (Reconciled(s, c).anchor.value.status == Conflicting <==> s.ns.Some? && s.ns.value.owner != s.parent)
  {
  }

  /** What is not HNC's business it leaves alone, but for its finalizer and, where the name is reserved, the
      status that says so. */
  lemma Disowns(s: Pair, c: Context)
    requires s.anchor.Some? && !(c.parentManaged && c.nameManaged)
    ensures var r := Reconciled(s, c);
            && r.parent == s.parent && r.ns == s.ns && r.doomed == s.doomed
            && r.anchor.Some? && !r.anchor.value.finalizer && r.anchor.value.deleting == s.anchor.value.deleting
            && r.anchor.value.status == if c.parentManaged then Forbidden else s.anchor.value.status
  {
  }

  /** What else can happen to the pair, as long as nobody touches the annotation or the finalizer. */
  datatype Event =
    | Reconcile(context: Context)
    | CreateAnchor
    | DeleteAnchor
    | PurgeAnchor
    | CreateSubnamespace(owner: Name)
    | DeleteSubnamespace
    | PurgeSubnamespace

  function Step(s: Pair, e: Event): Pair {
    match e
    case Reconcile(c) => Reconciled(s, c)
    case CreateAnchor => if s.anchor.None? then s.(anchor := Some(Anchor(Unset, false, false))) else s
    case DeleteAnchor => if s.anchor.Some? then s.(anchor := Some(s.anchor.value.(deleting := true))) else s
    case PurgeAnchor =>
      if s.anchor.Some? && s.anchor.value.deleting && !s.anchor.value.finalizer then s.(anchor := None) else s
    case CreateSubnamespace(owner) => if s.ns.None? then s.(ns := Some(Subnamespace(owner, false))) else s
    case DeleteSubnamespace => if s.ns.Some? then s.(ns := Some(s.ns.value.(deleting := true))) else s
    case PurgeSubnamespace => if s.ns.Some? && s.ns.value.deleting then s.(ns := None, doomed := false) else s
  }

  /** The step asks for the deletion of the namespace. */
  predicate Deletes(s: Pair, e: Event) {
    e.Reconcile? && s.ns.Some? && !s.ns.value.deleting && Step(s, e).ns != s.ns
  }

  /** HNC deletes a namespace exactly when the anchor it is bound to is being deleted and still has its
      finalizer, both are managed, the CRD stays, and nothing else would go with the namespace unless
      that is allowed. */
  lemma DeletesWhen(s: Pair, e: Event)
    ensures Deletes(s, e) <==>
              && e.Reconcile? && s.anchor.Some? && s.anchor.value.deleting && s.anchor.value.finalizer
              && s.ns.Some? && !s.ns.value.deleting && s.ns.value.owner == s.parent
              && e.context.parentManaged && e.context.nameManaged && !e.context.deletingCRD
              && (e.context.leaf || e.context.cascading)
  {
  }

  /** And then the namespace is on its way out, which is noted. */
  lemma DeletingIsNoted(s: Pair, e: Event)
    requires Deletes(s, e)
    ensures var r := Step(s, e);
            r.doomed && r.anchor == s.anchor && r.ns == Some(Subnamespace(s.ns.value.owner, true))
  {
  }

  /** A namespace that HNC has asked to delete is bound to an anchor that is still there, and cannot go
      before it. */
  predicate Guarded(s: Pair) {
    s.doomed ==>
      && s.ns.Some? && s.ns.value.deleting && s.ns.value.owner == s.parent
      && s.anchor.Some? && s.anchor.value.deleting && s.anchor.value.finalizer
  }

  function Run(s: Pair, events: seq<Event>): Pair
    decreases |events|
  {
    if events == [] then s else Run(Step(s, events[0]), events[1..])
  }

  predicate NamesManaged(events: seq<Event>) {
    forall e | e in events && e.Reconcile? :: e.context.parentManaged && e.context.nameManaged
  }

  /** The step finds that one of the names is no longer managed while the namespace is still going. */
  predicate Abandons(s: Pair, e: Event) {
    s.doomed && e.Reconcile? && !(e.context.parentManaged && e.context.nameManaged)
  }

  lemma GuardedExactly(s: Pair, e: Event)
    requires Guarded(s)
    ensures Guarded(Step(s, e)) <==> !Abandons(s, e)
  {
  }

  /** The namespace is guarded at every point of a run. */
  predicate AlwaysGuarded(s: Pair, events: seq<Event>)
    decreases |events|
  {
    Guarded(s) && (events != [] ==> AlwaysGuarded(Step(s, events[0]), events[1..]))
  }

  predicate NeverAbandoned(s: Pair, events: seq<Event>)
    decreases |events|
  {
    events != [] ==> !Abandons(s, events[0]) && NeverAbandoned(Step(s, events[0]), events[1..])
  }

  /** Over every run, from the deletion of the namespace until it is gone, the anchor keeps its
      finalizer, exactly if no reconciliation meanwhile finds one of the names unmanaged. */
  lemma {:induction false} RunGuardedExactly(s: Pair, events: seq<Event>)
    requires Guarded(s)
    ensures AlwaysGuarded(s, events) <==> NeverAbandoned(s, events)
    decreases |events|
  {
    if events != [] {
      GuardedExactly(s, events[0]);
      if !Abandons(s, events[0]) {
        RunGuardedExactly(Step(s, events[0]), events[1..]);
      }
    }
  }

  /** With names that stay managed, that is every run. */
  lemma {:induction false} RunGuarded(s: Pair, events: seq<Event>)
    requires Guarded(s) && NamesManaged(events)
    ensures AlwaysGuarded(s, events)
    decreases |events|
  {
    if events != [] {
      assert events[0] in events;
      assert NamesManaged(events[1..]);
      RunGuarded(Step(s, events[0]), events[1..]);
    }
  }

  /** An anchor whose name stops being managed loses its finalizer while its namespace is going. */
  lemma AbandonedEarly()
    ensures var s := Pair("p", Some(Anchor(Bound, true, true)), Some(Subnamespace("p", true)), true);
            var v := Step(s, Reconcile(Context(true, false, false, true, false)));
            Guarded(s) && !Guarded(v) && v.ns.Some? && v.anchor == Some(Anchor(Forbidden, true, false))
  {
  }

  // ----- the creation ends -----

  /** Nothing on the run is deleted or purged, nor is the anchor created. */
  predicate NothingDeleted(events: seq<Event>) {
    forall e | e in events :: e.Reconcile? || e.CreateSubnamespace?
  }

  /** How often the run reconciles. */
  function Reconciliations(events: seq<Event>): nat {
    if events == [] then 0 else (if events[0].Reconcile? then 1 else 0) + Reconciliations(events[1..])
  }

  /** The anchor is there to stay, and k more reconciliations make the pair complete. */
  predicate Coming(s: Pair, k: nat) {
    && s.anchor.Some? && !s.anchor.value.deleting
    && (k <= 1 ==> s.ns.Some? && s.anchor.value.finalizer)
    && (k == 0 ==> s.anchor.value.status == if s.ns.value.owner == s.parent then Bound else Conflicting)
  }

  lemma ComesNearer(s: Pair, e: Event, k: nat)
    requires Coming(s, k) && k <= 2 && (e.Reconcile? || e.CreateSubnamespace?)
    requires e.Reconcile? ==> e.context.parentManaged && e.context.nameManaged
    ensures Coming(Step(s, e), if e.Reconcile? && k > 0 then k - 1 else k)
    ensures Step(s, e).parent == s.parent && (s.ns.Some? ==> Step(s, e).ns == s.ns)
  {
  }

  /** On every run without deletions, an anchor that has been reconciled twice has its finalizer and a
      namespace, and says whose that is; whatever came in between. */
  lemma {:induction false} RunEstablishes(s: Pair, events: seq<Event>, k: nat)
    requires Coming(s, k) && k <= 2 && NothingDeleted(events) && NamesManaged(events) && Reconciliations(events) >= k
    ensures var r := Run(s, events);
            && r.anchor.Some? && r.anchor.value.finalizer && r.ns.Some? && r.parent == s.parent
            && r.anchor.value.status == if r.ns.value.owner == s.parent then Bound else Conflicting
    decreases |events|
  {
    if events != [] {
      var e := events[0];
      assert e in events;
      assert NamesManaged(events[1..]) && NothingDeleted(events[1..]);
      ComesNearer(s, e, k);
      RunEstablishes(Step(s, e), events[1..], if e.Reconcile? && k > 0 then k - 1 else k);
    }
  }

  /** A new anchor without a namespace gets one of its own in two reconciliations. */
  lemma Begins(s: Pair, c: Context, d: Context)
    requires s.anchor.None? && s.ns.None? && c.parentManaged && c.nameManaged && d.parentManaged && d.nameManaged
    ensures Run(s, [CreateAnchor, Reconcile(c), Reconcile(d)]) ==
            s.(anchor := Some(Anchor(Bound, false, true)), ns := Some(Subnamespace(s.parent, false)))
  {
    var a, b, e := CreateAnchor, Reconcile(c), Reconcile(d);
    assert [a, b, e][1..] == [b, e] && [b, e][1..] == [e] && [e][1..] == [];
    var s1 := Step(s, a);
    var s2 := Step(s1, b);
    assert Run(s, [a, b, e]) == Run(s1, [b, e]) == Run(s2, [e]) == Step(s2, e);
  }

  /** And once the pair is complete, reconciling it changes nothing. */
  lemma CompleteIsStable(s: Pair, c: Context)
    requires Coming(s, 0) && c.parentManaged && c.nameManaged
    ensures Waits(s, c)
  {
  }

  // ----- the deletion ends -----

  /** How far an anchor that is being deleted is from losing its finalizer. */
  function Distance(s: Pair): nat {
    if s.anchor.None? || !s.anchor.value.finalizer then 0
    else if s.ns.None? then 1
    else if s.ns.value.deleting then 2
    else 3
  }

  predicate Leaving(s: Pair) {
    s.anchor.Some? && s.anchor.value.deleting
  }

  /** The reconciliation has nothing to do. */
  predicate Waits(s: Pair, c: Context) {
    Reconciled(s, c) == s
  }

  /** Every reconciliation that does something brings the anchor nearer to losing its finalizer. */
  lemma Nearer(s: Pair, c: Context)
    requires Leaving(s) && c.parentManaged && c.nameManaged && !Waits(s, c)
    ensures Leaving(Reconciled(s, c)) && Distance(Reconciled(s, c)) < Distance(s)
  {
  }

  /** It waits only when the finalizer is gone, or for a namespace that is being deleted to be purged. */
  lemma WaitsFor(s: Pair, c: Context)
    requires Leaving(s) && c.parentManaged && c.nameManaged
    ensures Waits(s, c) <==>
              !s.anchor.value.finalizer || (s.ns.Some? && s.ns.value.deleting && s.ns.value.owner == s.parent)
  {
  }

  /** Two reconciliations with a purge in between are enough, whatever they find. */
  lemma Ends(s: Pair, c: Context, d: Context)
    requires Leaving(s) && c.parentManaged && c.nameManaged && d.parentManaged && d.nameManaged
    ensures var r := Run(s, [Reconcile(c), PurgeSubnamespace, Reconcile(d)]);
            Leaving(r) && !r.anchor.value.finalizer && Step(r, PurgeAnchor).anchor.None?
  {
    var a, b, e := Reconcile(c), PurgeSubnamespace, Reconcile(d);
    var s1 := Step(s, a);
    var s2 := Step(s1, b);
    assert Run(s, [a, b, e]) == Run(s1, [b, e]) by { assert [a, b, e][1..] == [b, e]; }
    assert Run(s1, [b, e]) == Run(s2, [e]) by { assert [b, e][1..] == [e]; }
    assert Run(s2, [e]) == Step(s2, e) by { assert [e][1..] == []; }
  }

  /** Neither the anchor nor its namespace is created anew. */
  predicate NothingCreated(events: seq<Event>) {
    forall e | e in events :: !e.CreateAnchor? && !e.CreateSubnamespace?
  }

  /** How many reconciliations of a run do something. */
  function Busy(s: Pair, events: seq<Event>): nat
    decreases |events|
  {
    if events == [] then 0
    else (if events[0].Reconcile? && !Waits(s, events[0].context) then 1 else 0) + Busy(Step(s, events[0]), events[1..])
  }

  /** On every run of a deletion, reconciliations do something at most three times. */
  lemma {:induction false} BusyAtMost(s: Pair, events: seq<Event>)
    requires s.anchor.Some? ==> s.anchor.value.deleting
    requires NamesManaged(events) && NothingCreated(events)
    ensures Busy(s, events) + Distance(Run(s, events)) <= Distance(s) <= 3
    decreases |events|
  {
    if events != [] {
      var e := events[0];
      assert e in events;
      assert NamesManaged(events[1..]) && NothingCreated(events[1..]);
      OneStep(s, e);
      BusyAtMost(Step(s, e), events[1..]);
    }
  }

  lemma OneStep(s: Pair, e: Event)
    requires s.anchor.Some? ==> s.anchor.value.deleting
    requires !e.CreateAnchor? && !e.CreateSubnamespace?
    requires e.Reconcile? ==> e.context.parentManaged && e.context.nameManaged
    ensures Step(s, e).anchor.Some? ==> Step(s, e).anchor.value.deleting
    ensures Distance(Step(s, e)) <= Distance(s)
    ensures e.Reconcile? && !Waits(s, e.context) ==> Distance(Step(s, e)) < Distance(s)
  {
  }

  // ----- the reconciler -----

  /** The context that the forest gives for the namespace of that name. */
  ghost function ContextIn(w: World, nm: Name, parentManaged: bool, nameManaged: bool, deletingCRD: bool): Context {
    Context(parentManaged, nameManaged, deletingCRD, Children(w.parents, nm) == {}, Cascading.Allowed(w, nm))
  }

  /** Whether the namespace should be deleted with its anchor. */
  method ShouldDeleteSubns(f: Forest, nm: Name, a: Anchor, ns: Option<Subnamespace>, deletingCRD: bool)
    returns (r: bool)
    requires f.Valid() && nm != "" && (a.status == Bound ==> ns.Some?)
    modifies f
    ensures f.Valid() && (f.world == old(f.world) || f.world == Known(old(f.world), nm))
    ensures r <==> ShouldDelete(a, ns, ContextIn(f.world, nm, true, true, deletingCRD))
  {
    if deletingCRD || a.status != Bound || ns.value.deleting || !a.finalizer {
      return false;
    }
    var cns := f.Get(nm);
    var children := f.ChildNames(cns);
    assert children == [] <==> Children(f.world.parents, nm) == {} by {
      if children != [] { assert children[0] in Children(f.world.parents, nm); }
    }
    var cascading := Cascading.AllowsCascadingDeletion(f, cns);
    return children == [] || cascading;
  }

  method ReconcileAnchor(f: Forest, nm: Name, s: Pair, parentManaged: bool, nameManaged: bool, deletingCRD: bool)
    returns (r: Pair)
    requires f.Valid() && nm != ""
    modifies f
    ensures f.Valid() && (f.world == old(f.world) || f.world == Known(old(f.world), nm))
    ensures r == Reconciled(s, ContextIn(f.world, nm, parentManaged, nameManaged, deletingCRD))
  {
    if s.anchor.None? {
      return s;
    }
    var a := s.anchor.value;
    if !parentManaged {
      return s.(anchor := Some(a.(finalizer := false)));
    }
    if !nameManaged {
      return s.(anchor := Some(a.(status := Forbidden, finalizer := false)));
    }
    a := a.(status := if s.ns.None? then Missing else if s.ns.value.owner != s.parent then Conflicting else Bound);
    if a.deleting {
      r := DeleteAnchored(f, nm, s, a, deletingCRD);
      return;
    }
    a := a.(finalizer := true);
    r := s.(anchor := Some(a));
    if a.status == Missing {
      r := r.(ns := Some(Subnamespace(s.parent, false)));
    }
  }

  method DeleteAnchored(f: Forest, nm: Name, s: Pair, a: Anchor, deletingCRD: bool) returns (r: Pair)
    requires f.Valid() && nm != "" && s.anchor.Some? && a == Updated(s) && a.deleting
    modifies f
    ensures f.Valid() && (f.world == old(f.world) || f.world == Known(old(f.world), nm))
    ensures r == Reconciled(s, ContextIn(f.world, nm, true, true, deletingCRD))
  {
    var delete := ShouldDeleteSubns(f, nm, a, s.ns, deletingCRD);
    if delete {
      return s.(ns := Some(s.ns.value.(deleting := true)), doomed := true);
    }
    if ShouldFinalize(a, s.ns) {
      return s.(anchor := Some(a.(finalizer := false)));
    }
    return s;
  }
}
