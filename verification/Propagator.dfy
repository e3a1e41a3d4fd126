/** The object reconciler, draining its queue. */
module Propagator {
  import opened Ancestry
  import opened Structure
  import opened World
  import opened Canonical
  import opened Propagation

  datatype Action = Nop | Remove | Write(source: Object)

  /** What carrying out an action on the object in n makes of the state. */
  ghost function Operated(s: State, n: Name, action: Action): State {
    match action
    case Nop => s
    case Remove => State(s.sources, Deleted(s.cluster, n), if n in s.cluster then s.queue + {n} else s.queue)
    case Write(src) =>
      var version := if n in s.cluster then s.cluster[n].resourceVersion else "";
      State(s.sources, s.cluster[n := Written(src, n, version)], s.queue + {n})
  }

  class Reconciler {
    const site: Site
    var sources: Objects
    var cluster: Objects
    var queue: set<Name>

    /** Start-up: nothing is recorded, and every object is queued. */
    constructor (site: Site, cluster: Objects)
      ensures this.site == site && Now() == State(map[], cluster, cluster.Keys)
    {
      this.site, this.cluster, this.sources, this.queue := site, cluster, map[], cluster.Keys;
    }

    ghost function Now(): State
      reads this
    {
      State(sources, cluster, queue)
    }

    /** The topmost namespace above n with a source that propagates. */
    method GetTopSourceToPropagate(n: Name) returns (top: Option<Name>)
      ensures top == Top(site, sources, n)
    {
      if n !in site.parents {
        return None;
      }
      var names := AncestryOf(site.parents, site.parents[n]);
      for i := 0 to |names|
        invariant First(site, sources, names) == First(site, sources, names[i..])
      {
        if names[i] in sources && site.propagates(sources[names[i]]) {
          return Some(names[i]);
        }
        assert names[i..][1..] == names[i + 1..];
      }
      return None;
    }

    method EnqueueDescendants(n: Name)
      modifies `queue
      ensures queue == old(queue) + Descendants(site.parents, n)
    {
      var below := set d | d in site.parents.Keys && n in AncestryOf(site.parents, site.parents[d]);
      forall d | d in site.parents
        ensures n in AncestryOf(site.parents, site.parents[d]) <==> HasAncestor(site.parents, d, n)
      {
        AncestryMembers(site.parents, site.parents[d], n);
      }
      assert below == Descendants(site.parents, n);
      queue := queue + below;
    }

    /** Brings the recorded sources up to date with the object in n, and says what to do with it. */
    method SyncWithForest(n: Name) returns (action: Action)
      requires n !in queue
      modifies `sources, `queue
      ensures Operated(Now(), n, action) == Next(site, old(Now()), n)
    {
      assert queue - {n} == queue;
      if n in cluster && cluster[n].deleting {
        return Nop;
      }
      if n !in cluster && n in sources {
        sources := sources - {n};
        EnqueueDescendants(n);
        return Nop;
      }
      var top := GetTopSourceToPropagate(n);
      if n !in cluster || IsCopy(cluster[n]) || top.Some? {
        action := SyncPropagated(n, top);
      } else {
        sources := sources[n := Clean(cluster[n], site.unpropagated)];
        EnqueueDescendants(n);
        action := Nop;
      }
    }

    /** The object in n is to be a copy of the source in that namespace, or not to be. */
    method SyncPropagated(n: Name, top: Option<Name>) returns (action: Action)
      requires n !in queue && top == Top(site, sources, n)
      modifies `sources
      ensures Operated(Now(), n, action) == AsCopy(site, old(Now()), n, top)
    {
      assert queue - {n} == queue;
      if n in site.parents {
        ghost var i := FirstAt(site, sources, AncestryOf(site.parents, site.parents[n]));
      }
      action := if top.None? then Remove else Write(sources[top.value]);
      if top.Some? && n in cluster && UpToDate(cluster[n], sources[top.value]) {
        action := Nop;
      }
      sources := sources - {n};
    }

    method Operate(n: Name, action: Action)
      modifies `cluster, `queue
      ensures Now() == Operated(old(Now()), n, action)
    {
      match action
      case Nop =>
      case Remove =>
        if n in cluster {
          queue := queue + {n};
        }
        cluster := Deleted(cluster, n);
      case Write(src) =>
        var version := if n in cluster then cluster[n].resourceVersion else "";
        cluster := cluster[n := Written(src, n, version)];
        queue := queue + {n};
    }

    method Reconcile(n: Name)
      modifies `sources, `cluster, `queue
      ensures Now() == Next(site, old(Now()), n)
    {
      queue := queue - {n};
      assert queue - {n} == old(queue) - {n};
      var action := SyncWithForest(n);
      Operate(n, action);
    }

    /** Reconciles queued objects in any order until none is left. */
    method Drain(ghost user: Objects)
      requires Inv(site, user, Now())
      modifies `sources, `cluster, `queue
      ensures queue == {} && Inv(site, user, Now())
      ensures forall n | n in site.names && !Going(cluster, n) :: IsFinal(site, user, cluster, n)
      ensures forall n | n in site.names && !Going(cluster, n) :: EndsAs(site, user, sources, cluster, n)
      ensures sources == map n | n in user && !Overwritten(site, user, n) :: Clean(user[n], site.unpropagated)
      ensures Held(cluster) <= Held(old(cluster))
    {
      while queue != {}
        invariant Inv(site, user, Now()) && Held(cluster) <= Held(old(cluster))
        decreases Measure(site, Now())
      {
        var n :| n in queue;
        NextKeeps(site, user, Now(), n);
        HeldShrinks(site, user, Now(), n);
        NextDecreases(site, user, Now(), n);
        Reconcile(n);
      }
      forall n | n in site.names && !Going(cluster, n) ensures IsFinal(site, user, cluster, n) {
        Drained(site, user, Now(), n);
      }
      forall n | n in site.names && !Going(cluster, n) ensures EndsAs(site, user, sources, cluster, n) {
        DrainedMeans(site, user, Now(), n);
      }
      FinalSources(site, user, Now());
    }
  }

  /** From start-up the queue drains, and every namespace ends up with what it should hold, unless its
      object is being deleted: it was so at start-up, or was a copy with finalizers then. */
  method StartAndDrain(site: Site, cluster: Objects, ghost user: Objects) returns (r: Reconciler)
    requires site.Valid() && cluster.Keys <= site.names
    requires forall n | n in cluster :: cluster[n].namespace == n
    requires user == map n | n in cluster && !IsCopy(cluster[n]) && !cluster[n].deleting :: cluster[n]
    ensures fresh(r) && r.queue == {}
    ensures forall n | n in site.names && n !in Held(cluster) :: !Going(r.cluster, n)
    ensures forall n | n in site.names && !Going(r.cluster, n) :: IsFinal(site, user, r.cluster, n)
    ensures forall n | n in site.names && !Going(r.cluster, n) :: EndsAs(site, user, r.sources, r.cluster, n)
    ensures r.sources == map n | n in user && !Overwritten(site, user, n) :: Clean(user[n], site.unpropagated)
  {
    r := new Reconciler(site, cluster);
    StartInv(site, cluster, user);
    r.Drain(user);
    assert forall n | Going(r.cluster, n) :: n in Held(r.cluster);
  }
}
