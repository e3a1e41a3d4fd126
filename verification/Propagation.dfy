/** Propagation of the objects of one name and type over a forest that stays as it is, as a work queue. */
module Propagation {
  import opened Ancestry
  import opened Structure
  import opened World
  import opened Canonical
  import opened Sums

  /** The forest, which sources propagate (wherever they go to), and what is never copied. */
  datatype Site = Site(names: set<Name>, parents: Parents, propagates: Object -> bool, unpropagated: Unpropagated)
  {
    ghost predicate Valid() {
      Closed(names, parents) && Acyclic(parents)
    }
  }

  type Objects = map<Name, Object>

  /** The sources the forest has recorded, the objects on the apiserver, and the namespaces whose
      object is to be reconciled. */
  datatype State = State(sources: Objects, cluster: Objects, queue: set<Name>)

  // ----- the source of a copy -----

  /** The first namespace of the list with a source that propagates. */
  function First(site: Site, sources: Objects, s: seq<Name>): Option<Name> {
    if s == [] then None
    else if s[0] in sources && site.propagates(sources[s[0]]) then Some(s[0])
    else First(site, sources, s[1..])
  }

  /** The topmost namespace above n with a source that propagates. */
  function Top(site: Site, sources: Objects, n: Name): Option<Name> {
    if n in site.parents then First(site, sources, AncestryOf(site.parents, site.parents[n])) else None
  }

  ghost predicate Candidate(site: Site, sources: Objects, n: Name, a: Name) {
    HasAncestor(site.parents, n, a) && a in sources && site.propagates(sources[a])
  }

  /** a propagates to n, and no namespace above a does. */
  ghost predicate IsTop(site: Site, sources: Objects, n: Name, a: Name) {
    Candidate(site, sources, n, a) && forall b | Candidate(site, sources, n, b) :: Reaches(site.parents, b, a)
  }

  lemma {:induction false} FirstAt(site: Site, sources: Objects, s: seq<Name>) returns (i: nat)
    ensures First(site, sources, s).None? ==> forall a | a in s :: !(a in sources && site.propagates(sources[a]))
    ensures First(site, sources, s).Some? ==>
              && i < |s| && s[i] == First(site, sources, s).value && s[i] in sources && site.propagates(sources[s[i]])
              && forall j | 0 <= j < i :: !(s[j] in sources && site.propagates(sources[s[j]]))
  {
    i := 0;
    if s != [] && !(s[0] in sources && site.propagates(sources[s[0]])) {
      var k := FirstAt(site, sources, s[1..]);
      i := k + 1;
      if First(site, sources, s).Some? {
        forall j | 0 <= j < i ensures !(s[j] in sources && site.propagates(sources[s[j]])) {
          if j > 0 { assert s[j] == s[1..][j - 1]; }
        }
      }
    }
  }

  /** Of two entries of an ancestry list, the later one reaches the earlier one. */
  lemma LaterReaches(p: Parents, n: Name, i: nat, j: nat)
    requires CycleFree(p, n) && i <= j < |AncestryOf(p, n)|
    ensures Reaches(p, AncestryOf(p, n)[j], AncestryOf(p, n)[i])
  {
    var s := AncestryOf(p, n);
    AncestryPrefix(p, n, j);
    assert s[..j + 1][i] == s[i];
    AncestryMembers(p, s[j], s[i]);
  }

  /** The search finds the topmost source, if there is one. */
  lemma TopIs(site: Site, sources: Objects, n: Name)
    requires site.Valid()
    ensures Top(site, sources, n).None? ==> forall a :: !Candidate(site, sources, n, a)
    ensures Top(site, sources, n).Some? ==> IsTop(site, sources, n, Top(site, sources, n).value)
  {
    if n in site.parents {
      var p, q := site.parents, site.parents[n];
      var s := AncestryOf(p, q);
      AcyclicIsCycleFree(p, q);
      var i := FirstAt(site, sources, s);
      forall a ensures Candidate(site, sources, n, a) <==> a in s && a in sources && site.propagates(sources[a]) {
        AncestryMembers(p, q, a);
      }
      if First(site, sources, s).Some? {
        forall b | Candidate(site, sources, n, b) ensures Reaches(p, b, s[i]) {
          var j :| 0 <= j < |s| && s[j] == b;
          LaterReaches(p, q, i, j);
        }
      }
    }
  }

  lemma NoWayBack(p: Parents, a: Name, b: Name)
    requires Acyclic(p) && Reaches(p, a, b) && Reaches(p, b, a)
    ensures a == b
  {
    ReachesCases(p, a, b);
    if a != b {
      ReachesTrans(p, p[a], b, a);
      AcyclicIsCycleFree(p, a);
      ReachesSelf(p, a);
    }
  }

  lemma TopUnique(site: Site, sources: Objects, n: Name, a: Name)
    requires site.Valid() && IsTop(site, sources, n, a)
    ensures Top(site, sources, n) == Some(a)
  {
    TopIs(site, sources, n);
    var b := Top(site, sources, n).value;
    NoWayBack(site.parents, a, b);
  }

  // ----- one reconciliation -----

  predicate CountsAsCopy(cluster: Objects, n: Name) {
    n in cluster ==> IsCopy(cluster[n])
  }

  /** Reconciles the object in n: records or forgets a source, or writes or removes a copy. What is
      written or removed is reconciled again; so is everything below a source. */
  ghost function Next(site: Site, s: State, n: Name): State {
    var queue := s.queue - {n};
    if n in s.cluster && s.cluster[n].deleting then s.(queue := queue)
    else if n !in s.cluster && n in s.sources then
      State(s.sources - {n}, s.cluster, queue + Descendants(site.parents, n))
    else
      var top := Top(site, s.sources, n);
      if CountsAsCopy(s.cluster, n) || top.Some? then AsCopy(site, s, n, top)
      else
        var source := Clean(s.cluster[n], site.unpropagated);
        State(s.sources[n := source], s.cluster, queue + Descendants(site.parents, n))
  }

  /** The objects once the deletion of the one in n was asked for: it goes unless a finalizer holds it. */
  function Deleted(cluster: Objects, n: Name): Objects {
    if n in cluster && cluster[n].finalizers != [] then cluster[n := cluster[n].(deleting := true)] else cluster - {n}
  }

  ghost function AsCopy(site: Site, s: State, n: Name, top: Option<Name>): State {
    var queue, sources := s.queue - {n}, s.sources - {n};
    if top.None? || top.value !in s.sources then
      State(sources, Deleted(s.cluster, n), if n in s.cluster then queue + {n} else queue)
    else if n in s.cluster && UpToDate(s.cluster[n], s.sources[top.value]) then State(sources, s.cluster, queue)
    else
      var version := if n in s.cluster then s.cluster[n].resourceVersion else "";
      State(sources, s.cluster[n := Written(s.sources[top.value], n, version)], queue + {n})
  }

  // ----- what a change of the sources does to the search -----

  lemma {:induction false} FirstAgree(site: Site, a: Objects, b: Objects, s: seq<Name>)
    requires forall x | x in s :: (x in a <==> x in b) && (x in a ==> a[x] == b[x])
    ensures First(site, a, s) == First(site, b, s)
  {
    if s != [] { FirstAgree(site, a, b, s[1..]); }
  }

  ghost predicate SameBut(a: Objects, b: Objects, n: Name) {
    forall x | x != n :: (x in a <==> x in b) && (x in a ==> a[x] == b[x])
  }

  /** Only what is below n looks at the source in n. */
  lemma TopElsewhere(site: Site, a: Objects, b: Objects, n: Name, m: Name)
    requires SameBut(a, b, n) && !HasAncestor(site.parents, m, n)
    ensures Top(site, a, m) == Top(site, b, m)
  {
    if m in site.parents {
      var s := AncestryOf(site.parents, site.parents[m]);
      AncestryMembers(site.parents, site.parents[m], n);
      FirstAgree(site, a, b, s);
    }
  }

  /** A source that another one overwrites is nobody's source, so nobody misses it. */
  lemma TopWithout(site: Site, sources: Objects, n: Name, m: Name)
    requires site.Valid() && Top(site, sources, n).Some?
    ensures Top(site, sources - {n}, m) == Top(site, sources, m)
    ensures Top(site, sources, m).Some? ==> Top(site, sources, m).value in sources - {n}
  {
    var rest := sources - {n};
    TopIs(site, sources, m);
    TopIs(site, rest, m);
    if Top(site, sources, m).Some? {
      var t := Top(site, sources, m).value;
      if t == n {
        var u := Top(site, sources, n).value;
        TopIs(site, sources, n);
        ReachesParent(site.parents, n, u);
        Above(site.parents, m, n, u);
        assert Candidate(site, sources, m, u);
        NoWayBack(site.parents, u, n);
        AcyclicIsCycleFree(site.parents, n);
        ReachesSelf(site.parents, n);
        assert false;
      } else {
        assert Candidate(site, rest, m, t);
        forall b | Candidate(site, rest, m, b) ensures Reaches(site.parents, b, t) {
          assert Candidate(site, sources, m, b);
        }
        TopUnique(site, rest, m, t);
      }
    } else if Top(site, rest, m).Some? {
      assert Candidate(site, sources, m, Top(site, rest, m).value);
    }
  }

  lemma Above(p: Parents, m: Name, n: Name, u: Name)
    requires HasAncestor(p, m, n) && Reaches(p, n, u)
    ensures HasAncestor(p, m, u)
  {
    ReachesTrans(p, p[m], n, u);
  }

  // ----- what every run keeps -----

  /** The object in n is being deleted: it is left alone until a finalizer lets it go. */
  predicate Going(cluster: Objects, n: Name) {
    n in cluster && cluster[n].deleting
  }

  /** n's object is not being deleted, and is not what the recorded sources say it should be. */
  ghost predicate Dirty(site: Site, s: State, n: Name) {
    var top := Top(site, s.sources, n);
    if Going(s.cluster, n) then false
    else if top.Some? then !(n in s.cluster && top.value in s.sources && UpToDate(s.cluster[n], s.sources[top.value]))
    else n in s.cluster && IsCopy(s.cluster[n])
  }

  ghost predicate Settled(site: Site, s: State, n: Name) {
    Going(s.cluster, n) || (!Dirty(site, s, n) && (n in s.cluster && !IsCopy(s.cluster[n]) ==> n in s.sources))
  }

  /** The users' objects as the forest would record them. */
  function Cleaned(site: Site, user: Objects): Objects {
    map n | n in user :: Clean(user[n], site.unpropagated)
  }

  /** What the users have put where, as opposed to copies. */
  ghost predicate Users(site: Site, user: Objects) {
    && user.Keys <= site.names
    && forall n | n in user :: !IsCopy(user[n]) && !user[n].deleting && user[n].namespace == n
  }

  ghost predicate Overwritten(site: Site, user: Objects, n: Name) {
    exists a :: Candidate(site, Cleaned(site, user), n, a)
  }

  /** An object that is neither a copy nor being deleted is the users'; a source is recorded of such an
      object only; and no user's object is lost that nothing above it overwrites. */
  ghost predicate SoundAt(site: Site, user: Objects, s: State, n: Name) {
    && (n in s.cluster && !s.cluster[n].deleting && !IsCopy(s.cluster[n]) ==> n in user && s.cluster[n] == user[n])
    && (n in s.sources ==>
          n in user && s.sources[n] == Clean(user[n], site.unpropagated) && n in s.cluster && s.cluster[n] == user[n])
    && (n in user && !Overwritten(site, user, n) ==> n in s.cluster && s.cluster[n] == user[n])
  }

  ghost predicate Sound(site: Site, user: Objects, s: State) {
    && s.queue <= site.names && s.cluster.Keys <= site.names
    && forall n :: SoundAt(site, user, s, n)
  }

  ghost predicate Inv(site: Site, user: Objects, s: State) {
    && site.Valid() && Users(site, user) && Sound(site, user, s)
    && forall n | n in site.names && n !in s.queue :: Settled(site, s, n)
  }

  lemma SourcesOverwrite(site: Site, user: Objects, s: State, n: Name)
    requires site.Valid() && Sound(site, user, s) && Top(site, s.sources, n).Some?
    ensures Overwritten(site, user, n)
  {
    TopIs(site, s.sources, n);
    assert SoundAt(site, user, s, Top(site, s.sources, n).value);
    assert Candidate(site, Cleaned(site, user), n, Top(site, s.sources, n).value);
  }

  lemma NotAboveItself(site: Site, n: Name)
    requires site.Valid()
    ensures !HasAncestor(site.parents, n, n)
  {
    AcyclicIsCycleFree(site.parents, n);
    ReachesSelf(site.parents, n);
  }

  /** At start-up nothing is recorded and every object is to be reconciled. */
  lemma StartInv(site: Site, cluster: Objects, user: Objects)
    requires site.Valid() && cluster.Keys <= site.names
    requires forall n | n in cluster :: cluster[n].namespace == n
    requires user == map n | n in cluster && !IsCopy(cluster[n]) && !cluster[n].deleting :: cluster[n]
    ensures Inv(site, user, State(map[], cluster, cluster.Keys))
  {
    var s := State(map[], cluster, cluster.Keys);
    assert forall n :: SoundAt(site, user, s, n);
    forall n | n in site.names && n !in s.queue ensures Settled(site, s, n) {
      TopIs(site, s.sources, n);
    }
  }

  lemma RecordKeeps(site: Site, user: Objects, s: State, n: Name)
    requires Inv(site, user, s) && n in s.queue && Top(site, s.sources, n).None?
    requires n in s.cluster && !IsCopy(s.cluster[n]) && !s.cluster[n].deleting
    ensures Inv(site, user, Next(site, s, n))
  {
    var v := Next(site, s, n);
    assert SoundAt(site, user, s, n);
    assert v.sources == s.sources[n := Clean(user[n], site.unpropagated)];
    forall m ensures SoundAt(site, user, v, m) {
      assert SoundAt(site, user, s, m);
    }
    assert SameBut(s.sources, v.sources, n);
    assert Descendants(site.parents, n) <= site.names;
    NotAboveItself(site, n);
    forall m | m in site.names && m !in v.queue ensures Settled(site, v, m) {
      TopElsewhere(site, s.sources, v.sources, n, m);
      TopIs(site, s.sources, m);
      if m != n && Top(site, s.sources, m).Some? {
        assert Top(site, s.sources, m).value != n;
      }
    }
  }

  lemma RemoveKeeps(site: Site, user: Objects, s: State, n: Name)
    requires Inv(site, user, s) && n in s.queue && CountsAsCopy(s.cluster, n) && Top(site, s.sources, n).None?
    requires !Going(s.cluster, n)
    ensures Inv(site, user, Next(site, s, n))
  {
    var v := Next(site, s, n);
    assert SoundAt(site, user, s, n) && n !in s.sources;
    assert v.sources == s.sources && v.cluster == Deleted(s.cluster, n);
    forall m ensures SoundAt(site, user, v, m) {
      assert SoundAt(site, user, s, m);
    }
    forall m | m in site.names && m !in v.queue ensures Settled(site, v, m) {
      if m != n { assert Settled(site, s, m); }
    }
  }

  /** What overwriting the object in n with its source makes of the state. */
  lemma OverwriteShape(site: Site, s: State, n: Name)
    requires site.Valid() && Top(site, s.sources, n).Some? && (n in s.sources ==> n in s.cluster)
    requires n in s.cluster ==> !s.cluster[n].deleting
    ensures var v := Next(site, s, n);
            && v.sources == s.sources - {n} && s.queue - {n} <= v.queue <= s.queue + {n}
            && v.cluster.Keys == s.cluster.Keys + {n}
            && (forall m | m in s.cluster && m != n :: v.cluster[m] == s.cluster[m])
            && Top(site, s.sources, n).value in v.sources
            && UpToDate(v.cluster[n], s.sources[Top(site, s.sources, n).value]) && !v.cluster[n].deleting
            && (n in v.queue ==> Dirty(site, s, n))
  {
    TopWithout(site, s.sources, n, n);
    var t := Top(site, s.sources, n).value;
    WrittenIsUpToDate(s.sources[t], n, if n in s.cluster then s.cluster[n].resourceVersion else "");
  }

  /** Reconciling an object just written changes nothing. */
  lemma ResyncIsNop(site: Site, s: State, n: Name)
    requires site.Valid() && Top(site, s.sources, n).Some? && (n in s.sources ==> n in s.cluster)
    requires n in s.cluster ==> !s.cluster[n].deleting
    ensures var v := Next(site, s, n); Next(site, v, n) == v.(queue := v.queue - {n})
  {
    OverwriteShape(site, s, n);
    TopWithout(site, s.sources, n, n);
    var v := Next(site, s, n);
    assert v.sources - {n} == v.sources;
  }

  lemma OverwriteSound(site: Site, user: Objects, s: State, n: Name)
    requires Inv(site, user, s) && n in s.queue && Top(site, s.sources, n).Some? && !Going(s.cluster, n)
    ensures Sound(site, user, Next(site, s, n))
  {
    assert SoundAt(site, user, s, n);
    OverwriteShape(site, s, n);
    SourcesOverwrite(site, user, s, n);
    SoundAfter(site, user, s, Next(site, s, n), n);
  }

  lemma SoundAfter(site: Site, user: Objects, s: State, v: State, n: Name)
    requires Sound(site, user, s) && Overwritten(site, user, n) && n in site.names
    requires n in v.cluster && IsCopy(v.cluster[n])
    requires v.sources == s.sources - {n} && v.queue <= s.queue + {n}
    requires v.cluster.Keys == s.cluster.Keys + {n}
    requires forall m | m in s.cluster && m != n :: v.cluster[m] == s.cluster[m]
    ensures Sound(site, user, v)
  {
    forall m ensures SoundAt(site, user, v, m) {
      assert SoundAt(site, user, s, m);
    }
  }

  lemma OverwriteSettled(site: Site, s: State, v: State, n: Name, m: Name)
    requires site.Valid() && Top(site, s.sources, n).Some? && v.sources == s.sources - {n}
    requires m != n && Settled(site, s, m)
    requires m in s.cluster <==> m in v.cluster
    requires m in s.cluster ==> v.cluster[m] == s.cluster[m]
    ensures Settled(site, v, m)
  {
    TopWithout(site, s.sources, n, m);
  }

  lemma OverwriteKeeps(site: Site, user: Objects, s: State, n: Name)
    requires Inv(site, user, s) && n in s.queue && Top(site, s.sources, n).Some? && !Going(s.cluster, n)
    ensures Inv(site, user, Next(site, s, n))
  {
    var v := Next(site, s, n);
    assert SoundAt(site, user, s, n);
    OverwriteSound(site, user, s, n);
    OverwriteShape(site, s, n);
    forall m | m in site.names && m !in v.queue ensures Settled(site, v, m) {
      if m != n {
        OverwriteSettled(site, s, v, n, m);
      } else {
        TopWithout(site, s.sources, n, n);
      }
    }
  }

  lemma WaitKeeps(site: Site, user: Objects, s: State, n: Name)
    requires Inv(site, user, s) && Going(s.cluster, n)
    ensures Inv(site, user, Next(site, s, n))
  {
    forall m ensures SoundAt(site, user, Next(site, s, n), m) {
      assert SoundAt(site, user, s, m);
    }
  }

  lemma NextKeeps(site: Site, user: Objects, s: State, n: Name)
    requires Inv(site, user, s) && n in s.queue
    ensures Inv(site, user, Next(site, s, n))
  {
    assert SoundAt(site, user, s, n);
    if Going(s.cluster, n) {
      WaitKeeps(site, user, s, n);
    } else if Top(site, s.sources, n).Some? {
      OverwriteKeeps(site, user, s, n);
    } else if CountsAsCopy(s.cluster, n) {
      RemoveKeeps(site, user, s, n);
    } else {
      RecordKeeps(site, user, s, n);
    }
  }

  /** The apiserver has let go of an object that was being deleted, which queues it. */
  function Purged(s: State, n: Name): State {
    s.(cluster := s.cluster - {n}, queue := s.queue + {n})
  }

  lemma PurgeKeeps(site: Site, user: Objects, s: State, n: Name)
    requires Inv(site, user, s) && Going(s.cluster, n)
    ensures Inv(site, user, Purged(s, n))
  {
    var v := Purged(s, n);
    forall m ensures SoundAt(site, user, v, m) {
      assert SoundAt(site, user, s, m);
    }
    forall m | m in site.names && m !in v.queue ensures Settled(site, v, m) {
      assert Settled(site, s, m);
    }
  }

  /** The namespaces whose object is being deleted or, being a copy with finalizers, may have to wait for
      its deletion. */
  function Held(cluster: Objects): set<Name> {
    set n | n in cluster && (cluster[n].deleting || (IsCopy(cluster[n]) && cluster[n].finalizers != []))
  }

  /** There are never more of them, and fewer when one is let go: in a run there are only so many purges,
      and if there are none of them at first nothing is ever being deleted. */
  lemma HeldShrinks(site: Site, user: Objects, s: State, n: Name)
    requires Inv(site, user, s)
    ensures Held(Next(site, s, n).cluster) <= Held(s.cluster)
    ensures Going(s.cluster, n) ==> Held(Purged(s, n).cluster) < Held(s.cluster)
  {
    assert SoundAt(site, user, s, n);
    TopIs(site, s.sources, n);
    if Going(s.cluster, n) { assert n in Held(s.cluster) && n !in Held(Purged(s, n).cluster); }
  }

  // ----- where every run ends -----

  /** What a namespace holds in the end: a copy of the topmost user's object above it that
      propagates, else its own user's object, else nothing. */
  ghost predicate IsFinal(site: Site, user: Objects, cluster: Objects, n: Name) {
    && (forall a | IsTop(site, Cleaned(site, user), n, a) ::
          n in cluster && a in user && UpToDate(cluster[n], Clean(user[a], site.unpropagated)))
    && (!Overwritten(site, user, n) ==> (n in cluster <==> n in user) && (n in user ==> cluster[n] == user[n]))
  }

  lemma TopHolds(site: Site, user: Objects, s: State, n: Name, a: Name)
    requires Inv(site, user, s) && s.queue == {} && IsTop(site, Cleaned(site, user), n, a)
    ensures a in s.sources && Top(site, s.sources, n) == Some(a)
  {
    var all := Cleaned(site, user);
    forall b ensures !Candidate(site, all, a, b) {
      if Candidate(site, all, a, b) {
        ReachesParent(site.parents, a, b);
        Above(site.parents, n, a, b);
        assert Candidate(site, all, n, b);
        NoWayBack(site.parents, a, b);
        NotAboveItself(site, a);
      }
    }
    assert !Overwritten(site, user, a);
    assert Settled(site, s, a) && SoundAt(site, user, s, a);
    assert Candidate(site, s.sources, n, a);
    forall b | Candidate(site, s.sources, n, b) ensures Reaches(site.parents, b, a) {
      assert SoundAt(site, user, s, b);
      assert Candidate(site, all, n, b);
    }
    TopUnique(site, s.sources, n, a);
  }

  /** Whatever the order, when the queue is empty the cluster is as it should be, but for what is still
      being deleted. */
  lemma Drained(site: Site, user: Objects, s: State, n: Name)
    requires Inv(site, user, s) && s.queue == {} && n in site.names && !Going(s.cluster, n)
    ensures IsFinal(site, user, s.cluster, n)
  {
    assert Settled(site, s, n) && SoundAt(site, user, s, n);
    forall a | IsTop(site, Cleaned(site, user), n, a)
      ensures n in s.cluster && a in user && UpToDate(s.cluster[n], Clean(user[a], site.unpropagated))
    {
      TopHolds(site, user, s, n, a);
      assert SoundAt(site, user, s, a);
    }
    if !Overwritten(site, user, n) && n in s.cluster && n !in user {
      TopIs(site, s.sources, n);
      if Top(site, s.sources, n).Some? {
        SourcesOverwrite(site, user, s, n);
      }
      assert false;
    }
  }

  /** So all runs end alike: the same users' objects, and copies of the same sources elsewhere. */
  lemma FinalUnique(site: Site, user: Objects, a: Objects, b: Objects, n: Name)
    requires site.Valid() && IsFinal(site, user, a, n) && IsFinal(site, user, b, n)
    ensures n in a <==> n in b
    ensures n in a ==>
              a[n] == b[n] ||
              (Canon(a[n]) == Canon(b[n]) && IsCopy(a[n]) && IsCopy(b[n])
               && a[n].labels[LABEL_INHERITED_FROM] == b[n].labels[LABEL_INHERITED_FROM])
  {
    TopIs(site, Cleaned(site, user), n);
    if Overwritten(site, user, n) {
      assert IsTop(site, Cleaned(site, user), n, Top(site, Cleaned(site, user), n).value);
    }
  }

  /** And the recorded sources are those users' objects that nothing above overwrites. */
  lemma FinalSources(site: Site, user: Objects, s: State)
    requires Inv(site, user, s) && s.queue == {}
    ensures s.sources == map n | n in user && !Overwritten(site, user, n) :: Clean(user[n], site.unpropagated)
  {
    forall n ensures n in s.sources <==> n in user && !Overwritten(site, user, n) {
      assert SoundAt(site, user, s, n);
      if n in user && !Overwritten(site, user, n) {
        assert Settled(site, s, n);
      } else if n in s.sources {
        OverwrittenTop(site, user, s, n);
        assert false;
      }
    }
    forall n | n in s.sources ensures s.sources[n] == Clean(user[n], site.unpropagated) {
      assert SoundAt(site, user, s, n);
    }
  }

  /** Where something above overwrites, what is there is a copy in the end, or is being deleted. */
  lemma OverwrittenTop(site: Site, user: Objects, s: State, n: Name)
    requires Inv(site, user, s) && s.queue == {} && n in user && Overwritten(site, user, n)
    ensures n in s.cluster && (IsCopy(s.cluster[n]) || s.cluster[n].deleting)
  {
    var all := Cleaned(site, user);
    TopIs(site, all, n);
    var a := Top(site, all, n).value;
    TopHolds(site, user, s, n, a);
    assert Settled(site, s, n);
    assert SoundAt(site, user, s, a);
  }

  /** A namespace is overwritten in the end exactly when a recorded source above it propagates. */
  lemma OverwrittenExactly(site: Site, user: Objects, s: State, n: Name)
    requires Inv(site, user, s) && s.queue == {}
    ensures Overwritten(site, user, n) <==> exists a :: IsTop(site, s.sources, n, a)
  {
    TopIs(site, Cleaned(site, user), n);
    if Overwritten(site, user, n) {
      TopHolds(site, user, s, n, Top(site, Cleaned(site, user), n).value);
      TopIs(site, s.sources, n);
    }
    if a :| IsTop(site, s.sources, n, a) {
      TopUnique(site, s.sources, n, a);
      SourcesOverwrite(site, user, s, n);
    }
  }

  /** What n ends up with, in terms of the users' objects: if a recorded source above propagates, a copy of
      the user's object behind the topmost one; else the user's own, recorded as a source; else nothing. */
  ghost predicate EndsAs(site: Site, user: Objects, sources: Objects, cluster: Objects, n: Name) {
    && (n in sources <==> n in user && !exists a :: IsTop(site, sources, n, a))
    && (n in sources ==> RecordedAs(site.unpropagated, user[n], sources[n]))
    && (forall a | IsTop(site, sources, n, a) ::
          a in user && n in cluster && CopiedAs(site.unpropagated, user[a], cluster[n]))
    && ((!exists a :: IsTop(site, sources, n, a)) ==>
          (n in cluster <==> n in user) && (n in user ==> cluster[n] == user[n]))
  }

  /** Whatever the order, that is how every run ends, but for what is still being deleted. */
  lemma DrainedMeans(site: Site, user: Objects, s: State, n: Name)
    requires Inv(site, user, s) && s.queue == {} && n in site.names && !Going(s.cluster, n)
    ensures EndsAs(site, user, s.sources, s.cluster, n)
  {
    FinalSources(site, user, s);
    OverwrittenExactly(site, user, s, n);
    Drained(site, user, s, n);
    if n in s.sources { CleanMeans(site.unpropagated, user[n]); }
    forall a | IsTop(site, s.sources, n, a)
      ensures a in user && n in s.cluster && CopiedAs(site.unpropagated, user[a], s.cluster[n])
    {
      CopyMeans(site, user, s, n, a);
    }
  }

  lemma CopyMeans(site: Site, user: Objects, s: State, n: Name, a: Name)
    requires Inv(site, user, s) && s.queue == {} && n in site.names && !Going(s.cluster, n)
    requires IsTop(site, s.sources, n, a)
    ensures a in user && n in s.cluster && CopiedAs(site.unpropagated, user[a], s.cluster[n])
  {
    TopUnique(site, s.sources, n, a);
    assert Settled(site, s, n) && SoundAt(site, user, s, a);
    UpToDateMeans(site.unpropagated, user[a], s.cluster[n]);
  }

  // ----- what single reconciliations do -----

  /** A copy without a source goes, or is marked if a finalizer holds it. */
  lemma RemovesCopy(site: Site, s: State, n: Name)
    requires n in s.cluster && IsCopy(s.cluster[n]) && !s.cluster[n].deleting && Top(site, s.sources, n).None?
    ensures var v := Next(site, s, n);
            && (n in v.cluster <==> s.cluster[n].finalizers != [])
            && (n in v.cluster ==> v.cluster[n] == s.cluster[n].(deleting := true))
            && n in v.queue && SameBut(s.cluster, v.cluster, n)
  {
  }

  /** An object that is not up to date with its source is written anew, as what is there if there is anything:
      the apiserver accepts an update only with the version it replaces. */
  lemma WritesCopy(site: Site, s: State, n: Name)
    requires site.Valid() && Top(site, s.sources, n).Some? && (n in s.sources ==> n in s.cluster)
    requires !Going(s.cluster, n) && Dirty(site, s, n)
    ensures var v := Next(site, s, n);
            && n in v.cluster && n in v.queue && n !in v.sources && SameBut(s.cluster, v.cluster, n)
            && v.cluster[n].namespace == n && v.cluster[n].created && v.cluster[n].finalizers == []
            && v.cluster[n].resourceVersion == (if n in s.cluster then s.cluster[n].resourceVersion else "")
            && UpToDate(v.cluster[n], s.sources[Top(site, s.sources, n).value])
  {
    OverwriteShape(site, s, n);
    TopIs(site, s.sources, n);
  }

  /** A source whose object is gone is forgotten, and everything below is reconciled. */
  lemma ForgetsSource(site: Site, s: State, n: Name)
    requires n !in s.cluster && n in s.sources
    ensures var v := Next(site, s, n);
            && n !in v.sources && SameBut(s.sources, v.sources, n) && v.cluster == s.cluster
            && s.queue - {n} <= v.queue && forall d | HasAncestor(site.parents, d, n) :: d in v.queue
  {
  }

  // ----- every run ends -----

  ghost function Pow(b: nat, e: nat): nat {
    if e == 0 then 1 else b * Pow(b, e - 1)
  }

  lemma TimesGrows(b: nat, x: nat)
    requires b > 0
    ensures b * x >= x
  {
    assert b * x == (b - 1) * x + x && (b - 1) * x >= 0;
  }

  lemma {:induction false} PowGrows(b: nat, d: nat, e: nat)
    requires b > 0 && d <= e
    ensures 1 <= Pow(b, d) <= Pow(b, e)
    decreases e
  {
    if e > 0 {
      PowGrows(b, if d < e then d else d - 1, e - 1);
      TimesGrows(b, Pow(b, e - 1));
    }
  }

  ghost function Base(site: Site): nat {
    2 * |site.names| + 1
  }

  /** A namespace weighs more than everything below it does, twice over. */
  ghost function Weight(site: Site, n: Name): nat {
    Pow(Base(site), |Descendants(site.parents, n)|)
  }

  /** One that is to be written or removed counts twice: it will be reconciled once more. */
  ghost function Work(site: Site, s: State, n: Name): nat {
    if Dirty(site, s, n) then 2 * Weight(site, n) else Weight(site, n)
  }

  ghost function Works(site: Site, s: State, q: set<Name>): map<Name, int> {
    map n | n in q :: Work(site, s, n) as int
  }

  ghost function Measure(site: Site, s: State): int {
    Sum(Works(site, s, s.queue))
  }

  lemma SmallerSet(a: set<Name>, b: set<Name>)
    ensures a <= b ==> |a| <= |b|
    ensures a < b ==> |a| < |b|
  {
    if a <= b { assert b == a + (b - a); }
  }

  lemma LighterBelow(site: Site, n: Name, d: Name)
    requires site.Valid() && d in Descendants(site.parents, n)
    ensures Weight(site, d) <= Pow(Base(site), |Descendants(site.parents, n)| - 1)
  {
    var p := site.parents;
    forall x | x in Descendants(p, d) ensures x in Descendants(p, n) {
      ReachesParent(p, d, n);
      Above(p, x, d, n);
    }
    NotAboveItself(site, d);
    SmallerSet(Descendants(p, d), Descendants(p, n));
    PowGrows(Base(site), |Descendants(p, d)|, |Descendants(p, n)| - 1);
  }

  /** Everything below n, even if all of it is to be written, is less work than n. */
  lemma BelowIsLess(site: Site, s: State, n: Name)
    requires site.Valid()
    ensures Sum(Works(site, s, Descendants(site.parents, n))) < Weight(site, n)
  {
    var d := Descendants(site.parents, n);
    var m := Works(site, s, d);
    WeightPositive(site, n);
    if d == {} {
      assert m == map[];
    } else {
      SmallerSet({}, d);
      var x := Pow(Base(site), |d| - 1);
      forall k | k in m ensures m[k] <= 2 * x {
        LighterBelow(site, n, k);
      }
      AtMost(site, m, d, x);
    }
  }

  lemma AtMost(site: Site, m: map<Name, int>, d: set<Name>, x: nat)
    requires m.Keys == d && 0 < |d| && d <= site.names && x == Pow(Base(site), |d| - 1)
    requires forall k | k in m :: m[k] <= 2 * x
    ensures Sum(m) < Pow(Base(site), |d|)
  {
    SumAtMost(m, 2 * x);
    assert |m| == |m.Keys|;
    SmallerSet(d, site.names);
    PowGrows(Base(site), 0, |d| - 1);
    LessThanBase(|d|, |site.names|, x);
  }

  lemma LessThanBase(d: nat, n: nat, x: nat)
    requires d <= n && x >= 1
    ensures d * (2 * x) < (2 * n + 1) * x
  {
    assert (2 * n + 1) * x == 2 * n * x + x;
    assert d * (2 * x) == 2 * (d * x);
    assert 2 * n * x == 2 * (n * x);
    assert (n - d) * x >= 0;
    assert n * x == d * x + (n - d) * x;
  }

  lemma OnlyWorks(site: Site, s: State, q: set<Name>, below: set<Name>)
    requires below <= q
    ensures Only(Works(site, s, q), below) == Works(site, s, below)
  {
  }

  /** The queue is as before without n, except perhaps for namespaces below n. */
  lemma LessWorkBelow(site: Site, s: State, v: State, n: Name)
    requires site.Valid() && n in s.queue && v.queue == s.queue - {n} + Descendants(site.parents, n)
    requires forall m | m in s.queue && m != n && m !in Descendants(site.parents, n) ::
               Work(site, v, m) == Work(site, s, m)
    ensures Measure(site, v) < Measure(site, s)
  {
    var below := Descendants(site.parents, n);
    BelowIsLess(site, v, n);
    NotAboveItself(site, n);
    OnlyWorks(site, v, v.queue, below);
    SumLess(Works(site, s, s.queue), Works(site, v, v.queue), n, below);
  }

  /** Nothing but n has changed, and n is done or has less to do. */
  lemma LessWorkHere(site: Site, s: State, v: State, n: Name)
    requires n in s.queue && s.queue - {n} <= v.queue <= s.queue
    requires forall m | m in s.queue && m != n :: Work(site, v, m) == Work(site, s, m)
    requires n in v.queue ==> Work(site, v, n) < Work(site, s, n)
    requires Work(site, s, n) > 0
    ensures Measure(site, v) < Measure(site, s)
  {
    SumDrop(Works(site, s, s.queue), Works(site, v, v.queue), n);
  }

  lemma WeightPositive(site: Site, n: Name)
    ensures Weight(site, n) >= 1
  {
    PowGrows(Base(site), 0, |Descendants(site.parents, n)|);
  }

  /** Each reconciliation leaves less work, whichever namespace is taken from the queue. */
  lemma NextDecreases(site: Site, user: Objects, s: State, n: Name)
    requires Inv(site, user, s) && n in s.queue
    ensures 0 <= Measure(site, Next(site, s, n)) < Measure(site, s)
  {
    var v := Next(site, s, n);
    assert SoundAt(site, user, s, n);
    WeightPositive(site, n);
    SumNotNegative(Works(site, v, v.queue));
    if Going(s.cluster, n) {
      LessWorkHere(site, s, v, n);
    } else if Top(site, s.sources, n).Some? {
      OverwriteWork(site, user, s, n);
      LessWorkHere(site, s, v, n);
    } else if CountsAsCopy(s.cluster, n) {
      RemoveWork(site, user, s, n);
      LessWorkHere(site, s, v, n);
    } else {
      RecordWork(site, user, s, n);
      LessWorkBelow(site, s, v, n);
    }
  }

  lemma RecordWork(site: Site, user: Objects, s: State, n: Name)
    requires Inv(site, user, s) && n in s.queue && Top(site, s.sources, n).None?
    requires n in s.cluster && !IsCopy(s.cluster[n]) && !s.cluster[n].deleting
    ensures var v := Next(site, s, n);
            && v.queue == s.queue - {n} + Descendants(site.parents, n)
            && forall m | m in s.queue && m != n && m !in Descendants(site.parents, n) ::
                 Work(site, v, m) == Work(site, s, m)
  {
    var v := Next(site, s, n);
    assert SoundAt(site, user, s, n);
    assert SameBut(s.sources, v.sources, n);
    forall m | m in s.queue && m != n && m !in Descendants(site.parents, n)
      ensures Work(site, v, m) == Work(site, s, m)
    {
      TopElsewhere(site, s.sources, v.sources, n, m);
      TopIs(site, s.sources, m);
    }
  }

  lemma RemoveWork(site: Site, user: Objects, s: State, n: Name)
    requires Inv(site, user, s) && n in s.queue && CountsAsCopy(s.cluster, n) && Top(site, s.sources, n).None?
    requires !Going(s.cluster, n)
    ensures var v := Next(site, s, n);
            && s.queue - {n} <= v.queue <= s.queue
            && (forall m | m in s.queue && m != n :: Work(site, v, m) == Work(site, s, m))
            && (n in v.queue ==> Dirty(site, s, n) && !Dirty(site, v, n))
  {
    var v := Next(site, s, n);
    assert SoundAt(site, user, s, n) && n !in s.sources;
    assert v.sources == s.sources && v.cluster == Deleted(s.cluster, n);
  }

  lemma OverwriteWork(site: Site, user: Objects, s: State, n: Name)
    requires Inv(site, user, s) && n in s.queue && Top(site, s.sources, n).Some? && !Going(s.cluster, n)
    ensures var v := Next(site, s, n);
            && s.queue - {n} <= v.queue <= s.queue
            && (forall m | m in s.queue && m != n :: Work(site, v, m) == Work(site, s, m))
            && (n in v.queue ==> Dirty(site, s, n) && !Dirty(site, v, n))
  {
    var v := Next(site, s, n);
    assert SoundAt(site, user, s, n);
    OverwriteShape(site, s, n);
    TopWithout(site, s.sources, n, n);
    forall m | m in s.queue && m != n ensures Work(site, v, m) == Work(site, s, m) {
      TopWithout(site, s.sources, n, m);
    }
  }
}
