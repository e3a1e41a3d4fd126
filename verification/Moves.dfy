/** Changing a parent: the usage moves out of the old ancestors and into the new ones, and a parent
    that is then neither synced nor referred to is forgotten. */
module Moves {
  import opened Ancestry
  import opened Structure
  import opened Resources
  import opened World
  import opened Quota
  import Ledger
  import Sums

  /** The old parent of n, if removing n leaves it with nothing to be remembered for. */
  ghost function Collected(w: World, n: Name): set<Name> {
    CollectedIn(w.names, w.parents, w.present, n)
  }

  ghost function CollectedIn(names: set<Name>, p: Parents, present: set<Name>, n: Name): set<Name> {
    set o | o in names && n in p && p[n] == o && o !in present && Children(p, o) == {n}
  }

  /** What a caller of SetParent sees to: the namespaces are of the forest, and the parent that would
      be forgotten is neither n itself nor the new parent. */
  ghost predicate Movable(w: World, n: Name, p: Option<Name>) {
    && n in w.names && n !in Collected(w, n)
    && (p.Some? ==> p.value in w.names && p.value !in Collected(w, n))
  }

  ghost function Relink(w: World, n: Name, p: Option<Name>): World {
    w.Link(n, p).Forget(Collected(w, n))
  }

  lemma RelinkValid(w: World, n: Name, p: Option<Name>)
    requires w.Valid() && Movable(w, n, p)
    ensures Relink(w, n, p).Valid() && n in Relink(w, n, p).names
  {
    var v := Relink(w, n, p);
    forall m | m in v.parents ensures v.parents[m] in v.names {
      if m != n {
        assert m in Children(w.parents, w.parents[m]);
      }
    }
  }

  /** The links still lead only to namespaces of the forest exactly when a caller saw to that: setting
      again the parent that n has can leave n under a parent that is just being forgotten. */
  lemma ClosedExactly(w: World, n: Name, p: Option<Name>)
    requires w.Valid() && w.AbsentAreRoots() && n in w.names && (p.Some? ==> p.value in w.names)
    ensures Closed(w.names - Collected(w, n), w.Link(n, p).parents) <==> Movable(w, n, p)
  {
    var names, q := w.names - Collected(w, n), w.Link(n, p).parents;
    if Movable(w, n, p) {
      forall m | m in q ensures m in names && q[m] in names {
        if m != n { assert m in Children(w.parents, w.parents[m]); }
      }
    } else {
      assert n in q && q[n] == p.value && q[n] !in names;
    }
  }

  /** So it fails for the only child of a parent that has not been synced. */
  lemma ReassignDangles(w: World)
    requires w.Valid() && w.AbsentAreRoots()
    requires w.names == {"a", "b"} && w.parents == map["a" := "b"] && w.present == {"a"}
    ensures !Movable(w, "a", Some("b")) && !Closed(w.names - Collected(w, "a"), w.Link("a", Some("b")).parents)
  {
    assert Children(w.parents, "b") == {"a"};
    assert "b" in Collected(w, "a");
    ClosedExactly(w, "a", Some("b"));
  }

  /** SetParent: take n's usage out, change the link, put the usage back. */
  ghost function SetParent(w: World, n: Name, p: Option<Name>): (v: World)
    requires w.Valid() && Movable(w, n, p)
    ensures v.Valid() && SameButUsage(Relink(w, n, p), v)
  {
    RelinkValid(w, n, p);
    RelinkValid(Use(w, n, map[]), n, p);
    Use(Relink(Use(w, n, map[]), n, p), n, w.local[n])
  }

  // ----- what a move keeps of the books -----

  /** The namespaces at or below n. */
  ghost function Below(w: World, n: Name): set<Name> {
    BelowIn(w.names, w.parents, n)
  }

  ghost function BelowIn(names: set<Name>, p: Parents, n: Name): set<Name> {
    set m | m in names && Reaches(p, m, n)
  }

  /** m uses nothing. */
  ghost predicate Idle(w: World, m: Name) {
    Ledger.Idle(w.local, m)
  }

  lemma LinkAgrees(w: World, n: Name, p: Option<Name>)
    ensures AgreeOff(w.parents, w.Link(n, p).parents, n) && Below(w.Link(n, p), n) == Below(w, n)
  {
    var v := w.Link(n, p);
    forall m ensures Reaches(w.parents, m, n) <==> Reaches(v.parents, m, n) {
      ReachUnaffected(w.parents, v.parents, n, m);
    }
  }

  lemma ListsAgree(names: set<Name>, p: Parents, p': Parents, n: Name, q: Quotas, d: set<Name>)
    requires AgreeOff(p, p', n)
    requires forall m | m in names :: m in d <==> Reaches(p, m, n)
    requires d <= names
    ensures var ls, ls' := ListsFor(names, p), ListsFor(names, p');
            Ledger.ChangedWithin(ls, KeptFor(ls, q), ls', KeptFor(ls', q), d)
  {
    var ls, ls' := ListsFor(names, p), ListsFor(names, p');
    forall m | m in names && m !in d ensures ls[m] == ls'[m] && forall a | a in ls[m] :: a !in d {
      AncestryOff(p, p', n, m);
    }
  }

  /** Changing n's parent changes the ancestry and the limits only of the namespaces at or below n. */
  lemma LinkChangesBelow(w: World, n: Name, p: Option<Name>)
    ensures var v := w.Link(n, p);
            Ledger.ChangedWithin(ListsOf(w), KeptOf(w), ListsOf(v), KeptOf(v), Below(w, n))
  {
    LinkAgrees(w, n, p);
    ListsAgree(w.names, w.parents, w.Link(n, p).parents, n, w.limits, Below(w, n));
  }

  lemma LinkConsistent(w: World, n: Name, p: Option<Name>)
    requires w.Valid() && n in w.names && (p.Some? ==> p.value in w.names) && Consistent(w)
    requires forall m | m in Below(w, n) :: Idle(w, m)
    ensures w.Link(n, p).Valid() && Consistent(w.Link(n, p))
  {
    var v := w.Link(n, p);
    ConsistentBooks(w);
    ConsistentBooks(v);
    LinkChangesBelow(w, n, p);
    Ledger.IdleChangeConsistent(ListsOf(w), KeptOf(w), ListsOf(v), KeptOf(v), Below(w, n), BooksOf(w));
  }

  // ----- forgetting a namespace -----

  /** Nothing leads to or from o. */
  ghost predicate Alone(p: Parents, o: Name) {
    o !in p && forall m | m in p :: p[m] != o
  }

  lemma AloneAncestry(p: Parents, o: Name)
    requires Alone(p, o)
    ensures AncestryOf(p, o) == [o]
    ensures forall m | m != o :: o !in AncestryOf(p, m)
  {
    AncestryUnique(p, o, [o]);
    forall m | m != o ensures o !in AncestryOf(p, m) {
      AncestryMembers(p, m, o);
      if Reaches(p, m, o) {
        var k: nat :| Steps(p, m, o, k);
        NoWayIn(p, m, o, k);
      }
    }
  }

  lemma {:induction false} NoWayIn(p: Parents, m: Name, o: Name, k: nat)
    requires m != o && Steps(p, m, o, k)
    ensures exists c :: c in p && p[c] == o
    decreases k
  {
    if p[m] != o {
      NoWayIn(p, p[m], o, k - 1);
    }
  }

  lemma LimitedWithout(s: seq<Name>, q: Quotas, o: Name)
    requires o !in s
    ensures LimitedBy(s, q - {o}) == LimitedBy(s, q)
  {
    forall r | r in LimitedBy(s, q) ensures r in LimitedBy(s, q - {o}) {
      var a, h := LimitedByElim(s, q, r);
      LimitedByIntro(s, q - {o}, a, h, r);
    }
    forall r | r in LimitedBy(s, q - {o}) ensures r in LimitedBy(s, q) {
      var a, h := LimitedByElim(s, q - {o}, r);
      LimitedByIntro(s, q, a, h, r);
    }
  }

  lemma ListsWithout(names: set<Name>, p: Parents, q: Quotas, o: Name)
    requires Alone(p, o)
    ensures ListsFor(names - {o}, p) == ListsFor(names, p) - {o}
    ensures KeptFor(ListsFor(names - {o}, p), q - {o}) == KeptFor(ListsFor(names, p), q) - {o}
  {
    AloneAncestry(p, o);
    forall m | m in names - {o} ensures LimitedBy(AncestryOf(p, m), q - {o}) == LimitedBy(AncestryOf(p, m), q) {
      LimitedWithout(AncestryOf(p, m), q, o);
    }
  }

  lemma ForgetShape(w: World, o: Name)
    requires w.Valid() && o in w.names && Alone(w.parents, o)
    ensures var v := w.Forget({o});
            && v.Valid() && v.parents == w.parents
            && ListsOf(v) == ListsOf(w) - {o} && KeptOf(v) == KeptOf(w) - {o}
            && ListsOf(w)[o] == [o] && forall m | m in w.names && m != o :: o !in ListsOf(w)[m]
  {
    assert w.parents - {o} == w.parents;
    AloneAncestry(w.parents, o);
    ListsWithout(w.names, w.parents, w.limits, o);
  }

  lemma ForgetConsistent(w: World, o: Name)
    requires w.Valid() && o in w.names && Alone(w.parents, o) && Consistent(w)
    ensures w.Forget({o}).Valid() && Consistent(w.Forget({o}))
  {
    ForgetShape(w, o);
    ConsistentBooks(w);
    ConsistentBooks(w.Forget({o}));
    Ledger.DropConsistent(ListsOf(w), KeptOf(w), BooksOf(w), o);
  }

  lemma ForgetNothing(w: World)
    ensures w.Forget({}) == w
  {
    assert w.parents - {} == w.parents && w.data - {} == w.data && w.limits - {} == w.limits;
    assert w.local - {} == w.local && w.subtree - {} == w.subtree;
  }

  /** At most one namespace is forgotten, and then nothing leads to or from it. */
  lemma CollectedCases(w: World, n: Name, p: Option<Name>) returns (o: Option<Name>)
    requires w.Valid() && Movable(w, n, p) && w.AbsentAreRoots()
    ensures Collected(w, n) == (if o.Some? then {o.value} else {})
    ensures o.Some? ==> o.value in w.names && o.value != n && Alone(w.Link(n, p).parents, o.value)
  {
    if x :| x in Collected(w, n) {
      o := Some(x);
      var q := w.Link(n, p).parents;
      forall m | m in q ensures q[m] != x {
        if m != n {
          assert m in w.parents;
          assert w.parents[m] == x ==> m in Children(w.parents, x);
        }
      }
    } else {
      o := None;
    }
  }

  lemma RelinkConsistent(w: World, n: Name, p: Option<Name>)
    requires w.Valid() && Movable(w, n, p) && w.AbsentAreRoots() && Consistent(w)
    requires forall m | m in Below(w, n) :: Idle(w, m)
    ensures Relink(w, n, p).Valid() && Consistent(Relink(w, n, p))
  {
    LinkConsistent(w, n, p);
    var o := CollectedCases(w, n, p);
    if o.Some? {
      ForgetConsistent(w.Link(n, p), o.value);
    } else {
      ForgetNothing(w.Link(n, p));
    }
  }

  lemma UseLocal(w: World, n: Name, u: ResourceList)
    requires w.Valid() && n in w.names
    ensures Use(w, n, u).local == w.local[n := Masked(u, Limited(w, n))]
  {
    BooksProper(w);
    Ledger.UseLocal(ListsOf(w), KeptOf(w), BooksOf(w), n, u);
    assert KeptOf(w)[n] == Limited(w, n);
  }

  lemma ClearedRelinkConsistent(w: World, n: Name, p: Option<Name>)
    requires w.Valid() && Movable(w, n, p) && w.AbsentAreRoots() && Consistent(w)
    requires forall m | m in Below(w, n) && m != n :: Idle(w, m)
    ensures var x := Relink(Use(w, n, map[]), n, p); x.Valid() && n in x.names && Consistent(x)
  {
    var v := Use(w, n, map[]);
    UseRefines(w, n, map[]);
    ClearedIdle(w, n);
    RelinkConsistent(v, n, p);
    RelinkValid(v, n, p);
  }

  /** Moving a namespace keeps every cached usage right, cycles included, when nothing else at or
      below it has usage, in particular when it has no children. */
  lemma MoveConserves(w: World, n: Name, p: Option<Name>)
    requires w.Valid() && Movable(w, n, p) && w.AbsentAreRoots() && Consistent(w)
    requires forall m | m in Below(w, n) && m != n :: Idle(w, m)
    ensures Consistent(SetParent(w, n, p))
  {
    ClearedRelinkConsistent(w, n, p);
    UseRefines(Relink(Use(w, n, map[]), n, p), n, w.local[n]);
  }

  /** The usage of every namespace comes through a move, but for what is no longer limited in the
      one that moved. */
  lemma MoveKeepsUsage(w: World, n: Name, p: Option<Name>)
    requires w.Valid() && Movable(w, n, p)
    ensures var v := SetParent(w, n, p);
            v.local == (w.local - Collected(w, n))[n := Masked(w.local[n], Limited(v, n))]
  {
    var x := Use(w, n, map[]);
    RelinkValid(x, n, p);
    var y := Relink(x, n, p);
    UseLocal(w, n, map[]);
    UseLocal(y, n, w.local[n]);
    var l := Masked(w.local[n], Limited(y, n));
    SameLimited(y, SetParent(w, n, p), n);
    assert y.local == x.local - Collected(w, n);
    SetTwice(w.local, Collected(w, n), n, x.local[n], l);
  }

  lemma SetTwice(m: map<Name, ResourceList>, c: set<Name>, n: Name, x: ResourceList, y: ResourceList)
    ensures (m[n := x] - c)[n := y] == (m - c)[n := y]
  {
  }

  lemma SameLimited(w: World, v: World, n: Name)
    requires w.parents == v.parents && w.limits == v.limits
    ensures Limited(w, n) == Limited(v, n)
  {
  }

  lemma ClearedIdle(w: World, n: Name)
    requires w.Valid() && n in w.names
    requires forall m | m in Below(w, n) && m != n :: Idle(w, m)
    ensures forall m | m in Below(w, n) :: Idle(Use(w, n, map[]), m)
  {
    var v := Use(w, n, map[]);
    UseLocal(w, n, map[]);
    forall m | m in Below(w, n) ensures Idle(v, m) {
      if m != n { assert Idle(w, m); }
    }
  }

  // ----- what a move leaves behind and what it brings -----

  /** The usage of r by the namespaces strictly below n. */
  ghost function UsageBelow(w: World, n: Name, r: Resource): int {
    Ledger.UsageWithin(w.local, Below(w, n) - {n}, r)
  }

  /** By how much the usage of r cached at a is more than the sum. */
  ghost function Surplus(w: World, a: Name, r: Resource): int {
    Val(Ledger.At(w.subtree, a), r) - Total(w, a, r)
  }

  /** By how much the sum at a falls when n gets the parent p. */
  ghost function Fall(w: World, n: Name, p: Option<Name>, a: Name, r: Resource): int {
    Total(w, a, r) - Total(w.Link(n, p), a, r)
  }

  lemma NoSurplus(w: World, a: Name, r: Resource)
    requires w.Valid() && Consistent(w) && a in w.names && r in Limited(w, a)
    ensures Surplus(w, a, r) == 0
  {
  }

  /** Off cycles, an ancestor of n occurs once in the list of everything at or below n. */
  lemma OccursOnce(p: Parents, n: Name, a: Name, m: Name)
    requires Acyclic(p) && Reaches(p, m, n) && Reaches(p, n, a)
    ensures multiset(AncestryOf(p, m))[a] == 1
  {
    ReachesTrans(p, m, n, a);
    AncestryMembers(p, m, a);
    AcyclicIsCycleFree(p, m);
    RepeatIsCycle(p, m);
    Ledger.OnceInDistinct(AncestryOf(p, m), a);
  }

  /** What n does not reach and is not below n, nothing below n reaches. */
  lemma OccursNever(p: Parents, n: Name, a: Name, m: Name)
    requires Reaches(p, m, n) && !Reaches(p, n, a) && !Reaches(p, a, n)
    ensures multiset(AncestryOf(p, m))[a] == 0
  {
    AncestryMembers(p, m, a);
    if Reaches(p, m, a) {
      ReachesLinear(p, m, n, a);
    }
  }

  /** n is under a now and will not be once p is its parent. */
  ghost predicate Leaves(p: Parents, n: Name, q: Option<Name>, a: Name) {
    Acyclic(p) && a != n && Reaches(p, n, a) && (q.Some? ==> !Reaches(p, q.value, a))
  }

  lemma LeavesUnreached(w: World, n: Name, p: Option<Name>, a: Name)
    requires Leaves(w.parents, n, p, a)
    ensures var q := w.Link(n, p).parents; !Reaches(q, n, a) && !Reaches(q, a, n)
  {
    var o, q := w.parents, w.Link(n, p).parents;
    LinkAgrees(w, n, p);
    ReachUnaffected(o, q, n, a);
    ReachesCases(o, n, a);
    if Reaches(o, a, n) {
      ReachesTrans(o, o[n], a, n);
    }
    ReachesCases(q, n, a);
    if p.Some? {
      if Reaches(o, p.value, n) { ReachesTrans(o, p.value, n, a); }
      AncestryOff(o, q, n, p.value);
      AncestryMembers(o, p.value, a);
      AncestryMembers(q, p.value, a);
    }
  }

  lemma LinkTotal(w: World, n: Name, p: Option<Name>, a: Name, r: Resource)
    requires w.Valid() && n in w.names && Leaves(w.parents, n, p, a)
    ensures Total(w, a, r) == Total(w.Link(n, p), a, r) + Ledger.UsageWithin(w.local, Below(w, n), r)
  {
    var v := w.Link(n, p);
    var ls, ls', d := ListsOf(w), ListsOf(v), Below(w, n);
    LinkAgrees(w, n, p);
    LinkChangesBelow(w, n, p);
    LeavesUnreached(w, n, p, a);
    forall m | m in ls && m in d ensures multiset(ls[m])[a] == 1 && multiset(ls'[m])[a] == 0 {
      assert m in Below(v, n);
      OccursOnce(w.parents, n, a, m);
      OccursNever(v.parents, n, a, m);
    }
    Ledger.LeavingChanges(ls, ls', d, w.local, a, r);
  }

  lemma LeaveFall(w: World, n: Name, p: Option<Name>, a: Name, r: Resource)
    requires w.Valid() && n in w.names && Leaves(w.parents, n, p, a)
    ensures Fall(w, n, p, a, r) == Ledger.UsageWithin(w.local, Below(w, n), r) && a !in Below(w, n)
  {
    LinkTotal(w, n, p, a, r);
    LeavesUnreached(w, n, p, a);
    LinkAgrees(w, n, p);
    ReachUnaffected(w.parents, w.Link(n, p).parents, n, a);
  }

  /** n is not under a now and will be once p is its parent: moving it back would leave a. */
  ghost predicate Joins(w: World, n: Name, p: Option<Name>, a: Name) {
    Leaves(w.Link(n, p).parents, n, ParentName(w.parents, n), a)
  }

  lemma JoinFall(w: World, n: Name, p: Option<Name>, a: Name, r: Resource)
    requires w.Valid() && n in w.names && (p.Some? ==> p.value in w.names) && Joins(w, n, p, a)
    ensures Fall(w, n, p, a, r) == -Ledger.UsageWithin(w.local, Below(w, n), r) && a !in Below(w, n)
  {
    var v := w.Link(n, p);
    LinkAgrees(w, n, p);
    LinkBack(w, n, p);
    LeaveFall(v, n, ParentName(w.parents, n), a, r);
  }

  lemma LinkBack(w: World, n: Name, p: Option<Name>)
    ensures w.Link(n, p).Link(n, ParentName(w.parents, n)) == w
  {
    assert w.Link(n, p).Link(n, ParentName(w.parents, n)).parents == w.parents;
  }

  /** There is no cycle before or after n gets the parent p, and a is not at or below n. */
  ghost predicate Outside(w: World, n: Name, p: Option<Name>, a: Name) {
    Acyclic(w.parents) && Acyclic(w.Link(n, p).parents) && !Reaches(w.parents, a, n)
  }

  /** n is under a both before and after it gets the parent p, or neither. */
  ghost predicate StaysUnder(w: World, n: Name, p: Option<Name>, a: Name) {
    Reaches(w.parents, n, a) <==> Reaches(w.Link(n, p).parents, n, a)
  }

  lemma StayCount(o: Parents, q: Parents, n: Name, a: Name, m: Name)
    requires Acyclic(o) && Acyclic(q) && AgreeOff(o, q, n) && !Reaches(o, a, n) && Reaches(o, m, n)
    requires Reaches(o, n, a) <==> Reaches(q, n, a)
    ensures multiset(AncestryOf(o, m))[a] == multiset(AncestryOf(q, m))[a]
  {
    ReachUnaffected(o, q, n, a);
    ReachUnaffected(o, q, n, m);
    if Reaches(o, n, a) {
      OccursOnce(o, n, a, m);
      OccursOnce(q, n, a, m);
    } else {
      OccursNever(o, n, a, m);
      OccursNever(q, n, a, m);
    }
  }

  lemma StayCounts(w: World, n: Name, p: Option<Name>, a: Name, m: Name)
    requires m in w.names && Outside(w, n, p, a) && StaysUnder(w, n, p, a)
    ensures multiset(AncestryOf(w.parents, m))[a] == multiset(AncestryOf(w.Link(n, p).parents, m))[a]
  {
    var o, q := w.parents, w.Link(n, p).parents;
    LinkAgrees(w, n, p);
    if Reaches(o, m, n) {
      StayCount(o, q, n, a, m);
    } else {
      AncestryOff(o, q, n, m);
    }
  }

  lemma StayFall(w: World, n: Name, p: Option<Name>, a: Name, r: Resource)
    requires w.Valid() && n in w.names && (p.Some? ==> p.value in w.names) && a in w.names
    requires Outside(w, n, p, a) && StaysUnder(w, n, p, a)
    ensures Fall(w, n, p, a, r) == 0
  {
    var ls, ls' := ListsOf(w), ListsOf(w.Link(n, p));
    forall m | m in ls ensures multiset(ls[m])[a] == multiset(ls'[m])[a] {
      StayCounts(w, n, p, a, m);
    }
    Ledger.SameCounts(ls, ls', w.local, a, r);
  }

  lemma UnderCases(w: World, n: Name, p: Option<Name>, a: Name)
    requires w.Valid() && n in w.names && (p.Some? ==> p.value in w.names)
    requires Outside(w, n, p, a) && !StaysUnder(w, n, p, a)
    ensures Leaves(w.parents, n, p, a) || Joins(w, n, p, a)
  {
    var o, q := w.parents, w.Link(n, p).parents;
    ReachesSelf(o, n);
    LinkAgrees(w, n, p);
    if n in q && Reaches(o, q[n], a) { OffFirstStep(o, q, n, a); }
    if n in o && Reaches(q, o[n], a) { OffFirstStep(q, o, n, a); }
  }

  /** Above n's parent, the links are the same in both. */
  lemma OffFirstStep(o: Parents, q: Parents, n: Name, a: Name)
    requires AgreeOff(o, q, n) && Acyclic(q) && n in q && Reaches(o, q[n], a)
    ensures Reaches(q, n, a)
  {
    AcyclicIsCycleFree(q, n);
    ReachesSelf(q, n);
    AncestryOff(q, o, n, q[n]);
    AncestryMembers(o, q[n], a);
    AncestryMembers(q, q[n], a);
    ReachesCases(q, n, a);
  }

  /** What n's parent is to be does not depend on usages, so neither does which case a move is of. */
  lemma SameLinks(w: World, v: World, n: Name, p: Option<Name>)
    requires SameButUsage(w, v)
    ensures w.Link(n, p).parents == v.Link(n, p).parents && Below(v, n) == Below(w, n)
  {
  }

  lemma RelinkTotal(w: World, n: Name, p: Option<Name>, a: Name, r: Resource)
    requires w.Valid() && Movable(w, n, p) && w.AbsentAreRoots() && a in w.names - Collected(w, n)
    ensures Total(Relink(w, n, p), a, r) == Total(w.Link(n, p), a, r)
    ensures Relink(w, n, p).parents == w.Link(n, p).parents
  {
    var v := w.Link(n, p);
    var o := CollectedCases(w, n, p);
    if o.Some? {
      ForgetTotal(v, o.value, a, r);
    } else {
      ForgetNothing(v);
    }
  }

  lemma ForgetTotal(w: World, o: Name, a: Name, r: Resource)
    requires w.Valid() && o in w.names && Alone(w.parents, o) && a != o
    ensures Total(w.Forget({o}), a, r) == Total(w, a, r) && w.Forget({o}).parents == w.parents
  {
    ForgetShape(w, o);
    Ledger.DropTotal(ListsOf(w), w.local, o, a, r);
  }

  /** The limits in force outside what is at or below n do not change with n's parent. */
  lemma RelinkLimited(w: World, n: Name, p: Option<Name>, a: Name)
    requires w.Valid() && Movable(w, n, p) && w.AbsentAreRoots() && a in w.names - Collected(w, n) && a !in Below(w, n)
    ensures Limited(Relink(w, n, p), a) == Limited(w, a)
  {
    var v := w.Link(n, p);
    LinkChangesBelow(w, n, p);
    assert KeptOf(w)[a] == Limited(w, a) && KeptOf(v)[a] == Limited(v, a);
    var o := CollectedCases(w, n, p);
    if o.Some? {
      ForgetShape(v, o.value);
      assert KeptOf(v.Forget({o.value}))[a] == Limited(v.Forget({o.value}), a);
    } else {
      ForgetNothing(v);
    }
  }

  /** A change of usage shifts a limited value and its total alike. */
  lemma UseShifts(w: World, n: Name, u: ResourceList, a: Name, r: Resource)
    requires w.Valid() && n in w.names && a in w.names && r in Limited(w, a)
    ensures Surplus(Use(w, n, u), a, r) == Surplus(w, a, r)
  {
    BooksProper(w);
    assert KeptOf(w)[a] == Limited(w, a);
    Ledger.UseShifts(ListsOf(w), KeptOf(w), BooksOf(w), n, u, a, r);
  }

  lemma RelinkShifts(w: World, n: Name, p: Option<Name>, a: Name, r: Resource)
    requires w.Valid() && Movable(w, n, p) && w.AbsentAreRoots() && a in w.names - Collected(w, n)
    ensures Surplus(Relink(w, n, p), a, r) == Surplus(w, a, r) + Fall(w, n, p, a, r)
  {
    RelinkTotal(w, n, p, a, r);
  }

  /** Outside what is at or below n, a move leaves a surplus of what the sum falls by, taken without
      n's own usage. */
  lemma MoveShifts(w: World, n: Name, p: Option<Name>, a: Name, r: Resource)
    requires w.Valid() && Movable(w, n, p) && w.AbsentAreRoots()
    requires a in w.names - Collected(w, n) && a !in Below(w, n) && r in Limited(w, a)
    ensures Surplus(SetParent(w, n, p), a, r) == Surplus(w, a, r) + Fall(Use(w, n, map[]), n, p, a, r)
  {
    var x := Use(w, n, map[]);
    SameLinks(w, x, n, p);
    SameLimited(w, x, a);
    UseShifts(w, n, map[], a, r);
    RelinkShifts(x, n, p, a, r);
    RelinkValid(x, n, p);
    RelinkLimited(x, n, p, a);
    UseShifts(Relink(x, n, p), n, w.local[n], a, r);
  }

  lemma ClearedUsage(w: World, n: Name, r: Resource)
    requires w.Valid() && n in w.names
    ensures var x := Use(w, n, map[]); Ledger.UsageWithin(x.local, Below(x, n), r) == UsageBelow(w, n, r)
  {
    UseLocal(w, n, map[]);
    SameLinks(w, Use(w, n, map[]), n, None);
    Ledger.UsageWithout(w.local, Below(w, n), n, Masked(map[], Limited(w, n)), r);
  }

  /** The usage cached at an old ancestor grows too high, in a move, by exactly the usage of what is
      strictly below the moved namespace. */
  lemma MoveLeavesBehind(w: World, n: Name, p: Option<Name>, a: Name, r: Resource)
    requires w.Valid() && Movable(w, n, p) && w.AbsentAreRoots()
    requires Leaves(w.parents, n, p, a) && a in w.names - Collected(w, n) && r in Limited(w, a)
    ensures Surplus(SetParent(w, n, p), a, r) == Surplus(w, a, r) + UsageBelow(w, n, r)
  {
    var x := Use(w, n, map[]);
    SameLinks(w, x, n, p);
    LeaveFall(x, n, p, a, r);
    MoveShifts(w, n, p, a, r);
    ClearedUsage(w, n, r);
  }

  /** The usage cached at a new ancestor gets too low by as much. */
  lemma MoveBringsTooLittle(w: World, n: Name, p: Option<Name>, a: Name, r: Resource)
    requires w.Valid() && Movable(w, n, p) && w.AbsentAreRoots()
    requires Joins(w, n, p, a) && a in w.names - Collected(w, n) && r in Limited(w, a)
    ensures Surplus(SetParent(w, n, p), a, r) == Surplus(w, a, r) - UsageBelow(w, n, r)
  {
    var x := Use(w, n, map[]);
    SameLinks(w, x, n, p);
    JoinFall(x, n, p, a, r);
    MoveShifts(w, n, p, a, r);
    ClearedUsage(w, n, r);
  }

  /** The usage cached at a namespace that n is under before and after, or neither, is as right or
      wrong as it was. */
  lemma MoveKeepsElsewhere(w: World, n: Name, p: Option<Name>, a: Name, r: Resource)
    requires w.Valid() && Movable(w, n, p) && w.AbsentAreRoots()
    requires Outside(w, n, p, a) && StaysUnder(w, n, p, a) && a in w.names - Collected(w, n) && r in Limited(w, a)
    ensures Surplus(SetParent(w, n, p), a, r) == Surplus(w, a, r)
  {
    var x := Use(w, n, map[]);
    SameLinks(w, x, n, p);
    StayFall(x, n, p, a, r);
    MoveShifts(w, n, p, a, r);
  }

  /** So off cycles a move keeps a right usage right, outside what is at or below n, exactly where n is
      under both before and after or neither, or where nothing strictly below n uses the resource. */
  lemma MoveRightOutside(w: World, n: Name, p: Option<Name>, a: Name, r: Resource)
    requires w.Valid() && Movable(w, n, p) && w.AbsentAreRoots()
    requires Outside(w, n, p, a) && a in w.names - Collected(w, n) && r in Limited(w, a) && Surplus(w, a, r) == 0
    ensures Surplus(SetParent(w, n, p), a, r) == 0 <==> StaysUnder(w, n, p, a) || UsageBelow(w, n, r) == 0
  {
    if StaysUnder(w, n, p, a) {
      MoveKeepsElsewhere(w, n, p, a, r);
    } else {
      UnderCases(w, n, p, a);
      MoveShiftsUsage(w, n, p, a, r);
    }
  }

  lemma MoveShiftsUsage(w: World, n: Name, p: Option<Name>, a: Name, r: Resource)
    requires w.Valid() && Movable(w, n, p) && w.AbsentAreRoots() && a in w.names - Collected(w, n) && r in Limited(w, a)
    requires Leaves(w.parents, n, p, a) || Joins(w, n, p, a)
    ensures Surplus(SetParent(w, n, p), a, r) == Surplus(w, a, r) <==> UsageBelow(w, n, r) == 0
  {
    if Leaves(w.parents, n, p, a) {
      MoveLeavesBehind(w, n, p, a, r);
    } else {
      MoveBringsTooLittle(w, n, p, a, r);
    }
    Balance(Surplus(SetParent(w, n, p), a, r), Surplus(w, a, r), UsageBelow(w, n, r));
  }

  lemma Balance(x: int, y: int, d: int)
    requires x == y + d || x == y - d
    ensures x == y <==> d == 0
  {
  }

  /** "c" under "b" under "a": "a" has a quota object, and "c" uses three of what it limits. */
  function Chain(): World {
    World({"a", "b", "c"}, map["b" := "a", "c" := "b"], {"a", "b", "c"},
      map["a" := NEW_DATA, "b" := NEW_DATA, "c" := NEW_DATA],
      map["a" := map["q" := map["pods" := 10]], "b" := map[], "c" := map[]],
      map["a" := map[], "b" := map[], "c" := map["pods" := 3]], map["a" := map[], "b" := map[], "c" := map[]])
  }

  lemma ChainLinks()
    ensures var p := Chain().parents;
            && Acyclic(p) && Reaches(p, "b", "a") && Reaches(p, "c", "b")
            && Reaches(p, "b", "b") && !Reaches(p, "a", "b")
  {
    var p := Chain().parents;
    AncestryUnique(p, "c", ["a", "b", "c"]);
    RepeatIsCycle(p, "c");
    forall n ensures !OnCycle(p, n) {
      AncestryMembers(p, "c", n);
    }
    AncestryUnique(p, "b", ["a", "b"]);
    AncestryMembers(p, "b", "a");
    AncestryMembers(p, "b", "b");
    AncestryMembers(p, "c", "b");
    AncestryUnique(p, "a", ["a"]);
    AncestryMembers(p, "a", "b");
  }

  lemma ChainUsage(w: World)
    requires w.names == Chain().names && w.parents == Chain().parents && w.local == Chain().local
    ensures UsageBelow(w, "b", "pods") == 3
  {
    ChainLinks();
    var d := Below(w, "b") - {"b"};
    assert "c" in d && "a" !in d && "b" !in d;
    var m: map<Name, int> := map k | k in w.local :: if k in d then Val(w.local[k], "pods") else 0;
    assert m == map["a" := 0, "b" := 0, "c" := 3];
    Sums.SumTake(m, "c");
    Sums.SumZero(m - {"c"});
  }

  lemma ChainLimits(w: World)
    requires w.parents == Chain().parents && w.limits == Chain().limits
    ensures "pods" in Limited(w, "a")
  {
    AncestryUnique(w.parents, "a", ["a"]);
    LimitedByIntro(["a"], w.limits, "a", "q", "pods");
  }

  lemma ChainMoves(w: World)
    requires w.Valid() && w == Chain().(subtree := w.subtree)
    ensures w.AbsentAreRoots() && Movable(w, "b", None) && "a" in w.names - Collected(w, "b")
    ensures Leaves(w.parents, "b", None, "a")
  {
    ChainLinks();
  }

  lemma ChainGoesWrong(w: World)
    requires w.Valid() && w == Chain().(subtree := w.subtree)
    ensures w.AbsentAreRoots() && Movable(w, "b", None)
    ensures Surplus(SetParent(w, "b", None), "a", "pods") == Surplus(w, "a", "pods") + 3
  {
    ChainUsage(w);
    ChainLimits(w);
    ChainMoves(w);
    MoveLeavesBehind(w, "b", None, "a", "pods");
  }

  lemma ChainConsistent() returns (w: World)
    ensures w == Chain().(subtree := w.subtree) && w.Valid() && Consistent(w)
  {
    w := Rectify(Chain());
    RectifyFromGarbage(Chain());
  }

  /** And wrong it goes: from a forest where all is right, making "b" a root leaves "a" with the usage
      of "c". */
  lemma MoveGoesWrong() returns (w: World)
    ensures w.Valid() && Consistent(w) && w.AbsentAreRoots() && Movable(w, "b", None)
    ensures Surplus(w, "a", "pods") == 0 && Surplus(SetParent(w, "b", None), "a", "pods") == 3
  {
    w := ChainConsistent();
    ChainLimits(w);
    NoSurplus(w, "a", "pods");
    ChainGoesWrong(w);
  }

  // ----- a change of parent, step by step -----

  lemma DetachNothing(w: World, n: Name)
    requires n !in w.parents
    ensures Collected(w, n) == {} && w.Link(n, None).Forget({}) == w
  {
    assert w.parents - {n} == w.parents;
    ForgetNothing(w);
  }

  lemma DetachOne(w: World, n: Name, o: Name)
    requires w.Valid() && n in w.parents && w.parents[n] == o && n !in Collected(w, n)
    ensures var v := w.Link(n, None);
            && Children(v.parents, o) == Children(w.parents, o) - {n}
            && Collected(w, n) == (if o in w.present || Children(v.parents, o) != {} then {} else {o})
            && v.Forget({}) == v
  {
    var v := w.Link(n, None);
    ForgetNothing(v);
    assert Children(v.parents, o) == Children(w.parents, o) - {n};
    assert n in Children(w.parents, o);
    assert Children(v.parents, o) == {} <==> Children(w.parents, o) == {n};
  }

  lemma RelinkInSteps(w: World, n: Name, p: Option<Name>)
    requires Movable(w, n, p)
    ensures var v := w.Link(n, None).Forget(Collected(w, n));
            Relink(w, n, p) == if p.Some? then v.Link(n, p) else v
  {
    var c := Collected(w, n);
    var v := w.Link(n, None).Forget(c);
    if p.Some? {
      assert ((w.parents - {n}) - c)[n := p.value] == w.parents[n := p.value] - c;
    }
  }
}
