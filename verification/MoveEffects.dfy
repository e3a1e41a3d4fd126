/** What a move does to the usages cached at the moved namespace, below it and everywhere else, off cycles:
    exactly where a right value stays right. */
module MoveEffects {
  import opened Ancestry
  import opened Structure
  import opened Resources
  import opened World
  import opened Quota
  import opened Moves
  import Ledger
  import Sums

  /** The usage of r cached at a is the sum if r is limited there, and zero otherwise. */
  ghost predicate RightAt(w: World, a: Name, r: Resource) {
    Val(Ledger.At(w.subtree, a), r) == if r in Limited(w, a) then Total(w, a, r) else 0
  }

  /** There is no cycle before or after n gets the parent p. */
  ghost predicate OffCycles(w: World, n: Name, p: Option<Name>) {
    Acyclic(w.parents) && Acyclic(w.Link(n, p).parents)
  }

  /** The move can be made, off cycles, and does not make the forest forget a. */
  ghost predicate Moving(w: World, n: Name, p: Option<Name>, a: Name) {
    w.Valid() && Movable(w, n, p) && w.AbsentAreRoots() && OffCycles(w, n, p) && a in w.names - Collected(w, n)
  }

  // ----- a change of usage, seen from elsewhere -----

  lemma UseElsewhere(w: World, n: Name, u: ResourceList, a: Name, r: Resource)
    requires w.Valid() && n in w.names && a in w.names && !Reaches(w.parents, n, a)
    ensures Val(Use(w, n, u).subtree[a], r) == Val(w.subtree[a], r)
    ensures Total(Use(w, n, u), a, r) == Total(w, a, r)
  {
    var ls, lims, b := ListsOf(w), KeptOf(w), BooksOf(w);
    BooksProper(w);
    AncestryMembers(w.parents, n, a);
    assert multiset(ls[n])[a] == 0;
    Ledger.UseValue(ls, lims, b, n, u, a, r);
    Ledger.UseTotal(ls, lims, b, n, u, a, r);
  }

  /** A zero for a resource that is not limited stays a zero. */
  lemma UseKeepsZero(w: World, n: Name, u: ResourceList, a: Name, r: Resource)
    requires w.Valid() && n in w.names && a in w.names && r !in Limited(w, a) && Val(w.subtree[a], r) == 0
    ensures Val(Use(w, n, u).subtree[a], r) == 0
  {
    BooksProper(w);
    assert KeptOf(w)[a] == Limited(w, a);
    Ledger.UseValue(ListsOf(w), KeptOf(w), BooksOf(w), n, u, a, r);
  }

  // ----- at or below the moved namespace, the sums stay -----

  lemma {:induction false} StepsBelow(o: Parents, q: Parents, n: Name, m: Name, a: Name, k: nat)
    requires AgreeOff(o, q, n) && Steps(o, m, a, k) && (a == n || !Reaches(o, n, a))
    ensures Reaches(q, m, a)
    decreases k
  {
    if m == a {
      ReachesSelf(q, m);
    } else {
      assert m != n by { if m == n { assert Reaches(o, n, a); } }
      StepsBelow(o, q, n, o[m], a, k - 1);
      ReachesCases(q, m, a);
    }
  }

  lemma NoWayUpAndBack(p: Parents, n: Name, a: Name)
    requires Acyclic(p) && Reaches(p, a, n) && a != n
    ensures !Reaches(p, n, a)
  {
    if Reaches(p, n, a) {
      ReachesCases(p, n, a);
      ReachesTrans(p, p[n], a, n);
      assert false;
    }
  }

  /** What is at or below n is reached from the same namespaces before and after. */
  lemma ReachedAlike(o: Parents, q: Parents, n: Name, a: Name, m: Name)
    requires AgreeOff(o, q, n) && Acyclic(o) && Acyclic(q) && Reaches(o, a, n)
    ensures Reaches(o, m, a) <==> Reaches(q, m, a)
  {
    ReachUnaffected(o, q, n, a);
    if a != n {
      NoWayUpAndBack(o, n, a);
      NoWayUpAndBack(q, n, a);
    }
    if Reaches(o, m, a) {
      var k: nat :| Steps(o, m, a, k);
      StepsBelow(o, q, n, m, a, k);
    }
    if Reaches(q, m, a) {
      var k: nat :| Steps(q, m, a, k);
      StepsBelow(q, o, n, m, a, k);
    }
  }

  /** Off cycles a name occurs in an ancestry once or not at all. */
  lemma CountIs(p: Parents, m: Name, a: Name)
    requires Acyclic(p)
    ensures multiset(AncestryOf(p, m))[a] == if Reaches(p, m, a) then 1 else 0
  {
    AncestryMembers(p, m, a);
    if Reaches(p, m, a) {
      ReachesSelf(p, a);
      OccursOnce(p, a, a, m);
    }
  }

  lemma NoFallBelow(w: World, n: Name, p: Option<Name>, a: Name, r: Resource)
    requires OffCycles(w, n, p) && Reaches(w.parents, a, n)
    ensures Fall(w, n, p, a, r) == 0
  {
    var ls, ls' := ListsOf(w), ListsOf(w.Link(n, p));
    LinkAgrees(w, n, p);
    forall m | m in ls ensures multiset(ls[m])[a] == multiset(ls'[m])[a] {
      ReachedAlike(w.parents, w.Link(n, p).parents, n, a, m);
      CountIs(w.parents, m, a);
      CountIs(w.Link(n, p).parents, m, a);
    }
    Ledger.SameCounts(ls, ls', w.local, a, r);
  }

  // ----- the steps of a move -----

  /** The forest between taking n's usage out and putting it back. */
  ghost function Between(w: World, n: Name, p: Option<Name>): (y: World)
    requires w.Valid() && Movable(w, n, p)
    ensures y.Valid() && n in y.names && SetParent(w, n, p) == Use(y, n, w.local[n])
  {
    RelinkValid(Use(w, n, map[]), n, p);
    Relink(Use(w, n, map[]), n, p)
  }

  lemma BetweenShape(w: World, n: Name, p: Option<Name>, a: Name)
    requires w.Valid() && Movable(w, n, p) && w.AbsentAreRoots() && a in w.names - Collected(w, n)
    ensures var y := Between(w, n, p);
            && a in y.names && y.parents == w.Link(n, p).parents && y.subtree[a] == Use(w, n, map[]).subtree[a]
            && Limited(y, a) == Limited(w.Link(n, p), a) && Limited(SetParent(w, n, p), a) == Limited(y, a)
  {
    var x, y := Use(w, n, map[]), Between(w, n, p);
    SameLinks(w, x, n, p);
    LimitsAfter(x, n, p, a);
    SameLimited(x.Link(n, p), w.Link(n, p), a);
    SameLimited(y, SetParent(w, n, p), a);
  }

  lemma ForgetLimited(w: World, o: Name, a: Name)
    requires Alone(w.parents, o) && a != o
    ensures Limited(w.Forget({o}), a) == Limited(w, a) && w.Forget({o}).parents == w.parents
  {
    assert w.parents - {o} == w.parents;
    AloneAncestry(w.parents, o);
    LimitedWithout(w.Ancestors(a), w.limits, o);
  }

  /** What is forgotten limits nothing that stays. */
  lemma LimitsAfter(w: World, n: Name, p: Option<Name>, a: Name)
    requires w.Valid() && Movable(w, n, p) && w.AbsentAreRoots() && a in w.names - Collected(w, n)
    ensures Limited(Relink(w, n, p), a) == Limited(w.Link(n, p), a)
    ensures Relink(w, n, p).parents == w.Link(n, p).parents
  {
    var v := w.Link(n, p);
    var o := CollectedCases(w, n, p);
    if o.Some? {
      ForgetLimited(v, o.value, a);
    } else {
      ForgetNothing(v);
    }
  }

  /** Once n's usage is out, relinking changes no sum at or below n. */
  lemma BetweenTotal(w: World, n: Name, p: Option<Name>, a: Name, r: Resource)
    requires Moving(w, n, p, a) && Reaches(w.parents, a, n)
    ensures Total(Between(w, n, p), a, r) == Total(Use(w, n, map[]), a, r)
  {
    var x := Use(w, n, map[]);
    SameLinks(w, x, n, p);
    NoFallBelow(x, n, p, a, r);
    RelinkTotal(x, n, p, a, r);
  }

  // ----- strictly below -----

  /** Strictly below n a move changes neither the cached usage nor the sum, only what is limited. */
  lemma MoveKeepsBelow(w: World, n: Name, p: Option<Name>, a: Name, r: Resource)
    requires Moving(w, n, p, a) && Reaches(w.parents, a, n) && a != n
    ensures var v := SetParent(w, n, p);
            && a in v.names && Limited(v, a) == Limited(w.Link(n, p), a)
            && Val(v.subtree[a], r) == Val(w.subtree[a], r) && Total(v, a, r) == Total(w, a, r)
  {
    var y := Between(w, n, p);
    BetweenShape(w, n, p, a);
    BetweenTotal(w, n, p, a, r);
    NoWayUpAndBack(w.parents, n, a);
    LinkAgrees(w, n, p);
    ReachUnaffected(w.parents, y.parents, n, a);
    NoWayUpAndBack(y.parents, n, a);
    UseElsewhere(w, n, map[], a, r);
    UseElsewhere(y, n, w.local[n], a, r);
  }

  // ----- the moved namespace itself -----

  /** The sum at n is the usage of what is at or below it. */
  lemma TotalIsUsage(w: World, n: Name, r: Resource)
    requires w.Valid() && Acyclic(w.parents)
    ensures Total(w, n, r) == Ledger.UsageWithin(w.local, Below(w, n), r)
  {
    var ls := ListsOf(w);
    forall m | m in ls ensures multiset(ls[m])[n] == if m in Below(w, n) then 1 else 0 {
      CountIs(w.parents, m, n);
    }
    Ledger.TotalWithin(ls, w.local, Below(w, n), n, r);
  }

  /** With n's usage taken out, the sum at n is the usage strictly below, and so is what is cached for a
      resource that was limited. */
  lemma TakenOut(w: World, n: Name, r: Resource)
    requires w.Valid() && Acyclic(w.parents) && n in w.names && RightAt(w, n, r)
    ensures var x := Use(w, n, map[]);
            && Total(x, n, r) == UsageBelow(w, n, r)
            && Val(x.subtree[n], r) == if r in Limited(w, n) then UsageBelow(w, n, r) else 0
  {
    TotalIsUsage(Use(w, n, map[]), n, r);
    ClearedUsage(w, n, r);
    if r in Limited(w, n) {
      UseShifts(w, n, map[], n, r);
    } else {
      UseKeepsZero(w, n, map[], n, r);
    }
  }

  /** The sum and the cached usage at n once a usage u has been added to a sum of below and a cached usage of
      kept. */
  ghost predicate Landed(v: World, n: Name, r: Resource, limited: set<Resource>, u: ResourceList,
                         below: int, kept: int) {
    && n in v.names && n in v.subtree && Limited(v, n) == limited
    && (r in limited ==> Total(v, n, r) == below + Val(u, r))
    && Val(v.subtree[n], r) ==
       if r in limited then kept + Val(u, r) else if Masked(u, limited) == map[] then kept else 0
  }

  lemma UsedAt(w: World, n: Name, u: ResourceList, r: Resource)
    requires w.Valid() && Acyclic(w.parents) && n in w.names && w.local[n] == map[]
    ensures Landed(Use(w, n, u), n, r, Limited(w, n), u, Total(w, n, r), Val(w.subtree[n], r))
  {
    var ls, lims, b := ListsOf(w), KeptOf(w), BooksOf(w);
    BooksProper(w);
    ReachesSelf(w.parents, n);
    AncestryMembers(w.parents, n, n);
    CountIs(w.parents, n, n);
    assert lims[n] == Limited(w, n);
    Ledger.UseFromNothing(ls, lims, b, n, u, r);
    SameLimited(w, Use(w, n, u), n);
  }

  lemma LandedRight(v: World, n: Name, r: Resource, limited: set<Resource>, u: ResourceList, below: int, kept: int)
    requires Landed(v, n, r, limited, u, below, kept)
    ensures RightAt(v, n, r) <==> if r in limited then kept == below else kept == 0 || Masked(u, limited) != map[]
  {
  }

  /** What is cached at n for r between the steps. */
  ghost function Kept(w: World, n: Name, r: Resource): int {
    if r in Limited(w, n) then UsageBelow(w, n, r) else 0
  }

  lemma BetweenHere(w: World, n: Name, p: Option<Name>, r: Resource)
    requires Moving(w, n, p, n) && RightAt(w, n, r)
    ensures var y := Between(w, n, p);
            && Total(y, n, r) == UsageBelow(w, n, r) && Val(y.subtree[n], r) == Kept(w, n, r)
            && Limited(y, n) == Limited(w.Link(n, p), n) && Acyclic(y.parents) && y.local[n] == map[]
  {
    ReachesSelf(w.parents, n);
    BetweenShape(w, n, p, n);
    BetweenTotal(w, n, p, n, r);
    TakenOut(w, n, r);
    BetweenLocal(w, n, p);
  }

  lemma BetweenLocal(w: World, n: Name, p: Option<Name>)
    requires w.Valid() && Movable(w, n, p)
    ensures Between(w, n, p).local[n] == map[]
  {
    UseLocal(w, n, map[]);
  }

  /** The sum and the cached usage at n after the move. */
  lemma PutBack(w: World, n: Name, p: Option<Name>, r: Resource)
    requires Moving(w, n, p, n) && RightAt(w, n, r)
    ensures Landed(SetParent(w, n, p), n, r, Limited(w.Link(n, p), n), w.local[n], UsageBelow(w, n, r), Kept(w, n, r))
  {
    BetweenHere(w, n, p, r);
    UsedAt(Between(w, n, p), n, w.local[n], r);
  }

  // ----- everywhere -----

  /** r is limited at a both before and after n gets the parent p, or neither. */
  ghost predicate LimitedAlike(w: World, n: Name, p: Option<Name>, a: Name, r: Resource) {
    r in Limited(w, a) <==> r in Limited(w.Link(n, p), a)
  }

  /** What a caller can check before moving n: whether the usage of r cached at a will still be right. */
  ghost predicate StaysRight(w: World, n: Name, p: Option<Name>, a: Name, r: Resource)
    requires n in w.local
  {
    if a == n then StaysRightHere(w, n, p, r)
    else if Reaches(w.parents, a, n) then LimitedAlike(w, n, p, a, r) || Total(w, a, r) == 0
    else r !in Limited(w, a) || StaysUnder(w, n, p, a) || UsageBelow(w, n, r) == 0
  }

  /** At n itself a limit may begin or end if nothing is used below, or end if n uses something else that
      is still limited. */
  ghost predicate StaysRightHere(w: World, n: Name, p: Option<Name>, r: Resource)
    requires n in w.local
  {
    || LimitedAlike(w, n, p, n, r) || UsageBelow(w, n, r) == 0
    || (r in Limited(w, n) && Masked(w.local[n], Limited(w.Link(n, p), n)) != map[])
  }

  lemma MoveRightHere(w: World, n: Name, p: Option<Name>, r: Resource)
    requires Moving(w, n, p, n) && RightAt(w, n, r)
    ensures RightAt(SetParent(w, n, p), n, r) <==> StaysRightHere(w, n, p, r)
  {
    var limited := Limited(w.Link(n, p), n);
    PutBack(w, n, p, r);
    LandedRight(SetParent(w, n, p), n, r, limited, w.local[n], UsageBelow(w, n, r), Kept(w, n, r));
  }

  lemma MoveRightBelow(w: World, n: Name, p: Option<Name>, a: Name, r: Resource)
    requires Moving(w, n, p, a) && Reaches(w.parents, a, n) && a != n && RightAt(w, a, r)
    ensures RightAt(SetParent(w, n, p), a, r) <==> LimitedAlike(w, n, p, a, r) || Total(w, a, r) == 0
  {
    MoveKeepsBelow(w, n, p, a, r);
  }

  /** Outside what is at or below n, what is not limited stays zero. */
  lemma MoveKeepsUnlimited(w: World, n: Name, p: Option<Name>, a: Name, r: Resource)
    requires Moving(w, n, p, a) && !Reaches(w.parents, a, n) && r !in Limited(w, a) && RightAt(w, a, r)
    ensures r !in Limited(SetParent(w, n, p), a) && RightAt(SetParent(w, n, p), a, r)
  {
    var x, y := Use(w, n, map[]), Between(w, n, p);
    BetweenShape(w, n, p, a);
    SameLinks(w, x, n, p);
    SameLimited(w, x, a);
    RelinkLimited(x, n, p, a);
    UseKeepsZero(w, n, map[], a, r);
    UseKeepsZero(y, n, w.local[n], a, r);
  }

  lemma SurplusRight(w: World, a: Name, r: Resource)
    requires r in Limited(w, a)
    ensures RightAt(w, a, r) <==> Surplus(w, a, r) == 0
  {
  }

  lemma MoveRightElsewhere(w: World, n: Name, p: Option<Name>, a: Name, r: Resource)
    requires Moving(w, n, p, a) && !Reaches(w.parents, a, n) && RightAt(w, a, r)
    ensures RightAt(SetParent(w, n, p), a, r) <==>
            r !in Limited(w, a) || StaysUnder(w, n, p, a) || UsageBelow(w, n, r) == 0
  {
    if r in Limited(w, a) {
      SurplusRight(w, a, r);
      MoveRightOutside(w, n, p, a, r);
      StillLimited(w, n, p, a);
      SurplusRight(SetParent(w, n, p), a, r);
    } else {
      MoveKeepsUnlimited(w, n, p, a, r);
    }
  }

  lemma StillLimited(w: World, n: Name, p: Option<Name>, a: Name)
    requires Moving(w, n, p, a) && !Reaches(w.parents, a, n)
    ensures Limited(SetParent(w, n, p), a) == Limited(w, a)
  {
    RelinkLimited(w, n, p, a);
    LimitsAfter(w, n, p, a);
    BetweenShape(w, n, p, a);
  }

  /** Off cycles, a right usage is right after a move exactly where this was to be expected: it can go wrong
      at an ancestor left or joined, at the moved namespace, and below it where limits begin or end. */
  lemma MoveRightExactly(w: World, n: Name, p: Option<Name>, a: Name, r: Resource)
    requires Moving(w, n, p, a) && RightAt(w, a, r)
    ensures RightAt(SetParent(w, n, p), a, r) <==> StaysRight(w, n, p, a, r)
  {
    if a == n {
      MoveRightHere(w, n, p, r);
    } else if Reaches(w.parents, a, n) {
      MoveRightBelow(w, n, p, a, r);
    } else {
      MoveRightElsewhere(w, n, p, a, r);
    }
  }

  /** So a move off cycles keeps all of a right forest right exactly when every single value stays right. */
  lemma MoveConsistentExactly(w: World, n: Name, p: Option<Name>)
    requires w.Valid() && Movable(w, n, p) && w.AbsentAreRoots() && OffCycles(w, n, p) && Consistent(w)
    ensures Consistent(SetParent(w, n, p)) <==>
            forall a, r | a in w.names - Collected(w, n) :: StaysRight(w, n, p, a, r)
  {
    RightEverywhere(w);
    RightEverywhere(SetParent(w, n, p));
    NamesAfter(w, n, p);
    forall a, r | a in w.names - Collected(w, n)
      ensures RightAt(SetParent(w, n, p), a, r) <==> StaysRight(w, n, p, a, r)
    {
      assert RightAt(w, a, r);
      MoveRightExactly(w, n, p, a, r);
    }
  }

  lemma RightEverywhere(w: World)
    requires w.Valid()
    ensures Consistent(w) <==> forall a, r | a in w.names :: RightAt(w, a, r)
  {
    if Consistent(w) {
      forall a, r | a in w.names ensures RightAt(w, a, r) {
      }
    }
    if forall a, r | a in w.names :: RightAt(w, a, r) {
      forall a, r | a in w.names
        ensures Val(w.subtree[a], r) == if r in Limited(w, a) then Total(w, a, r) else 0
      {
        assert RightAt(w, a, r);
      }
    }
  }

  lemma NamesAfter(w: World, n: Name, p: Option<Name>)
    requires w.Valid() && Movable(w, n, p)
    ensures SetParent(w, n, p).names == w.names - Collected(w, n)
  {
  }

  // ----- a limit that begins -----

  /** "c" under the root "b", with a quota object and a usage of three, and the root "q" with another. */
  function TwoTrees(): World {
    World({"b", "c", "q"}, map["c" := "b"], {"b", "c", "q"},
      map["b" := NEW_DATA, "c" := NEW_DATA, "q" := NEW_DATA],
      map["b" := map[], "c" := map["here" := map["pods" := 10]], "q" := map["there" := map["pods" := 10]]],
      map["b" := map[], "c" := map["pods" := 3], "q" := map[]], map["b" := map[], "c" := map[], "q" := map[]])
  }

  lemma TwoTreesLinks()
    ensures var p := TwoTrees().parents;
            && Acyclic(p) && Acyclic(p["b" := "q"]) && Reaches(p, "c", "b") && !Reaches(p, "q", "b")
  {
    var p := TwoTrees().parents;
    AncestryUnique(p, "c", ["b", "c"]);
    RepeatIsCycle(p, "c");
    forall n ensures !OnCycle(p, n) { AncestryMembers(p, "c", n); }
    AncestryMembers(p, "c", "b");
    AncestryUnique(p, "q", ["q"]);
    AncestryMembers(p, "q", "b");
    CycleAfterMove(p, "b", "q");
    NoNewCycle(p, p["b" := "q"], "b");
  }

  lemma TwoTreesLimits(w: World)
    requires w.limits == TwoTrees().limits && w.parents == TwoTrees().parents
    ensures "pods" !in Limited(w, "b") && "pods" in Limited(w.Link("b", Some("q")), "b")
  {
    AncestryUnique(w.parents, "b", ["b"]);
    AncestryUnique(w.Link("b", Some("q")).parents, "b", ["q", "b"]);
    LimitedByIntro(["q", "b"], w.limits, "q", "there", "pods");
  }

  lemma TwoTreesUsage(w: World)
    requires w.names == TwoTrees().names && w.parents == TwoTrees().parents && w.local == TwoTrees().local
    ensures UsageBelow(w, "b", "pods") == 3
  {
    TwoTreesLinks();
    var d := Below(w, "b") - {"b"};
    assert "c" in d && "q" !in d && "b" !in d;
    var m: map<Name, int> := map k | k in w.local :: if k in d then Val(w.local[k], "pods") else 0;
    assert m == map["b" := 0, "c" := 3, "q" := 0];
    Sums.SumTake(m, "c");
    Sums.SumZero(m - {"c"});
  }

  lemma TwoTreesMove(w: World)
    requires w.Valid() && w == TwoTrees().(subtree := w.subtree)
    ensures Moving(w, "b", Some("q"), "b")
  {
    TwoTreesLinks();
    assert w.Link("b", Some("q")).parents == TwoTrees().parents["b" := "q"];
  }

  /** On a right forest, moving "b" under "q" makes "pods" limited in "b", where nothing is then cached for
      the three that "c" uses. */
  lemma MoveStartsWrong() returns (w: World)
    ensures w.Valid() && Consistent(w) && Moving(w, "b", Some("q"), "b")
    ensures var v := SetParent(w, "b", Some("q"));
            && "b" in v.names && "pods" in Limited(v, "b")
            && Val(v.subtree["b"], "pods") == 0 && Total(v, "b", "pods") == 3
  {
    w := Rectify(TwoTrees());
    RectifyFromGarbage(TwoTrees());
    TwoTreesMove(w);
    TwoTreesLimits(w);
    TwoTreesUsage(w);
    assert RightAt(w, "b", "pods");
    PutBack(w, "b", Some("q"), "pods");
  }
}
