/** Hierarchical quotas: the cached subtree usage of each namespace against the sum it caches, and
    admission against the limits of all ancestors. */
module Quota {
  import opened Ancestry
  import opened Resources
  import opened World
  import Ledger
  import Sums

  // ----- effective limits -----

  ghost function LimitedBy(s: seq<Name>, q: Quotas): set<Resource> {
    set a, h, r | a in s && a in q && h in q[a] && r in q[a][h] :: r
  }

  ghost function ValuesBy(s: seq<Name>, q: Quotas, r: Resource): set<int> {
    set a, h | a in s && a in q && h in q[a] && r in q[a][h] :: q[a][h][r]
  }

  lemma LimitedByIntro(s: seq<Name>, q: Quotas, a: Name, h: string, r: Resource)
    requires a in s && a in q && h in q[a] && r in q[a][h]
    ensures r in LimitedBy(s, q) && q[a][h][r] in ValuesBy(s, q, r)
  {
  }

  lemma LimitedByElim(s: seq<Name>, q: Quotas, r: Resource) returns (a: Name, h: string)
    requires r in LimitedBy(s, q)
    ensures a in s && a in q && h in q[a] && r in q[a][h]
  {
    a, h :| a in s && a in q && h in q[a] && r in q[a][h];
  }

  lemma ValuesByElim(s: seq<Name>, q: Quotas, r: Resource, y: int) returns (a: Name, h: string)
    requires y in ValuesBy(s, q, r)
    ensures a in s && a in q && h in q[a] && r in q[a][h] && q[a][h][r] == y
  {
    a, h :| a in s && a in q && h in q[a] && r in q[a][h] && q[a][h][r] == y;
  }

  /** The limits stored for a quota object; none if it is not stored. */
  function LimitsNamed(w: World, n: Name, nm: string): ResourceList
    requires n in w.limits
  {
    if nm in w.limits[n] then w.limits[n][nm] else map[]
  }

  /** The forest with the limits of a quota object stored, if they say anything new. */
  function WithLimits(w: World, n: Name, nm: string, l: ResourceList): World
    requires n in w.limits
  {
    if LimitsNamed(w, n, nm) == l then w else w.(limits := w.limits[n := w.limits[n][nm := l]])
  }

  /** Storing limits sets those of that quota object, and keeps those of every other one and everything
      else the forest holds. */
  lemma WithLimitsMeans(w: World, n: Name, nm: string, l: ResourceList)
    requires w.Valid() && n in w.names
    ensures var v := WithLimits(w, n, nm, l);
            && v.Valid() && v == w.(limits := v.limits) && LimitsNamed(v, n, nm) == l
            && (forall h | h != nm ::
                  (h in v.limits[n] <==> h in w.limits[n]) && LimitsNamed(v, n, h) == LimitsNamed(w, n, h))
            && forall m | m in w.names && m != n :: v.limits[m] == w.limits[m]
  {
  }

  /** The resources limited in n: those named by a quota object of n or of an ancestor. */
  ghost function Limited(w: World, n: Name): set<Resource> {
    LimitedBy(w.Ancestors(n), w.limits)
  }

  /** The quantities that the quota objects of n and its ancestors set for r. */
  ghost function LimitValues(w: World, n: Name, r: Resource): set<int> {
    ValuesBy(w.Ancestors(n), w.limits, r)
  }

  /** rl gives, for exactly the resources limited in n, the smallest limit set for it. */
  ghost predicate IsLimits(w: World, n: Name, rl: ResourceList) {
    && rl.Keys == Limited(w, n)
    && forall r | r in rl :: Least(rl[r], LimitValues(w, n, r))
  }

  ghost predicate Least(x: int, s: set<int>) {
    x in s && forall y | y in s :: x <= y
  }

  /** The limits in force do not depend on the order in which quota objects are visited. */
  lemma LimitsUnique(w: World, n: Name, l: ResourceList, m: ResourceList)
    requires IsLimits(w, n, l) && IsLimits(w, n, m)
    ensures l == m
  {
    forall r | r in l ensures l[r] == m[r] {
      assert r in m;
    }
  }

  /** Moving down the tree, resources only become limited and limits only tighten, on cycles too. */
  lemma LimitsTighten(w: World, d: Name, a: Name, ld: ResourceList, la: ResourceList)
    requires Reaches(w.parents, d, a) && IsLimits(w, d, ld) && IsLimits(w, a, la)
    ensures la.Keys <= ld.Keys
    ensures forall r | r in la :: ld[r] <= la[r]
  {
    LimitedBelow(w, d, a);
    var q := w.limits;
    forall r | r in la ensures ld[r] <= la[r] {
      var x, h :| x in w.Ancestors(a) && x in q && h in q[x] && r in q[x][h] && q[x][h][r] == la[r];
      AboveToo(w, d, a, x);
      assert la[r] in LimitValues(w, d, r);
    }
  }

  lemma AboveToo(w: World, d: Name, a: Name, x: Name)
    requires Reaches(w.parents, d, a) && x in w.Ancestors(a)
    ensures x in w.Ancestors(d)
  {
    var p := w.parents;
    AncestryMembers(p, a, x);
    ReachesTrans(p, d, a, x);
    AncestryMembers(p, d, x);
  }

  lemma LimitedBelow(w: World, d: Name, a: Name)
    requires Reaches(w.parents, d, a)
    ensures Limited(w, a) <= Limited(w, d)
  {
    forall x | x in w.Ancestors(a) ensures x in w.Ancestors(d) {
      AboveToo(w, d, a, x);
    }
  }

  // ----- the books of a forest -----

  ghost function ListsFor(names: set<Name>, p: Parents): Ledger.Lists {
    map n | n in names :: AncestryOf(p, n)
  }

  ghost function KeptFor(ls: Ledger.Lists, q: Quotas): Ledger.Kept {
    map n | n in ls :: LimitedBy(ls[n], q)
  }

  ghost function ListsOf(w: World): Ledger.Lists {
    ListsFor(w.names, w.parents)
  }

  ghost function KeptOf(w: World): Ledger.Kept {
    KeptFor(ListsOf(w), w.limits)
  }

  function BooksOf(w: World): Ledger.Books {
    Ledger.Books(w.local, w.subtree)
  }

  function WithBooks(w: World, b: Ledger.Books): World {
    w.(local := b.local, subtree := b.subtree)
  }

  lemma BooksProper(w: World)
    requires w.Valid()
    ensures Ledger.Proper(ListsOf(w), KeptOf(w), BooksOf(w))
  {
    forall n | n in w.names ensures forall a | a in w.Ancestors(n) :: a in w.names {
      AncestorsInside(w.names, w.parents, n);
    }
  }

  /** The usage of r in the subtree of a, from scratch: over all namespaces, their own usage times
      the number of times a occurs in their ancestry. */
  ghost function Total(w: World, a: Name, r: Resource): int {
    Ledger.Total(ListsOf(w), w.local, a, r)
  }

  /** The cached subtree usages agree with the sum for every limited resource. */
  ghost predicate Consistent(w: World)
    requires w.Valid()
  {
    forall a, r | a in w.names :: Val(w.subtree[a], r) == if r in Limited(w, a) then Total(w, a, r) else 0
  }

  lemma ConsistentBooks(w: World)
    requires w.Valid()
    ensures Ledger.Proper(ListsOf(w), KeptOf(w), BooksOf(w))
    ensures Consistent(w) <==> Ledger.Consistent(ListsOf(w), KeptOf(w), BooksOf(w))
  {
    BooksProper(w);
    forall a | a in w.names ensures KeptOf(w)[a] == Limited(w, a) {
    }
  }

  // ----- reporting usage -----

  /** Only usages differ. */
  ghost predicate SameButUsage(w: World, v: World) {
    v == WithBooks(w, BooksOf(v))
  }

  /** Set the usage of n to u and pass the change on to n and its ancestors. */
  ghost function Use(w: World, n: Name, u: ResourceList): (v: World)
    requires w.Valid() && n in w.names
    ensures v.Valid() && SameButUsage(w, v)
  {
    BooksProper(w);
    WithBooks(w, Ledger.Use(ListsOf(w), KeptOf(w), BooksOf(w), n, u))
  }

  /** The subtree usages after a change has been applied to each name of a list in turn. */
  ghost function Bumped(w: World, s: seq<Name>, delta: ResourceList): (v: World)
    requires w.Valid() && forall a | a in s :: a in w.names
    ensures v.Valid() && SameButUsage(w, v)
  {
    w.(subtree := Ledger.Bump(w.subtree, s, delta, KeptOf(w)))
  }

  ghost function BumpedAt(w: World, a: Name, delta: ResourceList): (v: World)
    requires w.Valid() && a in w.names
  {
    w.(subtree := w.subtree[a := Ledger.Changed(delta, w.subtree[a], Limited(w, a))])
  }

  lemma BumpedStep(w: World, s: seq<Name>, delta: ResourceList, a: Name)
    requires w.Valid() && (forall x | x in s :: x in w.names) && a in w.names
    ensures Bumped(w, s + [a], delta) == BumpedAt(Bumped(w, s, delta), a, delta)
  {
    assert (s + [a])[..|s|] == s;
    assert KeptOf(w)[a] == Limited(w, a) == Limited(Bumped(w, s, delta), a);
  }

  /** v is w with the change added to the first i names of the list. */
  ghost predicate BumpedSoFar(w: World, s: seq<Name>, i: nat, delta: ResourceList, v: World) {
    i <= |s| && w.Valid() && (forall x | x in s :: x in w.names) && v == Bumped(w, s[..i], delta)
  }

  lemma BumpNone(w: World, s: seq<Name>, delta: ResourceList)
    requires w.Valid() && forall x | x in s :: x in w.names
    ensures BumpedSoFar(w, s, 0, delta, w)
  {
  }

  lemma BumpOneMore(w: World, s: seq<Name>, i: nat, delta: ResourceList, v: World)
    requires BumpedSoFar(w, s, i, delta, v) && i < |s|
    ensures v.Valid() && s[i] in v.names && BumpedSoFar(w, s, i + 1, delta, BumpedAt(v, s[i], delta))
  {
    assert s[..i + 1] == s[..i] + [s[i]];
    BumpedStep(w, s[..i], delta, s[i]);
  }

  lemma BumpAll(w: World, s: seq<Name>, delta: ResourceList, v: World)
    requires BumpedSoFar(w, s, |s|, delta, v)
    ensures v == Bumped(w, s, delta)
  {
    assert s[..|s|] == s;
  }

  lemma UseCases(w: World, n: Name, u: ResourceList)
    requires w.Valid() && n in w.names
    ensures var usage := Masked(u, Limited(w, n));
            && (forall a | a in w.Ancestors(n) :: a in w.names)
            && Use(w, n, u) == if usage == w.local[n] then w
                               else Bumped(w.(local := w.local[n := usage]), w.Ancestors(n), Minus(usage, w.local[n]))
  {
    AncestorsInside(w.names, w.parents, n);
    assert ListsOf(w)[n] == w.Ancestors(n) && KeptOf(w)[n] == Limited(w, n);
  }

  /** The incremental update refines the sum from scratch, on any forest, cycles included. */
  lemma UseRefines(w: World, n: Name, u: ResourceList)
    requires w.Valid() && n in w.names && Consistent(w)
    ensures Consistent(Use(w, n, u))
  {
    ConsistentBooks(w);
    ConsistentBooks(Use(w, n, u));
    Ledger.UseRefines(ListsOf(w), KeptOf(w), BooksOf(w), n, u);
  }

  // ----- admission -----

  /** The resources whose usage in n would grow, and by how much. */
  ghost function Increases(w: World, n: Name, u: ResourceList): ResourceList
    requires w.Valid() && n in w.names
  {
    Positive(Minus(u, w.local[n]))
  }

  /** Quota object h of a names r. */
  ghost predicate Limits(w: World, a: Name, h: string, r: Resource)
    requires w.Valid()
  {
    a in w.names && h in w.limits[a] && r in w.limits[a][h]
  }

  /** r grows in n, is tracked in a, and would take a's quota object h over its limit. */
  ghost predicate Exceeds(w: World, n: Name, u: ResourceList, a: Name, h: string, r: Resource)
    requires w.Valid() && n in w.names
  {
    && Limits(w, a, h, r)
    && r in Increases(w, n, u) && r in w.subtree[a]
    && Increases(w, n, u)[r] + w.subtree[a][r] > w.limits[a][h][r]
  }

  /** No quota object of a stands against the request. */
  ghost predicate AllowedAt(w: World, n: Name, u: ResourceList, a: Name)
    requires w.Valid() && n in w.names
  {
    forall h, r :: !Exceeds(w, n, u, a, h, r)
  }

  ghost predicate Admitted(w: World, n: Name, u: ResourceList)
    requires w.Valid() && n in w.names
  {
    forall a | a in w.Ancestors(n) :: AllowedAt(w, n, u, a)
  }

  /** Comparing the increases added to the tracked usage of a with each quota object decides it. */
  lemma CheckMeans(w: World, n: Name, u: ResourceList, a: Name, allowed: bool)
    requires w.Valid() && n in w.names && a in w.names
    requires var x := PlusWhereBoth(Increases(w, n, u), w.subtree[a]);
             allowed <==> forall h, r | h in w.limits[a] && r in w.limits[a][h] && r in x :: x[r] <= w.limits[a][h][r]
    ensures allowed <==> AllowedAt(w, n, u, a)
  {
    var x := PlusWhereBoth(Increases(w, n, u), w.subtree[a]);
    if allowed {
      forall h, r ensures !Exceeds(w, n, u, a, h, r) {
        assert r in Increases(w, n, u) && r in w.subtree[a] ==> r in x;
      }
    } else {
      var h, r :| h in w.limits[a] && r in w.limits[a][h] && r in x && x[r] > w.limits[a][h][r];
      assert Exceeds(w, n, u, a, h, r);
    }
  }

  /** a's quota object h limits r, which is tracked there, would grow, and would then be over the limit. */
  ghost predicate Overdrawn(w: World, n: Name, u: ResourceList, a: Name, h: string, r: Resource)
    requires w.Valid() && n in w.names
  {
    && a in w.Ancestors(n) && Limits(w, a, h, r) && r in w.subtree[a] && Val(u, r) > Val(w.local[n], r)
    && w.subtree[a][r] + Val(u, r) - Val(w.local[n], r) > w.limits[a][h][r]
  }

  /** A request is denied exactly when a tracked resource that it makes grow would be over some limit of
      the namespace or of one above it. */
  lemma DeniedExactly(w: World, n: Name, u: ResourceList)
    requires w.Valid() && n in w.names
    ensures !Admitted(w, n, u) <==> exists a, h, r :: Overdrawn(w, n, u, a, h, r)
  {
    forall a, h, r | a in w.Ancestors(n) ensures Exceeds(w, n, u, a, h, r) <==> Overdrawn(w, n, u, a, h, r) {
      IncreaseIs(w, n, u, r);
    }
    if !Admitted(w, n, u) {
      var a :| a in w.Ancestors(n) && !AllowedAt(w, n, u, a);
      var h, r :| Exceeds(w, n, u, a, h, r);
      assert Overdrawn(w, n, u, a, h, r);
    }
    if a, h, r :| Overdrawn(w, n, u, a, h, r) {
      assert Exceeds(w, n, u, a, h, r);
      assert !AllowedAt(w, n, u, a);
    }
  }

  lemma IncreaseIs(w: World, n: Name, u: ResourceList, r: Resource)
    requires w.Valid() && n in w.names
    ensures r in Increases(w, n, u) <==> Val(u, r) > Val(w.local[n], r)
    ensures r in Increases(w, n, u) ==> Increases(w, n, u)[r] == Val(u, r) - Val(w.local[n], r)
  {
  }

  /** So a request that makes nothing grow is always admitted, however far over its limits the namespace or
      one above it is. */
  lemma ShrinkingAdmitted(w: World, n: Name, u: ResourceList)
    requires w.Valid() && n in w.names && forall r :: Val(u, r) <= Val(w.local[n], r)
    ensures Admitted(w, n, u)
  {
    DeniedExactly(w, n, u);
  }

  ghost function TryUse(w: World, n: Name, u: ResourceList): (v: World)
    requires w.Valid() && n in w.names
    ensures v.Valid() && SameButUsage(w, v)
  {
    if Admitted(w, n, u) then Use(w, n, u) else w
  }

  /** Every limited resource is tracked and within every limit. */
  ghost predicate Within(w: World)
    requires w.Valid()
  {
    forall a, h, r | Limits(w, a, h, r) :: r in w.subtree[a] && w.subtree[a][r] <= w.limits[a][h][r]
  }

  lemma LimitedOwn(w: World, a: Name, h: string, r: Resource)
    requires w.Valid() && Limits(w, a, h, r)
    ensures r in Limited(w, a)
  {
    ReachesSelf(w.parents, a);
    AncestryMembers(w.parents, a, a);
    var q := w.limits;
    assert a in q && h in q[a] && r in q[a][h];
  }

  /** How often a counts what n uses: once if it is n or above it, and twice if it is the first
      namespace on a cycle that the walk up from n meets. */
  ghost function Occurs(w: World, n: Name, a: Name): nat {
    multiset(w.Ancestors(n))[a]
  }

  lemma OccursCases(w: World, n: Name, a: Name)
    requires a in w.Ancestors(n)
    ensures Occurs(w, n, a) == if a == w.Ancestors(n)[0] && OnCycle(w.parents, a) then 2 else 1
  {
    var s := w.Ancestors(n);
    AncestryIs(w.parents, n);
    RepeatIsCycle(w.parents, n);
    assert s == [s[0]] + s[1..];
    assert Distinct(s[1..]);
    if a in s[1..] {
      Ledger.OnceInDistinct(s[1..], a);
    }
  }

  /** What a request adds to the value recorded at a namespace above n: the change asked for, as often
      as it is counted there. */
  ghost function Growth(w: World, n: Name, u: ResourceList, a: Name, r: Resource): int
    requires w.Valid() && n in w.names
  {
    Sums.Counted(Occurs(w, n, a), Val(u, r) - Val(w.local[n], r))
  }

  lemma UseMovesBy(w: World, n: Name, u: ResourceList, a: Name, r: Resource)
    requires w.Valid() && n in w.names && a in w.Ancestors(n) && a in w.names && r in Limited(w, a)
    ensures Val(Use(w, n, u).subtree[a], r) == Val(w.subtree[a], r) + Growth(w, n, u, a, r)
  {
    var ls, lims, b := ListsOf(w), KeptOf(w), BooksOf(w);
    BooksProper(w);
    assert lims[n] == Limited(w, n) && lims[a] == Limited(w, a) && ls[n] == w.Ancestors(n);
    AncestryMembers(w.parents, n, a);
    LimitedBelow(w, n, a);
    OccursCases(w, n, a);
    Ledger.UseCounted(ls, lims, b, n, u, a, r);
  }

  /** What n does not count towards keeps its value, and what is tracked stays tracked. */
  lemma UseKeeps(w: World, n: Name, u: ResourceList, a: Name, r: Resource)
    requires w.Valid() && n in w.names && a in w.names && r in Limited(w, a)
    ensures a !in w.Ancestors(n) ==> Val(Use(w, n, u).subtree[a], r) == Val(w.subtree[a], r)
    ensures r in w.subtree[a] ==> r in Use(w, n, u).subtree[a]
  {
    var ls, lims, b := ListsOf(w), KeptOf(w), BooksOf(w);
    BooksProper(w);
    if a !in w.Ancestors(n) {
      Ledger.UseValue(ls, lims, b, n, u, a, r);
    }
    if r in w.subtree[a] {
      Ledger.UseTracks(ls, lims, b, n, u, a, r);
    }
  }

  lemma GrowthBound(u: ResourceList, local: ResourceList, r: Resource, now: int, limit: int)
    requires now <= limit
    requires r in Positive(Minus(u, local)) ==> Positive(Minus(u, local))[r] + now <= limit
    ensures now + Val(u, r) - Val(local, r) <= limit
  {
  }

  lemma AdmittedBound(w: World, n: Name, u: ResourceList, a: Name, h: string, r: Resource)
    requires w.Valid() && n in w.names && Admitted(w, n, u) && a in w.Ancestors(n)
    requires Limits(w, a, h, r) && r in w.subtree[a] && w.subtree[a][r] <= w.limits[a][h][r]
    ensures w.subtree[a][r] + Val(u, r) - Val(w.local[n], r) <= w.limits[a][h][r]
  {
    assert AllowedAt(w, n, u, a) && !Exceeds(w, n, u, a, h, r);
    GrowthBound(u, w.local[n], r, w.subtree[a][r], w.limits[a][h][r]);
  }

  /** A limit is kept through an admitted request exactly when the resource is tracked where the limit
      is and counted there once, or what is really added to it fits: for an untracked resource
      admission compares nothing, and what a cycle counts twice it compares once. */
  lemma AdmissionExact(w: World, n: Name, u: ResourceList, a: Name, h: string, r: Resource)
    requires w.Valid() && n in w.names && Admitted(w, n, u)
    requires a in w.Ancestors(n) && Limits(w, a, h, r) && Val(w.subtree[a], r) <= w.limits[a][h][r]
    ensures Val(Use(w, n, u).subtree[a], r) <= w.limits[a][h][r] <==>
            (r in w.subtree[a] && Occurs(w, n, a) == 1) || FitsCounted(w, n, u, a, h, r)
  {
    assert Val(Use(w, n, u).subtree[a], r) == Val(w.subtree[a], r) + Growth(w, n, u, a, r) by {
      LimitedOwn(w, a, h, r);
      UseMovesBy(w, n, u, a, r);
    }
    if r in w.subtree[a] {
      AdmittedBound(w, n, u, a, h, r);
    }
  }

  /** What the request adds to a fits under the limit there. */
  ghost predicate FitsCounted(w: World, n: Name, u: ResourceList, a: Name, h: string, r: Resource)
    requires w.Valid() && n in w.names && Limits(w, a, h, r)
  {
    Val(w.subtree[a], r) + Growth(w, n, u, a, r) <= w.limits[a][h][r]
  }

  /** Every limit on what a cycle above n counts twice leaves room for that. */
  ghost predicate RoomOnCycle(w: World, n: Name, u: ResourceList)
    requires w.Valid() && n in w.names
  {
    var c := w.Ancestors(n)[0];
    OnCycle(w.parents, c) ==> forall h, r | Limits(w, c, h, r) :: FitsCounted(w, n, u, c, h, r)
  }

  /** From within all limits a request keeps within them exactly when it is denied, or leaves room for
      what a cycle above it counts twice. */
  lemma TryUseExact(w: World, n: Name, u: ResourceList)
    requires w.Valid() && n in w.names && Within(w)
    ensures Within(TryUse(w, n, u)) <==> !Admitted(w, n, u) || RoomOnCycle(w, n, u)
  {
    if Admitted(w, n, u) {
      var v := Use(w, n, u);
      forall a, h, r | Limits(w, a, h, r) ensures r in v.subtree[a] {
        LimitedOwn(w, a, h, r);
        UseKeeps(w, n, u, a, r);
      }
      forall a, h, r | Limits(w, a, h, r)
        ensures v.subtree[a][r] <= w.limits[a][h][r] <==> KeptAt(w, n, u, a, h, r)
      {
        KeptWhen(w, n, u, a, h, r);
      }
      forall a, h, r ensures Limits(v, a, h, r) <==> Limits(w, a, h, r) {
      }
      if RoomOnCycle(w, n, u) {
        assert forall a, h, r | Limits(w, a, h, r) :: KeptAt(w, n, u, a, h, r);
      }
      if Within(v) {
        var c := w.Ancestors(n)[0];
        forall h, r | OnCycle(w.parents, c) && Limits(w, c, h, r) ensures FitsCounted(w, n, u, c, h, r) {
          assert Limits(v, c, h, r) && KeptAt(w, n, u, c, h, r);
        }
      }
    }
  }

  /** a is not counted twice, or the limit leaves room for that. */
  ghost predicate KeptAt(w: World, n: Name, u: ResourceList, a: Name, h: string, r: Resource)
    requires w.Valid() && n in w.names && Limits(w, a, h, r)
  {
    a == w.Ancestors(n)[0] && OnCycle(w.parents, a) ==> FitsCounted(w, n, u, a, h, r)
  }

  lemma KeptWhen(w: World, n: Name, u: ResourceList, a: Name, h: string, r: Resource)
    requires w.Valid() && n in w.names && Admitted(w, n, u) && Within(w) && Limits(w, a, h, r)
    requires r in Use(w, n, u).subtree[a]
    ensures Use(w, n, u).subtree[a][r] <= w.limits[a][h][r] <==> KeptAt(w, n, u, a, h, r)
  {
    if a in w.Ancestors(n) {
      AdmissionExact(w, n, u, a, h, r);
      OccursCases(w, n, a);
    } else {
      LimitedOwn(w, a, h, r);
      UseKeeps(w, n, u, a, r);
    }
  }

  /** With no cycle above, admission keeps every ancestor within every limit. */
  lemma TryUseSafe(w: World, n: Name, u: ResourceList)
    requires w.Valid() && n in w.names && CycleFree(w.parents, n) && Within(w)
    ensures Within(TryUse(w, n, u))
  {
    TryUseExact(w, n, u);
    AncestryMembers(w.parents, n, w.Ancestors(n)[0]);
  }

  // ----- runs -----

  /** A usage reported by the quota controller, or one it asks permission for. */
  datatype Step = Report(ns: Name, usage: ResourceList) | Request(ns: Name, usage: ResourceList)

  ghost predicate StepsInside(w: World, steps: seq<Step>) {
    forall i | 0 <= i < |steps| :: steps[i].ns in w.names
  }

  ghost function Apply(w: World, e: Step): (v: World)
    requires w.Valid() && e.ns in w.names
    ensures v.Valid() && SameButUsage(w, v)
  {
    match e
    case Report(n, u) => Use(w, n, u)
    case Request(n, u) => TryUse(w, n, u)
  }

  ghost function Run(w: World, steps: seq<Step>): (v: World)
    requires w.Valid() && StepsInside(w, steps)
    ensures v.Valid() && SameButUsage(w, v)
    decreases |steps|
  {
    if steps == [] then w
    else
      var k := |steps| - 1;
      var v := Run(w, steps[..k]);
      Apply(v, steps[k])
  }

  /** After any run of reported and requested usages, from any consistent state, on any forest, each
      cached value is the sum. */
  lemma {:induction false} RunRefines(w: World, steps: seq<Step>)
    requires w.Valid() && StepsInside(w, steps) && Consistent(w)
    ensures Consistent(Run(w, steps))
    decreases |steps|
  {
    if steps != [] {
      var k := |steps| - 1;
      RunRefines(w, steps[..k]);
      var v := Run(w, steps[..k]);
      UseRefines(v, steps[k].ns, steps[k].usage);
    }
  }

  /** After any run of requests, granted or denied, for namespaces with no cycle above them, on a
      forest that starts within its limits, every namespace is within every quota object. */
  lemma {:induction false} RunSafe(w: World, steps: seq<Step>)
    requires w.Valid() && StepsInside(w, steps) && Within(w)
    requires forall i | 0 <= i < |steps| :: steps[i].Request? && CycleFree(w.parents, steps[i].ns)
    ensures Within(Run(w, steps))
    decreases |steps|
  {
    if steps != [] {
      var k := |steps| - 1;
      RunSafe(w, steps[..k]);
      var v := Run(w, steps[..k]);
      TryUseSafe(v, steps[k].ns, steps[k].usage);
    }
  }

  // ----- what admission does not check -----

  /** One synced namespace with a quota object "q" limiting "pods" to 10; on a cycle of its own it is
      halted. */
  function OneQuota(cycle: bool, subtree: ResourceList): World {
    var w := EMPTY_WORLD.Add("a");
    var halts := if cycle then [Condition(ACTIVITIES_HALTED, "InCycle")] else [];
    w.(parents := if cycle then map["a" := "a"] else map[], present := {"a"},
       data := map["a" := NEW_DATA.(conditions := halts)],
       limits := map["a" := map["q" := map["pods" := 10]]], subtree := map["a" := subtree])
  }

  lemma OneQuotaShape(cycle: bool, subtree: ResourceList)
    ensures var w := OneQuota(cycle, subtree);
            w.Valid() && w.Ancestors("a") == (if cycle then ["a", "a"] else ["a"]) && Limited(w, "a") == {"pods"}
  {
    var w := OneQuota(cycle, subtree);
    var s := if cycle then ["a", "a"] else ["a"];
    AncestryUnique(w.parents, "a", s);
    var q := w.limits;
    assert q["a"]["q"]["pods"] == 10;
    assert forall x, h, r | x in s && x in q && h in q[x] && r in q[x][h] :: r == "pods";
    assert "a" in s;
  }

  /** A request far over the limit is granted when the resource is not tracked yet. */
  lemma UntrackedGrantsAnything()
    ensures var w, u := OneQuota(false, map[]), map["pods" := 100];
            w.Valid() && Admitted(w, "a", u) && Val(Use(w, "a", u).subtree["a"], "pods") == 100
  {
    var w, u := OneQuota(false, map[]), map["pods" := 100];
    OneQuotaShape(false, map[]);
    CountedOnce(w, u);
  }

  lemma CountedOnce(w: World, u: ResourceList)
    requires w.Valid() && w.Ancestors("a") == ["a"] && "a" in w.names && "pods" in Limited(w, "a")
    ensures Val(Use(w, "a", u).subtree["a"], "pods") ==
            Val(w.subtree["a"], "pods") + Val(u, "pods") - Val(w.local["a"], "pods")
  {
    UseMovesBy(w, "a", u, "a", "pods");
    assert multiset(["a"])["a"] == 1;
  }

  lemma CycleGrants()
    ensures var w, u := OneQuota(true, map["pods" := 0]), map["pods" := 8];
            w.Valid() && Within(w) && Admitted(w, "a", u)
  {
    var w, u := OneQuota(true, map["pods" := 0]), map["pods" := 8];
    assert Increases(w, "a", u)["pods"] == 8;
  }

  /** On a cycle one name is counted twice, so a granted request can overrun a tracked limit. */
  lemma CycleOverruns()
    ensures var w, u := OneQuota(true, map["pods" := 0]), map["pods" := 8];
            w.Valid() && Within(w) && Admitted(w, "a", u) && Val(Use(w, "a", u).subtree["a"], "pods") == 16
  {
    CycleGrants();
    OneQuotaShape(true, map["pods" := 0]);
    CountedTwice(OneQuota(true, map["pods" := 0]), map["pods" := 8]);
  }

  lemma CountedTwice(w: World, u: ResourceList)
    requires w.Valid() && w.Ancestors("a") == ["a", "a"] && "a" in w.names && "pods" in Limited(w, "a")
    ensures Val(Use(w, "a", u).subtree["a"], "pods") ==
            Val(w.subtree["a"], "pods") + 2 * (Val(u, "pods") - Val(w.local["a"], "pods"))
  {
    UseMovesBy(w, "a", u, "a", "pods");
    assert multiset(["a", "a"])["a"] == 2;
  }

  // ----- rectification -----

  ghost function Rectify(w: World): (v: World)
    requires w.Valid()
    ensures v.Valid() && v == w.(subtree := v.subtree)
  {
    BooksProper(w);
    WithBooks(w, Ledger.Rectified(ListsOf(w), KeptOf(w), BooksOf(w)))
  }

  lemma TallyExact(w: World, t: Ledger.Usages, a: Name)
    requires w.Valid() && Ledger.Tallied(t, ListsOf(w), w.local) && a in w.names
    ensures Masked(Ledger.At(t, a), Limited(w, a)) == Rectify(w).subtree[a]
  {
    BooksProper(w);
    assert KeptOf(w)[a] == Limited(w, a);
    Ledger.TallyExact(t, ListsOf(w), KeptOf(w), w.local, a);
  }

  /** Whatever the cached usages were, rectification makes every one the filtered sum, changes nothing
      else, and finds nothing to correct when repeated. */
  lemma RectifyFromGarbage(w: World)
    requires w.Valid()
    ensures var v := Rectify(w); Consistent(v) && Rectify(v) == v
  {
    var v := Rectify(w);
    BooksProper(w);
    Ledger.RectifiedConsistent(ListsOf(w), KeptOf(w), BooksOf(w));
    ConsistentBooks(v);
  }

  /** From a state that is right and within its limits, rectification keeps every limited resource
      tracked exactly when each has an entry in the usage of some namespace at or below its quota
      object: a total kept only as a zero is forgotten. */
  lemma RectifyTracksExactly(w: World)
    requires w.Valid() && Consistent(w) && Within(w)
    ensures Within(Rectify(w)) <==>
            forall a, h, r | Limits(w, a, h, r) :: r in Ledger.Entries(ListsOf(w), BooksOf(w).local, a)
  {
    var v := Rectify(w);
    var ls, lims, b := ListsOf(w), KeptOf(w), BooksOf(w);
    ConsistentBooks(w);
    forall a, h, r | Limits(w, a, h, r)
      ensures Val(v.subtree[a], r) <= w.limits[a][h][r]
      ensures r in v.subtree[a] <==> r in Ledger.Entries(ls, b.local, a)
    {
      LimitedOwn(w, a, h, r);
      Ledger.RectifiedSameValues(ls, lims, b, a, r);
    }
    forall a, h, r ensures Limits(w, a, h, r) <==> Limits(v, a, h, r) {
    }
  }

  /** Which does happen: a limit that was tracked as a zero is untracked by rectification. */
  lemma RectifyUntracks()
    ensures var w := OneQuota(false, map["pods" := 0]);
            w.Valid() && Consistent(w) && Within(w) && !Within(Rectify(w))
  {
    var w := OneQuota(false, map["pods" := 0]);
    OneQuotaShape(false, map["pods" := 0]);
    forall a, r | a in w.names ensures Total(w, a, r) == 0 {
      Ledger.TotalWithoutEntries(ListsOf(w), w.local, a, r);
    }
    assert Limits(w, "a", "q", "pods");
    assert "pods" !in Ledger.Entries(ListsOf(w), BooksOf(w).local, "a");
    RectifyTracksExactly(w);
  }
}
