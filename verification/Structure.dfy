/** What holds of the shape of a forest, cycles included: canonical names of cycles, changing one
    parent, common ancestors and descendants. */
module Structure {
  import opened Ancestry
  import opened NameOrder

  // ----- canonical cycle names -----

  /** The names on the cycle through n. */
  ghost function CycleMembers(p: Parents, n: Name): set<Name> {
    Elems(AncestryOf(p, n))
  }

  ghost function LeastMember(p: Parents, n: Name): (m: Name)
    ensures IsLeast(m, CycleMembers(p, n))
  {
    assert AncestryOf(p, n)[0] in CycleMembers(p, n);
    LeastExists(CycleMembers(p, n));
    var m :| IsLeast(m, CycleMembers(p, n));
    m
  }

  /** The list that names the cycle through n: empty off a cycle, else the ancestry of the smallest
      member. */
  ghost function CycleName(p: Parents, n: Name): seq<Name> {
    if OnCycle(p, n) then AncestryOf(p, LeastMember(p, n)) else []
  }

  lemma CycleMembersReach(p: Parents, n: Name, m: Name)
    requires OnCycle(p, n)
    ensures m in CycleMembers(p, n) <==> Reaches(p, n, m)
  {
    AncestryMembers(p, n, m);
  }

  /** All members of one cycle get the same list. */
  lemma CycleNameShared(p: Parents, n: Name, m: Name)
    requires OnCycle(p, n) && Reaches(p, n, m)
    ensures OnCycle(p, m) && CycleName(p, m) == CycleName(p, n)
  {
    CycleClosed(p, n, m);
    CycleReturns(p, n, m);
    forall x ensures x in CycleMembers(p, n) <==> x in CycleMembers(p, m) {
      CycleMembersReach(p, n, x);
      CycleMembersReach(p, m, x);
      if Reaches(p, n, x) { ReachesTrans(p, m, n, x); }
      if Reaches(p, m, x) { ReachesTrans(p, n, m, x); }
    }
    assert CycleMembers(p, n) == CycleMembers(p, m);
    LeastUnique(LeastMember(p, n), LeastMember(p, m), CycleMembers(p, n));
  }

  /** Members of different cycles get different lists, so the list identifies the cycle. */
  lemma CycleNameIdentifies(p: Parents, n: Name, m: Name)
    requires OnCycle(p, n) && OnCycle(p, m) && CycleName(p, n) == CycleName(p, m)
    ensures Reaches(p, n, m)
  {
    var a, b := LeastMember(p, n), LeastMember(p, m);
    AncestryIs(p, a);
    AncestryIs(p, b);
    CycleMembersReach(p, n, a);
    CycleMembersReach(p, m, a);
    CycleReturns(p, m, a);
    ReachesTrans(p, n, a, m);
  }

  /** Rotating the cycle part of n's list to start at position k gives the list of that member. */
  lemma RotationIsAncestry(p: Parents, n: Name, k: nat)
    requires OnCycle(p, n)
    requires var c := AncestryOf(p, n)[1..]; k < |c|
    ensures var c := AncestryOf(p, n)[1..];
            c[k..] + c[..k] + [c[k]] == AncestryOf(p, c[k])
  {
    var s := AncestryOf(p, n);
    var c := s[1..];
    CycleAtFront(p, n);
    AncestryIs(p, n);
    var r := c[k..] + c[..k] + [c[k]];
    var o := |c| - k;
    forall i | 1 <= i < |r| ensures r[i] in p && p[r[i]] == r[i - 1] {
      var j := if i < o then k + i else i - o;
      assert r[i] == c[j] == s[j + 1];
      assert s[j + 1] in p && p[s[j + 1]] == s[j];
      assert r[i - 1] == (if i == o then c[|c| - 1] else c[j - 1]);
    }
    forall i, j | 1 <= i < j < |r| ensures r[i] != r[j] {
      var i' := if i < o then k + i else i - o;
      var j' := if j < o then k + j else j - o;
      assert r[i] == s[i' + 1] && r[j] == s[j' + 1];
    }
    assert r[1..][|r| - 2] == r[0];
    AncestryUnique(p, c[k], r);
  }

  lemma CycleNameOfRotation(p: Parents, n: Name, k: nat)
    requires OnCycle(p, n)
    requires var c := AncestryOf(p, n)[1..]; k < |c| && IsLeast(c[k], Elems(c))
    ensures var c := AncestryOf(p, n)[1..];
            c[k..] + c[..k] + [c[k]] == CycleName(p, n)
  {
    var s := AncestryOf(p, n);
    var c := s[1..];
    CycleAtFront(p, n);
    AncestryIs(p, n);
    assert s[0] == c[|c| - 1];
    assert Elems(c) == CycleMembers(p, n) by {
      forall x | x in s ensures x in c {
        var i :| 0 <= i < |s| && s[i] == x;
        assert i > 0 ==> c[i - 1] == x;
      }
    }
    LeastUnique(c[k], LeastMember(p, n), CycleMembers(p, n));
    RotationIsAncestry(p, n, k);
  }

  // ----- changing one parent -----

  ghost predicate AgreeOff(p: Parents, q: Parents, n: Name) {
    forall x | x != n :: (x in p <==> x in q) && (x in p ==> p[x] == q[x])
  }

  /** Whether n can be reached does not depend on n's own parent. */
  lemma {:induction false} ReachChanged(p: Parents, q: Parents, n: Name, d: Name, k: nat)
    requires AgreeOff(p, q, n) && Steps(p, d, n, k)
    ensures Reaches(q, d, n)
    decreases k
  {
    if d == n {
      ReachesSelf(q, n);
    } else {
      ReachChanged(p, q, n, p[d], k - 1);
      ReachesCases(q, d, n);
    }
  }

  lemma ReachUnaffected(p: Parents, q: Parents, n: Name, d: Name)
    requires AgreeOff(p, q, n)
    ensures Reaches(p, d, n) <==> Reaches(q, d, n)
  {
    if Reaches(p, d, n) {
      var k: nat :| Steps(p, d, n, k);
      ReachChanged(p, q, n, d, k);
    }
    if Reaches(q, d, n) {
      var k: nat :| Steps(q, d, n, k);
      ReachChanged(q, p, n, d, k);
    }
  }

  /** Making q the parent of n puts n on a cycle exactly when q is n or below n now. */
  lemma CycleAfterMove(p: Parents, n: Name, q: Name)
    ensures OnCycle(p[n := q], n) <==> Reaches(p, q, n)
  {
    ReachUnaffected(p, p[n := q], n, q);
  }

  /** A walk that never meets n is the same in both forests. */
  lemma {:induction false} StepsAvoiding(p: Parents, q: Parents, n: Name, d: Name, a: Name, k: nat)
    requires AgreeOff(p, q, n) && Steps(p, d, a, k) && !Reaches(p, d, n)
    ensures Steps(q, d, a, k)
    decreases k
  {
    if k > 0 {
      assert d != n by { ReachesSelf(p, d); }
      assert !Reaches(p, p[d], n) by {
        if Reaches(p, p[d], n) { ReachesCases(p, d, n); }
      }
      StepsAvoiding(p, q, n, p[d], a, k - 1);
    }
  }

  /** A cycle of the changed forest that does not pass through n was there before. */
  lemma CycleElsewhere(p: Parents, q: Parents, n: Name, x: Name)
    requires AgreeOff(p, q, n) && OnCycle(q, x) && !Reaches(q, x, n)
    ensures OnCycle(p, x)
  {
    ReachesSelf(q, x);
    var k: nat :| Steps(q, q[x], x, k);
    assert Steps(q, x, x, k + 1);
    StepsAvoiding(q, p, n, x, x, k + 1);
    assert Steps(p, p[x], x, k);
  }

  /** A change that leaves n off every cycle adds no cycle at all. */
  lemma NoNewCycle(p: Parents, q: Parents, n: Name)
    requires AgreeOff(p, q, n) && Acyclic(p) && !OnCycle(q, n)
    ensures Acyclic(q)
  {
    forall x | x in q ensures !OnCycle(q, x) {
      if OnCycle(q, x) {
        if Reaches(q, x, n) {
          CycleClosed(q, x, n);
        } else {
          CycleElsewhere(p, q, n, x);
        }
        assert false;
      }
    }
  }

  /** The ancestry of a namespace that is not below n does not depend on n's parent. */
  lemma AncestryOff(p: Parents, q: Parents, n: Name, m: Name)
    requires AgreeOff(p, q, n) && !Reaches(p, m, n)
    ensures AncestryOf(q, m) == AncestryOf(p, m)
    ensures forall a | a in AncestryOf(p, m) :: !Reaches(p, a, n)
  {
    forall a | a in AncestryOf(p, m) ensures a != n && !Reaches(p, a, n) {
      AncestryMembers(p, m, a);
      if Reaches(p, a, n) { ReachesTrans(p, m, a, n); }
    }
    AncestryFrame(p, q, m);
  }

  // ----- common ancestors -----

  /** x is an ancestor-or-self of both. */
  ghost predicate Common(p: Parents, a: Name, b: Name, x: Name) {
    Reaches(p, a, x) && Reaches(p, b, x)
  }

  /** A common ancestor stands at the same position of both lists, below equal prefixes. */
  lemma CommonPosition(p: Parents, a: Name, b: Name, x: Name) returns (i: nat)
    requires CycleFree(p, a) && CycleFree(p, b) && Common(p, a, b, x)
    ensures i < |AncestryOf(p, a)| && i < |AncestryOf(p, b)|
    ensures AncestryOf(p, a)[..i + 1] == AncestryOf(p, b)[..i + 1] == AncestryOf(p, x)
  {
    var s, t := AncestryOf(p, a), AncestryOf(p, b);
    AncestryMembers(p, a, x);
    AncestryMembers(p, b, x);
    i :| 0 <= i < |s| && s[i] == x;
    var j: nat :| 0 <= j < |t| && t[j] == x;
    AncestryPrefix(p, a, i);
    AncestryPrefix(p, b, j);
    assert |s[..i + 1]| == |t[..j + 1]|;
  }

  /** Two namespaces have the same root exactly when they have a common ancestor. */
  lemma SameRoot(p: Parents, a: Name, b: Name)
    requires CycleFree(p, a) && CycleFree(p, b)
    ensures AncestryOf(p, a)[0] == AncestryOf(p, b)[0] <==> exists x :: Common(p, a, b, x)
  {
    var s, t := AncestryOf(p, a), AncestryOf(p, b);
    AncestryMembers(p, a, s[0]);
    AncestryMembers(p, b, t[0]);
    if s[0] == t[0] {
      assert Common(p, a, b, s[0]);
    }
    if x :| Common(p, a, b, x) {
      var i := CommonPosition(p, a, b, x);
      assert s[..i + 1][0] == t[..i + 1][0];
    }
  }

  /** The last position up to which two lists agree names the lowest common ancestor. */
  lemma LastAgreement(p: Parents, a: Name, b: Name, k: nat)
    requires CycleFree(p, a) && CycleFree(p, b)
    requires k < |AncestryOf(p, a)| && k < |AncestryOf(p, b)|
    requires AncestryOf(p, a)[..k + 1] == AncestryOf(p, b)[..k + 1]
    requires k + 1 < |AncestryOf(p, a)| && k + 1 < |AncestryOf(p, b)| ==>
               AncestryOf(p, a)[k + 1] != AncestryOf(p, b)[k + 1]
    ensures Common(p, a, b, AncestryOf(p, a)[k])
    ensures forall x | Common(p, a, b, x) :: Reaches(p, AncestryOf(p, a)[k], x)
  {
    var s, t := AncestryOf(p, a), AncestryOf(p, b);
    assert s[k] == s[..k + 1][k] == t[..k + 1][k] == t[k];
    AncestryMembers(p, a, s[k]);
    AncestryMembers(p, b, s[k]);
    forall x | Common(p, a, b, x) ensures Reaches(p, s[k], x) {
      var i := CommonPosition(p, a, b, x);
      assert forall m | 0 <= m <= i :: s[m] == s[..i + 1][m] == t[..i + 1][m] == t[m];
      assert i <= k;
      AncestryIs(p, x);
      assert s[i] == x;
      AncestryPrefix(p, a, k);
      assert s[..k + 1][i] == x;
      AncestryMembers(p, s[k], x);
    }
  }

  // ----- descendants -----

  /** The namespaces that reach n by one or more parent links. */
  ghost function Descendants(p: Parents, n: Name): (r: set<Name>) {
    set d | d in p.Keys && HasAncestor(p, d, n)
  }

  /** A set that holds the children of n and the children of its members holds all descendants. */
  lemma {:induction false} ChildClosedHolds(p: Parents, s: set<Name>, n: Name, d: Name, k: nat)
    requires forall c | c in p && (p[c] == n || p[c] in s) :: c in s
    requires d in p && Steps(p, p[d], n, k)
    ensures d in s
    decreases k
  {
    if k > 0 {
      ChildClosedHolds(p, s, n, p[d], k - 1);
    }
  }

  lemma DescendantOfChild(p: Parents, n: Name, c: Name, d: Name)
    requires c in p && p[c] == n
    requires d == c || HasAncestor(p, d, c)
    ensures HasAncestor(p, d, n)
  {
    ReachesSelf(p, n);
    if d != c {
      ReachesCases(p, c, n);
      ReachesTrans(p, p[d], c, n);
    }
  }
}
