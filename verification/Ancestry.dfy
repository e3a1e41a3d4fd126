/** The parent links of a forest, as a finite partial map from a namespace to its parent, and the
    walk up those links. Nothing here assumes the links are free of cycles. */
module Ancestry {

  type Name = string
  type Parents = map<Name, Name>

  /** Walking k parent links up from d arrives at a. */
  ghost predicate Steps(p: Parents, d: Name, a: Name, k: nat)
    decreases k
  {
    if k == 0 then d == a else d in p && Steps(p, p[d], a, k - 1)
  }

  /** a is d itself or is reached from d by parent links. */
  ghost predicate Reaches(p: Parents, d: Name, a: Name) {
    exists k: nat :: Steps(p, d, a, k)
  }

  /** a is reached from d by one or more parent links; on a cycle a namespace is its own ancestor. */
  ghost predicate HasAncestor(p: Parents, d: Name, a: Name) {
    d in p && Reaches(p, p[d], a)
  }

  ghost predicate OnCycle(p: Parents, n: Name) {
    HasAncestor(p, n, n)
  }

  ghost predicate Acyclic(p: Parents) {
    forall n | n in p :: !OnCycle(p, n)
  }

  /** No namespace on the way up from n, n included, lies on a cycle. */
  ghost predicate CycleFree(p: Parents, n: Name) {
    forall a | Reaches(p, n, a) :: !OnCycle(p, a)
  }

  // ----- walks compose -----

  lemma {:induction false} StepsConcat(p: Parents, d: Name, m: Name, a: Name, j: nat, k: nat)
    requires Steps(p, d, m, j) && Steps(p, m, a, k)
    ensures Steps(p, d, a, j + k)
    decreases j
  {
    if j > 0 {
      StepsConcat(p, p[d], m, a, j - 1, k);
    }
  }

  lemma {:induction false} StepsUnique(p: Parents, d: Name, a: Name, b: Name, k: nat)
    requires Steps(p, d, a, k) && Steps(p, d, b, k)
    ensures a == b
    decreases k
  {
    if k > 0 {
      StepsUnique(p, p[d], a, b, k - 1);
    }
  }

  /** Two walks from the same start: the shorter one is the beginning of the longer one. */
  lemma {:induction false} StepsTail(p: Parents, d: Name, m: Name, a: Name, j: nat, k: nat)
    requires Steps(p, d, m, j) && Steps(p, d, a, k) && j <= k
    ensures Steps(p, m, a, k - j)
    decreases j
  {
    if j > 0 {
      StepsTail(p, p[d], m, a, j - 1, k - 1);
    }
  }

  lemma ReachesSelf(p: Parents, n: Name)
    ensures Reaches(p, n, n)
  {
    assert Steps(p, n, n, 0);
  }

  lemma ReachesParent(p: Parents, d: Name, a: Name)
    requires HasAncestor(p, d, a)
    ensures Reaches(p, d, a)
  {
    var k: nat :| Steps(p, p[d], a, k);
    assert Steps(p, d, a, k + 1);
  }

  lemma ReachesCases(p: Parents, d: Name, a: Name)
    ensures Reaches(p, d, a) <==> d == a || HasAncestor(p, d, a)
  {
    if Reaches(p, d, a) {
      var k: nat :| Steps(p, d, a, k);
      if k > 0 {
        assert Steps(p, p[d], a, k - 1);
      }
    }
    if d == a {
      ReachesSelf(p, d);
    }
    if HasAncestor(p, d, a) {
      ReachesParent(p, d, a);
    }
  }

  lemma ReachesTrans(p: Parents, d: Name, m: Name, a: Name)
    requires Reaches(p, d, m) && Reaches(p, m, a)
    ensures Reaches(p, d, a)
  {
    var j: nat :| Steps(p, d, m, j);
    var k: nat :| Steps(p, m, a, k);
    StepsConcat(p, d, m, a, j, k);
  }

  /** The ancestors-or-self of one namespace are ordered: of two, one is above the other. */
  lemma ReachesLinear(p: Parents, d: Name, a: Name, b: Name)
    requires Reaches(p, d, a) && Reaches(p, d, b)
    ensures Reaches(p, a, b) || Reaches(p, b, a)
  {
    var j: nat :| Steps(p, d, a, j);
    var k: nat :| Steps(p, d, b, k);
    if j <= k {
      StepsTail(p, d, a, b, j, k);
    } else {
      StepsTail(p, d, b, a, k, j);
    }
  }

  /** Whatever a namespace on a cycle reaches leads back to it. */
  lemma CycleReturns(p: Parents, n: Name, a: Name)
    requires OnCycle(p, n) && Reaches(p, n, a)
    ensures Reaches(p, a, n)
  {
    var c: nat :| Steps(p, p[n], n, c);
    var k: nat :| Steps(p, n, a, k);
    CycleReturnsIn(p, n, a, c, k);
  }

  lemma {:induction false} CycleReturnsIn(p: Parents, n: Name, a: Name, c: nat, k: nat)
    requires n in p && Steps(p, p[n], n, c) && Steps(p, n, a, k)
    ensures Reaches(p, a, n)
    decreases k
  {
    assert Steps(p, n, n, c + 1);
    if k <= c + 1 {
      StepsTail(p, n, a, n, k, c + 1);
    } else {
      StepsTail(p, n, n, a, c + 1, k);
      CycleReturnsIn(p, n, a, c, k - c - 1);
    }
  }

  /** A namespace reached from a cycle is on that cycle. */
  lemma CycleClosed(p: Parents, n: Name, a: Name)
    requires OnCycle(p, n) && Reaches(p, n, a)
    ensures OnCycle(p, a)
  {
    CycleReturns(p, n, a);
    if a != n {
      ReachesCases(p, a, n);
      var j: nat :| Steps(p, p[a], n, j);
      var k: nat :| Steps(p, n, a, k);
      StepsConcat(p, p[a], n, a, j, k);
    }
  }

  lemma AcyclicIsCycleFree(p: Parents, n: Name)
    requires Acyclic(p)
    ensures CycleFree(p, n)
  {
  }

  /** A set of names closed under parent links holds everything reached from its members. */
  lemma {:induction false} ClosedHolds(p: Parents, s: set<Name>, d: Name, a: Name, k: nat)
    requires forall x | x in s && x in p :: p[x] in s
    requires d in s && Steps(p, d, a, k)
    ensures a in s
    decreases k
  {
    if k > 0 {
      ClosedHolds(p, s, p[d], a, k - 1);
    }
  }

  // ----- the ancestry list -----

  function Elems(s: seq<Name>): (r: set<Name>)
    ensures forall x :: x in r <==> x in s
  {
    set x | x in s
  }

  /** The names are distinct from position 1 on; position 0 may repeat one of them. */
  ghost predicate DistinctTail(s: seq<Name>) {
    forall i, j | 1 <= i < j < |s| :: s[i] != s[j]
  }

  ghost predicate Distinct(s: seq<Name>) {
    forall i, j | 0 <= i < j < |s| :: s[i] != s[j]
  }

  /** Each name but the first is a child of the one before it. */
  ghost predicate Chained(p: Parents, s: seq<Name>) {
    forall i | 1 <= i < |s| :: s[i] in p && p[s[i]] == s[i - 1]
  }

  /** What an ancestry list is: from n at the end, one parent link per position up to the front,
      stopping at a root or at the first repeated name. */
  ghost predicate IsAncestry(p: Parents, n: Name, s: seq<Name>) {
    && |s| > 0
    && s[|s| - 1] == n
    && Chained(p, s)
    && DistinctTail(s)
    && (s[0] !in p || s[0] in s[1..])
  }

  lemma ClimbDecreases(p: Parents, acc: seq<Name>)
    requires |acc| > 0 && acc[0] in p && p[acc[0]] !in acc
    ensures var above := [p[acc[0]]] + acc;
            && p.Keys - Elems(above) <= p.Keys - Elems(acc)
            && (p[acc[0]] in p ==> p.Keys - Elems(above) < p.Keys - Elems(acc))
            && (p[acc[0]] !in p ==> p.Keys - Elems(above) == p.Keys - Elems(acc))
  {
    var above := [p[acc[0]]] + acc;
    assert Elems(above) == Elems(acc) + {p[acc[0]]};
    assert p[acc[0]] in p ==> p[acc[0]] in p.Keys - Elems(acc) && p[acc[0]] !in p.Keys - Elems(above);
  }

  /** The climb from a partial list: prepend the parent of the first name until there is none, or
      until the name just prepended was already listed. */
  function Climb(p: Parents, acc: seq<Name>): (s: seq<Name>)
    requires |acc| > 0
    ensures |s| >= |acc|
    decreases p.Keys - Elems(acc), if acc[0] in p then 1 else 0
  {
    if acc[0] !in p then acc
    else
      var above := [p[acc[0]]] + acc;
      if p[acc[0]] in acc then above
      else
        ClimbDecreases(p, acc);
        Climb(p, above)
  }

  /** The namespace and its ancestors, topmost first. */
  function AncestryOf(p: Parents, n: Name): (s: seq<Name>)
    ensures |s| > 0
  {
    Climb(p, [n])
  }

  lemma {:induction false} ClimbIsAncestry(p: Parents, n: Name, acc: seq<Name>)
    requires |acc| > 0 && acc[|acc| - 1] == n && Chained(p, acc) && Distinct(acc)
    ensures IsAncestry(p, n, Climb(p, acc))
    decreases p.Keys - Elems(acc), if acc[0] in p then 1 else 0
  {
    if acc[0] in p {
      var next := [p[acc[0]]] + acc;
      assert next[1..] == acc;
      if p[acc[0]] !in acc {
        ClimbDecreases(p, acc);
        ClimbIsAncestry(p, n, next);
      }
    }
  }

  lemma AncestryIs(p: Parents, n: Name)
    ensures IsAncestry(p, n, AncestryOf(p, n))
  {
    ClimbIsAncestry(p, n, [n]);
  }

  /** Two chained lists ending in the same name agree position by position from the end. */
  lemma {:induction false} ChainedAgree(p: Parents, s: seq<Name>, t: seq<Name>, i: nat)
    requires Chained(p, s) && Chained(p, t) && i < |s| && i < |t|
    requires s[|s| - 1] == t[|t| - 1]
    ensures s[|s| - 1 - i] == t[|t| - 1 - i]
    decreases i
  {
    if i > 0 {
      ChainedAgree(p, s, t, i - 1);
      assert s[|s| - i] == t[|t| - i];
    }
  }

  lemma AncestryNotLonger(p: Parents, n: Name, s: seq<Name>, t: seq<Name>)
    requires IsAncestry(p, n, s) && IsAncestry(p, n, t)
    ensures |t| <= |s|
  {
    if |s| < |t| {
      var o := |t| - |s|;
      ChainedAgree(p, s, t, |s| - 1);
      assert t[o] in p;
      var j :| 0 <= j < |s[1..]| && s[1..][j] == s[0];
      ChainedAgree(p, s, t, |s| - 2 - j);
      assert false;
    }
  }

  /** There is only one ancestry list. */
  lemma AncestryUnique(p: Parents, n: Name, s: seq<Name>)
    requires IsAncestry(p, n, s)
    ensures s == AncestryOf(p, n)
  {
    var t := AncestryOf(p, n);
    AncestryIs(p, n);
    AncestryNotLonger(p, n, s, t);
    AncestryNotLonger(p, n, t, s);
    forall i | 0 <= i < |s| ensures s[i] == t[i] {
      ChainedAgree(p, s, t, |s| - 1 - i);
    }
  }

  lemma {:induction false} AncestrySteps(p: Parents, n: Name, s: seq<Name>, i: nat)
    requires Chained(p, s) && i < |s| && s[|s| - 1] == n
    ensures Steps(p, n, s[i], |s| - 1 - i)
    decreases |s| - i
  {
    if i < |s| - 1 {
      AncestrySteps(p, n, s, i + 1);
      assert Steps(p, s[i + 1], s[i], 1);
      StepsConcat(p, n, s[i + 1], s[i], |s| - 2 - i, 1);
    }
  }

  lemma AncestryClosed(p: Parents, n: Name, s: seq<Name>)
    requires IsAncestry(p, n, s)
    ensures forall x | x in s && x in p :: p[x] in s
  {
    forall x | x in s && x in p ensures p[x] in s {
      var i :| 0 <= i < |s| && s[i] == x;
      if i == 0 {
        var j :| 0 <= j < |s[1..]| && s[1..][j] == x;
        assert p[s[j + 1]] == s[j];
      } else {
        assert p[s[i]] == s[i - 1];
      }
    }
  }

  /** The list holds exactly the namespace and the namespaces above it. */
  lemma AncestryMembers(p: Parents, n: Name, a: Name)
    ensures a in AncestryOf(p, n) <==> Reaches(p, n, a)
  {
    var s := AncestryOf(p, n);
    AncestryIs(p, n);
    if a in s {
      var i :| 0 <= i < |s| && s[i] == a;
      AncestrySteps(p, n, s, i);
    }
    if Reaches(p, n, a) {
      var k: nat :| Steps(p, n, a, k);
      AncestryClosed(p, n, s);
      ClosedHolds(p, Elems(s), n, a, k);
    }
  }

  /** Only the front of the list can repeat: a namespace is on a cycle exactly when it is both the
      first and the last entry of a list of more than one. */
  lemma CycleAtFront(p: Parents, n: Name)
    ensures OnCycle(p, n) <==> |AncestryOf(p, n)| > 1 && AncestryOf(p, n)[0] == n
  {
    var s := AncestryOf(p, n);
    AncestryIs(p, n);
    if |s| > 1 && s[0] == n {
      AncestrySteps(p, n, s, 0);
      assert Steps(p, p[n], n, |s| - 2);
    }
    if OnCycle(p, n) {
      AncestrySteps(p, n, s, 0);
      CycleReturns(p, n, s[0]);
      if s[0] != n {
        ReachesCases(p, s[0], n);
        var j :| 0 <= j < |s[1..]| && s[1..][j] == s[0];
        assert s[j + 1] == s[0];
        AncestryLoop(p, s, j + 1);
        var k: nat :| Steps(p, s[0], n, k);
        ClosedHolds(p, Elems(s[..j + 2]), s[0], n, k);
        assert false;
      }
    }
  }

  /** When the first name repeats at position j, the names up to j are closed under parent links. */
  lemma AncestryLoop(p: Parents, s: seq<Name>, j: nat)
    requires Chained(p, s) && 1 <= j < |s| && s[j] == s[0]
    ensures forall x | x in Elems(s[..j + 1]) && x in p :: p[x] in Elems(s[..j + 1])
  {
    forall x | x in Elems(s[..j + 1]) && x in p ensures p[x] in Elems(s[..j + 1]) {
      var i :| 0 <= i <= j && s[i] == x;
      var i' := if i == 0 then j else i;
      assert p[s[i']] == s[i' - 1];
      assert s[..j + 1][i' - 1] == p[x];
    }
  }

  /** A list that repeats its first name shows a cycle; a list that does not ends at a root. */
  lemma RepeatIsCycle(p: Parents, n: Name)
    ensures var s := AncestryOf(p, n);
            (s[0] in p <==> OnCycle(p, s[0])) && (s[0] in p <==> s[0] in s[1..]) &&
            (s[0] !in p <==> Distinct(s)) && (s[0] !in p <==> CycleFree(p, n))
  {
    var s := AncestryOf(p, n);
    AncestryIs(p, n);
    AncestryMembers(p, n, s[0]);
    if s[0] in p {
      var j :| 0 <= j < |s[1..]| && s[1..][j] == s[0];
      assert s[j + 1] == s[0] && s[0] == s[0..][0];
      AncestrySteps(p, s[0], s[..j + 2], 0);
      assert Steps(p, p[s[0]], s[0], j);
    } else {
      forall i, j | 0 <= i < j < |s| ensures s[i] != s[j] {
        assert s[j] in p;
      }
      forall a | Reaches(p, n, a) ensures !OnCycle(p, a) {
        if OnCycle(p, a) {
          ReachesLinear(p, n, a, s[0]);
          if Reaches(p, a, s[0]) {
            CycleReturns(p, a, s[0]);
          }
          ReachesCases(p, s[0], a);
          assert false;
        }
      }
    }
  }

  /** Above any entry of a list that ends at a root, the list is that entry's own ancestry. */
  lemma AncestryPrefix(p: Parents, n: Name, i: nat)
    requires CycleFree(p, n) && i < |AncestryOf(p, n)|
    ensures AncestryOf(p, AncestryOf(p, n)[i]) == AncestryOf(p, n)[..i + 1]
  {
    var s := AncestryOf(p, n);
    AncestryIs(p, n);
    RepeatIsCycle(p, n);
    var t := s[..i + 1];
    AncestryUnique(p, s[i], t);
  }

  /** The list depends only on the links of the names in it. */
  lemma AncestryFrame(p: Parents, q: Parents, n: Name)
    requires forall x | x in AncestryOf(p, n) :: (x in p <==> x in q) && (x in p ==> p[x] == q[x])
    ensures AncestryOf(q, n) == AncestryOf(p, n)
  {
    var s := AncestryOf(p, n);
    AncestryIs(p, n);
    AncestryUnique(q, n, s);
  }

  /** Off a cycle, the list is the parent's list with the namespace at its end. */
  lemma AncestryUp(p: Parents, n: Name)
    requires n in p && !OnCycle(p, n)
    ensures AncestryOf(p, n) == AncestryOf(p, p[n]) + [n]
  {
    var t := AncestryOf(p, p[n]);
    AncestryIs(p, p[n]);
    AncestryMembers(p, p[n], n);
    assert n !in t;
    assert (t + [n])[1..] == t[1..] + [n];
    AncestryUnique(p, n, t + [n]);
  }
}
