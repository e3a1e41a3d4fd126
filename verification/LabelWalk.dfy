/** The labels that the hierarchy puts on a namespace: its depth below each namespace above it, and
    the managed labels set there. */
module LabelWalk {
  import opened Ancestry
  import opened Strings
  import opened World
  import opened Decimal
  import Hierarchy

  const TREE_DEPTH_SUFFIX := ".tree.hnc.x-k8s.io/depth"

  function TreeKey(a: Name): string {
    a + TREE_DEPTH_SUFFIX
  }

  lemma TreeKeyInjective(a: Name, b: Name)
    requires TreeKey(a) == TreeKey(b)
    ensures a == b
  {
    assert TreeKey(a)[..|a|] == a && TreeKey(b)[..|b|] == b;
  }

  lemma TreeKeySuffix(a: Name)
    ensures HasSuffix(TreeKey(a), TREE_DEPTH_SUFFIX) && Contains(TreeKey(a), TREE_DEPTH_SUFFIX)
  {
    var k := TreeKey(a);
    assert k[|k| - |TREE_DEPTH_SUFFIX|..] == TREE_DEPTH_SUFFIX;
    assert TREE_DEPTH_SUFFIX <= k[|a|..];
  }

  /** The tree labels among l, as numbers. */
  function TreeLabels(l: Labels): map<string, int> {
    map k | k in l && Contains(k, TREE_DEPTH_SUFFIX) :: Atoi(l[k])
  }

  /** The labels an external namespace at that depth adds. */
  function Deepened(t: map<string, int>, depth: nat): Labels {
    map k | k in t :: Itoa(depth + t[k])
  }

  /** The walk up from n goes on to its parent. */
  ghost predicate GoesOn(w: World, n: Name) {
    n in w.parents && n in w.data && !w.data[n].Halted() && !w.data[n].External()
  }

  /** The labels l as the walk up from n, already depth steps long, leaves them. */
  ghost function Walked(w: World, l: Labels, n: Name, depth: nat, k: nat): Labels
    requires w.Valid() && n in w.names && Hierarchy.Stops(w.parents, Hierarchy.Halts(w), n, k)
    decreases k
  {
    var here := Here(w.data[n], l, n, depth);
    if GoesOn(w, n) then Walked(w, here, w.parents[n], depth + 1, k - 1) else here
  }

  /** The labels as one namespace on the way leaves them. */
  function Here(d: Data, l: Labels, n: Name, depth: nat): Labels {
    var tree := l[TreeKey(n) := Itoa(depth)] + d.managed;
    if d.External() then tree + Deepened(TreeLabels(d.labels), depth) else tree
  }

  /** From cur on, with the labels l so far, the walk arrives at the labels goal. */
  ghost predicate OnTheWay(w: World, goal: Labels, l: Labels, cur: Name, depth: nat, k: nat) {
    && w.Valid() && cur in w.names && Hierarchy.Stops(w.parents, Hierarchy.Halts(w), cur, k)
    && Walked(w, l, cur, depth, k) == goal
  }

  lemma OneStepUp(w: World, goal: Labels, l: Labels, cur: Name, depth: nat, k: nat)
    requires OnTheWay(w, goal, l, cur, depth, k)
    ensures var here := Here(w.data[cur], l, cur, depth);
            if GoesOn(w, cur) then k > 0 && OnTheWay(w, goal, here, w.parents[cur], depth + 1, k - 1) else here == goal
  {
  }

  /** The walk up from n gets to a after j steps. */
  ghost predicate GetsTo(w: World, n: Name, a: Name, j: nat)
    decreases j
  {
    if j == 0 then n == a else GoesOn(w, n) && GetsTo(w, w.parents[n], a, j - 1)
  }

  /** Managed labels are never tree labels. */
  ghost predicate ManagedApart(w: World)
    requires w.Valid()
  {
    forall n, k | n in w.names && k in w.data[n].managed :: !Contains(k, TREE_DEPTH_SUFFIX)
  }

  lemma {:induction false} GetsToSteps(w: World, n: Name, a: Name, j: nat)
    requires GetsTo(w, n, a, j)
    ensures Steps(w.parents, n, a, j)
    ensures forall i: nat, m | i < j && Steps(w.parents, n, m, i) :: GoesOn(w, m)
    decreases j
  {
    if j > 0 {
      GetsToSteps(w, w.parents[n], a, j - 1);
      forall i: nat, m | i < j && Steps(w.parents, n, m, i) ensures GoesOn(w, m) {
        if i > 0 { assert Steps(w.parents, w.parents[n], m, i - 1); }
      }
    }
  }

  lemma {:induction false} StopsAlong(w: World, n: Name, a: Name, j: nat, k: nat)
    requires GetsTo(w, n, a, j) && Hierarchy.Stops(w.parents, Hierarchy.Halts(w), n, k)
    ensures j <= k && Hierarchy.Stops(w.parents, Hierarchy.Halts(w), a, k - j)
    decreases j
  {
    if j > 0 { StopsAlong(w, w.parents[n], a, j - 1, k - 1); }
  }

  /** A walk that stops does not come back to where it has been. */
  lemma {:induction false} NoReturn(w: World, n: Name, j: nat, k: nat)
    requires GoesOn(w, n) && Hierarchy.Stops(w.parents, Hierarchy.Halts(w), n, k)
    ensures !GetsTo(w, w.parents[n], n, j)
    decreases k
  {
    if GetsTo(w, w.parents[n], n, j) {
      StopsAlong(w, w.parents[n], n, j, k - 1);
      NoReturn(w, n, j, k - 1 - j);
      assert false;
    }
  }

  /** The external tree labels that the end of the walk adds. */
  function Added(d: Data): map<string, int> {
    if d.External() then TreeLabels(d.labels) else map[]
  }

  ghost predicate Passes(w: World, n: Name, key: string) {
    exists a, j: nat :: GetsTo(w, n, a, j) && TreeKey(a) == key
  }

  lemma PassesCases(w: World, n: Name, key: string)
    ensures Passes(w, n, key) <==> TreeKey(n) == key || (GoesOn(w, n) && Passes(w, w.parents[n], key))
  {
    if TreeKey(n) == key {
      assert GetsTo(w, n, n, 0);
    }
    if a, j: nat :| GetsTo(w, n, a, j) && TreeKey(a) == key {
      if j > 0 { assert GetsTo(w, w.parents[n], a, j - 1); }
    }
    if GoesOn(w, n) {
      if a, j: nat :| GetsTo(w, w.parents[n], a, j) && TreeKey(a) == key {
        assert GetsTo(w, n, a, j + 1);
      }
    }
  }

  /** What the walk up from n, ending je steps up at e, does to a tree label. */
  ghost predicate TreeLabelSet(w: World, l: Labels, r: Labels, n: Name, depth: nat, e: Name, je: nat, key: string)
    requires e in w.data
  {
    && (key in r <==> key in l || key in Added(w.data[e]) || Passes(w, n, key))
    && (key in Added(w.data[e]) ==> r[key] == Itoa(depth + je + Added(w.data[e])[key]))
    && (key !in Added(w.data[e]) ==>
          (forall a, j: nat | GetsTo(w, n, a, j) && TreeKey(a) == key :: r[key] == Itoa(depth + j)))
    && (key !in Added(w.data[e]) && !Passes(w, n, key) && key in l ==> r[key] == l[key])
  }

  /** Of the tree labels, the walk sets those of the namespaces it passes, to their distance, and
      those of the external namespace it may end at, to its distance more than they were. */
  lemma {:induction false} WalkedTree(w: World, l: Labels, n: Name, depth: nat, k: nat, e: Name, je: nat, key: string)
    requires w.Valid() && n in w.names && Hierarchy.Stops(w.parents, Hierarchy.Halts(w), n, k) && ManagedApart(w)
    requires GetsTo(w, n, e, je) && !GoesOn(w, e) && e in w.names && Contains(key, TREE_DEPTH_SUFFIX)
    ensures TreeLabelSet(w, l, Walked(w, l, n, depth, k), n, depth, e, je, key)
    decreases je
  {
    var here := Here(w.data[n], l, n, depth);
    HereTree(w.data[n], l, n, depth, key);
    if je == 0 {
      PassesCases(w, n, key);
      WalkEnds(w, n, key);
    } else {
      var p := w.parents[n];
      WalkedTree(w, here, p, depth + 1, k - 1, e, je - 1, key);
      OnlyHere(w, n, k);
      TreeStep(w, l, here, Walked(w, here, p, depth + 1, k - 1), n, depth, e, je, key);
    }
  }

  lemma HereTree(d: Data, l: Labels, n: Name, depth: nat, key: string)
    requires key !in d.managed
    ensures var h := Here(d, l, n, depth);
            && (key in h <==> key in l || key == TreeKey(n) || key in Added(d))
            && (key in Added(d) ==> h[key] == Itoa(depth + Added(d)[key]))
            && (key !in Added(d) && key == TreeKey(n) ==> h[key] == Itoa(depth))
            && (key !in Added(d) && key != TreeKey(n) && key in l ==> h[key] == l[key])
  {
  }

  lemma TreeStep(w: World, l: Labels, here: Labels, r: Labels, n: Name, depth: nat, e: Name, je: nat, key: string)
    requires e in w.data && GoesOn(w, n) && je > 0 && !Passes(w, w.parents[n], TreeKey(n))
    requires TreeLabelSet(w, here, r, w.parents[n], depth + 1, e, je - 1, key)
    requires key in here <==> key in l || key == TreeKey(n)
    requires key == TreeKey(n) ==> here[key] == Itoa(depth)
    requires key != TreeKey(n) && key in l ==> here[key] == l[key]
    ensures TreeLabelSet(w, l, r, n, depth, e, je, key)
  {
    PassesCases(w, n, key);
    forall a, j: nat | GetsTo(w, n, a, j) && TreeKey(a) == key && key !in Added(w.data[e])
      ensures key in r && r[key] == Itoa(depth + j)
    {
      if j > 0 {
        assert GetsTo(w, w.parents[n], a, j - 1);
      }
    }
  }

  lemma WalkEnds(w: World, n: Name, key: string)
    requires !GoesOn(w, n)
    ensures forall a, j: nat | GetsTo(w, n, a, j) :: a == n && j == 0
  {
  }

  lemma OnlyHere(w: World, n: Name, k: nat)
    requires GoesOn(w, n) && Hierarchy.Stops(w.parents, Hierarchy.Halts(w), n, k)
    ensures !Passes(w, w.parents[n], TreeKey(n))
  {
    forall a, j: nat | GetsTo(w, w.parents[n], a, j) ensures TreeKey(a) != TreeKey(n) {
      NoReturn(w, n, j, k);
      if TreeKey(a) == TreeKey(n) { TreeKeyInjective(a, n); }
    }
  }

  // ----- managed labels -----

  /** a is the topmost namespace on the walk up from n that sets the managed label. */
  ghost predicate Topmost(w: World, n: Name, key: string, a: Name, j: nat) {
    && GetsTo(w, n, a, j) && a in w.data && key in w.data[a].managed
    && forall b, i: nat | GetsTo(w, n, b, i) && i > j && b in w.data :: key !in w.data[b].managed
  }

  ghost predicate SetSomewhere(w: World, n: Name, key: string) {
    exists a, j: nat :: GetsTo(w, n, a, j) && a in w.data && key in w.data[a].managed
  }

  /** The managed label has that value as seen from n: the one set topmost. */
  ghost predicate Effective(w: World, n: Name, key: string, val: string) {
    exists a, j: nat :: Topmost(w, n, key, a, j) && w.data[a].managed[key] == val
  }

  /** If the label is set at all on the walk up, one namespace there sets it topmost. */
  lemma {:induction false} TopmostExists(w: World, n: Name, key: string, k: nat) returns (a: Name, j: nat)
    requires w.Valid() && n in w.names && Hierarchy.Stops(w.parents, Hierarchy.Halts(w), n, k)
    requires SetSomewhere(w, n, key)
    ensures Topmost(w, n, key, a, j)
    decreases k
  {
    SetCases(w, n, key);
    if GoesOn(w, n) && SetSomewhere(w, w.parents[n], key) {
      a, j := TopmostExists(w, w.parents[n], key, k - 1);
      j := j + 1;
      forall b, i: nat | GetsTo(w, n, b, i) && i > j && b in w.data ensures key !in w.data[b].managed {
        assert GetsTo(w, w.parents[n], b, i - 1);
      }
    } else {
      a, j := n, 0;
      forall b, i: nat | GetsTo(w, n, b, i) && i > 0 && b in w.data ensures key !in w.data[b].managed {
        assert GetsTo(w, w.parents[n], b, i - 1);
      }
    }
  }

  lemma EffectiveUnique(w: World, n: Name, key: string, x: string, y: string)
    requires Effective(w, n, key, x) && Effective(w, n, key, y)
    ensures x == y
  {
    var a, i: nat :| Topmost(w, n, key, a, i) && w.data[a].managed[key] == x;
    var b, j: nat :| Topmost(w, n, key, b, j) && w.data[b].managed[key] == y;
    assert i == j;
    GetsToSteps(w, n, a, i);
    GetsToSteps(w, n, b, j);
    StepsUnique(w.parents, n, a, b, i);
  }

  /** A label set somewhere on the walk gets the value set topmost; any other label is left alone. */
  lemma WalkedManaged(w: World, l: Labels, n: Name, depth: nat, k: nat, key: string)
    requires w.Valid() && n in w.names && Hierarchy.Stops(w.parents, Hierarchy.Halts(w), n, k)
    requires !Contains(key, TREE_DEPTH_SUFFIX)
    ensures var r := Walked(w, l, n, depth, k);
            if SetSomewhere(w, n, key) then key in r && Effective(w, n, key, r[key])
            else (key in r <==> key in l) && (key in l ==> r[key] == l[key])
  {
    WalkedTopmost(w, l, n, depth, k, key);
    if SetSomewhere(w, n, key) {
      var a, j := TopmostExists(w, n, key, k);
    }
  }

  lemma {:induction false} WalkedTopmost(w: World, l: Labels, n: Name, depth: nat, k: nat, key: string)
    requires w.Valid() && n in w.names && Hierarchy.Stops(w.parents, Hierarchy.Halts(w), n, k)
    requires !Contains(key, TREE_DEPTH_SUFFIX)
    ensures var r := Walked(w, l, n, depth, k);
            && (key in r <==> key in l || SetSomewhere(w, n, key))
            && (forall a, j: nat | Topmost(w, n, key, a, j) :: key in r && r[key] == w.data[a].managed[key])
            && (!SetSomewhere(w, n, key) && key in l ==> r[key] == l[key])
    decreases k
  {
    var here := Here(w.data[n], l, n, depth);
    TreeKeySuffix(n);
    SetCases(w, n, key);
    if GoesOn(w, n) {
      var p := w.parents[n];
      WalkedTopmost(w, here, p, depth + 1, k - 1, key);
      var r := Walked(w, here, p, depth + 1, k - 1);
      forall a, j: nat | Topmost(w, n, key, a, j) ensures key in r && r[key] == w.data[a].managed[key] {
        TopmostCases(w, n, key, a, j);
      }
    } else {
      WalkEnds(w, n, key);
    }
  }

  lemma SetCases(w: World, n: Name, key: string)
    requires n in w.data
    ensures SetSomewhere(w, n, key) <==>
              key in w.data[n].managed || (GoesOn(w, n) && SetSomewhere(w, w.parents[n], key))
  {
    if key in w.data[n].managed {
      assert GetsTo(w, n, n, 0);
    }
    if a, j: nat :| GetsTo(w, n, a, j) && a in w.data && key in w.data[a].managed {
      if j > 0 { assert GetsTo(w, w.parents[n], a, j - 1); }
    }
    if GoesOn(w, n) {
      if a, j: nat :| GetsTo(w, w.parents[n], a, j) && a in w.data && key in w.data[a].managed {
        assert GetsTo(w, n, a, j + 1);
      }
    }
  }

  lemma TopmostCases(w: World, n: Name, key: string, a: Name, j: nat)
    requires GoesOn(w, n) && Topmost(w, n, key, a, j)
    ensures j > 0 ==> Topmost(w, w.parents[n], key, a, j - 1)
    ensures j == 0 ==> a == n && !SetSomewhere(w, w.parents[n], key)
  {
    var p := w.parents[n];
    forall b, i: nat | GetsTo(w, p, b, i) && i + 1 > j && b in w.data ensures key !in w.data[b].managed {
      assert GetsTo(w, n, b, i + 1);
    }
  }

  // ----- what the walk leaves alone -----

  /** A namespace on the walk sets that label: its own tree label, a managed one, or, if it is external, a
      tree label it has. */
  predicate SetsLabel(d: Data, a: Name, key: string) {
    || key == a + TREE_DEPTH_SUFFIX || key in d.managed
    || (d.External() && key in d.labels && Contains(key, TREE_DEPTH_SUFFIX))
  }

  /** No namespace on the walk up from n sets the label. */
  ghost predicate Untouched(w: World, n: Name, key: string) {
    forall a, j: nat | GetsTo(w, n, a, j) && a in w.data :: !SetsLabel(w.data[a], a, key)
  }

  /** Nothing beyond a namespace that is halted or external is on the walk. */
  lemma NothingBeyond(w: World, n: Name, a: Name, j: nat, b: Name, i: nat)
    requires GetsTo(w, n, a, j) && a in w.data && (w.data[a].Halted() || w.data[a].External()) && i > j
    ensures !GetsTo(w, n, b, i)
  {
    if GetsTo(w, n, b, i) {
      GetsToSteps(w, n, a, j);
      GetsToSteps(w, n, b, i);
    }
  }

  /** But everything up to there is. */
  lemma {:induction false} AllUpTo(w: World, n: Name, a: Name, j: nat)
    requires w.Valid() && n in w.names && Steps(w.parents, n, a, j)
    requires forall i: nat, m | i < j && Steps(w.parents, n, m, i) && m in w.names ::
               !w.data[m].Halted() && !w.data[m].External()
    ensures GetsTo(w, n, a, j)
    decreases j
  {
    if j > 0 {
      assert Steps(w.parents, n, n, 0);
      forall i: nat, m | i < j - 1 && Steps(w.parents, w.parents[n], m, i) && m in w.names
        ensures !w.data[m].Halted() && !w.data[m].External()
      {
        assert Steps(w.parents, n, m, i + 1);
      }
      AllUpTo(w, w.parents[n], a, j - 1);
    }
  }

  /** A label that no namespace on the walk sets stays as it was. */
  lemma {:induction false} WalkedLeaves(w: World, l: Labels, n: Name, depth: nat, k: nat, key: string)
    requires w.Valid() && n in w.names && Hierarchy.Stops(w.parents, Hierarchy.Halts(w), n, k) && Untouched(w, n, key)
    ensures var r := Walked(w, l, n, depth, k); (key in r <==> key in l) && (key in l ==> r[key] == l[key])
    decreases k
  {
    assert GetsTo(w, n, n, 0);
    HereLeaves(w.data[n], l, n, depth, key);
    if GoesOn(w, n) {
      var p := w.parents[n];
      forall a, j: nat | GetsTo(w, p, a, j) && a in w.data ensures !SetsLabel(w.data[a], a, key) {
        assert GetsTo(w, n, a, j + 1);
      }
      WalkedLeaves(w, Here(w.data[n], l, n, depth), p, depth + 1, k - 1, key);
    }
  }

  lemma HereLeaves(d: Data, l: Labels, n: Name, depth: nat, key: string)
    requires !SetsLabel(d, n, key)
    ensures var h := Here(d, l, n, depth); (key in h <==> key in l) && (key in l ==> h[key] == l[key])
  {
  }

  /** The tree labels of the external namespace that the walk ends at, je steps up, come down to n with that
      much added. */
  lemma WalkedExternal(w: World, l: Labels, n: Name, k: nat, e: Name, je: nat, key: string)
    requires w.Valid() && n in w.names && Hierarchy.Stops(w.parents, Hierarchy.Halts(w), n, k) && ManagedApart(w)
    requires GetsTo(w, n, e, je) && e in w.names && w.data[e].External()
    requires Contains(key, TREE_DEPTH_SUFFIX) && key in w.data[e].labels
    ensures var r := Walked(w, l, n, 0, k); key in r && r[key] == Itoa(je + Atoi(w.data[e].labels[key]))
  {
    WalkedTree(w, l, n, 0, k, e, je, key);
  }
}
