/** The scan for objects that would be overwritten if a type started to propagate. */
module Conflicts {
  import opened Ancestry
  import opened Structure
  import opened World
  import opened Forest

  /** The object of that name in the ancestor would overwrite the one in the descendant. */
  datatype Conflict = Conflict(object_: string, ancestor: Name, descendant: Name)

  /** The names of objects, each with the namespaces above that hold such an object. */
  type Holders = map<string, seq<Name>>

  /** The ancestor's object would be propagated to a namespace with the descendant's labels. */
  ghost predicate Overwrites(w: World, k: Conflict, propagates: (Object, Labels) -> bool) {
    && k.ancestor in w.data && k.descendant in w.data
    && k.object_ in w.data[k.ancestor].sources && k.object_ in w.data[k.descendant].sources
    && propagates(w.data[k.ancestor].sources[k.object_], w.data[k.descendant].labels)
  }

  /** What the scan is to find: a namespace that hangs from a root, and a proper ancestor of it. */
  ghost predicate IsConflict(w: World, k: Conflict, propagates: (Object, Labels) -> bool) {
    && CycleFree(w.parents, k.descendant) && HasAncestor(w.parents, k.descendant, k.ancestor)
    && Overwrites(w, k, propagates)
  }

  ghost predicate HeldBy(objs: Holders, x: string, a: Name) {
    x in objs && a in objs[x]
  }

  /** objs lists, for each name, exactly the proper ancestors of n with an object of that name. */
  ghost predicate ListsAbove(w: World, n: Name, objs: Holders) {
    forall x, a :: HeldBy(objs, x, a) <==> HasAncestor(w.parents, n, a) && a in w.data && x in w.data[a].sources
  }

  /** Nothing that hangs from a root is on a cycle. */
  lemma ChildOffCycle(p: Parents, c: Name)
    requires c in p && CycleFree(p, p[c])
    ensures CycleFree(p, c)
  {
    forall a | Reaches(p, c, a) ensures !OnCycle(p, a) {
      ReachesCases(p, c, a);
    }
  }

  lemma RootOffCycle(p: Parents, n: Name)
    requires n !in p
    ensures CycleFree(p, n)
  {
    forall a | Reaches(p, n, a) ensures !OnCycle(p, a) {
      ReachesCases(p, n, a);
    }
  }

  /** Off cycles there is less below a child than below its parent. */
  lemma LessBelow(p: Parents, c: Name)
    requires c in p && CycleFree(p, c)
    ensures Descendants(p, c) < Descendants(p, p[c])
  {
    forall d | d in Descendants(p, c) ensures d in Descendants(p, p[c]) {
      DescendantOfChild(p, p[c], c, d);
    }
    DescendantOfChild(p, p[c], c, c);
    assert c in Descendants(p, p[c]);
    ReachesSelf(p, c);
    assert c !in Descendants(p, c);
  }

  lemma AncestorsOfChild(p: Parents, c: Name, a: Name)
    requires c in p
    ensures HasAncestor(p, c, a) <==> a == p[c] || HasAncestor(p, p[c], a)
  {
    ReachesCases(p, p[c], a);
  }

  /** The conflicts found over the objects of n whose names are not in todo. */
  ghost predicate FoundSoFar(w: World, n: Name, ao: Holders, todo: set<string>, conflicts: seq<Conflict>,
                             propagates: (Object, Labels) -> bool) {
    forall k :: k in conflicts <==>
      k.descendant == n && k.object_ !in todo && HeldBy(ao, k.object_, k.ancestor) && Overwrites(w, k, propagates)
  }

  /** The holders of ao, and n for those of its objects whose names are not in todo. */
  ghost predicate HeldSoFar(sources: map<string, Object>, n: Name, ao: Holders, todo: set<string>, objs: Holders) {
    forall x, a :: HeldBy(objs, x, a) <==> HeldBy(ao, x, a) || (a == n && x in sources && x !in todo)
  }

  /** The objects of the type at hand in ns that an ancestor would overwrite, and the list of holders
      extended by ns. */
  method OwnConflicts(f: Forest, ns: Namespace, ao: Holders, propagates: (Object, Labels) -> bool)
    returns (conflicts: seq<Conflict>, objs: Holders)
    requires f.Valid() && f.Has(ns)
    requires forall x, a | HeldBy(ao, x, a) :: a in f.world.data && x in f.world.data[a].sources
    ensures ns.name in f.world.data && FoundSoFar(f.world, ns.name, ao, {}, conflicts, propagates)
    ensures HeldSoFar(f.world.data[ns.name].sources, ns.name, ao, {}, objs)
  {
    ghost var w, n := f.world, ns.name;
    assert f.MirrorsAt(n);
    conflicts, objs := [], ao;
    var todo := ns.sources.Keys;
    FoundNone(w, n, ao, propagates);
    while todo != {}
      invariant todo <= ns.sources.Keys
      invariant FoundSoFar(w, n, ao, todo, conflicts, propagates)
      invariant HeldSoFar(ns.sources, n, ao, todo, objs)
    {
      var x :| x in todo;
      var above := if x in objs then objs[x] else [];
      AboveAre(ns.sources, n, ao, todo, objs, x, above);
      var more := ConflictsOver(f, ns, x, above, propagates);
      MoreConflicts(w, n, ao, x, above, todo, conflicts, more, propagates);
      MoreHolders(ns.sources, n, ao, todo, objs, x, above);
      conflicts, objs, todo := conflicts + more, objs[x := above + [ns.name]], todo - {x};
    }
  }

  lemma FoundNone(w: World, n: Name, ao: Holders, propagates: (Object, Labels) -> bool)
    requires n in w.data
    ensures FoundSoFar(w, n, ao, w.data[n].sources.Keys, [], propagates)
  {
  }

  /** The holders of a name not yet done are those above. */
  lemma AboveAre(sources: map<string, Object>, n: Name, ao: Holders, todo: set<string>, objs: Holders, x: string,
                 above: seq<Name>)
    requires HeldSoFar(sources, n, ao, todo, objs) && x in todo && above == if x in objs then objs[x] else []
    ensures forall a :: a in above <==> HeldBy(ao, x, a)
  {
    forall a ensures a in above <==> HeldBy(ao, x, a) {
      assert a in above <==> HeldBy(objs, x, a);
    }
  }

  lemma MoreConflicts(w: World, n: Name, ao: Holders, x: string, above: seq<Name>, todo: set<string>,
                      conflicts: seq<Conflict>, more: seq<Conflict>, propagates: (Object, Labels) -> bool)
    requires x in todo && (forall a :: a in above <==> HeldBy(ao, x, a))
    requires FoundSoFar(w, n, ao, todo, conflicts, propagates)
    requires forall k :: k in more <==>
               k.descendant == n && k.object_ == x && k.ancestor in above && Overwrites(w, k, propagates)
    ensures FoundSoFar(w, n, ao, todo - {x}, conflicts + more, propagates)
  {
    forall k ensures k in conflicts + more <==>
      k.descendant == n && k.object_ !in todo - {x} && HeldBy(ao, k.object_, k.ancestor) && Overwrites(w, k, propagates)
    {
      assert k in conflicts + more <==> k in conflicts || k in more;
    }
  }

  lemma MoreHolders(sources: map<string, Object>, n: Name, ao: Holders, todo: set<string>, objs: Holders, x: string,
                    above: seq<Name>)
    requires HeldSoFar(sources, n, ao, todo, objs) && x in todo && x in sources
    requires above == if x in objs then objs[x] else []
    ensures HeldSoFar(sources, n, ao, todo - {x}, objs[x := above + [n]])
  {
    var objs' := objs[x := above + [n]];
    forall y, a ensures HeldBy(objs', y, a) <==> HeldBy(ao, y, a) || (a == n && y in sources && y !in todo - {x}) {
      assert HeldBy(objs', y, a) <==> HeldBy(objs, y, a) || (y == x && a == n);
    }
  }

  /** Which of the namespaces above would overwrite the object of that name in ns. */
  method ConflictsOver(f: Forest, ns: Namespace, x: string, above: seq<Name>, propagates: (Object, Labels) -> bool)
    returns (r: seq<Conflict>)
    requires f.Valid() && f.Has(ns) && x in ns.sources
    requires forall a | a in above :: a in f.world.data && x in f.world.data[a].sources
    ensures forall k :: k in r <==>
              k.descendant == ns.name && k.object_ == x && k.ancestor in above && Overwrites(f.world, k, propagates)
  {
    ghost var w, n := f.world, ns.name;
    assert f.MirrorsAt(n);
    r := [];
    for i := 0 to |above|
      invariant forall k :: k in r <==>
                  k.descendant == n && k.object_ == x && k.ancestor in above[..i] && Overwrites(w, k, propagates)
    {
      assert above[i] in above && f.MirrorsAt(above[i]);
      TakeOne(above, i);
      if propagates(f.namespaces[above[i]].sources[x], ns.labels) {
        r := r + [Conflict(x, above[i], ns.name)];
      }
    }
    assert above[..|above|] == above;
  }

  ghost predicate AtOrBelow(p: Parents, n: Name, d: Name) {
    d == n || d in Descendants(p, n)
  }

  /** The conflicts in the tree below ns, ns included. */
  method CheckConflictsForTree(f: Forest, ao: Holders, ns: Namespace, propagates: (Object, Labels) -> bool)
    returns (conflicts: seq<Conflict>)
    requires f.Valid() && f.Has(ns) && CycleFree(f.world.parents, ns.name) && ListsAbove(f.world, ns.name, ao)
    ensures forall k :: k in conflicts <==>
              AtOrBelow(f.world.parents, ns.name, k.descendant) && IsConflict(f.world, k, propagates)
    decreases Descendants(f.world.parents, ns.name)
  {
    ghost var w, n := f.world, ns.name;
    var objs;
    conflicts, objs := OwnConflicts(f, ns, ao, propagates);
    var children := f.ChildNames(ns);
    for i := 0 to |children|
      invariant forall k :: k in conflicts <==> Found(w, n, children[..i], k) && IsConflict(w, k, propagates)
    {
      var c := children[i];
      assert c in children && f.LinkedAt(c);
      ChildOffCycle(w.parents, c);
      LessBelow(w.parents, c);
      ChildLists(w, c, objs);
      var more := CheckConflictsForTree(f, objs, f.namespaces[c], propagates);
      TakeOne(children, i);
      FoundMore(w, n, children[..i], c);
      conflicts := conflicts + more;
    }
    assert children[..|children|] == children;
    FoundAll(w, n, children);
  }

  /** d is n, or is at or below one of these children of n. */
  ghost predicate Found(w: World, n: Name, children: seq<Name>, k: Conflict) {
    k.descendant == n || exists c | c in children :: AtOrBelow(w.parents, c, k.descendant)
  }

  lemma FoundMore(w: World, n: Name, children: seq<Name>, c: Name)
    ensures forall k ::
              Found(w, n, children + [c], k) <==> Found(w, n, children, k) || AtOrBelow(w.parents, c, k.descendant)
  {
    forall k
      ensures Found(w, n, children + [c], k) <==> Found(w, n, children, k) || AtOrBelow(w.parents, c, k.descendant)
    {
      if b :| b in children && AtOrBelow(w.parents, b, k.descendant) { assert b in children + [c]; }
      assert c in children + [c];
    }
  }

  lemma FoundAll(w: World, n: Name, children: seq<Name>)
    requires forall c :: c in children <==> c in w.parents && w.parents[c] == n
    ensures forall k :: Found(w, n, children, k) <==> AtOrBelow(w.parents, n, k.descendant)
  {
    var p := w.parents;
    forall k ensures Found(w, n, children, k) <==> AtOrBelow(p, n, k.descendant) {
      var d := k.descendant;
      if c :| c in children && AtOrBelow(p, c, d) {
        DescendantOfChild(p, n, c, d);
      }
      if d in Descendants(p, n) {
        var c := ChildAbove(p, n, d);
        assert c in children;
      }
    }
  }

  /** Below n is the same as at or below a child of n. */
  lemma ChildAbove(p: Parents, n: Name, d: Name) returns (c: Name)
    requires d in Descendants(p, n)
    ensures c in p && p[c] == n && AtOrBelow(p, c, d)
  {
    var j: nat :| Steps(p, p[d], n, j);
    c := ChildAt(p, n, d, j);
    ReachesCases(p, d, c);
  }

  lemma {:induction false} ChildAt(p: Parents, n: Name, d: Name, j: nat) returns (c: Name)
    requires d in p && Steps(p, p[d], n, j)
    ensures c in p && p[c] == n && Reaches(p, d, c)
    decreases j
  {
    if j == 0 {
      c := d;
      ReachesSelf(p, d);
    } else {
      c := ChildAt(p, n, p[d], j - 1);
      ReachesCases(p, d, c);
    }
  }

  lemma ChildLists(w: World, c: Name, objs: Holders)
    requires c in w.parents && w.parents[c] in w.data
    requires forall x, a :: HeldBy(objs, x, a) <==>
               || (HasAncestor(w.parents, w.parents[c], a) && a in w.data && x in w.data[a].sources)
               || (a == w.parents[c] && x in w.data[a].sources)
    ensures ListsAbove(w, c, objs)
  {
    forall a ensures HasAncestor(w.parents, c, a) <==> a == w.parents[c] || HasAncestor(w.parents, w.parents[c], a) {
      AncestorsOfChild(w.parents, c, a);
    }
  }

  /** The namespaces without a parent. */
  method GetRoots(f: Forest) returns (roots: seq<Namespace>)
    requires f.Linked()
    ensures forall ns | ns in roots :: f.Has(ns) && ns.name !in f.world.parents
    ensures forall n | n in f.namespaces && n !in f.world.parents :: f.namespaces[n] in roots
  {
    roots := [];
    var todo := f.namespaces.Keys;
    while todo != {}
      invariant todo <= f.namespaces.Keys
      invariant forall ns | ns in roots :: f.Has(ns) && ns.name !in f.world.parents
      invariant forall n | n in f.namespaces && n !in f.world.parents && n !in todo :: f.namespaces[n] in roots
    {
      var n :| n in todo;
      assert f.LinkedAt(n);
      if f.namespaces[n].parent == null {
        roots := roots + [f.namespaces[n]];
      }
      todo := todo - {n};
    }
  }

  /** Every conflict in the trees of the forest, and nothing else; what is on or below a cycle is not
      looked at. */
  method CheckConflictsForGVK(f: Forest, propagates: (Object, Labels) -> bool) returns (conflicts: seq<Conflict>)
    requires f.Valid()
    ensures forall k :: k in conflicts <==> IsConflict(f.world, k, propagates)
    ensures conflicts == [] <==> !exists k :: IsConflict(f.world, k, propagates)
  {
    ghost var w := f.world;
    var roots := GetRoots(f);
    conflicts := [];
    for i := 0 to |roots|
      invariant forall k :: k in conflicts <==> Below(w, roots[..i], k.descendant) && IsConflict(w, k, propagates)
    {
      RootOffCycle(w.parents, roots[i].name);
      var more := CheckConflictsForTree(f, map[], roots[i], propagates);
      TakeOne(roots, i);
      BelowMore(w, roots[..i], roots[i]);
      conflicts := conflicts + more;
    }
    assert roots[..|roots|] == roots;
    forall k | IsConflict(w, k, propagates) ensures Below(w, roots, k.descendant) {
      UnderRoot(f, roots, k.descendant);
    }
    assert conflicts != [] ==> conflicts[0] in conflicts;
  }

  ghost predicate Below(w: World, roots: seq<Namespace>, d: Name) {
    exists ns | ns in roots :: AtOrBelow(w.parents, ns.name, d)
  }

  lemma BelowMore(w: World, roots: seq<Namespace>, ns: Namespace)
    ensures forall d :: Below(w, roots + [ns], d) <==> Below(w, roots, d) || AtOrBelow(w.parents, ns.name, d)
  {
    forall d ensures Below(w, roots + [ns], d) <==> Below(w, roots, d) || AtOrBelow(w.parents, ns.name, d) {
      if m :| m in roots && AtOrBelow(w.parents, m.name, d) { assert m in roots + [ns]; }
      assert ns in roots + [ns];
    }
  }

  /** A namespace with no cycle above it hangs from a root. */
  lemma UnderRoot(f: Forest, roots: seq<Namespace>, d: Name)
    requires f.Valid() && d in f.world.data && CycleFree(f.world.parents, d)
    requires forall n | n in f.namespaces && n !in f.world.parents :: f.namespaces[n] in roots
    ensures Below(f.world, roots, d)
  {
    var p := f.world.parents;
    var r := AncestryOf(p, d)[0];
    RepeatIsCycle(p, d);
    AncestryMembers(p, d, r);
    AncestorsInside(f.world.names, p, d);
    assert f.LinkedAt(r) && f.namespaces[r].name == r;
    ReachesCases(p, d, r);
    assert AtOrBelow(p, f.namespaces[r].name, d);
  }
}
