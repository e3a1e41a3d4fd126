/** The admission checks on a change of a namespace's parent. */
module Validator {
  import opened Ancestry
  import opened Structure
  import opened World
  import opened Forest
  import Hierarchy
  import Conditions

  datatype Verdict = Allow | Unavailable | Forbidden | Conflict

  // ----- the namespace -----

  /** Changes must wait until the namespace is synced, and until a halted namespace above it, other
      than itself, is dealt with. */
  method CheckNS(f: Forest, ns: Namespace) returns (v: Verdict)
    requires f.Valid() && f.Has(ns) && Hierarchy.Inv(f.world)
    ensures v == Unavailable <==> ns.name !in f.world.present
    ensures v == Forbidden <==>
              && ns.name in f.world.present
              && exists r | r != "" && r != ns.name :: Conditions.IsHaltedRoot(f.world, ns.name, r)
    ensures v != Conflict
  {
    assert f.MirrorsAt(ns.name);
    if !ns.present {
      return Unavailable;
    }
    var haltedRoot := Conditions.HaltedRootOf(f, ns);
    if haltedRoot != "" && haltedRoot != ns.name {
      return Forbidden;
    }
    forall r | Conditions.IsHaltedRoot(f.world, ns.name, r) ensures r == haltedRoot {
      Conditions.HaltedRootUnique(f.world, ns.name, r, haltedRoot);
    }
    return Allow;
  }

  // ----- the parent -----

  /** The object of that name in a would propagate, judged by its own labels. */
  ghost predicate Spreads(w: World, a: Name, x: string, propagates: (Object, Labels) -> bool)
    requires w.Valid()
  {
    a in w.names && x in w.data[a].sources && propagates(w.data[a].sources[x], w.data[a].sources[x].labels)
  }

  /** An object at or above p would overwrite one at or below n. */
  ghost predicate Overwrites(w: World, p: Name, n: Name, propagates: (Object, Labels) -> bool)
    requires w.Valid()
  {
    exists x, a, d :: Reaches(w.parents, p, a) && Spreads(w, a, x, propagates) &&
      d in w.names && (d == n || d in Descendants(w.parents, n)) && x in w.data[d].sources
  }

  /** Whether n may get the parent q: an external namespace gets none, a subnamespace keeps the one it
      has, and any other gets an existing one that makes no cycle and overwrites nothing. */
  ghost predicate ParentAllowed(w: World, n: Name, q: Option<Name>, propagates: (Object, Labels) -> bool)
    requires w.Valid() && n in w.names
  {
    && (q.None? || !w.data[n].External())
    && (q == ParentName(w.parents, n) || (!w.data[n].isSub && (q.None? ||
          (q.value in w.present && !OnCycle(w.parents[n := q.value], n) && !Overwrites(w, q.value, n, propagates)))))
  }

  /** The refusals that are not conflicts: a parent for an external namespace, and one that is not there for a
      namespace that could have another. */
  ghost predicate ParentForbidden(w: World, n: Name, q: Option<Name>)
    requires w.Valid() && n in w.names
  {
    && q.Some?
    && (w.data[n].External() || (q != ParentName(w.parents, n) && !w.data[n].isSub && q.value !in w.present))
  }

  method CheckParent(f: Forest, ns: Namespace, curParent: Namespace?, newParent: Namespace?,
                     propagates: (Object, Labels) -> bool)
    returns (v: Verdict)
    requires f.Valid() && f.Has(ns) && curParent == ns.parent && (newParent != null ==> f.Has(newParent))
    ensures ns.name in f.world.names && (v == Allow <==> ParentAllowed(f.world, ns.name, NameOf(newParent), propagates))
    ensures v == Forbidden <==> ParentForbidden(f.world, ns.name, NameOf(newParent))
    ensures v != Unavailable
  {
    assert f.MirrorsAt(ns.name);
    SameParent(f, ns, newParent);
    if ns.Held().External() && newParent != null {
      return Forbidden;
    }
    if curParent == newParent {
      return Allow;
    }
    if ns.isSub {
      return Conflict;
    }
    if newParent == null {
      return Allow;
    }
    assert f.MirrorsAt(newParent.name);
    if !newParent.present {
      return Forbidden;
    }
    var legal := f.CanSetParent(ns, newParent);
    if !legal {
      return Conflict;
    }
    var co := ConflictingObjects(f, newParent, ns, propagates);
    return if co then Conflict else Allow;
  }

  lemma SameParent(f: Forest, ns: Namespace, p: Namespace?)
    requires f.Linked() && f.Has(ns) && (p != null ==> f.Has(p))
    ensures ns.parent == p <==> ParentName(f.world.parents, ns.name) == NameOf(p)
  {
    assert f.LinkedAt(ns.name);
    if ns.name in f.world.parents { assert f.LinkedAt(f.world.parents[ns.name]); }
    if p != null { assert f.LinkedAt(p.name); }
  }

  method ConflictingObjects(f: Forest, newParent: Namespace, ns: Namespace, propagates: (Object, Labels) -> bool)
    returns (r: bool)
    requires f.Valid() && f.Has(ns) && f.Has(newParent)
    ensures r <==> Overwrites(f.world, newParent.name, ns.name, propagates)
  {
    ghost var w := f.world;
    var ancestors := f.AncestryNames(newParent);
    AncestryUnique(w.parents, newParent.name, ancestors);
    var names := SpreadingNames(f, ancestors, propagates);
    assert f.LinkedAt(ns.name);
    var below := Below(f, ns);
    r := AnyHolds(f, below, names);
    OverwritesWhen(w, newParent.name, ns.name, propagates, names, below, r);
  }

  method Below(f: Forest, ns: Namespace) returns (below: seq<Name>)
    requires f.Valid() && f.Has(ns)
    ensures forall d :: d in below <==> d == ns.name || d in Descendants(f.world.parents, ns.name)
    ensures f.Valid() && forall d | d in below :: d in f.namespaces
  {
    below := f.DescendantNames(ns);
    assert forall d :: d in below <==> d in Elems(below);
    assert f.LinkedAt(ns.name);
    below := below + [ns.name];
  }

  lemma OverwritesWhen(w: World, p: Name, n: Name, propagates: (Object, Labels) -> bool,
                       names: set<string>, below: seq<Name>, r: bool)
    requires w.Valid()
    requires forall x :: x in names <==> SpreadIn(w, AncestryOf(w.parents, p), x, propagates)
    requires forall d :: d in below <==> d == n || d in Descendants(w.parents, n)
    requires r <==> Holds(w, below, names)
    ensures r <==> Overwrites(w, p, n, propagates)
  {
    if r {
      var d, x :| d in below && d in w.data && x in w.data[d].sources && x in names;
      assert SpreadIn(w, AncestryOf(w.parents, p), x, propagates);
      var a :| a in AncestryOf(w.parents, p) && Spreads(w, a, x, propagates);
      AncestryMembers(w.parents, p, a);
    }
    if x, a, d :| Reaches(w.parents, p, a) && Spreads(w, a, x, propagates) &&
                  d in w.names && (d == n || d in Descendants(w.parents, n)) && x in w.data[d].sources {
      AncestryMembers(w.parents, p, a);
      assert SpreadIn(w, AncestryOf(w.parents, p), x, propagates);
      assert d in below;
    }
  }

  ghost predicate SpreadIn(w: World, s: seq<Name>, x: string, propagates: (Object, Labels) -> bool)
    requires w.Valid()
  {
    exists a | a in s :: Spreads(w, a, x, propagates)
  }

  ghost predicate Holds(w: World, below: seq<Name>, names: set<string>) {
    exists d, x :: d in below && d in w.data && x in w.data[d].sources && x in names
  }

  /** The names of the objects in these namespaces that would propagate. */
  method SpreadingNames(f: Forest, ancestors: seq<Name>, propagates: (Object, Labels) -> bool)
    returns (names: set<string>)
    requires f.Valid() && forall a | a in ancestors :: a in f.namespaces
    ensures f.Valid() && forall x :: x in names <==> SpreadIn(f.world, ancestors, x, propagates)
  {
    names := {};
    for i := 0 to |ancestors|
      invariant forall x :: x in names <==> SpreadIn(f.world, ancestors[..i], x, propagates)
    {
      var a := ancestors[i];
      assert f.MirrorsAt(a);
      var sources := f.namespaces[a].sources;
      TakeOne(ancestors, i);
      SpreadOneMore(f.world, ancestors[..i], a, names, propagates);
      names := names + set x | x in sources && propagates(sources[x], sources[x].labels);
    }
    assert ancestors[..|ancestors|] == ancestors;
  }

  lemma SpreadOneMore(w: World, s: seq<Name>, a: Name, names: set<string>, propagates: (Object, Labels) -> bool)
    requires w.Valid() && a in w.names && forall x :: x in names <==> SpreadIn(w, s, x, propagates)
    ensures var sources := w.data[a].sources;
            var more := set x | x in sources && propagates(sources[x], sources[x].labels);
            forall x :: x in names + more <==> SpreadIn(w, s + [a], x, propagates)
  {
    var sources := w.data[a].sources;
    var more := set x | x in sources && propagates(sources[x], sources[x].labels);
    forall x ensures x in names + more <==> SpreadIn(w, s + [a], x, propagates) {
      assert x in more <==> Spreads(w, a, x, propagates);
      if b :| b in s && Spreads(w, b, x, propagates) { assert b in s + [a]; }
      assert a in s + [a];
    }
  }

  method AnyHolds(f: Forest, below: seq<Name>, names: set<string>) returns (r: bool)
    requires f.Valid() && forall d | d in below :: d in f.namespaces
    ensures r <==> Holds(f.world, below, names)
  {
    for i := 0 to |below|
      invariant forall j, x | 0 <= j < i && x in names ::
                  below[j] in f.world.data && x !in f.world.data[below[j]].sources
    {
      assert f.MirrorsAt(below[i]);
      if x :| x in f.namespaces[below[i]].sources && x in names {
        return true;
      }
    }
    return false;
  }

  // ----- who must agree -----

  datatype CheckType = Authz | Missing

  datatype ServerCheck = ServerCheck(name: Name, checkType: CheckType)

  /** Which checks a move from cur to new needs once both exist: one on their most recent common
      ancestor, or, in different trees, one on the old root and one on the new parent. */
  ghost predicate MoveChecks(p: Parents, cur: Name, new_: Name, r: seq<ServerCheck>) {
    if exists x :: Common(p, cur, new_, x) then
      && |r| == 1 && r[0].checkType == Authz && Common(p, cur, new_, r[0].name)
      && forall x | Common(p, cur, new_, x) :: Reaches(p, r[0].name, x)
    else
      && |r| == 2 && r[0].checkType == Authz && r[1] == ServerCheck(new_, Authz)
      && Reaches(p, cur, r[0].name) && r[0].name !in p
  }

  /** Which checks a change of parent needs: none if nothing changes; the new parent's if there was no
      managed parent; that the old parent is really missing if the forest does not have it; and else
      the old root's, or those of a move. */
  ghost predicate ChecksFor(w: World, cur: Option<Name>, new_: Option<Name>, unmanaged: set<Name>,
                            r: seq<ServerCheck>) {
    if cur == new_ then r == []
    else if cur.None? || cur.value in unmanaged then r == if new_.None? then [] else [ServerCheck(new_.value, Authz)]
    else if cur.value !in w.present then r == [ServerCheck(cur.value, Missing)]
    else ChecksBetweenAre(w.parents, cur.value, new_, r)
  }

  /** e is where the walk up from n ends: at a root, or at the first namespace on a cycle that it meets. */
  ghost predicate EndsAt(p: Parents, n: Name, e: Name, k: nat) {
    && Steps(p, n, e, k) && (e !in p || OnCycle(p, e))
    && forall j: nat, m | j < k && Steps(p, n, m, j) :: m in p && !OnCycle(p, m)
  }

  ghost predicate EndOf(p: Parents, n: Name, e: Name) {
    exists k: nat :: EndsAt(p, n, e, k)
  }

  /** With or without cycles: the check on where the walk up from the old parent ends and, if that up from the
      new one ends elsewhere, one on the new parent; if both end there, one check on a common ancestor. */
  ghost predicate ChecksBetweenAre(p: Parents, cur: Name, new_: Option<Name>, r: seq<ServerCheck>) {
    if new_.None? then |r| == 1 && r[0].checkType == Authz && EndOf(p, cur, r[0].name)
    else
      && (if exists e :: EndOf(p, cur, e) && EndOf(p, new_.value, e)
          then |r| == 1 && r[0].checkType == Authz && Common(p, cur, new_.value, r[0].name)
          else
            && |r| == 2 && r[0].checkType == Authz && EndOf(p, cur, r[0].name)
            && r[1] == ServerCheck(new_.value, Authz))
      && (CycleFree(p, cur) && CycleFree(p, new_.value) ==> MoveChecks(p, cur, new_.value, r))
  }

  method GetServerChecks(f: Forest, cur: Namespace?, new_: Namespace?, unmanaged: set<Name>)
    returns (r: seq<ServerCheck>)
    requires f.Valid() && (cur != null ==> f.Has(cur)) && (new_ != null ==> f.Has(new_))
    ensures ChecksFor(f.world, NameOf(cur), NameOf(new_), unmanaged, r)
  {
    if cur == new_ {
      return [];
    }
    if cur == null || cur.name in unmanaged {
      return if new_ == null then [] else [ServerCheck(new_.name, Authz)];
    }
    assert f.MirrorsAt(cur.name);
    if !cur.present {
      return [ServerCheck(cur.name, Missing)];
    }
    r := ChecksBetween(f, cur, new_);
  }

  method ChecksBetween(f: Forest, cur: Namespace, new_: Namespace?) returns (r: seq<ServerCheck>)
    requires f.Valid() && f.Has(cur) && (new_ != null ==> f.Has(new_))
    ensures ChecksBetweenAre(f.world.parents, cur.name, NameOf(new_), r)
  {
    ghost var p := f.world.parents;
    var curChain := f.AncestryNames(cur);
    AncestryUnique(p, cur.name, curChain);
    EndIs(p, cur.name);
    if new_ == null {
      return [ServerCheck(curChain[0], Authz)];
    }
    var newChain := f.AncestryNames(new_);
    AncestryUnique(p, new_.name, newChain);
    SameEnd(p, cur.name, new_.name);
    if curChain[0] != newChain[0] {
      DifferentTrees(p, cur.name, new_.name);
      return [ServerCheck(curChain[0], Authz), ServerCheck(new_.name, Authz)];
    }
    ghost var k: nat;
    var mrca;
    mrca, k := LastCommon(curChain, newChain);
    OneTree(p, cur.name, new_.name, k);
    SharedIsCommon(p, cur.name, new_.name, k);
    r := [ServerCheck(mrca, Authz)];
  }

  /** The first entry of the ancestry is where the walk up ends, on cycles too. */
  lemma EndIs(p: Parents, n: Name)
    ensures EndOf(p, n, AncestryOf(p, n)[0])
  {
    var s := AncestryOf(p, n);
    AncestryIs(p, n);
    RepeatIsCycle(p, n);
    var i := 0;
    if s[0] in p {
      var x :| 0 <= x < |s[1..]| && s[1..][x] == s[0];
      i := x + 1;
      assert s[i] == s[0];
    }
    AncestrySteps(p, n, s, i);
    forall j: nat, m | j < |s| - 1 - i && Steps(p, n, m, j) ensures m in p && !OnCycle(p, m) {
      AncestrySteps(p, n, s, |s| - 1 - j);
      StepsUnique(p, n, m, s[|s| - 1 - j], j);
      if i > 0 {
        BeforeTheCycle(p, n, s, i, |s| - 1 - j);
      } else {
        AncestryMembers(p, n, m);
      }
    }
    assert EndsAt(p, n, s[0], |s| - 1 - i);
  }

  /** What stands behind the place where the first name repeats is not on the cycle. */
  lemma BeforeTheCycle(p: Parents, n: Name, s: seq<Name>, i: nat, x: nat)
    requires IsAncestry(p, n, s) && 0 < i < x < |s| && s[i] == s[0]
    ensures !OnCycle(p, s[x])
  {
    if OnCycle(p, s[x]) {
      AncestrySteps(p, s[x], s[..x + 1], i);
      CycleReturns(p, s[x], s[i]);
      var k: nat :| Steps(p, s[i], s[x], k);
      AncestryLoop(p, s, i);
      assert s[i] in s[..i + 1] by { assert s[..i + 1][i] == s[i]; }
      ClosedHolds(p, Elems(s[..i + 1]), s[i], s[x], k);
      assert false;
    }
  }

  lemma EndUnique(p: Parents, n: Name, d: Name, e: Name)
    requires EndOf(p, n, d) && EndOf(p, n, e)
    ensures d == e
  {
    var j: nat :| EndsAt(p, n, d, j);
    var k: nat :| EndsAt(p, n, e, k);
    assert j == k;
    StepsUnique(p, n, d, e, j);
  }

  lemma SameEnd(p: Parents, a: Name, b: Name)
    ensures AncestryOf(p, a)[0] == AncestryOf(p, b)[0] <==> exists e :: EndOf(p, a, e) && EndOf(p, b, e)
  {
    EndIs(p, a);
    EndIs(p, b);
    if e :| EndOf(p, a, e) && EndOf(p, b, e) {
      EndUnique(p, a, e, AncestryOf(p, a)[0]);
      EndUnique(p, b, e, AncestryOf(p, b)[0]);
    }
  }

  lemma SharedIsCommon(p: Parents, a: Name, b: Name, k: nat)
    requires var s, t := AncestryOf(p, a), AncestryOf(p, b); k < |s| && k < |t| && s[..k + 1] == t[..k + 1]
    ensures Common(p, a, b, AncestryOf(p, a)[k])
  {
    var s, t := AncestryOf(p, a), AncestryOf(p, b);
    assert s[k] == s[..k + 1][k] == t[..k + 1][k] == t[k];
    AncestryMembers(p, a, s[k]);
    AncestryMembers(p, b, s[k]);
  }

  lemma RootOf(p: Parents, n: Name)
    ensures Reaches(p, n, AncestryOf(p, n)[0]) && (CycleFree(p, n) ==> AncestryOf(p, n)[0] !in p)
  {
    AncestryMembers(p, n, AncestryOf(p, n)[0]);
    RepeatIsCycle(p, n);
  }

  lemma DifferentTrees(p: Parents, a: Name, b: Name)
    requires AncestryOf(p, a)[0] != AncestryOf(p, b)[0]
    ensures CycleFree(p, a) && CycleFree(p, b) ==>
              MoveChecks(p, a, b, [ServerCheck(AncestryOf(p, a)[0], Authz), ServerCheck(b, Authz)])
  {
    RootOf(p, a);
    if CycleFree(p, a) && CycleFree(p, b) {
      SameRoot(p, a, b);
    }
  }

  lemma OneTree(p: Parents, a: Name, b: Name, k: nat)
    requires var s, t := AncestryOf(p, a), AncestryOf(p, b);
             k < |s| && k < |t| && s[..k + 1] == t[..k + 1] && (k + 1 < |s| && k + 1 < |t| ==> s[k + 1] != t[k + 1])
    ensures CycleFree(p, a) && CycleFree(p, b) ==> MoveChecks(p, a, b, [ServerCheck(AncestryOf(p, a)[k], Authz)])
  {
    if CycleFree(p, a) && CycleFree(p, b) {
      LastAgreement(p, a, b, k);
    }
  }

  /** The last entry up to which both lists agree. */
  method LastCommon(s: seq<Name>, t: seq<Name>) returns (mrca: Name, ghost k: nat)
    requires |s| > 0 && |t| > 0 && s[0] == t[0]
    ensures k < |s| && k < |t| && s[..k + 1] == t[..k + 1] && mrca == s[k]
    ensures k + 1 < |s| && k + 1 < |t| ==> s[k + 1] != t[k + 1]
  {
    mrca, k := s[0], 0;
    var i := 1;
    while i < |s| && i < |t|
      invariant k + 1 == i && k < |s| && k < |t| && s[..i] == t[..i] && mrca == s[k]
    {
      if s[i] != t[i] {
        break;
      }
      mrca, k := s[i], i;
      i := i + 1;
    }
  }

  // ----- the whole check -----

  /** Looks both namespaces up and makes all checks that the forest alone can answer. */
  method CheckForest(f: Forest, nm: Name, parent: Name, unmanaged: set<Name>, propagates: (Object, Labels) -> bool)
    returns (v: Verdict, checks: seq<ServerCheck>)
    requires f.Valid() && Hierarchy.Inv(f.world) && nm != ""
    modifies f
    ensures f.Valid() && old(f.world).Valid() && f.world == Known(Known(old(f.world), nm), parent)
    ensures Checked(f.world, nm, Hierarchy.Optional(parent), unmanaged, propagates, v, checks)
  {
    Hierarchy.KnownKeeps(f.world, nm);
    var ns := f.Get(nm);
    Hierarchy.KnownKeeps(f.world, parent);
    var newParent := f.Get(parent);
    v, checks := CheckKnown(f, ns, newParent, unmanaged, propagates);
  }

  /** A change is allowed exactly when no check objects, and then the right server checks follow. */
  ghost predicate Checked(w: World, n: Name, q: Option<Name>, unmanaged: set<Name>,
                          propagates: (Object, Labels) -> bool, v: Verdict, checks: seq<ServerCheck>) {
    && w.Valid() && n in w.names
    && (v == Allow <==> n in w.present && ParentAllowed(w, n, q, propagates)
                        && forall r | Conditions.IsHaltedRoot(w, n, r) :: r == "" || r == n)
    && (v == Allow ==> ChecksFor(w, ParentName(w.parents, n), q, unmanaged, checks))
    && (v != Allow ==> checks == [])
  }

  method CheckKnown(f: Forest, ns: Namespace, newParent: Namespace?, unmanaged: set<Name>,
                    propagates: (Object, Labels) -> bool)
    returns (v: Verdict, checks: seq<ServerCheck>)
    requires f.Valid() && Hierarchy.Inv(f.world) && f.Has(ns) && (newParent != null ==> f.Has(newParent))
    ensures Checked(f.world, ns.name, NameOf(newParent), unmanaged, propagates, v, checks)
  {
    checks := [];
    v := CheckNS(f, ns);
    if v == Allow {
      v := CheckParent(f, ns, ns.parent, newParent, propagates);
    }
    if v == Allow {
      assert f.LinkedAt(ns.name);
      if ns.name in f.world.parents { assert f.LinkedAt(f.world.parents[ns.name]); }
      checks := GetServerChecks(f, ns.parent, newParent, unmanaged);
    }
  }

  // ----- runs of checked changes -----

  /** The step makes no change of parent that the structural check would refuse on the forest at hand. */
  ghost predicate PassesCheck(w: World, e: Hierarchy.Event) {
    e.Synced? ==>
      var q := Hierarchy.NewParent(Hierarchy.WantedParent(e.config), Hierarchy.IsExternal(e.config));
      q.None? || q == ParentName(w.parents, e.name) || !OnCycle(w.parents[e.name := q.value], e.name)
  }

  /** What the check allows passes. */
  lemma AllowedPasses(w: World, e: Hierarchy.Event, propagates: (Object, Labels) -> bool)
    requires w.Valid() && e.Synced? && e.name in w.names
    requires var q := Hierarchy.NewParent(Hierarchy.WantedParent(e.config), Hierarchy.IsExternal(e.config));
             ParentAllowed(w, e.name, q, propagates)
    ensures PassesCheck(w, e)
  {
  }

  lemma StepStaysAcyclic(w: World, e: Hierarchy.Event)
    requires Hierarchy.Inv(w) && Acyclic(w.parents) && PassesCheck(w, e)
    ensures Acyclic(Hierarchy.Step(w, e).parents)
  {
    match e
    case Synced(n, c, unmanaged) =>
      if n != "" {
        Hierarchy.SyncKeeps(w, n, c, unmanaged);
        OffCycle(w.parents, Hierarchy.Step(w, e).parents, n);
        NoNewCycle(w.parents, Hierarchy.Step(w, e).parents, n);
      }
    case Missing(n) =>
      if n != "" {
        Hierarchy.GoneOff(w, n);
        NoNewCycle(w.parents, Hierarchy.Gone(w, n).parents, n);
      }
    case _ =>
  }

  lemma OffCycle(p: Parents, q: Parents, n: Name)
    requires Acyclic(p) && AgreeOff(p, q, n)
    requires var h := ParentName(q, n);
             h.None? || h == ParentName(p, n) || !OnCycle(p[n := h.value], n)
    ensures !OnCycle(q, n)
  {
    if n in q {
      if n in p && p[n] == q[n] {
        assert p == q;
      } else {
        assert p[n := q[n]] == q;
      }
    }
  }

  ghost predicate AllPass(w: World, events: seq<Hierarchy.Event>)
    requires Hierarchy.Inv(w)
    decreases |events|
  {
    if events == [] then true
    else
      Hierarchy.StepKeeps(w, events[0]);
      PassesCheck(w, events[0]) && AllPass(Hierarchy.Step(w, events[0]), events[1..])
  }

  /** Every run whose changes of parent pass the check on the forest at hand keeps it free of cycles. */
  lemma {:induction false} RunStaysAcyclic(w: World, events: seq<Hierarchy.Event>, v: World)
    requires Hierarchy.Inv(w) && Acyclic(w.parents) && Hierarchy.Leads(w, events, v) && AllPass(w, events)
    ensures Acyclic(v.parents)
    decreases |events|
  {
    if events != [] {
      Hierarchy.StepKeeps(w, events[0]);
      StepStaysAcyclic(w, events[0]);
      RunStaysAcyclic(Hierarchy.Step(w, events[0]), events[1..], v);
    }
  }
}
