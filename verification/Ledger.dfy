/** The bookkeeping of hierarchical usage: a usage per namespace, and per namespace a cached total of
    the usages below it. Which namespaces count towards which is given by a list per namespace, and
    which resources are kept by a set per namespace, both fixed. */
module Ledger {
  import opened Ancestry
  import opened Resources
  import opened Sums

  type Lists = map<Name, seq<Name>>
  type Kept = map<Name, set<Resource>>
  type Usages = map<Name, ResourceList>

  datatype Books = Books(local: Usages, subtree: Usages)

  /** Every namespace has a usage, a total, a list within the namespaces, and a set of resources. */
  ghost predicate Proper(ls: Lists, lims: Kept, b: Books) {
    && ls.Keys == lims.Keys == b.local.Keys == b.subtree.Keys
    && forall n, a | n in ls && a in ls[n] :: a in ls
  }

  // ----- totals -----

  /** What m's usage of r adds to a: the usage, once for each time a occurs in m's list. */
  ghost function Share(s: seq<Name>, u: ResourceList, a: Name, r: Resource): int {
    Times(multiset(s)[a], Val(u, r))
  }

  ghost function Shares(ls: Lists, local: Usages, a: Name, r: Resource): map<Name, int> {
    map m | m in local && m in ls :: Share(ls[m], local[m], a, r)
  }

  /** The usage of r counted towards a, from scratch. */
  ghost function Total(ls: Lists, local: Usages, a: Name, r: Resource): int {
    Sum(Shares(ls, local, a, r))
  }

  /** The cached total agrees with the sum for every resource kept, and is zero for the others. */
  ghost predicate Consistent(ls: Lists, lims: Kept, b: Books)
    requires Proper(ls, lims, b)
  {
    forall a, r | a in ls :: Val(b.subtree[a], r) == if r in lims[a] then Total(ls, b.local, a, r) else 0
  }

  // ----- a change of usage -----

  /** One total after a change: the sum, restricted to the resources kept. */
  function Changed(delta: ResourceList, subtree: ResourceList, names: set<Resource>): ResourceList {
    Masked(Plus(delta, subtree), names)
  }

  lemma ChangedValue(delta: ResourceList, subtree: ResourceList, names: set<Resource>, r: Resource)
    ensures Val(Changed(delta, subtree, names), r) == if r in names then Val(delta, r) + Val(subtree, r) else 0
    ensures r in Changed(delta, subtree, names) <==> r in names && (r in delta || r in subtree)
  {
  }

  /** Apply a change to each name of a list in turn. */
  ghost function Bump(t: Usages, s: seq<Name>, delta: ResourceList, lims: Kept): (v: Usages)
    requires forall x | x in s :: x in t && x in lims
    ensures v.Keys == t.Keys
    decreases |s|
  {
    if s == [] then t
    else
      var front, x := s[..|s| - 1], s[|s| - 1];
      assert forall y | y in front :: y in s;
      var b := Bump(t, front, delta, lims);
      b[x := Changed(delta, b[x], lims[x])]
  }

  lemma CountLast(s: seq<Name>, a: Name)
    requires s != []
    ensures var front, x := s[..|s| - 1], s[|s| - 1];
            && multiset(s)[a] == multiset(front)[a] + (if a == x then 1 else 0)
            && (a in s <==> a in front || a == x) && (a !in front ==> multiset(front)[a] == 0)
  {
    assert s == s[..|s| - 1] + [s[|s| - 1]];
  }

  lemma {:induction false} BumpValue(t: Usages, s: seq<Name>, delta: ResourceList, lims: Kept, a: Name, r: Resource)
    requires forall x | x in s :: x in t && x in lims
    requires a in t && a in lims
    ensures Val(Bump(t, s, delta, lims)[a], r) ==
            if a !in s then Val(t[a], r)
            else if r in lims[a] then Val(t[a], r) + Times(multiset(s)[a], Val(delta, r))
            else 0
    decreases |s|
  {
    if s != [] {
      var front, x := s[..|s| - 1], s[|s| - 1];
      CountLast(s, a);
      BumpValue(t, front, delta, lims, a, r);
      if a == x {
        ChangedValue(delta, Bump(t, front, delta, lims)[a], lims[a], r);
      }
    }
  }

  lemma {:induction false} BumpTracks(t: Usages, s: seq<Name>, delta: ResourceList, lims: Kept, a: Name, r: Resource)
    requires forall x | x in s :: x in t && x in lims
    requires a in t && a in lims && r in lims[a] && r in t[a]
    ensures r in Bump(t, s, delta, lims)[a]
    decreases |s|
  {
    if s != [] {
      var front := s[..|s| - 1];
      BumpTracks(t, front, delta, lims, a, r);
      ChangedValue(delta, Bump(t, front, delta, lims)[a], lims[a], r);
    }
  }

  /** Set the usage of n to u and pass the change on to every name of n's list. */
  ghost function Use(ls: Lists, lims: Kept, b: Books, n: Name, u: ResourceList): (c: Books)
    requires Proper(ls, lims, b) && n in ls
    ensures Proper(ls, lims, c)
  {
    var usage := Masked(u, lims[n]);
    if usage == b.local[n] then b
    else Books(b.local[n := usage], Bump(b.subtree, ls[n], Minus(usage, b.local[n]), lims))
  }

  lemma UseLocal(ls: Lists, lims: Kept, b: Books, n: Name, u: ResourceList)
    requires Proper(ls, lims, b) && n in ls
    ensures Use(ls, lims, b, n, u).local == b.local[n := Masked(u, lims[n])]
  {
  }

  /** One usage changes, so each total changes by that change times the occurrences. */
  lemma TotalChange(ls: Lists, local: Usages, n: Name, u: ResourceList, a: Name, r: Resource)
    requires ls.Keys == local.Keys && n in ls
    ensures Total(ls, local[n := u], a, r) ==
            Total(ls, local, a, r) + Times(multiset(ls[n])[a], Val(u, r) - Val(local[n], r))
  {
    var m := Shares(ls, local, a, r);
    assert Shares(ls, local[n := u], a, r) == m[n := Share(ls[n], u, a, r)];
    SumChange(m, n, Share(ls[n], u, a, r));
    TimesDifference(multiset(ls[n])[a], Val(u, r), Val(local[n], r));
  }

  lemma MinusValue(a: ResourceList, b: ResourceList, r: Resource)
    ensures Val(Minus(a, b), r) == Val(a, r) - Val(b, r)
  {
  }

  /** The total of r at a after a change of usage at n. */
  lemma UseValue(ls: Lists, lims: Kept, b: Books, n: Name, u: ResourceList, a: Name, r: Resource)
    requires Proper(ls, lims, b) && n in ls && a in ls
    ensures var c := Use(ls, lims, b, n, u);
            var usage := Masked(u, lims[n]);
            Val(c.subtree[a], r) ==
            if usage == b.local[n] || a !in ls[n] then Val(b.subtree[a], r)
            else if r in lims[a]
            then Val(b.subtree[a], r) + Times(multiset(ls[n])[a], Val(usage, r) - Val(b.local[n], r))
            else 0
  {
    var usage := Masked(u, lims[n]);
    if usage != b.local[n] {
      BumpValue(b.subtree, ls[n], Minus(usage, b.local[n]), lims, a, r);
      MinusValue(usage, b.local[n], r);
    }
  }

  lemma UseTotal(ls: Lists, lims: Kept, b: Books, n: Name, u: ResourceList, a: Name, r: Resource)
    requires Proper(ls, lims, b) && n in ls
    ensures Total(ls, Use(ls, lims, b, n, u).local, a, r) ==
            Total(ls, b.local, a, r) + Times(multiset(ls[n])[a], Val(Masked(u, lims[n]), r) - Val(b.local[n], r))
  {
    UseLocal(ls, lims, b, n, u);
    TotalChange(ls, b.local, n, Masked(u, lims[n]), a, r);
  }

  /** A change of usage moves a kept total and its cached value alike. */
  lemma UseShifts(ls: Lists, lims: Kept, b: Books, n: Name, u: ResourceList, a: Name, r: Resource)
    requires Proper(ls, lims, b) && n in ls && a in ls && r in lims[a]
    ensures var c := Use(ls, lims, b, n, u);
            Val(c.subtree[a], r) - Total(ls, c.local, a, r) == Val(b.subtree[a], r) - Total(ls, b.local, a, r)
  {
    UseValue(ls, lims, b, n, u, a, r);
    UseTotal(ls, lims, b, n, u, a, r);
    var x := Val(Masked(u, lims[n]), r) - Val(b.local[n], r);
    if a !in ls[n] {
      assert Times(multiset(ls[n])[a], x) == Times(0, x) == 0;
    } else if Masked(u, lims[n]) == b.local[n] {
      TimesZero(multiset(ls[n])[a]);
    }
  }

  lemma UseRefinesAt(ls: Lists, lims: Kept, b: Books, n: Name, u: ResourceList, a: Name, r: Resource)
    requires Proper(ls, lims, b) && n in ls && a in ls
    requires Val(b.subtree[a], r) == if r in lims[a] then Total(ls, b.local, a, r) else 0
    ensures var c := Use(ls, lims, b, n, u);
            Val(c.subtree[a], r) == if r in lims[a] then Total(ls, c.local, a, r) else 0
  {
    if r in lims[a] {
      UseShifts(ls, lims, b, n, u, a, r);
    } else {
      UseValue(ls, lims, b, n, u, a, r);
    }
  }

  /** The incremental update refines the sum from scratch, whatever the lists repeat. */
  lemma UseRefines(ls: Lists, lims: Kept, b: Books, n: Name, u: ResourceList)
    requires Proper(ls, lims, b) && n in ls && Consistent(ls, lims, b)
    ensures Consistent(ls, lims, Use(ls, lims, b, n, u))
  {
    var c := Use(ls, lims, b, n, u);
    forall a, r | a in ls
      ensures Val(c.subtree[a], r) == if r in lims[a] then Total(ls, c.local, a, r) else 0
    {
      UseRefinesAt(ls, lims, b, n, u, a, r);
    }
  }

  lemma OnceInDistinct(s: seq<Name>, a: Name)
    requires Distinct(s) && a in s
    ensures multiset(s)[a] == 1
  {
    var i :| 0 <= i < |s| && s[i] == a;
    assert s == s[..i] + [a] + s[i + 1..];
    assert a !in s[..i] && a !in s[i + 1..];
  }

  /** Where n's list names a once or twice and no fewer resources are kept at n than there, a total
      moves by the change of usage asked for, once or twice. */
  lemma UseCounted(ls: Lists, lims: Kept, b: Books, n: Name, u: ResourceList, a: Name, r: Resource)
    requires Proper(ls, lims, b) && n in ls && a in ls[n] && r in lims[a] && lims[a] <= lims[n]
    requires multiset(ls[n])[a] == 1 || multiset(ls[n])[a] == 2
    ensures Val(Use(ls, lims, b, n, u).subtree[a], r) ==
            Val(b.subtree[a], r) + Counted(multiset(ls[n])[a], Val(u, r) - Val(b.local[n], r))
  {
    UseValue(ls, lims, b, n, u, a, r);
    assert Val(Masked(u, lims[n]), r) == Val(u, r);
    TimesFew(multiset(ls[n])[a], Val(u, r) - Val(b.local[n], r));
  }

  lemma UseTracks(ls: Lists, lims: Kept, b: Books, n: Name, u: ResourceList, a: Name, r: Resource)
    requires Proper(ls, lims, b) && n in ls && a in ls && r in lims[a] && r in b.subtree[a]
    ensures r in Use(ls, lims, b, n, u).subtree[a]
  {
    var usage := Masked(u, lims[n]);
    if usage != b.local[n] {
      BumpTracks(b.subtree, ls[n], Minus(usage, b.local[n]), lims, a, r);
    }
  }

  // ----- from scratch -----

  /** The resources some namespace counted towards a has an entry for. */
  ghost function Entries(ls: Lists, local: Usages, a: Name): set<Resource> {
    set m, r | m in local && m in ls && a in ls[m] && r in local[m] :: r
  }

  /** The total of a from scratch, restricted to the resources kept. */
  ghost function Exact(ls: Lists, lims: Kept, local: Usages, a: Name): ResourceList
    requires a in lims
  {
    map r | r in Entries(ls, local, a) && r in lims[a] :: Total(ls, local, a, r)
  }

  lemma TotalWithoutEntries(ls: Lists, local: Usages, a: Name, r: Resource)
    requires r !in Entries(ls, local, a)
    ensures Total(ls, local, a, r) == 0
  {
    forall m | m in Shares(ls, local, a, r) ensures Shares(ls, local, a, r)[m] == 0 {
      if a in ls[m] {
        assert r !in local[m];
        TimesZero(multiset(ls[m])[a]);
      } else {
        assert multiset(ls[m])[a] == 0;
      }
    }
    SumZero(Shares(ls, local, a, r));
  }

  ghost function Rectified(ls: Lists, lims: Kept, b: Books): (c: Books)
    requires Proper(ls, lims, b)
    ensures Proper(ls, lims, c)
  {
    Books(b.local, map a | a in ls :: Exact(ls, lims, b.local, a))
  }

  /** From any totals at all, rectification makes them right. */
  lemma RectifiedConsistent(ls: Lists, lims: Kept, b: Books)
    requires Proper(ls, lims, b)
    ensures Consistent(ls, lims, Rectified(ls, lims, b))
  {
    forall a, r | a in ls
      ensures Val(Exact(ls, lims, b.local, a), r) == if r in lims[a] then Total(ls, b.local, a, r) else 0
    {
      if r !in Entries(ls, b.local, a) {
        TotalWithoutEntries(ls, b.local, a, r);
      }
    }
  }

  /** Where the totals are right already, rectification changes no value, only which zeros are listed. */
  lemma RectifiedSameValues(ls: Lists, lims: Kept, b: Books, a: Name, r: Resource)
    requires Proper(ls, lims, b) && Consistent(ls, lims, b) && a in ls
    ensures Val(Rectified(ls, lims, b).subtree[a], r) == Val(b.subtree[a], r)
    ensures r in Rectified(ls, lims, b).subtree[a] <==> r in lims[a] && r in Entries(ls, b.local, a)
  {
    RectifiedConsistent(ls, lims, b);
  }

  // ----- computing totals in one pass -----

  /** The entry of a, or no usage. */
  function At(t: Usages, a: Name): ResourceList {
    if a in t then t[a] else map[]
  }

  /** Add a usage to the entry of each name of a list in turn. */
  ghost function Spread(t: Usages, s: seq<Name>, u: ResourceList): Usages
    decreases |s|
  {
    if s == [] then t
    else
      var x, b := s[|s| - 1], Spread(t, s[..|s| - 1], u);
      b[x := Plus(At(b, x), u)]
  }

  lemma {:induction false} SpreadAt(t: Usages, s: seq<Name>, u: ResourceList, a: Name, r: Resource)
    ensures Val(At(Spread(t, s, u), a), r) == Val(At(t, a), r) + Times(multiset(s)[a], Val(u, r))
    ensures r in At(Spread(t, s, u), a) <==> r in At(t, a) || (a in s && r in u)
    decreases |s|
  {
    if s != [] {
      var front, x := s[..|s| - 1], s[|s| - 1];
      assert s == front + [x];
      SpreadAt(t, front, u, a, r);
      assert multiset(s)[a] == multiset(front)[a] + (if a == x then 1 else 0);
    }
  }

  /** The entries hold the totals of the usages counted so far. */
  ghost predicate Tallied(t: Usages, ls: Lists, local: Usages) {
    forall a, r :: TalliedAt(t, ls, local, a, r)
  }

  ghost predicate TalliedAt(t: Usages, ls: Lists, local: Usages, a: Name, r: Resource) {
    && Val(At(t, a), r) == Total(ls, local, a, r)
    && (r in At(t, a) <==> r in Entries(ls, local, a))
  }

  lemma TallyNone(ls: Lists)
    ensures Tallied(map[], ls, map[])
  {
    forall a, r ensures TalliedAt(map[], ls, map[], a, r) {
      TotalWithoutEntries(ls, map[], a, r);
    }
  }

  lemma EntriesOneMore(ls: Lists, local: Usages, m: Name, u: ResourceList, a: Name, r: Resource)
    requires m !in local && m in ls
    ensures r in Entries(ls, local[m := u], a) <==> r in Entries(ls, local, a) || (a in ls[m] && r in u)
  {
    var local' := local[m := u];
    if r in Entries(ls, local', a) {
      var k :| k in local' && k in ls && a in ls[k] && r in local'[k];
      assert k != m ==> k in local && r in local[k];
    }
    if r in Entries(ls, local, a) {
      var k :| k in local && k in ls && a in ls[k] && r in local[k];
      assert k in local' && r in local'[k];
    }
    if a in ls[m] && r in u {
      assert m in local' && r in local'[m];
    }
  }

  lemma TotalOneMore(ls: Lists, local: Usages, m: Name, u: ResourceList, a: Name, r: Resource)
    requires m !in local && m in ls
    ensures Total(ls, local[m := u], a, r) == Total(ls, local, a, r) + Share(ls[m], u, a, r)
  {
    var x, y := Shares(ls, local, a, r), Shares(ls, local[m := u], a, r);
    assert y == x[m := Share(ls[m], u, a, r)];
    SumTake(y, m);
    assert y - {m} == x;
  }

  lemma TallyOneMore(t: Usages, ls: Lists, local: Usages, m: Name, u: ResourceList)
    requires Tallied(t, ls, local) && m !in local && m in ls
    ensures Tallied(Spread(t, ls[m], u), ls, local[m := u])
  {
    var t', local' := Spread(t, ls[m], u), local[m := u];
    forall a, r ensures TalliedAt(t', ls, local', a, r) {
      assert TalliedAt(t, ls, local, a, r);
      SpreadAt(t, ls[m], u, a, r);
      TotalOneMore(ls, local, m, u, a, r);
      EntriesOneMore(ls, local, m, u, a, r);
    }
  }

  lemma TallyExact(t: Usages, ls: Lists, lims: Kept, local: Usages, a: Name)
    requires Tallied(t, ls, local) && a in lims
    ensures Masked(At(t, a), lims[a]) == Exact(ls, lims, local, a)
  {
    var x, y := Masked(At(t, a), lims[a]), Exact(ls, lims, local, a);
    forall r ensures r in x <==> r in y {
      assert TalliedAt(t, ls, local, a, r);
    }
    forall r | r in x ensures x[r] == y[r] {
      assert TalliedAt(t, ls, local, a, r);
    }
  }

  // ----- changing the lists -----

  /** m's usage of every resource is zero. */
  ghost predicate Idle(local: Usages, m: Name) {
    m in local && forall r :: Val(local[m], r) == 0
  }

  /** The lists and kept resources change only in d, and d holds everything that counts towards it. */
  ghost predicate ChangedWithin(ls: Lists, lims: Kept, ls': Lists, lims': Kept, d: set<Name>) {
    && ls.Keys == ls'.Keys == lims.Keys == lims'.Keys
    && (forall m | m in ls && m !in d :: ls[m] == ls'[m] && lims[m] == lims'[m])
    && (forall m, a | m in ls && m !in d && a in ls[m] :: a !in d)
  }

  lemma IdleChange(ls: Lists, lims: Kept, ls': Lists, lims': Kept, d: set<Name>, local: Usages, a: Name, r: Resource)
    requires ChangedWithin(ls, lims, ls', lims', d) && local.Keys == ls.Keys
    requires forall m | m in ls && m in d :: Idle(local, m)
    ensures Total(ls', local, a, r) == Total(ls, local, a, r)
    ensures a in d ==> Total(ls, local, a, r) == 0
  {
    var s, s' := Shares(ls, local, a, r), Shares(ls', local, a, r);
    forall m | m in ls ensures s[m] == s'[m] && (a in d ==> s[m] == 0) {
      if m in d {
        assert Idle(local, m) && Val(local[m], r) == 0;
        TimesZero(multiset(ls[m])[a]);
        TimesZero(multiset(ls'[m])[a]);
      } else if a in d {
        assert multiset(ls[m])[a] == 0;
      }
    }
    assert s == s';
    if a in d { SumZero(s); }
  }

  /** Lists may change where everything concerned is idle. */
  lemma IdleChangeConsistent(ls: Lists, lims: Kept, ls': Lists, lims': Kept, d: set<Name>, b: Books)
    requires Proper(ls, lims, b) && Proper(ls', lims', b) && Consistent(ls, lims, b)
    requires ChangedWithin(ls, lims, ls', lims', d)
    requires forall m | m in ls && m in d :: Idle(b.local, m)
    ensures Consistent(ls', lims', b)
  {
    forall a, r | a in ls'
      ensures Val(b.subtree[a], r) == if r in lims'[a] then Total(ls', b.local, a, r) else 0
    {
      IdleChange(ls, lims, ls', lims', d, b.local, a, r);
    }
  }

  /** A namespace that counts towards nothing else, and towards which nothing else counts, can go. */
  lemma DropConsistent(ls: Lists, lims: Kept, b: Books, o: Name)
    requires Proper(ls, lims, b) && Consistent(ls, lims, b) && o in ls
    requires ls[o] == [o] && forall m | m in ls && m != o :: o !in ls[m]
    ensures var c := Books(b.local - {o}, b.subtree - {o});
            Proper(ls - {o}, lims - {o}, c) && Consistent(ls - {o}, lims - {o}, c)
  {
    var c := Books(b.local - {o}, b.subtree - {o});
    forall a, r | a in ls && a != o
      ensures Val(c.subtree[a], r) == if r in lims[a] then Total(ls - {o}, c.local, a, r) else 0
    {
      DropTotal(ls, b.local, o, a, r);
    }
  }

  /** Nor does it matter if one with nothing used comes. */
  lemma AddConsistent(ls: Lists, lims: Kept, b: Books, o: Name)
    requires Proper(ls, lims, b) && o in ls && b.local[o] == map[] && b.subtree[o] == map[]
    requires ls[o] == [o] && forall m | m in ls && m != o :: o !in ls[m]
    requires Proper(ls - {o}, lims - {o}, Books(b.local - {o}, b.subtree - {o}))
    requires Consistent(ls - {o}, lims - {o}, Books(b.local - {o}, b.subtree - {o}))
    ensures Consistent(ls, lims, b)
  {
    forall a, r | a in ls ensures Val(b.subtree[a], r) == if r in lims[a] then Total(ls, b.local, a, r) else 0 {
      if a == o {
        assert r !in Entries(ls, b.local, o);
        TotalWithoutEntries(ls, b.local, o, r);
      } else {
        DropTotal(ls, b.local, o, a, r);
        assert Val((b.subtree - {o})[a], r) == Val(b.subtree[a], r);
      }
    }
  }

  /** The usage of r by the namespaces of d. */
  ghost function UsageWithin(local: Usages, d: set<Name>, r: Resource): int {
    Sum(map m | m in local :: if m in d then Val(local[m], r) else 0)
  }

  /** When the members of d stop counting towards a, a's total falls by their usage. */
  lemma LeavingChanges(ls: Lists, ls': Lists, d: set<Name>, local: Usages, a: Name, r: Resource)
    requires ls.Keys == ls'.Keys == local.Keys
    requires forall m | m in ls && m !in d :: ls[m] == ls'[m]
    requires forall m | m in ls && m in d :: multiset(ls[m])[a] == 1 && multiset(ls'[m])[a] == 0
    ensures Total(ls, local, a, r) == Total(ls', local, a, r) + UsageWithin(local, d, r)
  {
    var x, z := Shares(ls', local, a, r), Shares(ls, local, a, r);
    var y: map<Name, int> := map m | m in local :: if m in d then Val(local[m], r) else 0;
    forall m | m in local ensures z[m] == x[m] + y[m] {
      if m in d {
        assert Times(1, Val(local[m], r)) == Times(0, Val(local[m], r)) + Val(local[m], r);
      }
    }
    SumAdd(x, y, z);
  }

  /** When exactly the members of d count towards a, and once, a's total is their usage. */
  lemma TotalWithin(ls: Lists, local: Usages, d: set<Name>, a: Name, r: Resource)
    requires ls.Keys == local.Keys
    requires forall m | m in ls :: multiset(ls[m])[a] == if m in d then 1 else 0
    ensures Total(ls, local, a, r) == UsageWithin(local, d, r)
  {
    var x := Shares(ls, local, a, r);
    var y: map<Name, int> := map m | m in local :: if m in d then Val(local[m], r) else 0;
    forall m | m in local ensures x[m] == y[m] {
      if m in d { TimesFew(1, Val(local[m], r)); }
    }
    assert x == y;
  }

  /** Where n counts towards itself once and has used nothing, a usage is added to what is cached, if it is
      kept; if none of it is kept, nothing changes. */
  lemma UseFromNothing(ls: Lists, lims: Kept, b: Books, n: Name, u: ResourceList, r: Resource)
    requires Proper(ls, lims, b) && n in ls && b.local[n] == map[] && n in ls[n] && multiset(ls[n])[n] == 1
    ensures var c := Use(ls, lims, b, n, u);
            && (r in lims[n] ==> Total(ls, c.local, n, r) == Total(ls, b.local, n, r) + Val(u, r))
            && Val(c.subtree[n], r) ==
               if r in lims[n] then Val(b.subtree[n], r) + Val(u, r)
               else if Masked(u, lims[n]) == map[] then Val(b.subtree[n], r)
               else 0
  {
    UseValue(ls, lims, b, n, u, n, r);
    UseTotal(ls, lims, b, n, u, n, r);
    TimesFew(1, Val(Masked(u, lims[n]), r));
    assert r in lims[n] ==> Val(Masked(u, lims[n]), r) == Val(u, r);
  }

  lemma SameCounts(before: Lists, after: Lists, local: Usages, a: Name, r: Resource)
    requires before.Keys == after.Keys
    requires forall m | m in before :: multiset(before[m])[a] == multiset(after[m])[a]
    ensures Total(before, local, a, r) == Total(after, local, a, r)
  {
    assert Shares(before, local, a, r) == Shares(after, local, a, r);
  }

  lemma DropTotal(ls: Lists, local: Usages, o: Name, a: Name, r: Resource)
    requires ls.Keys == local.Keys && o in ls && ls[o] == [o] && a != o
    ensures Total(ls - {o}, local - {o}, a, r) == Total(ls, local, a, r)
  {
    var s := Shares(ls, local, a, r);
    assert Shares(ls - {o}, local - {o}, a, r) == s - {o};
    assert multiset([o])[a] == 0;
    SumTake(s, o);
  }

  lemma UsageWithout(local: Usages, d: set<Name>, n: Name, u: ResourceList, r: Resource)
    requires n in local && Val(u, r) == 0
    ensures UsageWithin(local[n := u], d, r) == UsageWithin(local, d - {n}, r)
  {
    var c := local[n := u];
    var x: map<Name, int> := map m | m in c :: if m in d then Val(c[m], r) else 0;
    var y: map<Name, int> := map m | m in local :: if m in d - {n} then Val(local[m], r) else 0;
    assert x == y;
  }
}
