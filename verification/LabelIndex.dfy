/** The labels of a whole forest: when they are as the last sync would leave them, what that makes them
    say of the tree, and what syncing one namespace does to the others. */
module LabelIndex {
  import opened Ancestry
  import opened Structure
  import opened Strings
  import opened World
  import opened Decimal
  import opened LabelWalk
  import Hierarchy

  /** The labels are neither managed nor about the tree. */
  ghost predicate Clean(l: Labels, isManaged: string -> bool) {
    forall k | k in l :: !isManaged(k) && !HasSuffix(k, TREE_DEPTH_SUFFIX)
  }

  /** n has the labels that a sync of n gives it: some of its own, and what the walk up adds. */
  ghost predicate LabelSynced(w: World, n: Name, isManaged: string -> bool)
    requires w.Valid() && n in w.names
  {
    exists l, k: nat :: SyncedFrom(w, n, isManaged, l, k)
  }

  ghost predicate SyncedFrom(w: World, n: Name, isManaged: string -> bool, l: Labels, k: nat)
    requires w.Valid() && n in w.names
  {
    && Clean(l, isManaged) && Hierarchy.Stops(w.parents, Hierarchy.Halts(w), n, k)
    && w.data[n].labels == Walked(w, l, n, 0, k)
  }

  /** Namespaces record only managed labels, and managed labels are never tree labels. */
  ghost predicate ManagedOnly(w: World, isManaged: string -> bool)
    requires w.Valid()
  {
    && (forall n, k | n in w.names && k in w.data[n].managed :: isManaged(k))
    && forall k | isManaged(k) :: !Contains(k, TREE_DEPTH_SUFFIX)
  }

  // ----- the tree labels index the tree -----

  /** No namespace is halted or external. */
  ghost predicate Plain(w: World)
    requires w.Valid()
  {
    forall n | n in w.names :: !w.data[n].Halted() && !w.data[n].External()
  }

  lemma {:induction false} PlainGetsTo(w: World, n: Name, a: Name, j: nat)
    requires w.Valid() && Plain(w) && n in w.names
    ensures GetsTo(w, n, a, j) <==> Steps(w.parents, n, a, j)
    decreases j
  {
    if j > 0 && n in w.parents { PlainGetsTo(w, w.parents[n], a, j - 1); }
  }

  lemma {:induction false} WalkEnd(w: World, n: Name, k: nat) returns (e: Name, je: nat)
    requires w.Valid() && n in w.names && Hierarchy.Stops(w.parents, Hierarchy.Halts(w), n, k)
    ensures GetsTo(w, n, e, je) && !GoesOn(w, e) && e in w.names
    decreases k
  {
    if GoesOn(w, n) {
      e, je := WalkEnd(w, w.parents[n], k - 1);
      je := je + 1;
    } else {
      e, je := n, 0;
    }
  }

  /** What the tree label of a says on n. */
  ghost predicate Indexed(w: World, n: Name, a: Name)
    requires n in w.data
  {
    && (TreeKey(a) in w.data[n].labels <==> n == a || n in Descendants(w.parents, a))
    && forall j: nat | Steps(w.parents, n, a, j) ::
         TreeKey(a) in w.data[n].labels && w.data[n].labels[TreeKey(a)] == Itoa(j)
         && Atoi(w.data[n].labels[TreeKey(a)]) == j
  }

  /** A synced namespace has a's label exactly when it is a or below a, and its value is the distance. */
  lemma TreeIndex(w: World, n: Name, a: Name, isManaged: string -> bool)
    requires w.Valid() && Plain(w) && ManagedOnly(w, isManaged) && n in w.names && LabelSynced(w, n, isManaged)
    ensures Indexed(w, n, a)
  {
    var l, k: nat :| SyncedFrom(w, n, isManaged, l, k);
    var e, je := WalkEnd(w, n, k);
    TreeKeySuffix(a);
    WalkedTree(w, l, n, 0, k, e, je, TreeKey(a));
    ReachesCases(w.parents, n, a);
    if b, j: nat :| GetsTo(w, n, b, j) && TreeKey(b) == TreeKey(a) {
      TreeKeyInjective(b, a);
      PlainGetsTo(w, n, a, j);
    }
    forall j: nat | Steps(w.parents, n, a, j)
      ensures GetsTo(w, n, a, j) && Atoi(Itoa(j)) == j
    {
      PlainGetsTo(w, n, a, j);
      RoundTrip(j);
    }
  }

  // ----- when others stay synced -----

  /** The forests differ at most in conditions that are no halts, in managed labels, and in the labels
      of namespaces that are not external. */
  ghost predicate SameWalks(w: World, v: World) {
    && w.Valid() && v.Valid() && v.names == w.names && v.parents == w.parents
    && forall n | n in w.names :: SameStops(w.data[n], v.data[n])
  }

  ghost predicate SameStops(d: Data, e: Data) {
    && (e.Halted() <==> d.Halted()) && (e.External() <==> d.External())
    && (d.External() ==> e.labels == d.labels)
  }

  lemma SameHalts(w: World, v: World)
    requires SameWalks(w, v)
    ensures Hierarchy.Halts(v) == Hierarchy.Halts(w)
  {
  }

  lemma {:induction false} SameGetsTo(w: World, v: World, n: Name, a: Name, j: nat)
    requires SameWalks(w, v) && n in w.names
    ensures GetsTo(w, n, a, j) <==> GetsTo(v, n, a, j)
    decreases j
  {
    SameGoesOn(w, v, n);
    if j > 0 && n in w.parents { SameGetsTo(w, v, w.parents[n], a, j - 1); }
  }

  lemma SameWay(w: World, v: World, n: Name)
    requires SameWalks(w, v) && n in w.names
    ensures forall a, j: nat :: GetsTo(w, n, a, j) <==> GetsTo(v, n, a, j)
  {
    forall a, j: nat ensures GetsTo(w, n, a, j) <==> GetsTo(v, n, a, j) {
      SameGetsTo(w, v, n, a, j);
    }
  }

  lemma SameGoesOn(w: World, v: World, n: Name)
    requires SameWalks(w, v) && n in w.names
    ensures GoesOn(w, n) <==> GoesOn(v, n)
    ensures n in w.parents ==> n in v.parents && v.parents[n] == w.parents[n] && w.parents[n] in w.names
  {
    assert SameStops(w.data[n], v.data[n]);
  }

  /** Seen from n, every managed label has the same value in both. */
  ghost predicate SameEffects(w: World, v: World, n: Name) {
    forall key, val :: Effective(w, n, key, val) <==> Effective(v, n, key, val)
  }

  lemma ApartFrom(w: World, isManaged: string -> bool)
    requires w.Valid() && ManagedOnly(w, isManaged)
    ensures ManagedApart(w)
  {
  }

  lemma SameEnd(w: World, v: World, n: Name, k: nat) returns (e: Name, je: nat)
    requires SameWalks(w, v) && n in w.names && Hierarchy.Stops(w.parents, Hierarchy.Halts(w), n, k)
    ensures e in w.names && GetsTo(w, n, e, je) && !GoesOn(w, e)
    ensures e in v.names && GetsTo(v, n, e, je) && !GoesOn(v, e) && Added(w.data[e]) == Added(v.data[e])
  {
    e, je := WalkEnd(w, n, k);
    SameGetsTo(w, v, n, e, je);
    SameGoesOn(w, v, e);
    assert SameStops(w.data[e], v.data[e]);
  }

  lemma SameTreeLabel(w: World, v: World, l: Labels, n: Name, k: nat, key: string)
    requires SameWalks(w, v) && ManagedApart(w) && ManagedApart(v) && n in w.names
    requires Hierarchy.Stops(w.parents, Hierarchy.Halts(w), n, k) && Hierarchy.Halts(v) == Hierarchy.Halts(w)
    requires Contains(key, TREE_DEPTH_SUFFIX)
    ensures SameLabel(Walked(w, l, n, 0, k), Walked(v, l, n, 0, k), key)
  {
    var e, je := SameEnd(w, v, n, k);
    SameWay(w, v, n);
    WalkedTree(w, l, n, 0, k, e, je, key);
    WalkedTree(v, l, n, 0, k, e, je, key);
    TreeLabelDetermined(w, v, l, Walked(w, l, n, 0, k), Walked(v, l, n, 0, k), n, e, je, key);
  }

  lemma TreeLabelDetermined(w: World, v: World, l: Labels, r: Labels, s: Labels, n: Name, e: Name, je: nat, key: string)
    requires e in w.data && e in v.data && Added(w.data[e]) == Added(v.data[e])
    requires forall a, j: nat :: GetsTo(w, n, a, j) <==> GetsTo(v, n, a, j)
    requires TreeLabelSet(w, l, r, n, 0, e, je, key) && TreeLabelSet(v, l, s, n, 0, e, je, key)
    ensures SameLabel(r, s, key)
  {
    if a, j: nat :| GetsTo(w, n, a, j) && TreeKey(a) == key {
      assert GetsTo(v, n, a, j);
    }
    assert Passes(w, n, key) <==> Passes(v, n, key);
  }

  lemma SameOtherLabel(w: World, v: World, l: Labels, n: Name, k: nat, key: string)
    requires SameWalks(w, v) && n in w.names && SameEffects(w, v, n)
    requires Hierarchy.Stops(w.parents, Hierarchy.Halts(w), n, k) && Hierarchy.Halts(v) == Hierarchy.Halts(w)
    requires !Contains(key, TREE_DEPTH_SUFFIX)
    ensures SameLabel(Walked(w, l, n, 0, k), Walked(v, l, n, 0, k), key)
  {
    var r, s := Walked(w, l, n, 0, k), Walked(v, l, n, 0, k);
    WalkedManaged(w, l, n, 0, k, key);
    WalkedManaged(v, l, n, 0, k, key);
    if SetSomewhere(w, n, key) {
      EffectiveSets(v, n, key, r[key]);
      EffectiveUnique(v, n, key, r[key], s[key]);
    } else if SetSomewhere(v, n, key) {
      EffectiveSets(w, n, key, s[key]);
    }
  }

  lemma EffectiveSets(w: World, n: Name, key: string, val: string)
    requires Effective(w, n, key, val)
    ensures SetSomewhere(w, n, key)
  {
    var a, j: nat :| Topmost(w, n, key, a, j);
    assert GetsTo(w, n, a, j);
  }

  lemma SameWalked(w: World, v: World, l: Labels, n: Name, k: nat, isManaged: string -> bool)
    requires SameWalks(w, v) && ManagedOnly(w, isManaged) && ManagedOnly(v, isManaged) && n in w.names
    requires Hierarchy.Stops(w.parents, Hierarchy.Halts(w), n, k) && Hierarchy.Halts(v) == Hierarchy.Halts(w)
    requires SameEffects(w, v, n)
    ensures Walked(v, l, n, 0, k) == Walked(w, l, n, 0, k)
  {
    var r, s := Walked(w, l, n, 0, k), Walked(v, l, n, 0, k);
    ApartFrom(w, isManaged);
    ApartFrom(v, isManaged);
    forall key ensures SameLabel(r, s, key) {
      if Contains(key, TREE_DEPTH_SUFFIX) {
        SameTreeLabel(w, v, l, n, k, key);
      } else {
        SameOtherLabel(w, v, l, n, k, key);
      }
    }
    AllSame(r, s);
  }

  ghost predicate SameLabel(r: Labels, s: Labels, key: string) {
    (key in r <==> key in s) && (key in r ==> r[key] == s[key])
  }

  lemma AllSame(r: Labels, s: Labels)
    requires forall key :: SameLabel(r, s, key)
    ensures r == s
  {
    forall key ensures key in r <==> key in s {
      assert SameLabel(r, s, key);
    }
    forall key | key in r ensures r[key] == s[key] {
      assert SameLabel(r, s, key);
    }
  }

  /** A synced namespace shows the effective values of the managed labels, and no other managed label. */
  lemma SyncedShows(w: World, n: Name, isManaged: string -> bool, key: string, val: string)
    requires w.Valid() && ManagedOnly(w, isManaged) && n in w.names && LabelSynced(w, n, isManaged) && isManaged(key)
    ensures Effective(w, n, key, val) <==> key in w.data[n].labels && w.data[n].labels[key] == val
  {
    var l, k: nat :| SyncedFrom(w, n, isManaged, l, k);
    WalkedManaged(w, l, n, 0, k, key);
    if Effective(w, n, key, val) {
      EffectiveSets(w, n, key, val);
      EffectiveUnique(w, n, key, val, w.data[n].labels[key]);
    }
  }

  lemma EffectiveIsManaged(w: World, n: Name, isManaged: string -> bool, key: string, val: string)
    requires w.Valid() && ManagedOnly(w, isManaged) && Effective(w, n, key, val)
    ensures isManaged(key)
  {
    var a, j: nat :| Topmost(w, n, key, a, j);
    assert a in w.names;
  }

  /** A synced namespace that is not touched stays synced exactly when every managed label has the same
      value as before, seen from it. */
  lemma SyncedExactly(w: World, v: World, n: Name, isManaged: string -> bool)
    requires SameWalks(w, v) && ManagedOnly(w, isManaged) && ManagedOnly(v, isManaged)
    requires n in w.names && v.data[n].labels == w.data[n].labels && LabelSynced(w, n, isManaged)
    ensures LabelSynced(v, n, isManaged) <==> SameEffects(w, v, n)
  {
    if SameEffects(w, v, n) {
      var l, k: nat :| SyncedFrom(w, n, isManaged, l, k);
      SameHalts(w, v);
      SameWalked(w, v, l, n, k, isManaged);
      assert SyncedFrom(v, n, isManaged, l, k);
    }
    if LabelSynced(v, n, isManaged) {
      forall key, val ensures Effective(w, n, key, val) <==> Effective(v, n, key, val) {
        if Effective(w, n, key, val) { EffectiveIsManaged(w, n, isManaged, key, val); }
        if Effective(v, n, key, val) { EffectiveIsManaged(v, n, isManaged, key, val); }
        if isManaged(key) {
          SyncedShows(w, n, isManaged, key, val);
          SyncedShows(v, n, isManaged, key, val);
        }
      }
    }
  }

  /** What only the managed labels of n can have changed looks the same to a namespace whose walk does
      not pass n, and to all if they have not changed. */
  lemma SameEffectsWhen(w: World, v: World, n: Name, m: Name)
    requires SameWalks(w, v) && n in w.names && m in w.names
    requires forall a | a in w.names && a != n :: v.data[a].managed == w.data[a].managed
    requires v.data[n].managed == w.data[n].managed || forall j: nat :: !GetsTo(w, m, n, j)
    ensures SameEffects(w, v, m)
  {
    forall a, j: nat
      ensures GetsTo(w, m, a, j) <==> GetsTo(v, m, a, j)
      ensures GetsTo(w, m, a, j) && a in w.data ==> v.data[a].managed == w.data[a].managed
    {
      SameGetsTo(w, v, m, a, j);
    }
    forall key, val ensures Effective(w, m, key, val) <==> Effective(v, m, key, val) {
      if Effective(w, m, key, val) { KeepsEffect(w, v, m, key, val); }
      if Effective(v, m, key, val) { KeepsEffect(v, w, m, key, val); }
    }
  }

  lemma KeepsEffect(w: World, v: World, m: Name, key: string, val: string)
    requires w.data.Keys == v.data.Keys && Effective(w, m, key, val)
    requires forall a, j: nat :: GetsTo(w, m, a, j) <==> GetsTo(v, m, a, j)
    requires forall a, j: nat | GetsTo(w, m, a, j) && a in w.data :: v.data[a].managed == w.data[a].managed
    ensures Effective(v, m, key, val)
  {
    var a, j: nat :| Topmost(w, m, key, a, j) && w.data[a].managed[key] == val;
    assert GetsTo(w, m, a, j);
    assert Topmost(v, m, key, a, j);
  }

  /** "c" under "r", both synced; whether "r" has recorded a value for the managed label "m". */
  function Pair(recorded: bool): World {
    var r := NEW_DATA.(labels := map[TreeKey("r") := Itoa(0)], managed := if recorded then map["m" := "1"] else map[]);
    var c := NEW_DATA.(labels := map[TreeKey("c") := Itoa(0), TreeKey("r") := Itoa(1)]);
    World({"r", "c"}, map["c" := "r"], {"r", "c"}, map["r" := r, "c" := c],
      map["r" := map[], "c" := map[]], map["r" := map[], "c" := map[]], map["r" := map[], "c" := map[]])
  }

  lemma PairSynced(isManaged: string -> bool)
    ensures Pair(false).Valid() && LabelSynced(Pair(false), "c", isManaged)
  {
    var w := Pair(false);
    assert Hierarchy.Stops(w.parents, Hierarchy.Halts(w), "r", 0);
    assert Hierarchy.Stops(w.parents, Hierarchy.Halts(w), "c", 1);
    var l: Labels := map[];
    var here := Here(w.data["c"], l, "c", 0);
    assert here == map[TreeKey("c") := Itoa(0)];
    assert GoesOn(w, "c") && !GoesOn(w, "r");
    assert Walked(w, here, "r", 1, 0) == Here(w.data["r"], here, "r", 1) == w.data["c"].labels;
    assert Walked(w, l, "c", 0, 1) == Walked(w, here, "r", 1, 0);
    assert SyncedFrom(w, "c", isManaged, l, 1);
  }

  lemma PairWalks(isManaged: string -> bool)
    requires isManaged("m") && forall k | isManaged(k) :: !Contains(k, TREE_DEPTH_SUFFIX)
    ensures SameWalks(Pair(false), Pair(true))
    ensures ManagedOnly(Pair(false), isManaged) && ManagedOnly(Pair(true), isManaged)
    ensures Pair(true).data["c"].labels == Pair(false).data["c"].labels
  {
    var w, v := Pair(false), Pair(true);
    PairValid(true);
    PairValid(false);
    assert SameStops(w.data["c"], v.data["c"]) && SameStops(w.data["r"], v.data["r"]);
  }

  lemma PairValid(recorded: bool)
    ensures Pair(recorded).Valid()
  {
  }

  lemma PairEffects()
    ensures !Effective(Pair(false), "c", "m", "1") && Effective(Pair(true), "c", "m", "1")
  {
    var w, v := Pair(false), Pair(true);
    assert GoesOn(v, "c") && !GoesOn(v, "r");
    assert GetsTo(v, "c", "r", 1) by { assert GetsTo(v, "r", "r", 0); }
    assert Topmost(v, "c", "m", "r", 1);
  }

  /** Recording a managed label does unsync what sees it: the namespaces below have to be synced again. */
  lemma RecordingUnsyncs(isManaged: string -> bool)
    requires isManaged("m") && forall k | isManaged(k) :: !Contains(k, TREE_DEPTH_SUFFIX)
    ensures Pair(false).Valid() && Pair(true).Valid()
    ensures LabelSynced(Pair(false), "c", isManaged) && !LabelSynced(Pair(true), "c", isManaged)
  {
    PairSynced(isManaged);
    PairEffects();
    PairWalks(isManaged);
    SyncedExactly(Pair(false), Pair(true), "c", isManaged);
  }

  // ----- runs of syncs -----

  /** v is w after a label sync of n, which is not external: n has recorded managed labels, perhaps other
      ones than before, and is synced. */
  ghost predicate LabelStep(w: World, v: World, n: Name, isManaged: string -> bool) {
    && w.Valid() && v.Valid() && n in w.names && n in v.data && v == Hierarchy.SetData(w, n, v.data[n])
    && !w.data[n].External() && SameStops(w.data[n], v.data[n]) && (forall k | k in v.data[n].managed :: isManaged(k))
    && LabelSynced(v, n, isManaged)
  }

  lemma StepKeepsWalks(w: World, v: World, n: Name, isManaged: string -> bool)
    requires LabelStep(w, v, n, isManaged) && ManagedOnly(w, isManaged)
    ensures SameWalks(w, v) && ManagedOnly(v, isManaged)
    ensures forall a | a in w.names && a != n :: v.data[a] == w.data[a]
  {
  }

  /** A run of label syncs of these namespaces, in this order, through these forests. */
  ghost predicate LabelRun(states: seq<World>, order: seq<Name>, isManaged: string -> bool) {
    && |states| == |order| + 1 && states[0].Valid() && ManagedOnly(states[0], isManaged)
    && forall k: nat :: StepAt(states, order, isManaged, k)
  }

  ghost predicate StepAt(states: seq<World>, order: seq<Name>, isManaged: string -> bool, k: nat)
    requires |states| == |order| + 1
  {
    k < |order| ==> LabelStep(states[k], states[k + 1], order[k], isManaged)
  }

  lemma WalksTransitive(w: World, x: World, v: World)
    requires SameWalks(w, x) && SameWalks(x, v)
    ensures SameWalks(w, v)
  {
    forall n | n in w.names ensures SameStops(w.data[n], v.data[n]) {
      assert SameStops(w.data[n], x.data[n]) && SameStops(x.data[n], v.data[n]);
    }
  }

  lemma {:induction false} RunKeepsWalks(states: seq<World>, order: seq<Name>, isManaged: string -> bool,
                                         i: nat, j: nat)
    requires LabelRun(states, order, isManaged) && i <= j <= |order|
    ensures SameWalks(states[i], states[j]) && ManagedOnly(states[i], isManaged) && ManagedOnly(states[j], isManaged)
    decreases j
  {
    if i < j {
      RunKeepsWalks(states, order, isManaged, i, j - 1);
      assert StepAt(states, order, isManaged, j - 1);
      StepKeepsWalks(states[j - 1], states[j], order[j - 1], isManaged);
      WalksTransitive(states[i], states[j - 1], states[j]);
    } else if i > 0 {
      RunKeepsWalks(states, order, isManaged, i - 1, j - 1);
      assert StepAt(states, order, isManaged, j - 1);
      StepKeepsWalks(states[j - 1], states[j], order[j - 1], isManaged);
    }
  }

  /** Only its own syncs touch a namespace. */
  lemma {:induction false} RunKeepsOthers(states: seq<World>, order: seq<Name>, isManaged: string -> bool, n: Name,
                                          i: nat, j: nat)
    requires LabelRun(states, order, isManaged) && i <= j <= |order| && n in states[i].data
    requires forall k | i <= k < j :: order[k] != n
    ensures n in states[j].data && states[j].data[n] == states[i].data[n]
    decreases j
  {
    if i < j {
      RunKeepsOthers(states, order, isManaged, n, i, j - 1);
      assert StepAt(states, order, isManaged, j - 1);
    }
  }

  /** The i-th sync of the run is the last one of n. */
  ghost predicate LastSync(order: seq<Name>, n: Name, i: nat) {
    i < |order| && order[i] == n && forall k | i < k < |order| :: order[k] != n
  }

  lemma {:induction false} LastSyncExists(order: seq<Name>, n: Name) returns (i: nat)
    requires n in order
    ensures LastSync(order, n, i)
    decreases |order|
  {
    var last := |order| - 1;
    if order[last] == n {
      i := last;
    } else {
      i := LastSyncExists(order[..last], n);
    }
  }

  lemma SinceLastSync(states: seq<World>, order: seq<Name>, isManaged: string -> bool, n: Name, i: nat)
    requires LabelRun(states, order, isManaged) && LastSync(order, n, i)
    ensures var x, v := states[i + 1], states[|order|];
            && SameWalks(x, v) && ManagedOnly(x, isManaged) && ManagedOnly(v, isManaged)
            && n in x.names && LabelSynced(x, n, isManaged) && v.data[n] == x.data[n]
  {
    assert StepAt(states, order, isManaged, i);
    RunKeepsWalks(states, order, isManaged, i + 1, |order|);
    RunKeepsOthers(states, order, isManaged, n, i + 1, |order|);
  }

  /** At the end of a run a namespace is synced exactly when every managed label has the value, seen from
      it, that it had at its last sync. */
  lemma RunSyncsExactly(states: seq<World>, order: seq<Name>, isManaged: string -> bool, n: Name, i: nat)
    requires LabelRun(states, order, isManaged) && LastSync(order, n, i)
    ensures var x, v := states[i + 1], states[|order|];
            && v.Valid() && n in v.names && (LabelSynced(v, n, isManaged) <==> SameEffects(x, v, n))
  {
    SinceLastSync(states, order, isManaged, n, i);
    SyncedExactly(states[i + 1], states[|order|], n, isManaged);
  }

  ghost predicate SameManaged(w: World, v: World) {
    w.data.Keys == v.data.Keys && forall a | a in w.data :: v.data[a].managed == w.data[a].managed
  }

  /** No sync of the run finds other managed labels than those recorded. */
  ghost predicate AsRecorded(states: seq<World>) {
    forall k: nat :: k + 1 < |states| ==> SameManaged(states[k], states[k + 1])
  }

  lemma {:induction false} RunKeepsManaged(states: seq<World>, i: nat, j: nat)
    requires AsRecorded(states) && i <= j < |states|
    ensures SameManaged(states[i], states[j])
    decreases j
  {
    if i < j {
      RunKeepsManaged(states, i, j - 1);
      assert SameManaged(states[j - 1], states[j - 1 + 1]);
    }
  }

  /** So with managed labels as recorded a namespace synced once stays synced, whatever is synced before
      and after. */
  lemma RunSyncs(states: seq<World>, order: seq<Name>, isManaged: string -> bool, n: Name)
    requires LabelRun(states, order, isManaged) && AsRecorded(states) && n in order
    ensures var v := states[|order|]; v.Valid() && n in v.names && LabelSynced(v, n, isManaged)
  {
    var i := LastSyncExists(order, n);
    SinceLastSync(states, order, isManaged, n, i);
    RunKeepsManaged(states, i + 1, |order|);
    SameEffectsWhen(states[i + 1], states[|order|], n, n);
    RunSyncsExactly(states, order, isManaged, n, i);
  }

  lemma StaysPlain(w: World, v: World)
    requires SameWalks(w, v) && Plain(w)
    ensures Plain(v)
  {
    forall n | n in v.names ensures !v.data[n].Halted() && !v.data[n].External() {
      assert SameStops(w.data[n], v.data[n]);
    }
  }

  /** The tree labels do not depend on managed ones: when every namespace of a forest without halted or
      external ones has been synced, in whatever order and however often, and whatever managed labels the
      syncs recorded, the tree labels index the forest. */
  lemma IndexAfterRun(states: seq<World>, order: seq<Name>, isManaged: string -> bool)
    requires LabelRun(states, order, isManaged) && Plain(states[0])
    requires forall n | n in states[0].names :: n in order
    ensures var v := states[|order|]; v.Valid() && forall n, a | n in v.names :: Indexed(v, n, a)
  {
    var v := states[|order|];
    RunKeepsWalks(states, order, isManaged, 0, |order|);
    forall n, a | n in v.names ensures Indexed(v, n, a) {
      var i := LastSyncExists(order, n);
      IndexedSince(states, order, isManaged, n, i, a);
    }
  }

  lemma IndexedSince(states: seq<World>, order: seq<Name>, isManaged: string -> bool, n: Name, i: nat, a: Name)
    requires LabelRun(states, order, isManaged) && Plain(states[0]) && LastSync(order, n, i)
    ensures n in states[|order|].data && Indexed(states[|order|], n, a)
  {
    RunKeepsWalks(states, order, isManaged, 0, i + 1);
    StaysPlain(states[0], states[i + 1]);
    SinceLastSync(states, order, isManaged, n, i);
    TreeIndex(states[i + 1], n, a, isManaged);
    IndexedStays(states[i + 1], states[|order|], n, a);
  }

  lemma IndexedStays(w: World, v: World, n: Name, a: Name)
    requires n in w.data && n in v.data && Indexed(w, n, a) && v.parents == w.parents && v.data[n] == w.data[n]
    ensures Indexed(v, n, a)
  {
  }

  // ----- the queue -----

  /** The managed labels that the configuration of each namespace sets. */
  type Settings = map<Name, Labels>

  /** What is not queued has recorded what it is to, and is synced. */
  ghost predicate QueueInv(w: World, queue: set<Name>, settings: Settings, isManaged: string -> bool) {
    && w.Valid() && ManagedOnly(w, isManaged) && Hierarchy.ExternalAreRoots(w) && queue <= w.names
    && forall n | n in w.names && n !in queue && !w.data[n].External() :: DoneAt(w, n, settings, isManaged)
  }

  ghost predicate DoneAt(w: World, n: Name, settings: Settings, isManaged: string -> bool)
    requires w.Valid() && n in w.names
  {
    n in settings && w.data[n].managed == settings[n] && LabelSynced(w, n, isManaged)
  }

  /** A label sync of n as it is configured: what it records, if new, queues everything below n. */
  ghost predicate Dequeued(w: World, queue: set<Name>, v: World, queue': set<Name>, n: Name,
                           settings: Settings, isManaged: string -> bool) {
    && n in queue && LabelStep(w, v, n, isManaged) && n in settings && v.data[n].managed == settings[n]
    && queue' == queue - {n} + (if v.data[n].managed == w.data[n].managed then {} else Descendants(w.parents, n))
  }

  lemma NotPassed(w: World, n: Name, m: Name, j: nat)
    requires m in w.names && m != n && m !in Descendants(w.parents, n)
    ensures !GetsTo(w, m, n, j)
  {
    if GetsTo(w, m, n, j) {
      GetsToSteps(w, m, n, j);
      ReachesCases(w.parents, m, n);
      assert false;
    }
  }

  /** A sync that records nothing new leaves others synced, and any other one those that are not below. */
  lemma StaysSynced(w: World, v: World, n: Name, m: Name, isManaged: string -> bool)
    requires LabelStep(w, v, n, isManaged) && ManagedOnly(w, isManaged)
    requires m in w.names && m != n && LabelSynced(w, m, isManaged)
    requires v.data[n].managed == w.data[n].managed || m !in Descendants(w.parents, n)
    ensures LabelSynced(v, m, isManaged)
  {
    StepKeepsWalks(w, v, n, isManaged);
    if v.data[n].managed != w.data[n].managed {
      forall j: nat ensures !GetsTo(w, m, n, j) { NotPassed(w, n, m, j); }
    }
    SameEffectsWhen(w, v, n, m);
    SyncedExactly(w, v, m, isManaged);
  }

  /** Whichever queued namespace is synced next, what is not queued then is synced. */
  lemma DequeuedKeeps(w: World, queue: set<Name>, v: World, queue': set<Name>, n: Name,
                      settings: Settings, isManaged: string -> bool)
    requires QueueInv(w, queue, settings, isManaged) && Dequeued(w, queue, v, queue', n, settings, isManaged)
    ensures QueueInv(v, queue', settings, isManaged)
  {
    StepKeepsWalks(w, v, n, isManaged);
    forall m | m in v.names && m !in queue' && !v.data[m].External() ensures DoneAt(v, m, settings, isManaged) {
      if m != n {
        assert DoneAt(w, m, settings, isManaged);
        StaysSynced(w, v, n, m, isManaged);
      }
    }
  }

  /** The namespaces that have yet to record what they are to. */
  ghost function Unrecorded(w: World, settings: Settings): set<Name> {
    set n | n in settings && n in w.data && w.data[n].managed != settings[n]
  }

  /** And either fewer namespaces have yet to record, or as many and fewer are queued. So the queue drains;
      then every namespace that is not external is synced. */
  lemma DequeuedDecreases(w: World, queue: set<Name>, v: World, queue': set<Name>, n: Name,
                          settings: Settings, isManaged: string -> bool)
    requires Dequeued(w, queue, v, queue', n, settings, isManaged)
    ensures Unrecorded(v, settings) < Unrecorded(w, settings)
            || (Unrecorded(v, settings) == Unrecorded(w, settings) && queue' < queue)
  {
    if v.data[n].managed != w.data[n].managed {
      assert n in Unrecorded(w, settings) && n !in Unrecorded(v, settings);
    }
  }
}
