/** Syncing the labels of a namespace with the forest. */
module LabelSync {
  import opened Ancestry
  import opened Strings
  import opened World
  import opened Forest
  import opened Conditions
  import opened LabelWalk
  import opened LabelIndex
  import opened Decimal
  import Hierarchy

  const REASON_ILLEGAL_LABEL := "IllegalManagedLabel"

  /** Whether a configuration sets a label that is not a managed one. */
  predicate SetsIllegal(spec: Pairs, isManaged: string -> bool) {
    exists i | 0 <= i < |spec| :: !isManaged(spec[i].0)
  }

  /** The managed labels that a configuration sets. */
  function ManagedIn(spec: Pairs, isManaged: string -> bool): (m: Labels)
    ensures forall k | k in m :: isManaged(k)
    decreases |spec|
  {
    if spec == [] then map[]
    else
      var m, last := ManagedIn(spec[..|spec| - 1], isManaged), spec[|spec| - 1];
      if isManaged(last.0) then m[last.0 := last.1] else m
  }

  /** The i-th pair is the last one that sets k, and sets it to x. */
  predicate LastSet(spec: Pairs, i: nat, k: string, x: string) {
    i < |spec| && spec[i] == (k, x) && forall j | i < j < |spec| :: spec[j].0 != k
  }

  /** They are exactly those managed labels that occur, with the last value given. */
  lemma {:induction false} ManagedInExactly(spec: Pairs, isManaged: string -> bool, k: string, x: string)
    ensures var m := ManagedIn(spec, isManaged);
            k in m && m[k] == x <==> isManaged(k) && exists i: nat :: LastSet(spec, i, k, x)
    decreases |spec|
  {
    if spec != [] {
      var front, last := spec[..|spec| - 1], |spec| - 1;
      ManagedInExactly(front, isManaged, k, x);
      if i: nat :| LastSet(front, i, k, x) && spec[last].0 != k { assert LastSet(spec, i, k, x); }
      if i: nat :| LastSet(spec, i, k, x) && i < last { assert LastSet(front, i, k, x); }
      if spec[last] == (k, x) { assert LastSet(spec, last, k, x); }
    }
  }

  method ManagedLabels(spec: Pairs, isManaged: string -> bool) returns (managed: Labels, illegal: bool)
    ensures managed == ManagedIn(spec, isManaged) && (illegal <==> SetsIllegal(spec, isManaged))
  {
    managed, illegal := map[], false;
    for n := 0 to |spec|
      invariant illegal <==> exists i | 0 <= i < n :: !isManaged(spec[i].0)
      invariant managed == ManagedIn(spec[..n], isManaged)
    {
      assert spec[..n + 1][..n] == spec[..n];
      if !isManaged(spec[n].0) {
        illegal := true;
        continue;
      }
      managed := managed[spec[n].0 := spec[n].1];
    }
    assert spec[..|spec|] == spec;
  }

  /** The labels of a namespace that HNC does not remove: of an external one all, of any other those
      that are neither managed nor about the tree. */
  function KeptLabels(labels: Labels, isManaged: string -> bool, external: bool): Labels {
    map k | k in labels && (external || (!isManaged(k) && !HasSuffix(k, TREE_DEPTH_SUFFIX))) :: labels[k]
  }

  /** The managed labels of an external namespace's own. */
  function OwnManaged(labels: Labels, isManaged: string -> bool, external: bool): Labels {
    map k | k in labels && external && isManaged(k) :: labels[k]
  }

  /** Of the namespace's own label k: an external namespace keeps it, and any other unless it is managed or about
      the tree. */
  predicate OwnKept(inst: Labels, l: Labels, k: string, isManaged: string -> bool, external: bool) {
    && (k in l <==> k in inst && (external || (!isManaged(k) && !HasSuffix(k, TREE_DEPTH_SUFFIX))))
    && (k in l && k in inst ==> l[k] == inst[k])
  }

  /** The labels that are in todo or are kept. */
  function Without(labels: Labels, kept: Labels, todo: set<string>): Labels {
    labels - (labels.Keys - kept.Keys - todo)
  }

  lemma WithoutStep(labels: Labels, kept: Labels, todo: set<string>, k: string)
    requires k in todo
    ensures Without(labels, kept, todo - {k}) ==
            if k in kept then Without(labels, kept, todo) else Without(labels, kept, todo) - {k}
  {
  }

  lemma OwnStep(managed: Labels, own: Labels, todo: set<string>, k: string)
    requires k in todo
    ensures var before := managed + (own - todo);
            managed + (own - (todo - {k})) == if k in own then before[k := own[k]] else before
  {
    if k !in own { assert own - (todo - {k}) == own - todo; }
  }

  /** Takes the managed labels of an external namespace over; removes those of any other namespace,
      and its tree labels. */
  method SplitLabels(labels: Labels, managed: Labels, isManaged: string -> bool, external: bool)
    returns (l: Labels, m: Labels)
    ensures l == KeptLabels(labels, isManaged, external)
    ensures m == managed + OwnManaged(labels, isManaged, external)
    ensures forall k :: OwnKept(labels, l, k, isManaged, external)
    ensures forall k :: k in m <==> k in managed || (external && isManaged(k) && k in labels)
    ensures forall k | k in m :: m[k] == if external && isManaged(k) && k in labels then labels[k] else managed[k]
  {
    ghost var kept, own := KeptLabels(labels, isManaged, external), OwnManaged(labels, isManaged, external);
    l, m := labels, managed;
    var todo := labels.Keys;
    while todo != {}
      invariant todo <= labels.Keys
      invariant l == Without(labels, kept, todo) && m == managed + (own - todo)
    {
      var k :| k in todo;
      WithoutStep(labels, kept, todo, k);
      OwnStep(managed, own, todo, k);
      if isManaged(k) {
        if external {
          m := m[k := labels[k]];
        } else {
          l := l - {k};
        }
      }
      if !external && HasSuffix(k, TREE_DEPTH_SUFFIX) {
        l := l - {k};
      }
      todo := todo - {k};
    }
    assert Without(labels, kept, {}) == kept && own - {} == own;
  }

  /** Adds to the labels what the namespaces on the way up from ns set. The walk does not watch for
      cycles: it ends because every cycle holds a halted namespace. */
  method WalkUp(f: Forest, ns: Namespace, labels: Labels, ghost k: nat) returns (l: Labels)
    requires f.Valid() && f.Has(ns) && Hierarchy.Stops(f.world.parents, Hierarchy.Halts(f.world), ns.name, k)
    ensures ns.name in f.world.names && l == Walked(f.world, labels, ns.name, 0, k)
  {
    ghost var w := f.world;
    assert f.MirrorsAt(ns.name);
    ghost var goal := Walked(w, labels, ns.name, 0, k);
    var curNS: Namespace, depth: nat := ns, 0;
    l := labels;
    ghost var fuel := k;
    while true
      invariant f.Has(curNS) && OnTheWay(w, goal, l, curNS.name, depth, fuel)
      decreases fuel
    {
      f.ParentLink(curNS);
      assert f.MirrorsAt(curNS.name);
      OneStepUp(w, goal, l, curNS.name, depth, fuel);
      var stop;
      l, stop := SetHere(curNS, l, depth);
      if stop || curNS.parent == null {
        return;
      }
      curNS, depth, fuel := curNS.parent, depth + 1, fuel - 1;
    }
  }

  method SetAll(labels: Labels, more: Labels) returns (l: Labels)
    ensures l == labels + more
  {
    l := labels;
    var todo := more.Keys;
    while todo != {}
      invariant todo <= more.Keys && l == labels + (map k | k in more && k !in todo :: more[k])
    {
      var k :| k in todo;
      l := l[k := more[k]];
      todo := todo - {k};
    }
  }

  /** Sets the labels of one namespace on the way, and says whether the walk stops there. */
  method SetHere(ns: Namespace, labels: Labels, depth: nat) returns (l: Labels, stop: bool)
    ensures l == Here(ns.Held(), labels, ns.name, depth)
    ensures stop <==> ns.Held().External() || ns.Held().Halted()
  {
    l := SetAll(labels[TreeKey(ns.name) := Itoa(depth)], ns.managed);
    if ns.Held().External() {
      l := SetAll(l, Deepened(TreeLabels(ns.labels), depth));
      return l, true;
    }
    stop := IsHalted(ns);
  }

  /** What a namespace holds once its managed labels are recorded: those its configuration sets and, if
      it is external, those it has; a configuration that sets other labels is a bad one. */
  function Recorded(d: Data, n: Name, spec: Pairs, inst: Labels, isManaged: string -> bool): Data {
    d.(managed := ManagedIn(spec, isManaged) + OwnManaged(inst, isManaged, d.External()),
       conditions := if SetsIllegal(spec, isManaged)
                     then Hierarchy.SetCondition(d.conditions, BAD_CONFIGURATION, REASON_ILLEGAL_LABEL)
                     else d.conditions,
       labels := if d.External() then OwnLabels(n, inst, isManaged, true) else d.labels)
  }

  /** The labels the walk up starts from. */
  function OwnLabels(n: Name, inst: Labels, isManaged: string -> bool, external: bool): Labels {
    var kept := KeptLabels(inst, isManaged, external);
    if external then kept[TreeKey(n) := "0"] else kept
  }

  lemma RecordedStops(d: Data, n: Name, spec: Pairs, inst: Labels, isManaged: string -> bool)
    ensures var e := Recorded(d, n, spec, inst, isManaged);
            && (e.Halted() <==> d.Halted()) && (e.External() <==> d.External())
            && forall k | k in e.managed :: isManaged(k)
  {
  }

  /** What is recorded: the managed labels set in the configuration, but of an external namespace first those
      it has itself; that a label set there is not a managed one; and nothing else changes. */
  lemma RecordedExactly(d: Data, n: Name, spec: Pairs, inst: Labels, isManaged: string -> bool, k: string, x: string)
    ensures var e := Recorded(d, n, spec, inst, isManaged);
            && (k in e.managed && e.managed[k] == x <==>
                  if d.External() && isManaged(k) && k in inst then inst[k] == x
                  else isManaged(k) && exists i: nat :: LastSet(spec, i, k, x))
            && ((exists i | 0 <= i < |spec| :: !isManaged(spec[i].0)) ==>
                  Condition(BAD_CONFIGURATION, REASON_ILLEGAL_LABEL) in e.conditions)
            && ((forall i | 0 <= i < |spec| :: isManaged(spec[i].0)) ==> e.conditions == d.conditions)
            && e.manager == d.manager && e.isSub == d.isSub && e.cascading == d.cascading && e.sources == d.sources
  {
    ManagedInExactly(spec, isManaged, k, x);
  }

  /** The labels l of n, in a forest where its managed labels are recorded, against those it has on the
      apiserver: what no namespace on the walk sets stays, except that a namespace that is not external loses
      managed and tree labels; and the tree labels of an external one are read as numbers, its own as zero,
      whatever it was. */
  ghost predicate MadeFrom(w: World, n: Name, inst: Labels, isManaged: string -> bool, l: Labels)
    requires w.Valid() && n in w.names
  {
    && (forall k | Untouched(w, n, k) :: OwnKept(inst, l, k, isManaged, w.data[n].External()))
    && (w.data[n].External() ==>
          && (n + TREE_DEPTH_SUFFIX in l && l[n + TREE_DEPTH_SUFFIX] == "0")
          && forall k | k in inst && Strings.Contains(k, TREE_DEPTH_SUFFIX) && k != n + TREE_DEPTH_SUFFIX ::
               k in l && l[k] == Itoa(Atoi(inst[k])))
  }

  lemma MadeFromOwn(w: World, n: Name, inst: Labels, isManaged: string -> bool, k: nat)
    requires w.Valid() && n in w.names && Hierarchy.Stops(w.parents, Hierarchy.Halts(w), n, k)
    requires w.data[n].External() ==> w.data[n].labels == OwnLabels(n, inst, isManaged, true)
    requires forall key | key in w.data[n].managed :: isManaged(key)
    ensures MadeFrom(w, n, inst, isManaged, Walked(w, OwnLabels(n, inst, isManaged, w.data[n].External()), n, 0, k))
  {
    var external := w.data[n].External();
    var own := OwnLabels(n, inst, isManaged, external);
    var l := Walked(w, own, n, 0, k);
    assert GetsTo(w, n, n, 0);
    forall key | Untouched(w, n, key) ensures OwnKept(inst, l, key, isManaged, external) {
      assert !SetsLabel(w.data[n], n, key);
      WalkedLeaves(w, own, n, 0, k, key);
    }
    if external {
      TreeKeySuffix(n);
      RoundTrip(0);
      assert Itoa(0) == "0";
      ExternalHere(w.data[n], own, n, "0", n + TREE_DEPTH_SUFFIX);
      forall key | key in inst && Strings.Contains(key, TREE_DEPTH_SUFFIX) && key != n + TREE_DEPTH_SUFFIX
        ensures key in l && l[key] == Itoa(Atoi(inst[key]))
      {
        ExternalHere(w.data[n], own, n, inst[key], key);
      }
    }
  }

  lemma ExternalHere(d: Data, l: Labels, n: Name, x: string, key: string)
    requires d.External() && key in d.labels && d.labels[key] == x && Strings.Contains(key, TREE_DEPTH_SUFFIX)
    ensures var h := Here(d, l, n, 0); key in h && h[key] == Itoa(Atoi(x))
  {
  }

  /** Records the managed labels of a namespace, and computes its labels from its own and those of the
      namespaces above it. */
  method SyncLabels(f: Forest, ns: Namespace, spec: Pairs, inst: Labels, isManaged: string -> bool)
    returns (l: Labels, ghost v: World, ghost k: nat)
    requires f.Valid() && f.Has(ns) && Hierarchy.Inv(f.world)
    modifies f`world, ns
    ensures f.Valid() && Hierarchy.Inv(v) && ns.name in old(f.world).data
    ensures var recorded := Recorded(old(f.world).data[ns.name], ns.name, spec, inst, isManaged);
            v == Hierarchy.SetData(old(f.world), ns.name, recorded)
    ensures Hierarchy.Stops(v.parents, Hierarchy.Halts(v), ns.name, k)
    ensures l == Walked(v, OwnLabels(ns.name, inst, isManaged, v.data[ns.name].External()), ns.name, 0, k)
    ensures f.world == Hierarchy.SetData(v, ns.name, v.data[ns.name].(labels := l))
    ensures v.Valid() && ns.name in v.names && MadeFrom(v, ns.name, inst, isManaged, l)
    ensures !v.data[ns.name].External() ==>
              old(f.world).Valid() && LabelStep(old(f.world), f.world, ns.name, isManaged)
  {
    var own;
    own, v := Record(f, ns, spec, inst, isManaged);
    k := Hierarchy.WalkStops(v, ns.name);
    l := WalkUp(f, ns, own, k);
    RecordedStops(old(f.world).data[ns.name], ns.name, spec, inst, isManaged);
    MadeFromOwn(v, ns.name, inst, isManaged, k);
    f.Store(ns, ns.Held().(labels := l));
    if !v.data[ns.name].External() {
      Relabelled(v, ns.name, own, isManaged, k);
      Hierarchy.SetDataTwice(old(f.world), ns.name, v.data[ns.name], v.data[ns.name].(labels := l));
      SyncIsStep(old(f.world), ns.name, v.data[ns.name], l, isManaged);
    }
  }

  /** Recording d and then relabelling is a label sync. */
  lemma SyncIsStep(w: World, n: Name, d: Data, l: Labels, isManaged: string -> bool)
    requires w.Valid() && n in w.names && !w.data[n].External() && !d.External()
    requires (d.Halted() <==> w.data[n].Halted()) && forall k | k in d.managed :: isManaged(k)
    requires var z := Hierarchy.SetData(w, n, d.(labels := l)); z.Valid() && LabelSynced(z, n, isManaged)
    ensures LabelStep(w, Hierarchy.SetData(w, n, d.(labels := l)), n, isManaged)
  {
  }

  /** Storing the labels of the walk leaves a namespace synced. */
  lemma Relabelled(w: World, n: Name, l: Labels, isManaged: string -> bool, k: nat)
    requires w.Valid() && n in w.names && !w.data[n].External() && Clean(l, isManaged)
    requires Hierarchy.Stops(w.parents, Hierarchy.Halts(w), n, k)
    ensures var v := Hierarchy.SetData(w, n, w.data[n].(labels := Walked(w, l, n, 0, k)));
            v.Valid() && LabelSynced(v, n, isManaged)
  {
    var v := Hierarchy.SetData(w, n, w.data[n].(labels := Walked(w, l, n, 0, k)));
    SameHalts(w, v);
    OnlyLabelsWalk(w, v, l, n, 0, k);
    assert SyncedFrom(v, n, isManaged, l, k);
  }

  /** Where managed labels are the same, so is the walk. */
  lemma {:induction false} OnlyLabelsWalk(w: World, v: World, l: Labels, n: Name, depth: nat, k: nat)
    requires SameWalks(w, v) && Hierarchy.Halts(v) == Hierarchy.Halts(w) && n in w.names
    requires forall a | a in w.names :: v.data[a].managed == w.data[a].managed
    requires Hierarchy.Stops(w.parents, Hierarchy.Halts(w), n, k)
    ensures Walked(v, l, n, depth, k) == Walked(w, l, n, depth, k)
    decreases k
  {
    HereSame(w.data[n], v.data[n], l, n, depth);
    if GoesOn(w, n) {
      OnlyLabelsWalk(w, v, Here(w.data[n], l, n, depth), w.parents[n], depth + 1, k - 1);
    }
  }

  lemma HereSame(d: Data, e: Data, l: Labels, n: Name, depth: nat)
    requires SameStops(d, e) && e.managed == d.managed
    ensures Here(e, l, n, depth) == Here(d, l, n, depth)
  {
  }

  method Record(f: Forest, ns: Namespace, spec: Pairs, inst: Labels, isManaged: string -> bool)
    returns (own: Labels, ghost v: World)
    requires f.Valid() && f.Has(ns) && Hierarchy.Inv(f.world)
    modifies f`world, ns
    ensures f.Valid() && f.world == v && Hierarchy.Inv(v) && ns.name in old(f.world).data
    ensures var recorded := Recorded(old(f.world).data[ns.name], ns.name, spec, inst, isManaged);
            v == Hierarchy.SetData(old(f.world), ns.name, recorded)
    ensures ns.Held() == v.data[ns.name] && own == OwnLabels(ns.name, inst, isManaged, v.data[ns.name].External())
  {
    ghost var w := f.world;
    assert f.MirrorsAt(ns.name);
    var d := ns.Held();
    RecordedStops(d, ns.name, spec, inst, isManaged);
    var managed, illegal := ManagedLabels(spec, isManaged);
    own, managed := SplitLabels(inst, managed, isManaged, d.External());
    if illegal {
      d := d.(conditions := Hierarchy.SetCondition(d.conditions, BAD_CONFIGURATION, REASON_ILLEGAL_LABEL));
    }
    d := d.(managed := managed);
    if d.External() {
      own := own[TreeKey(ns.name) := "0"];
      d := d.(labels := own);
    }
    f.Store(ns, d);
    v := f.world;
    Hierarchy.StillHalted(w, ns.name, d);
  }
}
