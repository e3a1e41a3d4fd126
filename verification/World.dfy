/** The in-memory forest as a value: for each kind of data, what every namespace holds of it. */
module World {
  import opened Ancestry
  import opened Resources

  datatype Option<+T> = None | Some(value: T)

  datatype Condition = Condition(tp: string, reason: string)

  const ACTIVITIES_HALTED := "ActivitiesHalted"
  const BAD_CONFIGURATION := "BadConfiguration"
  const META_GROUP := "hnc.x-k8s.io"

  /** A namespaced object of the type at hand. `created` stands for a nonzero creation timestamp,
      `body` for everything outside metadata and status. */
  datatype Object = Object(
    name: string,
    namespace: Name,
    labels: map<string, string>,
    annotations: map<string, string>,
    body: string,
    status: string,
    created: bool,
    deleting: bool,
    resourceVersion: string,
    finalizers: seq<string>)

  type Quotas = map<Name, map<string, ResourceList>>
  type Labels = map<string, string>
  type Pairs = seq<(string, string)>

  /** What a namespace holds besides its place in the forest and its quotas. */
  datatype Data = Data(
    conditions: seq<Condition>,
    manager: string,
    isSub: bool,
    cascading: bool,
    labels: Labels,
    managed: Labels,
    sources: map<string, Object>)
  {
    predicate Halted() {
      exists c | c in conditions :: c.tp == ACTIVITIES_HALTED
    }

    predicate External() {
      manager != "" && manager != META_GROUP
    }
  }

  const NEW_DATA := Data([], "", false, false, map[], map[], map[])

  datatype World = World(
    names: set<Name>,
    parents: Parents,
    present: set<Name>,
    data: map<Name, Data>,
    limits: Quotas,
    local: map<Name, ResourceList>,
    subtree: map<Name, ResourceList>)
  {
    /** Every namespace has an entry for everything, and every parent is a namespace of the forest. */
    ghost predicate Valid() {
      && Closed(names, parents) && present <= names
      && data.Keys == names && limits.Keys == names && local.Keys == names && subtree.Keys == names
    }

    /** A namespace that has not been synced, or is gone, has no parent. */
    ghost predicate AbsentAreRoots() {
      forall n | n in parents :: n in present
    }

    ghost function Ancestors(n: Name): seq<Name> {
      AncestryOf(parents, n)
    }

    /** The forest once it has heard of n. */
    function Add(n: Name): World {
      World(names + {n}, parents, present, data[n := NEW_DATA],
        limits[n := map[]], local[n := map[]], subtree[n := map[]])
    }

    /** The forest once it has forgotten the namespaces of s. */
    function Forget(s: set<Name>): World {
      World(names - s, parents - s, present - s, data - s, limits - s, local - s, subtree - s)
    }

    /** The forest with n under p, or with n a root. */
    function Link(n: Name, p: Option<Name>): World {
      this.(parents := if p.Some? then parents[n := p.value] else parents - {n})
    }
  }

  /** The forest once n has been looked up: no name is no namespace. */
  function Known(w: World, n: Name): World {
    if n == "" || n in w.names then w else w.Add(n)
  }

  const EMPTY_WORLD := World({}, map[], {}, map[], map[], map[], map[])

  /** Both forests hold the same for n. */
  ghost predicate SameAt(w: World, v: World, n: Name)
    requires w.Valid() && v.Valid() && n in w.names && n in v.names
  {
    && (n in w.present <==> n in v.present) && w.data[n] == v.data[n]
    && w.limits[n] == v.limits[n] && w.local[n] == v.local[n] && w.subtree[n] == v.subtree[n]
  }

  /** The forests differ at most in the data they hold for n. */
  ghost predicate SameOff(w: World, v: World, n: Name) {
    && w.Valid() && v.Valid() && w.names == v.names && w.parents == v.parents
    && forall m {:trigger SameAt(w, v, m)} | m in w.names && m != n :: SameAt(w, v, m)
  }

  lemma SetLocalOff(w: World, n: Name, x: ResourceList)
    requires w.Valid() && n in w.names
    ensures SameOff(w, w.(local := w.local[n := x]), n)
  {
  }

  lemma SetSubtreeOff(w: World, n: Name, x: ResourceList)
    requires w.Valid() && n in w.names
    ensures SameOff(w, w.(subtree := w.subtree[n := x]), n)
  {
  }

  lemma SetLimitsOff(w: World, n: Name, x: map<string, ResourceList>)
    requires w.Valid() && n in w.names
    ensures SameOff(w, w.(limits := w.limits[n := x]), n)
  {
  }

  lemma SetDataOff(w: World, n: Name, d: Data)
    requires w.Valid() && n in w.names
    ensures SameOff(w, w.(data := w.data[n := d]), n)
  {
  }

  lemma SetPresentOff(w: World, n: Name, present: bool)
    requires w.Valid() && n in w.names
    ensures SameOff(w, w.(present := if present then w.present + {n} else w.present - {n}), n)
  {
  }

  lemma AddValid(w: World, n: Name)
    requires w.Valid() && n !in w.names
    ensures w.Add(n).Valid()
    ensures forall m {:trigger SameAt(w, w.Add(n), m)} | m in w.names :: SameAt(w, w.Add(n), m)
  {
  }

  lemma LinkOff(w: World, n: Name, p: Option<Name>)
    requires w.Valid() && n in w.names && (p.Some? ==> p.value in w.names)
    ensures w.Link(n, p).Valid()
    ensures forall m {:trigger SameAt(w, w.Link(n, p), m)} | m in w.names :: SameAt(w, w.Link(n, p), m)
  {
  }

  lemma ForgetOff(w: World, o: Name)
    requires w.Valid() && o in w.names && o !in w.parents && forall m | m in w.parents :: w.parents[m] != o
    ensures w.Forget({o}).Valid() && w.Forget({o}).parents == w.parents
    ensures forall m {:trigger SameAt(w, w.Forget({o}), m)} | m in w.names && m != o :: SameAt(w, w.Forget({o}), m)
  {
    assert w.parents - {o} == w.parents;
  }

  ghost predicate Closed(names: set<Name>, p: Parents) {
    forall n | n in p :: n in names && p[n] in names
  }

  /** The ancestry of a namespace of the forest stays in the forest. */
  lemma AncestorsInside(names: set<Name>, p: Parents, n: Name)
    requires Closed(names, p) && n in names
    ensures forall a | a in AncestryOf(p, n) :: a in names
  {
    forall a | a in AncestryOf(p, n) ensures a in names {
      AncestryMembers(p, n, a);
      var k: nat :| Steps(p, n, a, k);
      ClosedHolds(p, names, n, a, k);
    }
  }

  function ParentName(p: Parents, n: Name): Option<Name> {
    if n in p then Some(p[n]) else None
  }

  ghost function Children(p: Parents, n: Name): set<Name> {
    set c | c in p && p[c] == n
  }
}
