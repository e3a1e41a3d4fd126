/** Objects reduced to what is copied from namespace to namespace. */
module Canonical {
  import opened Ancestry
  import opened Strings
  import opened World

  const LABEL_INHERITED_FROM := META_GROUP + "/" + "inherited-from"
  const LABEL_MANAGED_BY_APPS := "app.kubernetes.io/managed-by"

  /** The prefix of a label or annotation key: what stands before its first slash, if there is one. */
  function MetaPrefix(s: string): (r: string)
    ensures '/' !in s ==> r == ""
    ensures '/' in s ==> r + "/" <= s && '/' !in r
  {
    if '/' in s then s[..FirstSlash(s)] else ""
  }

  predicate IsFirstSlash(s: string, i: int) {
    0 <= i < |s| && s[i] == '/' && forall j | 0 <= j < i :: s[j] != '/'
  }

  function FirstSlash(s: string): (r: nat)
    requires '/' in s
    ensures IsFirstSlash(s, r)
  {
    SlashExists(s, |s|);
    var i :| 0 <= i < |s| && IsFirstSlash(s, i);
    i
  }

  lemma {:induction false} SlashExists(s: string, n: nat)
    requires n <= |s| && '/' in s[..n]
    ensures exists i | 0 <= i < |s| :: IsFirstSlash(s, i)
  {
    if '/' in s[..n - 1] {
      SlashExists(s, n - 1);
    } else {
      assert s[n - 1] == '/';
      assert forall j | 0 <= j < n - 1 :: s[j] == s[..n - 1][j];
      assert IsFirstSlash(s, n - 1);
    }
  }

  /** Whether a key is HNC's own. */
  predicate IsMeta(k: string) {
    HasSuffix(MetaPrefix(k), META_GROUP)
  }

  /** Any key with HNC's group, or a name ending in it, as prefix is HNC's own. */
  lemma MetaKeys(prefix: string, rest: string)
    requires '/' !in prefix && HasSuffix(prefix, META_GROUP)
    ensures IsMeta(prefix + "/" + rest)
  {
    var k := prefix + "/" + rest;
    assert k[|prefix|] == '/';
    var i := FirstSlash(k);
    assert IsFirstSlash(k, |prefix|) by {
      assert forall j | 0 <= j < |prefix| :: k[j] == prefix[j];
    }
    assert i == |prefix| && k[..i] == prefix;
  }

  lemma OwnSuffix(s: string)
    ensures HasSuffix(s, s)
  {
    assert s[0..] == s;
  }

  lemma NoSlashInGroup()
    ensures '/' !in META_GROUP
  {
  }

  lemma InheritedFromIsMeta()
    ensures IsMeta(LABEL_INHERITED_FROM)
  {
    OwnSuffix(META_GROUP);
    NoSlashInGroup();
    MetaKeys(META_GROUP, "inherited-from");
  }

  function Filtered(m: Labels): Labels {
    map k | k in m && !IsMeta(k) :: m[k]
  }

  method FilterMeta(m: Labels) returns (r: Labels)
    ensures r == Filtered(m)
  {
    r := map[];
    var todo := m.Keys;
    while todo != {}
      invariant todo <= m.Keys && r == map k | k in m && k !in todo && !IsMeta(k) :: m[k]
    {
      var k :| k in todo;
      if !IsMeta(k) {
        r := r[k := m[k]];
      }
      todo := todo - {k};
    }
  }

  /** The object without status, namespace and all metadata but its name and the labels and
      annotations that are not HNC's. */
  function Canon(o: Object): Object {
    Object(o.name, "", Filtered(o.labels), Filtered(o.annotations), o.body, "", false, false, "", [])
  }

  method Canonical(o: Object) returns (r: Object)
    ensures r == Canon(o)
  {
    var labels := FilterMeta(o.labels);
    var annotations := FilterMeta(o.annotations);
    r := Object(o.name, "", labels, annotations, o.body, "", false, false, "", []);
  }

  /** Reducing twice is reducing once. */
  lemma Idempotent(o: Object)
    ensures Canon(Canon(o)) == Canon(o)
  {
    assert Filtered(Filtered(o.labels)) == Filtered(o.labels);
    assert Filtered(Filtered(o.annotations)) == Filtered(o.annotations);
  }

  /** HNC's own labels and annotations make no difference, nor does any other metadata. */
  lemma Insensitive(o: Object, q: Object)
    requires q.name == o.name && q.body == o.body
    requires forall k | !IsMeta(k) :: k in q.labels <==> k in o.labels
    requires forall k | !IsMeta(k) && k in o.labels && k in q.labels :: q.labels[k] == o.labels[k]
    requires forall k | !IsMeta(k) :: k in q.annotations <==> k in o.annotations
    requires forall k | !IsMeta(k) && k in o.annotations && k in q.annotations :: q.annotations[k] == o.annotations[k]
    ensures Canon(q) == Canon(o)
  {
    assert Filtered(q.labels) == Filtered(o.labels);
    assert Filtered(q.annotations) == Filtered(o.annotations);
  }

  /** What HNC never copies. */
  datatype Unpropagated = Unpropagated(annotations: set<string>, labels: set<string>)

  /** The source as the forest stores it: marked as managed, without what is never copied. */
  function Clean(o: Object, u: Unpropagated): Object {
    o.(annotations := o.annotations - u.annotations,
       labels := o.labels[LABEL_MANAGED_BY_APPS := META_GROUP] - u.labels)
  }

  predicate IsCopy(o: Object) {
    LABEL_INHERITED_FROM in o.labels
  }

  /** Whether an existing object is the copy of that source that HNC would write. */
  predicate UpToDate(o: Object, src: Object) {
    Canon(o) == Canon(src) && IsCopy(o) && o.labels[LABEL_INHERITED_FROM] == src.namespace
  }

  /** What HNC writes: the source, reduced, in the namespace of the copy, with its origin. An object
      that is there keeps its version. */
  function Written(src: Object, n: Name, version: string): Object {
    Canon(src).(namespace := n, resourceVersion := version, created := true,
                labels := Filtered(src.labels)[LABEL_INHERITED_FROM := src.namespace])
  }

  /** An object just written needs no further write. */
  lemma WrittenIsUpToDate(src: Object, n: Name, version: string)
    ensures UpToDate(Written(src, n, version), src) && Written(src, n, version).namespace == n
  {
    InheritedFromIsMeta();
    Idempotent(src);
    Insensitive(Canon(src), Written(src, n, version));
  }

  /** A write is due exactly when the object lacks something of the source, has something of its own,
      or names another origin. */
  lemma DueWhen(o: Object, src: Object)
    ensures UpToDate(o, src) <==>
              && o.name == src.name && o.body == src.body
              && IsCopy(o) && o.labels[LABEL_INHERITED_FROM] == src.namespace
              && (forall k | !IsMeta(k) :: k in o.labels <==> k in src.labels)
              && (forall k | !IsMeta(k) && k in o.labels && k in src.labels :: o.labels[k] == src.labels[k])
              && (forall k | !IsMeta(k) :: k in o.annotations <==> k in src.annotations)
              && (forall k | !IsMeta(k) && k in o.annotations && k in src.annotations ::
                    o.annotations[k] == src.annotations[k])
  {
    SameFiltered(o.labels, src.labels);
    SameFiltered(o.annotations, src.annotations);
  }

  // ----- what a user's object becomes -----

  lemma ManagedByIsNotMeta()
    ensures !IsMeta(LABEL_MANAGED_BY_APPS)
  {
    var k := LABEL_MANAGED_BY_APPS;
    assert k[17] == '/';
    var i := FirstSlash(k);
    assert i == 17 && k[..17] == "app.kubernetes.io";
    assert k[..17][16] == 'o' && k[..17][15] == 'i' && META_GROUP[11] == 'o' && META_GROUP[10] == 'i';
    assert k[..17][14] == '.' && META_GROUP[9] == '.' && k[..17][13] == 's' && META_GROUP[8] == 's';
    assert k[..17][12] == 'e' && META_GROUP[7] == '8';
    assert k[..17][5..][7] == 'e';
  }

  /** The key is in both or neither, with the same value. */
  predicate SameAtKey(a: Labels, b: Labels, k: string) {
    (k in a <==> k in b) && (k in a && k in b ==> a[k] == b[k])
  }

  /** The annotation k of an object made from a user's: gone if it is never copied, else as the user has it. */
  predicate AnnotationKept(u: Unpropagated, user: Labels, made: Labels, k: string) {
    if k in u.annotations then k !in made else SameAtKey(user, made, k)
  }

  /** The label k likewise, except that the managed-by label names HNC. */
  predicate LabelKept(u: Unpropagated, user: Labels, made: Labels, k: string) {
    if k in u.labels then k !in made
    else if k == LABEL_MANAGED_BY_APPS then k in made && made[k] == META_GROUP
    else SameAtKey(user, made, k)
  }

  /** o is the user's object as the forest records it. */
  ghost predicate RecordedAs(u: Unpropagated, user: Object, o: Object) {
    && o.name == user.name && o.namespace == user.namespace && o.body == user.body
    && (forall k :: AnnotationKept(u, user.annotations, o.annotations, k))
    && (forall k :: LabelKept(u, user.labels, o.labels, k))
  }

  /** o is a copy of the user's object, with its origin; HNC's own keys aside. */
  ghost predicate CopiedAs(u: Unpropagated, user: Object, o: Object) {
    && o.name == user.name && o.body == user.body
    && LABEL_INHERITED_FROM in o.labels && o.labels[LABEL_INHERITED_FROM] == user.namespace
    && (forall k | !IsMeta(k) :: AnnotationKept(u, user.annotations, o.annotations, k))
    && (forall k | !IsMeta(k) :: LabelKept(u, user.labels, o.labels, k))
    && LabelKept(u, user.labels, o.labels, LABEL_MANAGED_BY_APPS)
  }

  lemma CleanMeans(u: Unpropagated, user: Object)
    ensures RecordedAs(u, user, Clean(user, u))
  {
  }

  /** What is up to date with the recorded source is a copy of the user's object. */
  lemma UpToDateMeans(u: Unpropagated, user: Object, o: Object)
    requires UpToDate(o, Clean(user, u))
    ensures CopiedAs(u, user, o)
  {
    var src := Clean(user, u);
    CleanMeans(u, user);
    DueWhen(o, src);
    ManagedByIsNotMeta();
    forall k | !IsMeta(k) ensures AnnotationKept(u, user.annotations, o.annotations, k) {
      assert AnnotationKept(u, user.annotations, src.annotations, k);
    }
    forall k | !IsMeta(k) ensures LabelKept(u, user.labels, o.labels, k) {
      assert LabelKept(u, user.labels, src.labels, k);
    }
  }

  /** What HNC writes has no key of HNC's but the origin, no finalizer and no status, and is in the right
      place with the version it replaces. */
  lemma WrittenMeans(src: Object, n: Name, version: string)
    ensures var o := Written(src, n, version);
            && o.namespace == n && o.resourceVersion == version && o.created && !o.deleting
            && o.finalizers == [] && o.status == ""
            && (forall k | IsMeta(k) :: k !in o.annotations && (k in o.labels <==> k == LABEL_INHERITED_FROM))
  {
    InheritedFromIsMeta();
  }

  /** A copy that HNC did not write can keep what is never copied, if its key is one of HNC's own: such keys
      are not compared. */
  lemma OwnKeysUncompared(src: Object, n: Name, key: string)
    requires IsMeta(key) && key !in src.annotations
    ensures var o := Written(src, n, "").(annotations := Written(src, n, "").annotations[key := ""]);
            UpToDate(o, src) && key in o.annotations
  {
    var o := Written(src, n, "").(annotations := Written(src, n, "").annotations[key := ""]);
    WrittenIsUpToDate(src, n, "");
    Insensitive(Written(src, n, ""), o);
  }

  lemma SameFiltered(a: Labels, b: Labels)
    ensures Filtered(a) == Filtered(b) <==>
              && (forall k | !IsMeta(k) :: k in a <==> k in b)
              && (forall k | !IsMeta(k) && k in a && k in b :: a[k] == b[k])
  {
    if Filtered(a) == Filtered(b) {
      forall k | !IsMeta(k) ensures (k in a <==> k in b) && (k in a && k in b ==> a[k] == b[k]) {
        assert k in a <==> k in Filtered(a);
        assert k in b <==> k in Filtered(b);
      }
    }
  }
}
