/** Resource lists: finite maps from a resource name to a quantity. Each operation is a loop that
    fills a fresh list, in any order of the keys, and is tied to the list it must produce. */
module Resources {

  type Resource = string
  type ResourceList = map<Resource, int>

  /** The quantity of a resource; an absent key counts as zero. */
  function Val(a: ResourceList, r: Resource): int {
    if r in a then a[r] else 0
  }

  function Plus(a: ResourceList, b: ResourceList): ResourceList {
    map r | r in a.Keys + b.Keys :: Val(a, r) + Val(b, r)
  }

  function Minus(a: ResourceList, b: ResourceList): ResourceList {
    map r | r in a.Keys + b.Keys :: Val(a, r) - Val(b, r)
  }

  function PlusWhereBoth(a: ResourceList, b: ResourceList): ResourceList {
    map r | r in a.Keys * b.Keys :: a[r] + b[r]
  }

  function Positive(a: ResourceList): ResourceList {
    map r | r in a && a[r] > 0 :: a[r]
  }

  function Masked(a: ResourceList, names: set<Resource>): ResourceList {
    map r | r in a && r in names :: a[r]
  }

  function Tighter(a: ResourceList, b: ResourceList): ResourceList {
    map r | r in a.Keys + b.Keys ::
      if r in a && r in b then (if a[r] > b[r] then b[r] else a[r]) else if r in a then a[r] else b[r]
  }

  /** What the lists are made of: a resource is in a sum or difference if it is in either list, and in the
      tighter of two limits with the smaller one of those that are there. */
  lemma ListsMean(a: ResourceList, b: ResourceList, r: Resource)
    ensures r in Plus(a, b) <==> r in a || r in b
    ensures Val(Plus(a, b), r) == Val(a, r) + Val(b, r)
    ensures r in Minus(a, b) <==> r in a || r in b
    ensures Val(Minus(a, b), r) == Val(a, r) - Val(b, r)
    ensures r in Tighter(a, b) <==> r in a || r in b
    ensures r in a ==> Tighter(a, b)[r] <= a[r]
    ensures r in b ==> Tighter(a, b)[r] <= b[r]
    ensures r in Tighter(a, b) ==> (r in a && Tighter(a, b)[r] == a[r]) || (r in b && Tighter(a, b)[r] == b[r])
  {
  }

  method Equals(a: ResourceList, b: ResourceList) returns (eq: bool)
    ensures eq <==> a == b
  {
    if |a| != |b| {
      return false;
    }
    var todo := a.Keys;
    while todo != {}
      invariant todo <= a.Keys
      invariant forall r | r in a && r !in todo :: r in b && a[r] == b[r]
    {
      var r :| r in todo;
      if r !in b || a[r] != b[r] {
        return false;
      }
      todo := todo - {r};
    }
    SameSizeSubset(a.Keys, b.Keys);
    return true;
  }

  lemma SameSizeSubset(a: set<Resource>, b: set<Resource>)
    requires a <= b && |a| == |b|
    ensures a == b
  {
    assert |b - a| == |b| - |a|;
  }

  /** Whether a is within b, and the resources of a that exceed b. */
  method LessThanOrEqual(a: ResourceList, b: ResourceList) returns (ok: bool, exceeded: seq<Resource>)
    ensures ok <==> forall r | r in a && r in b :: a[r] <= b[r]
    ensures forall r :: r in exceeded <==> r in a && r in b && a[r] > b[r]
    ensures forall i, j | 0 <= i < j < |exceeded| :: exceeded[i] != exceeded[j]
  {
    ok, exceeded := true, [];
    var todo := b.Keys;
    while todo != {}
      invariant todo <= b.Keys
      invariant ok <==> |exceeded| == 0
      invariant forall r :: r in exceeded <==> r in b && r !in todo && r in a && a[r] > b[r]
      invariant forall i, j | 0 <= i < j < |exceeded| :: exceeded[i] != exceeded[j]
    {
      var r :| r in todo;
      if r in a && a[r] > b[r] {
        ok, exceeded := false, exceeded + [r];
      }
      todo := todo - {r};
    }
    assert !ok ==> exceeded[0] in exceeded;
  }

  method AddIfExists(a: ResourceList, b: ResourceList) returns (result: ResourceList)
    ensures result == PlusWhereBoth(a, b)
    ensures forall r :: r in result <==> r in a && r in b
    ensures forall r | r in result :: result[r] == a[r] + b[r]
  {
    result := map[];
    var todo := a.Keys;
    while todo != {}
      invariant todo <= a.Keys
      invariant result == map r | r in a.Keys * b.Keys && r !in todo :: a[r] + b[r]
    {
      var r :| r in todo;
      if r in b {
        result := result[r := a[r] + b[r]];
      }
      todo := todo - {r};
    }
  }

  method Add(a: ResourceList, b: ResourceList) returns (result: ResourceList)
    ensures result == Plus(a, b)
  {
    result := map[];
    var todo := a.Keys;
    while todo != {}
      invariant todo <= a.Keys
      invariant result == map r | r in a && r !in todo :: a[r] + Val(b, r)
    {
      var r :| r in todo;
      result := result[r := if r in b then a[r] + b[r] else a[r]];
      todo := todo - {r};
    }
    todo := b.Keys;
    while todo != {}
      invariant todo <= b.Keys
      invariant result == map r | r in a.Keys + (b.Keys - todo) :: Val(a, r) + Val(b, r)
    {
      var r :| r in todo;
      if r !in result {
        result := result[r := b[r]];
      }
      todo := todo - {r};
    }
  }

  method Subtract(a: ResourceList, b: ResourceList) returns (result: ResourceList)
    ensures result == Minus(a, b)
  {
    result := map[];
    var todo := a.Keys;
    while todo != {}
      invariant todo <= a.Keys
      invariant result == map r | r in a && r !in todo :: a[r] - Val(b, r)
    {
      var r :| r in todo;
      result := result[r := if r in b then a[r] - b[r] else a[r]];
      todo := todo - {r};
    }
    todo := b.Keys;
    while todo != {}
      invariant todo <= b.Keys
      invariant result == map r | r in a.Keys + (b.Keys - todo) :: Val(a, r) - Val(b, r)
    {
      var r :| r in todo;
      if r !in result {
        result := result[r := -b[r]];
      }
      todo := todo - {r};
    }
  }

  method OmitLTEZero(a: ResourceList) returns (result: ResourceList)
    ensures result == Positive(a)
    ensures forall r :: r in result <==> r in a && a[r] > 0
    ensures forall r | r in result :: result[r] == a[r]
  {
    result := a;
    var todo := a.Keys;
    while todo != {}
      invariant todo <= a.Keys
      invariant result == map r | r in a && (r in todo || a[r] > 0) :: a[r]
    {
      var r :| r in todo;
      if a[r] <= 0 {
        result := result - {r};
      }
      todo := todo - {r};
    }
  }

  method Min(a: ResourceList, b: ResourceList) returns (result: ResourceList)
    ensures result == Tighter(a, b)
  {
    result := map[];
    var todo := a.Keys;
    while todo != {}
      invariant todo <= a.Keys
      invariant result == map r | r in a && r !in todo :: if r in b && a[r] > b[r] then b[r] else a[r]
    {
      var r :| r in todo;
      if r in b && a[r] > b[r] {
        result := result[r := b[r]];
      } else {
        result := result[r := a[r]];
      }
      todo := todo - {r};
    }
    ghost var first := result;
    todo := b.Keys;
    while todo != {}
      invariant todo <= b.Keys
      invariant result == map r | r in a.Keys + (b.Keys - todo) :: if r in a then first[r] else b[r]
    {
      var r :| r in todo;
      if r !in result {
        result := result[r := b[r]];
      }
      todo := todo - {r};
    }
  }

  method FilterUnlimited(usages: ResourceList, limits: ResourceList) returns (result: ResourceList)
    ensures result == Masked(usages, limits.Keys)
    ensures forall r :: r in result <==> r in usages && r in limits
    ensures forall r | r in result :: result[r] == usages[r]
  {
    result := map[];
    var todo := usages.Keys;
    while todo != {}
      invariant todo <= usages.Keys
      invariant result == map r | r in usages && r !in todo && r in limits.Keys :: usages[r]
    {
      var r :| r in todo;
      if r in limits {
        result := result[r := usages[r]];
      }
      todo := todo - {r};
    }
  }
}
