/** Sums over finite maps, and small multiples. */
module Sums {
  import opened Ancestry

  ghost function Sum(m: map<Name, int>): int {
    if m == map[] then 0
    else
      var k :| k in m;
      m[k] + Sum(m - {k})
  }

  lemma {:induction false} SumTake(m: map<Name, int>, k: Name)
    requires k in m
    ensures Sum(m) == m[k] + Sum(m - {k})
  {
    var j :| j in m && Sum(m) == m[j] + Sum(m - {j});
    if j != k {
      SumTake(m - {j}, k);
      SumTake(m - {k}, j);
      assert m - {j} - {k} == m - {k} - {j};
    }
  }

  lemma SumChange(m: map<Name, int>, k: Name, v: int)
    requires k in m
    ensures Sum(m[k := v]) == Sum(m) - m[k] + v
  {
    SumTake(m, k);
    SumTake(m[k := v], k);
    assert m[k := v] - {k} == m - {k};
  }

  lemma {:induction false} SumZero(m: map<Name, int>)
    requires forall k | k in m :: m[k] == 0
    ensures Sum(m) == 0
  {
    if m != map[] {
      var k :| k in m;
      SumTake(m, k);
      SumZero(m - {k});
    }
  }

  lemma {:induction false} SumAdd(x: map<Name, int>, y: map<Name, int>, z: map<Name, int>)
    requires x.Keys == y.Keys == z.Keys
    requires forall k | k in x :: z[k] == x[k] + y[k]
    ensures Sum(z) == Sum(x) + Sum(y)
    decreases |x|
  {
    if x != map[] {
      var k :| k in x;
      SumTake(x, k);
      SumTake(y, k);
      SumTake(z, k);
      assert |x - {k}| < |x| by {
        assert x == (x - {k})[k := x[k]];
      }
      SumAdd(x - {k}, y - {k}, z - {k});
    } else {
      assert x == y == z;
    }
  }

  /** x added up k times. */
  ghost function Times(k: nat, x: int): int {
    if k == 0 then 0 else Times(k - 1, x) + x
  }

  lemma {:induction false} TimesDifference(k: nat, x: int, y: int)
    ensures Times(k, x) - Times(k, y) == Times(k, x - y)
  {
    if k > 0 { TimesDifference(k - 1, x, y); }
  }

  lemma {:induction false} TimesZero(k: nat)
    ensures Times(k, 0) == 0
  {
    if k > 0 { TimesZero(k - 1); }
  }

  /** A change that is counted once or twice. */
  function Counted(k: nat, change: int): int {
    if k == 2 then change + change else change
  }

  lemma TimesFew(k: nat, x: int)
    requires k == 1 || k == 2
    ensures Times(k, x) == Counted(k, x)
  {
    assert Times(1, x) == Times(0, x) + x && Times(2, x) == Times(1, x) + x;
  }

  lemma OneLess(m: map<Name, int>, k: Name)
    requires k in m
    ensures |m| == |m - {k}| + 1
  {
    assert m == (m - {k})[k := m[k]];
  }

  lemma OneMoreTime(a: nat, c: nat)
    ensures (a + 1) * c == a * c + c
  {
  }

  lemma {:induction false} SumAtMost(m: map<Name, int>, c: nat)
    requires forall k | k in m :: m[k] <= c
    ensures Sum(m) <= |m| * c
    decreases |m|
  {
    if m != map[] {
      var k :| k in m;
      SumTake(m, k);
      OneLess(m, k);
      SumAtMost(m - {k}, c);
      OneMoreTime(|m - {k}|, c);
    }
  }

  lemma {:induction false} SumNotNegative(m: map<Name, int>)
    requires forall k | k in m :: m[k] >= 0
    ensures Sum(m) >= 0
    decreases |m|
  {
    if m != map[] {
      var k :| k in m;
      SumTake(m, k);
      OneLess(m, k);
      SumNotNegative(m - {k});
    }
  }

  /** The part of m about the names of s. */
  ghost function Only(m: map<Name, int>, s: set<Name>): map<Name, int> {
    map k | k in m && k in s :: m[k]
  }

  lemma OnlyTake(m: map<Name, int>, s: set<Name>, k: Name)
    requires k in s && k in m
    ensures Only(m, s) - {k} == Only(m - {k}, s - {k}) && (m - {k}) - (s - {k}) == m - s
    ensures k in Only(m, s) && Only(m, s)[k] == m[k]
  {
  }

  lemma {:induction false} SumParts(m: map<Name, int>, s: set<Name>)
    requires s <= m.Keys
    ensures Sum(m) == Sum(m - s) + Sum(Only(m, s))
    decreases |s|
  {
    if s == {} {
      assert m - s == m && Only(m, s) == map[];
    } else {
      var k :| k in s;
      OnlyTake(m, s, k);
      SumTake(m, k);
      SumTake(Only(m, s), k);
      SumParts(m - {k}, s - {k});
    }
  }

  /** A sum gets less if a term goes and all that comes in its place is less than it. */
  lemma SumLess(w: map<Name, int>, v: map<Name, int>, n: Name, below: set<Name>)
    requires n in w && n !in below && v.Keys == w.Keys - {n} + below && forall k | k in w :: w[k] >= 0
    requires forall k | k in w && k != n && k !in below :: v[k] == w[k]
    requires Sum(Only(v, below)) < w[n]
    ensures Sum(v) < Sum(w)
  {
    var rest, met := w - {n}, below * (w - {n}).Keys;
    assert v - below == rest - met;
    assert Sum(v) == Sum(rest - met) + Sum(Only(v, below)) by { SumParts(v, below); }
    assert Sum(rest) == Sum(rest - met) + Sum(Only(rest, met)) by { SumParts(rest, met); }
    assert Sum(Only(rest, met)) >= 0 by { SumNotNegative(Only(rest, met)); }
    SumTake(w, n);
  }

  lemma SumDrop(w: map<Name, int>, v: map<Name, int>, n: Name)
    requires n in w && w.Keys - {n} <= v.Keys <= w.Keys && forall k | k in w && k != n :: v[k] == w[k]
    requires w[n] > 0 && (n in v ==> v[n] < w[n])
    ensures Sum(v) < Sum(w)
  {
    var rest := w - {n};
    assert Sum(w) == w[n] + Sum(rest) by { SumTake(w, n); }
    if n in v {
      assert v - {n} == rest;
      SumTake(v, n);
    } else {
      assert v == rest;
    }
  }
}
