/** Combining the limits of several quota objects, in whatever order they are visited. */
module LimitLists {
  import opened Resources

  /** rl gives, for exactly the resources that some list names, the smallest quantity named. */
  ghost predicate IsMinOf(rl: ResourceList, lists: seq<ResourceList>) {
    && (forall l, r | l in lists && r in l :: r in rl && rl[r] <= l[r])
    && (forall r | r in rl :: exists l :: l in lists && r in l && l[r] == rl[r])
  }

  lemma MinStep(rl: ResourceList, lists: seq<ResourceList>, l: ResourceList)
    requires IsMinOf(rl, lists)
    ensures IsMinOf(Tighter(rl, l), lists + [l])
  {
    var t := Tighter(rl, l);
    forall r | r in t ensures exists m :: m in lists + [l] && r in m && m[r] == t[r] {
      if r in rl && t[r] == rl[r] {
        var m :| m in lists && r in m && m[r] == rl[r];
        assert m in lists + [l];
      } else {
        assert l in lists + [l];
      }
    }
  }

  ghost predicate Named(quotas: map<string, ResourceList>, l: ResourceList) {
    exists h :: h in quotas && quotas[h] == l
  }

  /** Tightens rl by every quota object of one namespace. */
  method MinOver(rl: ResourceList, quotas: map<string, ResourceList>, ghost lists: seq<ResourceList>)
    returns (result: ResourceList, ghost seen: seq<ResourceList>)
    requires IsMinOf(rl, lists)
    ensures IsMinOf(result, seen)
    ensures forall l :: l in seen <==> l in lists || Named(quotas, l)
  {
    result, seen := rl, lists;
    var todo := quotas.Keys;
    while todo != {}
      invariant todo <= quotas.Keys && IsMinOf(result, seen)
      invariant forall l :: l in seen <==> l in lists || exists h :: h in quotas && h !in todo && quotas[h] == l
    {
      var h :| h in todo;
      MinStep(result, seen, quotas[h]);
      result := Min(result, quotas[h]);
      seen := seen + [quotas[h]];
      todo := todo - {h};
    }
  }

  /** Whether u is within every quota object; if not, one it exceeds and the resources in excess. */
  method CheckLimits(quotas: map<string, ResourceList>, u: ResourceList)
    returns (allowed: bool, nm: string, exceeded: seq<Resource>)
    ensures allowed <==> forall h, r | h in quotas && r in quotas[h] && r in u :: u[r] <= quotas[h][r]
    ensures !allowed ==> nm in quotas && exceeded != []
    ensures !allowed ==> forall r :: r in exceeded <==> r in quotas[nm] && r in u && u[r] > quotas[nm][r]
  {
    var todo := quotas.Keys;
    while todo != {}
      invariant todo <= quotas.Keys
      invariant forall h, r | h in quotas && h !in todo && r in quotas[h] && r in u :: u[r] <= quotas[h][r]
    {
      nm :| nm in todo;
      allowed, exceeded := LessThanOrEqual(u, quotas[nm]);
      if !allowed {
        ghost var r :| r in u && r in quotas[nm] && u[r] > quotas[nm][r];
        assert r in exceeded;
        return;
      }
      todo := todo - {nm};
    }
    return true, "", [];
  }
}
