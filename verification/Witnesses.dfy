/** The forests that show a promise broken on a cycle are such as runs of the reconciler keep: every
    cycle in them is halted. */
module Witnesses {
  import opened Ancestry
  import opened Resources
  import opened World
  import Cascading
  import Hierarchy
  import Quota

  lemma HaltedEverywhere(w: World)
    requires w.Valid() && w.AbsentAreRoots() && "" !in w.names && forall n | n in w.parents :: w.data[n].Halted()
    ensures Hierarchy.Inv(w)
  {
    forall x | x in w.parents && OnCycle(w.parents, x) ensures Hierarchy.ReachesHalted(w, x) {
      ReachesSelf(w.parents, x);
      assert Hierarchy.IsHalted(w, x);
    }
  }

  lemma OneQuotaKept(subtree: ResourceList)
    ensures Hierarchy.Inv(Quota.OneQuota(true, subtree))
  {
    var w := Quota.OneQuota(true, subtree);
    Quota.OneQuotaShape(true, subtree);
    assert w.data["a"].conditions[0].tp == ACTIVITIES_HALTED;
    HaltedEverywhere(w);
  }

  /** Admission can overrun a tracked limit on a cycle: of ten, with none used, eight are granted and
      counted as sixteen. */
  lemma CycleOverruns()
    ensures var w, u := Quota.OneQuota(true, map["pods" := 0]), map["pods" := 8];
            && Hierarchy.Inv(w) && Quota.Within(w) && Quota.Admitted(w, "a", u)
            && Val(Quota.Use(w, "a", u).subtree["a"], "pods") == 16
  {
    OneQuotaKept(map["pods" := 0]);
    Quota.CycleOverruns();
  }

  /** A namespace on a cycle can be refused what an ancestor allows. */
  lemma CycleRefuses()
    ensures var w := Cascading.TwoCycle();
            Hierarchy.Inv(w) && Cascading.AllowedAbove(w, "a") && !Cascading.Allowed(w, "a")
  {
    var w := Cascading.TwoCycle();
    Cascading.CycleRefuses();
    assert w.data["a"].conditions[0].tp == ACTIVITIES_HALTED && w.data["b"].conditions[0].tp == ACTIVITIES_HALTED;
    HaltedEverywhere(w);
  }
}
