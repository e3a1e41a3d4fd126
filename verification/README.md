# Hierarchical namespaces: the forest and its protocols, proved

The Hierarchical Namespace Controller (HNC) keeps a forest of namespaces in memory and lets its
reconcilers and admission checks work on it one at a time, under a lock. This project models that
forest and those steps, and proves what every step and every run of steps keeps.

There are two layers.

- **Values.** `Ancestry` and `Structure` are the theory of parent links that may contain cycles.
  `World` is the forest as a value; `Ledger`, `Quota`, `Moves` and `MoveEffects` are the accounting of
  hierarchical quotas on it; `Hierarchy` is the hierarchy reconciler's step, `Accounting` the usages over
  runs of it, and `Convergence` its work queue; `LabelWalk` and `LabelIndex` are the labels it computes,
  of one namespace and of all; `Propagation` is the work queue of the object reconciler; `Anchor` the
  life of a subnamespace and its anchor. `Witnesses` and `Unnoticed` have forests, of the kind that runs
  keep, on which a promise is broken. `Sums`,
  `Strings`, `Decimal`, `NameOrder`, `Resources` and `LimitLists` are what these stand on.
- **Objects in memory.** `Forest` has the classes `Namespace` and `Forest`, with links that the
  methods change in place. `Valid()` says that parent and child links mirror each other, lead only to
  the forest's own namespaces, and hold what the ghost field `world` says. Each method is proved to
  turn `world` into what the value layer says, so every theorem about values is one about the
  methods. `Conditions`, `Reconciler`, `Requeue`, `Cascading`, `LabelSync`, `Validator`, `Conflicts`
  and `Propagator` are the code that uses the forest.

How the system is rendered:

- A forest is a finite map of names to namespaces. Resource lists are finite maps to integers, and
  absent entries of usages count as zero. A nil list and an empty list are the same, which is how the
  code treats them.
- What is read from the apiserver, whether names, labels and annotations are managed, and which
  objects a selector lets through are parameters of the steps, so the theorems hold for all of them.
- A walk up that does not watch for cycles is a loop or a recursion with a ghost bound on its length;
  that there is one in every forest that runs lead to is a theorem (`Hierarchy.WalkStops`).
- `SetParent` demands that the new parent is not one that is being forgotten by the same call, and
  that only synced namespaces have parents. `Moves.ClosedExactly` shows that the first is exactly
  what keeps the links inside the forest, and `Hierarchy.MovableIfDifferent` that the reconciler's
  guard is enough for it; the second is part of what every run keeps.
- "Tracked" (`Quota.Within`) means that a limited resource has an entry in the subtree usage of the
  namespace with the quota. Admission compares nothing else, and compares once what a cycle counts
  twice; `Quota.AdmissionExact` and `Quota.TryUseExact` say exactly what that lets through.
- A pair of an anchor and a namespace carries a note (`doomed`) that HNC asked for the deletion of
  the namespace. It is there to state the protocol's promise and decides nothing.

Where the code and its comments differ, the model follows the code: the comment on
`AllowsCascadingDeletion` promises any ancestor, while the code looks no further than the first
namespace on a cycle. `Cascading.CutShortExactly` says when that makes a difference. A change of
parent queues the members of a cycle it may break; a deletion queues only the parent and the children,
and `Convergence.StepFreshExactly` says when that is too little.

## Model

| member | source | states |
|---|---|---|
| `Ancestry.AncestryUnique` | internal/forest/namespacestructure.go:107-131 | there is exactly one list with the properties promised of an ancestry: the namespace last, each entry the parent of the next, ending at a root or at the first name met twice |
| `Ancestry.AncestryMembers` | internal/forest/namespacestructure.go:107-131 | the ancestry list holds exactly the namespace and what parent links lead to from it, cycles included |
| `Ancestry.CycleAtFront` | internal/forest/namespacestructure.go:136-142 | a namespace is on a cycle exactly when it is both the first and the last entry of a list of more than one |
| `Ancestry.RepeatIsCycle` | internal/forest/namespacestructure.go:110-112 | only the first entry can repeat, and it repeats exactly when the walk up meets a cycle; otherwise the first entry is a root |
| `Forest.Forest.AncestryNames` | internal/forest/namespacestructure.go:113-131 | on every consistently linked forest, cyclic or not, the loop ends and returns the one ancestry list, and every name in it is in the forest |
| `Forest.Forest.CycleNames` | internal/forest/namespacestructure.go:136-158 | returns the canonical list of the cycle, and nothing exactly off cycles |
| `Structure.CycleNameShared` | internal/forest/namespacestructure.go:133-135 | all members of a cycle have the same canonical list |
| `Structure.CycleNameIdentifies` | internal/forest/namespacestructure.go:133-135 | and different cycles have different ones |
| `Structure.CycleNameOfRotation` | internal/forest/namespacestructure.go:145-157 | rotating any member's list to its smallest name gives the ancestry of the smallest member of the cycle |
| `Structure.CycleAfterMove` | internal/forest/namespacestructure.go:76-92 | making q the parent of n puts n on a cycle exactly when q already reaches n, on forests with other cycles too |
| `Forest.Forest.CanSetParent` | internal/forest/namespacestructure.go:66-92 | accepts a parent exactly when the namespace is then on no cycle; no parent is always accepted |
| `Forest.Forest.ChildNames` | internal/forest/namespacestructure.go:12-22 | sorted, without duplicates, exactly the namespaces whose parent this is |
| `Forest.Forest.DescendantNames` | internal/forest/namespacestructure.go:166-178 | sorted, without duplicates, exactly the namespaces that reach this one by one or more parent links, on cycles too |
| `Forest.Forest.PopulateDescendants` | internal/forest/namespacestructure.go:182-191 | the recursion through the visited names ends, adds only descendants, and adds the children of everything it adds |
| `Forest.Forest.Get` | internal/forest/forest.go:83-102 | returns the forest's namespace of the name, inserting an unlinked one if needed; keeps every link and every datum; the empty name is no namespace |
| `Forest.Forest.SetParent` | internal/forest/namespacestructure.go:39-62 | performs `Moves.SetParent` and keeps parent and child links mirror images that lead only to namespaces of the forest, although it may forget the old parent |
| `Forest.Forest.Clean` | internal/forest/namespace.go:135-143 | forgets a namespace exactly when it neither exists nor has children; the links stay right exactly if it has no parent then |
| `Moves.ClosedExactly` | internal/forest/namespacestructure.go:39-62 | links lead only to known namespaces after the change exactly when the new parent is not the old one that is being forgotten |
| `Moves.ReassignDangles` | internal/forest/namespacestructure.go:45-57 | which does happen: setting again the missing parent of its only child leaves a link to a forgotten namespace; the callers never do |
| `Hierarchy.MovableIfDifferent` | internal/hierarchyconfig/reconciler.go:450-462 | the guard of the only caller that passes a parent is enough |
| `NameOrder.LessMeans` | internal/forest/namespacestructure.go:145-152 | the order of names: a beginning comes first, and else the smaller letter at the first difference decides |
| `Resources.Equals` | internal/hrq/utils/resources.go:13-29 | decides equality of the two lists as maps |
| `Resources.LessThanOrEqual` | internal/hrq/utils/resources.go:33-45 | true exactly when no resource in both exceeds; otherwise the names that do |
| `Resources.AddIfExists` | internal/hrq/utils/resources.go:48-58 | sums over exactly the resources in both |
| `Resources.Add` | internal/hrq/utils/resources.go:61-76 | sums over the resources in either, an absent one counting as zero |
| `Resources.Subtract` | internal/hrq/utils/resources.go:79-96 | differences over the resources in either, zero entries kept |
| `Resources.OmitLTEZero` | internal/hrq/utils/resources.go:99-108 | exactly the positive entries |
| `Resources.Min` | internal/hrq/utils/resources.go:113-130 | per resource the smaller of the limits that are there |
| `Resources.FilterUnlimited` | internal/hrq/utils/resources.go:133-156 | exactly the entries of the limited resources |
| `Resources.ListsMean` | internal/hrq/utils/resources.go:61-130 | for each resource, whether it is in a sum, a difference or the tighter of two limits, and with which quantity |
| `Forest.Forest.Limits` | internal/forest/namespacehrq.go:201-211 | for exactly the resources limited in the namespace or above it, the smallest limit, in whatever order the quota objects come |
| `Quota.LimitsUnique` | internal/forest/namespacehrq.go:198-211 | which determines the result |
| `Quota.LimitsTighten` | internal/forest/namespacehrq.go:198-211 | further down, more resources are limited and every limit is at least as tight, cycles included |
| `LimitLists.CheckLimits` | internal/forest/namespacehrq.go:180-187 | allowed exactly when no quota object is exceeded; else one that is, with the resources that exceed it |
| `Forest.Forest.CanUseResources` | internal/forest/namespacehrq.go:94-126 | admits exactly when no tracked resource whose usage grows would exceed a quota object of the namespace or of one above it |
| `Forest.Forest.UseResources` | internal/forest/namespacehrq.go:144-172 | performs `Quota.Use`; touches nothing but usages |
| `Forest.Forest.TryUseResources` | internal/forest/namespacehrq.go:76-86 | uses the resources if admitted and otherwise changes nothing |
| `Quota.DeniedExactly` | internal/forest/namespacehrq.go:94-126 | a request is denied exactly when some tracked resource whose usage it raises would be over a limit of the namespace or of one above it, with the raise added to what is recorded there |
| `Quota.ShrinkingAdmitted` | internal/forest/namespacehrq.go:94-101 | so a request that raises nothing is always admitted, however far over its limits the namespace is |
| `Quota.UseRefines` | internal/forest/namespacehrq.go:144-172 | passing a change on to the ancestors keeps every cached total equal to the sum computed from scratch, with the multiplicity a cycle gives it |
| `Quota.RunRefines` | internal/forest/namespacehrq.go:144-172 | so does every run of reports and requests, on any forest |
| `Quota.TryUseSafe` | internal/forest/namespacehrq.go:76-126 | one request, granted or not, keeps every namespace within every quota object if there is no cycle above |
| `Quota.RunSafe` | internal/forest/namespacehrq.go:76-187 | every run of requests for namespaces with no cycle above, on a forest that starts tracked and within its limits, ends within them |
| `Quota.AdmissionExact` | internal/forest/namespacehrq.go:102-107 | on any forest, an admitted request keeps a limit exactly when the resource is tracked there and counted once, or what is really added, twice where a cycle counts it twice, fits |
| `Quota.TryUseExact` | internal/forest/namespacehrq.go:76-126 | from within all limits a request ends within them exactly when it is denied, or the limits of the first namespace on a cycle above, if there is one, leave room for counting it twice |
| `Quota.OccursCases` | internal/forest/namespacehrq.go:165-171 | a namespace is counted twice exactly when it is the first one on a cycle that the walk up meets, and otherwise once |
| `Quota.UntrackedGrantsAnything` | internal/forest/namespacehrq.go:102-105 | without tracking the limit is not kept: a quota of ten admits a hundred |
| `Witnesses.CycleOverruns` | internal/forest/namespacehrq.go:165-171 | nor on a cycle, on a forest that runs can keep: of ten, with none used, eight are granted and counted as sixteen |
| `Forest.Forest.RectifySubtreeUsages` | internal/forest/namespacehrq.go:260-300 | performs `Quota.Rectify` in whatever order the maps are visited, and reports exactly the quota objects of the namespaces it corrected |
| `Forest.Forest.Tally` | internal/forest/namespacehrq.go:262-273 | one pass over all namespaces in any order gives the totals |
| `Quota.RectifyFromGarbage` | internal/forest/namespacehrq.go:253-258 | from any subtree usages at all, every one is then the filtered sum, and a second run corrects and reports nothing |
| `Quota.RectifyTracksExactly` | internal/forest/namespacehrq.go:275-289 | rectification keeps limited resources tracked exactly when each is used somewhere below its quota: it drops entries nobody uses |
| `Quota.RectifyUntracks` | internal/forest/namespacehrq.go:275-289 | which happens: a limit tracked as a zero on a right forest within its limits is untracked |
| `Forest.Forest.UpdateLimits` | internal/forest/namespacehrq.go:242-251 | stores the limits and says whether they differ from those stored, where limits on nothing do not differ from none |
| `Quota.WithLimitsMeans` | internal/forest/namespacehrq.go:242-251 | storing sets the limits of that quota object and keeps those of every other one |
| `Forest.Forest.RemoveLimits` | internal/forest/namespacehrq.go:236-238 | forgets the quota object's limits and nothing else |
| `Moves.MoveConserves` | internal/forest/namespacestructure.go:39-62 | moving a namespace below which nothing else uses anything keeps all cached totals right, under any limits the new ancestors set, cycles included |
| `Moves.MoveKeepsUsage` | internal/forest/namespacestructure.go:40-61 | of usages, only that of the moved namespace changes: to the part limited at its new place |
| `Moves.MoveLeavesBehind` | internal/forest/namespacestructure.go:40-61 | otherwise, off cycles, the usage cached at each ancestor it leaves grows too high by exactly the usage of what is strictly below the moved namespace |
| `Moves.MoveBringsTooLittle` | internal/forest/namespacestructure.go:40-61 | and at each ancestor it joins gets too low by as much |
| `Moves.MoveRightOutside` | internal/forest/namespacestructure.go:40-61 | so off cycles a usage that was right stays right, outside what is at or below the moved namespace, exactly where that is under both before and after or neither, or where nothing strictly below it uses the resource |
| `MoveEffects.MoveKeepsBelow` | internal/forest/namespacestructure.go:40-61 | strictly below the moved namespace neither the cached usage nor the sum changes, only which resources are limited |
| `MoveEffects.PutBack` | internal/forest/namespacestructure.go:40-61 | at the moved namespace itself: the sum, and the cached usage in every case of what is limited before and after |
| `MoveEffects.MoveRightExactly` | internal/forest/namespacestructure.go:40-61 | off cycles, at every namespace and for every resource, a right usage is right after the move exactly when: elsewhere, as above; strictly below, the resource is limited both before and after or neither, or its sum is zero; at the moved namespace, the same or nothing strictly below uses it, or its limit ends while the namespace uses something still limited |
| `MoveEffects.MoveConsistentExactly` | internal/forest/namespacestructure.go:39-62 | so a move keeps all of a right forest right exactly when that holds everywhere |
| `MoveEffects.MoveStartsWrong` | internal/forest/namespacestructure.go:40-61 | a limit that begins is such a case: on a right forest, moving a root with a busy child under a namespace with a quota leaves nothing cached for the three that the child uses |
| `Moves.MoveGoesWrong` | internal/forest/namespacestructure.go:40-61 | which happens: on a right forest of three, making the middle one a root leaves the top with a usage of three too much |
| `Accounting.StepConserves` | internal/hierarchyconfig/reconciler.go:200-299 | lookups, syncs, deletions, reports, requests and updates keep every cached usage the sum if nothing is in use below a namespace that moves or goes |
| `Accounting.RunConserves` | internal/hierarchyconfig/reconciler.go:200-299 | so does every run of them from any state that runs keep, cycles or not |
| `Accounting.EmptyConsistent` | internal/forest/forest.go:67-72 | and the empty forest is such a state |
| `Hierarchy.SyncKeeps` | internal/hierarchyconfig/reconciler.go:274-299 | a sync, whatever the configuration says, keeps: a halted namespace on every cycle, parents only on synced namespaces, links inside the forest; only the synced namespace's parent changes, to the configured one |
| `Hierarchy.GoneKeeps` | internal/hierarchyconfig/reconciler.go:200-210 | so does finding a namespace gone |
| `Hierarchy.StepKeeps` | internal/hierarchyconfig/reconciler.go:149-198 | so does every step |
| `Hierarchy.RunKeeps` | internal/hierarchyconfig/reconciler.go:149-198 | so does every run of steps |
| `Hierarchy.EmptyInv` | internal/forest/forest.go:67-72 | the empty forest has all this |
| `Hierarchy.ChangeKeepsCyclesHalted` | internal/hierarchyconfig/reconciler.go:476-485 | changing one namespace's parent keeps a halt on every cycle if that namespace is then off cycles or halted itself |
| `Hierarchy.WalkStops` | internal/forest/namespaceconditions.go:29-37 | hence walks up that do not watch for cycles end, in every forest that runs lead to |
| `Reconciler.SyncWithForest` | internal/hierarchyconfig/reconciler.go:274-299 | performs `Hierarchy.Sync` on the linked namespaces, keeping them linked and, over runs, every cycle halted; puts the namespace where the fields of its configuration say |
| `Reconciler.SyncNamespace` | internal/hierarchyconfig/reconciler.go:274-302 | place and labels together, in terms of the configuration: where the namespace is put, which labels are recorded, and what its own labels become; every cycle is still halted, and a namespace that is not external has the labels of a sync |
| `Reconciler.Prepare` | internal/hierarchyconfig/reconciler.go:284-297 | clears the conditions, takes over manager and subnamespace status, and finds the parent and the labels and annotations to set |
| `Reconciler.SyncExternalNamespace` | internal/hierarchyconfig/reconciler.go:339-357 | the manager is the annotation's, or HNC if it names none |
| `Reconciler.SyncSubnamespace` | internal/hierarchyconfig/reconciler.go:363-409 | a subnamespace is a managed one with an owner that is not being deleted; it takes its parent from the owner and its labels and annotations from its anchor; a missing anchor is a bad configuration |
| `Reconciler.SyncParent` | internal/hierarchyconfig/reconciler.go:428-474 | moves the namespace to its configured parent, with the halts that call for it |
| `Reconciler.SetCycleCondition` | internal/hierarchyconfig/reconciler.go:476-485 | halts the namespace exactly when it is on a cycle |
| `Reconciler.UnsetExists` | internal/forest/namespace.go:98-104 | performs `Hierarchy.Unset`, and says whether the namespace existed |
| `Reconciler.OnMissingNamespace` | internal/hierarchyconfig/reconciler.go:200-210 | performs `Hierarchy.Gone`, keeping the links and, over runs, every cycle halted |
| `Convergence.SyncGives` | internal/hierarchyconfig/reconciler.go:274-299 | what a sync makes of a namespace: its place, its manager and exactly its conditions, while all others that are there stay as they are |
| `Hierarchy.ConfigMeans` | internal/hierarchyconfig/reconciler.go:339-409 | what the fields of a configuration amount to: managed elsewhere there is no parent; a live subnamespace is under its owner with the labels and annotations of its anchor; any other is where it asks to be |
| `Convergence.SyncMeans` | internal/hierarchyconfig/reconciler.go:274-299 | so after a sync, in those terms: the parent, the manager, whether it is a subnamespace, and exactly which conditions with which reasons: of halts the cycle's before an unmanaged or missing parent's before the CRD's |
| `Convergence.UnmanagedParentHalts` | internal/hierarchyconfig/reconciler.go:441-444 | a sync under an unmanaged parent leaves the namespace halted |
| `Convergence.SyncLeaves` | internal/hierarchyconfig/reconciler.go:274-299 | labels, sources and cascading deletion of the namespace stay; a new one has none |
| `Convergence.SyncUsage` | internal/hierarchyconfig/reconciler.go:432-462 | a sync cuts the usage of a namespace that moves, and of an external one every time, to what is limited at its place, and leaves any other |
| `Hierarchy.AncestorNotStored` | internal/forest/namespaceconditions.go:43-47 | a halt inherited from an ancestor is never stored |
| `Convergence.GoneForgets` | internal/forest/namespace.go:96-104 | a namespace that is gone stays known exactly while another one has it as its parent |
| `Convergence.GoneForgetsParent` | internal/forest/namespacestructure.go:45-57 | and of all others only its parent is forgotten, exactly if that is missing and had no other child |
| `Convergence.RelativesQueued` | internal/hierarchyconfig/reconciler.go:339-473 | a sync queues the old and the new parent of a namespace that moves, the parent and children of a new one, and everything below one that moves or becomes or stops being external or halted |
| `Convergence.OnlyRelativesQueued` | internal/hierarchyconfig/reconciler.go:339-473 | and nothing that is neither its parent before or after, nor below it before or after |
| `Convergence.BereftMeans` | internal/hierarchyconfig/reconciler.go:200-210 | a deletion queues exactly the parent and the children |
| `Convergence.FreshMeans` | internal/hierarchyconfig/reconciler.go:274-310 | a namespace has the conditions it should have exactly if a sync would leave it in place and give it those it has |
| `Convergence.CycleQueued` | internal/hierarchyconfig/reconciler.go:456-473 | every namespace that joins or leaves a cycle because another one has moved, or has become external, is queued by that |
| `Convergence.StepPlaced` | internal/hierarchyconfig/reconciler.go:149-198 | every reconciliation, of whichever queued namespace, leaves what is not queued where its configuration puts it |
| `Convergence.StepFreshExactly` | internal/hierarchyconfig/reconciler.go:200-210 | it leaves what is not queued with the conditions a sync would give it, exactly if it is a sync, or the namespace found gone is on no cycle with a member that is neither its parent, nor its child, nor queued anyway |
| `Convergence.CoveredExactly` | internal/hierarchyconfig/reconciler.go:200-210 | with nothing else queued, exactly a cycle of more than three has such a member |
| `Unnoticed.StaysStale` | internal/hierarchyconfig/reconciler.go:200-210 | which happens: deleting one of a cycle of four lets the queue drain and leaves the one opposite halted for a cycle that is no more |
| `Convergence.StepNearer` | internal/hierarchyconfig/reconciler.go:274-325 | whichever queued namespace is taken, the end is nearer: fewer are out of place, or as many and fewer have wrong conditions, or as many and fewer are queued |
| `Convergence.Drains` | internal/hierarchyconfig/reconciler.go:274-325 | so the queue drains, whatever is taken next |
| `Convergence.RunPlaces` | internal/hierarchyconfig/reconciler.go:149-198 | over every run, what is not queued is where it is configured to be |
| `Convergence.RunFreshens` | internal/hierarchyconfig/reconciler.go:149-198 | and has the conditions it should have, if no cycle went unnoticed |
| `Convergence.DrainedPlaces` | internal/hierarchyconfig/reconciler.go:274-299 | with an empty queue the forest has exactly the configured namespaces, linked as configured, whatever the order was |
| `Convergence.DrainedConditions` | internal/hierarchyconfig/reconciler.go:274-310 | and, if no cycle went unnoticed, the conditions that the configurations alone determine |
| `Convergence.DrainedMeans` | internal/hierarchyconfig/reconciler.go:274-310 | in terms of the configurations: each namespace is where its own puts it, with exactly the conditions it should have there |
| `Convergence.StartUp` | internal/hierarchyconfig/reconciler.go:149-198 | in particular on every run from start-up to an empty queue |
| `Convergence.EditKeeps` | internal/hierarchyconfig/reconciler.go:804-841 | a change or deletion of a namespace or its configuration, which queues it, leaves the rest as it should be |
| `Requeue.SyncAndEnqueue` | internal/hierarchyconfig/reconciler.go:274-325 | syncs on the linked namespaces, and returns exactly what the sync queues: for a new place, a new or ended halt, a new namespace, or one that becomes or stops being external |
| `Requeue.MissAndEnqueue` | internal/hierarchyconfig/reconciler.go:200-210 | for a namespace that is gone, exactly its parent and children |
| `Requeue.Reconcile` | internal/hierarchyconfig/reconciler.go:149-198 | performs `Convergence.Reconciled` |
| `Conditions.IsHalted` | internal/forest/namespaceconditions.go:14-24 | whether some condition is a halt |
| `Conditions.ClearConditions` | internal/forest/namespaceconditions.go:57-59 | no conditions remain; nothing else changes |
| `Conditions.SetCondition` | internal/forest/namespaceconditions.go:43-54 | the condition replaces the one of its type; a halt inherited from an ancestor is never stored |
| `Conditions.GetHaltedRoot` | internal/forest/namespaceconditions.go:29-37 | the first halted namespace on the way up, or none exactly when nothing on the way is halted |
| `Conditions.HaltedRootOf` | internal/forest/namespaceconditions.go:26-37 | on every forest that runs lead to |
| `Conditions.HaltedRootUnique` | internal/forest/namespaceconditions.go:26-37 | which determines it, on cycles too |
| `Cascading.AllowsCascadingDeletion` | internal/forest/namespace.go:157-167 | allowed exactly when a namespace at or above this one allows it and no other on the way there is on a cycle |
| `Cascading.CutShortExactly` | internal/forest/namespace.go:155-167 | the answer is less than the promised any ancestor exactly when the walk up meets a namespace on a cycle, nothing up to and including it allows it, and something further round does |
| `Witnesses.CycleRefuses` | internal/forest/namespace.go:155-167 | which happens on a forest that runs can keep: of two that are each other's parent, one is refused what the other allows |
| `Cascading.AllowedOffCycles` | internal/forest/namespace.go:155-156 | so without cycles above they agree |
| `LabelSync.ManagedLabels` | internal/hierarchyconfig/reconciler.go:500-509 | the managed labels of a configuration, and whether it sets any other label |
| `LabelSync.ManagedInExactly` | internal/hierarchyconfig/reconciler.go:500-509 | they are exactly the managed labels that occur, each with the last value given |
| `LabelSync.SplitLabels` | internal/hierarchyconfig/reconciler.go:513-524 | an external namespace keeps its labels and adds its managed ones; any other loses managed and tree labels and no more |
| `LabelSync.WalkUp` | internal/hierarchyconfig/reconciler.go:548-579 | the loop ends although it does not watch for cycles, and gives the labels of the walk |
| `LabelSync.SyncLabels` | internal/hierarchyconfig/reconciler.go:499-589 | records exactly the managed labels configured and, of an external namespace, its own; stores the walk's labels; lifts no halt. An external namespace gets its own tree label as zero. What no namespace on the walk sets stays as it is on the apiserver, except that a namespace that is not external loses managed and tree labels; of a namespace that is not external this is a step of the runs below |
| `LabelSync.RecordedExactly` | internal/hierarchyconfig/reconciler.go:500-536 | what is recorded: each managed label with the last value configured, or with its own if external; a label that is not managed is noted as a bad configuration |
| `LabelSync.MadeFromOwn` | internal/hierarchyconfig/reconciler.go:513-579 | the resulting labels against those on the apiserver, label by label |
| `LabelWalk.WalkedTree` | internal/hierarchyconfig/reconciler.go:550-579 | of tree labels, the walk sets exactly those of the namespaces it passes, to their distance, and those of the external namespace it ends at, to that much more than they were |
| `LabelWalk.WalkedManaged` | internal/hierarchyconfig/reconciler.go:554-558 | a label set anywhere on the walk gets the value set topmost; every other label is left alone |
| `LabelWalk.TopmostExists` | internal/hierarchyconfig/reconciler.go:554-558 | of the namespaces on the walk that set a label, one is topmost |
| `LabelWalk.WalkedLeaves` | internal/hierarchyconfig/reconciler.go:548-579 | a label that no namespace on the walk sets is left alone |
| `LabelWalk.WalkedExternal` | internal/hierarchyconfig/reconciler.go:560-569 | the tree labels of the external namespace at the end come down with the number of steps added |
| `LabelWalk.NothingBeyond` | internal/hierarchyconfig/reconciler.go:563-576 | nothing beyond a halted or external namespace is on the walk |
| `LabelWalk.AllUpTo` | internal/hierarchyconfig/reconciler.go:548-579 | and everything up to there is |
| `LabelIndex.TreeIndex` | internal/hierarchyconfig/reconciler.go:546-579 | without halted or external namespaces, a synced namespace carries the label of `a` exactly when it is `a` or a descendant, and its value is the number of parent steps to `a` |
| `LabelIndex.SyncedExactly` | internal/hierarchyconfig/reconciler.go:530-536 | whatever managed labels are recorded elsewhere, a synced namespace stays synced exactly when every managed label has the same topmost value seen from it |
| `LabelIndex.SameEffectsWhen` | internal/hierarchyconfig/reconciler.go:530-536 | which it has if the managed labels are unchanged or the walk does not pass where they changed |
| `LabelIndex.RecordingUnsyncs` | internal/hierarchyconfig/reconciler.go:530-536 | and has not below a root that records a new one: the code queues the descendants again |
| `LabelIndex.RunSyncsExactly` | internal/hierarchyconfig/reconciler.go:499-589 | at the end of any run of syncs, whatever they recorded, a namespace is synced exactly when every managed label has the value, seen from it, that it had at its last sync |
| `LabelIndex.RunSyncs` | internal/hierarchyconfig/reconciler.go:546-589 | so with managed labels as recorded, a namespace synced once in a run of syncs stays synced, whatever is synced before and after |
| `LabelIndex.IndexAfterRun` | internal/hierarchyconfig/reconciler.go:546-589 | when every namespace has been synced, in whatever order and however often, and whatever managed labels the syncs recorded, the tree labels index the whole forest |
| `LabelIndex.DequeuedKeeps` | internal/hierarchyconfig/reconciler.go:526-536 | with the descendants queued again when new managed labels are recorded, whichever queued namespace is synced next, what is not queued has recorded what it is to and is synced |
| `LabelIndex.DequeuedDecreases` | internal/hierarchyconfig/reconciler.go:526-536 | and the queue drains, although a sync may queue everything below |
| `LabelWalk.TreeKeyInjective` | internal/apiextension/handlers/handlers.go:178-184 | different namespaces have different tree labels |
| `Decimal.RoundTrip` | internal/forest/namespace.go:108-117 | a depth written as a label is read back as the same number |
| `Decimal.AtoiMeans` | internal/forest/namespace.go:108-117 | leading zeros and a sign are read, and what is not a numeral is zero |
| `Validator.CheckNS` | internal/hierarchyconfig/validator.go:178-194 | refuses exactly the unsynced namespaces and those whose nearest halted ancestor is another namespace |
| `Validator.CheckParent` | internal/hierarchyconfig/validator.go:197-239 | allows exactly: no parent for an external namespace, an unchanged parent, and for others than subnamespaces none or an existing one that makes no cycle and overwrites no object; which refusals are forbidden and which are conflicts |
| `Validator.ConflictingObjects` | internal/hierarchyconfig/validator.go:242-287 | exactly when an object at or above the new parent that propagates has the name of one at or below the namespace |
| `Validator.GetServerChecks` | internal/hierarchyconfig/validator.go:339-393 | who must agree, in every case of old and new parent: none, unmanaged, missing, in one tree or in two |
| `Validator.ChecksBetween` | internal/hierarchyconfig/validator.go:358-393 | between existing parents: on where the walk up from the old parent ends, at a root or the first namespace on a cycle, and on the new parent, or, exactly when both walks end alike, on one common ancestor; without cycles above, on the one below all other common ancestors |
| `Structure.SameRoot` | internal/hierarchyconfig/validator.go:365-372 | the first chain elements are equal exactly when there is a common ancestor |
| `Structure.LastAgreement` | internal/hierarchyconfig/validator.go:374-382 | the last place where the chains agree names a common ancestor that every other one is at or above |
| `Validator.CheckForest` | internal/hierarchyconfig/validator.go:154-175 | a change is allowed exactly when no check objects, and then the right server checks follow |
| `Validator.StepStaysAcyclic` | internal/hierarchyconfig/validator.go:197-239 | a step whose change of parent passes the structural check makes no cycle |
| `Validator.RunStaysAcyclic` | internal/hierarchyconfig/validator.go:197-239 | so every run whose changes of parent pass it on the forest at hand keeps the forest acyclic |
| `Validator.AllowedPasses` | internal/hierarchyconfig/validator.go:197-239 | what the check allows does pass |
| `Conflicts.ChildOffCycle` | internal/hncconfig/validator.go:178-184 | what hangs from something off cycles is off cycles |
| `Conflicts.RootOffCycle` | internal/forest/forest.go:113-124 | and a root is |
| `Conflicts.GetRoots` | internal/forest/forest.go:116-124 | exactly the namespaces without a parent |
| `Conflicts.OwnConflicts` | internal/hncconfig/validator.go:162-177 | the conflicts over the namespace's own objects, and the holders extended by the namespace |
| `Conflicts.CheckConflictsForTree` | internal/hncconfig/validator.go:162-186 | the recursion ends, and finds exactly the conflicts at or below the namespace |
| `Conflicts.CheckConflictsForGVK` | internal/hncconfig/validator.go:152-158 | finds exactly the triples of an object name, a namespace that hangs from a root, and a proper ancestor whose object of that name would be propagated to that namespace's labels; nothing exactly when there is no such triple |
| `Canonical.MetaPrefix` | internal/objects/common.go:13-19 | what stands before the first slash, and nothing without a slash |
| `Canonical.Canonical` | internal/objects/common.go:27-55 | name, body and the labels and annotations that are not HNC's, and nothing else |
| `Canonical.Idempotent` | internal/objects/common.go:21-26 | reducing twice is reducing once |
| `Canonical.Insensitive` | internal/objects/common.go:21-26 | HNC's own labels and annotations, the status and all other metadata make no difference |
| `Canonical.WrittenIsUpToDate` | internal/objects/reconciler.go:608-622 | an object just written needs no further write |
| `Canonical.DueWhen` | internal/objects/reconciler.go:449-454 | a write is due exactly when name, body, a label or annotation that is not HNC's, or the recorded origin differs |
| `Canonical.CleanMeans` | internal/objects/reconciler.go:486-514 | the recorded source has exactly the user's labels and annotations but for the ones never copied, and names HNC as its manager |
| `Canonical.UpToDateMeans` | internal/objects/reconciler.go:449-454 | an object that is up to date has them too, HNC's own keys aside, with the origin, the name and the body |
| `Canonical.WrittenMeans` | internal/objects/reconciler.go:608-622 | what is written has no key of HNC's but the origin, no finalizer and no status, and keeps the version it replaces |
| `Canonical.OwnKeysUncompared` | internal/objects/reconciler.go:449-454 | a copy that HNC did not write can keep an annotation under one of HNC's own keys, even one that is never copied: such keys are not compared |
| `Propagation.ResyncIsNop` | internal/objects/reconciler.go:431-464 | reconciling an object again after it was overwritten changes nothing |
| `Propagation.TopIs` | internal/objects/reconciler.go:410-427 | the search finds the source above which no other propagates, or there is none |
| `Propagation.TopWithout` | internal/objects/reconciler.go:431-441 | a source that is overwritten is nobody's source, so dropping it changes nobody's |
| `Propagation.StartInv` | internal/objects/reconciler.go:215-225 | start-up, with nothing recorded and every object queued, satisfies the invariant, whatever is being deleted or held by finalizers |
| `Propagation.NextKeeps` | internal/objects/reconciler.go:263-481 | every reconciliation keeps it: objects that are neither copies nor being deleted are users', no user's object is lost that nothing above overwrites, and what is not queued is settled |
| `Propagation.PurgeKeeps` | internal/objects/reconciler.go:296-300 | so does the purge of an object that was being deleted |
| `Propagation.HeldShrinks` | internal/objects/reconciler.go:587-622 | objects being deleted, and copies with finalizers that may come to wait for deletion, never become more, and become fewer with each purge |
| `Propagation.NextDecreases` | internal/objects/reconciler.go:263-531 | every reconciliation, of whichever queued object, leaves strictly less work although it may queue everything below |
| `Propagation.Drained` | internal/objects/reconciler.go:263-481 | when the queue is empty each namespace whose object is not being deleted holds a copy of the topmost propagating user's object above it, else its own user's object, else nothing |
| `Propagation.FinalUnique` | internal/objects/reconciler.go:263-481 | so all orders end in the same users' objects and in copies of the same sources |
| `Propagation.FinalSources` | internal/objects/reconciler.go:431-481 | and with the same recorded sources: exactly the users' objects that nothing above overwrites |
| `Propagation.OverwrittenExactly` | internal/objects/reconciler.go:410-427 | in the end a namespace is overwritten exactly when a recorded source above it propagates |
| `Propagation.DrainedMeans` | internal/objects/reconciler.go:263-513 | how every run ends, label by label in terms of the users' objects: no copy or recorded source has what is never copied, each names HNC as its manager, and every other key that is not HNC's is there exactly when the topmost user's object has it, with its value |
| `Propagation.RemovesCopy` | internal/objects/reconciler.go:587-606 | a copy without a source goes, or is marked if a finalizer holds it |
| `Propagation.WritesCopy` | internal/objects/reconciler.go:608-622 | an object that is not up to date is written anew from its source, with the version of what it replaces, and queued |
| `Propagation.ForgetsSource` | internal/objects/reconciler.go:322-329 | a source whose object is gone is forgotten and everything below is queued |
| `Propagator.Reconciler.GetTopSourceToPropagate` | internal/objects/reconciler.go:410-427 | the loop finds what the search is to find |
| `Propagator.Reconciler.EnqueueDescendants` | internal/objects/reconciler.go:516-531 | queues exactly the descendants |
| `Propagator.Reconciler.SyncWithForest` | internal/objects/reconciler.go:263-398 | records or forgets the source and decides the action so that carrying it out is the reconciliation |
| `Propagator.Reconciler.SyncPropagated` | internal/objects/reconciler.go:431-464 | decides to write, remove or leave a copy |
| `Propagator.Reconciler.Operate` | internal/objects/reconciler.go:566-622 | carries the action out; an object that a finalizer holds is only marked; what is written or removed is queued again |
| `Propagator.Reconciler.Reconcile` | internal/objects/reconciler.go:227-258 | performs `Propagation.Next` |
| `Propagator.Reconciler.Drain` | internal/objects/reconciler.go:227-258 | taking queued objects in any order ends, with every namespace holding what it should, key by key, unless its object is being deleted, and exactly the right sources recorded |
| `Propagator.StartAndDrain` | internal/objects/reconciler.go:215-258 | from start-up, for any objects on the apiserver; in the end only such objects are being deleted as were so, or were copies with finalizers, at the start |
| `Anchor.DeletesWhen` | internal/anchor/reconciler.go:188-246 | a namespace is deleted exactly when bound to an anchor that is being deleted and has its finalizer, not being deleted itself, both names managed, the CRD not being deleted, and it is a leaf or cascading deletion is allowed |
| `Anchor.DeletingIsNoted` | internal/anchor/reconciler.go:160-163 | and then it is on its way out, with the anchor as it was |
| `Anchor.Establishes` | internal/anchor/reconciler.go:101-131 | of an anchor that is there to stay: it gets the finalizer; a missing namespace is created for this parent and one that is there is left alone; the status says missing, conflicting or bound by what was found |
| `Anchor.Disowns` | internal/anchor/reconciler.go:80-99 | of names that are not managed only the finalizer goes, and a reserved name is marked as forbidden |
| `Anchor.FinalizesWhen` | internal/anchor/reconciler.go:164-167 | the finalizer of an anchor being deleted goes exactly when the namespace is missing, is another parent's, or is there and will not be deleted with it; the status says which |
| `Anchor.Begins` | internal/anchor/reconciler.go:101-131 | a new anchor without a namespace is bound to one of its own after two reconciliations |
| `Anchor.RunEstablishes` | internal/anchor/reconciler.go:101-131 | on every run without deletions, an anchor reconciled twice has its finalizer and a namespace, and says whose that is, whatever came in between |
| `Anchor.CompleteIsStable` | internal/anchor/reconciler.go:101-131 | and then reconciling it changes nothing |
| `Anchor.RunGuardedExactly` | internal/anchor/reconciler.go:59-131 | over every run, from then until the namespace is gone the anchor keeps its finalizer, exactly if no reconciliation meanwhile finds one of the names unmanaged |
| `Anchor.RunGuarded` | internal/anchor/reconciler.go:147-294 | with names that stay managed, that is every run |
| `Anchor.AbandonedEarly` | internal/anchor/reconciler.go:80-99 | an anchor whose name stops being managed does lose it while the namespace is going |
| `Anchor.Nearer` | internal/anchor/reconciler.go:147-178 | every reconciliation of an anchor being deleted that does something brings it nearer to losing its finalizer |
| `Anchor.WaitsFor` | internal/anchor/reconciler.go:168-177 | it does nothing exactly when the finalizer is gone or the bound namespace is being deleted |
| `Anchor.BusyAtMost` | internal/anchor/reconciler.go:147-178 | on every run without new creations, reconciliations do something at most three times |
| `Anchor.Ends` | internal/anchor/reconciler.go:136-146 | two reconciliations with the purge of the namespace in between remove the finalizer, whatever they find |
| `Anchor.ShouldDeleteSubns` | internal/anchor/reconciler.go:188-246 | decides from the forest's children and cascading settings |
| `Anchor.ReconcileAnchor` | internal/anchor/reconciler.go:59-131 | performs `Anchor.Reconciled` |
| `Anchor.DeleteAnchored` | internal/anchor/reconciler.go:147-178 | deletes, finalizes or waits as the protocol says |

## Left out

- Calls to the apiserver, watches, retries, events, logs, statistics and metrics: each locked section
  is one step, and a write that the step decides on succeeds.
- The texts of conditions, errors and status: only the type and the reason of a condition are kept.
- Quantities are integers: the number formats of `resource.Quantity` and the approximation in
  `OmitLTEZero` are not modelled.
- Several object types: sources are those of one type, so the loops over types are not modelled, nor
  is the list of types newly set to propagate.
- Selectors and regular expressions: whether an object propagates, and whether a name, a label or an
  annotation is managed, is given.
- The annotation walk (`syncAnnotations`), which is the label walk without tree labels and ends for the
  same reason.
- The status written back, which queues the namespace itself once more.
- Convergence.StartUp: is about the conditions found before labels are synced; what is queued because of
  managed labels is in `LabelIndex`, and what is queued because the list of anchors has changed is left
  out. More in the queue does no harm to what the theorems say of the rest. Where the configuration CRD
  is being deleted and a namespace has no configuration, the code does not sync it at all.
- LabelIndex.DequeuedKeeps: assumes that the structure and the halts do not change meanwhile.
- Quota tables change only through `UpdateLimits` and `RemoveLimits`, which do not touch usages; that
  totals are right again after a change is what rectification gives.
- Propagator.Reconciler.Drain: assumes that whether a source propagates does not depend on the destination, that the
  forest does not change, that no namespace is halted or unsynced, and that users write nothing
  meanwhile; with selectors or with users writing, the end depends on the order.
- Propagation.DrainedMeans: of HNC's own keys on copies it says only what the origin label is: the code does
  not compare the others, so a copy that HNC did not write can keep them (`Canonical.OwnKeysUncompared`).
- Anchor.RunGuardedExactly: assumes that nobody edits the subnamespace-of annotation or HNC's finalizer.
- Forest.Forest.SetParent: does not cover setting again a missing parent of its only child, nor missing
  namespaces that have parents. No caller does the one and no run leads to the other.
  `Moves.ClosedExactly` shows that the first is exactly where links would lead out of the forest, and
  the second call to `UseResources` would then walk such links.
- LabelIndex.IndexAfterRun: assumes that managed labels are never tree labels, that the structure does
  not change meanwhile and that no namespace is halted or external.
- MoveEffects.MoveRightExactly: is about moves off cycles; on cycles `Moves.MoveConserves` says what is kept.
- Decimal.RoundTrip: does not model the range of machine integers.
- The two other conflict checks, on objects and on configurations with selectors, beyond what
  `Validator.ConflictingObjects` says: they judge by other labels than the destination's.
- The API extension server, the kubectl plugin, certificates and generated code.
