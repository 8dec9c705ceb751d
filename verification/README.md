# Verified model of the node readiness gate controller

The controller keeps a taint on every node that a readiness rule selects until the conditions the rule
asks for hold. Two reconcilers write the same node taints: one takes a node through all cached rules, the
other takes a rule through all nodes. They share a rule cache, a cleanup finalizer, completion annotations
for bootstrap-only rules, a dry-run simulator, status lists in the rules, hand-written comparisons that
decide whether work is skipped, and an admission webhook. This project models all of these and proves what
they promise together.

## How it is organised

| module | content |
|---|---|
| `Model`, `Sequences` | nodes, rules, the cluster, the API calls that may fail; facts about sequences, sets and strings |
| `Selectors`, `Disjointness`, `ChangeDetection` | label selectors and the edited-selector check; when selectors exclude each other; the update filter of the node watch |
| `Evaluation`, `Reconcile` | one rule against one node; what one atomic reconcile does to the cluster (the specification) |
| `Controller` | the two reconcilers as objects changed in place by loops, each method proved equal to the specification |
| `RulePass`, `NodePass` | one rule over all nodes (dry run, cleanup under failures); one node over all rules (order independence, the off-switch) |
| `Verdicts` | what one pass makes of one taint and of one completion, for rules that share taints and calls that fail |
| `Runs`, `Confluence`, `Quiescence` | runs of reconciles in any interleaving: same end for every covering run, exactly when taint writes are bounded, exactly when a node settles |
| `BootstrapLatch`, `Lifecycle` | when completion is recorded and what it protects; no orphan taints over whole runs, finalizer before effect |
| `StatusLists`, `OptimisticUpdate` | status lists as maps, publish and prune; get-modify-update with concurrent writers |
| `Outcomes`, `Frames` | what a reconcile reports, forgets and stores, told field by field; what no run of reconciles touches |
| `Admission` | the webhook and the invariant that it keeps |

The main results are `Lifecycle.NoOrphanTaints`, `Lifecycle.StuckExactly`, `Confluence.RunsConfluence`,
`Quiescence.WritesBoundedExactly`, `Quiescence.QuiescenceBound`, `Quiescence.NodeSettlesExactly`,
`NodePass.OrderIndependence`, `RulePass.DryRunPredictsRun`, `RulePass.DryRunPredictsStatus`,
`RulePass.DryRunChangesNodesExactly`, `RulePass.CleanupUnderFailures`,
`ChangeDetection.SkippedUpdateIsHarmless`, `Selectors.UnchangedSelectorExact`,
`Disjointness.SafeToSkipIsSafeBySearch`, `BootstrapLatch.CompletionExact`,
`BootstrapLatch.NeverTaintedAgain`, `BootstrapLatch.FlipTaintsExactly`,
`OptimisticUpdate.Register.RetryOnConflict`, `StatusLists.PassStatusTrueExactly`,
`Outcomes.LiveReconcileSucceedsExactly`, `Outcomes.DeletionSucceedsExactly`,
`Outcomes.RealRunStoresTrueEntries`, `Frames.RunForOthers`, `Admission.AcceptedExactly` and `Admission.AdmittedRulesMeetNowhere`.

## Assumptions

- A reconcile is one atomic step; `BootstrapLatch.NodeReconcileDuringDeletion` shows why the lifecycle
  result needs that. Within a reconcile any set of writes and listings may fail: a *fault set* names the
  failing calls, and every theorem that does not say otherwise holds for every fault set. A failing
  request is one that did not take effect. Reading one object succeeds, except for the re-read after the
  finalizer is added.
- Inside the atomic step the retry loops do not meet a conflict; `OptimisticUpdate` proves them separately
  against arbitrary concurrent writers and any number of attempts, and shows for each of the three updates
  that, undisturbed, it succeeds with what the atomic step writes.
- A taint patch that goes through replaces the whole stored taint list by the one in the working copy; one
  that fails leaves the store as it was, but the copy has already changed, so a later patch of the same
  reconcile can carry the change to the store.
- The order in which a list or the rule cache is iterated is arbitrary, and so is what the theorems
  quantify over.
- Label selectors have the usual meaning: all labels and all of In, NotIn (which holds when the key is
  absent), Exists and DoesNotExist. The label library that decides which keys and values are valid is not
  part of this model; validity is modelled by the allowed characters, the known operators and the number
  of values an operator takes. The text of a selector is any function of the selector.
- The cached rule is the object that node reconciles evaluate, so their status changes are written back to
  the cache. Rule reconciles work on a fresh object and cache a copy of it before processing.
- `claims` in a node is bookkeeping for the statements: it says which rule added which taint. No modelled
  code reads it.
- The store drops a rule under deletion once its last finalizer is gone.

## Where the obvious claim is false

- The documentation says that a completed bootstrap rule is no longer monitored (the repository's `README.md:199`,
  `CONTEXT.md:212`). The rule reconciler ignores completion: `BootstrapLatch.RuleReconcileIgnoresCompletion`
  says exactly when it taints a completed node again. Only the node reconciler honours it.
- Removal of a bootstrap taint does not imply that completion is recorded. `BootstrapLatch.CompletionExact`
  says exactly when it is, for rules that share their taint too. A satisfied rule with the same taint that comes
  first takes it off with no call failing (`BootstrapLatch.RemovalBySharer`), and the patch of a rule with another
  taint can carry a failed removal to the store (`BootstrapLatch.RemovalCarriedByAnotherPatch`).
- Completion is said to prevent re-evaluation once the bootstrap conditions are met (`README.md:35`). A
  bootstrap-only rule that is satisfied on a node that never had its taint is never marked complete
  (`BootstrapLatch.SatisfiedRunCompletes`), so a later failing condition taints the node:
  `BootstrapLatch.FlipTaintsExactly`.
- Dry run is called a preview without applying changes (`README.md:192`). The cleanup behind an edited selector comes before it:
  `RulePass.DryRunChangesNodesExactly` says exactly when a rule in dry run changes nodes,
  `RulePass.DryRunRemovesTaint` that it then takes its taint off, with a case in `RulePass.DryRunCanRemoveTaint`.
- `CONTEXT.md:225` and `CONTEXT.md:316` say that a missing condition counts as unsatisfied. It reads as
  "Unknown" and satisfies a requirement of "Unknown": `Evaluation.MissingConditionMeets`.
- Global dry run is called an emergency off-switch (`CONTEXT.md:315`). It stops node reconciles and does
  nothing to rule reconciles: `NodePass.SwitchStopsNodeReconciles`, `NodePass.SwitchDoesNotStopRuleReconciles`.
- Comparing two maps by `b[k] != v` misses an empty-valued key that is absent from `b`:
  `Selectors.ZeroValueEqualExact`. So an edit that moves an empty-valued label is not noticed by the
  selector check or the node watch (`ChangeDetection.RelabelledNodeIsSkipped`,
  `ChangeDetection.LabelsEqualSafeExact`).
- Comparing the texts of expressions misses an edit that joins two values by a space:
  `Selectors.SpacedValueGoesUnnoticed`. `Selectors.UnchangedSelectorExact` says for which selectors every
  unnoticed edit is harmless. `Disjointness.SafeToSkipIsSafeBySearch` turns that into a search that can be run: the
  text of an invalid expression is parsed (`Selectors.ParsedOfKey`) and the choices at each key are tried.
  What an unnoticed edit costs is `Lifecycle.UnnoticedEditAbandonsNodes`.
- A selector in error that has reached the cache blocks the rule as soon as the check notices an edit: the
  cleanup cannot parse it, so every reconcile of the rule fails and the new spec never reaches the cache, until a
  restart (`Lifecycle.StuckRuleFails`, `Lifecycle.StuckForever`). That is the only way for a fault-free reconcile
  of a live, cached rule to fail: `Lifecycle.StuckExactly`. An edit that the check does not notice gets through and
  can even correct the error: `Lifecycle.UnnoticedCorrectionIsNotStuck`.
- Joining taint key and effect without a separator confuses exactly the taints described by
  `ChangeDetection.PreferCollision`: `ChangeDetection.TaintKeyCollisions`, `ChangeDetection.TaintsEqualSafeExact`.
- A list that names one condition type twice can compare equal to one with other statuses:
  `ChangeDetection.ConditionsEqualSafeExact`.
- The webhook prevents conflicts only between selectors with the same text: `Admission.OverlappingRulesAdmitted`.
  What is missing for admitted rules with one taint never to meet on a node is
  `Admission.AdmittedRulesMeetNowhere` and, for selectors of labels only,
  `Admission.AdmittedLabelRulesMeetNowhere`.
- The two reconcilers need not come to rest. `Quiescence.WritesBoundedExactly`: while no edit is pending, the taint
  patches of all their runs are bounded if and only if on every stored node the rules that share a taint agree.
  Node reconciles alone honour completion and can come to rest although they do not:
  `Quiescence.NodeSettlesExactly` says exactly when, `Quiescence.SharedTaintNeverSettles` what happens otherwise.
- Deleting a rule whose selector edit has not been reconciled, editing the taint of a rule, relabelling a tainted
  node away from all rules with the taint, and taking the cleanup finalizer off a rule before it is deleted leave
  taints behind: `Lifecycle.DeletionReachesStoredSelectorOnly`, `Lifecycle.EditedTaintIsAbandoned`,
  `Lifecycle.UnmanagedTaintStays`, `Lifecycle.UnguardedDeletionCleansNothing`.
- A rule that is gone from the store is still enforced by node reconciles until it is reconciled itself:
  `Outcomes.MissingRuleTaintsUntilForgotten`; after that never again: `Outcomes.MissingRuleTaintsNoMore`.
- A node's entry in a rule's status need not tell the truth about the stored taint.
  `StatusLists.PassStatusTrueExactly`: it does, in every order and whatever fails, if and only if no other live rule
  manages the taint, or the rule has nothing to do on the node and all live rules with the taint agree with it.
- A rule reconcile renews the entries of all nodes, and the next node reconcile puts the old ones back, its own
  node excepted: `StatusLists.FreshEntriesAreLost`.
- A failure record does not say that the last evaluation failed: `StatusLists.FailureRecordExact` says when it
  does, `StatusLists.FailureRecordsStay` that no run of rule reconciles clears one.
- The observed generation in the store is not monotone: `StatusLists.GenerationFallsExactly`,
  `StatusLists.NodeReconcileRevertsGeneration`, with a case in `StatusLists.PendingGenerationIsLost`.

## Model

| member | source | states |
|---|---|---|
| Lifecycle.NoOrphanTaints | internal/controller/nodereadinessgaterule_controller.go:99-149 | Over every run of atomic reconciles with arbitrary failures, creations, deletions, safe edits and node changes, a reserved taint is on a node only while a stored rule with that taint and the cleanup finalizer exists whose cached selector selects the node; selectors may be in error and have empty values, nodes may be relabelled as long as the cached rules whose taint they keep still select them |
| Lifecycle.ClaimsAreLookedAfter | internal/controller/nodereadinessgaterule_controller.go:99-149 | The same for one taint the controller added, naming the rule that added it |
| Lifecycle.GoneRuleLeavesNothing | internal/controller/nodereadinessgaterule_controller.go:99-120 | Once no stored rule has a reserved taint any more, no node carries it |
| Lifecycle.CachedRulesAreGuarded | internal/controller/nodereadinessgaterule_controller.go:122-149 | In every reachable state a cached rule is stored with the cleanup finalizer |
| Lifecycle.StepKeepsInv | internal/controller/nodereadinessgaterule_controller.go:83-185 | Every reconcile, whatever fails, and every lawful outside step keeps the lifecycle invariant |
| Lifecycle.RunKeepsInv | internal/controller/nodereadinessgaterule_controller.go:83-185 | So does every run |
| Lifecycle.UncachedAfterCleanup | internal/controller/nodereadinessgaterule_controller.go:99-120 | A rule under deletion leaves the cache only when every node its selector reaches is free of its taint |
| Lifecycle.RuleLeavesOnlyByDeletion | internal/controller/nodereadinessgaterule_controller.go:99-120 | A rule leaves the store only under deletion and with no finalizer but the cleanup finalizer left |
| Lifecycle.OutsideStepsTakeEffect | internal/controller/nodereadinessgaterule_controller.go:83-136 | The lawful outside steps over which the runs range do happen: a created and edited rule and a written node are stored, removal and deletion take them away |
| Runs.RuleReconcileSpecs | internal/controller/nodereadinessgaterule_controller.go:138-149 | A rule reconcile changes no stored spec, and in the cache at most the rule's own, to the stored one |
| Lifecycle.CacheAdvancesAfterSweep | internal/controller/nodereadinessgaterule_controller.go:138-149 | An edited selector reaches the cache only when every node it left behind is free of the taint |
| Lifecycle.DeletionReachesStoredSelectorOnly | internal/controller/nodereadinessgaterule_controller.go:99-120 | After a deletion without failures the taint stays on exactly the tainted nodes that the stored selector does not select |
| Lifecycle.EditedTaintIsAbandoned | internal/controller/nodereadinessgaterule_controller.go:562-652 | A taint that is no longer the rule's own is neither added nor removed by any reconcile of the rule |
| Lifecycle.UnmanagedTaintStays | internal/controller/nodereadinessgaterule_controller.go:243-272 | When no stored or cached rule with the taint selects the node, as after a relabelling, no run of reconciles ever removes the taint or adds it |
| Lifecycle.UnguardedDeletionCleansNothing | internal/controller/nodereadinessgaterule_controller.go:99-120 | A deletion without the cleanup finalizer changes nothing, so it leaves every taint |
| Lifecycle.SafeSelectorSafeEdit | internal/controller/nodereadinessgaterule_controller.go:655-711 | Every unnoticed edit to a selector that passes the search gives up no node |
| Lifecycle.FinalizerRoundTrip | internal/controller/nodereadinessgaterule_controller.go:724-739 | Adding the cleanup finalizer and removing it gives back the other finalizers in their order |
| Lifecycle.OthersStay | internal/controller/nodereadinessgaterule_controller.go:731-739 | Removal takes exactly the cleanup finalizer |
| Lifecycle.UnnoticedEditAbandonsNodes | internal/controller/nodereadinessgaterule_controller.go:138-149 | An unnoticed edit that leaves a node behind is cached, whatever fails, and the node keeps its taint |
| Lifecycle.StuckRuleFails | internal/controller/nodereadinessgaterule_controller.go:607-615 | With a cached selector in error and a noticed edit, every reconcile of the rule fails and changes at most its finalizers |
| Lifecycle.StuckExactly | internal/controller/nodereadinessgaterule_controller.go:138-149 | Without failing calls, a reconcile of a live cached rule succeeds, and its spec reaches the cache, if and only if it is not in that situation |
| Lifecycle.SpecReachesCacheExactly | internal/controller/nodereadinessgaterule_controller.go:122-149 | Whatever fails, exactly when the spec of a live rule is in the cache after a reconcile |
| Lifecycle.UnnoticedCorrectionIsNotStuck | internal/controller/nodereadinessgaterule_controller.go:676-693 | A case: a selector in error whose correction has the same text |
| Lifecycle.StuckForever | internal/controller/nodereadinessgaterule_controller.go:598-652 | No run of reconciles gets a rule out of that situation |
| Sequences.FilterConcat | internal/controller/node_controller.go:168-173 | The filtering loops (taints, finalizers, entries, failure records) work piece by piece, so what stays keeps its order |
| Confluence.RunsConfluence | internal/controller/nodereadinessgaterule_controller.go:243-348 | For active continuous rules that share no taint on a stored node, any two fault-free interleavings of node and rule reconciles, with repetitions, that deal with every rule on every node it selects end with the same taints and annotations on every node |
| Confluence.RunReaches | internal/controller/node_controller.go:71-132 | Any fault-free run takes each node to the closed form of the rules that were dealt with there |
| Confluence.RowColumnConfluence | internal/controller/nodereadinessgaterule_controller.go:243-348 | In particular, reconciling every node once and every rule once, each in any order, end in the same place |
| Quiescence.WritesBoundedExactly | internal/controller/nodereadinessgaterule_controller.go:304-334 | While no edit is pending: the taint patches of all runs, in any interleaving and whatever fails, are bounded if and only if on every stored node any two rules that select it, share a taint and are not in dry run have the same verdict |
| Quiescence.QuiescenceBound | internal/controller/nodereadinessgaterule_controller.go:304-334 | When they have: over any interleaving with arbitrary failures, taint patches that go through plus remaining disagreements are at most the initial disagreements, and equal to them when no patch fails |
| Quiescence.MeetNowhereAgrees | internal/controller/nodereadinessgaterule_controller.go:304-334 | They have when rules with one taint never meet on a node |
| Quiescence.MoveLowersMeasure | internal/controller/nodereadinessgaterule_controller.go:304-334 | Every single reconcile lowers the measure by at least the patches it gets through, exactly when no patch fails |
| Quiescence.AgreementIsFinal | internal/controller/node_controller.go:78-129 | When every pair agrees, no reconcile changes any node |
| Quiescence.OneSweepSettles | internal/controller/nodereadinessgaterule_controller.go:243-272 | After rule reconciles without failures a taint is in disagreement on a node only if it was before and no rule active there with that taint was reconciled |
| Quiescence.SharedTaintNeverSettles | internal/controller/node_controller.go:71-132 | Node reconciles alone: two live rules with one taint and opposite verdicts, the satisfied one not bootstrap-only, make k fault-free passes write at least k patches |
| Quiescence.NodeSettlesExactly | internal/controller/node_controller.go:71-132 | Node reconciles alone, for rules of all modes, shared taints included: after two fault-free passes for each bootstrap-only rule that can still complete and one more, a node is never written again by node reconciles if and only if there are no two such rules |
| Quiescence.CalmNodeRests | internal/controller/node_controller.go:71-132 | Without two such rules that many passes bring the node to rest |
| NodePass.OrderIndependence | internal/controller/node_controller.go:71-132 | For applicable rules with distinct taints, in any mixture of modes, every order of the rules ends with the same taints and the same annotations |
| NodePass.PassReaches | internal/controller/node_controller.go:78-129 | The closed form of a pass: old taints without those of satisfied rules, one taint for each unsatisfied rule that lacked its own, one annotation for each completed bootstrap |
| NodePass.SecondPassWritesNothing | internal/controller/node_controller.go:71-132 | A second pass, in any order and whatever fails, writes nothing to the node |
| NodePass.SwitchStopsNodeReconciles | internal/controller/node_controller.go:92-97 | Under global dry run a node reconcile changes nothing |
| NodePass.SwitchDoesNotStopRuleReconciles | internal/controller/nodereadinessgaterule_controller.go:155-170 | A rule reconcile does the same whether or not global dry run is on |
| RulePass.DryRunPredictsRun | internal/controller/nodereadinessgaterule_controller.go:514-521 | The counts of additions and removals equal the numbers of nodes that the real run taints and untaints; tainted after is tainted before plus additions minus removals |
| RulePass.DryRunPredictsStatus | internal/controller/nodereadinessgaterule_controller.go:490-526 | The affected nodes are as many as the real run's applied nodes, the risky operations as many as those of them with a Missing result |
| RulePass.DryRunChangesNodesExactly | internal/controller/nodereadinessgaterule_controller.go:138-160 | A reconcile of a live rule in dry run changes some node if and only if the finalizer is there or gets there, a selector edit is noticed, the previous selector is usable, the listing succeeds and the patch goes through on a tainted node left behind |
| RulePass.DryRunRemovesTaint | internal/controller/nodereadinessgaterule_controller.go:138-146 | On a tainted node left behind by a noticed edit, a rule in dry run takes its taint off |
| RulePass.DryRunCanRemoveTaint | internal/controller/nodereadinessgaterule_controller.go:138-146 | There are such rules and nodes |
| RulePass.DryRunTouchesNoNode | internal/controller/nodereadinessgaterule_controller.go:155-160 | Without a noticed selector edit, reconciling a rule in dry run leaves every node alone and publishes the counts |
| RulePass.CleanupUnderFailures | internal/controller/nodereadinessgaterule_controller.go:562-595 | For every subset of failing patches the targets still tainted are exactly those whose patch failed, cleaned targets lose that taint only, other nodes are untouched |
| RulePass.EvaluatedPresence | internal/controller/nodereadinessgaterule_controller.go:304-334 | After a rule's run, a selected node whose patch does not fail carries the taint exactly when some condition is unmet |
| RulePass.AppliedNodesAreSelected | internal/controller/nodereadinessgaterule_controller.go:253-268 | The applied nodes are the selected ones, once each |
| RulePass.RiskyIsMissing | internal/controller/nodereadinessgaterule_controller.go:500-525 | A node counts as risky exactly when one of its condition results says Missing |
| RulePass.LiveReconcileEffect | internal/controller/nodereadinessgaterule_controller.go:122-185 | What a reconcile of any live rule, whatever is edited, missing or failing, does to nodes, rules and cache: finalizer, cleanup behind the edit, caching, evaluation, each only when the one before succeeded |
| RulePass.SettledReconcile | internal/controller/nodereadinessgaterule_controller.go:138-182 | A reconcile without pending edits caches the rule, evaluates it on the nodes, and changes nothing else in the store but its status |
| Outcomes.MissingRuleIsForgotten | internal/controller/nodereadinessgaterule_controller.go:89-97 | From every state: reconciling a rule that the store does not have succeeds, takes it out of the cache and changes nothing else |
| Outcomes.MissingRuleTaintsNoMore | internal/controller/nodereadinessgaterule_controller.go:89-97 | After that no run of node and rule reconciles puts a taint on a node on its behalf |
| Outcomes.MissingRuleTaintsUntilForgotten | internal/controller/node_controller.go:78-129 | Before it, node reconciles go on enforcing a cached rule that is no longer stored |
| Outcomes.DeletionSucceedsExactly | internal/controller/nodereadinessgaterule_controller.go:100-120 | A deletion reports success if and only if the nodes could be listed, every patch on a selected tainted node went through and the finalizer could be removed |
| Outcomes.DeletionOutcome | internal/controller/nodereadinessgaterule_controller.go:100-120 | Success: uncached, no selected node tainted, stored only with the other finalizers and only while there are any; no success: cache and stored rules as they were |
| Outcomes.DeletionFrame | internal/controller/nodereadinessgaterule_controller.go:100-120 | A deletion leaves every other rule, stored or cached, as it was |
| Outcomes.DeletionOnNodes | internal/controller/nodereadinessgaterule_controller.go:562-595 | Succeeding or not, a deletion takes the taint off exactly the selected nodes whose patch went through |
| Outcomes.LiveReconcileSucceedsExactly | internal/controller/nodereadinessgaterule_controller.go:122-185 | A reconcile of a live rule reports success if and only if the finalizer is there or gets there, the cleanup behind a noticed edit has a usable selector and no failing patch, both listings and the publish go through, and so does pruning where some entry is of a missing node; failing patches of the evaluation do not count |
| Outcomes.ReconcileKeeps | internal/controller/nodereadinessgaterule_controller.go:155-182 | After a successful reconcile of a live rule its spec, generation and status conditions are as they were, the finalizer is there and no entry is of a missing node |
| Outcomes.RealRunStores | internal/controller/nodereadinessgaterule_controller.go:163-182 | After a real run the stored applied nodes are the selected nodes, once each and in the order of the listing, the observed generation is the rule's, and there are no dry-run results |
| Outcomes.RealRunStoresTrueEntries | internal/controller/nodereadinessgaterule_controller.go:275-348 | And every selected node whose patch does not fail has an entry in the store, and it is true: each result repeats its requirement, gives the status of the first condition of that type or else "Unknown", says satisfied exactly when the two agree and missing exactly for "Unknown"; the taint is absent exactly when all are satisfied |
| Outcomes.DryRunStores | internal/controller/nodereadinessgaterule_controller.go:484-554 | After a dry run the counts are stored; generation, applied nodes, failures and entries of existing nodes are as they were |
| Outcomes.FinalizersAfter | internal/controller/nodereadinessgaterule_controller.go:122-136 | Whatever fails later, the cleanup finalizer is appended exactly when it was missing and adding it did not fail |
| Outcomes.StoredStatusExactly | internal/controller/nodereadinessgaterule_controller.go:138-182 | Whatever fails, the stored status after a reconcile of a live rule: the old one unless the publish is reached and goes through; then the new one, pruned unless pruning fails |
| Outcomes.NodeReconcileStores | internal/controller/node_controller.go:104-129 | After a node reconcile: a rule without a turn keeps its cached and stored status; otherwise the cache has a true entry of the node or a failure record, nothing else changed, and the store has the same under its own conditions if the publish went through |
| Frames.RunForOthers | internal/controller/node_controller.go:155-183 | Over any interleaving of reconciles, whatever fails: labels, conditions and existing annotations of every node stay, new annotations only mark completed bootstraps, and the taints that no rule manages stay as often as they were and in their order |
| Frames.RunKeepsUnique | internal/controller/node_controller.go:155-163 | No run of reconciles puts a taint on a node twice |
| Frames.RemovalSparesForeign | internal/controller/node_controller.go:166-176 | Removal leaves the list of other taints as it was |
| Selectors.UnchangedSelectorStillSelects | internal/controller/nodereadinessgaterule_controller.go:655-696 | When the check says "not changed" and no label value is empty and the edit is not one into error, every label set the previous selector selected is still selected, also with repeated or reordered expressions |
| Selectors.UnchangedIsReordered | internal/controller/nodereadinessgaterule_controller.go:655-696 | For usable selectors without empty label values and without repeated expressions the check says "not changed" if and only if labels and expressions are the same up to order, so edits that only drop something are noticed |
| Selectors.UnchangedIsReorderedExact | internal/controller/nodereadinessgaterule_controller.go:655-696 | It does so against every previous selector if and only if no expression of the current one is repeated |
| Selectors.UnchangedSelectorExact | internal/controller/nodereadinessgaterule_controller.go:655-711 | For every selector, in error or not: all edits that the check misses are harmless if and only if the selector selects whatever is selected by what the check sees of it |
| Selectors.UnchangedLabelsExact | internal/controller/nodereadinessgaterule_controller.go:655-711 | For selectors of labels only: if and only if no label value is empty or some label is invalid |
| Selectors.SpacedValueGoesUnnoticed | internal/controller/nodereadinessgaterule_controller.go:676-693 | An edit into error that the check misses and that ends the selection of a node |
| Disjointness.SafeToSkipIsSafeBySearch | internal/controller/nodereadinessgaterule_controller.go:655-711 | The condition of UnchangedSelectorExact, for every selector, is decided by a search over finitely many choices at each key, invalid expressions being read as the valid ones that their texts parse to |
| Disjointness.WithinExact | internal/controller/nodereadinessgaterule_controller.go:598-652 | One selector selects all that another does if and only if a finite search, key by key, says so |
| Disjointness.ImpliedExact | internal/controller/nodereadinessgaterule_controller.go:403-409 | A requirement follows from others if and only if they cannot be met together or every choice at its key that suits them suits it |
| Disjointness.UsualSelectorIsSafe | internal/controller/nodereadinessgaterule_controller.go:655-711 | Usable selectors without empty label values pass that search |
| Disjointness.SatisfiableExact | internal/controller/nodereadinessgaterule_controller.go:403-409 | Requirements can be met together if and only if every key they mention has a choice that suits all of them |
| Disjointness.DisjointExact | internal/webhook/nodereadinessgaterule_webhook.go:149-160 | Two selectors match no label set together if and only if some key has no choice that suits both |
| Disjointness.KeptApartByLabels | internal/webhook/nodereadinessgaterule_webhook.go:149-160 | For selectors of labels only: if and only if some key has different values in the two |
| Selectors.NodeSelectorChanged | internal/controller/nodereadinessgaterule_controller.go:655-696 | The loops over the two expression maps decide size and inclusion of key texts; a missing selector on one side only, or another number of expressions, is a change |
| Selectors.KeyInclusionIsInclusion | internal/controller/nodereadinessgaterule_controller.go:676-693 | Inclusion of key texts is inclusion of the requirements |
| Selectors.ParsedOfKey | internal/controller/nodereadinessgaterule_controller.go:676-687 | Round trip: taking the text of a valid requirement apart gives the requirement back |
| Selectors.ExpressionKeyInjective | internal/controller/nodereadinessgaterule_controller.go:676-687 | Valid requirements with the same key text are equal |
| Selectors.ExpressionKeyCollides | internal/controller/nodereadinessgaterule_controller.go:676-687 | Without validity two different requirements can have the same key text |
| Selectors.StringMapEqual | internal/controller/nodereadinessgaterule_controller.go:699-711 | The loop decides equal sizes and equal values with a missing key read as the empty string |
| Selectors.ZeroValueEqualExact | internal/controller/nodereadinessgaterule_controller.go:699-711 | That is equality for every second map if and only if the first has no empty value |
| Selectors.OperatorsArePaired | internal/controller/nodereadinessgaterule_controller.go:396-410 | In and NotIn, Exists and DoesNotExist are opposites; In asks for the key |
| ChangeDetection.SkippedUpdateIsHarmless | internal/controller/node_controller.go:269-290 | When the update filter says no, and no type and no taint repeats, no old taint runs together with a new one and no old label value is empty: every possible rule applies to both versions or neither, finds the same results and taint, and decides the same action |
| ChangeDetection.OtherChangesAreSkipped | internal/controller/node_controller.go:269-290 | An update that leaves conditions, taints and labels alone is skipped, whatever else it changes, if and only if no list gives one type or text two values |
| ChangeDetection.ConditionsEqualSafeExact | internal/controller/node_controller.go:295-313 | Conditions that compare equal give every type the same status if and only if the new list has no type twice, or one with two statuses (to which nothing compares equal) |
| ChangeDetection.TaintsEqualSafeExact | internal/controller/node_controller.go:316-337 | For every new list with the three effects: taints that compare equal agree on the presence of every taint if and only if the new list gives one text two values (to which nothing compares equal), or repeats no text and has no taint with a twin of the same text |
| ChangeDetection.LabelsEqualSafeExact | internal/controller/node_controller.go:340-352 | Labels that compare equal are selected by the same selectors if and only if no old label value is empty |
| ChangeDetection.RelabelledNodeIsSkipped | internal/controller/node_controller.go:340-352 | With an empty label value the filter can skip a node to which a rule newly applies |
| ChangeDetection.PreferCollisionIsSkipped | internal/controller/node_controller.go:316-337 | For every key, the comparison takes a PreferNoSchedule taint for a NoSchedule taint whose key ends in "Prefer" |
| ChangeDetection.ShouldReconcile | internal/controller/node_controller.go:269-290 | The filter reconciles unless all three comparisons say equal |
| ChangeDetection.ConditionsEqual | internal/controller/node_controller.go:295-313 | The loops compare sizes and look every entry of the second list up in a map of the first, the last entry of a type winning |
| ChangeDetection.TaintsEqual | internal/controller/node_controller.go:316-337 | The same for taints by joined key and effect, and value |
| ChangeDetection.KeyedEqualIsPermutation | internal/controller/node_controller.go:295-313 | With no repeated key in the second list the comparison holds exactly for permutations |
| ChangeDetection.KeyedEqualExact | internal/controller/node_controller.go:295-313 | It decides permutation for every first list if and only if the second has no repeated key |
| ChangeDetection.TaintsEqualIsPermutation | internal/controller/node_controller.go:316-337 | For the three effects, no taint repeated and none of one list running together with one of the other, it holds exactly for permutations on key, effect and value |
| ChangeDetection.TaintKeyCollisions | internal/controller/node_controller.go:323-330 | For the three effects two joined texts are equal exactly for the same key and effect or for a Prefer collision |
| BootstrapLatch.NeverTaintedAgain | internal/controller/node_controller.go:85-90 | When no other live rule of the node has its taint: over every run of node reconciles and edits that keep annotations, a completed node without the taint never gets it back |
| BootstrapLatch.SatisfiedRunCompletes | internal/controller/node_controller.go:78-129 | While such a rule is satisfied, reconciles complete it if and only if the node carried its taint at the start |
| BootstrapLatch.FlipTaintsExactly | internal/controller/node_controller.go:78-129 | When a condition fails after that, the next reconcile leaves the taint on the node if and only if completion and taint were both absent or both there at the start |
| BootstrapLatch.LatchHolds | internal/controller/node_controller.go:85-90 | While a node is complete, no node reconcile adds or removes that taint, whatever fails |
| BootstrapLatch.CompletionExact | internal/controller/nodereadinessgaterule_controller.go:313-323 | For any rules and failures: completion is recorded if and only if the rule, not skipped, is satisfied and finds its taint, and its own patch and the annotation write go through; it finds the verdict of the last live rule before it with the same taint, or else the taint as it was |
| BootstrapLatch.RemovalBySharer | internal/controller/node_controller.go:78-129 | With no call failing, a satisfied rule with the same taint that comes first clears it, and the bootstrap-only rule is not completed |
| BootstrapLatch.RemovalCarriedByAnotherPatch | internal/controller/node_controller.go:166-176 | A run where a failed removal reaches the store with another rule's patch and completion is not recorded |
| BootstrapLatch.RuleReconcileIgnoresCompletion | internal/controller/nodereadinessgaterule_controller.go:254-263 | For any rule, edited, unguarded or under deletion as it may be, exactly when a rule reconcile taints a completed node again |
| BootstrapLatch.NodeReconcileDuringDeletion | internal/controller/nodereadinessgaterule_controller.go:104-117 | A node reconcile between cleanup and uncaching leaves the verdict of the last live rule with the taint; alone, the rule puts its taint back exactly when it is not skipped and some condition is unmet |
| Evaluation.MissingConditionMeets | internal/controller/node_controller.go:135-142 | A missing condition meets a requirement if and only if "Unknown" is required |
| Evaluation.ResultsReport | internal/controller/nodereadinessgaterule_controller.go:278-302 | Field by field what the results of an evaluation say, and that all are satisfied exactly when the rule's conditions hold |
| Evaluation.WithoutMembers | internal/controller/node_controller.go:166-176 | Removal keeps exactly the taints of another key or effect |
| Verdicts.CopyPresence | internal/controller/node_controller.go:78-129 | Whatever fails, the working copy ends a pass with the verdict of the last live rule that manages the taint, or with the taint as it was |
| Verdicts.SteadyPresence | internal/controller/node_controller.go:78-129 | When every live rule with the taint is content with it, a pass leaves it so in copy and store, whatever fails |
| Verdicts.PassCompletes | internal/controller/nodereadinessgaterule_controller.go:313-323 | Exactly when a pass records completion |
| Model.BootstrapKeyInjective | internal/controller/node_controller.go:186-188 | Different rules have different completion annotations |
| StatusLists.PassStatusTrueExactly | internal/controller/node_controller.go:104-129 | For a live rule of any mode: in every order and under every set of failures it ends with a failure at its turn or an entry that lists one result per requirement and the taint as stored, if and only if no other live rule shares its taint, or it has nothing to do and all that share it agree with it |
| StatusLists.PassStatusIsTrue | internal/controller/node_controller.go:104-129 | Under that condition: evaluated without failing, the entry is true of the store; failed, there is a failure record; skipped, nothing changed |
| StatusLists.PassStatusIsVerdict | internal/controller/node_controller.go:104-129 | For every rule of the pass, taints shared or not: only the node's entry or failure record changes, and an entry says present exactly when some requirement is unmet |
| StatusLists.PassEntryAccounts | internal/controller/node_controller.go:104-129 | After a node pass, the entry of a rule that had its turn without failing is true of the node's conditions, field by field |
| StatusLists.SharedTaintEntryIsFalse | internal/controller/node_controller.go:104-109 | Without it, an order and a set of failures that leave a false entry, for every node, cache and rule |
| StatusLists.PassPublishes | internal/controller/nodereadinessgaterule_controller.go:449-481 | The store ends with the cached status of each rule evaluated, under the stored status conditions, and with any other rule as it was |
| StatusLists.RowStatusIsTrue | internal/controller/nodereadinessgaterule_controller.go:253-268 | After a rule's run, one entry and one failure per node; failed nodes have a failure and their old entry, other selected nodes a true entry, the rest are as before |
| StatusLists.RowEntryAccounts | internal/controller/nodereadinessgaterule_controller.go:243-272 | After a rule's run, so is the entry of every node evaluated without failing |
| StatusLists.UpsertIsMapUpdate | internal/controller/nodereadinessgaterule_controller.go:351-377 | Setting a node's entry is a map update that keeps positions and at most one entry per node |
| StatusLists.FailureRecordedOnce | internal/controller/node_controller.go:227-248 | Recording a failure replaces the node's earlier one and leaves the others |
| StatusLists.PrunedFacts | internal/controller/nodereadinessgaterule_controller.go:201-212 | Pruning keeps exactly the entries of existing nodes, is idempotent, and equal length means nothing was pruned |
| StatusLists.PublishedAndPruned | internal/controller/nodereadinessgaterule_controller.go:172-182 | After publish and prune succeed, the store holds the new status with the entries of existing nodes, the stored conditions and spec unchanged |
| StatusLists.PruningAgainWritesNothing | internal/controller/nodereadinessgaterule_controller.go:209-212 | Doing it again with the stored status changes nothing |
| StatusLists.ReconciledStatus | internal/controller/nodereadinessgaterule_controller.go:155-182 | What a successful reconcile of any live rule, in dry run or not, finalizer new or not, behind an edited selector or not, leaves in the store |
| StatusLists.FailureRecordExact | internal/controller/nodereadinessgaterule_controller.go:258-262 | After a successful reconcile a failure record says that this evaluation failed if and only if there was none before or it failed again |
| StatusLists.FailureRecordsStay | internal/controller/nodereadinessgaterule_controller.go:243-272 | No run of rule reconciles clears a failure record of a live rule |
| StatusLists.GenerationFallsExactly | internal/controller/node_controller.go:117-128 | A node reconcile lowers the stored observed generation if and only if it evaluates the rule, its publish goes through and the cached generation is earlier |
| StatusLists.NodeReconcileRevertsGeneration | internal/controller/node_controller.go:117-128 | After a rule reconcile it does so if and only if it evaluates and publishes the rule and there had been a generation to observe |
| StatusLists.FreshEntriesAreLost | internal/controller/node_controller.go:117-128 | After a rule reconcile, the next node reconcile that publishes the rule puts back the earlier entry of every other node |
| StatusLists.PendingGenerationIsLost | internal/controller/nodereadinessgaterule_controller.go:148-149 | From every state with an unobserved generation, reconciling the rule and then the node loses the generation just observed |
| StatusLists.GenerationCanBePending | internal/controller/nodereadinessgaterule_controller.go:266-268 | There are such states |
| OptimisticUpdate.Register.TryOnce | internal/controller/node_controller.go:197-217 | One attempt: it writes the decision on what the others left, or leaves that as it is; it conflicts only when somebody wrote in between |
| OptimisticUpdate.Register.RetryOnConflict | internal/controller/nodereadinessgaterule_controller.go:457-480 | For any script of concurrent writes, failures and any number of attempts: at most one write, last, computed from exactly what the others left; otherwise nothing is changed; and when it gives up |
| OptimisticUpdate.MarkBootstrapCompleted | internal/controller/node_controller.go:191-224 | Adds one annotation to the node as others left it, or nothing; undisturbed, it is the atomic write |
| OptimisticUpdate.UpdateRuleStatus | internal/controller/nodereadinessgaterule_controller.go:449-481 | Replaces all of the status but its conditions in the rule as others left it, or nothing; fails only on a failing call, a missing rule or a conflict every time; undisturbed, it always succeeds |
| OptimisticUpdate.PruneRuleStatus | internal/controller/nodereadinessgaterule_controller.go:219-239 | Removes the entries of missing nodes from the rule as others left it, or nothing; fails only on a failing call, a missing rule or a conflict every time; undisturbed, it always succeeds |
| OptimisticUpdate.PublishAndPruneStores | internal/controller/nodereadinessgaterule_controller.go:172-182 | What these two write is what the atomic reconcile stores |
| Admission.AdmissionInvariant | internal/webhook/nodereadinessgaterule_webhook.go:104-161 | After any sequence of accepted requests, two rules with one key and effect have usable selectors of different texts |
| Admission.AdmittedRulesMeetNowhere | internal/webhook/nodereadinessgaterule_webhook.go:143-161 | After any sequence of accepted requests, rules with one taint never select the same node if and only if of every two of them some key keeps the selectors apart |
| Admission.AdmittedLabelRulesMeetNowhere | internal/webhook/nodereadinessgaterule_webhook.go:143-161 | For selectors of labels only: if and only if every two of them give some key different values |
| Admission.RunsKeepNoClash | internal/webhook/nodereadinessgaterule_webhook.go:104-140 | Every sequence of accepted requests keeps the stored rules free of clashes |
| Admission.AcceptedExactly | internal/webhook/nodereadinessgaterule_webhook.go:49-161 | Every deletion is accepted; a create or update if and only if conditions, key and effect are there, the mode is one of the two, and every stored rule but the updated one has another key or another effect, or both selectors are usable with different texts |
| Admission.ResubmissionAccepted | internal/webhook/nodereadinessgaterule_webhook.go:118-122 | In every state reached by accepted requests, updating a rule to the spec it has is accepted |
| Admission.LastWordIsStored | internal/webhook/nodereadinessgaterule_webhook.go:49-59 | After any sequence of accepted requests a rule is stored exactly when the last request for it was not a deletion, with the spec of that request |
| Admission.OverlappingRulesAdmitted | internal/webhook/nodereadinessgaterule_webhook.go:158-160 | Two rules with one taint and different, overlapping selectors are both accepted |
| Admission.ValidateSpec | internal/webhook/nodereadinessgaterule_webhook.go:62-101 | Every due error is reported, with its index, and no other; none exactly when the spec is valid |
| Admission.ValidateTaintConflicts | internal/webhook/nodereadinessgaterule_webhook.go:104-140 | One error for each stored rule that clashes, itself excepted on update; none when listing fails |
| Admission.ValidateRule | internal/webhook/nodereadinessgaterule_webhook.go:49-59 | Accepts exactly when the spec is valid and nothing clashes; without a listing, when the spec is valid |
| Controller.ReadinessGateController.GetConditionStatus | internal/controller/node_controller.go:135-142 | The loop returns the status of the first condition of that type, else "Unknown" |
| Controller.ReadinessGateController.HasTaintBySpec | internal/controller/node_controller.go:145-152 | The loop decides whether a taint with that key and effect is there |
| Controller.ReadinessGateController.EvaluateConditions | internal/controller/nodereadinessgaterule_controller.go:278-302 | One result per requirement in order, true of the node's conditions field by field; satisfied exactly when all results are |
| Controller.ReadinessGateController.AddTaintBySpec | internal/controller/node_controller.go:155-163 | The copy gains the taint at the end of its list and nothing else; the stored list becomes the copy's unless the patch fails |
| Controller.ReadinessGateController.RemoveTaintBySpec | internal/controller/node_controller.go:166-176 | The copy keeps exactly the other taints and everything else; the stored list becomes the copy's unless the patch fails |
| Controller.ReadinessGateController.RuleAppliesTo | internal/controller/nodereadinessgaterule_controller.go:396-410 | The branches decide selection: everything without a selector, nothing with one in error |
| Controller.ReadinessGateController.MarkBootstrapCompleted | internal/controller/node_controller.go:191-224 | Completion is recorded once in the stored node, or the failure is swallowed |
| Controller.ReadinessGateController.RecordNodeFailure | internal/controller/node_controller.go:227-248 | The node's failures are replaced by one new record at the end |
| Controller.ReadinessGateController.UpdateNodeEvaluationStatus | internal/controller/nodereadinessgaterule_controller.go:351-377 | The search loop and the write are the upsert of the specification |
| Controller.ReadinessGateController.EvaluateRuleForNode | internal/controller/nodereadinessgaterule_controller.go:275-348 | Store, copy, status and error of evaluating one rule on one node are the specified ones |
| Controller.ReadinessGateController.GetApplicableRulesForNode | internal/controller/nodereadinessgaterule_controller.go:380-393 | Lists every cached rule that selects the node once, in some order |
| Controller.ReadinessGateController.UpdateRuleStatus | internal/controller/nodereadinessgaterule_controller.go:449-481 | On success the stored status is the one given, field by field, under the stored conditions; an error when the call fails or the rule is gone, and then nothing changes |
| Controller.ReadinessGateController.ProcessNodeAgainstAllRules | internal/controller/node_controller.go:71-132 | The loop over the cached rules refines the atomic node reconcile for the order it took |
| Controller.ReadinessGateController.ProcessAllNodesForRule | internal/controller/nodereadinessgaterule_controller.go:243-272 | The loop over the nodes evaluates the rule on each selected node of the listing and builds the specified status |
| Controller.ReadinessGateController.ProcessDryRun | internal/controller/nodereadinessgaterule_controller.go:484-554 | The counters end at the numbers of selected, to-be-tainted, to-be-untainted and risky nodes, and no node is changed |
| Controller.ReadinessGateController.CleanupTaintsForRule | internal/controller/nodereadinessgaterule_controller.go:562-595 | Success exactly when no removal on a selected tainted node failed; the nodes are cleaned as specified |
| Controller.ReadinessGateController.CleanupNodesAfterSelectorChange | internal/controller/nodereadinessgaterule_controller.go:598-652 | The same on the nodes that the old selector selects and the new one does not; an unusable old selector is an error |
| Controller.ReadinessGateController.CleanupDeletedNodes | internal/controller/nodereadinessgaterule_controller.go:188-240 | The stored entries of missing nodes go, and nothing is written when there are none |
| Controller.NodeReconciler.Reconcile | internal/controller/node_controller.go:51-68 | Refines the atomic node reconcile |
| Controller.RuleReconciler.Reconcile | internal/controller/nodereadinessgaterule_controller.go:83-185 | Refines the atomic rule reconcile, success flag included; the members of `Outcomes` say when it succeeds and what it leaves |
| Controller.RuleReconciler.ReconcileDeletion | internal/controller/nodereadinessgaterule_controller.go:99-120 | Cleanup, finalizer removal, uncaching, in that order, stopping with an error at the first failure, as Outcomes.DeletionSucceedsExactly and Outcomes.DeletionOutcome spell out |
| Controller.RuleReconciler.ContainsFinalizer | internal/controller/nodereadinessgaterule_controller.go:714-721 | The loop decides membership |
| Controller.RuleReconciler.RemoveFinalizerFrom | internal/controller/nodereadinessgaterule_controller.go:731-739 | The loop keeps the other finalizers |

## Left out

- Manager, flags, health checks, leader election, webhook and watch registration: plumbing.
- Kubernetes client, informers, work queue, requeue delays and patch encoding: replaced by the store and the assumptions above.
- Interleavings inside one reconcile, mutexes and a restart of the controller in the middle of a run: reconciles are atomic and a run starts with an empty cache.
- Failing reads of a single object (the rule at the start of a reconcile, the node in the completion check): taken to succeed.
- Refresh of the working copy from the answer to a patch: nothing that the modelled code reads from the copy afterwards changes by it.
- Logging, timestamps, failure messages, the text of the dry-run summary and of validation errors.
- `GracePeriod`: declared, but read by no reconcile code.
- Length and prefix rules of label keys and values: only the allowed characters are modelled.
- Deep copies: values are copied by construction; that the cache keeps a copy is modelled.
- Create and delete events of the node watch, which always pass the filter.
- Deployment files, scripts, end-to-end tests.
- Lifecycle.NoOrphanTaints: holds for reserved taints, that is those which no one but the controller puts on nodes. Once cached, a rule keeps its key and effect (`Lifecycle.EditedTaintIsAbandoned` shows what happens otherwise) and the cleanup finalizer (`Lifecycle.UnguardedDeletionCleansNothing`), its selector edits are noticed or give up no node (`Lifecycle.UnnoticedEditAbandonsNodes`), and it is not deleted while an edit that gives up nodes is pending (`Lifecycle.DeletionReachesStoredSelectorOnly`); a node keeps a taint through a relabelling only if the cached rules that selected it for the taint still do (`Lifecycle.UnmanagedTaintStays`).
- Quiescence.WritesBoundedExactly: for runs of reconciles alone, so labels, conditions and specs do not change, that start while no edit of a cached spec and no deletion is pending; rules not yet cached and finalizers not yet added are covered.
- Quiescence.NodeSettlesExactly: for node reconciles alone; with rule reconciles among them `Quiescence.WritesBoundedExactly` decides.
