/** What a reconcile of a rule reports, what it forgets and what it stores, told field by field. */
module Outcomes {
  import opened Model
  import opened Sequences
  import opened Selectors
  import opened Evaluation
  import opened Reconcile
  import opened RulePass
  import opened Verdicts
  import opened StatusLists
  import opened Runs

  // ---------- a rule that is not there ----------

  /** A reconcile of a rule that the store does not have takes it out of the cache and changes nothing else. */
  lemma MissingRuleIsForgotten(s: Cluster, name: string, order: seq<string>, faults: Faults)
    requires name !in s.rules && Listing(order, s.nodes.Keys)
    ensures var out := ReconcileRule(s, name, order, faults);
            && out.ok && out.state.nodes == s.nodes && out.state.rules == s.rules
            && out.state.globalDryRun == s.globalDryRun && name !in out.state.cache
            && forall r :: r != name ==>
                 (r in out.state.cache <==> r in s.cache) && (r in s.cache ==> out.state.cache[r] == s.cache[r])
  {
  }

  /** Neither stored nor cached. */
  predicate Forgotten(s: Cluster, r: string) {
    r !in s.rules && r !in s.cache
  }

  function ClaimsOf(n: Node, r: string): set<Claim> {
    set c | c in n.claims && c.rule == r
  }

  lemma {:induction false} PassAddsNoClaim(
    v: View, cache: map<string, Rule>, order: seq<string>, name: string, dry: bool, faults: Faults, r: string)
    requires r !in cache
    ensures var after := PassView(v, cache, order, name, dry, faults);
            ClaimsOf(after.stored, r) + ClaimsOf(after.copy, r) <= ClaimsOf(v.stored, r) + ClaimsOf(v.copy, r)
  {
    if order != [] {
      PassAddsNoClaim(v, cache, order[..|order| - 1], name, dry, faults, r);
    }
  }

  /** What the taints of this rule were put on, at most. */
  ghost predicate ClaimsNothingNew(before: map<string, Node>, after: map<string, Node>, r: string) {
    forall n :: n in after ==> n in before && ClaimsOf(after[n], r) <= ClaimsOf(before[n], r)
  }

  lemma EvaluationAddsNoClaim(
    nodes: map<string, Node>, rule: string, spec: RuleSpec, faults: Faults, r: string)
    requires rule != r
    ensures ClaimsNothingNew(nodes, Evaluated(nodes, nodes.Keys, rule, spec, faults), r)
  {
    forall n | n in nodes
      ensures ClaimsOf(Evaluated(nodes, nodes.Keys, rule, spec, faults)[n], r) <= ClaimsOf(nodes[n], r)
    {
      assert PatchTaints(rule, n) in faults || PatchTaints(rule, n) !in faults;
    }
  }

  lemma CleanupAddsNoClaim(
    nodes: map<string, Node>, targets: set<string>, rule: string, taint: Taint, faults: Faults, r: string)
    ensures ClaimsNothingNew(nodes, Cleaned(nodes, targets, rule, taint, faults), r)
  {
  }

  lemma SweepAddsNoClaim(s: Cluster, name: string, faults: Faults, r: string)
    requires name in s.rules
    ensures ClaimsNothingNew(s.nodes, SweptNodes(s, name, faults), r)
  {
    if Edited(s, name) {
      var spec, previous := s.rules[name].spec, s.cache[name].spec.selector;
      CleanupAddsNoClaim(s.nodes, LeftBehind(s.nodes, previous, spec.selector), name, spec.taint, faults, r);
    }
  }

  lemma OtherRuleAddsNoClaim(s: Cluster, name: string, order: seq<string>, faults: Faults, r: string)
    requires name in s.rules && name != r && Listing(order, s.nodes.Keys)
    ensures ClaimsNothingNew(s.nodes, ReconcileRule(s, name, order, faults).state.nodes, r)
  {
    var spec := s.rules[name].spec;
    if s.rules[name].deleting {
      CleanupAddsNoClaim(s.nodes, Selected(s.nodes, spec.selector), name, spec.taint, faults, r);
    } else {
      LiveReconcileEffect(s, name, order, faults);
      SweepAddsNoClaim(s, name, faults, r);
      EvaluationAddsNoClaim(SweptNodes(s, name, faults), name, spec, faults, r);
    }
  }

  lemma ForgottenStays(s: Cluster, name: string, order: seq<string>, faults: Faults, r: string)
    requires Forgotten(s, r) && name in s.rules && Listing(order, s.nodes.Keys)
    ensures Forgotten(ReconcileRule(s, name, order, faults).state, r)
  {
    if !s.rules[name].deleting {
      LiveReconcileEffect(s, name, order, faults);
    }
  }

  lemma ForgottenMove(s: Cluster, m: Move, r: string)
    requires Forgotten(s, r) && CanMove(s, m)
    ensures Forgotten(Perform(s, m), r) && ClaimsNothingNew(s.nodes, Perform(s, m).nodes, r)
  {
    if m.OnNode? && m.node in s.nodes {
      NodeMoveEffect(s, m.node, m.order, m.faults);
      PassAddsNoClaim(Fresh(s.nodes[m.node]), s.cache, m.order, m.node, s.globalDryRun, m.faults, r);
    } else if m.OnRule? && m.rule in s.rules {
      OtherRuleAddsNoClaim(s, m.rule, m.order, m.faults, r);
      ForgottenStays(s, m.rule, m.order, m.faults, r);
    }
  }

  lemma {:induction false} ForgottenRun(s: Cluster, moves: seq<Move>, r: string)
    requires Forgotten(s, r) && CanRun(s, moves)
    ensures Forgotten(RunAll(s, moves), r) && ClaimsNothingNew(s.nodes, RunAll(s, moves).nodes, r)
    decreases |moves|
  {
    if moves != [] {
      ForgottenMove(s, moves[0], r);
      ForgottenRun(Perform(s, moves[0]), moves[1..], r);
    }
  }

  /** From whatever state: once a missing rule has been reconciled, no run of node and rule reconciles puts a taint
      on a node on its behalf again. */
  lemma MissingRuleTaintsNoMore(s: Cluster, name: string, order: seq<string>, faults: Faults, moves: seq<Move>)
    requires name !in s.rules && Listing(order, s.nodes.Keys)
    requires CanRun(ReconcileRule(s, name, order, faults).state, moves)
    ensures var end := RunAll(ReconcileRule(s, name, order, faults).state, moves);
            && name !in end.cache
            && forall n, c :: n in end.nodes && c in end.nodes[n].claims && c.rule == name ==>
                 n in s.nodes && c in s.nodes[n].claims
  {
    MissingRuleIsForgotten(s, name, order, faults);
    ForgottenRun(ReconcileRule(s, name, order, faults).state, moves, name);
    var end := RunAll(ReconcileRule(s, name, order, faults).state, moves);
    forall n, c | n in end.nodes && c in end.nodes[n].claims && c.rule == name
      ensures n in s.nodes && c in s.nodes[n].claims
    {
      assert c in ClaimsOf(end.nodes[n], name);
    }
  }

  /** Until then it may well: a rule that is cached but no longer stored is still enforced by node reconciles. When
      no other live rule has its taint, they leave the taint exactly where they find a condition unmet. */
  lemma {:induction false} MissingRuleTaintsUntilForgotten(s: Cluster, name: string, n: string, order: seq<string>)
    requires name !in s.rules && name in s.cache && n in s.nodes && NodeOrder(s, n, order)
    requires Selects(s.cache[name].spec.selector, s.nodes[n].labels)
    requires !Skipped(s.nodes[n], name, s.cache[name].spec, s.globalDryRun)
    requires forall q :: q in order && q != name ==>
               !Sharer(s.nodes[n], s.cache, s.globalDryRun, q, s.cache[name].spec.taint)
    ensures HasTaint(ReconcileNode(s, n, order, {}).nodes[n].taints, s.cache[name].spec.taint)
            <==> !Ready(s.cache[name].spec, s.nodes[n].conditions)
  {
    var t := s.cache[name].spec.taint;
    CopyPresence(s.nodes[n], s.cache, order, n, s.globalDryRun, {}, t);
    StoredFollowsCopy(s.nodes[n], s.cache, order, n, s.globalDryRun, {});
    OnlySharerDecides(s.nodes[n], s.cache, order, s.globalDryRun, t, name);
  }

  // ---------- a rule under deletion ----------

  /** The patch that takes the rule's taint off this node is due, and fails. */
  predicate RemovalFails(s: Cluster, name: string, n: string, faults: Faults)
    requires name in s.rules && n in s.nodes
  {
    && Selects(s.rules[name].spec.selector, s.nodes[n].labels)
    && HasTaint(s.nodes[n].taints, s.rules[name].spec.taint) && PatchTaints(name, n) in faults
  }

  /** A deletion reports success exactly when the nodes could be listed, every due patch went through and the
      finalizer could be taken off. */
  lemma DeletionSucceedsExactly(s: Cluster, name: string, order: seq<string>, faults: Faults)
    requires name in s.rules && s.rules[name].deleting && FINALIZER in s.rules[name].finalizers
    requires Listing(order, s.nodes.Keys)
    ensures ReconcileRule(s, name, order, faults).ok
            <==> ListForCleanup !in faults && RemoveFinalizer !in faults
                 && forall n :: n in s.nodes ==> !RemovalFails(s, name, n, faults)
  {
    var spec := s.rules[name].spec;
    var blocked := Blocked(s.nodes, Selected(s.nodes, spec.selector), name, spec.taint, faults);
    assert forall n :: n in blocked <==> n in s.nodes && RemovalFails(s, name, n, faults);
  }

  lemma DeletionFrame(s: Cluster, name: string, order: seq<string>, faults: Faults)
    requires name in s.rules && s.rules[name].deleting && Listing(order, s.nodes.Keys)
    ensures var after := ReconcileRule(s, name, order, faults).state;
            && after.nodes.Keys == s.nodes.Keys && after.globalDryRun == s.globalDryRun
            && forall r :: r != name ==>
                 && (r in after.rules <==> r in s.rules) && (r in s.rules ==> after.rules[r] == s.rules[r])
                 && (r in after.cache <==> r in s.cache) && (r in s.cache ==> after.cache[r] == s.cache[r])
  {
  }

  /** Then the rule is out of the cache, no node it selects has its taint, and the store keeps it exactly while
      there are other finalizers, and with these; otherwise it stays in the cache and in the store as it was, so
      that the deletion is tried again. */
  lemma {:induction false} DeletionOutcome(s: Cluster, name: string, order: seq<string>, faults: Faults)
    requires name in s.rules && s.rules[name].deleting && FINALIZER in s.rules[name].finalizers
    requires Listing(order, s.nodes.Keys)
    ensures var out, rule := ReconcileRule(s, name, order, faults), s.rules[name];
            if out.ok then
              && name !in out.state.cache && out.state.nodes.Keys == s.nodes.Keys
              && (forall n :: n in s.nodes && Selects(rule.spec.selector, s.nodes[n].labels) ==>
                    !HasTaint(out.state.nodes[n].taints, rule.spec.taint))
              && (name in out.state.rules <==> exists f :: f in rule.finalizers && f != FINALIZER)
              && (name in out.state.rules ==>
                    && out.state.rules[name] == rule.(finalizers := out.state.rules[name].finalizers)
                    && forall f :: f in out.state.rules[name].finalizers <==> f in rule.finalizers && f != FINALIZER)
            else out.state.rules == s.rules && out.state.cache == s.cache
  {
    var spec, kept := s.rules[name].spec, WithoutFinalizer(s.rules[name].finalizers);
    FilterMembers(s.rules[name].finalizers, NotOurs);
    if kept != [] {
      assert kept[0] in kept;
    }
    var targets := Selected(s.nodes, spec.selector);
    if Blocked(s.nodes, targets, name, spec.taint, faults) == {} {
      forall n | n in targets
        ensures !HasTaint(Cleaned(s.nodes, targets, name, spec.taint, faults)[n].taints, spec.taint)
      {
        AllCleaned(s.nodes, targets, name, spec.taint, faults, n);
      }
    }
  }

  /** Either way the taint is gone from every selected node whose patch went through, and only from there. */
  lemma DeletionOnNodes(s: Cluster, name: string, order: seq<string>, faults: Faults, n: string)
    requires name in s.rules && s.rules[name].deleting && FINALIZER in s.rules[name].finalizers
    requires Listing(order, s.nodes.Keys) && n in s.nodes
    ensures var after, spec := ReconcileRule(s, name, order, faults).state, s.rules[name].spec;
            && n in after.nodes
            && (HasTaint(after.nodes[n].taints, spec.taint)
                <==> HasTaint(s.nodes[n].taints, spec.taint)
                     && (ListForCleanup in faults || PatchTaints(name, n) in faults
                         || !Selects(spec.selector, s.nodes[n].labels)))
  {
    WithoutMembers(s.nodes[n].taints, s.rules[name].spec.taint);
  }

  // ---------- a live rule ----------

  predicate HasEntry(es: seq<NodeEvaluation>, n: string) {
    exists e :: e in es && e.nodeName == n
  }

  lemma {:induction false} UpsertEntries(es: seq<NodeEvaluation>, e: NodeEvaluation, n: string)
    ensures HasEntry(Upsert(es, e), n) <==> HasEntry(es, n) || n == e.nodeName
  {
    if es != [] {
      assert es == [es[0]] + es[1..];
      UpsertEntries(es[1..], e, n);
    }
  }

  /** Evaluating nodes gives no entry to one that is not there. */
  lemma {:induction false} RowEntries(
    status: Status, nodes: map<string, Node>, order: seq<string>, rule: string, spec: RuleSpec, faults: Faults,
    n: string)
    requires (forall m :: m in order ==> m in nodes) && n !in nodes
    ensures HasEntry(RowStatus(status, nodes, order, rule, spec, faults).evaluations, n)
            <==> HasEntry(status.evaluations, n)
  {
    if order != [] {
      var init, m := order[..|order| - 1], order[|order| - 1];
      var before := RowStatus(status, nodes, init, rule, spec, faults);
      RowEntries(status, nodes, init, rule, spec, faults, n);
      var copy := Enforce(rule, spec, m, Fresh(nodes[m]), faults).copy;
      UpsertEntries(before.evaluations,
                    NodeEvaluation(m, Results(spec, copy.conditions), Observed(copy.taints, spec.taint)), n);
    }
  }

  /** Pruning has nothing to do exactly when there is no entry of a missing node. */
  lemma NothingStale(es: seq<NodeEvaluation>, existing: set<string>)
    ensures |Pruned(es, existing)| == |es| <==> forall e :: e in es ==> e.nodeName in existing
  {
    PrunedFacts(es, existing);
    if forall e :: e in es ==> e.nodeName in existing {
      FilterNothing(es, OnOneOf(existing));
    }
  }

  /** Every entry of the rule is for a node that is there. */
  predicate NoStaleEntry(rule: Rule, nodes: map<string, Node>) {
    forall e :: e in rule.status.evaluations ==> e.nodeName in nodes
  }

  lemma IntendedEntries(
    rule: Rule, nodes: map<string, Node>, order: seq<string>, name: string, faults: Faults)
    requires forall n :: n in order ==> n in nodes
    ensures var es := IntendedStatus(rule, nodes, order, name, faults).evaluations;
            |Pruned(es, nodes.Keys)| == |es| <==> NoStaleEntry(rule, nodes)
  {
    var before, es := rule.status.evaluations, IntendedStatus(rule, nodes, order, name, faults).evaluations;
    NothingStale(es, nodes.Keys);
    forall n | n !in nodes ensures HasEntry(es, n) <==> HasEntry(before, n) {
      RowEntries(rule.status.(dryRunResults := None), nodes, order, name, rule.spec, faults, n);
    }
    assert forall e :: e in es ==> HasEntry(es, e.nodeName);
    assert forall e :: e in before ==> HasEntry(before, e.nodeName);
  }

  lemma ProcessSucceedsExactly(s: Cluster, name: string, order: seq<string>, faults: Faults)
    requires name in s.rules && Listing(order, s.nodes.Keys)
    ensures Process(s, name, order, faults).ok
            <==> ListForProcessing !in faults && PublishStatus(name) !in faults && ListForPrune !in faults
                 && (PruneStatus in faults ==> NoStaleEntry(s.rules[name], s.nodes))
  {
    IntendedEntries(s.rules[name], s.nodes, order, name, faults);
    assert Evaluated(s.nodes, s.nodes.Keys, name, s.rules[name].spec, faults).Keys == s.nodes.Keys;
  }

  /** The cleanup behind an edited selector succeeds. */
  predicate CleansUp(s: Cluster, name: string, faults: Faults)
    requires name in s.rules && name in s.cache
  {
    && ListForCleanup !in faults && !InError(s.cache[name].spec.selector)
    && forall n :: n in s.nodes && PatchTaints(name, n) in faults ==>
         !(Selects(s.cache[name].spec.selector, s.nodes[n].labels)
           && !Selects(s.rules[name].spec.selector, s.nodes[n].labels)
           && HasTaint(s.nodes[n].taints, s.rules[name].spec.taint))
  }

  lemma SweepSucceedsExactly(s: Cluster, name: string, faults: Faults)
    requires name in s.rules && name in s.cache
    ensures Sweep(s, name, faults).ok <==> CleansUp(s, name, faults)
  {
    var spec, previous := s.rules[name].spec, s.cache[name].spec.selector;
    var blocked := Blocked(s.nodes, LeftBehind(s.nodes, previous, spec.selector), name, spec.taint, faults);
    assert forall n :: n in blocked <==>
        n in s.nodes && PatchTaints(name, n) in faults && NoLongerSelected(previous, spec.selector, s.nodes[n])
            && HasTaint(s.nodes[n].taints, spec.taint);
  }

  /** A reconcile of a live rule reports success exactly when the finalizer is there or gets there, the cleanup
      behind a noticed edit succeeds, nodes can be listed both times, the status is published, and so are the
      entries without those of missing nodes, if there are any. Failing patches of the evaluation do not count. */
  lemma {:induction false} LiveReconcileSucceedsExactly(s: Cluster, name: string, order: seq<string>, faults: Faults)
    requires name in s.rules && !s.rules[name].deleting && Listing(order, s.nodes.Keys)
    ensures ReconcileRule(s, name, order, faults).ok
            <==> (FINALIZER in s.rules[name].finalizers || (AddFinalizer !in faults && RefreshRule !in faults))
                 && (Edited(s, name) ==> CleansUp(s, name, faults))
                 && ListForProcessing !in faults && PublishStatus(name) !in faults && ListForPrune !in faults
                 && (PruneStatus in faults ==> NoStaleEntry(s.rules[name], s.nodes))
  {
    LiveReconcile(s, name, order, faults);
    if name in s.cache {
      SweepSucceedsExactly(s, name, faults);
    }
    ProcessSucceedsExactly(Prepared(s, name, faults), name, order, faults);
  }

  // ---------- what is stored ----------

  lemma {:induction false} RowKeepsRest(
    status: Status, nodes: map<string, Node>, order: seq<string>, rule: string, spec: RuleSpec, faults: Faults)
    requires forall m :: m in order ==> m in nodes
    ensures var after := RowStatus(status, nodes, order, rule, spec, faults);
            after == status.(evaluations := after.evaluations, failures := after.failures)
  {
    if order != [] {
      RowKeepsRest(status, nodes, order[..|order| - 1], rule, spec, faults);
    }
  }

  lemma SweptFacts(s: Cluster, name: string, faults: Faults, n: string)
    requires name in s.rules && n in s.nodes
    ensures var after := SweptNodes(s, name, faults)[n];
            after.labels == s.nodes[n].labels && after.conditions == s.nodes[n].conditions
  {
    if Edited(s, name) {
      SweptNode(s, name, faults, n);
    }
  }

  /** What every successful reconcile of a live rule leaves of it in the store: spec, generation and status
      conditions as they were, the finalizer, and no entry of a missing node. */
  lemma {:induction false} ReconcileKeeps(s: Cluster, name: string, order: seq<string>, faults: Faults)
    requires name in s.rules && !s.rules[name].deleting && Listing(order, s.nodes.Keys)
    requires ReconcileRule(s, name, order, faults).ok
    ensures name in ReconcileRule(s, name, order, faults).state.rules
    ensures var before, after := s.rules[name], ReconcileRule(s, name, order, faults).state.rules[name];
            && after.spec == before.spec && after.generation == before.generation && !after.deleting
            && FINALIZER in after.finalizers && after.status.conditions == before.status.conditions
            && NoStaleEntry(after, s.nodes)
  {
    ReconciledStatus(s, name, order, faults);
    var rule := Guarded(s, name).rules[name];
    PrunedFacts(IntendedStatus(rule, SweptNodes(s, name, faults), order, name, faults).evaluations, s.nodes.Keys);
    assert FINALIZER !in s.rules[name].finalizers ==> rule.finalizers[|rule.finalizers| - 1] == FINALIZER;
  }

  function IsSelected(nodes: map<string, Node>, selector: Option<LabelSelector>): string -> bool {
    (n: string) => n in nodes && Selects(selector, nodes[n].labels)
  }

  lemma {:induction false} AppliedInOrder(
    nodes: map<string, Node>, was: map<string, Node>, order: seq<string>, spec: RuleSpec)
    requires nodes.Keys == was.Keys && forall n :: n in was ==> nodes[n].labels == was[n].labels
    requires forall n :: n in order ==> n in nodes
    ensures AppliedNodes(nodes, order, spec) == Filter(order, IsSelected(was, spec.selector))
  {
    if order != [] {
      assert order[|order| - 1] in order;
      AppliedInOrder(nodes, was, order[..|order| - 1], spec);
    }
  }

  /** A real run stores the nodes it selected, once each and in the order of the listing, the generation it
      looked at and no dry-run results. */
  lemma {:induction false} RealRunStores(s: Cluster, name: string, order: seq<string>, faults: Faults)
    requires name in s.rules && !s.rules[name].deleting && Listing(order, s.nodes.Keys)
    requires ReconcileRule(s, name, order, faults).ok && !s.rules[name].spec.dryRun
    ensures name in ReconcileRule(s, name, order, faults).state.rules
    ensures var before, after := s.rules[name], ReconcileRule(s, name, order, faults).state.rules[name].status;
            && after.observedGeneration == before.generation && after.dryRunResults == None
            && Distinct(after.appliedNodes)
            && (forall n ::
                  n in after.appliedNodes <==> n in s.nodes && Selects(before.spec.selector, s.nodes[n].labels))
            && after.appliedNodes == Filter(order, IsSelected(s.nodes, before.spec.selector))
  {
    ReconciledStatus(s, name, order, faults);
    var rule, swept := s.rules[name], SweptNodes(s, name, faults);
    RowKeepsRest(rule.status.(dryRunResults := None), swept, order, name, rule.spec, faults);
    AppliedNodesAreSelected(swept, order, rule.spec);
    forall n | n in s.nodes ensures swept[n].labels == s.nodes[n].labels {
      SweptFacts(s, name, faults, n);
    }
    AppliedInOrder(swept, s.nodes, order, rule.spec);
  }

  /** A dry run stores its counts; generation, applied nodes, failures and the entries of the nodes that are there
      stay. */
  lemma {:induction false} DryRunStores(s: Cluster, name: string, order: seq<string>, faults: Faults)
    requires name in s.rules && !s.rules[name].deleting && Listing(order, s.nodes.Keys)
    requires ReconcileRule(s, name, order, faults).ok && s.rules[name].spec.dryRun
    ensures name in ReconcileRule(s, name, order, faults).state.rules
    ensures var before, after := s.rules[name], ReconcileRule(s, name, order, faults).state.rules[name].status;
            && after.dryRunResults == Some(Simulated(SweptNodes(s, name, faults), before.spec))
            && after.observedGeneration == before.status.observedGeneration
            && after.appliedNodes == before.status.appliedNodes && after.failures == before.status.failures
            && forall e :: e in after.evaluations <==> e in before.status.evaluations && e.nodeName in s.nodes
  {
    ReconciledStatus(s, name, order, faults);
    PrunedFacts(s.rules[name].status.evaluations, s.nodes.Keys);
  }

  lemma NamesOfTail(es: seq<NodeEvaluation>)
    requires Distinct(EvaluationNames(es)) && es != []
    ensures Distinct(EvaluationNames(es[1..])) && forall e :: e in es[1..] ==> e.nodeName != es[0].nodeName
  {
    assert EvaluationNames(es[1..]) == EvaluationNames(es)[1..];
    forall e | e in es[1..] ensures e.nodeName != es[0].nodeName {
      var i :| 0 <= i < |es| - 1 && es[1..][i] == e;
      assert EvaluationNames(es)[i + 1] == e.nodeName;
    }
  }

  /** With one entry for each node the list is the map. */
  lemma {:induction false} EntriesByNode(es: seq<NodeEvaluation>, e: NodeEvaluation)
    requires Distinct(EvaluationNames(es))
    ensures e in es <==> e.nodeName in ByNode(es) && ByNode(es)[e.nodeName] == e
  {
    if es != [] {
      NamesOfTail(es);
      EntriesByNode(es[1..], e);
      assert e in es <==> e == es[0] || e in es[1..];
    }
  }

  /** And for every selected node, unless its patch was due and failed, exactly one entry, a true one: requirement
      by requirement what the conditions of the node are, and absent exactly when all are satisfied. */
  lemma {:induction false} RealRunStoresTrueEntries(
    s: Cluster, name: string, order: seq<string>, faults: Faults, n: string)
    requires name in s.rules && !s.rules[name].deleting && Listing(order, s.nodes.Keys)
    requires ReconcileRule(s, name, order, faults).ok && !s.rules[name].spec.dryRun && OnePerNode(s.rules[name].status)
    requires n in s.nodes && Selects(s.rules[name].spec.selector, s.nodes[n].labels)
    requires PatchTaints(name, n) !in faults
    ensures name in ReconcileRule(s, name, order, faults).state.rules
    ensures var stored := ReconcileRule(s, name, order, faults).state.rules[name].status.evaluations;
            && HasEntry(stored, n)
            && forall e :: e in stored && e.nodeName == n ==> Accounts(e, n, s.rules[name].spec, s.nodes[n].conditions)
  {
    var rule, swept := s.rules[name], SweptNodes(s, name, faults);
    ReconciledStatus(s, name, order, faults);
    SweptFacts(s, name, faults, n);
    var cleared := rule.status.(dryRunResults := None);
    var es := RowStatus(cleared, swept, order, name, rule.spec, faults).evaluations;
    RowEntryAccounts(cleared, swept, order, name, rule.spec, faults, n);
    RowStatusIsTrue(cleared, swept, order, name, rule.spec, faults, n);
    EntriesByNode(es, ByNode(es)[n]);
    forall e | e in es && e.nodeName == n ensures e == ByNode(es)[n] {
      EntriesByNode(es, e);
    }
    PrunedFacts(es, s.nodes.Keys);
    assert ByNode(es)[n] in es;
    assert ByNode(es)[n] in Pruned(es, s.nodes.Keys);
  }

  // ---------- what is stored when something fails ----------

  /** The finalizer that every reconcile of a live rule leaves: once added it stays, whatever fails after. */
  lemma FinalizersAfter(s: Cluster, name: string, order: seq<string>, faults: Faults)
    requires name in s.rules && !s.rules[name].deleting && Listing(order, s.nodes.Keys)
    ensures name in ReconcileRule(s, name, order, faults).state.rules
    ensures var before := s.rules[name].finalizers;
            var after := ReconcileRule(s, name, order, faults).state.rules[name].finalizers;
            var ours := "nodereadiness.io/cleanup-taints";
            after == if ours in before || AddFinalizer in faults then before else before + [ours]
  {
    LiveReconcile(s, name, order, faults);
    if Proceeds(s, name, faults) {
      ProcessEffect(Prepared(s, name, faults), name, order, faults);
    }
  }

  lemma ProcessedStatusStored(s: Cluster, name: string, order: seq<string>, faults: Faults)
    requires name in s.rules && Listing(order, s.nodes.Keys)
    ensures name in Process(s, name, order, faults).state.rules
    ensures var status := IntendedStatus(s.rules[name], s.nodes, order, name, faults);
            Process(s, name, order, faults).state.rules[name].status
            == if ListForProcessing in faults || PublishStatus(name) in faults then s.rules[name].status
               else if ListForPrune in faults || PruneStatus in faults
               then status.(conditions := s.rules[name].status.conditions)
               else status.(conditions := s.rules[name].status.conditions,
                            evaluations := Pruned(status.evaluations, s.nodes.Keys))
  {
    var status := IntendedStatus(s.rules[name], s.nodes, order, name, faults);
    PrunedFacts(status.evaluations, s.nodes.Keys);
    assert Evaluated(s.nodes, s.nodes.Keys, name, s.rules[name].spec, faults).Keys == s.nodes.Keys;
  }

  /** The status that every reconcile of a live rule leaves in the store: the old one unless the publish is reached
      and goes through, then the new one, with the entries of missing nodes only if pruning fails. */
  lemma {:induction false} StoredStatusExactly(s: Cluster, name: string, order: seq<string>, faults: Faults)
    requires name in s.rules && !s.rules[name].deleting && Listing(order, s.nodes.Keys)
    ensures name in ReconcileRule(s, name, order, faults).state.rules
    ensures var rule := Guarded(s, name).rules[name];
            var after := ReconcileRule(s, name, order, faults).state.rules[name].status;
            var status := IntendedStatus(rule, SweptNodes(s, name, faults), order, name, faults);
            after == if !Proceeds(s, name, faults) || ListForProcessing in faults || PublishStatus(name) in faults
                     then s.rules[name].status
                     else if ListForPrune in faults || PruneStatus in faults
                     then status.(conditions := rule.status.conditions)
                     else status.(conditions := rule.status.conditions,
                                  evaluations := Pruned(status.evaluations, s.nodes.Keys))
  {
    LiveReconcile(s, name, order, faults);
    if Proceeds(s, name, faults) {
      ProcessedStatusStored(Prepared(s, name, faults), name, order, faults);
    }
  }

  // ---------- a node reconcile ----------

  /** What a node reconcile makes of the statuses: a rule that has no turn keeps both; one that has gets into the
      cache a true entry of the node, or a failure record if its patch fails, and into the store, if the publish
      goes through, the same but for the status conditions. */
  lemma {:induction false} NodeReconcileStores(s: Cluster, n: string, order: seq<string>, faults: Faults, r: string)
    requires n in s.nodes && NodeOrder(s, n, order) && r in s.cache && r in s.rules && OnePerNode(s.cache[r].status)
    ensures var node, after := s.nodes[n], ReconcileNode(s, n, order, faults);
            && r in after.cache && r in after.rules && after.cache[r].spec == s.cache[r].spec
            && var cached, stored := after.cache[r].status, after.rules[r].status;
               && (if !HasTurn(node, s.cache, order, s.globalDryRun, r) then cached == s.cache[r].status
                   else if FailsAtTurn(node, s.cache, order, n, s.globalDryRun, faults, r)
                   then FailureIs(s.cache[r].status, cached, n)
                   else n in ByNode(cached.evaluations)
                        && EntryIs(s.cache[r].status, cached, ByNode(cached.evaluations)[n])
                        && Accounts(ByNode(cached.evaluations)[n], n, s.cache[r].spec, node.conditions))
               && stored == if HasTurn(node, s.cache, order, s.globalDryRun, r) && PublishStatus(r) !in faults
                            then cached.(conditions := s.rules[r].status.conditions) else s.rules[r].status
  {
    var node := s.nodes[n];
    PassStatusIsVerdict(node, s.cache, order, n, s.globalDryRun, faults, r);
    VerdictAccounts(s.cache[r].spec, node.conditions, n);
    PassPublishes(s.rules, node, s.cache, order, n, s.globalDryRun, faults, r);
  }
}
