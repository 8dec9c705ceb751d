/** One rule against every node: what it does to the nodes, what a dry run predicts of it, and what
    the cleanups leave behind when some calls fail. */
module RulePass {
  import opened Model
  import opened Sequences
  import opened Selectors
  import opened Evaluation
  import opened Reconcile

  // ---------- the reconciler away from edits and deletion ----------

  /** The rule is live, guarded by the finalizer, and its cached selector, if any, is the stored one. */
  predicate Settled(s: Cluster, name: string) {
    && name in s.rules && !s.rules[name].deleting && FINALIZER in s.rules[name].finalizers
    && (name in s.cache ==> s.cache[name].spec.selector == s.rules[name].spec.selector)
  }

  /** Publishing a status touches one rule's status and nothing else. */
  lemma PublishAndPruneFrame(s: Cluster, name: string, status: Status, faults: Faults)
    requires name in s.rules
    ensures var after := PublishAndPrune(s, name, status, faults).state;
            && after == s.(rules := after.rules) && after.rules.Keys == s.rules.Keys
            && after.rules == s.rules[name := s.rules[name].(status := after.rules[name].status)]
            && after.rules[name].status.conditions == s.rules[name].status.conditions
  {
  }

  lemma ProcessEffect(s: Cluster, name: string, order: seq<string>, faults: Faults)
    requires name in s.rules && Listing(order, s.nodes.Keys)
    ensures var after := Process(s, name, order, faults).state;
            && after.cache == s.cache && after.globalDryRun == s.globalDryRun
            && after.rules.Keys == s.rules.Keys
            && after.rules == s.rules[name := s.rules[name].(status := after.rules[name].status)]
            && after.nodes == if ListForProcessing in faults || s.rules[name].spec.dryRun then s.nodes
                              else Evaluated(s.nodes, s.nodes.Keys, name, s.rules[name].spec, faults)
  {
    var rule := s.rules[name];
    if ListForProcessing in faults {
    } else if rule.spec.dryRun {
      PublishAndPruneFrame(s, name, rule.status.(dryRunResults := Some(Simulated(s.nodes, rule.spec))), faults);
    } else {
      PublishAndPruneFrame(s.(nodes := Evaluated(s.nodes, s.nodes.Keys, name, rule.spec, faults)),
                           name, ProcessedStatus(rule, s.nodes, order, name, faults), faults);
    }
  }

  /** Reconciling a settled rule caches it and evaluates it on the nodes; specs and finalizers stay. */
  lemma {:induction false} SettledReconcile(s: Cluster, name: string, order: seq<string>, faults: Faults)
    requires Settled(s, name) && Listing(order, s.nodes.Keys)
    ensures var after := ReconcileRule(s, name, order, faults).state;
            && after.cache == s.cache[name := s.rules[name]] && after.globalDryRun == s.globalDryRun
            && after.rules.Keys == s.rules.Keys
            && after.rules == s.rules[name := s.rules[name].(status := after.rules[name].status)]
            && after.nodes == if ListForProcessing in faults || s.rules[name].spec.dryRun then s.nodes
                              else Evaluated(s.nodes, s.nodes.Keys, name, s.rules[name].spec, faults)
  {
    SelectorUnchangedAgainstItself(s.rules[name].spec.selector);
    ProcessEffect(s.(cache := s.cache[name := s.rules[name]]), name, order, faults);
  }

  // ---------- the reconciler of any live rule ----------

  /** The rule as it stands once the finalizer is in place. */
  function Guarded(s: Cluster, r: string): Cluster
    requires r in s.rules
  {
    s.(rules := s.rules[r := s.rules[r].(finalizers := WithFinalizer(s.rules[r].finalizers))])
  }

  /** The finalizer is there or gets there. */
  predicate Guardable(s: Cluster, name: string, faults: Faults)
    requires name in s.rules
  {
    FINALIZER in s.rules[name].finalizers || (AddFinalizer !in faults && RefreshRule !in faults)
  }

  /** The check notices an edit of the selector. */
  predicate Edited(s: Cluster, name: string)
    requires name in s.rules
  {
    name in s.cache && SelectorChanged(s.rules[name].spec.selector, s.cache[name].spec.selector)
  }

  /** The reconcile gets as far as caching the rule. */
  predicate Proceeds(s: Cluster, name: string, faults: Faults)
    requires name in s.rules
  {
    Guardable(s, name, faults) && (Edited(s, name) ==> Sweep(s, name, faults).ok)
  }

  function SweptNodes(s: Cluster, name: string, faults: Faults): (nodes: map<string, Node>)
    requires name in s.rules
    ensures nodes.Keys == s.nodes.Keys
  {
    if Edited(s, name) then Sweep(s, name, faults).state.nodes else s.nodes
  }

  /** Guarded, swept and cached: ready to be processed. */
  function Prepared(s: Cluster, name: string, faults: Faults): Cluster
    requires name in s.rules
  {
    var g := Guarded(s, name);
    g.(nodes := SweptNodes(s, name, faults), cache := s.cache[name := g.rules[name]])
  }

  lemma AdoptGuarded(s: Cluster, name: string, order: seq<string>, faults: Faults)
    requires name in s.rules && Listing(order, s.nodes.Keys)
    ensures var out := Adopt(Guarded(s, name), name, order, faults);
            if Edited(s, name) && !Sweep(s, name, faults).ok
            then out == Outcome(Guarded(s, name).(nodes := SweptNodes(s, name, faults)), false)
            else out == Process(Prepared(s, name, faults), name, order, faults)
  {
  }

  /** A reconcile of a live rule either stops early, with an error and the cache as it was, or processes the
      rule guarded, swept and cached. */
  lemma LiveReconcile(s: Cluster, name: string, order: seq<string>, faults: Faults)
    requires name in s.rules && !s.rules[name].deleting && Listing(order, s.nodes.Keys)
    ensures var out := ReconcileRule(s, name, order, faults);
            if Proceeds(s, name, faults) then out == Process(Prepared(s, name, faults), name, order, faults)
            else
              && !out.ok
              && out.state == s.(rules := out.state.rules, nodes := out.state.nodes)
              && (out.state.rules == s.rules || out.state.rules == Guarded(s, name).rules)
              && out.state.nodes == if Guardable(s, name, faults) then SweptNodes(s, name, faults) else s.nodes
  {
    AdoptGuarded(s, name, order, faults);
    if FINALIZER in s.rules[name].finalizers {
      assert Guarded(s, name).rules == s.rules;
      assert Guarded(s, name) == s;
    }
  }

  /** What it leaves of the nodes, and of the rules and the cache. */
  lemma LiveReconcileEffect(s: Cluster, name: string, order: seq<string>, faults: Faults)
    requires name in s.rules && !s.rules[name].deleting && Listing(order, s.nodes.Keys)
    ensures var after, spec := ReconcileRule(s, name, order, faults).state, s.rules[name].spec;
            var swept := SweptNodes(s, name, faults);
            && after.nodes.Keys == s.nodes.Keys && after.rules.Keys == s.rules.Keys
            && after.globalDryRun == s.globalDryRun
            && after.nodes == (if !Guardable(s, name, faults) then s.nodes
                               else if !Proceeds(s, name, faults) || ListForProcessing in faults || spec.dryRun
                                   then swept
                               else Evaluated(swept, swept.Keys, name, spec, faults))
            && (forall r :: r in s.rules && r != name ==> after.rules[r] == s.rules[r])
            && after.rules[name].spec == spec && !after.rules[name].deleting
            && after.cache == if Proceeds(s, name, faults) then s.cache[name := Guarded(s, name).rules[name]]
                else s.cache
  {
    LiveReconcile(s, name, order, faults);
    if Proceeds(s, name, faults) {
      ProcessEffect(Prepared(s, name, faults), name, order, faults);
    }
  }

  /** The sweep changes a node exactly where it takes the taint off. */
  lemma SweptNode(s: Cluster, name: string, faults: Faults, n: string)
    requires name in s.rules && Edited(s, name) && n in s.nodes
    ensures var spec, previous := s.rules[name].spec, s.cache[name].spec.selector;
            var after := SweptNodes(s, name, faults)[n];
            var swept := n in LeftBehind(s.nodes, previous, spec.selector) && HasTaint(s.nodes[n].taints, spec.taint)
                         && !InError(previous) && ListForCleanup !in faults && PatchTaints(name, n) !in faults;
            && (after != s.nodes[n] <==> swept)
            && after == (if swept then Untainted(s.nodes[n], spec.taint) else s.nodes[n])
            && (swept ==> !HasTaint(after.taints, spec.taint))
            && after.labels == s.nodes[n].labels && after.conditions == s.nodes[n].conditions
            && after.annotations == s.nodes[n].annotations
  {
    WithoutMembers(s.nodes[n].taints, s.rules[name].spec.taint);
  }

  // ---------- dry run against the real run ----------

  lemma EvaluatedPresence(nodes: map<string, Node>, rule: string, spec: RuleSpec, faults: Faults, n: string)
    requires n in nodes
    ensures var after := Evaluated(nodes, nodes.Keys, rule, spec, faults)[n];
            HasTaint(after.taints, spec.taint)
            <==> if Selects(spec.selector, nodes[n].labels) && PatchTaints(rule, n) !in faults
                 then !Ready(spec, nodes[n].conditions) else HasTaint(nodes[n].taints, spec.taint)
  {
    WithoutMembers(nodes[n].taints, spec.taint);
    TaintedHas(nodes[n], rule, spec.taint, spec.taint);
  }

  function Carrying(nodes: map<string, Node>, taint: Taint): set<string> {
    set n | n in nodes && HasTaint(nodes[n].taints, taint)
  }

  lemma {:induction false} AppliedNodesAreSelected(nodes: map<string, Node>, order: seq<string>, spec: RuleSpec)
    requires Distinct(order) && forall n :: n in order ==> n in nodes
    ensures var applied := AppliedNodes(nodes, order, spec);
            && Distinct(applied)
            && forall n :: n in applied <==> n in order && Selects(spec.selector, nodes[n].labels)
  {
    if order != [] {
      assert order == order[..|order| - 1] + [order[|order| - 1]];
      AppliedNodesAreSelected(nodes, order[..|order| - 1], spec);
    }
  }

  /** Whether some condition result of the node says Missing is what makes it risky. */
  lemma RiskyIsMissing(spec: RuleSpec, n: Node)
    ensures Risky(spec, n) <==> SomeMissing(spec, n)
  {
    var rs := Results(spec, n.conditions);
    if Risky(spec, n) {
      var c :| c in spec.conditions && ConditionStatus(n.conditions, c.kind) == UNKNOWN;
      var i :| 0 <= i < |spec.conditions| && spec.conditions[i] == c;
      assert rs[i].missing;
    }
    if exists x :: x in rs && x.missing {
      var x :| x in rs && x.missing;
      var i :| 0 <= i < |rs| && rs[i] == x;
      assert spec.conditions[i] in spec.conditions;
    }
  }

  lemma TaintedDifferences(nodes: map<string, Node>, rule: string, spec: RuleSpec)
    ensures var was := Carrying(nodes, spec.taint);
            var now := Carrying(Evaluated(nodes, nodes.Keys, rule, spec, {}), spec.taint);
            && now - was == Deciding(nodes, nodes.Keys, spec, Add)
            && was - now == Deciding(nodes, nodes.Keys, spec, Remove)
  {
    forall n | n in nodes
      ensures HasTaint(Evaluated(nodes, nodes.Keys, rule, spec, {})[n].taints, spec.taint)
              <==> if Selects(spec.selector, nodes[n].labels) then !Ready(spec, nodes[n].conditions)
                   else HasTaint(nodes[n].taints, spec.taint)
    {
      EvaluatedPresence(nodes, rule, spec, {}, n);
    }
  }

  lemma DifferenceSizes<T>(a: set<T>, b: set<T>)
    ensures |b| == |a| + |b - a| - |a - b|
  {
  }

  lemma AppliedNodesCount(nodes: map<string, Node>, order: seq<string>, spec: RuleSpec)
    requires Listing(order, nodes.Keys)
    ensures (set n | n in AppliedNodes(nodes, order, spec)) == AmongSelected(nodes, nodes.Keys, spec)
    ensures |AppliedNodes(nodes, order, spec)| == |AmongSelected(nodes, nodes.Keys, spec)|
  {
    AppliedNodesAreSelected(nodes, order, spec);
    CardinalityOfElements(AppliedNodes(nodes, order, spec));
  }

  predicate SomeMissing(spec: RuleSpec, n: Node) {
    exists x :: x in Results(spec, n.conditions) && x.missing
  }

  /** A dry run counts what the real run then does when its patches go through: the nodes it adds the
      taint to and those it removes it from ... */
  lemma {:induction false} DryRunPredictsRun(nodes: map<string, Node>, rule: string, spec: RuleSpec)
    ensures var was := Carrying(nodes, spec.taint);
            var now := Carrying(Evaluated(nodes, nodes.Keys, rule, spec, {}), spec.taint);
            var dry := Simulated(nodes, spec);
            && dry.taintsToAdd == |now - was| && dry.taintsToRemove == |was - now|
            && |now| == |was| + dry.taintsToAdd - dry.taintsToRemove
  {
    TaintedDifferences(nodes, rule, spec);
    DifferenceSizes(Carrying(nodes, spec.taint), Carrying(Evaluated(nodes, nodes.Keys, rule, spec, {}), spec.taint));
  }

  /** ... those it applies to, and those of them with a Missing result. */
  lemma {:induction false} DryRunPredictsStatus(nodes: map<string, Node>, order: seq<string>, spec: RuleSpec)
    requires Listing(order, nodes.Keys)
    ensures var dry, applied := Simulated(nodes, spec), AppliedNodes(nodes, order, spec);
            && dry.affectedNodes == |applied|
            && dry.riskyOperations == |set n | n in nodes && n in applied && SomeMissing(spec, nodes[n])|
  {
    AppliedNodesCount(nodes, order, spec);
    RiskyNodesCount(nodes, order, spec);
  }

  lemma RiskyNodesCount(nodes: map<string, Node>, order: seq<string>, spec: RuleSpec)
    requires Listing(order, nodes.Keys)
    ensures RiskyNodes(nodes, nodes.Keys, spec)
            == set n | n in nodes && n in AppliedNodes(nodes, order, spec) && SomeMissing(spec, nodes[n])
  {
    AppliedNodesAreSelected(nodes, order, spec);
    forall n: Node ensures Risky(spec, n) <==> SomeMissing(spec, n) {
      RiskyIsMissing(spec, n);
    }
  }

  /** A dry run does not always leave the nodes alone: the cleanup behind an edited selector comes before
      the dry run is looked at. A reconcile of a live rule in dry run changes some node exactly when an edit
      is noticed, the previous selector is usable and the taint comes off some node left behind. */
  lemma {:induction false} DryRunChangesNodesExactly(s: Cluster, name: string, order: seq<string>, faults: Faults)
    requires name in s.rules && !s.rules[name].deleting && s.rules[name].spec.dryRun && Listing(order, s.nodes.Keys)
    ensures ReconcileRule(s, name, order, faults).state.nodes != s.nodes
            <==> Guardable(s, name, faults) && Edited(s, name) && !InError(s.cache[name].spec.selector)
                 && ListForCleanup !in faults
                 && exists n :: n in LeftBehind(s.nodes, s.cache[name].spec.selector, s.rules[name].spec.selector)
                                && HasTaint(s.nodes[n].taints, s.rules[name].spec.taint)
                                && PatchTaints(name, n) !in faults
  {
    LiveReconcileEffect(s, name, order, faults);
    if Edited(s, name) {
      forall n | n in s.nodes
        ensures SweptNodes(s, name, faults)[n] != s.nodes[n]
                <==> n in LeftBehind(s.nodes, s.cache[name].spec.selector, s.rules[name].spec.selector)
                     && HasTaint(s.nodes[n].taints, s.rules[name].spec.taint)
                     && !InError(s.cache[name].spec.selector) && ListForCleanup !in faults
                     && PatchTaints(name, n) !in faults
      {
        SweptNode(s, name, faults, n);
      }
    }
  }

  /** The rule's taint is on a node that an edit of its selector left behind. */
  predicate TaintLeftBehind(s: Cluster, name: string, n: string) {
    && name in s.rules && Edited(s, name) && !InError(s.cache[name].spec.selector)
    && n in LeftBehind(s.nodes, s.cache[name].spec.selector, s.rules[name].spec.selector)
    && HasTaint(s.nodes[n].taints, s.rules[name].spec.taint)
  }

  /** There, with no call failing, a rule in dry run takes its taint off the node. */
  lemma DryRunRemovesTaint(s: Cluster, name: string, order: seq<string>, n: string)
    requires TaintLeftBehind(s, name, n) && !s.rules[name].deleting && s.rules[name].spec.dryRun
    requires Listing(order, s.nodes.Keys)
    ensures var after := ReconcileRule(s, name, order, {}).state;
            n in after.nodes && !HasTaint(after.nodes[n].taints, s.rules[name].spec.taint)
  {
    LiveReconcileEffect(s, name, order, {});
    SweptNode(s, name, {}, n);
  }

  /** A case: a rule in dry run is narrowed from all nodes to those with a label that the node lacks. */
  lemma DryRunCanRemoveTaint()
    ensures exists s: Cluster ::
              TaintLeftBehind(s, "r", "n") && !s.rules["r"].deleting && s.rules["r"].spec.dryRun
  {
    var t := Taint("t", "", "NoSchedule");
    var narrow := Some(LabelSelector(map["k" := "v"], []));
    var spec := RuleSpec([ConditionRequirement("c", "True")], Continuous, t, narrow, true);
    var rule := Rule(spec, [FINALIZER], false, 2, Status(1, [], [], [], [], None));
    var s := Cluster(map["n" := Node(map[], [t], [], map[], {})], map["r" := rule],
                     map["r" := rule.(spec := spec.(selector := None))], false);
    assert t in s.nodes["n"].taints;
    assert "k" in narrow.value.matchLabels && !Selects(narrow, map[]);
    assert TaintLeftBehind(s, "r", "n");
  }

  /** Without a noticed edit it does leave every node and every taint alone, and publishes its counts. */
  lemma DryRunTouchesNoNode(s: Cluster, name: string, order: seq<string>, faults: Faults)
    requires name in s.rules && !s.rules[name].deleting && s.rules[name].spec.dryRun && !Edited(s, name)
    requires Listing(order, s.nodes.Keys)
    ensures var after := ReconcileRule(s, name, order, faults).state;
            && after.nodes == s.nodes && name in after.rules
            && (Guardable(s, name, faults) && ListForProcessing !in faults && PublishStatus(name) !in faults ==>
                  after.rules[name].status.dryRunResults == Some(Simulated(s.nodes, s.rules[name].spec)))
  {
    LiveReconcileEffect(s, name, order, faults);
    LiveReconcile(s, name, order, faults);
  }

  // ---------- cleanup when some patches fail ----------

  /** Whatever subset of the patches fails: the cleanup reports success exactly when no target still
      carries the taint, the targets that do are those whose patch failed, a cleaned target loses that
      taint and no other, and every other node is left as it was. */
  lemma CleanupUnderFailures(nodes: map<string, Node>, targets: set<string>, rule: string, taint: Taint, faults: Faults)
    ensures var after := Cleaned(nodes, targets, rule, taint, faults);
            var left := set n | n in targets && n in nodes && HasTaint(after[n].taints, taint);
            && left == Blocked(nodes, targets, rule, taint, faults)
            && left == (set n | n in targets && n in Carrying(nodes, taint) && PatchTaints(rule, n) in faults)
            && (forall n :: n in nodes && n !in targets ==> after[n] == nodes[n])
            && (forall n :: n in nodes ==>
                  after[n].labels == nodes[n].labels && after[n].conditions == nodes[n].conditions
                  && after[n].annotations == nodes[n].annotations)
            && (forall n :: n in nodes && n in targets && n !in left ==>
                  after[n].taints == Without(nodes[n].taints, taint))
            && (forall n, t :: n in nodes && !SameTaint(t, taint) ==> (t in after[n].taints <==> t in nodes[n].taints))
  {
    var after := Cleaned(nodes, targets, rule, taint, faults);
    forall n | n in nodes
      ensures HasTaint(after[n].taints, taint)
              <==> HasTaint(nodes[n].taints, taint) && !(n in targets && PatchTaints(rule, n) !in faults)
      ensures forall t :: !SameTaint(t, taint) ==> (t in after[n].taints <==> t in nodes[n].taints)
      ensures !HasTaint(nodes[n].taints, taint) ==> Without(nodes[n].taints, taint) == nodes[n].taints
    {
      WithoutMembers(nodes[n].taints, taint);
      WithoutAbsent(nodes[n].taints, taint);
    }
  }

  lemma AllCleaned(
    nodes: map<string, Node>, targets: set<string>, rule: string, taint: Taint, faults: Faults, n: string)
    requires Blocked(nodes, targets, rule, taint, faults) == {} && n in targets && n in nodes
    ensures !HasTaint(Cleaned(nodes, targets, rule, taint, faults)[n].taints, taint)
  {
    assert n !in Blocked(nodes, targets, rule, taint, faults);
    WithoutMembers(nodes[n].taints, taint);
  }

  lemma WithoutAbsent(taints: seq<Taint>, taint: Taint)
    ensures !HasTaint(taints, taint) ==> Without(taints, taint) == taints
  {
    if !HasTaint(taints, taint) {
      FilterNothing(taints, NotOf(taint));
    }
  }
}
