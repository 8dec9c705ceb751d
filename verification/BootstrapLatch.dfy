/** Bootstrap-only rules: what records their completion, and what it protects against. */
module BootstrapLatch {
  import opened Model
  import opened Sequences
  import opened Selectors
  import opened Evaluation
  import opened Reconcile
  import opened RulePass
  import opened Verdicts

  /** No other rule that is live on the node manages r's taint. */
  ghost predicate Alone(n: Node, cache: map<string, Rule>, names: set<string>, dry: bool, r: string)
    requires r in cache
  {
    forall q :: q in names && q != r ==> !Sharer(n, cache, dry, q, cache[r].spec.taint)
  }

  ghost predicate AloneOn(s: Cluster, name: string, r: string)
    requires name in s.nodes && r in s.cache
  {
    Alone(s.nodes[name], s.cache, Applicable(s.cache, s.nodes[name].labels), s.globalDryRun, r)
  }

  // ---------- when completion is recorded ----------

  /** A node reconcile records completion exactly when the rule, not skipped, is satisfied and finds its taint,
      and its own patch and the annotation write both go through. It finds the verdict of the last live rule
      before it that shares the taint, or else the taint as the node had it. */
  lemma CompletionExact(s: Cluster, name: string, order: seq<string>, faults: Faults, r: string)
    requires name in s.nodes && NodeOrder(s, name, order) && r in order && s.cache[r].spec.mode == BootstrapOnly
    ensures Completed(NodeView(s, name, order, faults).stored, r)
            <==> Completed(s.nodes[name], r)
                 || (!Skipped(s.nodes[name], r, s.cache[r].spec, s.globalDryRun)
                     && Ready(s.cache[r].spec, s.nodes[name].conditions)
                     && FindsTaint(s.nodes[name], s.cache, order, s.globalDryRun, r)
                     && PatchTaints(r, name) !in faults && MarkBootstrap(r, name) !in faults)
  {
    PassCompletes(s.nodes[name], s.cache, order, name, s.globalDryRun, faults, r);
  }

  /** So a bootstrap taint can go for good without completion. With no call failing, a satisfied rule that
      shares the taint and comes first takes it off, and the bootstrap-only rule finds nothing to do. */
  lemma RemovalBySharer(n: Node, cache: map<string, Rule>, a: string, b: string, name: string, dry: bool)
    requires a in cache && cache[a].spec.mode == BootstrapOnly && a != b
    requires !Skipped(n, a, cache[a].spec, dry) && Ready(cache[a].spec, n.conditions)
    requires Sharer(n, cache, dry, b, cache[a].spec.taint) && Ready(cache[b].spec, n.conditions)
    ensures var v := PassView(Fresh(n), cache, [b, a], name, dry, {});
            !HasTaint(v.stored.taints, cache[a].spec.taint) && !Completed(v.stored, a)
  {
    assert Before([b, a], a) == [b];
    CopyPresence(n, cache, [b, a], name, dry, {}, cache[a].spec.taint);
    StoredFollowsCopy(n, cache, [b, a], name, dry, {});
    PassCompletes(n, cache, [b, a], name, dry, {}, a);
  }

  /** Even alone: the removal for "a" fails, the addition for "b", of another taint, then stores the shortened
      list, and "a" has lost its taint without ever counting as complete. */
  lemma RemovalCarriedByAnotherPatch()
    ensures exists n: Node, cache: map<string, Rule>, faults ::
              && "a" in cache && "b" in cache && cache["a"].spec.mode == BootstrapOnly
              && HasTaint(n.taints, cache["a"].spec.taint)
              && var v := PassView(Fresh(n), cache, ["a", "b"], "n", false, faults);
                 !HasTaint(v.stored.taints, cache["a"].spec.taint) && !Completed(v.stored, "a")
  {
    var ta, tb := Taint("a", "", "NoSchedule"), Taint("b", "", "NoSchedule");
    var status := Status(0, [], [], [], [], None);
    var a := Rule(RuleSpec([], BootstrapOnly, ta, None, false), [], false, 0, status);
    var b := Rule(RuleSpec([ConditionRequirement("c", "True")], Continuous, tb, None, false), [], false, 0, status);
    var cache := map["a" := a, "b" := b];
    var n := Node(map[], [ta], [], map[], {});
    var faults := {PatchTaints("a", "n")};
    var order := ["a", "b"];
    assert order[..1] == ["a"] && order[..1][..0] == [];
    assert PassView(Fresh(n), cache, [], "n", false, faults) == Fresh(n);
    assert ta in n.taints;
    var v1 := PassView(Fresh(n), cache, ["a"], "n", false, faults);
    assert v1 == Enforce("a", a.spec, "n", Fresh(n), faults);
    WithoutMembers(n.taints, ta);
    assert forall t :: t !in v1.copy.taints;
    var v := PassView(Fresh(n), cache, order, "n", false, faults);
    assert v == Enforce("b", b.spec, "n", v1, faults);
    assert b.spec.conditions[0] in b.spec.conditions && !Ready(b.spec, []);
    assert Decide(b.spec, v1.copy) == Add;
    assert v.stored.taints == v1.copy.taints + [tb];
  }

  // ---------- what completion protects ----------

  /** While a node holds the completion annotation, a node reconcile neither adds nor removes the rule's
      taint, however the conditions stand and whatever fails; the annotation stays. */
  lemma LatchHolds(s: Cluster, name: string, order: seq<string>, faults: Faults, r: string)
    requires name in s.nodes && NodeOrder(s, name, order) && r in s.cache && AloneOn(s, name, r)
    requires s.cache[r].spec.mode == BootstrapOnly && Completed(s.nodes[name], r)
    ensures var after := ReconcileNode(s, name, order, faults).nodes[name];
            && (HasTaint(after.taints, s.cache[r].spec.taint)
                <==> HasTaint(s.nodes[name].taints, s.cache[r].spec.taint))
            && Completed(after, r) && after.labels == s.nodes[name].labels
  {
    var n, t := s.nodes[name], s.cache[r].spec.taint;
    SteadyPresence(n, Fresh(n), s.cache, order, name, s.globalDryRun, faults, t, HasTaint(n.taints, t));
    PassKeepsFacts(Fresh(n), s.cache, order, name, s.globalDryRun, faults);
  }

  // ---------- over whole runs ----------

  datatype Event =
    | NodeReconciled(node: string, order: seq<string>, faults: Faults)
    | NodeEdited(node: string, becomes: Node)

  ghost predicate Watched(s: Cluster, name: string, r: string) {
    && name in s.nodes && r in s.cache && AloneOn(s, name, r)
    && s.cache[r].spec.mode == BootstrapOnly
  }

  /** Anyone may edit nodes in any way that keeps the annotations of the watched node and does not put
      the watched taint there; rules whose labels now match must not share the taint. */
  ghost predicate Possible(s: Cluster, e: Event, name: string, r: string)
    requires Watched(s, name, r)
  {
    match e
    case NodeReconciled(n, order, _) => NodeOrder(s, n, order)
    case NodeEdited(n, becomes) =>
      n == name ==>
        && s.nodes[n].annotations.Keys <= becomes.annotations.Keys
        && (HasTaint(becomes.taints, s.cache[r].spec.taint) ==> HasTaint(s.nodes[n].taints, s.cache[r].spec.taint))
        && Alone(becomes, s.cache, Applicable(s.cache, becomes.labels), s.globalDryRun, r)
  }

  ghost function Next(s: Cluster, e: Event): Cluster
    requires e.NodeReconciled? ==> NodeOrder(s, e.node, e.order)
  {
    match e
    case NodeReconciled(n, order, faults) => ReconcileNode(s, n, order, faults)
    case NodeEdited(n, becomes) => s.(nodes := s.nodes[n := becomes])
  }

  /** A reconcile of any node leaves the rule alone on the watched one. */
  lemma ReconcileKeepsWatched(s: Cluster, n: string, order: seq<string>, faults: Faults, name: string, r: string)
    requires Watched(s, name, r) && NodeOrder(s, n, order)
    ensures var after := ReconcileNode(s, n, order, faults);
            && Watched(after, name, r) && after.cache[r].spec == s.cache[r].spec && after.globalDryRun == s.globalDryRun
            && after.nodes[name].labels == s.nodes[name].labels
            && after.nodes[name].conditions == s.nodes[name].conditions
  {
    if n in s.nodes {
      PassKeepsFacts(Fresh(s.nodes[n]), s.cache, order, n, s.globalDryRun, faults);
      var after := ReconcileNode(s, n, order, faults);
      forall q | Sharer(after.nodes[name], after.cache, after.globalDryRun, q, s.cache[r].spec.taint)
        ensures Sharer(s.nodes[name], s.cache, s.globalDryRun, q, s.cache[r].spec.taint)
      {
      }
      assert Applicable(after.cache, after.nodes[name].labels) == Applicable(s.cache, s.nodes[name].labels);
    }
  }

  lemma WatchedStays(s: Cluster, e: Event, name: string, r: string)
    requires Watched(s, name, r) && Possible(s, e, name, r)
    requires Completed(s.nodes[name], r) && !HasTaint(s.nodes[name].taints, s.cache[r].spec.taint)
    ensures var s' := Next(s, e);
            Watched(s', name, r) && s'.cache[r].spec == s.cache[r].spec
            && Completed(s'.nodes[name], r) && !HasTaint(s'.nodes[name].taints, s.cache[r].spec.taint)
  {
    if e.NodeReconciled? {
      ReconcileKeepsWatched(s, e.node, e.order, e.faults, name, r);
      if e.node == name {
        LatchHolds(s, name, e.order, e.faults, r);
      }
    }
  }

  ghost predicate PossibleRun(s: Cluster, events: seq<Event>, name: string, r: string)
    decreases |events|
  {
    events == [] ||
    (Watched(s, name, r) && Possible(s, events[0], name, r) && PossibleRun(Next(s, events[0]), events[1..], name, r))
  }

  ghost function Run(s: Cluster, events: seq<Event>, name: string, r: string): Cluster
    requires PossibleRun(s, events, name, r)
    decreases |events|
  {
    if events == [] then s else Run(Next(s, events[0]), events[1..], name, r)
  }

  /** Over any run of node reconciles and such edits, a completed node that lacks the taint never gets
      it back. */
  lemma {:induction false} NeverTaintedAgain(s: Cluster, events: seq<Event>, name: string, r: string)
    requires Watched(s, name, r) && PossibleRun(s, events, name, r)
    requires Completed(s.nodes[name], r) && !HasTaint(s.nodes[name].taints, s.cache[r].spec.taint)
    ensures var end := Run(s, events, name, r);
            name in end.nodes && Completed(end.nodes[name], r)
            && !HasTaint(end.nodes[name].taints, s.cache[r].spec.taint)
    decreases |events|
  {
    if events != [] {
      WatchedStays(s, events[0], name, r);
      NeverTaintedAgain(Next(s, events[0]), events[1..], name, r);
    }
  }

  // ---------- satisfied, yet not complete ----------

  /** One reconcile of the watched node with no call failing. */
  lemma WatchedReconcile(s: Cluster, name: string, order: seq<string>, r: string)
    requires Watched(s, name, r) && NodeOrder(s, name, order) && !s.globalDryRun && !s.cache[r].spec.dryRun
    requires r in Applicable(s.cache, s.nodes[name].labels)
    ensures var n, spec, after := s.nodes[name], s.cache[r].spec, ReconcileNode(s, name, order, {}).nodes[name];
            && (HasTaint(after.taints, spec.taint)
                <==> if Completed(n, r) then HasTaint(n.taints, spec.taint) else !Ready(spec, n.conditions))
            && (Completed(after, r)
                <==> Completed(n, r) || (Ready(spec, n.conditions) && HasTaint(n.taints, spec.taint)))
  {
    var n, t := s.nodes[name], s.cache[r].spec.taint;
    var before := Before(order, r);
    var later := TurnSplits(order, r);
    PassCompletes(n, s.cache, order, name, false, {}, r);
    NoSharerBefore(n, s.cache, before, false, t);
    CopyPresence(n, s.cache, order, name, false, {}, t);
    StoredFollowsCopy(n, s.cache, order, name, false, {});
    OnlySharerDecides(n, s.cache, order, false, t, r);
  }

  ghost predicate AllReconcile(events: seq<Event>, name: string) {
    forall e :: e in events ==> e.NodeReconciled? && e.node == name && e.faults == {}
  }

  /** While the rule is satisfied, reconciles complete it exactly when the node carried its taint at the
      start: a rule satisfied on a node that never had the taint stays open for ever. */
  lemma {:induction false} SatisfiedRunCompletes(s: Cluster, events: seq<Event>, name: string, r: string)
    requires Watched(s, name, r) && PossibleRun(s, events, name, r) && AllReconcile(events, name)
    requires !s.globalDryRun && !s.cache[r].spec.dryRun && r in Applicable(s.cache, s.nodes[name].labels)
    requires Ready(s.cache[r].spec, s.nodes[name].conditions)
    ensures var n, end := s.nodes[name], Run(s, events, name, r);
            && Watched(end, name, r) && end.cache[r].spec == s.cache[r].spec && end.globalDryRun == s.globalDryRun
            && end.nodes[name].labels == n.labels
            && (events != [] ==>
                  && (Completed(end.nodes[name], r) <==> Completed(n, r) || HasTaint(n.taints, s.cache[r].spec.taint))
                  && (HasTaint(end.nodes[name].taints, s.cache[r].spec.taint)
                      <==> Completed(n, r) && HasTaint(n.taints, s.cache[r].spec.taint)))
    decreases |events|
  {
    if events != [] {
      var e := events[0];
      assert e in events && forall x :: x in events[1..] ==> x in events;
      ReconcileKeepsWatched(s, name, e.order, {}, name, r);
      WatchedReconcile(s, name, e.order, r);
      SatisfiedRunCompletes(Next(s, e), events[1..], name, r);
    }
  }

  /** So when a condition fails after any such run, the next reconcile leaves the taint on the node exactly
      when completion and taint agreed at the start: neither was there, and the node is tainted although the
      rule had been satisfied; or both were, and the taint was never taken off. */
  lemma FlipTaintsExactly(
    s: Cluster, events: seq<Event>, name: string, r: string, conditions: seq<Condition>, order: seq<string>)
    requires Watched(s, name, r) && PossibleRun(s, events, name, r) && AllReconcile(events, name) && events != []
    requires !s.globalDryRun && !s.cache[r].spec.dryRun && r in Applicable(s.cache, s.nodes[name].labels)
    requires Ready(s.cache[r].spec, s.nodes[name].conditions) && !Ready(s.cache[r].spec, conditions)
    requires name in Run(s, events, name, r).nodes
    requires var end := Run(s, events, name, r);
             NodeOrder(end.(nodes := end.nodes[name := end.nodes[name].(conditions := conditions)]), name, order)
    ensures var end := Run(s, events, name, r);
            var flipped := end.(nodes := end.nodes[name := end.nodes[name].(conditions := conditions)]);
            HasTaint(ReconcileNode(flipped, name, order, {}).nodes[name].taints, s.cache[r].spec.taint)
            <==> (Completed(s.nodes[name], r) <==> HasTaint(s.nodes[name].taints, s.cache[r].spec.taint))
  {
    SatisfiedRunCompletes(s, events, name, r);
    var end := Run(s, events, name, r);
    var flipped := end.(nodes := end.nodes[name := end.nodes[name].(conditions := conditions)]);
    assert forall q :: Sharer(flipped.nodes[name], end.cache, false, q, s.cache[r].spec.taint) ==>
             Sharer(end.nodes[name], end.cache, false, q, s.cache[r].spec.taint);
    assert r in Applicable(end.cache, end.nodes[name].labels);
    WatchedReconcile(flipped, name, order, r);
  }

  // ---------- what completion does not protect ----------

  /** The latch does not bind the rule reconciler: it taints a completed node again exactly when the rule, not
      under deletion and not in dry run, selects the node, finds a condition unmet and gets there. */
  lemma {:induction false} RuleReconcileIgnoresCompletion(
    s: Cluster, r: string, order: seq<string>, faults: Faults, name: string)
    requires r in s.rules && Listing(order, s.nodes.Keys) && name in s.nodes
    requires Completed(s.nodes[name], r) && !HasTaint(s.nodes[name].taints, s.rules[r].spec.taint)
    ensures name in ReconcileRule(s, r, order, faults).state.nodes
    ensures var rule := s.rules[r];
            HasTaint(ReconcileRule(s, r, order, faults).state.nodes[name].taints, rule.spec.taint)
            <==> !rule.deleting && !rule.spec.dryRun && Proceeds(s, r, faults)
                 && Selects(rule.spec.selector, s.nodes[name].labels)
                 && !Ready(rule.spec, s.nodes[name].conditions)
                 && ListForProcessing !in faults && PatchTaints(r, name) !in faults
  {
    if s.rules[r].deleting {
      WithoutMembers(s.nodes[name].taints, s.rules[r].spec.taint);
    } else {
      LiveReconcileEffect(s, r, order, faults);
      if Edited(s, r) {
        SweptNode(s, r, faults, name);
      }
      EvaluatedPresence(SweptNodes(s, r, faults), r, s.rules[r].spec, faults, name);
    }
  }

  // ---------- why reconciles are taken as atomic ----------

  /** Deletion cleans the nodes before it drops the rule from the cache. A node reconcile that slips in
      between leaves on the node the verdict of the last live rule with the taint; when the rule is the only
      one, it puts the taint back exactly where it is not skipped and a condition is unmet. Nobody removes
      it then. */
  lemma NodeReconcileDuringDeletion(s: Cluster, r: string, n: string, order: seq<string>)
    requires r in s.rules && s.rules[r].deleting && r in s.cache && s.cache[r].spec == s.rules[r].spec
    requires n in s.nodes && Selects(s.rules[r].spec.selector, s.nodes[n].labels) && NodeOrder(s, n, order)
    ensures var spec := s.rules[r].spec;
            var cleaned := s.(nodes := Cleaned(s.nodes, Selected(s.nodes, spec.selector), r, spec.taint, {}));
            && NodeOrder(cleaned, n, order) && !HasTaint(cleaned.nodes[n].taints, spec.taint)
            && var end := ReconcileNode(cleaned, n, order, {});
               && (HasTaint(end.nodes[n].taints, spec.taint)
                   <==> LastVerdict(cleaned.nodes[n], s.cache, order, s.globalDryRun, spec.taint))
               && (AloneOn(s, n, r) ==>
                     (HasTaint(end.nodes[n].taints, spec.taint)
                      <==> !Skipped(s.nodes[n], r, spec, s.globalDryRun) && !Ready(spec, s.nodes[n].conditions)))
  {
    var spec := s.rules[r].spec;
    var targets := Selected(s.nodes, spec.selector);
    var cleaned := s.(nodes := Cleaned(s.nodes, targets, r, spec.taint, {}));
    assert Blocked(s.nodes, targets, r, spec.taint, {}) == {};
    AllCleaned(s.nodes, targets, r, spec.taint, {}, n);
    CopyPresence(cleaned.nodes[n], s.cache, order, n, s.globalDryRun, {}, spec.taint);
    StoredFollowsCopy(cleaned.nodes[n], s.cache, order, n, s.globalDryRun, {});
    if AloneOn(s, n, r) {
      OnlySharerDecides(cleaned.nodes[n], s.cache, order, s.globalDryRun, spec.taint, r);
    }
  }
}
