/** What no run of reconciles touches: labels, conditions, annotations that are there, and every taint that
    is not a rule's, in its place. */
module Frames {
  import opened Model
  import opened Sequences
  import opened Evaluation
  import opened Reconcile
  import opened RulePass
  import opened Runs

  // ---------- foreign taints ----------

  /** None of these rules manages a taint of this kind. */
  ghost predicate NotTheirs(rules: map<string, Rule>, foreign: Taint -> bool) {
    forall r, t :: r in rules && foreign(t) ==> !SameTaint(t, rules[r].spec.taint)
  }

  lemma {:induction false} RemovalSparesForeign(taints: seq<Taint>, spec: Taint, foreign: Taint -> bool)
    requires forall t :: foreign(t) ==> !SameTaint(t, spec)
    ensures Filter(Without(taints, spec), foreign) == Filter(taints, foreign)
  {
    if taints != [] {
      var init, last := taints[..|taints| - 1], taints[|taints| - 1];
      RemovalSparesForeign(init, spec, foreign);
      AddedLast(Without(init, spec), last, foreign);
    }
  }

  lemma AddedLast(taints: seq<Taint>, t: Taint, foreign: Taint -> bool)
    ensures Filter(taints + [t], foreign) == Filter(taints, foreign) + if foreign(t) then [t] else []
  {
    assert (taints + [t])[..|taints|] == taints;
  }

  // ---------- one node ----------

  /** The second node is the first but for taints that are not foreign, claims and new completion annotations. */
  ghost predicate SameForOthers(before: Node, after: Node, foreign: Taint -> bool) {
    && after.labels == before.labels && after.conditions == before.conditions
    && Filter(after.taints, foreign) == Filter(before.taints, foreign)
    && (forall k :: k in before.annotations ==> k in after.annotations && after.annotations[k] == before.annotations[k])
    && (forall k :: k in after.annotations && k !in before.annotations ==>
          after.annotations[k] == "true" && "readiness.k8s.io/bootstrap-completed-" <= k)
  }

  lemma UntaintedForOthers(before: Node, n: Node, spec: Taint, foreign: Taint -> bool)
    requires SameForOthers(before, n, foreign) && forall t :: foreign(t) ==> !SameTaint(t, spec)
    ensures SameForOthers(before, Untainted(n, spec), foreign)
  {
    RemovalSparesForeign(n.taints, spec, foreign);
  }

  lemma ActForOthers(action: Action, before: Node, n: Node, rule: string, spec: Taint, foreign: Taint -> bool)
    requires SameForOthers(before, n, foreign) && forall t :: foreign(t) ==> !SameTaint(t, spec)
    ensures SameForOthers(before, Act(action, n, rule, spec), foreign)
  {
    UntaintedForOthers(before, n, spec, foreign);
    AddedLast(n.taints, spec, foreign);
    assert SameTaint(spec, spec);
  }

  /** The store and the copy, which never gets an annotation at all. */
  ghost predicate ViewForOthers(before: Node, v: View, foreign: Taint -> bool) {
    && SameForOthers(before, v.stored, foreign) && SameForOthers(before, v.copy, foreign)
    && v.copy.annotations == before.annotations
  }

  lemma EnforceForOthers(
    before: Node, rule: string, spec: RuleSpec, name: string, v: View, faults: Faults, foreign: Taint -> bool)
    requires ViewForOthers(before, v, foreign) && forall t :: foreign(t) ==> !SameTaint(t, spec.taint)
    ensures ViewForOthers(before, Enforce(rule, spec, name, v, faults), foreign)
  {
    ActForOthers(Decide(spec, v.copy), before, v.copy, rule, spec.taint, foreign);
  }

  lemma {:induction false} PassForOthers(
    before: Node, cache: map<string, Rule>, order: seq<string>, name: string, dry: bool, faults: Faults,
    foreign: Taint -> bool)
    requires NotTheirs(cache, foreign)
    ensures ViewForOthers(before, PassView(Fresh(before), cache, order, name, dry, faults), foreign)
  {
    if order != [] {
      var init, r := order[..|order| - 1], order[|order| - 1];
      PassForOthers(before, cache, init, name, dry, faults, foreign);
      if r in cache {
        var v := PassView(Fresh(before), cache, init, name, dry, faults);
        EnforceForOthers(before, r, cache[r].spec, name, v, faults, foreign);
      }
    }
  }

  // ---------- whole runs ----------

  ghost predicate Foreign(s: Cluster, foreign: Taint -> bool) {
    NotTheirs(s.rules, foreign) && NotTheirs(s.cache, foreign)
  }

  ghost predicate NodesForOthers(before: map<string, Node>, after: map<string, Node>, foreign: Taint -> bool) {
    after.Keys == before.Keys && forall n :: n in before ==> SameForOthers(before[n], after[n], foreign)
  }

  lemma CleanedForOthers(
    nodes: map<string, Node>, targets: set<string>, rule: string, taint: Taint, faults: Faults, foreign: Taint -> bool)
    requires forall t :: foreign(t) ==> !SameTaint(t, taint)
    ensures NodesForOthers(nodes, Cleaned(nodes, targets, rule, taint, faults), foreign)
  {
    forall n | n in nodes ensures SameForOthers(nodes[n], Cleaned(nodes, targets, rule, taint, faults)[n], foreign) {
      UntaintedForOthers(nodes[n], nodes[n], taint, foreign);
    }
  }

  lemma EvaluatedForOthers(
    nodes: map<string, Node>, rule: string, spec: RuleSpec, faults: Faults, foreign: Taint -> bool)
    requires forall t :: foreign(t) ==> !SameTaint(t, spec.taint)
    ensures NodesForOthers(nodes, Evaluated(nodes, nodes.Keys, rule, spec, faults), foreign)
  {
    forall n | n in nodes
      ensures SameForOthers(nodes[n], Evaluated(nodes, nodes.Keys, rule, spec, faults)[n], foreign)
    {
      EnforceForOthers(nodes[n], rule, spec, n, Fresh(nodes[n]), faults, foreign);
    }
  }

  lemma ForOthersInTwo(a: map<string, Node>, b: map<string, Node>, c: map<string, Node>, foreign: Taint -> bool)
    requires NodesForOthers(a, b, foreign) && NodesForOthers(b, c, foreign)
    ensures NodesForOthers(a, c, foreign)
  {
    forall n | n in a ensures SameForOthers(a[n], c[n], foreign) {
      assert SameForOthers(a[n], b[n], foreign) && SameForOthers(b[n], c[n], foreign);
    }
  }

  lemma SweptForOthers(s: Cluster, name: string, faults: Faults, foreign: Taint -> bool)
    requires name in s.rules && NotTheirs(s.rules, foreign)
    ensures NodesForOthers(s.nodes, SweptNodes(s, name, faults), foreign)
  {
    if Edited(s, name) {
      var spec, previous := s.rules[name].spec, s.cache[name].spec.selector;
      CleanedForOthers(s.nodes, LeftBehind(s.nodes, previous, spec.selector), name, spec.taint, faults, foreign);
    }
  }

  lemma FinalizingForOthers(s: Cluster, name: string, faults: Faults, foreign: Taint -> bool)
    requires name in s.rules && NotTheirs(s.rules, foreign)
    ensures NodesForOthers(s.nodes, Finalize(s, name, faults).state.nodes, foreign)
  {
    var spec := s.rules[name].spec;
    CleanedForOthers(s.nodes, Selected(s.nodes, spec.selector), name, spec.taint, faults, foreign);
  }

  lemma LiveMoveForOthers(s: Cluster, name: string, order: seq<string>, faults: Faults, foreign: Taint -> bool)
    requires name in s.rules && !s.rules[name].deleting && NotTheirs(s.rules, foreign) && Listing(order, s.nodes.Keys)
    ensures NodesForOthers(s.nodes, ReconcileRule(s, name, order, faults).state.nodes, foreign)
  {
    var spec, swept := s.rules[name].spec, SweptNodes(s, name, faults);
    SweptForOthers(s, name, faults, foreign);
    EvaluatedForOthers(swept, name, spec, faults, foreign);
    ForOthersInTwo(s.nodes, swept, Evaluated(swept, swept.Keys, name, spec, faults), foreign);
    LiveReconcileEffect(s, name, order, faults);
  }

  lemma RuleMoveForOthers(s: Cluster, name: string, order: seq<string>, faults: Faults, foreign: Taint -> bool)
    requires name in s.rules && NotTheirs(s.rules, foreign) && Listing(order, s.nodes.Keys)
    ensures NodesForOthers(s.nodes, ReconcileRule(s, name, order, faults).state.nodes, foreign)
  {
    if s.rules[name].deleting {
      FinalizingForOthers(s, name, faults, foreign);
    } else {
      LiveMoveForOthers(s, name, order, faults, foreign);
    }
  }

  lemma MoveForOthers(s: Cluster, m: Move, foreign: Taint -> bool)
    requires Foreign(s, foreign) && CanMove(s, m)
    ensures Foreign(Perform(s, m), foreign) && NodesForOthers(s.nodes, Perform(s, m).nodes, foreign)
  {
    if m.OnNode? && m.node in s.nodes {
      NodeMoveEffect(s, m.node, m.order, m.faults);
      PassForOthers(s.nodes[m.node], s.cache, m.order, m.node, s.globalDryRun, m.faults, foreign);
    } else if m.OnRule? && m.rule in s.rules {
      RuleReconcileSpecs(s, m.rule, m.order, m.faults);
      RuleMoveForOthers(s, m.rule, m.order, m.faults, foreign);
    }
  }

  /** Over any interleaving of reconciles, whatever fails: nodes neither come nor go, their labels and conditions
      stay, annotations stay and the only new ones mark completed bootstraps, and the taints that no rule manages
      stay, as often as they were and in their order. */
  lemma {:induction false} RunForOthers(s: Cluster, moves: seq<Move>, foreign: Taint -> bool)
    requires Foreign(s, foreign) && CanRun(s, moves)
    ensures Foreign(RunAll(s, moves), foreign) && NodesForOthers(s.nodes, RunAll(s, moves).nodes, foreign)
    decreases |moves|
  {
    if moves != [] {
      MoveForOthers(s, moves[0], foreign);
      RunForOthers(Perform(s, moves[0]), moves[1..], foreign);
      ForOthersInTwo(s.nodes, Perform(s, moves[0]).nodes, RunAll(s, moves).nodes, foreign);
    }
  }

  // ---------- no taint twice ----------

  lemma {:induction false} RemovalKeepsUnique(taints: seq<Taint>, spec: Taint)
    requires UniqueTaints(taints)
    ensures UniqueTaints(Without(taints, spec))
  {
    if taints != [] {
      var init, last := taints[..|taints| - 1], taints[|taints| - 1];
      RemovalKeepsUnique(init, spec);
      WithoutMembers(init, spec);
      forall i | 0 <= i < |Without(init, spec)| ensures !SameTaint(Without(init, spec)[i], last) {
        assert Without(init, spec)[i] in init;
      }
    }
  }

  lemma ActKeepsUnique(spec: RuleSpec, n: Node, rule: string)
    requires UniqueTaints(n.taints)
    ensures UniqueTaints(Act(Decide(spec, n), n, rule, spec.taint).taints)
  {
    RemovalKeepsUnique(n.taints, spec.taint);
  }

  lemma {:induction false} PassKeepsUnique(
    n: Node, cache: map<string, Rule>, order: seq<string>, name: string, dry: bool, faults: Faults)
    requires UniqueTaints(n.taints)
    ensures var v := PassView(Fresh(n), cache, order, name, dry, faults);
            UniqueTaints(v.stored.taints) && UniqueTaints(v.copy.taints)
  {
    if order != [] {
      var init, r := order[..|order| - 1], order[|order| - 1];
      PassKeepsUnique(n, cache, init, name, dry, faults);
      if r in cache {
        ActKeepsUnique(cache[r].spec, PassView(Fresh(n), cache, init, name, dry, faults).copy, r);
      }
    }
  }

  ghost predicate AllUnique(nodes: map<string, Node>) {
    forall n :: n in nodes ==> UniqueTaints(nodes[n].taints)
  }

  lemma CleanedStaysUnique(
    nodes: map<string, Node>, targets: set<string>, rule: string, taint: Taint, faults: Faults)
    requires AllUnique(nodes)
    ensures AllUnique(Cleaned(nodes, targets, rule, taint, faults))
  {
    forall n | n in nodes ensures UniqueTaints(Cleaned(nodes, targets, rule, taint, faults)[n].taints) {
      RemovalKeepsUnique(nodes[n].taints, taint);
    }
  }

  lemma EvaluatedStaysUnique(nodes: map<string, Node>, rule: string, spec: RuleSpec, faults: Faults)
    requires AllUnique(nodes)
    ensures AllUnique(Evaluated(nodes, nodes.Keys, rule, spec, faults))
  {
    forall n | n in nodes ensures UniqueTaints(Evaluated(nodes, nodes.Keys, rule, spec, faults)[n].taints) {
      ActKeepsUnique(spec, nodes[n], rule);
    }
  }

  lemma RuleMoveKeepsUnique(s: Cluster, name: string, order: seq<string>, faults: Faults)
    requires name in s.rules && AllUnique(s.nodes) && Listing(order, s.nodes.Keys)
    ensures AllUnique(ReconcileRule(s, name, order, faults).state.nodes)
  {
    var spec := s.rules[name].spec;
    if s.rules[name].deleting {
      CleanedStaysUnique(s.nodes, Selected(s.nodes, spec.selector), name, spec.taint, faults);
    } else {
      LiveReconcileEffect(s, name, order, faults);
      if Edited(s, name) {
        CleanedStaysUnique(s.nodes, LeftBehind(s.nodes, s.cache[name].spec.selector, spec.selector), name, spec.taint,
                           faults);
      }
      EvaluatedStaysUnique(SweptNodes(s, name, faults), name, spec, faults);
    }
  }

  /** No run of reconciles puts a taint on a node twice. */
  lemma {:induction false} RunKeepsUnique(s: Cluster, moves: seq<Move>)
    requires AllUnique(s.nodes) && CanRun(s, moves)
    ensures AllUnique(RunAll(s, moves).nodes)
    decreases |moves|
  {
    if moves != [] {
      var m := moves[0];
      if m.OnNode? && m.node in s.nodes {
        NodeMoveEffect(s, m.node, m.order, m.faults);
        PassKeepsUnique(s.nodes[m.node], s.cache, m.order, m.node, s.globalDryRun, m.faults);
      } else if m.OnRule? && m.rule in s.rules {
        RuleMoveKeepsUnique(s, m.rule, m.order, m.faults);
      }
      RunKeepsUnique(Perform(s, m), moves[1..]);
    }
  }
}
