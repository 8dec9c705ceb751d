/** Runs of atomic reconciles, in any interleaving, and the conditions under which nothing but taints,
    annotations and status can change in them. */
module Runs {
  import opened Model
  import opened Sequences
  import opened Selectors
  import opened Evaluation
  import opened Reconcile
  import opened RulePass
  import opened NodePass

  datatype Move =
    | OnNode(node: string, order: seq<string>, faults: Faults)
    | OnRule(rule: string, order: seq<string>, faults: Faults)

  ghost predicate CanMove(s: Cluster, m: Move) {
    match m
    case OnNode(n, order, _) => NodeOrder(s, n, order)
    case OnRule(_, order, _) => Listing(order, s.nodes.Keys)
  }

  ghost function Perform(s: Cluster, m: Move): Cluster
    requires CanMove(s, m)
  {
    match m
    case OnNode(n, order, faults) => ReconcileNode(s, n, order, faults)
    case OnRule(r, order, faults) => ReconcileRule(s, r, order, faults).state
  }

  ghost predicate CanRun(s: Cluster, moves: seq<Move>)
    decreases |moves|
  {
    moves == [] || (CanMove(s, moves[0]) && CanRun(Perform(s, moves[0]), moves[1..]))
  }

  ghost function RunAll(s: Cluster, moves: seq<Move>): Cluster
    requires CanRun(s, moves)
    decreases |moves|
  {
    if moves == [] then s else RunAll(Perform(s, moves[0]), moves[1..])
  }

  // ---------- nothing but taints at stake ----------

  ghost predicate SameSpecs(a: map<string, Rule>, b: map<string, Rule>) {
    a.Keys == b.Keys && forall r :: r in a ==> a[r].spec == b[r].spec
  }

  /** Two rules with the same taint never select the same node. */
  ghost predicate MeetNowhere(rules: map<string, Rule>) {
    forall labels :: DistinctTaints(rules, Applicable(rules, labels))
  }

  lemma SameApplicable(a: map<string, Rule>, b: map<string, Rule>, labels: map<string, string>)
    requires SameSpecs(a, b)
    ensures Applicable(a, labels) == Applicable(b, labels)
  {
  }

  /** No edit is pending: every cached rule has its stored spec, and none is being deleted. */
  ghost predicate Frozen(s: Cluster) {
    && (forall r :: r in s.cache ==> r in s.rules && s.cache[r].spec == s.rules[r].spec)
    && (forall r :: r in s.rules ==> !s.rules[r].deleting)
  }

  lemma {:induction false} PassKeepsRules(
    rules: map<string, Rule>, v: View, cache: map<string, Rule>, order: seq<string>, name: string, dry: bool,
    faults: Faults)
    requires forall r :: r in order ==> r in cache
    ensures var after := PassRules(rules, v, cache, order, name, dry, faults);
            after.Keys == rules.Keys && forall r :: r in rules ==> after[r] == rules[r].(status := after[r].status)
  {
    if order != [] {
      assert order == order[..|order| - 1] + [order[|order| - 1]];
      PassKeepsRules(rules, v, cache, order[..|order| - 1], name, dry, faults);
    }
  }

  predicate Idle(s: Cluster, r: string, faults: Faults)
    requires r in s.rules
  {
    ListForProcessing in faults || s.rules[r].spec.dryRun || !Guardable(s, r, faults)
  }

  lemma FrozenRuleReconcile(s: Cluster, r: string, order: seq<string>, faults: Faults)
    requires Frozen(s) && r in s.rules && Listing(order, s.nodes.Keys)
    ensures var after := ReconcileRule(s, r, order, faults).state;
            && Frozen(after) && SameSpecs(after.rules, s.rules) && after.globalDryRun == s.globalDryRun
            && after.cache.Keys == (if Guardable(s, r, faults) then s.cache.Keys + {r} else s.cache.Keys)
            && after.nodes == if Idle(s, r, faults) then s.nodes
                              else Evaluated(s.nodes, s.nodes.Keys, r, s.rules[r].spec, faults)
  {
    SelectorUnchangedAgainstItself(s.rules[r].spec.selector);
    LiveReconcileEffect(s, r, order, faults);
  }

  /** A reconcile of a rule leaves every rule's spec alone, and can only put its own into the cache. */
  lemma RuleReconcileSpecs(s: Cluster, name: string, order: seq<string>, faults: Faults)
    requires name in s.rules && Listing(order, s.nodes.Keys)
    ensures var after := ReconcileRule(s, name, order, faults).state;
            && (forall r :: r in after.rules ==> r in s.rules && after.rules[r].spec == s.rules[r].spec)
            && (forall r :: r in after.cache ==> if r == name && (r !in s.cache || after.cache[r] != s.cache[r])
                  then after.cache[r].spec == s.rules[name].spec else r in s.cache && after.cache[r] == s.cache[r])
  {
    if !s.rules[name].deleting {
      LiveReconcileEffect(s, name, order, faults);
    }
  }

  /** Reconciling a node changes that node and statuses only. */
  lemma NodeMoveEffect(s: Cluster, n: string, order: seq<string>, faults: Faults)
    requires NodeOrder(s, n, order) && n in s.nodes
    ensures var after := ReconcileNode(s, n, order, faults);
            && after.nodes == s.nodes[n := NodeView(s, n, order, faults).stored]
            && SameSpecs(after.cache, s.cache) && SameSpecs(after.rules, s.rules)
            && after.globalDryRun == s.globalDryRun
            && (Frozen(s) ==> Frozen(after))
  {
    var after := ReconcileNode(s, n, order, faults);
    PassKeepsRules(s.rules, Fresh(s.nodes[n]), s.cache, order, n, s.globalDryRun, faults);
  }
}
