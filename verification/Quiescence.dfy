/** Do the two reconcilers ever stop writing? Exactly when rules that share a taint agree on every node:
    then there is a measure that every taint patch lowers, over any interleaving of the two. */
module Quiescence {
  import opened Model
  import opened Sequences
  import opened Selectors
  import opened Evaluation
  import opened Reconcile
  import opened Verdicts
  import opened NodePass
  import opened Runs

  // ---------- how many taint writes are left ----------

  /** The rule is enforced on the node, if not by both reconcilers. */
  ghost predicate Active(rules: map<string, Rule>, n: Node, r: string) {
    r in rules && Selects(rules[r].spec.selector, n.labels) && !rules[r].spec.dryRun
  }

  /** Active rules with one taint have one verdict. */
  ghost predicate AgreeOn(rules: map<string, Rule>, n: Node) {
    forall a, b :: Active(rules, n, a) && Active(rules, n, b) && SameTaint(rules[a].spec.taint, rules[b].spec.taint) ==>
      (Ready(rules[a].spec, n.conditions) <==> Ready(rules[b].spec, n.conditions))
  }

  ghost predicate AgreeEverywhere(rules: map<string, Rule>, nodes: map<string, Node>) {
    forall n :: n in nodes ==> AgreeOn(rules, nodes[n])
  }

  /** The taints that an active rule would add to the node or remove from it. */
  ghost function Pending(rules: map<string, Rule>, n: Node): set<Identity> {
    set r | r in rules && Active(rules, n, r) && Decide(rules[r].spec, n) != Keep :: IdentityOf(rules[r].spec.taint)
  }

  ghost function PendingOn(rules: map<string, Rule>, nodes: map<string, Node>): map<string, set<Identity>> {
    map n | n in nodes :: Pending(rules, nodes[n])
  }

  function Pairs(m: map<string, set<Identity>>): set<(Identity, string)> {
    set n, t | n in m && t in m[n] :: (t, n)
  }

  /** The (taint, node) pairs in disagreement. */
  ghost function Disagreements(rules: map<string, Rule>, nodes: map<string, Node>): set<(Identity, string)> {
    Pairs(PendingOn(rules, nodes))
  }

  lemma PairsOfColumn(m: map<string, set<Identity>>, n: string, column: set<Identity>)
    requires n in m && column <= m[n]
    ensures |Pairs(m[n := column])| + |m[n]| == |Pairs(m)| + |column|
  {
    var gone := m[n] - column;
    assert Pairs(m) - Pairs(m[n := column]) == ColumnOf(gone, n);
    ColumnSize(gone, n);
    SubsetCardinality(Pairs(m[n := column]), Pairs(m));
    SubsetCardinality(column, m[n]);
  }

  lemma PairsOfRow(m: map<string, set<Identity>>, m': map<string, set<Identity>>, t: Identity, resolved: set<string>)
    requires m'.Keys == m.Keys && resolved <= m.Keys && forall n :: n in resolved ==> t in m[n]
    requires forall n :: n in m ==> m'[n] == if n in resolved then m[n] - {t} else m[n]
    ensures Pairs(m') == Pairs(m) - RowOf(t, resolved)
    ensures |Pairs(m')| + |resolved| == |Pairs(m)|
  {
    var gone := RowOf(t, resolved);
    assert gone <= Pairs(m);
    assert Pairs(m') == Pairs(m) - gone;
    RowSize(t, resolved);
    SubsetCardinality(gone, Pairs(m));
  }

  /** Everything a rule looks at is the same on both nodes, taints apart. */
  predicate SameFacts(m: Node, n: Node) {
    m.labels == n.labels && m.conditions == n.conditions
  }

  /** One action settles its taint for all rules that share it, and no other. */
  lemma PendingAfterAct(rules: map<string, Rule>, m: Node, m': Node, r: string)
    requires Active(rules, m, r) && Decide(rules[r].spec, m) != Keep && AgreeOn(rules, m)
    requires SameFacts(m, m') && m'.taints == Act(Decide(rules[r].spec, m), m, r, rules[r].spec.taint).taints
    ensures IdentityOf(rules[r].spec.taint) in Pending(rules, m)
    ensures Pending(rules, m') == Pending(rules, m) - {IdentityOf(rules[r].spec.taint)}
  {
    var spec := rules[r].spec;
    forall q | Active(rules, m, q)
      ensures Active(rules, m', q)
      ensures Decide(rules[q].spec, m') == if SameTaint(spec.taint, rules[q].spec.taint) then Keep
              else Decide(rules[q].spec, m)
    {
      ActDecides(m, r, spec, rules[q].spec.taint);
    }
    forall t | t in Pending(rules, m) && t != IdentityOf(spec.taint) ensures t in Pending(rules, m') {
      var q :| q in rules && Active(rules, m, q) && Decide(rules[q].spec, m) != Keep
          && t == IdentityOf(rules[q].spec.taint);
      assert Decide(rules[q].spec, m') != Keep;
    }
    forall t | t in Pending(rules, m') ensures t in Pending(rules, m) && t != IdentityOf(spec.taint) {
      var q :| q in rules && Active(rules, m', q) && Decide(rules[q].spec, m') != Keep
          && t == IdentityOf(rules[q].spec.taint);
      assert Active(rules, m, q);
    }
  }

  ghost predicate NoPatchFails(faults: Faults) {
    forall r, n :: PatchTaints(r, n) !in faults
  }

  ghost predicate WithinBudget(rules: map<string, Rule>, n: Node, v: View, faults: Faults) {
    && SameFacts(v.copy, n) && SameFacts(v.stored, n)
    && Pending(rules, v.copy) <= Pending(rules, v.stored) <= Pending(rules, n)
    && v.patches + |Pending(rules, v.stored)| <= |Pending(rules, n)|
    && (NoPatchFails(faults) ==>
          v.copy.taints == v.stored.taints && v.patches + |Pending(rules, v.stored)| == |Pending(rules, n)|)
  }

  lemma SamePending(rules: map<string, Rule>, m: Node, m': Node)
    requires SameFacts(m, m') && m.taints == m'.taints
    ensures Pending(rules, m) == Pending(rules, m')
  {
    assert forall r :: Active(rules, m, r) <==> Active(rules, m', r);
    assert forall r :: r in rules ==> Decide(rules[r].spec, m) == Decide(rules[r].spec, m');
  }

  lemma SameAgreement(rules: map<string, Rule>, m: Node, m': Node)
    requires SameFacts(m, m')
    ensures AgreeOn(rules, m) <==> AgreeOn(rules, m')
    ensures forall r :: Active(rules, m, r) <==> Active(rules, m', r)
  {
  }

  /** An action settles one taint on the copy; its patch goes through or not. */
  lemma ActWithinBudget(rules: map<string, Rule>, n: Node, v: View, after: View, t: Identity, faults: Faults)
    requires WithinBudget(rules, n, v, faults)
    requires SameFacts(after.copy, v.copy) && SameFacts(after.stored, v.stored)
    requires t in Pending(rules, v.copy) && Pending(rules, after.copy) == Pending(rules, v.copy) - {t}
    requires || (!NoPatchFails(faults) && after.patches == v.patches && after.stored == v.stored)
             || (after.patches == v.patches + 1 && after.stored.taints == after.copy.taints)
    ensures WithinBudget(rules, n, after, faults)
  {
    if after.patches == v.patches {
      assert Pending(rules, after.copy) <= Pending(rules, v.copy);
    } else {
      SamePending(rules, after.stored, after.copy);
      SubsetCardinality(Pending(rules, v.copy), Pending(rules, v.stored));
      if NoPatchFails(faults) {
        SamePending(rules, v.stored, v.copy);
      }
    }
  }

  lemma EnforceWithinBudget(rules: map<string, Rule>, n: Node, v: View, r: string, name: string, faults: Faults)
    requires Active(rules, n, r) && AgreeOn(rules, n)
    requires WithinBudget(rules, n, v, faults)
    ensures WithinBudget(rules, n, Enforce(r, rules[r].spec, name, v, faults), faults)
  {
    var spec := rules[r].spec;
    var after := Enforce(r, spec, name, v, faults);
    if Decide(spec, v.copy) != Keep {
      SameAgreement(rules, n, v.copy);
      PendingAfterAct(rules, v.copy, after.copy, r);
      ActWithinBudget(rules, n, v, after, IdentityOf(spec.taint), faults);
    }
  }

  lemma {:induction false} PassWithinBudget(
    rules: map<string, Rule>, cache: map<string, Rule>, n: Node, order: seq<string>, name: string, dry: bool,
    faults: Faults)
    requires forall r :: r in cache ==> r in rules && cache[r].spec == rules[r].spec
    requires forall r :: r in order && r in cache ==> Selects(cache[r].spec.selector, n.labels)
    requires AgreeOn(rules, n)
    ensures WithinBudget(rules, n, PassView(Fresh(n), cache, order, name, dry, faults), faults)
  {
    if order != [] {
      var init, r := order[..|order| - 1], order[|order| - 1];
      assert order == init + [r];
      PassWithinBudget(rules, cache, n, init, name, dry, faults);
      if r in cache && !cache[r].spec.dryRun {
        EnforceWithinBudget(rules, n, PassView(Fresh(n), cache, init, name, dry, faults), r, name, faults);
      }
    }
  }

  lemma ColumnDisagreements(rules: map<string, Rule>, nodes: map<string, Node>, name: string, m: Node)
    requires name in nodes && Pending(rules, m) <= Pending(rules, nodes[name])
    ensures |Disagreements(rules, nodes[name := m])| + |Pending(rules, nodes[name])|
            == |Disagreements(rules, nodes)| + |Pending(rules, m)|
  {
    assert PendingOn(rules, nodes[name := m]) == PendingOn(rules, nodes)[name := Pending(rules, m)];
    PairsOfColumn(PendingOn(rules, nodes), name, Pending(rules, m));
  }

  /** The nodes whose taints differ from one state to the next. */
  function Rewritten(before: map<string, Node>, after: map<string, Node>): set<string> {
    set n | n in before && n in after && before[n].taints != after[n].taints
  }

  /** The nodes on which evaluating the rule gets a patch through. */
  function Patched(nodes: map<string, Node>, rule: string, spec: RuleSpec, faults: Faults): set<string> {
    set n | n in nodes && Selects(spec.selector, nodes[n].labels) && Decide(spec, nodes[n]) != Keep
            && PatchTaints(rule, n) !in faults
  }

  lemma PatchedAreRewritten(nodes: map<string, Node>, rule: string, spec: RuleSpec, faults: Faults)
    ensures Rewritten(nodes, Evaluated(nodes, nodes.Keys, rule, spec, faults)) == Patched(nodes, rule, spec, faults)
  {
    forall n | n in nodes
      ensures n in Patched(nodes, rule, spec, faults)
              <==> nodes[n].taints != Evaluated(nodes, nodes.Keys, rule, spec, faults)[n].taints
    {
      WithoutMembers(nodes[n].taints, spec.taint);
    }
  }

  lemma PendingAfterRow(rules: map<string, Rule>, nodes: map<string, Node>, r: string, faults: Faults, n: string)
    requires r in rules && !rules[r].spec.dryRun && n in nodes && AgreeOn(rules, nodes[n])
    ensures var patched, t := n in Patched(nodes, r, rules[r].spec, faults), IdentityOf(rules[r].spec.taint);
            && (patched ==> t in Pending(rules, nodes[n]))
            && Pending(rules, Evaluated(nodes, nodes.Keys, r, rules[r].spec, faults)[n])
               == if patched then Pending(rules, nodes[n]) - {t} else Pending(rules, nodes[n])
  {
    if n in Patched(nodes, r, rules[r].spec, faults) {
      PendingAfterAct(rules, nodes[n], Evaluated(nodes, nodes.Keys, r, rules[r].spec, faults)[n], r);
    }
  }

  lemma RowDisagreements(rules: map<string, Rule>, nodes: map<string, Node>, r: string, faults: Faults)
    requires r in rules && !rules[r].spec.dryRun && AgreeEverywhere(rules, nodes)
    ensures var after := Evaluated(nodes, nodes.Keys, r, rules[r].spec, faults);
            && |Disagreements(rules, after)| + |Rewritten(nodes, after)| == |Disagreements(rules, nodes)|
            && Disagreements(rules, after)
               == Disagreements(rules, nodes)
                  - RowOf(IdentityOf(rules[r].spec.taint), Patched(nodes, r, rules[r].spec, faults))
  {
    var spec, t := rules[r].spec, IdentityOf(rules[r].spec.taint);
    var after := Evaluated(nodes, nodes.Keys, r, spec, faults);
    PatchedAreRewritten(nodes, r, spec, faults);
    forall n | n in nodes
      ensures var patched := n in Patched(nodes, r, spec, faults);
              && (patched ==> t in Pending(rules, nodes[n]))
              && Pending(rules, after[n]) == if patched then Pending(rules, nodes[n]) - {t}
                  else Pending(rules, nodes[n])
    {
      PendingAfterRow(rules, nodes, r, faults, n);
    }
    PairsOfRow(PendingOn(rules, nodes), PendingOn(rules, after), t, Patched(nodes, r, spec, faults));
  }

  // ---------- any interleaving of the two reconcilers ----------

  /** No edit is pending, and rules that share a taint agree on every node. */
  ghost predicate Peaceful(s: Cluster) {
    Frozen(s) && AgreeEverywhere(s.rules, s.nodes)
  }

  /** Successful taint patches. A rule reconcile patches a node at most once, and each patch that goes
      through changes the list. */
  ghost function Writes(s: Cluster, m: Move): nat
    requires CanMove(s, m)
  {
    match m
    case OnNode(n, order, faults) => if n in s.nodes then NodeView(s, n, order, faults).patches else 0
    case OnRule(_, _, _) => |Rewritten(s.nodes, Perform(s, m).nodes)|
  }

  lemma NodeMoveLowersMeasure(s: Cluster, n: string, order: seq<string>, faults: Faults)
    requires Peaceful(s) && n in s.nodes && NodeOrder(s, n, order)
    ensures var v := NodeView(s, n, order, faults);
            var left := |Disagreements(s.rules, s.nodes[n := v.stored])|;
            && v.patches + left <= |Disagreements(s.rules, s.nodes)|
            && (NoPatchFails(faults) ==> v.patches + left == |Disagreements(s.rules, s.nodes)|)
  {
    PassWithinBudget(s.rules, s.cache, s.nodes[n], order, n, s.globalDryRun, faults);
    ColumnDisagreements(s.rules, s.nodes, n, NodeView(s, n, order, faults).stored);
  }

  lemma RuleMoveLowersMeasure(s: Cluster, r: string, order: seq<string>, faults: Faults)
    requires Peaceful(s) && r in s.rules && Listing(order, s.nodes.Keys)
    ensures var nodes := ReconcileRule(s, r, order, faults).state.nodes;
            |Rewritten(s.nodes, nodes)| + |Disagreements(s.rules, nodes)| == |Disagreements(s.rules, s.nodes)|
  {
    FrozenRuleReconcile(s, r, order, faults);
    if !s.rules[r].spec.dryRun {
      RowDisagreements(s.rules, s.nodes, r, faults);
    }
    assert Rewritten(s.nodes, s.nodes) == {};
  }

  lemma SameSpecsSameDisagreements(a: map<string, Rule>, b: map<string, Rule>, nodes: map<string, Node>)
    requires SameSpecs(a, b)
    ensures Disagreements(a, nodes) == Disagreements(b, nodes)
    ensures AgreeEverywhere(a, nodes) <==> AgreeEverywhere(b, nodes)
  {
    assert forall n, r :: Active(a, n, r) <==> Active(b, n, r);
    forall n | n in nodes ensures Pending(a, nodes[n]) == Pending(b, nodes[n]) {
      forall t ensures t in Pending(a, nodes[n]) <==> t in Pending(b, nodes[n]) {
      }
    }
    assert forall n :: AgreeOn(a, n) <==> AgreeOn(b, n);
  }

  lemma SameFactsSameAgreement(rules: map<string, Rule>, nodes: map<string, Node>, after: map<string, Node>)
    requires after.Keys == nodes.Keys && forall n :: n in nodes ==> SameFacts(after[n], nodes[n])
    ensures AgreeEverywhere(rules, nodes) <==> AgreeEverywhere(rules, after)
  {
    forall n | n in nodes ensures AgreeOn(rules, nodes[n]) <==> AgreeOn(rules, after[n]) {
      SameAgreement(rules, nodes[n], after[n]);
    }
  }

  lemma EvaluatedFacts(nodes: map<string, Node>, rule: string, spec: RuleSpec, faults: Faults)
    ensures var after := Evaluated(nodes, nodes.Keys, rule, spec, faults);
            after.Keys == nodes.Keys && forall n :: n in nodes ==> SameFacts(after[n], nodes[n])
  {
  }

  lemma FrozenMove(s: Cluster, m: Move)
    requires Frozen(s) && CanMove(s, m)
    ensures var after := Perform(s, m);
            && Frozen(after) && SameSpecs(after.rules, s.rules) && after.globalDryRun == s.globalDryRun
            && after.nodes.Keys == s.nodes.Keys && forall n :: n in s.nodes ==> SameFacts(after.nodes[n], s.nodes[n])
  {
    if m.OnNode? {
      if m.node in s.nodes {
        NodeMoveEffect(s, m.node, m.order, m.faults);
        PassKeepsFacts(Fresh(s.nodes[m.node]), s.cache, m.order, m.node, s.globalDryRun, m.faults);
      }
    } else if m.rule in s.rules {
      FrozenRuleReconcile(s, m.rule, m.order, m.faults);
      EvaluatedFacts(s.nodes, m.rule, s.rules[m.rule].spec, m.faults);
    }
  }

  lemma MoveKeepsPeace(s: Cluster, m: Move)
    requires Peaceful(s) && CanMove(s, m)
    ensures Peaceful(Perform(s, m)) && SameSpecs(Perform(s, m).rules, s.rules)
  {
    FrozenMove(s, m);
    SameFactsSameAgreement(s.rules, s.nodes, Perform(s, m).nodes);
    SameSpecsSameDisagreements(s.rules, Perform(s, m).rules, Perform(s, m).nodes);
  }

  /** One move: what it writes comes off the measure, exactly so when no patch fails. */
  lemma MoveLowersMeasure(s: Cluster, m: Move)
    requires Peaceful(s) && CanMove(s, m)
    ensures var after := Perform(s, m);
            && Peaceful(after)
            && Writes(s, m) + |Disagreements(after.rules, after.nodes)| <= |Disagreements(s.rules, s.nodes)|
            && (NoPatchFails(m.faults) ==>
                  Writes(s, m) + |Disagreements(after.rules, after.nodes)| == |Disagreements(s.rules, s.nodes)|)
  {
    var after := Perform(s, m);
    MoveKeepsPeace(s, m);
    SameSpecsSameDisagreements(s.rules, after.rules, after.nodes);
    if m.OnNode? && m.node in s.nodes {
      NodeMoveEffect(s, m.node, m.order, m.faults);
      NodeMoveLowersMeasure(s, m.node, m.order, m.faults);
    } else if m.OnRule? && m.rule in s.rules {
      RuleMoveLowersMeasure(s, m.rule, m.order, m.faults);
    } else {
      assert after.nodes == s.nodes;
      assert Rewritten(s.nodes, s.nodes) == {};
    }
  }

  ghost function TotalWrites(s: Cluster, moves: seq<Move>): nat
    requires CanRun(s, moves)
    decreases |moves|
  {
    if moves == [] then 0 else Writes(s, moves[0]) + TotalWrites(Perform(s, moves[0]), moves[1..])
  }

  /** With conditions, labels and specs frozen and rules that share a taint in agreement, any interleaving of
      node and rule reconciles, failing where they may, gets at most as many taint patches through as there
      were disagreeing pairs; when no patch fails, every one of them settles exactly one pair. */
  lemma {:induction false} QuiescenceBound(s: Cluster, moves: seq<Move>)
    requires Peaceful(s) && CanRun(s, moves)
    ensures var end := RunAll(s, moves);
            && TotalWrites(s, moves) + |Disagreements(end.rules, end.nodes)| <= |Disagreements(s.rules, s.nodes)|
            && ((forall m :: m in moves ==> NoPatchFails(m.faults)) ==>
                  TotalWrites(s, moves) + |Disagreements(end.rules, end.nodes)| == |Disagreements(s.rules, s.nodes)|)
    decreases |moves|
  {
    if moves != [] {
      MoveLowersMeasure(s, moves[0]);
      QuiescenceBound(Perform(s, moves[0]), moves[1..]);
      assert moves[0] in moves && forall m :: m in moves[1..] ==> m in moves;
    }
  }

  // ---------- without agreement: no bound ----------

  ghost predicate Disagree(s: Cluster, name: string, a: string, b: string) {
    && name in s.nodes && Active(s.rules, s.nodes[name], a) && Active(s.rules, s.nodes[name], b)
    && SameTaint(s.rules[a].spec.taint, s.rules[b].spec.taint)
    && Ready(s.rules[a].spec, s.nodes[name].conditions) && !Ready(s.rules[b].spec, s.nodes[name].conditions)
  }

  /** Of two rules that disagree one has something to do, and reconciling it writes. */
  lemma DisagreeingMoveWrites(s: Cluster, name: string, a: string, b: string) returns (m: Move)
    requires Frozen(s) && Disagree(s, name, a, b)
    ensures CanMove(s, m) && m.faults == {} && Writes(s, m) >= 1
    ensures Frozen(Perform(s, m)) && Disagree(Perform(s, m), name, a, b)
  {
    var order := ListingOf(s.nodes.Keys);
    var r := if HasTaint(s.nodes[name].taints, s.rules[a].spec.taint) then a else b;
    m := OnRule(r, order, {});
    FrozenMove(s, m);
    FrozenRuleReconcile(s, r, order, {});
    DisagreeingRuleActs(s, name, a, b);
    PatchedAreRewritten(s.nodes, r, s.rules[r].spec, {});
    assert name in Patched(s.nodes, r, s.rules[r].spec, {});
  }

  lemma DisagreeingRuleActs(s: Cluster, name: string, a: string, b: string)
    requires Disagree(s, name, a, b)
    ensures var r := if HasTaint(s.nodes[name].taints, s.rules[a].spec.taint) then a else b;
            Decide(s.rules[r].spec, s.nodes[name]) != Keep
  {
    assert forall t :: SameTaint(t, s.rules[a].spec.taint) <==> SameTaint(t, s.rules[b].spec.taint);
  }

  lemma {:induction false} DisagreeingRun(s: Cluster, name: string, a: string, b: string, k: nat)
    returns (moves: seq<Move>)
    requires Frozen(s) && Disagree(s, name, a, b)
    ensures CanRun(s, moves) && TotalWrites(s, moves) >= k
    decreases k
  {
    moves := [];
    if k > 0 {
      var m := DisagreeingMoveWrites(s, name, a, b);
      var rest := DisagreeingRun(Perform(s, m), name, a, b, k - 1);
      moves := [m] + rest;
      assert moves[1..] == rest;
    }
  }

  ghost predicate BoundedBy(s: Cluster, bound: nat) {
    forall moves :: CanRun(s, moves) ==> TotalWrites(s, moves) <= bound
  }

  /** While no edit is pending, the taint patches of all runs, whatever fails and in whatever interleaving of
      node and rule reconciles, are bounded if and only if on every stored node any two rules that select it,
      share a taint and are not in dry run have the same verdict. */
  lemma {:induction false} WritesBoundedExactly(s: Cluster)
    requires Frozen(s)
    ensures (exists bound: nat :: BoundedBy(s, bound)) <==> AgreeEverywhere(s.rules, s.nodes)
  {
    if AgreeEverywhere(s.rules, s.nodes) {
      forall moves | CanRun(s, moves) ensures TotalWrites(s, moves) <= |Disagreements(s.rules, s.nodes)| {
        QuiescenceBound(s, moves);
      }
      assert BoundedBy(s, |Disagreements(s.rules, s.nodes)|);
    } else {
      var name, a, b := DisagreeingPair(s);
      forall bound: nat ensures !BoundedBy(s, bound) {
        var moves := DisagreeingRun(s, name, a, b, bound + 1);
      }
    }
  }

  lemma DisagreeingPair(s: Cluster) returns (name: string, a: string, b: string)
    requires !AgreeEverywhere(s.rules, s.nodes)
    ensures Disagree(s, name, a, b)
  {
    name :| name in s.nodes && !AgreeOn(s.rules, s.nodes[name]);
    var n := s.nodes[name];
    a, b :| Active(s.rules, n, a) && Active(s.rules, n, b) && SameTaint(s.rules[a].spec.taint, s.rules[b].spec.taint)
            && Ready(s.rules[a].spec, n.conditions) != Ready(s.rules[b].spec, n.conditions);
    if !Ready(s.rules[a].spec, n.conditions) {
      a, b := b, a;
    }
  }

  /** Rules with one taint that never meet on a node agree on every node. */
  lemma MeetNowhereAgrees(rules: map<string, Rule>, nodes: map<string, Node>)
    requires MeetNowhere(rules)
    ensures AgreeEverywhere(rules, nodes)
  {
    forall n, a, b | n in nodes && Active(rules, nodes[n], a) && Active(rules, nodes[n], b)
                     && SameTaint(rules[a].spec.taint, rules[b].spec.taint)
      ensures a == b
    {
      assert DistinctTaints(rules, Applicable(rules, nodes[n].labels));
    }
  }

  // ---------- coming to rest ----------

  lemma NothingPending(rules: map<string, Rule>, nodes: map<string, Node>, n: string, r: string)
    requires Disagreements(rules, nodes) == {} && n in nodes && Active(rules, nodes[n], r)
    ensures Decide(rules[r].spec, nodes[n]) == Keep
  {
    assert (IdentityOf(rules[r].spec.taint), n) !in Disagreements(rules, nodes);
    assert IdentityOf(rules[r].spec.taint) !in Pending(rules, nodes[n]);
  }

  lemma EvaluatedAtRest(nodes: map<string, Node>, rule: string, spec: RuleSpec, faults: Faults)
    requires forall n :: n in nodes && Selects(spec.selector, nodes[n].labels) ==> Decide(spec, nodes[n]) == Keep
    ensures Evaluated(nodes, nodes.Keys, rule, spec, faults) == nodes
  {
  }

  /** Once every pair agrees, no reconcile changes any node. */
  lemma AgreementIsFinal(s: Cluster, m: Move)
    requires Frozen(s) && CanMove(s, m) && Disagreements(s.rules, s.nodes) == {}
    ensures Perform(s, m).nodes == s.nodes && Writes(s, m) == 0
  {
    assert Rewritten(s.nodes, s.nodes) == {};
    if m.OnNode? {
      if m.node in s.nodes {
        var n := s.nodes[m.node];
        forall r | r in m.order ensures Skipped(n, r, s.cache[r].spec, s.globalDryRun)
            || Decide(s.cache[r].spec, n) == Keep {
          if !s.cache[r].spec.dryRun {
            NothingPending(s.rules, s.nodes, m.node, r);
          }
        }
        RestingPassWritesNothing(n, s.cache, m.order, m.node, s.globalDryRun, m.faults);
      }
    } else if m.rule in s.rules {
      var spec := s.rules[m.rule].spec;
      FrozenRuleReconcile(s, m.rule, m.order, m.faults);
      if !spec.dryRun {
        forall n | n in s.nodes && Selects(spec.selector, s.nodes[n].labels) ensures Decide(spec, s.nodes[n]) == Keep {
          NothingPending(s.rules, s.nodes, n, m.rule);
        }
        EvaluatedAtRest(s.nodes, m.rule, spec, m.faults);
      }
    }
  }

  /** The move reconciles a rule that is active on the node and manages this taint. */
  ghost predicate Settling(rules: map<string, Rule>, nodes: map<string, Node>, m: Move, p: (Identity, string)) {
    m.OnRule? && p.1 in nodes && Active(rules, nodes[p.1], m.rule) && p.0 == IdentityOf(rules[m.rule].spec.taint)
  }

  /** The pair disagrees, and none of the moves is for a rule that is active on the node and manages the taint. */
  ghost predicate LeftOver(
    rules: map<string, Rule>, nodes: map<string, Node>, moves: seq<Move>, p: (Identity, string)) {
    p in Disagreements(rules, nodes) && forall m :: m in moves ==> !Settling(rules, nodes, m, p)
  }

  lemma LeftOverBefore(s: Cluster, moves: seq<Move>, p: (Identity, string))
    requires Peaceful(s) && CanRun(s, moves) && moves != [] && moves[0].OnRule? && moves[0].faults == {}
    requires LeftOver(Perform(s, moves[0]).rules, Perform(s, moves[0]).nodes, moves[1..], p)
    ensures LeftOver(s.rules, s.nodes, moves, p)
  {
    var m, after := moves[0], Perform(s, moves[0]);
    FrozenMove(s, m);
    SameSpecsSameDisagreements(s.rules, after.rules, after.nodes);
    if m.rule in s.rules {
      RuleMoveSettlesRow(s, m.rule, m.order);
    }
    forall x | x in moves ensures !Settling(s.rules, s.nodes, x, p) {
      if x in moves[1..] {
        assert !Settling(after.rules, after.nodes, x, p);
      } else {
        assert x == m;
      }
    }
  }

  /** And agreement is reached: after rule reconciles with no call failing, a pair disagrees only if it did
      before and none of them was for a rule that is active on the node and manages the taint. */
  lemma {:induction false} OneSweepSettles(s: Cluster, moves: seq<Move>)
    requires Peaceful(s) && CanRun(s, moves) && forall m :: m in moves ==> m.OnRule? && m.faults == {}
    ensures var end := RunAll(s, moves);
            forall p :: p in Disagreements(end.rules, end.nodes) ==> LeftOver(s.rules, s.nodes, moves, p)
    decreases |moves|
  {
    if moves != [] {
      assert moves[0] in moves && forall x :: x in moves[1..] ==> x in moves;
      MoveKeepsPeace(s, moves[0]);
      OneSweepSettles(Perform(s, moves[0]), moves[1..]);
      var end := RunAll(s, moves);
      forall p | p in Disagreements(end.rules, end.nodes) ensures LeftOver(s.rules, s.nodes, moves, p) {
        LeftOverBefore(s, moves, p);
      }
    }
  }

  lemma RuleMoveSettlesRow(s: Cluster, r: string, order: seq<string>)
    requires Peaceful(s) && r in s.rules && Listing(order, s.nodes.Keys)
    ensures var nodes := ReconcileRule(s, r, order, {}).state.nodes;
            forall p :: p in Disagreements(s.rules, nodes) ==>
              p in Disagreements(s.rules, s.nodes) && !Settling(s.rules, s.nodes, OnRule(r, order, {}), p)
  {
    FrozenRuleReconcile(s, r, order, {});
    if !s.rules[r].spec.dryRun {
      var nodes, t := ReconcileRule(s, r, order, {}).state.nodes, IdentityOf(s.rules[r].spec.taint);
      RowDisagreements(s.rules, s.nodes, r, {});
      forall p | p in Disagreements(s.rules, s.nodes) && Settling(s.rules, s.nodes, OnRule(r, order, {}), p)
        ensures p in RowOf(t, Patched(s.nodes, r, s.rules[r].spec, {}))
      {
        StillPendingMeansPatched(s.rules, s.nodes[p.1], r);
      }
    }
  }

  /** A pending taint is pending for every active rule that manages it. */
  lemma StillPendingMeansPatched(rules: map<string, Rule>, n: Node, r: string)
    requires Active(rules, n, r) && AgreeOn(rules, n) && IdentityOf(rules[r].spec.taint) in Pending(rules, n)
    ensures Decide(rules[r].spec, n) != Keep
  {
    var t := rules[r].spec.taint;
    var q :| q in rules && Active(rules, n, q) && Decide(rules[q].spec, n) != Keep
        && IdentityOf(t) == IdentityOf(rules[q].spec.taint);
    assert forall u :: SameTaint(u, t) <==> SameTaint(u, rules[q].spec.taint);
  }

  // ---------- one node, node reconciles only ----------

  /** The rule selects the node and a node reconcile does not skip it. */
  ghost predicate Live(cache: map<string, Rule>, n: Node, dry: bool, r: string) {
    r in Applicable(cache, n.labels) && !Skipped(n, r, cache[r].spec, dry)
  }

  /** Two live rules with one taint and opposite verdicts, and the satisfied one can never complete. */
  ghost predicate Opposed(cache: map<string, Rule>, n: Node, dry: bool, a: string, b: string) {
    && Live(cache, n, dry, a) && Live(cache, n, dry, b) && SameTaint(cache[a].spec.taint, cache[b].spec.taint)
    && Ready(cache[a].spec, n.conditions) && !Ready(cache[b].spec, n.conditions) && cache[a].spec.mode != BootstrapOnly
  }

  ghost predicate NoneOpposed(cache: map<string, Rule>, n: Node, dry: bool) {
    forall a, b :: !Opposed(cache, n, dry, a, b)
  }

  /** What a pass without failures keeps: copy and store in step, no fact but taints and completions
      changed, and only satisfied bootstrap-only rules newly complete. */
  ghost predicate Follows(n: Node, v: View, cache: map<string, Rule>) {
    && v.copy.taints == v.stored.taints && SameFacts(v.stored, n) && SameFacts(v.copy, n)
    && (forall r :: Completed(n, r) ==> Completed(v.stored, r))
    && (forall r :: Completed(v.stored, r) && !Completed(n, r) ==>
          r in cache && Ready(cache[r].spec, n.conditions) && cache[r].spec.mode == BootstrapOnly)
  }

  lemma EnforceFollows(n: Node, v: View, cache: map<string, Rule>, q: string, name: string)
    requires q in cache && Follows(n, v, cache)
    ensures var after := Enforce(q, cache[q].spec, name, v, {});
            && Follows(n, after, cache)
            && (forall r :: Completed(v.stored, r) ==> Completed(after.stored, r))
            && (forall r :: Completed(after.stored, r) ==> Completed(v.stored, r) || r == q)
            && (Decide(cache[q].spec, v.copy) == Remove && cache[q].spec.mode == BootstrapOnly ==>
                Completed(after.stored, q))
  {
    var completes := Completes(q, cache[q].spec, name, Decide(cache[q].spec, v.copy), {});
    forall r
      ensures Completed(Enforce(q, cache[q].spec, name, v, {}).stored, r)
              <==> Completed(v.stored, r) || (r == q && completes)
    {
      EnforceCompletes(q, cache[q].spec, name, v, {}, r);
    }
  }

  lemma {:induction false} PassFollows(n: Node, cache: map<string, Rule>, order: seq<string>, name: string, dry: bool)
    ensures var v := PassView(Fresh(n), cache, order, name, dry, {});
            && Follows(n, v, cache)
            && forall r :: Completed(v.stored, r) && !Completed(n, r) ==>
                 r in order && r in cache && !Skipped(n, r, cache[r].spec, dry)
  {
    if order != [] {
      var init, q := order[..|order| - 1], order[|order| - 1];
      assert order == init + [q];
      PassFollows(n, cache, init, name, dry);
      if q in cache {
        EnforceFollows(n, PassView(Fresh(n), cache, init, name, dry, {}), cache, q, name);
      }
    }
  }

  // ---------- opposite verdicts: no end ----------

  lemma {:induction false} SilentPassIsRest(
    n: Node, cache: map<string, Rule>, order: seq<string>, name: string, dry: bool)
    requires forall r :: r in order ==> r in cache
    ensures var v := PassView(Fresh(n), cache, order, name, dry, {});
            v.patches == 0 ==> v == Fresh(n) && AtRest(n, cache, order, dry)
  {
    if order != [] {
      assert order == order[..|order| - 1] + [order[|order| - 1]];
      SilentPassIsRest(n, cache, order[..|order| - 1], name, dry);
    }
  }

  /** A reconcile of the node alone, with no call failing. */
  ghost predicate FaultFree(m: Move, name: string) {
    m.OnNode? && m.node == name && m.faults == {}
  }

  lemma FaultFreePassFacts(s: Cluster, m: Move, name: string)
    requires CanMove(s, m) && FaultFree(m, name) && name in s.nodes
    ensures var after := Perform(s, m);
            && name in after.nodes && after.globalDryRun == s.globalDryRun && SameSpecs(after.cache, s.cache)
            && SameFacts(after.nodes[name], s.nodes[name])
            && Follows(s.nodes[name], NodeView(s, name, m.order, {}), s.cache)
            && Applicable(after.cache, after.nodes[name].labels) == Applicable(s.cache, s.nodes[name].labels)
  {
    NodeMoveEffect(s, name, m.order, {});
    PassFollows(s.nodes[name], s.cache, m.order, name, s.globalDryRun);
  }

  lemma OpposedPassWrites(s: Cluster, m: Move, name: string, a: string, b: string)
    requires CanMove(s, m) && FaultFree(m, name) && name in s.nodes
    requires Opposed(s.cache, s.nodes[name], s.globalDryRun, a, b)
    ensures Writes(s, m) >= 1
    ensures var after := Perform(s, m);
            name in after.nodes && Opposed(after.cache, after.nodes[name], after.globalDryRun, a, b)
  {
    FaultFreePassFacts(s, m, name);
    SilentPassIsRest(s.nodes[name], s.cache, m.order, name, s.globalDryRun);
    assert !AtRest(s.nodes[name], s.cache, m.order, s.globalDryRun) by {
      assert a in m.order && b in m.order;
    }
  }

  /** Two rules so opposed keep every pass writing: after k passes over the node, in any orders, at least
      k patches went through. */
  lemma {:induction false} SharedTaintNeverSettles(s: Cluster, moves: seq<Move>, name: string, a: string, b: string)
    requires CanRun(s, moves) && name in s.nodes && forall m :: m in moves ==> FaultFree(m, name)
    requires Opposed(s.cache, s.nodes[name], s.globalDryRun, a, b)
    ensures TotalWrites(s, moves) >= |moves|
    decreases |moves|
  {
    if moves != [] {
      assert moves[0] in moves && forall m :: m in moves[1..] ==> m in moves;
      OpposedPassWrites(s, moves[0], name, a, b);
      SharedTaintNeverSettles(Perform(s, moves[0]), moves[1..], name, a, b);
    }
  }

  // ---------- no opposite verdicts: an end ----------

  ghost predicate NothingCompleted(n: Node, m: Node) {
    forall r :: Completed(m, r) ==> Completed(n, r)
  }

  ghost predicate UnreadyAmong(cache: map<string, Rule>, n: Node, dry: bool, names: seq<string>, t: Taint) {
    exists b :: b in names && Live(cache, n, dry, b) && !Ready(cache[b].spec, n.conditions)
        && SameTaint(cache[b].spec.taint, t)
  }

  /** The taints of these rules are there exactly where some of them is unsatisfied. */
  ghost predicate Grouped(cache: map<string, Rule>, n: Node, dry: bool, names: seq<string>, taints: seq<Taint>) {
    forall r :: r in names && Live(cache, n, dry, r) ==>
      (HasTaint(taints, cache[r].spec.taint) <==> UnreadyAmong(cache, n, dry, names, cache[r].spec.taint))
  }

  lemma OneMoreUnready(cache: map<string, Rule>, n: Node, dry: bool, init: seq<string>, q: string, t: Taint)
    ensures UnreadyAmong(cache, n, dry, init + [q], t)
            <==> UnreadyAmong(cache, n, dry, init, t)
                 || (Live(cache, n, dry, q) && !Ready(cache[q].spec, n.conditions) && SameTaint(cache[q].spec.taint, t))
  {
  }

  /** A satisfied rule meets the taint of an unsatisfied one only if it is bootstrap-only; then it completes. */
  lemma TurnKeepsGroups(
    n: Node, v: View, cache: map<string, Rule>, init: seq<string>, q: string, name: string, dry: bool)
    requires Live(cache, n, dry, q) && NoneOpposed(cache, n, dry) && Follows(n, v, cache)
    requires Grouped(cache, n, dry, init, v.copy.taints)
    requires NothingCompleted(n, Enforce(q, cache[q].spec, name, v, {}).stored)
    ensures Grouped(cache, n, dry, init + [q], Enforce(q, cache[q].spec, name, v, {}).copy.taints)
  {
    var spec := cache[q].spec;
    EnforceFollows(n, v, cache, q, name);
    if Ready(spec, n.conditions) && UnreadyAmong(cache, n, dry, init, spec.taint) {
      var b :| b in init && Live(cache, n, dry, b) && !Ready(cache[b].spec, n.conditions)
               && SameTaint(cache[b].spec.taint, spec.taint);
      SameGroup(cache, n, dry, init, cache[b].spec.taint, spec.taint);
      SameTaintSamePresence(v.copy.taints, cache[b].spec.taint, spec.taint);
      assert Opposed(cache, n, dry, q, b);
      assert false;
    }
    forall r | r in init + [q] && Live(cache, n, dry, r)
      ensures HasTaint(Enforce(q, spec, name, v, {}).copy.taints, cache[r].spec.taint)
              <==> UnreadyAmong(cache, n, dry, init + [q], cache[r].spec.taint)
    {
      ActDecides(v.copy, q, spec, cache[r].spec.taint);
      OneMoreUnready(cache, n, dry, init, q, cache[r].spec.taint);
      SameGroup(cache, n, dry, init, spec.taint, cache[r].spec.taint);
    }
  }

  lemma SameTaintSamePresence(taints: seq<Taint>, s: Taint, t: Taint)
    ensures SameTaint(s, t) ==> (HasTaint(taints, s) <==> HasTaint(taints, t))
  {
  }

  lemma SameGroup(cache: map<string, Rule>, n: Node, dry: bool, names: seq<string>, s: Taint, t: Taint)
    ensures SameTaint(s, t) ==> (UnreadyAmong(cache, n, dry, names, s) <==> UnreadyAmong(cache, n, dry, names, t))
  {
  }

  lemma {:induction false} QuietPassGroups(
    n: Node, cache: map<string, Rule>, order: seq<string>, name: string, dry: bool)
    requires (forall r :: r in order ==> r in Applicable(cache, n.labels)) && NoneOpposed(cache, n, dry)
    requires NothingCompleted(n, PassView(Fresh(n), cache, order, name, dry, {}).stored)
    ensures Grouped(cache, n, dry, order, PassView(Fresh(n), cache, order, name, dry, {}).copy.taints)
  {
    if order != [] {
      var init, q := order[..|order| - 1], order[|order| - 1];
      assert order == init + [q] && q in order;
      var v := PassView(Fresh(n), cache, init, name, dry, {});
      PassFollows(n, cache, init, name, dry);
      EnforceFollows(n, v, cache, q, name);
      QuietPassGroups(n, cache, init, name, dry);
      if Live(cache, n, dry, q) {
        TurnKeepsGroups(n, v, cache, init, q, name, dry);
      } else {
        forall t ensures UnreadyAmong(cache, n, dry, init + [q], t) <==> UnreadyAmong(cache, n, dry, init, t) {
          OneMoreUnready(cache, n, dry, init, q, t);
        }
      }
    }
  }

  /** Where the taints are so grouped, a pass that completes no rule finds nothing to do. */
  lemma {:induction false} GroupedRests(
    n: Node, cache: map<string, Rule>, all: seq<string>, order: seq<string>, name: string, dry: bool)
    requires (forall r :: r in order ==> r in all && r in Applicable(cache, n.labels)) && NoneOpposed(cache, n, dry)
    requires Grouped(cache, n, dry, all, n.taints)
    requires NothingCompleted(n, PassView(Fresh(n), cache, order, name, dry, {}).stored)
    ensures AtRest(n, cache, order, dry)
  {
    if order != [] {
      var init, q := order[..|order| - 1], order[|order| - 1];
      assert order == init + [q] && q in order;
      PassFollows(n, cache, init, name, dry);
      EnforceFollows(n, PassView(Fresh(n), cache, init, name, dry, {}), cache, q, name);
      GroupedRests(n, cache, all, init, name, dry);
      RestingPassWritesNothing(n, cache, init, name, dry, {});
      if Live(cache, n, dry, q) {
        GroupedDecides(n, cache, all, q, dry);
      }
    }
  }

  /** There, only a satisfied bootstrap-only rule can have something to do: to remove its taint. */
  lemma GroupedDecides(n: Node, cache: map<string, Rule>, all: seq<string>, q: string, dry: bool)
    requires q in all && Live(cache, n, dry, q) && NoneOpposed(cache, n, dry) && Grouped(cache, n, dry, all, n.taints)
    ensures Decide(cache[q].spec, n) != Keep ==>
              Decide(cache[q].spec, n) == Remove && cache[q].spec.mode == BootstrapOnly
                  && Ready(cache[q].spec, n.conditions)
  {
    if Decide(cache[q].spec, n) == Remove {
      var b :| b in all && Live(cache, n, dry, b) && !Ready(cache[b].spec, n.conditions)
               && SameTaint(cache[b].spec.taint, cache[q].spec.taint);
      assert !Opposed(cache, n, dry, q, b);
    }
  }

  /** The bootstrap-only rules that can still complete on the node. */
  ghost function Completable(cache: map<string, Rule>, n: Node, dry: bool): set<string> {
    set r | r in Applicable(cache, n.labels) && Live(cache, n, dry, r) && cache[r].spec.mode == BootstrapOnly
            && Ready(cache[r].spec, n.conditions)
  }

  ghost function CompletableOn(s: Cluster, name: string): set<string>
    requires name in s.nodes
  {
    Completable(s.cache, s.nodes[name], s.globalDryRun)
  }

  ghost predicate Calm(s: Cluster, name: string) {
    name in s.nodes && NoneOpposed(s.cache, s.nodes[name], s.globalDryRun)
  }

  /** Every rule is skipped on the node or has nothing to do there. */
  ghost predicate Resting(s: Cluster, name: string) {
    && name in s.nodes
    && forall r :: r in Applicable(s.cache, s.nodes[name].labels) ==>
         Skipped(s.nodes[name], r, s.cache[r].spec, s.globalDryRun) || Decide(s.cache[r].spec, s.nodes[name]) == Keep
  }

  lemma RestingMove(s: Cluster, m: Move, name: string)
    requires Resting(s, name) && CanMove(s, m) && m.OnNode? && m.node == name
    ensures Writes(s, m) == 0 && Resting(Perform(s, m), name)
  {
    RestingPassWritesNothing(s.nodes[name], s.cache, m.order, name, s.globalDryRun, m.faults);
    NodeMoveEffect(s, name, m.order, m.faults);
  }

  lemma {:induction false} RestingRun(s: Cluster, moves: seq<Move>, name: string)
    requires Resting(s, name) && CanRun(s, moves) && forall m :: m in moves ==> m.OnNode? && m.node == name
    ensures TotalWrites(s, moves) == 0 && Resting(RunAll(s, moves), name)
    decreases |moves|
  {
    if moves != [] {
      assert moves[0] in moves && forall m :: m in moves[1..] ==> m in moves;
      RestingMove(s, moves[0], name);
      RestingRun(Perform(s, moves[0]), moves[1..], name);
    }
  }

  /** A pass leaves fewer rules live; as many rules can complete afterwards, less those it completed. */
  lemma CalmMove(s: Cluster, m: Move, name: string)
    requires Calm(s, name) && CanMove(s, m) && FaultFree(m, name)
    ensures var after := Perform(s, m);
            && Calm(after, name)
            && CompletableOn(after, name) <= CompletableOn(s, name)
            && (!NothingCompleted(s.nodes[name], after.nodes[name]) ==>
                |CompletableOn(after, name)| < |CompletableOn(s, name)|)
  {
    var n, after := s.nodes[name], Perform(s, m);
    FaultFreePassFacts(s, m, name);
    PassFollows(n, s.cache, m.order, name, s.globalDryRun);
    forall r | Live(after.cache, after.nodes[name], after.globalDryRun, r) ensures Live(s.cache, n, s.globalDryRun, r) {
    }
    forall a, b ensures !Opposed(after.cache, after.nodes[name], after.globalDryRun, a, b) {
      assert !Opposed(s.cache, n, s.globalDryRun, a, b);
    }
    if !NothingCompleted(n, after.nodes[name]) {
      var r :| Completed(after.nodes[name], r) && !Completed(n, r);
      assert r in CompletableOn(s, name) && r !in CompletableOn(after, name);
      SubsetCardinality(CompletableOn(after, name), CompletableOn(s, name) - {r});
    }
  }

  lemma QuietMoveGroups(s: Cluster, m: Move, name: string)
    requires Calm(s, name) && CanMove(s, m) && FaultFree(m, name)
    requires NothingCompleted(s.nodes[name], Perform(s, m).nodes[name])
    ensures var after := Perform(s, m);
            && name in after.nodes
            && Grouped(after.cache, after.nodes[name], after.globalDryRun, m.order, after.nodes[name].taints)
  {
    var n, after := s.nodes[name], Perform(s, m);
    FaultFreePassFacts(s, m, name);
    QuietPassGroups(n, s.cache, m.order, name, s.globalDryRun);
    forall r ensures Live(after.cache, after.nodes[name], after.globalDryRun, r)
        <==> Live(s.cache, n, s.globalDryRun, r) {
    }
    forall t
      ensures UnreadyAmong(after.cache, after.nodes[name], after.globalDryRun, m.order, t)
              <==> UnreadyAmong(s.cache, n, s.globalDryRun, m.order, t)
    {
    }
  }

  /** When nothing can complete any more, grouped taints are at rest; otherwise the next pass, if it
      completes nothing either, shows that they are. */
  lemma GroupedRestsWithoutCompletable(s: Cluster, all: seq<string>, name: string)
    requires Calm(s, name) && CompletableOn(s, name) == {}
    requires forall r :: r in Applicable(s.cache, s.nodes[name].labels) ==> r in all
    requires Grouped(s.cache, s.nodes[name], s.globalDryRun, all, s.nodes[name].taints)
    ensures Resting(s, name)
  {
    var n := s.nodes[name];
    forall r | r in Applicable(s.cache, n.labels) && !Skipped(n, r, s.cache[r].spec, s.globalDryRun)
      ensures Decide(s.cache[r].spec, n) == Keep
    {
      GroupedDecides(n, s.cache, all, r, s.globalDryRun);
      assert r !in CompletableOn(s, name);
    }
  }

  lemma GroupedRestsUnlessCompleting(s: Cluster, all: seq<string>, m: Move, name: string)
    requires Calm(s, name) && CanMove(s, m) && FaultFree(m, name)
    requires forall r :: r in Applicable(s.cache, s.nodes[name].labels) ==> r in all
    requires Grouped(s.cache, s.nodes[name], s.globalDryRun, all, s.nodes[name].taints)
    requires NothingCompleted(s.nodes[name], Perform(s, m).nodes[name])
    ensures Resting(s, name)
  {
    GroupedRests(s.nodes[name], s.cache, all, m.order, name, s.globalDryRun);
    forall r | r in Applicable(s.cache, s.nodes[name].labels)
      ensures Skipped(s.nodes[name], r, s.cache[r].spec, s.globalDryRun)
              || Decide(s.cache[r].spec, s.nodes[name]) == Keep
    {
      assert r in m.order;
    }
  }

  /** Without opposed rules, two passes for each rule that can still complete and one more bring the node to
      rest. */
  lemma {:induction false} CalmNodeRests(s: Cluster, moves: seq<Move>, name: string)
    requires Calm(s, name) && CanRun(s, moves) && forall m :: m in moves ==> FaultFree(m, name)
    requires |moves| >= 2 * |CompletableOn(s, name)| + 1
    ensures Resting(RunAll(s, moves), name)
    decreases |moves|
  {
    var m, after := moves[0], Perform(s, moves[0]);
    assert m in moves && forall x :: x in moves[1..] ==> x in moves;
    CalmMove(s, m, name);
    if !NothingCompleted(s.nodes[name], after.nodes[name]) {
      CalmNodeRests(after, moves[1..], name);
    } else {
      QuietMoveGroups(s, m, name);
      FaultFreePassFacts(s, m, name);
      assert forall r :: r in Applicable(after.cache, after.nodes[name].labels) ==> r in m.order;
      SubsetCardinality(CompletableOn(after, name), CompletableOn(s, name));
      AfterQuietMove(after, m.order, moves[1..], name, |CompletableOn(s, name)|);
    }
  }

  lemma {:induction false} AfterQuietMove(s: Cluster, all: seq<string>, moves: seq<Move>, name: string, bound: nat)
    requires Calm(s, name) && CanRun(s, moves) && forall m :: m in moves ==> FaultFree(m, name)
    requires forall r :: r in Applicable(s.cache, s.nodes[name].labels) ==> r in all
    requires Grouped(s.cache, s.nodes[name], s.globalDryRun, all, s.nodes[name].taints)
    requires |CompletableOn(s, name)| <= bound && |moves| >= 2 * bound
    ensures Resting(RunAll(s, moves), name)
    decreases |moves|
  {
    if bound == 0 {
      GroupedRestsWithoutCompletable(s, all, name);
      assert forall m :: m in moves ==> m.OnNode? && m.node == name;
      RestingRun(s, moves, name);
    } else {
      var m := moves[0];
      assert m in moves && forall x :: x in moves[1..] ==> x in moves;
      if NothingCompleted(s.nodes[name], Perform(s, m).nodes[name]) {
        GroupedRestsUnlessCompleting(s, all, m, name);
        assert forall x :: x in moves ==> x.OnNode? && x.node == name;
        RestingRun(s, moves, name);
      } else {
        CalmMove(s, m, name);
        CalmNodeRests(Perform(s, m), moves[1..], name);
      }
    }
  }

  lemma {:induction false} OpposedStays(s: Cluster, moves: seq<Move>, name: string, a: string, b: string)
    requires CanRun(s, moves) && name in s.nodes && forall m :: m in moves ==> FaultFree(m, name)
    requires Opposed(s.cache, s.nodes[name], s.globalDryRun, a, b)
    ensures var end := RunAll(s, moves);
            name in end.nodes && Opposed(end.cache, end.nodes[name], end.globalDryRun, a, b)
    decreases |moves|
  {
    if moves != [] {
      assert moves[0] in moves && forall m :: m in moves[1..] ==> m in moves;
      OpposedPassWrites(s, moves[0], name, a, b);
      OpposedStays(Perform(s, moves[0]), moves[1..], name, a, b);
    }
  }

  /** Exactly when a node settles, rules of all modes and shared taints included: after two passes for each
      bootstrap-only rule that could still complete and one more, in any orders and with no call failing, the
      node is never written again if and only if no satisfied rule that cannot complete has the taint of an
      unsatisfied one. */
  lemma {:induction false} NodeSettlesExactly(s: Cluster, first: seq<Move>, later: seq<Move>, name: string)
    requires name in s.nodes && |first| >= 2 * |CompletableOn(s, name)| + 1 && later != []
    requires CanRun(s, first) && forall m :: m in first ==> FaultFree(m, name)
    requires CanRun(RunAll(s, first), later) && forall m :: m in later ==> FaultFree(m, name)
    ensures TotalWrites(RunAll(s, first), later) == 0 <==> NoneOpposed(s.cache, s.nodes[name], s.globalDryRun)
  {
    if NoneOpposed(s.cache, s.nodes[name], s.globalDryRun) {
      CalmNodeRests(s, first, name);
      assert forall m :: m in later ==> m.OnNode? && m.node == name;
      RestingRun(RunAll(s, first), later, name);
    } else {
      var a, b :| Opposed(s.cache, s.nodes[name], s.globalDryRun, a, b);
      OpposedStays(s, first, name, a, b);
      SharedTaintNeverSettles(RunAll(s, first), later, name, a, b);
    }
  }
}
