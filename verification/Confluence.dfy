/** Two reconcilers write the same taints, one node by node, the other rule by rule.
    However their moves are interleaved, they end in the same place. */
module Confluence {
  import opened Model
  import opened Evaluation
  import opened Reconcile
  import opened NodePass
  import opened Runs

  ghost predicate AllActiveContinuous(rules: map<string, Rule>) {
    forall r :: r in rules ==> rules[r].spec.mode == Continuous && !rules[r].spec.dryRun
  }

  /** On every node, the rules that select it manage different taints. */
  ghost predicate DistinctOnNodes(rules: map<string, Rule>, nodes: map<string, Node>) {
    forall n :: n in nodes ==> DistinctTaints(rules, Applicable(rules, nodes[n].labels))
  }

  lemma {:induction false} PassReadsSpecsOnly(
    v: View, a: map<string, Rule>, b: map<string, Rule>, order: seq<string>, name: string, dry: bool, faults: Faults)
    requires SameSpecs(a, b)
    ensures PassView(v, a, order, name, dry, faults) == PassView(v, b, order, name, dry, faults)
  {
    if order != [] {
      PassReadsSpecsOnly(v, a, b, order[..|order| - 1], name, dry, faults);
    }
  }

  // ---------- rules done on a node, again and again ----------

  /** A rule that has been done finds nothing to do; another one adds itself to those done. */
  lemma AnyTurnReaches(n: Node, v: View, rules: map<string, Rule>, done: set<string>, r: string, name: string)
    requires r in rules && DistinctTaints(rules, done + {r}) && AllActiveContinuous(rules)
    requires InStep(v) && Reached(n, v.stored, rules, done, false)
    ensures var after := Enforce(r, rules[r].spec, name, v, {});
            InStep(after) && Reached(n, after.stored, rules, done + {r}, false)
  {
    if r in done {
      FinalTaintPresence(n, v.stored, rules, done, false, r);
      assert done + {r} == done;
    } else {
      StepReaches(n, v, rules, done, r, name, false);
    }
  }

  lemma {:induction false} PassReachesOn(
    n: Node, m: Node, rules: map<string, Rule>, done: set<string>, order: seq<string>, name: string)
    requires Reached(n, m, rules, done, false) && AllActiveContinuous(rules)
    requires (forall r :: r in order ==> r in rules) && DistinctTaints(rules, done + set r | r in order)
    ensures var v := PassView(Fresh(m), rules, order, name, false, {});
            InStep(v) && Reached(n, v.stored, rules, done + (set r | r in order), false)
  {
    var all := done + set r | r in order;
    if order == [] {
      assert all == done;
    } else {
      var init, r := order[..|order| - 1], order[|order| - 1];
      var past := done + set q | q in init;
      assert order == init + [r];
      assert all == past + {r};
      PassReachesOn(n, m, rules, done, init, name);
      AnyTurnReaches(n, PassView(Fresh(m), rules, init, name, false, {}), rules, past, r, name);
    }
  }

  // ---------- any interleaving ----------

  /** The move deals with the rule on the node. */
  predicate Deals(m: Move, r: string, n: string) {
    match m
    case OnNode(node, _, _) => node == n
    case OnRule(rule, _, _) => rule == r
  }

  ghost predicate DoneBy(moves: seq<Move>, r: string, n: string) {
    exists m :: m in moves && Deals(m, r, n)
  }

  /** Every node has been reconciled against, or with, every rule that selects it. */
  ghost predicate Covers(s: Cluster, moves: seq<Move>) {
    forall n, r :: n in s.nodes && r in Applicable(s.rules, s.nodes[n].labels) ==> DoneBy(moves, r, n)
  }

  ghost function DoneOn(
    rules: map<string, Rule>, labels: map<string, string>, moves: seq<Move>, n: string): set<string>
  {
    set r | r in Applicable(rules, labels) && DoneBy(moves, r, n)
  }

  /** The cache is complete, no edit is pending, and all rules are live and continuous. */
  ghost predicate Steadied(s: Cluster, rules: map<string, Rule>) {
    && Frozen(s) && SameSpecs(s.rules, rules) && SameSpecs(s.cache, rules)
    && AllActiveContinuous(rules) && !s.globalDryRun
  }

  ghost predicate Through(n0: Node, s: Cluster, n: string, rules: map<string, Rule>, past: set<string>) {
    n in s.nodes && Reached(n0, s.nodes[n], rules, past, false)
  }

  lemma SteadiedMove(s: Cluster, m: Move, rules: map<string, Rule>)
    requires CanMove(s, m) && m.faults == {} && Steadied(s, rules)
    ensures Steadied(Perform(s, m), rules)
  {
    if m.OnNode? {
      if m.node in s.nodes {
        NodeMoveEffect(s, m.node, m.order, {});
      }
    } else if m.rule in s.rules {
      FrozenRuleReconcile(s, m.rule, m.order, {});
    }
  }

  ghost function DealtWith(rules: map<string, Rule>, labels: map<string, string>, m: Move, n: string): set<string> {
    set r | r in Applicable(rules, labels) && Deals(m, r, n)
  }

  lemma NodeMoveReaches(s: Cluster, m: Move, rules: map<string, Rule>, past: set<string>, n: string, n0: Node)
    requires CanMove(s, m) && m.OnNode? && m.faults == {} && Steadied(s, rules)
    requires past <= Applicable(rules, n0.labels) && DistinctTaints(rules, Applicable(rules, n0.labels))
    requires Through(n0, s, n, rules, past)
    ensures Through(n0, Perform(s, m), n, rules, past + DealtWith(rules, n0.labels, m, n))
  {
    if m.node == n {
      SameApplicable(s.cache, rules, n0.labels);
      PassReadsSpecsOnly(Fresh(s.nodes[n]), s.cache, rules, m.order, n, false, {});
      assert past + (set r | r in m.order) == Applicable(rules, n0.labels);
      assert past + DealtWith(rules, n0.labels, m, n) == Applicable(rules, n0.labels);
      PassReachesOn(n0, s.nodes[n], rules, past, m.order, n);
    } else {
      assert past + DealtWith(rules, n0.labels, m, n) == past;
    }
  }

  /** What a rule reconcile without failures does to one node. */
  lemma RuleMoveOnNode(s: Cluster, m: Move, rules: map<string, Rule>, n: string)
    requires CanMove(s, m) && m.OnRule? && m.faults == {} && Steadied(s, rules) && n in s.nodes
    ensures var after := Perform(s, m);
            && n in after.nodes
            && after.nodes[n] == if m.rule in Applicable(rules, s.nodes[n].labels)
                                 then Enforce(m.rule, rules[m.rule].spec, n, Fresh(s.nodes[n]), {}).stored
                                 else s.nodes[n]
  {
    if m.rule in s.rules {
      FrozenRuleReconcile(s, m.rule, m.order, {});
    }
  }

  lemma RuleMoveReaches(s: Cluster, m: Move, rules: map<string, Rule>, past: set<string>, n: string, n0: Node)
    requires CanMove(s, m) && m.OnRule? && m.faults == {} && Steadied(s, rules)
    requires past <= Applicable(rules, n0.labels) && DistinctTaints(rules, Applicable(rules, n0.labels))
    requires Through(n0, s, n, rules, past)
    ensures Through(n0, Perform(s, m), n, rules, past + DealtWith(rules, n0.labels, m, n))
  {
    RuleMoveOnNode(s, m, rules, n);
    if m.rule in Applicable(rules, n0.labels) {
      assert past + DealtWith(rules, n0.labels, m, n) == past + {m.rule};
      AnyTurnReaches(n0, Fresh(s.nodes[n]), rules, past, m.rule, n);
    } else {
      assert past + DealtWith(rules, n0.labels, m, n) == past;
    }
  }

  lemma MoveReaches(s: Cluster, m: Move, rules: map<string, Rule>, past: set<string>, n: string, n0: Node)
    requires CanMove(s, m) && m.faults == {} && Steadied(s, rules)
    requires past <= Applicable(rules, n0.labels) && DistinctTaints(rules, Applicable(rules, n0.labels))
    requires Through(n0, s, n, rules, past)
    ensures Steadied(Perform(s, m), rules)
    ensures Through(n0, Perform(s, m), n, rules, past + DealtWith(rules, n0.labels, m, n))
  {
    SteadiedMove(s, m, rules);
    if m.OnNode? {
      NodeMoveReaches(s, m, rules, past, n, n0);
    } else {
      RuleMoveReaches(s, m, rules, past, n, n0);
    }
  }

  lemma DoneByFirst(rules: map<string, Rule>, labels: map<string, string>, moves: seq<Move>, n: string)
    requires moves != []
    ensures DoneOn(rules, labels, moves, n)
            == DealtWith(rules, labels, moves[0], n) + DoneOn(rules, labels, moves[1..], n)
  {
    assert moves == [moves[0]] + moves[1..];
    forall r ensures DoneBy(moves, r, n) <==> Deals(moves[0], r, n) || DoneBy(moves[1..], r, n) {
      if DoneBy(moves[1..], r, n) {
        var m :| m in moves[1..] && Deals(m, r, n);
        assert m in moves;
      }
    }
  }

  /** Any run without failures takes a node through the rules it dealt with there, in the closed form. */
  lemma {:induction false} RunReaches(
    s: Cluster, moves: seq<Move>, past: set<string>, end: set<string>, n: string, n0: Node, rules: map<string, Rule>)
    requires CanRun(s, moves) && (forall m :: m in moves ==> m.faults == {}) && Steadied(s, rules)
    requires end == past + DoneOn(rules, n0.labels, moves, n)
    requires past <= Applicable(rules, n0.labels) && DistinctTaints(rules, Applicable(rules, n0.labels))
    requires Through(n0, s, n, rules, past)
    ensures Through(n0, RunAll(s, moves), n, rules, end)
    decreases |moves|
  {
    if moves == [] {
      assert end == past;
    } else {
      var m := moves[0];
      var now := past + DealtWith(rules, n0.labels, m, n);
      assert m in moves && forall x :: x in moves[1..] ==> x in moves;
      DoneByFirst(rules, n0.labels, moves, n);
      MoveReaches(s, m, rules, past, n, n0);
      assert end == now + DoneOn(rules, n0.labels, moves[1..], n);
      RunReaches(Perform(s, m), moves[1..], now, end, n, n0, rules);
    }
  }

  lemma NothingDone(n: Node, rules: map<string, Rule>)
    ensures Reached(n, n, rules, {}, false)
  {
    assert TaintSet(n) == FinalTaints(n, rules, {}, false);
    assert n.annotations == FinalAnnotations(n, rules, {}, false);
  }

  lemma CoveringRunReaches(s: Cluster, moves: seq<Move>, n: string)
    requires Steadied(s, s.rules) && DistinctOnNodes(s.rules, s.nodes) && n in s.nodes
    requires CanRun(s, moves) && (forall m :: m in moves ==> m.faults == {}) && Covers(s, moves)
    ensures Through(s.nodes[n], RunAll(s, moves), n, s.rules, Applicable(s.rules, s.nodes[n].labels))
  {
    NothingDone(s.nodes[n], s.rules);
    assert {} + DoneOn(s.rules, s.nodes[n].labels, moves, n) == Applicable(s.rules, s.nodes[n].labels);
    RunReaches(s, moves, {}, Applicable(s.rules, s.nodes[n].labels), n, s.nodes[n], s.rules);
  }

  /** Any two runs of node and rule reconciles without failures, interleaved and repeated as they may be, that
      deal with every rule on every node it selects, end with the same taints and annotations on every node. */
  lemma {:induction false} RunsConfluence(s: Cluster, first: seq<Move>, second: seq<Move>)
    requires Steadied(s, s.rules) && DistinctOnNodes(s.rules, s.nodes)
    requires CanRun(s, first) && (forall m :: m in first ==> m.faults == {}) && Covers(s, first)
    requires CanRun(s, second) && (forall m :: m in second ==> m.faults == {}) && Covers(s, second)
    ensures forall n :: n in s.nodes ==>
              && n in RunAll(s, first).nodes && n in RunAll(s, second).nodes
              && TaintSet(RunAll(s, first).nodes[n]) == TaintSet(RunAll(s, second).nodes[n])
              && RunAll(s, first).nodes[n].annotations == RunAll(s, second).nodes[n].annotations
  {
    forall n | n in s.nodes
      ensures n in RunAll(s, first).nodes && n in RunAll(s, second).nodes
      ensures TaintSet(RunAll(s, first).nodes[n]) == TaintSet(RunAll(s, second).nodes[n])
      ensures RunAll(s, first).nodes[n].annotations == RunAll(s, second).nodes[n].annotations
    {
      CoveringRunReaches(s, first, n);
      CoveringRunReaches(s, second, n);
    }
  }

  // ---------- by rows and by columns ----------

  function NodeNames(moves: seq<Move>): set<string> {
    set m | m in moves && m.OnNode? :: m.node
  }

  function RuleNames(moves: seq<Move>): set<string> {
    set m | m in moves && m.OnRule? :: m.rule
  }

  /** In particular: every node against all rules, or every rule against all nodes, in whatever orders. */
  lemma {:induction false} RowColumnConfluence(s: Cluster, columns: seq<Move>, rows: seq<Move>)
    requires Steadied(s, s.rules) && DistinctOnNodes(s.rules, s.nodes)
    requires CanRun(s, columns) && (forall m :: m in columns ==> m.OnNode? && m.faults == {})
    requires CanRun(s, rows) && (forall m :: m in rows ==> m.OnRule? && m.faults == {})
    requires NodeNames(columns) >= s.nodes.Keys && RuleNames(rows) >= s.rules.Keys
    ensures forall n :: n in s.nodes ==>
              && n in RunAll(s, columns).nodes && n in RunAll(s, rows).nodes
              && TaintSet(RunAll(s, columns).nodes[n]) == TaintSet(RunAll(s, rows).nodes[n])
  {
    forall n, r | n in s.nodes && r in Applicable(s.rules, s.nodes[n].labels)
      ensures DoneBy(columns, r, n) && DoneBy(rows, r, n)
    {
      assert n in NodeNames(columns) && r in RuleNames(rows);
      var c :| c in columns && c.OnNode? && c.node == n;
      var w :| w in rows && w.OnRule? && w.rule == r;
      assert Deals(c, r, n) && Deals(w, r, n);
    }
    RunsConfluence(s, columns, rows);
  }
}
