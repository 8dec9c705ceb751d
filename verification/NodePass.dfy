/** One pass of a node over its rules: a closed form for where it ends, whatever the order. */
module NodePass {
  import opened Model
  import opened Sequences
  import opened Selectors
  import opened Evaluation
  import opened Reconcile

  /** No two of these rules manage the same (key, effect). */
  ghost predicate DistinctTaints(cache: map<string, Rule>, names: set<string>) {
    forall q, r :: q in names && r in names && q in cache && r in cache && q != r
                   ==> !SameTaint(cache[q].spec.taint, cache[r].spec.taint)
  }

  /** On the node as it was, the rule is evaluated and takes this action. */
  predicate Takes(n: Node, cache: map<string, Rule>, r: string, dry: bool, action: Action) {
    r in cache && !Skipped(n, r, cache[r].spec, dry) && Decide(cache[r].spec, n) == action
  }

  /** The taints a pass of these rules ends with: the old ones that no satisfied rule manages, and one
      for each unsatisfied rule that lacked its own. */
  ghost function FinalTaints(n: Node, cache: map<string, Rule>, done: set<string>, dry: bool): set<Taint> {
    (set t | t in n.taints
             && !exists r :: r in done && Takes(n, cache, r, dry, Remove) && SameTaint(t, cache[r].spec.taint))
    + (set r | r in done && Takes(n, cache, r, dry, Add) :: cache[r].spec.taint)
  }

  predicate NewlyComplete(n: Node, cache: map<string, Rule>, r: string, dry: bool) {
    Takes(n, cache, r, dry, Remove) && cache[r].spec.mode == BootstrapOnly
  }

  ghost function NewKeys(n: Node, cache: map<string, Rule>, done: set<string>, dry: bool): set<string> {
    set r | r in done && NewlyComplete(n, cache, r, dry) :: BootstrapKey(r)
  }

  function AllTrue(keys: set<string>): map<string, string> {
    map k | k in keys :: "true"
  }

  /** ... and one completion annotation for each bootstrap-only rule whose taint it removed. */
  ghost function FinalAnnotations(
    n: Node, cache: map<string, Rule>, done: set<string>, dry: bool): map<string, string> {
    n.annotations + AllTrue(NewKeys(n, cache, done, dry))
  }

  function TaintSet(n: Node): set<Taint> {
    set t | t in n.taints
  }

  /** The node n has become m, with exactly these rules done. */
  ghost predicate Reached(n: Node, m: Node, cache: map<string, Rule>, done: set<string>, dry: bool) {
    && m.labels == n.labels && m.conditions == n.conditions
    && TaintSet(m) == FinalTaints(n, cache, done, dry)
    && m.annotations == FinalAnnotations(n, cache, done, dry)
  }

  lemma FinalTaintPresence(n: Node, m: Node, cache: map<string, Rule>, done: set<string>, dry: bool, r: string)
    requires r in cache && DistinctTaints(cache, done + {r})
    requires TaintSet(m) == FinalTaints(n, cache, done, dry)
    ensures HasTaint(m.taints, cache[r].spec.taint)
            <==> if r in done && Takes(n, cache, r, dry, Remove) then false
                 else HasTaint(n.taints, cache[r].spec.taint) || (r in done && Takes(n, cache, r, dry, Add))
  {
    var spec := cache[r].spec.taint;
    if HasTaint(m.taints, spec) {
      var t :| t in m.taints && SameTaint(t, spec);
      assert t in FinalTaints(n, cache, done, dry);
    }
    if HasTaint(n.taints, spec) && !(r in done && Takes(n, cache, r, dry, Remove)) {
      var t :| t in n.taints && SameTaint(t, spec);
      assert t in FinalTaints(n, cache, done, dry);
      assert t in TaintSet(m);
    }
    if r in done && Takes(n, cache, r, dry, Add) {
      assert spec in FinalTaints(n, cache, done, dry);
      assert spec in TaintSet(m);
    }
  }

  lemma FinalCompletion(n: Node, cache: map<string, Rule>, done: set<string>, dry: bool, r: string)
    ensures BootstrapKey(r) in FinalAnnotations(n, cache, done, dry)
            <==> Completed(n, r) || (r in done && NewlyComplete(n, cache, r, dry))
  {
    if BootstrapKey(r) in FinalAnnotations(n, cache, done, dry) && !Completed(n, r) {
      var q :| q in done && NewlyComplete(n, cache, q, dry) && BootstrapKey(q) == BootstrapKey(r);
      BootstrapKeyInjective(q, r);
    }
  }

  /** A rule not yet done still sees what it would have seen at the start. */
  lemma UndoneSeesTheStart(n: Node, m: Node, cache: map<string, Rule>, done: set<string>, dry: bool, r: string)
    requires r in cache && r !in done && DistinctTaints(cache, done + {r})
    requires Reached(n, m, cache, done, dry)
    ensures Skipped(m, r, cache[r].spec, dry) == Skipped(n, r, cache[r].spec, dry)
    ensures Decide(cache[r].spec, m) == Decide(cache[r].spec, n)
  {
    FinalTaintPresence(n, m, cache, done, dry, r);
    FinalCompletion(n, cache, done, dry, r);
  }

  /** The copy and the stored node agree on everything a rule looks at. */
  predicate InStep(v: View) {
    && v.copy.taints == v.stored.taints && v.copy.claims == v.stored.claims
    && v.copy.labels == v.stored.labels && v.copy.conditions == v.stored.conditions
  }

  lemma StepReaches(n: Node, v: View, cache: map<string, Rule>, done: set<string>, r: string, name: string, dry: bool)
    requires r in cache && r !in done && DistinctTaints(cache, done + {r})
    requires InStep(v) && Reached(n, v.stored, cache, done, dry)
    requires !Skipped(v.stored, r, cache[r].spec, dry)
    ensures var after := Enforce(r, cache[r].spec, name, v, {});
            InStep(after) && Reached(n, after.stored, cache, done + {r}, dry)
  {
    var spec := cache[r].spec;
    var after := Enforce(r, spec, name, v, {});
    UndoneSeesTheStart(n, v.stored, cache, done, dry, r);
    var action := Decide(spec, v.copy);
    assert action == Decide(spec, n) && Takes(n, cache, r, dry, action);
    WithoutMembers(v.copy.taints, spec.taint);
    StepTaints(n, v.stored, after.stored, cache, done, r, dry, action);
    StepAnnotations(n, v.stored, after.stored, cache, done, r, dry);
  }

  /** A rule among these removed the taint; a rule among these added it. */
  ghost predicate Gone(n: Node, cache: map<string, Rule>, done: set<string>, dry: bool, t: Taint) {
    exists r :: r in done && Takes(n, cache, r, dry, Remove) && SameTaint(t, cache[r].spec.taint)
  }

  ghost predicate Added(n: Node, cache: map<string, Rule>, done: set<string>, dry: bool, t: Taint) {
    exists r :: r in done && Takes(n, cache, r, dry, Add) && t == cache[r].spec.taint
  }

  lemma FinalTaintsMeaning(n: Node, cache: map<string, Rule>, done: set<string>, dry: bool, t: Taint)
    ensures t in FinalTaints(n, cache, done, dry)
            <==> (t in n.taints && !Gone(n, cache, done, dry, t)) || Added(n, cache, done, dry, t)
  {
  }

  lemma OneMoreRule(n: Node, cache: map<string, Rule>, done: set<string>, dry: bool, r: string, t: Taint)
    ensures Gone(n, cache, done + {r}, dry, t)
            <==> Gone(n, cache, done, dry, t) || (Takes(n, cache, r, dry, Remove) && SameTaint(t, cache[r].spec.taint))
    ensures Added(n, cache, done + {r}, dry, t)
            <==> Added(n, cache, done, dry, t) || (Takes(n, cache, r, dry, Add) && t == cache[r].spec.taint)
  {
  }

  lemma StepTaints(
    n: Node, m: Node, m': Node, cache: map<string, Rule>, done: set<string>, r: string, dry: bool, action: Action)
    requires r in cache && r !in done && DistinctTaints(cache, done + {r})
    requires TaintSet(m) == FinalTaints(n, cache, done, dry) && Takes(n, cache, r, dry, action)
    requires m'.taints == Act(action, m, r, cache[r].spec.taint).taints
    ensures TaintSet(m') == FinalTaints(n, cache, done + {r}, dry)
  {
    WithoutMembers(m.taints, cache[r].spec.taint);
    forall t ensures t in TaintSet(m') <==> t in FinalTaints(n, cache, done + {r}, dry) {
      assert t in TaintSet(m) <==> t in FinalTaints(n, cache, done, dry);
      FinalTaintsMeaning(n, cache, done, dry, t);
      FinalTaintsMeaning(n, cache, done + {r}, dry, t);
      OneMoreRule(n, cache, done, dry, r, t);
    }
  }

  lemma NewKeysStep(n: Node, cache: map<string, Rule>, done: set<string>, r: string, dry: bool)
    ensures NewKeys(n, cache, done + {r}, dry)
            == NewKeys(n, cache, done, dry) + if NewlyComplete(n, cache, r, dry) then {BootstrapKey(r)} else {}
  {
  }

  lemma AllTrueStep(base: map<string, string>, keys: set<string>, k: string)
    ensures (base + AllTrue(keys))[k := "true"] == base + AllTrue(keys + {k})
  {
  }

  lemma CompletedOnce(n: Node, m: Node, cache: map<string, Rule>, done: set<string>, r: string, dry: bool)
    requires r !in done && NewlyComplete(n, cache, r, dry) && m.annotations == FinalAnnotations(n, cache, done, dry)
    ensures Complete(m, r).annotations == m.annotations[BootstrapKey(r) := "true"]
  {
  }

  lemma StepAnnotations(n: Node, m: Node, m': Node, cache: map<string, Rule>, done: set<string>, r: string, dry: bool)
    requires r !in done && m.annotations == FinalAnnotations(n, cache, done, dry)
    requires m'.annotations ==
             if NewlyComplete(n, cache, r, dry) then Complete(m, r).annotations else m.annotations
    ensures m'.annotations == FinalAnnotations(n, cache, done + {r}, dry)
  {
    NewKeysStep(n, cache, done, r, dry);
    if NewlyComplete(n, cache, r, dry) {
      CompletedOnce(n, m, cache, done, r, dry);
      AllTrueStep(n.annotations, NewKeys(n, cache, done, dry), BootstrapKey(r));
    } else {
      assert NewKeys(n, cache, done + {r}, dry) == NewKeys(n, cache, done, dry);
    }
  }

  /** With every call going through, a pass over distinct taints ends in the closed form. */
  lemma {:induction false} PassReaches(n: Node, cache: map<string, Rule>, order: seq<string>, name: string, dry: bool)
    requires Distinct(order) && forall r :: r in order ==> r in cache
    requires DistinctTaints(cache, set r | r in order)
    ensures var v := PassView(Fresh(n), cache, order, name, dry, {});
            InStep(v) && Reached(n, v.stored, cache, (set r | r in order), dry)
  {
    var all := set r | r in order;
    if order == [] {
      assert TaintSet(n) == FinalTaints(n, cache, all, dry);
      assert n.annotations == FinalAnnotations(n, cache, all, dry);
    } else {
      var init, r := order[..|order| - 1], order[|order| - 1];
      var done := set q | q in init;
      assert order == init + [r];
      assert all == done + {r};
      PassReaches(n, cache, init, name, dry);
      var v := PassView(Fresh(n), cache, init, name, dry, {});
      if Skipped(v.stored, r, cache[r].spec, dry) {
        UndoneSeesTheStart(n, v.stored, cache, done, dry, r);
        SkippedAddsNothing(n, cache, done, dry, r);
      } else {
        StepReaches(n, v, cache, done, r, name, dry);
      }
    }
  }

  lemma SkippedAddsNothing(n: Node, cache: map<string, Rule>, done: set<string>, dry: bool, r: string)
    requires r in cache && Skipped(n, r, cache[r].spec, dry)
    ensures FinalTaints(n, cache, done + {r}, dry) == FinalTaints(n, cache, done, dry)
    ensures FinalAnnotations(n, cache, done + {r}, dry) == FinalAnnotations(n, cache, done, dry)
  {
    assert forall q, action ::
             q in done + {r} && Takes(n, cache, q, dry, action) <==> q in done && Takes(n, cache, q, dry, action);
  }

  /** The order in which the cache is iterated does not matter: same taints, same annotations. */
  lemma {:induction false} OrderIndependence(
    n: Node, cache: map<string, Rule>, order: seq<string>, other: seq<string>, name: string, dry: bool)
    requires Listing(order, Applicable(cache, n.labels)) && Listing(other, Applicable(cache, n.labels))
    requires DistinctTaints(cache, Applicable(cache, n.labels))
    ensures var a := PassView(Fresh(n), cache, order, name, dry, {}).stored;
            var b := PassView(Fresh(n), cache, other, name, dry, {}).stored;
            TaintSet(a) == TaintSet(b) && a.annotations == b.annotations
  {
    assert (set r | r in order) == (set r | r in other) == Applicable(cache, n.labels);
    PassReaches(n, cache, order, name, dry);
    PassReaches(n, cache, other, name, dry);
  }

  /** Nothing is left for these rules to do on the node. */
  ghost predicate AtRest(n: Node, cache: map<string, Rule>, names: seq<string>, dry: bool) {
    forall r :: r in names && r in cache ==> Skipped(n, r, cache[r].spec, dry) || Decide(cache[r].spec, n) == Keep
  }

  lemma {:induction false} RestingPassWritesNothing(
    n: Node, cache: map<string, Rule>, order: seq<string>, name: string, dry: bool, faults: Faults)
    requires (forall r :: r in order ==> r in cache) && AtRest(n, cache, order, dry)
    ensures PassView(Fresh(n), cache, order, name, dry, faults) == Fresh(n)
  {
    if order != [] {
      assert order == order[..|order| - 1] + [order[|order| - 1]];
      RestingPassWritesNothing(n, cache, order[..|order| - 1], name, dry, faults);
    }
  }

  /** A second pass, in any order and whatever fails, writes no taint and no annotation. */
  lemma SecondPassWritesNothing(
    n: Node, cache: map<string, Rule>, order: seq<string>, again: seq<string>, name: string, dry: bool, faults: Faults)
    requires Listing(order, Applicable(cache, n.labels)) && Listing(again, Applicable(cache, n.labels))
    requires DistinctTaints(cache, Applicable(cache, n.labels))
    ensures var once := PassView(Fresh(n), cache, order, name, dry, {}).stored;
            PassView(Fresh(once), cache, again, name, dry, faults) == View(once, once, 0)
  {
    var done := Applicable(cache, n.labels);
    assert (set r | r in order) == done;
    PassReaches(n, cache, order, name, dry);
    var once := PassView(Fresh(n), cache, order, name, dry, {}).stored;
    forall r | r in again ensures Skipped(once, r, cache[r].spec, dry) || Decide(cache[r].spec, once) == Keep {
      assert done + {r} == done;
      FinalTaintPresence(n, once, cache, done, dry, r);
      FinalCompletion(n, cache, done, dry, r);
    }
    RestingPassWritesNothing(once, cache, again, name, dry, faults);
  }

  // ---------- the emergency off-switch ----------

  lemma {:induction false} SwitchedOffPass(
    rules: map<string, Rule>, v: View, cache: map<string, Rule>, order: seq<string>, name: string, faults: Faults)
    ensures PassView(v, cache, order, name, true, faults) == v
    ensures PassCache(v, cache, order, name, true, faults) == cache
    ensures PassRules(rules, v, cache, order, name, true, faults) == rules
  {
    if order != [] {
      SwitchedOffPass(rules, v, cache, order[..|order| - 1], name, faults);
    }
  }

  /** Under global dry run a node reconcile changes nothing at all ... */
  lemma SwitchStopsNodeReconciles(s: Cluster, name: string, order: seq<string>, faults: Faults)
    requires s.globalDryRun && NodeOrder(s, name, order)
    ensures ReconcileNode(s, name, order, faults) == s
  {
    if name in s.nodes {
      SwitchedOffPass(s.rules, Fresh(s.nodes[name]), s.cache, order, name, faults);
      assert s.nodes[name := s.nodes[name]] == s.nodes;
    }
  }

  function Switched(o: Outcome, on: bool): Outcome {
    o.(state := o.state.(globalDryRun := on))
  }

  lemma PublishIgnoresSwitch(s: Cluster, name: string, status: Status, faults: Faults, on: bool)
    requires name in s.rules
    ensures PublishAndPrune(s.(globalDryRun := on), name, status, faults)
            == Switched(PublishAndPrune(s, name, status, faults), on)
  {
  }

  lemma ProcessIgnoresSwitch(s: Cluster, name: string, order: seq<string>, faults: Faults, on: bool)
    requires name in s.rules && Listing(order, s.nodes.Keys)
    ensures Process(s.(globalDryRun := on), name, order, faults) == Switched(Process(s, name, order, faults), on)
  {
    var rule := s.rules[name];
    if ListForProcessing !in faults {
      if rule.spec.dryRun {
        PublishIgnoresSwitch(s, name, rule.status.(dryRunResults := Some(Simulated(s.nodes, rule.spec))), faults, on);
      } else {
        var evaluated := s.(nodes := Evaluated(s.nodes, s.nodes.Keys, name, rule.spec, faults));
        PublishIgnoresSwitch(evaluated, name, ProcessedStatus(rule, s.nodes, order, name, faults), faults, on);
      }
    }
  }

  lemma SweepIgnoresSwitch(s: Cluster, name: string, faults: Faults, on: bool)
    requires name in s.rules && name in s.cache
    ensures Sweep(s.(globalDryRun := on), name, faults) == Switched(Sweep(s, name, faults), on)
  {
  }

  lemma AdoptIgnoresSwitch(s: Cluster, name: string, order: seq<string>, faults: Faults, on: bool)
    requires name in s.rules && Listing(order, s.nodes.Keys)
    ensures Adopt(s.(globalDryRun := on), name, order, faults) == Switched(Adopt(s, name, order, faults), on)
  {
    var rule := s.rules[name];
    if name in s.cache && SelectorChanged(rule.spec.selector, s.cache[name].spec.selector) {
      var swept := Sweep(s, name, faults);
      SweepIgnoresSwitch(s, name, faults, on);
      assert swept.state.nodes.Keys == s.nodes.Keys;
      ProcessIgnoresSwitch(swept.state.(cache := swept.state.cache[name := rule]), name, order, faults, on);
    } else {
      ProcessIgnoresSwitch(s.(cache := s.cache[name := rule]), name, order, faults, on);
    }
  }

  /** ... but a rule reconcile does not look at the switch. */
  lemma {:induction false} SwitchDoesNotStopRuleReconciles(
    s: Cluster, name: string, order: seq<string>, faults: Faults, on: bool)
    requires Listing(order, s.nodes.Keys)
    ensures ReconcileRule(s.(globalDryRun := on), name, order, faults)
            == Switched(ReconcileRule(s, name, order, faults), on)
  {
    if name in s.rules {
      var guarded := s.rules[name].(finalizers := WithFinalizer(s.rules[name].finalizers));
      AdoptIgnoresSwitch(s, name, order, faults, on);
      AdoptIgnoresSwitch(s.(rules := s.rules[name := guarded]), name, order, faults, on);
    }
  }
}
