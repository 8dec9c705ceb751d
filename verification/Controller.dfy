/** The controller itself: objects that change in place, loops over lists, calls that may fail. Every
    method is tied to the specification of an atomic reconcile. */
module Controller {
  import opened Model
  import opened Sequences
  import opened Selectors
  import opened Evaluation
  import opened Reconcile
  import opened StatusLists

  /** The stored nodes and rules. */
  class ApiServer {
    var nodes: map<string, Node>
    var rules: map<string, Rule>

    constructor (nodes: map<string, Node>, rules: map<string, Rule>)
      ensures this.nodes == nodes && this.rules == rules
    {
      this.nodes, this.rules := nodes, rules;
    }

    /** The names of all nodes, once each, in an order of the server's choosing. */
    method ListNodes() returns (names: seq<string>)
      ensures Listing(names, nodes.Keys)
    {
      names := AnyListing(nodes.Keys);
    }
  }

  method AnyListing(keys: set<string>) returns (names: seq<string>)
    ensures Listing(names, keys)
  {
    names := [];
    var rest := keys;
    while rest != {}
      invariant rest <= keys && Distinct(names)
      invariant forall n :: n in names <==> n in keys && n !in rest
      decreases rest
    {
      var n :| n in rest;
      names, rest := names + [n], rest - {n};
    }
  }

  /** The copy of a node that a reconcile works on. */
  class NodeObject {
    const name: string
    var value: Node

    constructor (name: string, value: Node)
      ensures this.name == name && this.value == value
    {
      this.name, this.value := name, value;
    }
  }

  class ReadinessGateController {
    const api: ApiServer
    var ruleCache: map<string, Rule>
    var globalDryRun: bool

    constructor (api: ApiServer)
      ensures this.api == api && ruleCache == map[] && !globalDryRun
    {
      this.api, ruleCache, globalDryRun := api, map[], false;
    }

    ghost function State(): Cluster
      reads this, api
    {
      Cluster(api.nodes, api.rules, ruleCache, globalDryRun)
    }

    // ---------- reading a node ----------

    static method GetConditionStatus(n: Node, kind: string) returns (status: string)
      ensures status == ConditionStatus(n.conditions, kind) && ReadsAs(n.conditions, kind, status)
    {
      for i := 0 to |n.conditions|
        invariant ConditionStatus(n.conditions, kind) == ConditionStatus(n.conditions[i..], kind)
        invariant forall j :: 0 <= j < i ==> n.conditions[j].kind != kind
      {
        assert n.conditions[i] == Condition(n.conditions[i].kind, n.conditions[i].status);
        if n.conditions[i].kind == kind {
          return n.conditions[i].status;
        }
        assert n.conditions[i..][1..] == n.conditions[i + 1..];
      }
      return UNKNOWN;
    }

    static method HasTaintBySpec(n: Node, spec: Taint) returns (has: bool)
      ensures has <==> HasTaint(n.taints, spec)
    {
      for i := 0 to |n.taints|
        invariant forall j :: 0 <= j < i ==> !SameTaint(n.taints[j], spec)
      {
        if n.taints[i].key == spec.key && n.taints[i].effect == spec.effect {
          assert n.taints[i] in n.taints;
          return true;
        }
      }
      return false;
    }

    /** All results, in order, and whether every requirement is met. */
    static method EvaluateConditions(spec: RuleSpec, n: Node) returns (satisfied: bool, results: seq<ConditionResult>)
      ensures satisfied <==> Ready(spec, n.conditions)
      ensures results == Results(spec, n.conditions) && Reports(results, spec, n.conditions)
      ensures satisfied <==> forall x :: x in results ==> x.satisfied
    {
      satisfied, results := true, [];
      for i := 0 to |spec.conditions|
        invariant satisfied <==> forall j :: 0 <= j < i ==> Met(spec.conditions[j], n.conditions)
        invariant results == Results(spec, n.conditions)[..i]
      {
        var c := spec.conditions[i];
        var status := GetConditionStatus(n, c.kind);
        if status != c.requiredStatus {
          satisfied := false;
        }
        results := results + [ConditionResult(c.kind, status, c.requiredStatus, status == c.requiredStatus,
            status == UNKNOWN)];
      }
      ResultsReport(spec, n.conditions);
    }

    /** No selector applies to every node, one in error to none. */
    static method RuleAppliesTo(selector: Option<LabelSelector>, n: Node) returns (applies: bool)
      ensures applies <==> Selects(selector, n.labels)
    {
      if selector.None? {
        return true;
      }
      if !Parseable(selector.value) {
        return false;
      }
      return Matches(selector.value, n.labels);
    }

    // ---------- changing taints ----------

    /** The patch replaces the stored list by the one in the copy; when it fails the copy is changed already. */
    method PatchTaintsOf(obj: NodeObject, fails: bool) returns (ok: bool)
      requires obj.name in api.nodes
      modifies api`nodes
      ensures ok == !fails
      ensures api.nodes == if fails then old(api.nodes)
                           else old(api.nodes)[obj.name := WithTaintsOf(old(api.nodes[obj.name]), obj.value)]
    {
      if fails {
        return false;
      }
      var stored := api.nodes[obj.name];
      api.nodes := api.nodes[obj.name := WithTaintsOf(stored, obj.value)];
      return true;
    }

    method AddTaintBySpec(obj: NodeObject, rule: string, spec: Taint, faults: Faults) returns (ok: bool)
      requires obj.name in api.nodes
      modifies obj`value, api`nodes
      ensures ok == (PatchTaints(rule, obj.name) !in faults)
      ensures obj.value == Tainted(old(obj.value), rule, spec)
      ensures obj.value == old(obj.value).(taints := old(obj.value.taints) + [spec], claims := obj.value.claims)
      ensures api.nodes == if !ok then old(api.nodes)
                           else old(api.nodes)[obj.name := WithTaintsOf(old(api.nodes[obj.name]), obj.value)]
    {
      obj.value := obj.value.(taints := obj.value.taints + [spec],
          claims := obj.value.claims + {Claim(rule, spec.key, spec.effect)});
      ok := PatchTaintsOf(obj, PatchTaints(rule, obj.name) in faults);
    }

    method RemoveTaintBySpec(obj: NodeObject, rule: string, spec: Taint, faults: Faults) returns (ok: bool)
      requires obj.name in api.nodes
      modifies obj`value, api`nodes
      ensures ok == (PatchTaints(rule, obj.name) !in faults)
      ensures obj.value == Untainted(old(obj.value), spec)
      ensures obj.value == old(obj.value).(taints := obj.value.taints, claims := obj.value.claims)
      ensures forall t :: t in obj.value.taints <==> t in old(obj.value.taints) && !SameTaint(t, spec)
      ensures api.nodes == if !ok then old(api.nodes)
                           else old(api.nodes)[obj.name := WithTaintsOf(old(api.nodes[obj.name]), obj.value)]
    {
      var taints := obj.value.taints;
      var newTaints := [];
      for i := 0 to |taints|
        invariant newTaints == Without(taints[..i], spec)
        modifies {}
      {
        FilterNext(taints, i, NotOf(spec));
        if !(taints[i].key == spec.key && taints[i].effect == spec.effect) {
          newTaints := newTaints + [taints[i]];
        }
      }
      assert taints[..|taints|] == taints;
      WithoutMembers(taints, spec);
      obj.value := obj.value.(taints := newTaints, claims := DropClaims(obj.value.claims, spec));
      ok := PatchTaintsOf(obj, PatchTaints(rule, obj.name) in faults);
    }

    // ---------- bootstrap completion ----------

    method IsBootstrapCompleted(name: string, rule: string) returns (completed: bool)
      ensures completed <==> name in api.nodes && Completed(api.nodes[name], rule)
    {
      completed := name in api.nodes && BootstrapKey(rule) in api.nodes[name].annotations;
    }

    /** The retry loop of the optimistic update when nobody interferes; its failure is only logged. */
    method MarkBootstrapCompleted(name: string, rule: string, faults: Faults)
      requires name in api.nodes
      modifies api`nodes
      ensures api.nodes == if MarkBootstrap(rule, name) in faults then old(api.nodes)
                           else old(api.nodes)[name := Complete(old(api.nodes[name]), rule)]
    {
      if MarkBootstrap(rule, name) !in faults {
        var stored := api.nodes[name];
        if BootstrapKey(rule) !in stored.annotations {
          stored := stored.(annotations := stored.annotations[BootstrapKey(rule) := "true"]);
        }
        api.nodes := api.nodes[name := stored];
      }
    }

    // ---------- status lists ----------

    static method RecordNodeFailure(status: Status, name: string) returns (after: Status)
      ensures after == WithFailure(status, name)
    {
      var failures := [];
      for i := 0 to |status.failures|
        invariant failures == FailuresExcept(status.failures[..i], name)
      {
        FilterNext(status.failures, i, NotOn(name));
        if status.failures[i].nodeName != name {
          failures := failures + [status.failures[i]];
        }
      }
      assert status.failures[..|status.failures|] == status.failures;
      after := status.(failures := failures + [NodeFailure(name, EVALUATION_ERROR)]);
    }

    static method UpdateNodeEvaluationStatus(
      status: Status, name: string, results: seq<ConditionResult>, taintStatus: TaintStatus) returns (after: Status)
      ensures after == status.(evaluations := Upsert(status.evaluations, NodeEvaluation(name, results, taintStatus)))
    {
      var es, e := status.evaluations, NodeEvaluation(name, results, taintStatus);
      var i := 0;
      while i < |es| && es[i].nodeName != name
        invariant i <= |es|
        invariant forall j :: 0 <= j < i ==> es[j].nodeName != name
      {
        i := i + 1;
      }
      if i == |es| {
        UpsertAppends(es, e);
        es := es + [e];
      } else {
        UpsertReplaces(es, e, i);
        es := es[i := e];
      }
      after := status.(evaluations := es);
    }

    // ---------- one rule, one node ----------

    method EvaluateRuleForNode(
      rule: string, r: Rule, obj: NodeObject, faults: Faults) returns (ok: bool, status: Status)
      requires obj.name in api.nodes
      modifies obj`value, api`nodes
      ensures var before := old(View(api.nodes[obj.name], obj.value, 0));
              var after := Enforce(rule, r.spec, obj.name, before, faults);
              && api.nodes == old(api.nodes)[obj.name := after.stored] && obj.value == after.copy
              && ok == !Fails(rule, r.spec, obj.name, before, faults)
              && status == if ok then WithEvaluation(r.status, r.spec, obj.name, after.copy) else r.status
    {
      var satisfied, results := EvaluateConditions(r.spec, obj.value);
      var has := HasTaintBySpec(obj.value, r.spec.taint);
      status := r.status;
      if satisfied && has {
        ok := RemoveTaintBySpec(obj, rule, r.spec.taint, faults);
        if !ok {
          return;
        }
        if r.spec.mode == BootstrapOnly {
          MarkBootstrapCompleted(obj.name, rule, faults);
        }
      } else if !satisfied && !has {
        ok := AddTaintBySpec(obj, rule, r.spec.taint, faults);
        if !ok {
          return;
        }
      }
      ok := true;
      var present := HasTaintBySpec(obj.value, r.spec.taint);
      status := UpdateNodeEvaluationStatus(status, obj.name, results, if present then Present else Absent);
    }

    // ---------- one node, all rules ----------

    method GetApplicableRulesForNode(n: Node) returns (order: seq<string>)
      ensures Listing(order, Applicable(ruleCache, n.labels))
    {
      var names := AnyListing(ruleCache.Keys);
      order := [];
      for i := 0 to |names|
        invariant Distinct(order)
        invariant forall r :: r in order <==> r in names[..i] && Selects(ruleCache[r].spec.selector, n.labels)
      {
        assert names[i] !in names[..i];
        var applies := RuleAppliesTo(ruleCache[names[i]].spec.selector, n);
        if applies {
          order := order + [names[i]];
        }
      }
    }

    method UpdateRuleStatus(name: string, status: Status, faults: Faults) returns (ok: bool)
      modifies api`rules
      ensures ok == (PublishStatus(name) !in faults && name in api.rules)
      ensures api.rules == if PublishStatus(name) in faults then old(api.rules)
              else WithStatus(old(api.rules), name, status)
      ensures ok ==>
                name in api.rules && api.rules == old(api.rules)[name := old(api.rules[name]).(
                  status := status.(conditions := old(api.rules[name].status.conditions)))]
    {
      if PublishStatus(name) in faults || name !in api.rules {
        return false;
      }
      var latest := api.rules[name];
      api.rules := api.rules[name := latest.(status := Publish(latest.status, status))];
      return true;
    }

    ghost function ProgressOn(obj: NodeObject): Progress
      reads this, api, obj
      requires obj.name in api.nodes
    {
      Progress(api.nodes[obj.name], obj.value, ruleCache, api.rules)
    }

    /** One turn of the loop below: skip, or evaluate, record and publish. */
    method ProcessNodeAgainstRule(obj: NodeObject, r: string, faults: Faults)
      requires obj.name in api.nodes && r in ruleCache
      modifies this`ruleCache, obj`value, api
      ensures obj.name in api.nodes && api.nodes == old(api.nodes)[obj.name := api.nodes[obj.name]]
      ensures ProgressOn(obj) == Turn(old(ProgressOn(obj)), r, obj.name, globalDryRun, faults)
    {
      var rule := ruleCache[r];
      var completed := IsBootstrapCompleted(obj.name, r);
      if completed && rule.spec.mode == BootstrapOnly {
        return;
      }
      if rule.spec.dryRun || globalDryRun {
        return;
      }
      var ok, status := EvaluateRuleForNode(r, rule, obj, faults);
      if !ok {
        status := RecordNodeFailure(status, obj.name);
      }
      ruleCache := ruleCache[r := rule.(status := status)];
      var published := UpdateRuleStatus(r, status, faults);
    }

    /** The rules are taken in the order the cache iteration happened to give; the order is returned. */
    method ProcessNodeAgainstAllRules(obj: NodeObject, faults: Faults) returns (order: seq<string>)
      requires obj.name in api.nodes && obj.value == api.nodes[obj.name]
      modifies this`ruleCache, obj`value, api
      ensures NodeOrder(old(State()), obj.name, order)
      ensures State() == ReconcileNode(old(State()), obj.name, order, faults)
    {
      order := GetApplicableRulesForNode(obj.value);
      ProcessNodeAgainstRules(obj, order, faults);
    }

    method ProcessNodeAgainstRules(obj: NodeObject, order: seq<string>, faults: Faults)
      requires obj.name in api.nodes && forall r :: r in order ==> r in ruleCache
      modifies this`ruleCache, obj`value, api
      ensures obj.name in api.nodes && api.nodes == old(api.nodes)[obj.name := api.nodes[obj.name]]
      ensures ProgressOn(obj) == ProgressAfter(old(ProgressOn(obj)), order, obj.name, globalDryRun, faults)
    {
      ghost var start := ProgressOn(obj);
      for i := 0 to |order|
        invariant obj.name in api.nodes && api.nodes == old(api.nodes)[obj.name := api.nodes[obj.name]]
        invariant ProgressOn(obj) == ProgressAfter(start, order[..i], obj.name, globalDryRun, faults)
      {
        var r := order[i];
        assert r in order;
        OneMoreTurn(start, order, i, obj.name, globalDryRun, faults);
        ProcessNodeAgainstRule(obj, r, faults);
      }
      assert order[..|order|] == order;
    }

    // ---------- one rule, all nodes ----------

    /** Evaluates the rule on every node it selects, carrying on past failures. */
    method ProcessAllNodesForRule(
      name: string, r: Rule, faults: Faults) returns (ok: bool, status: Status, order: seq<string>)
      modifies api`nodes
      ensures Listing(order, old(api.nodes).Keys)
      ensures ok == (ListForProcessing !in faults)
      ensures !ok ==> api.nodes == old(api.nodes) && status == r.status
      ensures ok ==> api.nodes == Evaluated(old(api.nodes), old(api.nodes).Keys, name, r.spec, faults)
      ensures ok ==> status == RowStatus(r.status, old(api.nodes), order, name, r.spec, faults).(
                                 observedGeneration := r.generation,
                                 appliedNodes := AppliedNodes(old(api.nodes), order, r.spec))
    {
      status := r.status;
      order := api.ListNodes();
      if ListForProcessing in faults {
        return false, status, order;
      }
      var nodes := api.nodes;
      var applied := [];
      for i := 0 to |order|
        invariant api.nodes == Evaluated(nodes, Elements(order[..i]), name, r.spec, faults)
        invariant status == RowStatus(r.status, nodes, order[..i], name, r.spec, faults)
        invariant applied == AppliedNodes(nodes, order[..i], r.spec)
      {
        assert order[..i + 1][..i] == order[..i] && order[i] in order;
        var n := order[i];
        NextElement(order, i);
        EvaluatedStep(nodes, Elements(order[..i]), n, name, r.spec, faults);
        var applies := RuleAppliesTo(r.spec.selector, nodes[n]);
        if applies {
          applied := applied + [n];
          var obj := new NodeObject(n, nodes[n]);
          var done;
          done, status := EvaluateRuleForNode(name, r.(status := status), obj, faults);
          if !done {
            status := RecordNodeFailure(status, n);
          }
        }
      }
      AllElements(nodes, order);
      status := status.(observedGeneration := r.generation, appliedNodes := applied);
      ok := true;
    }

    /** Counts what a run would do, on the nodes as they are, and changes none of them. */
    method ProcessDryRun(r: Rule, faults: Faults) returns (ok: bool, status: Status)
      ensures ok == (ListForProcessing !in faults)
      ensures status == if ok then r.status.(dryRunResults := Some(Simulated(api.nodes, r.spec))) else r.status
    {
      status := r.status;
      var order := api.ListNodes();
      if ListForProcessing in faults {
        return false, status;
      }
      var nodes := api.nodes;
      var affected, adds, removes, risky := 0, 0, 0, 0;
      for i := 0 to |order|
        invariant DryRunResults(affected, adds, removes, risky) == Tally(nodes, Elements(order[..i]), r.spec)
      {
        var n := order[i];
        TallyStep(nodes, order, i, r.spec);
        var applies := RuleAppliesTo(r.spec.selector, nodes[n]);
        if !applies {
          continue;
        }
        affected := affected + 1;
        var satisfied, missing := SimulateConditions(r.spec, nodes[n]);
        var has := HasTaintBySpec(nodes[n], r.spec.taint);
        if satisfied && has {
          removes := removes + 1;
        } else if !satisfied && !has {
          adds := adds + 1;
        }
        if missing > 0 {
          risky := risky + 1;
        }
      }
      AllElements(nodes, order);
      return true, r.status.(dryRunResults := Some(DryRunResults(affected, adds, removes, risky)));
    }

    static method SimulateConditions(spec: RuleSpec, n: Node) returns (satisfied: bool, missing: nat)
      ensures satisfied <==> Ready(spec, n.conditions)
      ensures missing > 0 <==> Risky(spec, n)
    {
      satisfied, missing := true, 0;
      for i := 0 to |spec.conditions|
        invariant satisfied <==> forall j :: 0 <= j < i ==> Met(spec.conditions[j], n.conditions)
        invariant missing > 0
                  <==> exists j :: 0 <= j < i && ConditionStatus(n.conditions, spec.conditions[j].kind) == UNKNOWN
      {
        var status := GetConditionStatus(n, spec.conditions[i].kind);
        if status == UNKNOWN {
          missing := missing + 1;
        }
        if status != spec.conditions[i].requiredStatus {
          satisfied := false;
        }
      }
    }

    // ---------- cleanup ----------

    /** What both cleanup loops do to a node they target; false when the removal failed. */
    method RemoveIfPresent(n: string, rule: string, taint: Taint, faults: Faults) returns (ok: bool)
      requires n in api.nodes
      modifies api`nodes
      ensures var due := HasTaint(old(api.nodes[n]).taints, taint);
              && (ok <==> !(due && PatchTaints(rule, n) in faults))
              && api.nodes == old(api.nodes)[n := if due && ok then Untainted(old(api.nodes[n]), taint)
                  else old(api.nodes[n])]
    {
      var has := HasTaintBySpec(api.nodes[n], taint);
      if !has {
        return true;
      }
      var obj := new NodeObject(n, api.nodes[n]);
      ok := RemoveTaintBySpec(obj, rule, taint, faults);
    }

    /** Try every target, remember whether any removal failed. */
    method CleanupTaintsForRule(name: string, r: Rule, faults: Faults) returns (ok: bool)
      modifies api`nodes
      ensures var nodes := old(api.nodes);
              var targets := Selected(nodes, r.spec.selector);
              if ListForCleanup in faults then !ok && api.nodes == nodes
              else (ok <==> Blocked(nodes, targets, name, r.spec.taint, faults) == {})
                   && api.nodes == Cleaned(nodes, targets, name, r.spec.taint, faults)
    {
      var order := api.ListNodes();
      if ListForCleanup in faults {
        return false;
      }
      ok := CleanupSelected(order, name, r.spec.selector, r.spec.taint, faults);
    }

    method CleanupSelected(
      order: seq<string>, name: string, selector: Option<LabelSelector>, taint: Taint, faults: Faults)
      returns (ok: bool)
      requires Listing(order, api.nodes.Keys)
      modifies api`nodes
      ensures var nodes := old(api.nodes);
              var targets := Selected(nodes, selector);
              && (ok <==> Blocked(nodes, targets, name, taint, faults) == {})
              && api.nodes == Cleaned(nodes, targets, name, taint, faults)
    {
      var nodes := api.nodes;
      ghost var targets := Selected(nodes, selector);
      var errors: seq<string> := [];
      for i := 0 to |order|
        invariant CleanedUpTo(nodes, api.nodes, targets, order, i, errors == [], name, taint, faults)
      {
        var n := order[i];
        NotCleanedYet(nodes, api.nodes, targets, order, i, errors == [], name, taint, faults);
        ghost var before, none := api.nodes, errors == [];
        var applies := RuleAppliesTo(selector, nodes[n]);
        var clean := true;
        if applies {
          clean := RemoveIfPresent(n, name, taint, faults);
          if !clean {
            errors := errors + [n];
          }
        }
        CleanedNext(nodes, before, api.nodes, targets, order, i, none, clean, name, taint, faults);
      }
      AllSeen(nodes, order, targets);
      ok := |errors| == 0;
    }

    /** The previous selector is known to be usable by now, so it is matched directly. */
    static method LeavesSelection(previous: Option<LabelSelector>, current: Option<LabelSelector>, n: Node)
      returns (leaves: bool)
      requires !InError(previous)
      ensures leaves <==> NoLongerSelected(previous, current, n)
    {
      var matchedOld := if previous.None? then true else Matches(previous.value, n.labels);
      var matchesNew := RuleAppliesTo(current, n);
      return matchedOld && !matchesNew;
    }

    /** The same over the nodes that the previous selector matched and the current one does not. */
    method CleanupNodesAfterSelectorChange(
      name: string, previous: Rule, current: Rule, faults: Faults) returns (ok: bool)
      modifies api`nodes
      ensures var nodes := old(api.nodes);
              var targets := LeftBehind(nodes, previous.spec.selector, current.spec.selector);
              if ListForCleanup in faults || (previous.spec.selector.Some? && !Parseable(previous.spec.selector.value))
              then !ok && api.nodes == nodes
              else (ok <==> Blocked(nodes, targets, name, current.spec.taint, faults) == {})
                   && api.nodes == Cleaned(nodes, targets, name, current.spec.taint, faults)
    {
      var order := api.ListNodes();
      if ListForCleanup in faults {
        return false;
      }
      if previous.spec.selector.Some? && !Parseable(previous.spec.selector.value) {
        return false;
      }
      ok := CleanupLeftBehind(order, name, previous.spec.selector, current.spec.selector, current.spec.taint, faults);
    }

    method CleanupLeftBehind(
      order: seq<string>, name: string, previous: Option<LabelSelector>, current: Option<LabelSelector>, taint: Taint,
      faults: Faults)
      returns (ok: bool)
      requires Listing(order, api.nodes.Keys) && !InError(previous)
      modifies api`nodes
      ensures var nodes := old(api.nodes);
              var targets := LeftBehind(nodes, previous, current);
              && (ok <==> Blocked(nodes, targets, name, taint, faults) == {})
              && api.nodes == Cleaned(nodes, targets, name, taint, faults)
    {
      var nodes := api.nodes;
      ghost var targets := LeftBehind(nodes, previous, current);
      var errors: seq<string> := [];
      for i := 0 to |order|
        invariant CleanedUpTo(nodes, api.nodes, targets, order, i, errors == [], name, taint, faults)
      {
        var n := order[i];
        NotCleanedYet(nodes, api.nodes, targets, order, i, errors == [], name, taint, faults);
        ghost var before, none := api.nodes, errors == [];
        var leaves := LeavesSelection(previous, current, nodes[n]);
        var clean := true;
        if leaves {
          clean := RemoveIfPresent(n, name, taint, faults);
          if !clean {
            errors := errors + [n];
          }
        }
        CleanedNext(nodes, before, api.nodes, targets, order, i, none, clean, name, taint, faults);
      }
      AllSeen(nodes, order, targets);
      ok := |errors| == 0;
    }

    /** Entries of nodes that are gone leave the stored status; when there are none, nothing is written. */
    method CleanupDeletedNodes(name: string, status: Status, faults: Faults) returns (ok: bool)
      requires name in api.rules
      modifies api`rules
      ensures var kept, latest := Pruned(status.evaluations, api.nodes.Keys), old(api.rules)[name];
              var fresh_ := Pruned(latest.status.evaluations, api.nodes.Keys);
              if ListForPrune in faults then !ok && api.rules == old(api.rules)
              else if |kept| == |status.evaluations| then ok && api.rules == old(api.rules)
              else if PruneStatus in faults then !ok && api.rules == old(api.rules)
              else
                && ok
                && api.rules == if |fresh_| == |latest.status.evaluations| then old(api.rules)
                                else old(api.rules)[name := latest.(status := latest.status.(evaluations := fresh_))]
    {
      if ListForPrune in faults {
        return false;
      }
      var existing := api.nodes.Keys;
      var kept := KeepExisting(status.evaluations, existing);
      if |kept| == |status.evaluations| {
        return true;
      }
      if PruneStatus in faults {
        return false;
      }
      var latest := api.rules[name];
      var keptNow := KeepExisting(latest.status.evaluations, existing);
      if |keptNow| != |latest.status.evaluations| {
        api.rules := api.rules[name := latest.(status := latest.status.(evaluations := keptNow))];
      }
      return true;
    }

    static method KeepExisting(es: seq<NodeEvaluation>, existing: set<string>) returns (kept: seq<NodeEvaluation>)
      ensures kept == Pruned(es, existing)
    {
      kept := [];
      for i := 0 to |es|
        invariant kept == Pruned(es[..i], existing)
      {
        FilterNext(es, i, OnOneOf(existing));
        if es[i].nodeName in existing {
          kept := kept + [es[i]];
        }
      }
      assert es[..|es|] == es;
    }
  }

  // ---------- facts the loops need ----------

  /** What one pass over the rules has produced so far: the stored node, the copy, the cache, the store. */
  datatype Progress = Progress(stored: Node, copy: Node, cache: map<string, Rule>, rules: map<string, Rule>)

  ghost function Turn(p: Progress, r: string, name: string, dry: bool, faults: Faults): Progress
    requires r in p.cache
  {
    var rule, v := p.cache[r], View(p.stored, p.copy, 0);
    if Skipped(v.stored, r, rule.spec, dry) then p
    else
      var status := Recorded(rule.status, r, rule.spec, name, v, faults);
      Progress(Enforce(r, rule.spec, name, v, faults).stored,
               Enforce(r, rule.spec, name, v, faults).copy,
               p.cache[r := rule.(status := status)],
               if PublishStatus(r) in faults then p.rules else WithStatus(p.rules, r, status))
  }

  ghost function ProgressAfter(start: Progress, order: seq<string>, name: string, dry: bool, faults: Faults): Progress {
    var v := View(start.stored, start.copy, 0);
    Progress(PassView(v, start.cache, order, name, dry, faults).stored,
             PassView(v, start.cache, order, name, dry, faults).copy,
             PassCache(v, start.cache, order, name, dry, faults),
             PassRules(start.rules, v, start.cache, order, name, dry, faults))
  }

  lemma OneMoreTurn(start: Progress, order: seq<string>, i: nat, name: string, dry: bool, faults: Faults)
    requires i < |order| && order[i] in start.cache
    ensures ProgressAfter(start, order[..i + 1], name, dry, faults)
            == Turn(ProgressAfter(start, order[..i], name, dry, faults), order[i], name, dry, faults)
  {
    assert order[..i + 1][..i] == order[..i];
  }

  lemma EvaluatedStep(
    nodes: map<string, Node>, seen: set<string>, n: string, rule: string, spec: RuleSpec, faults: Faults)
    requires n in nodes
    ensures Evaluated(nodes, seen + {n}, rule, spec, faults)
            == Evaluated(nodes, seen, rule, spec, faults)[
                 n := if Selects(spec.selector, nodes[n].labels)
                     then Enforce(rule, spec, n, Fresh(nodes[n]), faults).stored else nodes[n]]
    ensures n !in seen ==> Evaluated(nodes, seen, rule, spec, faults)[n] == nodes[n]
  {
  }

  /** The cleanup of the first i nodes is done; `none` says that no removal failed so far. */
  ghost predicate CleanedUpTo(
    nodes: map<string, Node>, now: map<string, Node>, targets: set<string>, order: seq<string>, i: nat, none: bool,
    rule: string, taint: Taint, faults: Faults)
    requires i <= |order|
  {
    && now == Cleaned(nodes, targets * Elements(order[..i]), rule, taint, faults)
    && (none <==> Blocked(nodes, targets * Elements(order[..i]), rule, taint, faults) == {})
  }

  lemma NotCleanedYet(
    nodes: map<string, Node>, now: map<string, Node>, targets: set<string>, order: seq<string>, i: nat, none: bool,
    rule: string, taint: Taint, faults: Faults)
    requires Listing(order, nodes.Keys) && i < |order|
    requires CleanedUpTo(nodes, now, targets, order, i, none, rule, taint, faults)
    ensures order[i] in nodes && order[i] in now && now[order[i]] == nodes[order[i]]
  {
  }

  lemma CleanedNext(
    nodes: map<string, Node>, before: map<string, Node>, now: map<string, Node>, targets: set<string>,
    order: seq<string>, i: nat, none: bool, clean: bool, rule: string, taint: Taint, faults: Faults)
    requires Listing(order, nodes.Keys) && i < |order| && order[i] in nodes
    requires CleanedUpTo(nodes, before, targets, order, i, none, rule, taint, faults)
    requires var n := order[i];
             var due := n in targets && HasTaint(nodes[n].taints, taint);
             && (clean <==> !(due && PatchTaints(rule, n) in faults))
             && now == before[n := if due && clean then Untainted(nodes[n], taint) else nodes[n]]
    ensures CleanedUpTo(nodes, now, targets, order, i + 1, none && clean, rule, taint, faults)
  {
    NextElement(order, i);
    BlockedNext(nodes, targets, Elements(order[..i]), order[i], rule, taint, faults);
    CleanedMore(nodes, targets, Elements(order[..i]), order[i], rule, taint, faults);
  }

  lemma BlockedNext(
    nodes: map<string, Node>, targets: set<string>, seen: set<string>, n: string, rule: string, taint: Taint,
    faults: Faults)
    requires n in nodes && n !in seen
    ensures Blocked(nodes, targets * (seen + {n}), rule, taint, faults)
            == Blocked(nodes, targets * seen, rule, taint, faults)
               + OnlyIf(n in targets && HasTaint(nodes[n].taints, taint) && PatchTaints(rule, n) in faults, n)
  {
  }

  lemma CleanedMore(
    nodes: map<string, Node>, targets: set<string>, seen: set<string>, n: string, rule: string, taint: Taint,
    faults: Faults)
    requires n in nodes && n !in seen
    ensures Cleaned(nodes, targets * (seen + {n}), rule, taint, faults)
            == Cleaned(nodes, targets * seen, rule, taint, faults)[
                 n := if n in targets && HasTaint(nodes[n].taints, taint) && PatchTaints(rule, n) !in faults
                      then Untainted(nodes[n], taint) else nodes[n]]
  {
  }

  lemma AllSeen(nodes: map<string, Node>, order: seq<string>, targets: set<string>)
    requires Listing(order, nodes.Keys) && targets <= nodes.Keys
    ensures targets * Elements(order[..|order|]) == targets
  {
  }

  lemma NextElement(order: seq<string>, i: nat)
    requires Distinct(order) && i < |order|
    ensures order[i] in order && order[i] !in Elements(order[..i])
    ensures Elements(order[..i + 1]) == Elements(order[..i]) + {order[i]}
  {
  }

  lemma AllElements(nodes: map<string, Node>, order: seq<string>)
    requires Listing(order, nodes.Keys)
    ensures order[..|order|] == order && Elements(order) == nodes.Keys
  {
  }

  function OnlyIf(condition: bool, n: string): set<string> {
    if condition then {n} else {}
  }

  function One(condition: bool): nat {
    if condition then 1 else 0
  }

  lemma TallyStep(nodes: map<string, Node>, order: seq<string>, i: nat, spec: RuleSpec)
    requires Listing(order, nodes.Keys) && i < |order|
    ensures order[i] in nodes
    ensures var before, n := Tally(nodes, Elements(order[..i]), spec), nodes[order[i]];
            var selects, action := Selects(spec.selector, n.labels), Decide(spec, n);
            Tally(nodes, Elements(order[..i + 1]), spec)
            == DryRunResults(before.affectedNodes + One(selects), before.taintsToAdd + One(selects && action == Add),
                             before.taintsToRemove + One(selects && action == Remove),
                             before.riskyOperations + One(selects && Risky(spec, n)))
  {
    var seen, n := Elements(order[..i]), order[i];
    NextElement(order, i);
    assert n in nodes;
    AmongStep(nodes, seen, n, spec);
    RiskyStep(nodes, seen, n, spec);
    DecidingStep(nodes, seen, n, spec, Add);
    DecidingStep(nodes, seen, n, spec, Remove);
  }

  lemma OneMore(before: set<string>, after: set<string>, n: string, joins: bool)
    requires n !in before && forall x :: x in after <==> x in before || (joins && x == n)
    ensures |after| == |before| + One(joins)
  {
    assert after == before + OnlyIf(joins, n);
  }

  lemma AmongStep(nodes: map<string, Node>, seen: set<string>, n: string, spec: RuleSpec)
    requires n in nodes && n !in seen
    ensures |AmongSelected(nodes, seen + {n}, spec)|
            == |AmongSelected(nodes, seen, spec)| + One(Selects(spec.selector, nodes[n].labels))
  {
    OneMore(AmongSelected(nodes, seen, spec), AmongSelected(nodes, seen + {n}, spec), n,
        Selects(spec.selector, nodes[n].labels));
  }

  lemma RiskyStep(nodes: map<string, Node>, seen: set<string>, n: string, spec: RuleSpec)
    requires n in nodes && n !in seen
    ensures |RiskyNodes(nodes, seen + {n}, spec)|
            == |RiskyNodes(nodes, seen, spec)| + One(Selects(spec.selector, nodes[n].labels) && Risky(spec, nodes[n]))
  {
    OneMore(RiskyNodes(nodes, seen, spec), RiskyNodes(nodes, seen + {n}, spec), n,
            Selects(spec.selector, nodes[n].labels) && Risky(spec, nodes[n]));
  }

  lemma DecidingStep(nodes: map<string, Node>, seen: set<string>, n: string, spec: RuleSpec, action: Action)
    requires n in nodes && n !in seen
    ensures |Deciding(nodes, seen + {n}, spec, action)|
            == |Deciding(nodes, seen, spec, action)|
               + One(Selects(spec.selector, nodes[n].labels) && Decide(spec, nodes[n]) == action)
  {
    OneMore(Deciding(nodes, seen, spec, action), Deciding(nodes, seen + {n}, spec, action), n,
            Selects(spec.selector, nodes[n].labels) && Decide(spec, nodes[n]) == action);
  }

  // ---------- the reconcilers ----------

  class NodeReconciler {
    const controller: ReadinessGateController

    constructor (controller: ReadinessGateController)
      ensures this.controller == controller
    {
      this.controller := controller;
    }

    method Reconcile(name: string, faults: Faults) returns (order: seq<string>)
      modifies controller, controller.api
      ensures NodeOrder(old(controller.State()), name, order)
      ensures controller.State() == ReconcileNode(old(controller.State()), name, order, faults)
    {
      if name !in controller.api.nodes {
        return [];
      }
      var obj := new NodeObject(name, controller.api.nodes[name]);
      order := controller.ProcessNodeAgainstAllRules(obj, faults);
    }
  }

  class RuleReconciler {
    const controller: ReadinessGateController

    constructor (controller: ReadinessGateController)
      ensures this.controller == controller
    {
      this.controller := controller;
    }

    static method ContainsFinalizer(finalizers: seq<string>) returns (found: bool)
      ensures found <==> FINALIZER in finalizers
    {
      for i := 0 to |finalizers|
        invariant FINALIZER !in finalizers[..i]
      {
        if finalizers[i] == FINALIZER {
          return true;
        }
      }
      return false;
    }

    static method RemoveFinalizerFrom(finalizers: seq<string>) returns (kept: seq<string>)
      ensures kept == WithoutFinalizer(finalizers)
    {
      kept := [];
      for i := 0 to |finalizers|
        invariant kept == WithoutFinalizer(finalizers[..i])
      {
        FilterNext(finalizers, i, NotOurs);
        if finalizers[i] != FINALIZER {
          kept := kept + [finalizers[i]];
        }
      }
      assert finalizers[..|finalizers|] == finalizers;
    }

    /** Deletion: clean up, take the finalizer off, forget the rule; stop at the first step that fails. */
    method ReconcileDeletion(name: string, faults: Faults) returns (ok: bool)
      requires name in controller.api.rules
      modifies controller, controller.api
      ensures Outcome(controller.State(), ok) == Finalize(old(controller.State()), name, faults)
    {
      var api, rule := controller.api, controller.api.rules[name];
      var guarded := ContainsFinalizer(rule.finalizers);
      if !guarded {
        return true;
      }
      ok := controller.CleanupTaintsForRule(name, rule, faults);
      if !ok {
        return;
      }
      var kept := RemoveFinalizerFrom(rule.finalizers);
      if RemoveFinalizer in faults {
        return false;
      }
      rule := rule.(finalizers := kept);
      api.rules := if rule.deleting && kept == [] then api.rules - {name} else api.rules[name := rule];
      controller.ruleCache := controller.ruleCache - {name};
    }

    /** Publishes the new status and prunes entries of missing nodes. */
    method FinishStatus(name: string, status: Status, faults: Faults) returns (ok: bool)
      requires name in controller.api.rules
      modifies controller.api`rules
      ensures Outcome(controller.State(), ok) == PublishAndPrune(old(controller.State()), name, status, faults)
    {
      ok := controller.UpdateRuleStatus(name, status, faults);
      if !ok {
        return;
      }
      ok := controller.CleanupDeletedNodes(name, status, faults);
    }

    method ProcessRule(name: string, rule: Rule, faults: Faults) returns (ok: bool, order: seq<string>)
      requires name in controller.api.rules && controller.api.rules[name] == rule
      modifies controller.api
      ensures Listing(order, old(controller.api.nodes).Keys)
      ensures Outcome(controller.State(), ok) == Process(old(controller.State()), name, order, faults)
    {
      var status: Status;
      if rule.spec.dryRun {
        order := controller.api.ListNodes();
        ok, status := controller.ProcessDryRun(rule, faults);
      } else {
        ok, status, order := controller.ProcessAllNodesForRule(name,
            rule.(status := rule.status.(dryRunResults := None)), faults);
      }
      if !ok {
        return;
      }
      ok := FinishStatus(name, status, faults);
    }

    /** A live, guarded rule. */
    method AdoptRule(name: string, faults: Faults) returns (ok: bool, order: seq<string>)
      requires name in controller.api.rules
      modifies controller, controller.api
      ensures Listing(order, old(controller.api.nodes).Keys)
      ensures Outcome(controller.State(), ok) == Adopt(old(controller.State()), name, order, faults)
    {
      var rule := controller.api.rules[name];
      if name in controller.ruleCache {
        var cached := controller.ruleCache[name];
        var changed := NodeSelectorChanged(rule.spec.selector, cached.spec.selector);
        if changed {
          order := controller.api.ListNodes();
          ok := controller.CleanupNodesAfterSelectorChange(name, cached, rule, faults);
          if !ok {
            return;
          }
        }
      }
      controller.ruleCache := controller.ruleCache[name := rule];
      ok, order := ProcessRule(name, rule, faults);
    }

    /** One reconcile of a rule is the specified one, for the order in which the nodes were listed. */
    method Reconcile(name: string, faults: Faults) returns (ok: bool, order: seq<string>)
      modifies controller, controller.api
      ensures Listing(order, old(controller.api.nodes).Keys)
      ensures Outcome(controller.State(), ok) == ReconcileRule(old(controller.State()), name, order, faults)
    {
      var api := controller.api;
      order := api.ListNodes();
      if name !in api.rules {
        controller.ruleCache := controller.ruleCache - {name};
        return true, order;
      }
      var rule := api.rules[name];
      if rule.deleting {
        ok := ReconcileDeletion(name, faults);
        return;
      }
      var guarded := ContainsFinalizer(rule.finalizers);
      if !guarded {
        if AddFinalizer in faults {
          return false, order;
        }
        api.rules := api.rules[name := rule.(finalizers := rule.finalizers + [FINALIZER])];
        if RefreshRule in faults {
          return false, order;
        }
      }
      ok, order := AdoptRule(name, faults);
    }
  }
}
