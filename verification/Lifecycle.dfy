/** Rules come, are edited and go; nodes come, change and go; calls fail. The controller never loses
    track of a taint it added: whoever carries one is still looked after by a stored, guarded rule. */
module Lifecycle {
  import opened Model
  import opened Sequences
  import opened Selectors
  import opened Disjointness
  import opened Evaluation
  import opened Reconcile
  import opened RulePass
  import opened Runs
  import opened Verdicts

  // ---------- looked-after nodes ----------

  function Claimed(c: Claim): Taint {
    Taint(c.key, "", c.effect)
  }

  /** The cache still holds the claiming rule, with that taint, and it still selects these labels. */
  predicate Backed(c: Claim, cache: map<string, Rule>, labels: map<string, string>) {
    && c.rule in cache && SameTaint(cache[c.rule].spec.taint, Claimed(c))
    && Selects(cache[c.rule].spec.selector, labels)
  }

  /** Every claim is for a taint that is there and is backed; every reserved taint is claimed. */
  ghost predicate Tended(n: Node, cache: map<string, Rule>, reserved: set<Identity>) {
    && (forall c :: c in n.claims ==> HasTaint(n.taints, Claimed(c)) && Backed(c, cache, n.labels))
    && (forall t :: t in n.taints && (t.key, t.effect) in reserved ==> IsClaimed(n, t))
  }

  predicate IsClaimed(n: Node, t: Taint) {
    exists c :: c in n.claims && SameTaint(t, Claimed(c))
  }

  lemma UntaintedTended(n: Node, cache: map<string, Rule>, reserved: set<Identity>, taint: Taint)
    requires Tended(n, cache, reserved)
    ensures Tended(Untainted(n, taint), cache, reserved)
  {
    var after := Untainted(n, taint);
    WithoutMembers(n.taints, taint);
    forall c | c in after.claims ensures HasTaint(after.taints, Claimed(c)) {
      WithoutOther(n.taints, taint, Claimed(c));
    }
    forall t | t in after.taints && (t.key, t.effect) in reserved ensures IsClaimed(after, t) {
      assert IsClaimed(n, t);
      var c :| c in n.claims && SameTaint(t, Claimed(c));
      assert c in after.claims;
    }
  }

  lemma TaintedTended(n: Node, cache: map<string, Rule>, reserved: set<Identity>, r: string, taint: Taint)
    requires Tended(n, cache, reserved) && Backed(Claim(r, taint.key, taint.effect), cache, n.labels)
    ensures Tended(Tainted(n, r, taint), cache, reserved)
  {
    var after, own := Tainted(n, r, taint), Claim(r, taint.key, taint.effect);
    forall c | c in after.claims ensures HasTaint(after.taints, Claimed(c)) && Backed(c, cache, after.labels) {
      TaintedHas(n, r, taint, Claimed(c));
    }
    forall t | t in after.taints && (t.key, t.effect) in reserved ensures IsClaimed(after, t) {
      if t in n.taints {
        assert IsClaimed(n, t);
        var c :| c in n.claims && SameTaint(t, Claimed(c));
        assert c in after.claims;
      } else {
        assert own in after.claims && SameTaint(t, Claimed(own));
      }
    }
  }

  lemma SameTended(n: Node, m: Node, cache: map<string, Rule>, reserved: set<Identity>)
    requires Tended(n, cache, reserved)
    requires m.taints == n.taints && m.claims == n.claims && m.labels == n.labels
    ensures Tended(m, cache, reserved)
  {
  }

  lemma EnforceTended(
    r: string, spec: RuleSpec, name: string, v: View, faults: Faults, cache: map<string, Rule>, reserved: set<Identity>)
    requires Tended(v.stored, cache, reserved) && Tended(v.copy, cache, reserved) && v.stored.labels == v.copy.labels
    requires Backed(Claim(r, spec.taint.key, spec.taint.effect), cache, v.copy.labels)
    ensures var after := Enforce(r, spec, name, v, faults);
            Tended(after.stored, cache, reserved) && Tended(after.copy, cache, reserved)
            && after.stored.labels == after.copy.labels == v.copy.labels
  {
    var after := Enforce(r, spec, name, v, faults);
    UntaintedTended(v.copy, cache, reserved, spec.taint);
    TaintedTended(v.copy, cache, reserved, r, spec.taint);
    if Decide(spec, v.copy) != Keep && PatchTaints(r, name) !in faults {
      SameTended(after.copy, after.stored, cache, reserved);
    }
  }

  lemma {:induction false} PassTended(
    v: View, cache: map<string, Rule>, order: seq<string>, name: string, dry: bool, faults: Faults,
    reserved: set<Identity>)
    requires Tended(v.stored, cache, reserved) && Tended(v.copy, cache, reserved) && v.stored.labels == v.copy.labels
    requires forall r :: r in order && r in cache ==> Selects(cache[r].spec.selector, v.copy.labels)
    ensures var after := PassView(v, cache, order, name, dry, faults);
            Tended(after.stored, cache, reserved) && Tended(after.copy, cache, reserved)
            && after.stored.labels == after.copy.labels == v.copy.labels
  {
    if order != [] {
      var init, r := order[..|order| - 1], order[|order| - 1];
      assert order == init + [r];
      PassTended(v, cache, init, name, dry, faults, reserved);
      if r in cache {
        var taint := cache[r].spec.taint;
        assert Backed(Claim(r, taint.key, taint.effect), cache, v.copy.labels);
        EnforceTended(r, cache[r].spec, name, PassView(v, cache, init, name, dry, faults), faults, cache, reserved);
      }
    }
  }

  lemma RebackedTended(n: Node, cache: map<string, Rule>, cache': map<string, Rule>, reserved: set<Identity>)
    requires Tended(n, cache, reserved)
    requires forall c :: c in n.claims ==> Backed(c, cache', n.labels)
    ensures Tended(n, cache', reserved)
  {
  }

  // ---------- the invariant ----------

  /** The selector check notices the edit, or missing it does no harm: what the previous selector selects the
      current one selects too. */
  predicate EditIsSafe(current: Option<LabelSelector>, previous: Option<LabelSelector>) {
    SelectorChanged(current, previous) || Within(previous, current)
  }

  /** Whatever unnoticed edit led to such a selector, it was safe. */
  lemma SafeSelectorSafeEdit(current: LabelSelector, previous: LabelSelector)
    requires SafeBySearch(current)
    ensures EditIsSafe(Some(current), Some(previous))
  {
    SafeToSkipIsSafeBySearch(current);
    WithinExact(Some(previous), Some(current));
  }

  /** A cached rule is stored, guarded by the finalizer, and has its stored taint; the edit since it was
      cached, if any, is safe; under deletion the stored selector reaches every node that the cached one does. */
  predicate GuardedRule(cached: Rule, stored: Rule) {
    && FINALIZER in stored.finalizers && SameTaint(cached.spec.taint, stored.spec.taint)
    && EditIsSafe(stored.spec.selector, cached.spec.selector)
    && (stored.deleting ==> Within(cached.spec.selector, stored.spec.selector))
  }

  ghost predicate RulesGuarded(s: Cluster) {
    forall r :: r in s.cache ==> r in s.rules && GuardedRule(s.cache[r], s.rules[r])
  }

  ghost predicate NodesTended(s: Cluster, reserved: set<Identity>) {
    forall n :: n in s.nodes ==> Tended(s.nodes[n], s.cache, reserved)
  }

  ghost predicate Inv(s: Cluster, reserved: set<Identity>) {
    RulesGuarded(s) && NodesTended(s, reserved)
  }

  // ---------- steps ----------

  datatype Step =
    | Reconciles(move: Move)
    | RuleCreated(name: string, spec: RuleSpec, finalizers: seq<string>)
    | SpecEdited(name: string, spec: RuleSpec)
    | DeletionRequested(name: string)
    | FinalizersEdited(name: string, finalizers: seq<string>)
    | NodeWritten(name: string, node: Node)
    | NodeRemoved(name: string)
    | DryRunSwitched(on: bool)

  /** Every cached rule that selected the node, and whose taint it had and still has, selects it still. */
  predicate StillSelected(before: Node, after: Node, cache: map<string, Rule>) {
    forall r :: r in cache && Selects(cache[r].spec.selector, before.labels)
                && HasTaint(before.taints, cache[r].spec.taint) && HasTaint(after.taints, cache[r].spec.taint) ==>
      Selects(cache[r].spec.selector, after.labels)
  }

  /** What others may do: once cached, a rule keeps its taint's key and effect and the cleanup finalizer, its
      selector is edited safely, and it is not deleted while an edit that gives up nodes is still to be
      reconciled; nodes are not relabelled away from a rule while they carry its taint, and get no reserved
      taint from anyone else. */
  ghost predicate Lawful(s: Cluster, step: Step, reserved: set<Identity>) {
    match step
    case Reconciles(m) => CanMove(s, m)
    case RuleCreated(name, _, _) => name !in s.rules
    case SpecEdited(name, spec) =>
      && name in s.rules
      && (name in s.cache ==>
            && SameTaint(spec.taint, s.rules[name].spec.taint)
            && EditIsSafe(spec.selector, s.cache[name].spec.selector)
            && (s.rules[name].deleting ==> Within(s.cache[name].spec.selector, spec.selector)))
    case DeletionRequested(name) =>
      name in s.rules && (name in s.cache ==> Within(s.cache[name].spec.selector, s.rules[name].spec.selector))
    case FinalizersEdited(name, finalizers) =>
      name in s.rules && (name in s.cache ==> FINALIZER in finalizers)
    case NodeWritten(name, node) =>
      && node.claims == (if name in s.nodes then StillClaimed(s.nodes[name], node.taints) else {})
      && (name in s.nodes ==> StillSelected(s.nodes[name], node, s.cache))
      && (forall t :: t in node.taints && (t.key, t.effect) in reserved ==>
            name in s.nodes && HasTaint(s.nodes[name].taints, t))
    case NodeRemoved(_) => true
    case DryRunSwitched(_) => true
  }

  /** The claims that survive someone else's edit of the taints. */
  function StillClaimed(n: Node, taints: seq<Taint>): set<Claim> {
    set c | c in n.claims && HasTaint(taints, Claimed(c))
  }

  ghost function Apply(s: Cluster, step: Step, reserved: set<Identity>): Cluster
    requires Lawful(s, step, reserved)
  {
    match step
    case Reconciles(m) => Perform(s, m)
    case RuleCreated(name, spec, finalizers) =>
      s.(rules := s.rules[name := Rule(spec, finalizers, false, 1, Status(0, [], [], [], [], None))])
    case SpecEdited(name, spec) =>
      s.(rules := s.rules[name := s.rules[name].(spec := spec, generation := s.rules[name].generation + 1)])
    case DeletionRequested(name) => s.(rules := Store(s.rules, name, s.rules[name].(deleting := true)))
    case FinalizersEdited(name, finalizers) =>
        s.(rules := Store(s.rules, name, s.rules[name].(finalizers := finalizers)))
    case NodeWritten(name, node) => s.(nodes := s.nodes[name := node])
    case NodeRemoved(name) => s.(nodes := s.nodes - {name})
    case DryRunSwitched(on) => s.(globalDryRun := on)
  }

  /** The steps of others take effect: a rule that is created and edited is stored with its last spec, a node that is
      written is stored, and one that is removed and a rule whose deletion is requested are gone or going. */
  lemma OutsideStepsTakeEffect(
    s: Cluster, reserved: set<Identity>, name: string, first: RuleSpec, second: RuleSpec, finalizers: seq<string>,
    n: string, node: Node, on: bool)
    requires name !in s.rules && name !in s.cache && n !in s.nodes && node.claims == {}
    requires forall t :: t in node.taints ==> (t.key, t.effect) !in reserved
    ensures var steps := [RuleCreated(name, first, finalizers), SpecEdited(name, second), NodeWritten(n, node)];
            && LawfulRun(s, steps, reserved)
            && var mid := After(s, steps, reserved);
               && mid.nodes == s.nodes[n := node] && mid.cache == s.cache && name in mid.rules
               && mid.rules[name].spec == second && mid.rules[name].generation == 2 && !mid.rules[name].deleting
               && mid.rules[name].finalizers == finalizers
               && var more := [NodeRemoved(n), DeletionRequested(name), DryRunSwitched(on)];
                  && LawfulRun(mid, more, reserved)
                  && var end := After(mid, more, reserved);
                     && end.nodes == s.nodes && end.globalDryRun == on
                     && (name in end.rules <==> finalizers != [])
                     && (name in end.rules ==> end.rules[name] == mid.rules[name].(deleting := true))
  {
    var mid := ThreeSteps(s, RuleCreated(name, first, finalizers), SpecEdited(name, second), NodeWritten(n, node),
                          reserved);
    var end := ThreeSteps(mid, NodeRemoved(n), DeletionRequested(name), DryRunSwitched(on), reserved);
    assert s.nodes[n := node] - {n} == s.nodes;
  }

  lemma ThreeSteps(s: Cluster, a: Step, b: Step, c: Step, reserved: set<Identity>) returns (end: Cluster)
    requires Lawful(s, a, reserved) && Lawful(Apply(s, a, reserved), b, reserved)
    requires Lawful(Apply(Apply(s, a, reserved), b, reserved), c, reserved)
    ensures LawfulRun(s, [a, b, c], reserved)
    ensures end == After(s, [a, b, c], reserved) == Apply(Apply(Apply(s, a, reserved), b, reserved), c, reserved)
  {
    var one := Apply(s, a, reserved);
    var two := Apply(one, b, reserved);
    end := Apply(two, c, reserved);
    assert [a, b, c][1..] == [b, c] && [b, c][1..] == [c] && [c][1..] == [];
    assert LawfulRun(end, [], reserved) && After(end, [], reserved) == end;
    assert LawfulRun(two, [c], reserved) && After(two, [c], reserved) == After(end, [c][1..], reserved);
    assert LawfulRun(one, [b, c], reserved) && After(one, [b, c], reserved) == After(two, [c], reserved);
  }

  /** A rule leaves the store only under deletion, and then with no finalizer left. */
  lemma RuleLeavesOnlyByDeletion(s: Cluster, step: Step, reserved: set<Identity>, r: string)
    requires Lawful(s, step, reserved) && r in s.rules && r !in Apply(s, step, reserved).rules
    ensures s.rules[r].deleting || step == DeletionRequested(r)
    ensures match step
            case Reconciles(m) => m.OnRule? && m.rule == r && forall f :: f in s.rules[r].finalizers ==> f == FINALIZER
            case DeletionRequested(_) => s.rules[r].finalizers == []
            case FinalizersEdited(_, finalizers) => finalizers == []
            case _ => false
  {
    match step {
      case Reconciles(OnNode(n, order, faults)) =>
        if n in s.nodes {
          NodeMoveEffect(s, n, order, faults);
        }
        assert false;
      case Reconciles(OnRule(name, order, faults)) =>
        if name in s.rules && !s.rules[name].deleting {
          LiveReconcileEffect(s, name, order, faults);
          assert false;
        } else {
          FilterMembers(s.rules[r].finalizers, NotOurs);
        }
      case _ =>
    }
  }

  // ---------- the node reconciler ----------

  lemma NodeReconcileKeepsInv(s: Cluster, name: string, order: seq<string>, faults: Faults, reserved: set<Identity>)
    requires Inv(s, reserved) && NodeOrder(s, name, order)
    ensures Inv(ReconcileNode(s, name, order, faults), reserved)
  {
    if name in s.nodes {
      var after := ReconcileNode(s, name, order, faults);
      NodeMoveEffect(s, name, order, faults);
      PassKeepsRules(s.rules, Fresh(s.nodes[name]), s.cache, order, name, s.globalDryRun, faults);
      PassTended(Fresh(s.nodes[name]), s.cache, order, name, s.globalDryRun, faults, reserved);
      forall n | n in after.nodes ensures Tended(after.nodes[n], after.cache, reserved) {
        RebackedTended(after.nodes[n], s.cache, after.cache, reserved);
      }
    }
  }

  // ---------- the rule reconciler ----------

  lemma CleanedTended(
    s: Cluster, targets: set<string>, r: string, taint: Taint, faults: Faults, reserved: set<Identity>)
    requires NodesTended(s, reserved)
    ensures NodesTended(s.(nodes := Cleaned(s.nodes, targets, r, taint, faults)), reserved)
    ensures Blocked(s.nodes, targets, r, taint, faults) == {} ==>
              forall n :: n in targets && n in s.nodes ==>
                !HasTaint(Cleaned(s.nodes, targets, r, taint, faults)[n].taints, taint)
  {
    forall n | n in s.nodes ensures Tended(Cleaned(s.nodes, targets, r, taint, faults)[n], s.cache, reserved) {
      UntaintedTended(s.nodes[n], s.cache, reserved, taint);
    }
    if Blocked(s.nodes, targets, r, taint, faults) == {} {
      forall n | n in targets && n in s.nodes
        ensures !HasTaint(Cleaned(s.nodes, targets, r, taint, faults)[n].taints, taint)
      {
        AllCleaned(s.nodes, targets, r, taint, faults, n);
      }
    }
  }

  /** A node without the rule's taint carries no claim of the rule. */
  lemma CleanNodeHasNoClaim(n: Node, cache: map<string, Rule>, reserved: set<Identity>, r: string, taint: Taint)
    requires Tended(n, cache, reserved) && !HasTaint(n.taints, taint)
    requires r in cache && SameTaint(cache[r].spec.taint, taint)
    ensures forall c :: c in n.claims ==> c.rule != r
  {
  }

  lemma UncachingTended(n: Node, cache: map<string, Rule>, reserved: set<Identity>, r: string)
    requires Tended(n, cache, reserved) && forall c :: c in n.claims ==> c.rule != r
    ensures Tended(n, cache - {r}, reserved)
  {
  }

  /** Once every target is clean, the rule claims nothing any more: its claims were on nodes that its
      cached selector selects, so its stored one does too. */
  lemma ReleasedTended(s: Cluster, name: string, faults: Faults, reserved: set<Identity>, n: string)
    requires Inv(s, reserved) && name in s.rules && s.rules[name].deleting && n in s.nodes
    requires var spec := s.rules[name].spec;
             Blocked(s.nodes, Selected(s.nodes, spec.selector), name, spec.taint, faults) == {}
    ensures var spec := s.rules[name].spec;
            Tended(Cleaned(s.nodes, Selected(s.nodes, spec.selector), name, spec.taint, faults)[n], s.cache - {name},
                reserved)
  {
    var spec := s.rules[name].spec;
    var targets := Selected(s.nodes, spec.selector);
    CleanedTended(s, targets, name, spec.taint, faults, reserved);
    var m := Cleaned(s.nodes, targets, name, spec.taint, faults)[n];
    if name in s.cache {
      WithinExact(s.cache[name].spec.selector, spec.selector);
      if n in targets {
        CleanNodeHasNoClaim(m, s.cache, reserved, name, spec.taint);
      }
    }
    UncachingTended(m, s.cache, reserved, name);
  }

  lemma FinalizeKeepsInv(s: Cluster, name: string, faults: Faults, reserved: set<Identity>)
    requires Inv(s, reserved) && name in s.rules && s.rules[name].deleting
    ensures Inv(Finalize(s, name, faults).state, reserved)
  {
    var spec := s.rules[name].spec;
    var targets := Selected(s.nodes, spec.selector);
    CleanedTended(s, targets, name, spec.taint, faults, reserved);
    if Blocked(s.nodes, targets, name, spec.taint, faults) == {} {
      forall n | n in s.nodes
        ensures Tended(Cleaned(s.nodes, targets, name, spec.taint, faults)[n], s.cache - {name}, reserved)
      {
        ReleasedTended(s, name, faults, reserved, n);
      }
    }
  }

  lemma SweepKeepsInv(s: Cluster, name: string, faults: Faults, reserved: set<Identity>)
    requires Inv(s, reserved) && name in s.rules && name in s.cache
    ensures var swept := Sweep(s, name, faults);
            && Inv(swept.state, reserved) && swept.state == s.(nodes := swept.state.nodes)
            && swept.state.nodes.Keys == s.nodes.Keys
            && (swept.ok ==>
                  forall n :: n in LeftBehind(s.nodes, s.cache[name].spec.selector, s.rules[name].spec.selector) ==>
                    !HasTaint(swept.state.nodes[n].taints, s.rules[name].spec.taint))
            && (forall n :: n in s.nodes ==> swept.state.nodes[n].labels == s.nodes[n].labels)
  {
    var spec := s.rules[name].spec;
    CleanedTended(s, LeftBehind(s.nodes, s.cache[name].spec.selector, spec.selector), name, spec.taint, faults,
        reserved);
  }

  /** A claim for the rule, seen from the rule as stored. */
  ghost predicate Behind(s: Cluster, name: string, n: string)
    requires name in s.rules && n in s.nodes
  {
    forall c :: c in s.nodes[n].claims && c.rule == name ==> Selects(s.rules[name].spec.selector, s.nodes[n].labels)
  }

  /** After a sweep that went well, or when the selector did not change, the stored selector covers all
      claims of the rule. */
  lemma SweptIsBehind(s: Cluster, name: string, faults: Faults, reserved: set<Identity>, n: string)
    requires Inv(s, reserved) && name in s.rules && name in s.cache && n in s.nodes
    requires SelectorChanged(s.rules[name].spec.selector, s.cache[name].spec.selector) && Sweep(s, name, faults).ok
    ensures Behind(Sweep(s, name, faults).state, name, n)
  {
    SweepKeepsInv(s, name, faults, reserved);
    var after := Sweep(s, name, faults).state;
    if n in LeftBehind(s.nodes, s.cache[name].spec.selector, s.rules[name].spec.selector) {
      CleanNodeHasNoClaim(after.nodes[n], s.cache, reserved, name, s.rules[name].spec.taint);
    }
    assert forall c :: c in after.nodes[n].claims ==> Backed(c, s.cache, after.nodes[n].labels);
  }

  lemma SafeEditStillSelects(
    current: Option<LabelSelector>, previous: Option<LabelSelector>, labels: map<string, string>)
    requires EditIsSafe(current, previous) && !SelectorChanged(current, previous)
    ensures Selects(previous, labels) ==> Selects(current, labels)
  {
    WithinExact(previous, current);
  }

  lemma NoEditIsSafe(s: Option<LabelSelector>)
    ensures EditIsSafe(s, s)
  {
    WithinExact(s, s);
  }

  lemma UnchangedIsBehind(s: Cluster, name: string, reserved: set<Identity>, n: string)
    requires Inv(s, reserved) && name in s.rules && n in s.nodes
    requires name in s.cache ==> !SelectorChanged(s.rules[name].spec.selector, s.cache[name].spec.selector)
    ensures Behind(s, name, n)
  {
    forall c | c in s.nodes[n].claims && c.rule == name
        ensures Selects(s.rules[name].spec.selector, s.nodes[n].labels) {
      assert Backed(c, s.cache, s.nodes[n].labels);
      SafeEditStillSelects(s.rules[name].spec.selector, s.cache[name].spec.selector, s.nodes[n].labels);
    }
  }

  lemma CachingKeepsInv(s: Cluster, name: string, reserved: set<Identity>)
    requires Inv(s, reserved) && name in s.rules && FINALIZER in s.rules[name].finalizers
    requires forall n :: n in s.nodes ==> Behind(s, name, n)
    ensures Inv(s.(cache := s.cache[name := s.rules[name]]), reserved)
  {
    NoEditIsSafe(s.rules[name].spec.selector);
  }

  lemma EvaluatedTended(s: Cluster, name: string, faults: Faults, reserved: set<Identity>)
    requires Inv(s, reserved) && name in s.rules && name in s.cache && s.cache[name] == s.rules[name]
    ensures NodesTended(s.(nodes := Evaluated(s.nodes, s.nodes.Keys, name, s.rules[name].spec, faults)), reserved)
  {
    var spec := s.rules[name].spec;
    forall n | n in s.nodes
      ensures Tended(Evaluated(s.nodes, s.nodes.Keys, name, spec, faults)[n], s.cache, reserved)
    {
      if Selects(spec.selector, s.nodes[n].labels) {
        EnforceTended(name, spec, n, Fresh(s.nodes[n]), faults, s.cache, reserved);
      }
    }
  }

  lemma ProcessKeepsInv(s: Cluster, name: string, order: seq<string>, faults: Faults, reserved: set<Identity>)
    requires Inv(s, reserved) && name in s.rules && name in s.cache && s.cache[name] == s.rules[name]
    requires Listing(order, s.nodes.Keys)
    ensures Inv(Process(s, name, order, faults).state, reserved)
  {
    ProcessEffect(s, name, order, faults);
    EvaluatedTended(s, name, faults, reserved);
  }

  lemma AdoptKeepsInv(s: Cluster, name: string, order: seq<string>, faults: Faults, reserved: set<Identity>)
    requires Inv(s, reserved) && name in s.rules && FINALIZER in s.rules[name].finalizers
    requires Listing(order, s.nodes.Keys)
    ensures Inv(Adopt(s, name, order, faults).state, reserved)
  {
    if name in s.cache && SelectorChanged(s.rules[name].spec.selector, s.cache[name].spec.selector) {
      var swept := Sweep(s, name, faults);
      SweepKeepsInv(s, name, faults, reserved);
      if swept.ok {
        forall n | n in s.nodes ensures Behind(swept.state, name, n) {
          SweptIsBehind(s, name, faults, reserved, n);
        }
        CachingKeepsInv(swept.state, name, reserved);
        ProcessKeepsInv(swept.state.(cache := swept.state.cache[name := s.rules[name]]), name, order, faults, reserved);
      }
    } else {
      forall n | n in s.nodes ensures Behind(s, name, n) {
        UnchangedIsBehind(s, name, reserved, n);
      }
      CachingKeepsInv(s, name, reserved);
      ProcessKeepsInv(s.(cache := s.cache[name := s.rules[name]]), name, order, faults, reserved);
    }
  }

  lemma GuardKeepsInv(s: Cluster, name: string, reserved: set<Identity>)
    requires Inv(s, reserved) && name in s.rules
    ensures Inv(Guarded(s, name), reserved) && FINALIZER in Guarded(s, name).rules[name].finalizers
  {
  }

  lemma RuleReconcileKeepsInv(s: Cluster, name: string, order: seq<string>, faults: Faults, reserved: set<Identity>)
    requires Inv(s, reserved) && Listing(order, s.nodes.Keys)
    ensures Inv(ReconcileRule(s, name, order, faults).state, reserved)
  {
    if name !in s.rules {
      assert s.cache - {name} == s.cache;
    } else if s.rules[name].deleting {
      FinalizeKeepsInv(s, name, faults, reserved);
    } else if FINALIZER in s.rules[name].finalizers {
      AdoptKeepsInv(s, name, order, faults, reserved);
    } else if AddFinalizer !in faults {
      GuardKeepsInv(s, name, reserved);
      AdoptKeepsInv(Guarded(s, name), name, order, faults, reserved);
    }
  }

  // ---------- others ----------

  lemma SamePresence(taints: seq<Taint>, a: Taint, b: Taint)
    ensures SameTaint(a, b) ==> (HasTaint(taints, a) <==> HasTaint(taints, b))
  {
  }

  lemma NodeWriteKeepsInv(s: Cluster, name: string, node: Node, reserved: set<Identity>)
    requires Inv(s, reserved) && Lawful(s, NodeWritten(name, node), reserved)
    ensures Inv(s.(nodes := s.nodes[name := node]), reserved)
  {
    forall c | c in node.claims ensures Backed(c, s.cache, node.labels) {
      assert Backed(c, s.cache, s.nodes[name].labels);
      SamePresence(s.nodes[name].taints, Claimed(c), s.cache[c.rule].spec.taint);
      SamePresence(node.taints, Claimed(c), s.cache[c.rule].spec.taint);
    }
    forall t | t in node.taints && (t.key, t.effect) in reserved ensures IsClaimed(node, t) {
      var u :| u in s.nodes[name].taints && SameTaint(u, t);
      assert IsClaimed(s.nodes[name], u);
    }
  }

  lemma {:induction false} StepKeepsInv(s: Cluster, step: Step, reserved: set<Identity>)
    requires Inv(s, reserved) && Lawful(s, step, reserved)
    ensures Inv(Apply(s, step, reserved), reserved)
  {
    match step
    case Reconciles(m) =>
      if m.OnNode? {
        NodeReconcileKeepsInv(s, m.node, m.order, m.faults, reserved);
      } else {
        RuleReconcileKeepsInv(s, m.rule, m.order, m.faults, reserved);
      }
    case NodeWritten(name, node) => NodeWriteKeepsInv(s, name, node, reserved);
    case _ =>
  }

  ghost predicate LawfulRun(s: Cluster, steps: seq<Step>, reserved: set<Identity>)
    decreases |steps|
  {
    steps == [] || (Lawful(s, steps[0], reserved) && LawfulRun(Apply(s, steps[0], reserved), steps[1..], reserved))
  }

  ghost function After(s: Cluster, steps: seq<Step>, reserved: set<Identity>): Cluster
    requires LawfulRun(s, steps, reserved)
    decreases |steps|
  {
    if steps == [] then s else After(Apply(s, steps[0], reserved), steps[1..], reserved)
  }

  lemma {:induction false} RunKeepsInv(s: Cluster, steps: seq<Step>, reserved: set<Identity>)
    requires Inv(s, reserved) && LawfulRun(s, steps, reserved)
    ensures Inv(After(s, steps, reserved), reserved)
    decreases |steps|
  {
    if steps != [] {
      StepKeepsInv(s, steps[0], reserved);
      RunKeepsInv(Apply(s, steps[0], reserved), steps[1..], reserved);
    }
  }

  // ---------- what it means ----------

  /** The controller starts: nothing cached, nothing claimed, no reserved taint on any node. */
  ghost predicate Start(s: Cluster, reserved: set<Identity>) {
    && s.cache == map[]
    && forall n :: n in s.nodes ==>
         s.nodes[n].claims == {} && forall t :: t in s.nodes[n].taints ==> (t.key, t.effect) !in reserved
  }

  lemma StartInv(s: Cluster, reserved: set<Identity>)
    requires Start(s, reserved)
    ensures Inv(s, reserved)
  {
  }

  /** In every reachable state, a taint the controller added for a rule and that is still on a node belongs
      to a rule that is stored with the cleanup finalizer and whose cached selector selects the node. */
  lemma ClaimsAreLookedAfter(s: Cluster, steps: seq<Step>, reserved: set<Identity>, n: string, c: Claim)
    requires Start(s, reserved) && LawfulRun(s, steps, reserved)
    requires n in After(s, steps, reserved).nodes && c in After(s, steps, reserved).nodes[n].claims
    ensures var end := After(s, steps, reserved);
            && c.rule in end.rules && FINALIZER in end.rules[c.rule].finalizers
            && SameTaint(end.rules[c.rule].spec.taint, Claimed(c))
            && c.rule in end.cache && Selects(end.cache[c.rule].spec.selector, end.nodes[n].labels)
  {
    StartInv(s, reserved);
    RunKeepsInv(s, steps, reserved);
    assert Tended(After(s, steps, reserved).nodes[n], After(s, steps, reserved).cache, reserved);
  }

  /** No orphans: in every reachable state, a reserved taint is on a node only while some stored rule, with
      the cleanup finalizer and a cached selector that selects the node, manages it. */
  lemma NoOrphanTaints(s: Cluster, steps: seq<Step>, reserved: set<Identity>, n: string, t: Taint)
    requires Start(s, reserved) && LawfulRun(s, steps, reserved)
    requires n in After(s, steps, reserved).nodes && t in After(s, steps, reserved).nodes[n].taints
    requires (t.key, t.effect) in reserved
    ensures var end := After(s, steps, reserved);
            exists r :: && r in end.rules && SameTaint(end.rules[r].spec.taint, t)
                && FINALIZER in end.rules[r].finalizers
                        && r in end.cache && Selects(end.cache[r].spec.selector, end.nodes[n].labels)
  {
    StartInv(s, reserved);
    RunKeepsInv(s, steps, reserved);
    var end := After(s, steps, reserved);
    assert Tended(end.nodes[n], end.cache, reserved);
    assert IsClaimed(end.nodes[n], t);
    var c :| c in end.nodes[n].claims && SameTaint(t, Claimed(c));
    ClaimsAreLookedAfter(s, steps, reserved, n, c);
  }

  /** Once the last rule with a reserved taint is gone from the store, no node carries it. */
  lemma GoneRuleLeavesNothing(s: Cluster, steps: seq<Step>, reserved: set<Identity>, taint: Taint)
    requires Start(s, reserved) && LawfulRun(s, steps, reserved) && (taint.key, taint.effect) in reserved
    requires forall r :: r in After(s, steps, reserved).rules ==>
             !SameTaint(After(s, steps, reserved).rules[r].spec.taint, taint)
    ensures forall n :: n in After(s, steps, reserved).nodes ==>
            !HasTaint(After(s, steps, reserved).nodes[n].taints, taint)
  {
    var end := After(s, steps, reserved);
    forall n | n in end.nodes ensures !HasTaint(end.nodes[n].taints, taint) {
      if HasTaint(end.nodes[n].taints, taint) {
        var t :| t in end.nodes[n].taints && SameTaint(t, taint);
        NoOrphanTaints(s, steps, reserved, n, t);
      }
    }
  }

  /** Finalizer before effect: in every reachable state a cached rule is stored with the finalizer. */
  lemma CachedRulesAreGuarded(s: Cluster, steps: seq<Step>, reserved: set<Identity>, r: string)
    requires Start(s, reserved) && LawfulRun(s, steps, reserved) && r in After(s, steps, reserved).cache
    ensures r in After(s, steps, reserved).rules && FINALIZER in After(s, steps, reserved).rules[r].finalizers
  {
    StartInv(s, reserved);
    RunKeepsInv(s, steps, reserved);
  }

  // ---------- what the lawful steps rule out ----------

  /** Deleting a rule while its edited selector was never reconciled orphans taints: with every call going
      through, the rule leaves the cache and its finalizer list, and its taint stays exactly where the
      stored selector does not reach. */
  lemma DeletionReachesStoredSelectorOnly(s: Cluster, name: string, order: seq<string>, n: string)
    requires name in s.rules && s.rules[name].deleting && FINALIZER in s.rules[name].finalizers
    requires Listing(order, s.nodes.Keys) && n in s.nodes
    ensures var after, spec := ReconcileRule(s, name, order, {}).state, s.rules[name].spec;
            && name !in after.cache && n in after.nodes
            && (HasTaint(after.nodes[n].taints, spec.taint)
                <==> HasTaint(s.nodes[n].taints, spec.taint) && !Selects(spec.selector, s.nodes[n].labels))
  {
    var spec := s.rules[name].spec;
    assert Blocked(s.nodes, Selected(s.nodes, spec.selector), name, spec.taint, {}) == {};
    WithoutMembers(s.nodes[n].taints, spec.taint);
  }

  /** Deleting a rule whose cleanup finalizer somebody else took off cleans nothing. */
  lemma UnguardedDeletionCleansNothing(s: Cluster, name: string, order: seq<string>, faults: Faults)
    requires name in s.rules && s.rules[name].deleting && FINALIZER !in s.rules[name].finalizers
    requires Listing(order, s.nodes.Keys)
    ensures ReconcileRule(s, name, order, faults) == Outcome(s, true)
  {
  }

  lemma EvaluationTouchesNot(
    nodes: map<string, Node>, rule: string, spec: RuleSpec, faults: Faults, n: string, t: Taint)
    requires n in nodes && (SameTaint(spec.taint, t) ==> !Selects(spec.selector, nodes[n].labels))
    ensures var after := Evaluated(nodes, nodes.Keys, rule, spec, faults)[n];
            after.labels == nodes[n].labels && (HasTaint(after.taints, t) <==> HasTaint(nodes[n].taints, t))
  {
    if Selects(spec.selector, nodes[n].labels) {
      ActDecides(nodes[n], rule, spec, t);
    }
  }

  /** The rule does not manage the taint, or neither its stored nor its cached selector selects the node. */
  ghost predicate HasNoSay(s: Cluster, name: string, n: string, t: Taint)
    requires name in s.rules && n in s.nodes
  {
    SameTaint(s.rules[name].spec.taint, t) ==>
      && !Selects(s.rules[name].spec.selector, s.nodes[n].labels)
      && (name in s.cache ==> !Selects(s.cache[name].spec.selector, s.nodes[n].labels))
  }

  lemma SweptPresence(s: Cluster, name: string, faults: Faults, n: string, t: Taint)
    requires name in s.rules && n in s.nodes && HasNoSay(s, name, n, t)
    ensures var after := SweptNodes(s, name, faults)[n];
            (HasTaint(after.taints, t) <==> HasTaint(s.nodes[n].taints, t)) && after.labels == s.nodes[n].labels
  {
    if Edited(s, name) {
      SweptNode(s, name, faults, n);
      if !SameTaint(s.rules[name].spec.taint, t) {
        WithoutOther(s.nodes[n].taints, s.rules[name].spec.taint, t);
      }
    }
  }

  /** The node keeps its labels, and it has the taint after exactly when it had it before. */
  ghost predicate Untouched(before: Cluster, after: Cluster, n: string, t: Taint) {
    && n in before.nodes && n in after.nodes && after.nodes[n].labels == before.nodes[n].labels
    && (HasTaint(after.nodes[n].taints, t) <==> HasTaint(before.nodes[n].taints, t))
  }

  lemma FinalizingTouchesNot(s: Cluster, name: string, faults: Faults, n: string, t: Taint)
    requires name in s.rules && n in s.nodes && HasNoSay(s, name, n, t)
    ensures Untouched(s, Finalize(s, name, faults).state, n, t)
  {
    if !SameTaint(s.rules[name].spec.taint, t) {
      WithoutOther(s.nodes[n].taints, s.rules[name].spec.taint, t);
    }
  }

  lemma LiveReconcileTouchesNot(
    s: Cluster, name: string, order: seq<string>, faults: Faults, n: string, t: Taint)
    requires name in s.rules && !s.rules[name].deleting && n in s.nodes && HasNoSay(s, name, n, t)
    requires Listing(order, s.nodes.Keys)
    ensures Untouched(s, ReconcileRule(s, name, order, faults).state, n, t)
  {
    LiveReconcileEffect(s, name, order, faults);
    SweptPresence(s, name, faults, n, t);
    EvaluationTouchesNot(SweptNodes(s, name, faults), name, s.rules[name].spec, faults, n, t);
  }

  /** A reconcile of a rule that has no say in a node's taint neither adds nor removes it. */
  lemma NoSayNoChange(s: Cluster, name: string, order: seq<string>, faults: Faults, n: string, t: Taint)
    requires name in s.rules && n in s.nodes && HasNoSay(s, name, n, t) && Listing(order, s.nodes.Keys)
    ensures Untouched(s, ReconcileRule(s, name, order, faults).state, n, t)
  {
    if s.rules[name].deleting {
      FinalizingTouchesNot(s, name, faults, n, t);
    } else {
      LiveReconcileTouchesNot(s, name, order, faults, n, t);
    }
  }

  /** So editing a rule's taint abandons the old one: no reconcile of the rule touches it again. */
  lemma {:induction false} EditedTaintIsAbandoned(
    s: Cluster, name: string, order: seq<string>, faults: Faults, old_: Taint, n: string)
    requires name in s.rules && !SameTaint(s.rules[name].spec.taint, old_)
    requires Listing(order, s.nodes.Keys) && n in s.nodes
    ensures var after := ReconcileRule(s, name, order, faults).state;
            n in after.nodes && (HasTaint(after.nodes[n].taints, old_) <==> HasTaint(s.nodes[n].taints, old_))
  {
    NoSayNoChange(s, name, order, faults, n, old_);
  }

  // ---------- relabelled nodes ----------

  /** No rule with the taint, as stored or as cached, selects the node. */
  ghost predicate Unmanaged(s: Cluster, n: string, t: Taint) {
    && n in s.nodes
    && (forall r :: r in s.rules ==> HasNoSay(s, r, n, t))
    && (forall r :: r in s.cache && SameTaint(s.cache[r].spec.taint, t) ==>
          !Selects(s.cache[r].spec.selector, s.nodes[n].labels))
  }

  lemma UnmanagedRuleMove(s: Cluster, name: string, order: seq<string>, faults: Faults, n: string, t: Taint)
    requires Unmanaged(s, n, t) && Listing(order, s.nodes.Keys)
    ensures var after := ReconcileRule(s, name, order, faults).state;
            Unmanaged(after, n, t) && Untouched(s, after, n, t)
  {
    if name in s.rules {
      assert HasNoSay(s, name, n, t);
      NoSayNoChange(s, name, order, faults, n, t);
      RuleReconcileSpecs(s, name, order, faults);
      var after := ReconcileRule(s, name, order, faults).state;
      forall r | r in after.rules ensures HasNoSay(after, r, n, t) {
        assert HasNoSay(s, r, n, t);
      }
    }
  }

  lemma UnmanagedNodeMove(s: Cluster, name: string, order: seq<string>, faults: Faults, n: string, t: Taint)
    requires Unmanaged(s, n, t) && NodeOrder(s, name, order)
    ensures var after := ReconcileNode(s, name, order, faults);
            Unmanaged(after, n, t) && (HasTaint(after.nodes[n].taints, t) <==> HasTaint(s.nodes[n].taints, t))
  {
    if name in s.nodes {
      var m, after := s.nodes[name], ReconcileNode(s, name, order, faults);
      NodeMoveEffect(s, name, order, faults);
      PassKeepsFacts(Fresh(m), s.cache, order, name, s.globalDryRun, faults);
      if name == n {
        SteadyPresence(m, Fresh(m), s.cache, order, name, s.globalDryRun, faults, t, HasTaint(m.taints, t));
      }
      forall r | r in after.rules ensures HasNoSay(after, r, n, t) {
        assert HasNoSay(s, r, n, t);
      }
    }
  }

  /** A taint that a node keeps through a relabelling away from all rules that manage it is abandoned: no run of
      reconciles ever removes it, or adds it. */
  lemma {:induction false} UnmanagedTaintStays(s: Cluster, moves: seq<Move>, n: string, t: Taint)
    requires Unmanaged(s, n, t) && CanRun(s, moves)
    ensures var end := RunAll(s, moves);
            Unmanaged(end, n, t) && (HasTaint(end.nodes[n].taints, t) <==> HasTaint(s.nodes[n].taints, t))
    decreases |moves|
  {
    if moves != [] {
      match moves[0] {
        case OnNode(name, order, faults) => UnmanagedNodeMove(s, name, order, faults, n, t);
        case OnRule(name, order, faults) => UnmanagedRuleMove(s, name, order, faults, n, t);
      }
      UnmanagedTaintStays(Perform(s, moves[0]), moves[1..], n, t);
    }
  }

  // ---------- edits that the check misses ----------

  /** An edit that goes unnoticed abandons the nodes it leaves behind: whatever fails, the reconcile leaves such
      a node and its taints as they were, and once the finalizer is in place it caches the edited rule,
      which does not select the node. */
  lemma UnnoticedEditAbandonsNodes(s: Cluster, name: string, order: seq<string>, faults: Faults, n: string)
    requires name in s.rules && !s.rules[name].deleting && name in s.cache && !Edited(s, name)
    requires Listing(order, s.nodes.Keys)
    requires n in LeftBehind(s.nodes, s.cache[name].spec.selector, s.rules[name].spec.selector)
    ensures var after := ReconcileRule(s, name, order, faults).state;
            && n in after.nodes && after.nodes[n] == s.nodes[n]
            && (Guardable(s, name, faults) ==>
                  name in after.cache && !Selects(after.cache[name].spec.selector, s.nodes[n].labels))
  {
    LiveReconcileEffect(s, name, order, faults);
  }

  // ---------- when the cache moves ----------

  /** The spec of a live rule reaches the cache exactly when it is there already, or the finalizer is in place
      or gets there and the cleanup behind a noticed edit, if there is one, succeeds. */
  lemma SpecReachesCacheExactly(s: Cluster, name: string, order: seq<string>, faults: Faults)
    requires name in s.rules && !s.rules[name].deleting && Listing(order, s.nodes.Keys)
    ensures var after := ReconcileRule(s, name, order, faults).state;
            (name in after.cache && after.cache[name].spec == s.rules[name].spec)
            <==> Proceeds(s, name, faults) || (name in s.cache && s.cache[name].spec == s.rules[name].spec)
  {
    LiveReconcileEffect(s, name, order, faults);
  }

  /** A live rule whose cached selector is in error, and an edit of it that the check notices. */
  predicate Stuck(s: Cluster, name: string) {
    && name in s.rules && !s.rules[name].deleting && Edited(s, name) && InError(s.cache[name].spec.selector)
  }

  /** The cleanup cannot read the cached selector, so the reconcile fails: nodes and cache stay as they are, and
      so do the rules but for the finalizer. */
  lemma StuckRuleFails(s: Cluster, name: string, order: seq<string>, faults: Faults)
    requires Stuck(s, name) && Listing(order, s.nodes.Keys)
    ensures var out := ReconcileRule(s, name, order, faults);
            && !out.ok && out.state == s.(rules := out.state.rules)
            && (out.state.rules == s.rules || out.state.rules == Guarded(s, name).rules)
  {
    LiveReconcile(s, name, order, faults);
  }

  lemma FaultFreeProcessSucceeds(s: Cluster, name: string, order: seq<string>)
    requires name in s.rules && Listing(order, s.nodes.Keys)
    ensures Process(s, name, order, {}).ok
  {
  }

  /** That is exactly what it takes: with no call failing, a reconcile of a live, cached rule succeeds, and its
      spec reaches the cache, if and only if the rule is not stuck. */
  lemma {:induction false} StuckExactly(s: Cluster, name: string, order: seq<string>)
    requires name in s.rules && !s.rules[name].deleting && name in s.cache && Listing(order, s.nodes.Keys)
    ensures var out := ReconcileRule(s, name, order, {});
            && (out.ok <==> !Stuck(s, name))
            && (name in out.state.cache && out.state.cache[name].spec == s.rules[name].spec <==> !Stuck(s, name))
  {
    LiveReconcile(s, name, order, {});
    LiveReconcileEffect(s, name, order, {});
    SelectorUnchangedAgainstItself(s.rules[name].spec.selector);
    assert Proceeds(s, name, {}) <==> !Stuck(s, name);
    if Proceeds(s, name, {}) {
      FaultFreeProcessSucceeds(Prepared(s, name, {}), name, order);
    }
  }

  /** So an error can be corrected by an edit that the check does not notice: the text of the one expression is
      that of the two values it should have been. */
  lemma UnnoticedCorrectionIsNotStuck(s: Cluster, name: string)
    requires name in s.rules && !s.rules[name].deleting && name in s.cache
    requires s.cache[name].spec.selector == Some(LabelSelector(map[], [Requirement("k", OP_IN, ["a b"])]))
    requires s.rules[name].spec.selector == Some(LabelSelector(map[], [Requirement("k", OP_IN, ["a", "b"])]))
    ensures InError(s.cache[name].spec.selector) && !InError(s.rules[name].spec.selector) && !Stuck(s, name)
  {
    SpacedTexts();
    var one, two := s.cache[name].spec.selector, s.rules[name].spec.selector;
    assert ExpressionKeys(two.value.matchExpressions) == ExpressionKeys(one.value.matchExpressions);
  }

  lemma OtherRuleStays(s: Cluster, name: string, other: string, order: seq<string>, faults: Faults)
    requires Listing(order, s.nodes.Keys) && other in s.rules && other in s.cache && other != name
    ensures var after := ReconcileRule(s, name, order, faults).state;
            && other in after.rules && after.rules[other] == s.rules[other]
            && other in after.cache && after.cache[other] == s.cache[other]
  {
    if name in s.rules && !s.rules[name].deleting {
      LiveReconcileEffect(s, name, order, faults);
    }
  }

  lemma MoveKeepsStuck(s: Cluster, m: Move, name: string)
    requires Stuck(s, name) && CanMove(s, m)
    ensures Stuck(Perform(s, m), name) && Perform(s, m).cache[name].spec == s.cache[name].spec
  {
    if m.OnRule? {
      if m.rule == name {
        StuckRuleFails(s, name, m.order, m.faults);
      } else {
        OtherRuleStays(s, m.rule, name, m.order, m.faults);
      }
    } else if m.node in s.nodes {
      PassKeepsRules(s.rules, Fresh(s.nodes[m.node]), s.cache, m.order, m.node, s.globalDryRun, m.faults);
    }
  }

  /** No run of reconciles gets a stuck rule out of there: its edited spec never reaches the cache. */
  lemma {:induction false} StuckForever(s: Cluster, moves: seq<Move>, name: string)
    requires Stuck(s, name) && CanRun(s, moves)
    ensures Stuck(RunAll(s, moves), name) && RunAll(s, moves).cache[name].spec == s.cache[name].spec
    decreases |moves|
  {
    if moves != [] {
      MoveKeepsStuck(s, moves[0], name);
      StuckForever(Perform(s, moves[0]), moves[1..], name);
    }
  }

  /** A deleted rule leaves the cache only once every node its selector reaches is clean ... */
  lemma UncachedAfterCleanup(s: Cluster, name: string, order: seq<string>, faults: Faults, n: string)
    requires name in s.rules && s.rules[name].deleting && name in s.cache && Listing(order, s.nodes.Keys)
    requires n in s.nodes && Selects(s.rules[name].spec.selector, s.nodes[n].labels)
    ensures var after := ReconcileRule(s, name, order, faults).state;
            name !in after.cache ==> n in after.nodes && !HasTaint(after.nodes[n].taints, s.rules[name].spec.taint)
  {
    var spec := s.rules[name].spec;
    var targets := Selected(s.nodes, spec.selector);
    if Blocked(s.nodes, targets, name, spec.taint, faults) == {} {
      AllCleaned(s.nodes, targets, name, spec.taint, faults, n);
    }
  }

  /** ... and an edited selector reaches the cache only once every node it left behind is clean. */
  lemma {:induction false} CacheAdvancesAfterSweep(
    s: Cluster, name: string, order: seq<string>, faults: Faults, n: string)
    requires name in s.rules && !s.rules[name].deleting && Edited(s, name) && Listing(order, s.nodes.Keys)
    requires n in LeftBehind(s.nodes, s.cache[name].spec.selector, s.rules[name].spec.selector)
    ensures var after := ReconcileRule(s, name, order, faults).state;
            after.cache != s.cache ==> n in after.nodes && !HasTaint(after.nodes[n].taints, s.rules[name].spec.taint)
  {
    LiveReconcileEffect(s, name, order, faults);
    SweptNode(s, name, faults, n);
    if Proceeds(s, name, faults) {
      assert n !in Blocked(s.nodes, LeftBehind(s.nodes, s.cache[name].spec.selector, s.rules[name].spec.selector),
                           name, s.rules[name].spec.taint, faults);
    }
  }

  // ---------- finalizers ----------

  lemma OthersStay(finalizers: seq<string>)
    ensures forall f :: f in WithoutFinalizer(finalizers) <==> f in finalizers && f != FINALIZER
    ensures FINALIZER !in finalizers ==> WithoutFinalizer(finalizers) == finalizers
  {
    FilterMembers(finalizers, NotOurs);
    if FINALIZER !in finalizers {
      FilterNothing(finalizers, NotOurs);
    }
  }

  /** Adding the cleanup finalizer and taking it off again gives back the others, in their order. */
  lemma FinalizerRoundTrip(finalizers: seq<string>)
    ensures WithoutFinalizer(WithFinalizer(finalizers)) == WithoutFinalizer(finalizers)
    ensures FINALIZER !in finalizers ==> WithoutFinalizer(WithFinalizer(finalizers)) == finalizers
  {
    OthersStay(finalizers);
    FilterConcat(finalizers, [FINALIZER], NotOurs);
  }
}
