/** What one atomic reconcile does to the cluster: the specification of both reconcilers.
    The faults say which API calls fail; the orders are those in which the lists and the rule cache
    happen to be iterated. */
module Reconcile {
  import opened Model
  import opened Sequences
  import opened Selectors
  import opened Evaluation

  // ---------- status in the store ----------

  /** The status conditions stay as stored; everything else is replaced. */
  function Publish(stored: Status, status: Status): Status {
    status.(conditions := stored.conditions)
  }

  function WithStatus(rules: map<string, Rule>, name: string, status: Status): map<string, Rule> {
    if name in rules then rules[name := rules[name].(status := Publish(rules[name].status, status))] else rules
  }

  function OnOneOf(existing: set<string>): NodeEvaluation -> bool {
    (e: NodeEvaluation) => e.nodeName in existing
  }

  function Pruned(evaluations: seq<NodeEvaluation>, existing: set<string>): seq<NodeEvaluation> {
    Filter(evaluations, OnOneOf(existing))
  }

  // ---------- one node against all rules ----------

  function Applicable(cache: map<string, Rule>, labels: map<string, string>): (names: set<string>)
    ensures forall r :: r in names <==> r in cache && Selects(cache[r].spec.selector, labels)
  {
    set r | r in cache && Selects(cache[r].spec.selector, labels)
  }

  /** A bootstrap-only rule that completed on the stored node, or dry run. */
  predicate Skipped(stored: Node, rule: string, spec: RuleSpec, dry: bool) {
    (Completed(stored, rule) && spec.mode == BootstrapOnly) || spec.dryRun || dry
  }

  function PassView(
    v: View, cache: map<string, Rule>, order: seq<string>, name: string, dry: bool, faults: Faults): View
  {
    if order == [] then v
    else
      var init, r := order[..|order| - 1], order[|order| - 1];
      var before := PassView(v, cache, init, name, dry, faults);
      if r !in cache || Skipped(before.stored, r, cache[r].spec, dry) then before
      else Enforce(r, cache[r].spec, name, before, faults)
  }

  /** The cached rules are the objects being evaluated, so their status changes in the cache. */
  function PassCache(
    v: View, cache: map<string, Rule>, order: seq<string>, name: string, dry: bool, faults: Faults)
    : (after: map<string, Rule>)
    ensures after.Keys == cache.Keys
    ensures forall r :: r in cache ==> after[r] == cache[r].(status := after[r].status)
  {
    if order == [] then cache
    else
      var init, r := order[..|order| - 1], order[|order| - 1];
      var before := PassView(v, cache, init, name, dry, faults);
      var c := PassCache(v, cache, init, name, dry, faults);
      if r !in cache || Skipped(before.stored, r, cache[r].spec, dry) then c
      else c[r := c[r].(status := Recorded(c[r].status, r, cache[r].spec, name, before, faults))]
  }

  /** Each evaluated rule's cached status is published. */
  function PassRules(
    rules: map<string, Rule>, v: View, cache: map<string, Rule>, order: seq<string>, name: string, dry: bool,
    faults: Faults)
    : map<string, Rule>
  {
    if order == [] then rules
    else
      var init, r := order[..|order| - 1], order[|order| - 1];
      var before := PassView(v, cache, init, name, dry, faults);
      var rs := PassRules(rules, v, cache, init, name, dry, faults);
      if r !in cache || Skipped(before.stored, r, cache[r].spec, dry) || PublishStatus(r) in faults then rs
      else WithStatus(rs, r, PassCache(v, cache, order, name, dry, faults)[r].status)
  }

  ghost predicate NodeOrder(s: Cluster, name: string, order: seq<string>) {
    name in s.nodes ==> Listing(order, Applicable(s.cache, s.nodes[name].labels))
  }

  function NodeView(s: Cluster, name: string, order: seq<string>, faults: Faults): View
    requires name in s.nodes
  {
    PassView(Fresh(s.nodes[name]), s.cache, order, name, s.globalDryRun, faults)
  }

  ghost function ReconcileNode(s: Cluster, name: string, order: seq<string>, faults: Faults): Cluster
    requires NodeOrder(s, name, order)
  {
    if name !in s.nodes then s
    else
      var v := Fresh(s.nodes[name]);
      s.(nodes := s.nodes[name := NodeView(s, name, order, faults).stored],
         cache := PassCache(v, s.cache, order, name, s.globalDryRun, faults),
         rules := PassRules(s.rules, v, s.cache, order, name, s.globalDryRun, faults))
  }

  // ---------- one rule against all nodes ----------

  function Selected(nodes: map<string, Node>, selector: Option<LabelSelector>): set<string> {
    set n | n in nodes && Selects(selector, nodes[n].labels)
  }

  function Evaluated(nodes: map<string, Node>, among: set<string>, rule: string, spec: RuleSpec, faults: Faults)
    : map<string, Node>
  {
    map n | n in nodes ::
      if n in among && Selects(spec.selector, nodes[n].labels)
      then Enforce(rule, spec, n, Fresh(nodes[n]), faults).stored
      else nodes[n]
  }

  function AppliedNodes(nodes: map<string, Node>, order: seq<string>, spec: RuleSpec): seq<string>
    requires forall n :: n in order ==> n in nodes
  {
    if order == [] then []
    else
      var init, n := order[..|order| - 1], order[|order| - 1];
      var rest := AppliedNodes(nodes, init, spec);
      if Selects(spec.selector, nodes[n].labels) then rest + [n] else rest
  }

  function RowStatus(
    status: Status, nodes: map<string, Node>, order: seq<string>, rule: string, spec: RuleSpec, faults: Faults): Status
    requires forall n :: n in order ==> n in nodes
  {
    if order == [] then status
    else
      var init, n := order[..|order| - 1], order[|order| - 1];
      var before := RowStatus(status, nodes, init, rule, spec, faults);
      if Selects(spec.selector, nodes[n].labels) then Recorded(before, rule, spec, n, Fresh(nodes[n]), faults)
          else before
  }

  predicate Risky(spec: RuleSpec, n: Node) {
    exists c :: c in spec.conditions && ConditionStatus(n.conditions, c.kind) == UNKNOWN
  }

  function Deciding(nodes: map<string, Node>, among: set<string>, spec: RuleSpec, action: Action): set<string> {
    set n | n in among && n in nodes && Selects(spec.selector, nodes[n].labels) && Decide(spec, nodes[n]) == action
  }

  function RiskyNodes(nodes: map<string, Node>, among: set<string>, spec: RuleSpec): set<string> {
    set n | n in among && n in nodes && Selects(spec.selector, nodes[n].labels) && Risky(spec, nodes[n])
  }

  function AmongSelected(nodes: map<string, Node>, among: set<string>, spec: RuleSpec): set<string> {
    set n | n in among && n in nodes && Selects(spec.selector, nodes[n].labels)
  }

  /** What a dry run counts among these nodes. */
  function Tally(nodes: map<string, Node>, among: set<string>, spec: RuleSpec): DryRunResults {
    DryRunResults(
      |AmongSelected(nodes, among, spec)|,
      |Deciding(nodes, among, spec, Add)|,
      |Deciding(nodes, among, spec, Remove)|,
      |RiskyNodes(nodes, among, spec)|)
  }

  function Simulated(nodes: map<string, Node>, spec: RuleSpec): DryRunResults {
    Tally(nodes, nodes.Keys, spec)
  }

  // ---------- cleanup ----------

  function Cleaned(nodes: map<string, Node>, targets: set<string>, rule: string, taint: Taint, faults: Faults)
    : map<string, Node>
  {
    map n | n in nodes ::
      if n in targets && HasTaint(nodes[n].taints, taint) && PatchTaints(rule, n) !in faults
      then Untainted(nodes[n], taint)
      else nodes[n]
  }

  /** The nodes on which removing the taint was tried and failed. */
  function Blocked(
    nodes: map<string, Node>, targets: set<string>, rule: string, taint: Taint, faults: Faults): set<string> {
    set n | n in targets && n in nodes && HasTaint(nodes[n].taints, taint) && PatchTaints(rule, n) in faults
  }

  predicate NotOurs(f: string) {
    f != FINALIZER
  }

  function WithoutFinalizer(finalizers: seq<string>): seq<string> {
    Filter(finalizers, NotOurs)
  }

  function WithFinalizer(finalizers: seq<string>): seq<string> {
    if FINALIZER in finalizers then finalizers else finalizers + [FINALIZER]
  }

  /** The store drops a rule under deletion once its last finalizer is gone. */
  function Store(rules: map<string, Rule>, name: string, rule: Rule): map<string, Rule> {
    if rule.deleting && rule.finalizers == [] then rules - {name} else rules[name := rule]
  }

  // ---------- the rule reconciler ----------

  datatype Outcome = Outcome(state: Cluster, ok: bool)

  function Finalize(s: Cluster, name: string, faults: Faults): Outcome
    requires name in s.rules
  {
    var rule := s.rules[name];
    if FINALIZER !in rule.finalizers then Outcome(s, true)
    else if ListForCleanup in faults then Outcome(s, false)
    else
      var targets := Selected(s.nodes, rule.spec.selector);
      var cleaned := s.(nodes := Cleaned(s.nodes, targets, name, rule.spec.taint, faults));
      if Blocked(s.nodes, targets, name, rule.spec.taint, faults) != {} || RemoveFinalizer in faults
          then Outcome(cleaned, false)
      else Outcome(cleaned.(
        rules := Store(s.rules, name, rule.(finalizers := WithoutFinalizer(rule.finalizers))),
        cache := s.cache - {name}), true)
  }

  predicate NoLongerSelected(previous: Option<LabelSelector>, current: Option<LabelSelector>, n: Node) {
    Selects(previous, n.labels) && !Selects(current, n.labels)
  }

  /** The nodes an edited selector left behind. */
  function LeftBehind(
    nodes: map<string, Node>, previous: Option<LabelSelector>, current: Option<LabelSelector>): set<string>
  {
    set n | n in nodes && NoLongerSelected(previous, current, nodes[n])
  }

  function Sweep(s: Cluster, name: string, faults: Faults): Outcome
    requires name in s.rules && name in s.cache
  {
    var spec, previous := s.rules[name].spec, s.cache[name].spec.selector;
    if ListForCleanup in faults || (previous.Some? && !Parseable(previous.value)) then Outcome(s, false)
    else
      var targets := LeftBehind(s.nodes, previous, spec.selector);
      Outcome(s.(nodes := Cleaned(s.nodes, targets, name, spec.taint, faults)),
              Blocked(s.nodes, targets, name, spec.taint, faults) == {})
  }

  function PublishAndPrune(s: Cluster, name: string, status: Status, faults: Faults): Outcome
    requires name in s.rules
  {
    if PublishStatus(name) in faults then Outcome(s, false)
    else
      var published := s.(rules := WithStatus(s.rules, name, status));
      if ListForPrune in faults then Outcome(published, false)
      else if |Pruned(status.evaluations, s.nodes.Keys)| == |status.evaluations| then Outcome(published, true)
      else if PruneStatus in faults then Outcome(published, false)
      else
        var latest := published.rules[name];
        var kept := Pruned(latest.status.evaluations, s.nodes.Keys);
        if |kept| == |latest.status.evaluations| then Outcome(published, true)
        else
          var pruned := latest.(status := latest.status.(evaluations := kept));
          Outcome(published.(rules := published.rules[name := pruned]), true)
  }

  function ProcessedStatus(
    rule: Rule, nodes: map<string, Node>, order: seq<string>, name: string, faults: Faults): Status
    requires forall n :: n in order ==> n in nodes
  {
    var cleared := rule.status.(dryRunResults := None);
    RowStatus(cleared, nodes, order, name, rule.spec, faults).(
      observedGeneration := rule.generation,
      appliedNodes := AppliedNodes(nodes, order, rule.spec))
  }

  function Process(s: Cluster, name: string, order: seq<string>, faults: Faults): Outcome
    requires name in s.rules && forall n :: n in order ==> n in s.nodes
  {
    var rule := s.rules[name];
    if ListForProcessing in faults then Outcome(s, false)
    else if rule.spec.dryRun then
      PublishAndPrune(s, name, rule.status.(dryRunResults := Some(Simulated(s.nodes, rule.spec))), faults)
    else
      PublishAndPrune(
        s.(nodes := Evaluated(s.nodes, s.nodes.Keys, name, rule.spec, faults)),
        name, ProcessedStatus(rule, s.nodes, order, name, faults), faults)
  }

  /** A live rule whose finalizer is in place: clean up behind an edited selector, cache it, process it. */
  function Adopt(s: Cluster, name: string, order: seq<string>, faults: Faults): Outcome
    requires name in s.rules && forall n :: n in order ==> n in s.nodes
  {
    var rule := s.rules[name];
    var swept :=
      if name in s.cache && SelectorChanged(rule.spec.selector, s.cache[name].spec.selector) then Sweep(s, name, faults)
      else Outcome(s, true);
    if !swept.ok then swept
    else Process(swept.state.(cache := swept.state.cache[name := rule]), name, order, faults)
  }

  ghost function ReconcileRule(s: Cluster, name: string, order: seq<string>, faults: Faults): Outcome
    requires Listing(order, s.nodes.Keys)
  {
    if name !in s.rules then Outcome(s.(cache := s.cache - {name}), true)
    else if s.rules[name].deleting then Finalize(s, name, faults)
    else if FINALIZER in s.rules[name].finalizers then Adopt(s, name, order, faults)
    else if AddFinalizer in faults then Outcome(s, false)
    else
      var guarded := s.rules[name].(finalizers := WithFinalizer(s.rules[name].finalizers));
      var s' := s.(rules := s.rules[name := guarded]);
      if RefreshRule in faults then Outcome(s', false) else Adopt(s', name, order, faults)
  }
}
