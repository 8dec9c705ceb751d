/** The objects the controller reads and writes.
    A rule and a node carry no name of their own here: the maps that hold them are keyed by name. */
module Model {

  datatype Option<+T> = None | Some(value: T)

  // ---------- nodes ----------

  datatype Taint = Taint(key: string, value: string, effect: string)

  datatype Condition = Condition(kind: string, status: string)

  /** A record that the controller put the taint (key, effect) on a node on behalf of a rule.
      No code reads it; it only lets a theorem say who added what. */
  datatype Claim = Claim(rule: string, key: string, effect: string)

  datatype Node = Node(
    labels: map<string, string>,
    taints: seq<Taint>,
    conditions: seq<Condition>,
    annotations: map<string, string>,
    claims: set<Claim>)

  // ---------- rules ----------

  datatype Requirement = Requirement(key: string, operator: string, values: seq<string>)

  datatype LabelSelector = LabelSelector(matchLabels: map<string, string>, matchExpressions: seq<Requirement>)

  datatype ConditionRequirement = ConditionRequirement(kind: string, requiredStatus: string)

  datatype EnforcementMode = BootstrapOnly | Continuous | OtherMode(text: string)

  datatype RuleSpec = RuleSpec(
    conditions: seq<ConditionRequirement>,
    mode: EnforcementMode,
    taint: Taint,
    selector: Option<LabelSelector>,
    dryRun: bool)

  datatype ConditionResult = ConditionResult(
    kind: string, currentStatus: string, requiredStatus: string, satisfied: bool, missing: bool)

  datatype TaintStatus = Present | Absent

  datatype NodeEvaluation = NodeEvaluation(nodeName: string, results: seq<ConditionResult>, taintStatus: TaintStatus)

  datatype NodeFailure = NodeFailure(nodeName: string, reason: string)

  datatype DryRunResults = DryRunResults(affectedNodes: nat, taintsToAdd: nat, taintsToRemove: nat,
      riskyOperations: nat)

  datatype Status = Status(
    observedGeneration: nat,
    conditions: seq<string>,
    appliedNodes: seq<string>,
    evaluations: seq<NodeEvaluation>,
    failures: seq<NodeFailure>,
    dryRunResults: Option<DryRunResults>)

  datatype Rule = Rule(spec: RuleSpec, finalizers: seq<string>, deleting: bool, generation: nat, status: Status)

  // ---------- the whole system ----------

  /** The stored nodes and rules, the controller's rule cache and its emergency off-switch. */
  datatype Cluster = Cluster(
    nodes: map<string, Node>,
    rules: map<string, Rule>,
    cache: map<string, Rule>,
    globalDryRun: bool)

  /** The API calls one reconcile can make and see fail. A reconcile makes each of them at most once,
      so a set of calls is enough to say which ones fail. */
  datatype Call =
    | PatchTaints(rule: string, node: string)
    | MarkBootstrap(rule: string, node: string)
    | PublishStatus(rule: string)
    | PruneStatus
    | AddFinalizer
    | RefreshRule
    | RemoveFinalizer
    | ListForCleanup
    | ListForProcessing
    | ListForPrune

  type Faults = set<Call>

  const FINALIZER := "nodereadiness.io/cleanup-taints"
  const UNKNOWN := "Unknown"
  const BOOTSTRAP_PREFIX := "readiness.k8s.io/bootstrap-completed-"
  const EVALUATION_ERROR := "EvaluationError"

  function BootstrapKey(rule: string): string {
    BOOTSTRAP_PREFIX + rule
  }

  lemma BootstrapKeyInjective(a: string, b: string)
    requires BootstrapKey(a) == BootstrapKey(b)
    ensures a == b
  {
    assert a == BootstrapKey(a)[|BOOTSTRAP_PREFIX|..];
    assert b == BootstrapKey(b)[|BOOTSTRAP_PREFIX|..];
  }
}
