/** Evaluating one rule against one node: the verdict, the taint action and the status entry. */
module Evaluation {
  import opened Model
  import opened Sequences

  // ---------- conditions ----------

  /** The status of the first condition of that kind; a missing one reads as Unknown. */
  function ConditionStatus(conditions: seq<Condition>, kind: string): string {
    if conditions == [] then UNKNOWN
    else if conditions[0].kind == kind then conditions[0].status
    else ConditionStatus(conditions[1..], kind)
  }

  predicate Met(c: ConditionRequirement, conditions: seq<Condition>) {
    ConditionStatus(conditions, c.kind) == c.requiredStatus
  }

  /** A missing condition is unsatisfied, except where "Unknown" is what the rule asks for. */
  lemma {:induction false} MissingConditionMeets(c: ConditionRequirement, conditions: seq<Condition>)
    requires forall x :: x in conditions ==> x.kind != c.kind
    ensures Met(c, conditions) <==> c.requiredStatus == "Unknown"
  {
    if conditions != [] {
      assert conditions[0] in conditions;
      MissingConditionMeets(c, conditions[1..]);
    }
  }

  /** All required conditions hold. */
  predicate Ready(spec: RuleSpec, conditions: seq<Condition>) {
    forall c :: c in spec.conditions ==> Met(c, conditions)
  }

  function ResultOf(c: ConditionRequirement, conditions: seq<Condition>): ConditionResult {
    var status := ConditionStatus(conditions, c.kind);
    ConditionResult(c.kind, status, c.requiredStatus, status == c.requiredStatus, status == UNKNOWN)
  }

  function Results(spec: RuleSpec, conditions: seq<Condition>): (rs: seq<ConditionResult>)
    ensures |rs| == |spec.conditions|
    ensures forall i :: 0 <= i < |rs| ==> rs[i] == ResultOf(spec.conditions[i], conditions)
  {
    seq(|spec.conditions|, i requires 0 <= i < |spec.conditions| => ResultOf(spec.conditions[i], conditions))
  }

  // ---------- what a result says ----------

  /** A reader of these conditions finds this status: that of the first one of the kind, or else "Unknown". */
  ghost predicate ReadsAs(conditions: seq<Condition>, kind: string, status: string) {
    || (exists i :: 0 <= i < |conditions| && conditions[i] == Condition(kind, status)
                    && forall j :: 0 <= j < i ==> conditions[j].kind != kind)
    || (status == "Unknown" && forall c :: c in conditions ==> c.kind != kind)
  }

  ghost predicate ReportsOn(x: ConditionResult, c: ConditionRequirement, conditions: seq<Condition>) {
    && x.kind == c.kind && x.requiredStatus == c.requiredStatus && ReadsAs(conditions, c.kind, x.currentStatus)
    && (x.satisfied <==> x.currentStatus == x.requiredStatus)
    && (x.missing <==> x.currentStatus == "Unknown")
  }

  /** One true result for each requirement, in order. */
  ghost predicate Reports(results: seq<ConditionResult>, spec: RuleSpec, conditions: seq<Condition>) {
    && |results| == |spec.conditions|
    && forall i :: 0 <= i < |results| ==> ReportsOn(results[i], spec.conditions[i], conditions)
  }

  /** A true entry for the node: its results are, and the taint is absent exactly when all are satisfied. */
  ghost predicate Accounts(e: NodeEvaluation, name: string, spec: RuleSpec, conditions: seq<Condition>) {
    && e.nodeName == name && Reports(e.results, spec, conditions)
    && (e.taintStatus == Absent <==> forall x :: x in e.results ==> x.satisfied)
  }

  lemma {:induction false} StatusReads(conditions: seq<Condition>, kind: string)
    ensures ReadsAs(conditions, kind, ConditionStatus(conditions, kind))
  {
    if conditions != [] {
      var status := ConditionStatus(conditions, kind);
      if conditions[0].kind == kind {
        assert conditions[0] == Condition(kind, status);
      } else {
        StatusReads(conditions[1..], kind);
        if i :| 0 <= i < |conditions| - 1 && conditions[1..][i] == Condition(kind, status)
                && forall j :: 0 <= j < i ==> conditions[1..][j].kind != kind {
          assert conditions[i + 1] == Condition(kind, status);
          assert forall j :: 0 < j < i + 1 ==> conditions[j] == conditions[1..][j - 1];
        } else {
          assert forall c :: c in conditions ==> c == conditions[0] || c in conditions[1..];
        }
      }
    }
  }

  /** The results of an evaluation are true, and all satisfied exactly when the rule's conditions hold. */
  lemma ResultsReport(spec: RuleSpec, conditions: seq<Condition>)
    ensures Reports(Results(spec, conditions), spec, conditions)
    ensures Ready(spec, conditions) <==> forall x :: x in Results(spec, conditions) ==> x.satisfied
  {
    var rs := Results(spec, conditions);
    forall i | 0 <= i < |rs| ensures ReportsOn(rs[i], spec.conditions[i], conditions) {
      StatusReads(conditions, spec.conditions[i].kind);
    }
    assert forall i :: 0 <= i < |rs| ==> (rs[i].satisfied <==> Met(spec.conditions[i], conditions));
    if forall x :: x in rs ==> x.satisfied {
      forall c | c in spec.conditions ensures Met(c, conditions) {
        var i :| 0 <= i < |spec.conditions| && spec.conditions[i] == c;
        assert rs[i] in rs;
      }
    }
  }

  // ---------- taints ----------

  /** A taint is identified by key and effect; its value plays no part. */
  predicate SameTaint(s: Taint, t: Taint) {
    s.key == t.key && s.effect == t.effect
  }

  type Identity = (string, string)

  function IdentityOf(t: Taint): Identity {
    (t.key, t.effect)
  }

  predicate HasTaint(taints: seq<Taint>, spec: Taint) {
    exists t :: t in taints && SameTaint(t, spec)
  }

  /** No taint of the list is there twice. */
  ghost predicate UniqueTaints(taints: seq<Taint>) {
    forall i, j :: 0 <= i < j < |taints| ==> !SameTaint(taints[i], taints[j])
  }

  function NotOf(spec: Taint): Taint -> bool {
    (t: Taint) => !SameTaint(t, spec)
  }

  function Without(taints: seq<Taint>, spec: Taint): seq<Taint> {
    Filter(taints, NotOf(spec))
  }

  /** Removal keeps exactly the other taints. */
  lemma WithoutMembers(taints: seq<Taint>, spec: Taint)
    ensures forall t :: t in Without(taints, spec) <==> t in taints && !SameTaint(t, spec)
    ensures !HasTaint(Without(taints, spec), spec)
  {
    FilterMembers(taints, NotOf(spec));
  }

  lemma WithoutOther(taints: seq<Taint>, spec: Taint, other: Taint)
    requires !SameTaint(other, spec)
    ensures HasTaint(Without(taints, spec), other) <==> HasTaint(taints, other)
  {
    WithoutMembers(taints, spec);
  }

  function DropClaims(claims: set<Claim>, spec: Taint): set<Claim> {
    set c | c in claims && !(c.key == spec.key && c.effect == spec.effect)
  }

  function Untainted(n: Node, spec: Taint): Node {
    n.(taints := Without(n.taints, spec), claims := DropClaims(n.claims, spec))
  }

  function Tainted(n: Node, rule: string, spec: Taint): Node {
    n.(taints := n.taints + [spec], claims := n.claims + {Claim(rule, spec.key, spec.effect)})
  }

  lemma TaintedHas(n: Node, rule: string, spec: Taint, other: Taint)
    ensures HasTaint(Tainted(n, rule, spec).taints, other) <==> HasTaint(n.taints, other) || SameTaint(spec, other)
  {
  }

  /** A patch of the taints replaces the whole list. */
  function WithTaintsOf(stored: Node, copy: Node): Node {
    stored.(taints := copy.taints, claims := copy.claims)
  }

  // ---------- the action ----------

  datatype Action = Add | Remove | Keep

  function Decide(spec: RuleSpec, n: Node): Action {
    if Ready(spec, n.conditions) && HasTaint(n.taints, spec.taint) then Remove
    else if !Ready(spec, n.conditions) && !HasTaint(n.taints, spec.taint) then Add
    else Keep
  }

  function Act(action: Action, n: Node, rule: string, spec: Taint): Node {
    match action
    case Remove => Untainted(n, spec)
    case Add => Tainted(n, rule, spec)
    case Keep => n
  }

  predicate Completed(n: Node, rule: string) {
    BootstrapKey(rule) in n.annotations
  }

  /** Completion is recorded once; an annotation already there is left alone. */
  function Complete(n: Node, rule: string): Node {
    if Completed(n, rule) then n else n.(annotations := n.annotations[BootstrapKey(rule) := "true"])
  }

  /** One node as a reconcile sees it: the stored object, the copy it works on and patches from,
      and how many taint patches went through. A failed patch leaves its change in the copy. */
  datatype View = View(stored: Node, copy: Node, patches: nat)

  function Fresh(n: Node): View {
    View(n, n, 0)
  }

  /** The action failed to reach the store. */
  predicate Fails(rule: string, spec: RuleSpec, name: string, v: View, faults: Faults) {
    Decide(spec, v.copy) != Keep && PatchTaints(rule, name) in faults
  }

  predicate Completes(rule: string, spec: RuleSpec, name: string, action: Action, faults: Faults) {
    action == Remove && spec.mode == BootstrapOnly && MarkBootstrap(rule, name) !in faults
  }

  /** Evaluate a rule and enforce its verdict. A patch that goes through stores the whole taint list of
      the copy, including whatever earlier failed patches left there. */
  function Enforce(rule: string, spec: RuleSpec, name: string, v: View, faults: Faults): View {
    var action := Decide(spec, v.copy);
    var copy := Act(action, v.copy, rule, spec.taint);
    if action == Keep then v
    else if PatchTaints(rule, name) in faults then v.(copy := copy)
    else
      var stored := WithTaintsOf(v.stored, copy);
      View(if Completes(rule, spec, name, action, faults) then Complete(stored, rule) else stored, copy, v.patches + 1)
  }

  // ---------- status lists ----------

  function Upsert(evaluations: seq<NodeEvaluation>, e: NodeEvaluation): seq<NodeEvaluation> {
    if evaluations == [] then [e]
    else if evaluations[0].nodeName == e.nodeName then [e] + evaluations[1..]
    else [evaluations[0]] + Upsert(evaluations[1..], e)
  }

  function NotOn(name: string): NodeFailure -> bool {
    (f: NodeFailure) => f.nodeName != name
  }

  function FailuresExcept(failures: seq<NodeFailure>, name: string): seq<NodeFailure> {
    Filter(failures, NotOn(name))
  }

  function WithFailure(status: Status, name: string): Status {
    status.(failures := FailuresExcept(status.failures, name) + [NodeFailure(name, EVALUATION_ERROR)])
  }

  function Observed(taints: seq<Taint>, spec: Taint): TaintStatus {
    if HasTaint(taints, spec) then Present else Absent
  }

  function WithEvaluation(status: Status, spec: RuleSpec, name: string, n: Node): Status {
    status.(evaluations :=
      Upsert(status.evaluations, NodeEvaluation(name, Results(spec, n.conditions), Observed(n.taints, spec.taint))))
  }

  /** What one evaluation leaves in the status: an entry when it went well, else a failure record. */
  function Recorded(status: Status, rule: string, spec: RuleSpec, name: string, before: View, faults: Faults): Status {
    if Fails(rule, spec, name, before, faults) then WithFailure(status, name)
    else WithEvaluation(status, spec, name, Enforce(rule, spec, name, before, faults).copy)
  }
}
