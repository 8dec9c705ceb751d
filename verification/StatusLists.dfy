/** The status lists: one entry and one failure per node, entries that tell the truth about the node,
    and what publishing and pruning leave in the store. */
module StatusLists {
  import opened Model
  import opened Sequences
  import opened Selectors
  import opened Evaluation
  import opened Reconcile
  import opened RulePass
  import opened Verdicts
  import opened Runs

  // ---------- lists as maps ----------

  function EvaluationNames(es: seq<NodeEvaluation>): (ns: seq<string>)
    ensures |ns| == |es| && forall i :: 0 <= i < |es| ==> ns[i] == es[i].nodeName
  {
    seq(|es|, i requires 0 <= i < |es| => es[i].nodeName)
  }

  function FailureNames(fs: seq<NodeFailure>): (ns: seq<string>)
    ensures |ns| == |fs| && forall i :: 0 <= i < |fs| ==> ns[i] == fs[i].nodeName
  {
    seq(|fs|, i requires 0 <= i < |fs| => fs[i].nodeName)
  }

  function ByNode(es: seq<NodeEvaluation>): map<string, NodeEvaluation> {
    if es == [] then map[] else ByNode(es[1..])[es[0].nodeName := es[0]]
  }

  /** The first entry of that node is replaced where it stands ... */
  lemma {:induction false} UpsertReplaces(es: seq<NodeEvaluation>, e: NodeEvaluation, i: nat)
    requires i < |es| && es[i].nodeName == e.nodeName && forall j :: 0 <= j < i ==> es[j].nodeName != e.nodeName
    ensures Upsert(es, e) == es[i := e]
  {
    if i > 0 {
      UpsertReplaces(es[1..], e, i - 1);
      assert es[i := e] == [es[0]] + es[1..][i - 1 := e];
    }
  }

  /** ... and without one the entry goes to the end. */
  lemma {:induction false} UpsertAppends(es: seq<NodeEvaluation>, e: NodeEvaluation)
    requires forall j :: 0 <= j < |es| ==> es[j].nodeName != e.nodeName
    ensures Upsert(es, e) == es + [e]
  {
    if es != [] {
      UpsertAppends(es[1..], e);
      assert es + [e] == [es[0]] + (es[1..] + [e]);
    }
  }

  lemma {:induction false} UpsertMap(es: seq<NodeEvaluation>, e: NodeEvaluation)
    ensures ByNode(Upsert(es, e)) == ByNode(es)[e.nodeName := e]
  {
    if es != [] {
      if es[0].nodeName == e.nodeName {
        assert Upsert(es, e)[1..] == es[1..];
      } else {
        assert Upsert(es, e)[1..] == Upsert(es[1..], e);
        UpsertMap(es[1..], e);
      }
    }
  }

  lemma NamesAfterUpsert(es: seq<NodeEvaluation>, e: NodeEvaluation)
    requires Distinct(EvaluationNames(es))
    ensures EvaluationNames(Upsert(es, e))
            == if e.nodeName in EvaluationNames(es) then EvaluationNames(es) else EvaluationNames(es) + [e.nodeName]
  {
  }

  lemma DistinctPlusOne(names: seq<string>, name: string)
    requires Distinct(names) && name !in names
    ensures Distinct(names + [name])
  {
  }

  /** Setting a node's entry is a map update, and keeps the position of an entry already there. */
  lemma {:induction false} UpsertIsMapUpdate(es: seq<NodeEvaluation>, e: NodeEvaluation)
    requires Distinct(EvaluationNames(es))
    ensures Distinct(EvaluationNames(Upsert(es, e)))
    ensures ByNode(Upsert(es, e)) == ByNode(es)[e.nodeName := e]
    ensures EvaluationNames(Upsert(es, e))
            == if e.nodeName in EvaluationNames(es) then EvaluationNames(es) else EvaluationNames(es) + [e.nodeName]
  {
    NamesAfterUpsert(es, e);
    UpsertMap(es, e);
    if e.nodeName !in EvaluationNames(es) {
      DistinctPlusOne(EvaluationNames(es), e.nodeName);
    }
  }

  lemma {:induction false} FailuresExceptFacts(fs: seq<NodeFailure>, name: string)
    requires Distinct(FailureNames(fs))
    ensures var after := FailuresExcept(fs, name);
            && Distinct(FailureNames(after)) && |after| <= |fs|
            && (forall f :: f in after <==> f in fs && f.nodeName != name)
  {
    if fs != [] {
      var init, last := fs[..|fs| - 1], fs[|fs| - 1];
      assert fs == init + [last];
      assert FailureNames(fs) == FailureNames(init) + [last.nodeName];
      FailuresExceptFacts(init, name);
      var rest := FailuresExcept(init, name);
      assert forall f :: f in rest ==> f in init && f.nodeName in FailureNames(init) by {
        forall f | f in rest ensures f.nodeName in FailureNames(init) {
          var i :| 0 <= i < |init| && init[i] == f;
          assert FailureNames(init)[i] == f.nodeName;
        }
      }
      assert last.nodeName !in FailureNames(init);
      assert FailureNames(rest + [last]) == FailureNames(rest) + [last.nodeName];
    }
  }

  /** Recording a failure replaces the node's earlier one and leaves the other records. */
  lemma FailureRecordedOnce(status: Status, name: string)
    requires Distinct(FailureNames(status.failures))
    ensures var after := WithFailure(status, name);
            && Distinct(FailureNames(after.failures))
            && (forall f :: f in after.failures <==>
                  (f in status.failures && f.nodeName != name) || f == NodeFailure(name, "EvaluationError"))
            && after == status.(failures := after.failures)
  {
    FailuresExceptFacts(status.failures, name);
    var rest, own := FailuresExcept(status.failures, name), NodeFailure(name, EVALUATION_ERROR);
    assert FailureNames(rest + [own]) == FailureNames(rest) + [name];
    forall i | 0 <= i < |rest| ensures FailureNames(rest)[i] != name {
      assert rest[i] in rest;
    }
  }

  // ---------- a rule's status after a pass over the nodes ----------

  ghost predicate OnePerNode(status: Status) {
    Distinct(EvaluationNames(status.evaluations)) && Distinct(FailureNames(status.failures))
  }

  predicate FailedOn(status: Status, n: string) {
    NodeFailure(n, EVALUATION_ERROR) in status.failures
  }

  /** The entry the rule owes the node: one result per requirement, in order, and the taint as it now is. */
  function TrueEntry(nodes: map<string, Node>, rule: string, spec: RuleSpec, n: string, faults: Faults): NodeEvaluation
    requires n in nodes
  {
    NodeEvaluation(n, Results(spec, nodes[n].conditions),
                   Observed(Evaluated(nodes, nodes.Keys, rule, spec, faults)[n].taints, spec.taint))
  }

  lemma RecordedFacts(status: Status, nodes: map<string, Node>, rule: string, spec: RuleSpec, n: string, faults: Faults)
    requires n in nodes && OnePerNode(status) && Selects(spec.selector, nodes[n].labels)
    ensures var after := Recorded(status, rule, spec, n, Fresh(nodes[n]), faults);
            && OnePerNode(after)
            && if Fails(rule, spec, n, Fresh(nodes[n]), faults)
               then FailedOn(after, n) && after.evaluations == status.evaluations
                    && forall m :: m != n ==> (FailedOn(after, m) <==> FailedOn(status, m))
               else after.failures == status.failures
                    && ByNode(after.evaluations)
                        == ByNode(status.evaluations)[n := TrueEntry(nodes, rule, spec, n, faults)]
  {
    if Fails(rule, spec, n, Fresh(nodes[n]), faults) {
      FailureRecordedOnce(status, n);
    } else {
      UpsertIsMapUpdate(status.evaluations, TrueEntry(nodes, rule, spec, n, faults));
    }
  }

  predicate IsEvaluated(nodes: map<string, Node>, order: seq<string>, spec: RuleSpec, n: string) {
    n in order && n in nodes && Selects(spec.selector, nodes[n].labels)
  }

  /** After the pass: still one entry and one failure per node; a node whose evaluation failed has a
      failure record and its old entry; every other evaluated node has its true entry; nodes the rule
      does not select are as before. */
  lemma {:induction false} RowStatusIsTrue(
    status: Status, nodes: map<string, Node>, order: seq<string>, rule: string, spec: RuleSpec, faults: Faults,
    n: string)
    requires Distinct(order) && (forall m :: m in order ==> m in nodes) && OnePerNode(status)
    ensures var after := RowStatus(status, nodes, order, rule, spec, faults);
            && OnePerNode(after)
            && (IsEvaluated(nodes, order, spec, n) && Fails(rule, spec, n, Fresh(nodes[n]), faults) ==>
                FailedOn(after, n))
            && (!(IsEvaluated(nodes, order, spec, n) && Fails(rule, spec, n, Fresh(nodes[n]), faults)) ==>
                  (FailedOn(after, n) <==> FailedOn(status, n)))
            && (IsEvaluated(nodes, order, spec, n) && !Fails(rule, spec, n, Fresh(nodes[n]), faults) ==>
                  n in ByNode(after.evaluations)
                      && ByNode(after.evaluations)[n] == TrueEntry(nodes, rule, spec, n, faults))
            && (!(IsEvaluated(nodes, order, spec, n) && !Fails(rule, spec, n, Fresh(nodes[n]), faults)) ==>
                  SameEntry(after.evaluations, status.evaluations, n))
  {
    if order != [] {
      var init, m := order[..|order| - 1], order[|order| - 1];
      assert order == init + [m];
      RowStatusIsTrue(status, nodes, init, rule, spec, faults, n);
      if Selects(spec.selector, nodes[m].labels) {
        RecordedFacts(RowStatus(status, nodes, init, rule, spec, faults), nodes, rule, spec, m, faults);
      }
    }
  }

  /** The entry of a node evaluated without failing says, requirement by requirement, what its conditions are. */
  lemma RowEntryAccounts(
    status: Status, nodes: map<string, Node>, order: seq<string>, rule: string, spec: RuleSpec, faults: Faults,
    n: string)
    requires Distinct(order) && (forall m :: m in order ==> m in nodes) && OnePerNode(status)
    requires IsEvaluated(nodes, order, spec, n) && !Fails(rule, spec, n, Fresh(nodes[n]), faults)
    ensures var entries := ByNode(RowStatus(status, nodes, order, rule, spec, faults).evaluations);
            n in entries && Accounts(entries[n], n, spec, nodes[n].conditions)
  {
    RowStatusIsTrue(status, nodes, order, rule, spec, faults, n);
    ResultsReport(spec, nodes[n].conditions);
    EvaluatedPresence(nodes, rule, spec, faults, n);
  }

  ghost predicate SameEntry(a: seq<NodeEvaluation>, b: seq<NodeEvaluation>, n: string) {
    (n in ByNode(a) <==> n in ByNode(b)) && (n in ByNode(a) ==> ByNode(a)[n] == ByNode(b)[n])
  }

  // ---------- a rule's status after a pass of one node ----------

  /** Only the node's entry has changed: it is this one now. */
  ghost predicate EntryIs(before: Status, after: Status, e: NodeEvaluation) {
    && OnePerNode(after) && after == before.(evaluations := after.evaluations)
    && ByNode(after.evaluations) == ByNode(before.evaluations)[e.nodeName := e]
  }

  /** Only the node's failure record has changed: there is one now. */
  ghost predicate FailureIs(before: Status, after: Status, name: string) {
    && OnePerNode(after) && after == before.(failures := after.failures)
    && forall f :: f in after.failures <==>
         (f in before.failures && f.nodeName != name) || f == NodeFailure(name, EVALUATION_ERROR)
  }

  /** The entry that the verdict asks for. */
  function Verdict(spec: RuleSpec, conditions: seq<Condition>, name: string): NodeEvaluation {
    NodeEvaluation(name, Results(spec, conditions), if Ready(spec, conditions) then Absent else Present)
  }

  lemma EnforcedAgrees(rule: string, spec: RuleSpec, name: string, v: View, faults: Faults)
    ensures var copy := Enforce(rule, spec, name, v, faults).copy;
            && copy.conditions == v.copy.conditions
            && (HasTaint(copy.taints, spec.taint) <==> !Ready(spec, v.copy.conditions))
  {
    WithoutMembers(v.copy.taints, spec.taint);
    TaintedHas(v.copy, rule, spec.taint, spec.taint);
  }

  lemma RecordedVerdict(status: Status, rule: string, spec: RuleSpec, name: string, v: View, faults: Faults)
    requires OnePerNode(status)
    ensures var after := Recorded(status, rule, spec, name, v, faults);
            if Fails(rule, spec, name, v, faults) then FailureIs(status, after, name)
            else EntryIs(status, after, Verdict(spec, v.copy.conditions, name))
  {
    EnforcedAgrees(rule, spec, name, v, faults);
    if Fails(rule, spec, name, v, faults) {
      FailureRecordedOnce(status, name);
    } else {
      UpsertIsMapUpdate(status.evaluations, Verdict(spec, v.copy.conditions, name));
    }
  }

  /** The rule has its turn in the pass and is not skipped. */
  ghost predicate HasTurn(n: Node, cache: map<string, Rule>, order: seq<string>, dry: bool, r: string)
    requires r in cache
  {
    r in order && !Skipped(n, r, cache[r].spec, dry)
  }

  /** At its turn the rule has something to do, and its patch fails. */
  ghost predicate FailsAtTurn(
    n: Node, cache: map<string, Rule>, order: seq<string>, name: string, dry: bool, faults: Faults, r: string)
    requires r in cache
  {
    PatchTaints(r, name) in faults && (FindsTaint(n, cache, order, dry, r) <==> Ready(cache[r].spec, n.conditions))
  }

  /** The status of a rule that has had its turn stays as it is. */
  lemma LaterTurn(
    v: View, cache: map<string, Rule>, order: seq<string>, name: string, dry: bool, faults: Faults, r: string)
    requires r in cache && order != [] && order[|order| - 1] != r
    ensures PassCache(v, cache, order, name, dry, faults)[r].status
            == PassCache(v, cache, order[..|order| - 1], name, dry, faults)[r].status
  {
  }

  lemma {:induction false} NoTurn(
    v: View, cache: map<string, Rule>, order: seq<string>, name: string, dry: bool, faults: Faults, r: string)
    requires r in cache && r !in order
    ensures PassCache(v, cache, order, name, dry, faults)[r] == cache[r]
  {
    if order != [] {
      assert order == order[..|order| - 1] + [order[|order| - 1]];
      NoTurn(v, cache, order[..|order| - 1], name, dry, faults, r);
    }
  }

  /** What its own turn makes of a rule's status. */
  lemma {:induction false} OwnTurn(
    v: View, cache: map<string, Rule>, order: seq<string>, name: string, dry: bool, faults: Faults, r: string)
    requires r in cache && r in order && Distinct(order)
    ensures var before := PassView(v, cache, Before(order, r), name, dry, faults);
            PassCache(v, cache, order, name, dry, faults)[r].status
            == if Skipped(before.stored, r, cache[r].spec, dry) then cache[r].status
               else Recorded(cache[r].status, r, cache[r].spec, name, before, faults)
  {
    LastIsNew(order);
    if order[|order| - 1] == r {
      NoTurn(v, cache, order[..|order| - 1], name, dry, faults, r);
    } else {
      OwnTurn(v, cache, order[..|order| - 1], name, dry, faults, r);
      LaterTurn(v, cache, order, name, dry, faults, r);
    }
  }

  /** Over a whole pass, whatever the order, the faults and the other rules, each cached status changes only
      when the rule has its turn: in the failure record when it fails then, else in the node's entry, which
      reports the taint present exactly when some requirement is unmet. */
  lemma PassStatusIsVerdict(
    n: Node, cache: map<string, Rule>, order: seq<string>, name: string, dry: bool, faults: Faults, r: string)
    requires r in cache && Distinct(order) && OnePerNode(cache[r].status)
    ensures var before, after := cache[r].status, PassCache(Fresh(n), cache, order, name, dry, faults)[r].status;
            if !HasTurn(n, cache, order, dry, r) then after == before
            else if FailsAtTurn(n, cache, order, name, dry, faults, r) then FailureIs(before, after, name)
            else EntryIs(before, after, Verdict(cache[r].spec, n.conditions, name))
  {
    if r in order {
      OwnTurn(Fresh(n), cache, order, name, dry, faults, r);
      AtItsTurn(n, cache, order, name, dry, faults, r);
      RecordedVerdict(cache[r].status, r, cache[r].spec, name,
                      PassView(Fresh(n), cache, Before(order, r), name, dry, faults), faults);
    } else {
      NoTurn(Fresh(n), cache, order, name, dry, faults, r);
    }
  }

  lemma VerdictAccounts(spec: RuleSpec, conditions: seq<Condition>, name: string)
    ensures Accounts(Verdict(spec, conditions, name), name, spec, conditions)
  {
    ResultsReport(spec, conditions);
  }

  /** A rule that has its turn and does not fail ends with an entry that says, requirement by requirement, what
      the node's conditions are. */
  lemma PassEntryAccounts(
    n: Node, cache: map<string, Rule>, order: seq<string>, name: string, dry: bool, faults: Faults, r: string)
    requires r in cache && Distinct(order) && OnePerNode(cache[r].status)
    requires HasTurn(n, cache, order, dry, r) && !FailsAtTurn(n, cache, order, name, dry, faults, r)
    ensures var entries := ByNode(PassCache(Fresh(n), cache, order, name, dry, faults)[r].status.evaluations);
            name in entries && Accounts(entries[name], name, cache[r].spec, n.conditions)
  {
    PassStatusIsVerdict(n, cache, order, name, dry, faults, r);
    VerdictAccounts(cache[r].spec, n.conditions, name);
  }

  // ---------- when the entry is true of the stored node ----------

  /** No other live rule shares the taint, or the rule has nothing to do and all that share it agree with it. */
  ghost predicate TruthSafe(n: Node, cache: map<string, Rule>, dry: bool, r: string)
    requires r in cache
  {
    var spec := cache[r].spec;
    || (forall q :: q in Applicable(cache, n.labels) && q != r ==> !Sharer(n, cache, dry, q, spec.taint))
    || (Decide(spec, n) == Keep
        && forall q :: q in Applicable(cache, n.labels) && Sharer(n, cache, dry, q, spec.taint) ==>
             (Ready(cache[q].spec, n.conditions) <==> Ready(spec, n.conditions)))
  }

  /** The entry that a look at the store would give. */
  ghost function StoredEntry(
    n: Node, cache: map<string, Rule>, order: seq<string>, name: string, dry: bool, faults: Faults, r: string)
    : NodeEvaluation
    requires r in cache
  {
    var stored := PassView(Fresh(n), cache, order, name, dry, faults).stored;
    NodeEvaluation(name, Results(cache[r].spec, n.conditions), Observed(stored.taints, cache[r].spec.taint))
  }

  lemma StoredWhenSteady(
    n: Node, cache: map<string, Rule>, order: seq<string>, name: string, dry: bool, faults: Faults, r: string)
    requires r in cache && Distinct(order)
    requires var there := HasTaint(n.taints, cache[r].spec.taint);
             && Content(n, cache, order, dry, cache[r].spec.taint, there)
             && (there <==> !Ready(cache[r].spec, n.conditions))
    ensures StoredEntry(n, cache, order, name, dry, faults, r) == Verdict(cache[r].spec, n.conditions, name)
  {
    var t := cache[r].spec.taint;
    SteadyPresence(n, Fresh(n), cache, order, name, dry, faults, t, HasTaint(n.taints, t));
  }

  /** A rule that shares its taint with no other, finds something to do and gets its patch through. */
  lemma StoredAfterOwnPatch(
    n: Node, cache: map<string, Rule>, order: seq<string>, name: string, dry: bool, faults: Faults, r: string)
    requires r in cache && r in order && Distinct(order) && Sharer(n, cache, dry, r, cache[r].spec.taint)
    requires forall q :: q in order && q != r ==> !Sharer(n, cache, dry, q, cache[r].spec.taint)
    requires Decide(cache[r].spec, n) != Keep && PatchTaints(r, name) !in faults
    ensures StoredEntry(n, cache, order, name, dry, faults, r) == Verdict(cache[r].spec, n.conditions, name)
  {
    var spec, before := cache[r].spec, Before(order, r);
    var later := TurnSplits(order, r);
    var v := PassView(Fresh(n), cache, before, name, dry, faults);
    var w := PassView(Fresh(n), cache, before + [r], name, dry, faults);
    SteadyPresence(n, Fresh(n), cache, before, name, dry, faults, spec.taint, HasTaint(n.taints, spec.taint));
    AtItsTurn(n, cache, order, name, dry, faults, r);
    assert (before + [r])[..|before|] == before;
    assert w == Enforce(r, spec, name, v, faults);
    ActDecides(v.copy, r, spec, spec.taint);
    forall q | q in later ensures Completed(w.stored, q) <==> Completed(n, q) {
      WithoutItsTurn(Fresh(n), cache, before + [r], name, dry, faults, q);
    }
    PassConcat(Fresh(n), cache, before + [r], later, name, dry, faults);
    SteadyPresence(n, w, cache, later, name, dry, faults, spec.taint, !Ready(spec, n.conditions));
  }

  /** A safe rule of any mode ends, whatever the order and the failures: unchanged if it was skipped, with a
      failure record if it failed, and otherwise with an entry that lists one result per requirement and the
      taint as it is in the store. */
  lemma {:induction false} PassStatusIsTrue(
    n: Node, cache: map<string, Rule>, order: seq<string>, name: string, dry: bool, faults: Faults, r: string)
    requires r in Applicable(cache, n.labels) && Listing(order, Applicable(cache, n.labels))
    requires OnePerNode(cache[r].status) && TruthSafe(n, cache, dry, r)
    ensures var before, after := cache[r].status, PassCache(Fresh(n), cache, order, name, dry, faults)[r].status;
            if !HasTurn(n, cache, order, dry, r) then after == before
            else if FailsAtTurn(n, cache, order, name, dry, faults, r) then FailureIs(before, after, name)
            else EntryIs(before, after, StoredEntry(n, cache, order, name, dry, faults, r))
  {
    var spec := cache[r].spec;
    PassStatusIsVerdict(n, cache, order, name, dry, faults, r);
    if HasTurn(n, cache, order, dry, r) && !FailsAtTurn(n, cache, order, name, dry, faults, r) {
      if Decide(spec, n) == Keep {
        StoredWhenSteady(n, cache, order, name, dry, faults, r);
      } else {
        var later := TurnSplits(order, r);
        NoSharerBefore(n, cache, Before(order, r), dry, spec.taint);
        StoredAfterOwnPatch(n, cache, order, name, dry, faults, r);
      }
    }
  }

  ghost predicate EntryIsTrue(
    n: Node, cache: map<string, Rule>, order: seq<string>, name: string, dry: bool, faults: Faults, r: string)
    requires r in cache
  {
    FailsAtTurn(n, cache, order, name, dry, faults, r)
    || EntryIs(cache[r].status, PassCache(Fresh(n), cache, order, name, dry, faults)[r].status,
               StoredEntry(n, cache, order, name, dry, faults, r))
  }

  /** An entry that is not what the store would give is false. */
  lemma OtherEntryIsFalse(
    n: Node, cache: map<string, Rule>, order: seq<string>, name: string, dry: bool, faults: Faults, r: string)
    requires r in cache && HasTurn(n, cache, order, dry, r) && Distinct(order) && OnePerNode(cache[r].status)
    requires !FailsAtTurn(n, cache, order, name, dry, faults, r)
    requires StoredEntry(n, cache, order, name, dry, faults, r) != Verdict(cache[r].spec, n.conditions, name)
    ensures !EntryIsTrue(n, cache, order, name, dry, faults, r)
  {
    PassStatusIsVerdict(n, cache, order, name, dry, faults, r);
    var after := PassCache(Fresh(n), cache, order, name, dry, faults)[r].status;
    assert ByNode(after.evaluations)[name] == Verdict(cache[r].spec, n.conditions, name);
  }

  /** A sharer with the opposite verdict that comes last has the last word in the store. */
  lemma {:induction false} OpposedEntryIsFalse(
    n: Node, cache: map<string, Rule>, name: string, dry: bool, r: string, q: string)
    returns (order: seq<string>)
    requires r in Applicable(cache, n.labels) && !Skipped(n, r, cache[r].spec, dry) && OnePerNode(cache[r].status)
    requires q in Applicable(cache, n.labels) && Sharer(n, cache, dry, q, cache[r].spec.taint)
    requires Ready(cache[q].spec, n.conditions) != Ready(cache[r].spec, n.conditions)
    ensures Listing(order, Applicable(cache, n.labels)) && !EntryIsTrue(n, cache, order, name, dry, {}, r)
  {
    var others := ListingOf(Applicable(cache, n.labels) - {q});
    order := others + [q];
    assert order[..|order| - 1] == others && r in others;
    CopyPresence(n, cache, order, name, dry, {}, cache[r].spec.taint);
    StoredFollowsCopy(n, cache, order, name, dry, {});
    OtherEntryIsFalse(n, cache, order, name, dry, {}, r);
  }

  /** A sharer with the same verdict that comes first, while every patch fails, leaves nothing to do in the
      copy and everything in the store. */
  lemma {:induction false} AgreeingEntryIsFalse(
    n: Node, cache: map<string, Rule>, name: string, dry: bool, r: string, q: string)
    returns (order: seq<string>, faults: Faults)
    requires r in Applicable(cache, n.labels) && !Skipped(n, r, cache[r].spec, dry) && OnePerNode(cache[r].status)
    requires q in Applicable(cache, n.labels) && q != r && Sharer(n, cache, dry, q, cache[r].spec.taint)
    requires Ready(cache[q].spec, n.conditions) == Ready(cache[r].spec, n.conditions)
    requires Decide(cache[r].spec, n) != Keep
    ensures Listing(order, Applicable(cache, n.labels)) && !EntryIsTrue(n, cache, order, name, dry, faults, r)
  {
    var all := Applicable(cache, n.labels);
    var rest := ListingOf(all - {q, r});
    order := [q] + [r] + rest;
    faults := set x | x in all :: PatchTaints(x, name);
    BeforeOf([q], r, rest);
    assert FindsTaint(n, cache, order, dry, r) <==> !Ready(cache[q].spec, n.conditions);
    assert r in order;
    AllPatchesFail(n, cache, order, name, dry, faults);
    OtherEntryIsFalse(n, cache, order, name, dry, faults, r);
  }

  /** For a rule that is not safe, some order and failures leave an entry that is false of the store. */
  lemma {:induction false} SharedTaintEntryIsFalse(
    n: Node, cache: map<string, Rule>, name: string, dry: bool, r: string)
    returns (order: seq<string>, faults: Faults)
    requires r in Applicable(cache, n.labels) && !Skipped(n, r, cache[r].spec, dry) && OnePerNode(cache[r].status)
    requires !TruthSafe(n, cache, dry, r)
    ensures Listing(order, Applicable(cache, n.labels)) && !EntryIsTrue(n, cache, order, name, dry, faults, r)
  {
    var spec, all := cache[r].spec, Applicable(cache, n.labels);
    if q :| q in all && Sharer(n, cache, dry, q, spec.taint)
            && Ready(cache[q].spec, n.conditions) != Ready(spec, n.conditions) {
      order := OpposedEntryIsFalse(n, cache, name, dry, r, q);
      faults := {};
    } else {
      var q :| q in all && q != r && Sharer(n, cache, dry, q, spec.taint);
      order, faults := AgreeingEntryIsFalse(n, cache, name, dry, r, q);
    }
  }

  /** The entry of a live rule that did not fail is true of the store in every order and under every set of
      failures exactly when no other live rule shares its taint, or the rule has nothing to do there and all
      live rules that share the taint agree with it. */
  lemma {:induction false} PassStatusTrueExactly(n: Node, cache: map<string, Rule>, name: string, dry: bool, r: string)
    requires r in Applicable(cache, n.labels) && !Skipped(n, r, cache[r].spec, dry) && OnePerNode(cache[r].status)
    ensures (forall order, faults :: Listing(order, Applicable(cache, n.labels)) ==>
               EntryIsTrue(n, cache, order, name, dry, faults, r))
            <==> TruthSafe(n, cache, dry, r)
  {
    if TruthSafe(n, cache, dry, r) {
      forall order, faults | Listing(order, Applicable(cache, n.labels))
        ensures EntryIsTrue(n, cache, order, name, dry, faults, r)
      {
        PassStatusIsTrue(n, cache, order, name, dry, faults, r);
      }
    } else {
      var order, faults := SharedTaintEntryIsFalse(n, cache, name, dry, r);
    }
  }

  /** The store ends with the cached status of each rule evaluated, under the stored status conditions, and
      with any other rule as it was. */
  lemma {:induction false} PassPublishes(
    rules: map<string, Rule>, n: Node, cache: map<string, Rule>, order: seq<string>, name: string, dry: bool,
    faults: Faults, r: string)
    requires r in cache && r in rules && Distinct(order)
    ensures var after := PassRules(rules, Fresh(n), cache, order, name, dry, faults);
            && r in after
            && after[r] == if HasTurn(n, cache, order, dry, r) && PublishStatus(r) !in faults
                           then rules[r].(
                             status := PassCache(Fresh(n), cache, order, name, dry, faults)[r].status.(
                               conditions := rules[r].status.conditions))
                           else rules[r]
  {
    if order != [] {
      var init, q := order[..|order| - 1], order[|order| - 1];
      LastIsNew(order);
      PassPublishes(rules, n, cache, init, name, dry, faults, r);
      if q == r {
        WithoutItsTurn(Fresh(n), cache, init, name, dry, faults, r);
      }
    }
  }

  // ---------- publish, then prune ----------

  lemma PrunedFacts(es: seq<NodeEvaluation>, existing: set<string>)
    ensures var after := Pruned(es, existing);
            && |after| <= |es| && (|after| == |es| <==> after == es)
            && (forall e :: e in after <==> e in es && e.nodeName in existing)
            && Pruned(after, existing) == after
  {
    FilterMembers(es, OnOneOf(existing));
    FilterNothing(Pruned(es, existing), OnOneOf(existing));
  }

  /** When publishing and pruning both succeed, the stored entries are those of existing nodes, in order;
      the rest of the new status is stored, the stored status conditions and the spec are untouched. */
  lemma PublishedAndPruned(s: Cluster, name: string, status: Status, faults: Faults)
    requires name in s.rules && PublishAndPrune(s, name, status, faults).ok
    ensures PublishAndPrune(s, name, status, faults).state
            == s.(rules := s.rules[name := s.rules[name].(
                    status := status.(evaluations := Pruned(status.evaluations, s.nodes.Keys),
                                      conditions := s.rules[name].status.conditions))])
  {
    PrunedFacts(status.evaluations, s.nodes.Keys);
  }

  /** Doing it again with what is stored changes nothing. */
  lemma PruningAgainWritesNothing(s: Cluster, name: string, status: Status, faults: Faults, again: Faults)
    requires name in s.rules && PublishAndPrune(s, name, status, faults).ok
    ensures var once := PublishAndPrune(s, name, status, faults).state;
            PublishAndPrune(once, name, once.rules[name].status, again).state == once
  {
    PublishedAndPruned(s, name, status, faults);
    PrunedFacts(status.evaluations, s.nodes.Keys);
    var once := PublishAndPrune(s, name, status, faults).state;
    assert once.rules[name := once.rules[name]] == once.rules;
  }

  /** The status a reconcile of the rule publishes. */
  function IntendedStatus(
    rule: Rule, nodes: map<string, Node>, order: seq<string>, name: string, faults: Faults): Status
    requires forall n :: n in order ==> n in nodes
  {
    if rule.spec.dryRun then rule.status.(dryRunResults := Some(Simulated(nodes, rule.spec)))
    else ProcessedStatus(rule, nodes, order, name, faults)
  }

  lemma ProcessedStore(s: Cluster, name: string, order: seq<string>, faults: Faults)
    requires name in s.rules && Listing(order, s.nodes.Keys) && Process(s, name, order, faults).ok
    ensures var rule := s.rules[name];
            var status := IntendedStatus(rule, s.nodes, order, name, faults);
            Process(s, name, order, faults).state.rules == s.rules[name := rule.(
              status := status.(evaluations := Pruned(status.evaluations, s.nodes.Keys),
                                conditions := rule.status.conditions))]
  {
    var rule := s.rules[name];
    var status := IntendedStatus(rule, s.nodes, order, name, faults);
    if rule.spec.dryRun {
      PublishedAndPruned(s, name, status, faults);
    } else {
      var evaluated := s.(nodes := Evaluated(s.nodes, s.nodes.Keys, name, rule.spec, faults));
      PublishedAndPruned(evaluated, name, status, faults);
      assert evaluated.nodes.Keys == s.nodes.Keys;
    }
  }

  /** A reconcile of a live rule that succeeds, in dry run or not, with the finalizer new or not, behind an
      edited selector or not, ends with exactly this in the store. */
  lemma ReconciledStatus(s: Cluster, name: string, order: seq<string>, faults: Faults)
    requires name in s.rules && !s.rules[name].deleting && Listing(order, s.nodes.Keys)
    requires ReconcileRule(s, name, order, faults).ok
    ensures Proceeds(s, name, faults)
    ensures var rule := Guarded(s, name).rules[name];
            var status := IntendedStatus(rule, SweptNodes(s, name, faults), order, name, faults);
            ReconcileRule(s, name, order, faults).state.rules == s.rules[name := rule.(
              status := status.(evaluations := Pruned(status.evaluations, s.nodes.Keys),
                                conditions := rule.status.conditions))]
  {
    LiveReconcile(s, name, order, faults);
    ProcessedStore(Prepared(s, name, faults), name, order, faults);
  }

  // ---------- failure records ----------

  lemma FailureAfterRecording(status: Status, name: string, n: string)
    ensures FailedOn(WithFailure(status, name), n) <==> FailedOn(status, n) || n == name
  {
    FilterMembers(status.failures, NotOn(name));
  }

  lemma {:induction false} RowFailures(
    status: Status, nodes: map<string, Node>, order: seq<string>, rule: string, spec: RuleSpec, faults: Faults,
    n: string)
    requires forall m :: m in order ==> m in nodes
    ensures FailedOn(RowStatus(status, nodes, order, rule, spec, faults), n)
            <==> FailedOn(status, n)
                 || (IsEvaluated(nodes, order, spec, n) && Fails(rule, spec, n, Fresh(nodes[n]), faults))
  {
    if order != [] {
      var init, m := order[..|order| - 1], order[|order| - 1];
      assert order == init + [m];
      RowFailures(status, nodes, init, rule, spec, faults, n);
      FailureAfterRecording(RowStatus(status, nodes, init, rule, spec, faults), m, n);
    }
  }

  /** A failure record does not say that the last evaluation failed: after a successful reconcile it says so
      exactly where there was none before or the evaluation failed again. */
  lemma FailureRecordExact(s: Cluster, name: string, order: seq<string>, faults: Faults, n: string)
    requires name in s.rules && !s.rules[name].deleting && Listing(order, s.nodes.Keys) && !s.rules[name].spec.dryRun
    requires ReconcileRule(s, name, order, faults).ok
    ensures name in ReconcileRule(s, name, order, faults).state.rules
    ensures var rule, after := s.rules[name], ReconcileRule(s, name, order, faults).state.rules[name];
            var swept := SweptNodes(s, name, faults);
            var failed := IsEvaluated(swept, order, rule.spec, n) && Fails(name, rule.spec, n, Fresh(swept[n]), faults);
            && (FailedOn(after.status, n) <==> FailedOn(rule.status, n) || failed)
            && ((FailedOn(after.status, n) <==> failed) <==> (FailedOn(rule.status, n) ==> failed))
  {
    var rule := s.rules[name];
    ReconciledStatus(s, name, order, faults);
    RowFailures(rule.status.(dryRunResults := None), SweptNodes(s, name, faults), order, name, rule.spec, faults, n);
  }

  lemma PublishKeepsFailures(s: Cluster, name: string, status: Status, faults: Faults, r: string, n: string)
    requires name in s.rules && r in s.rules && FailedOn(s.rules[r].status, n)
    requires r == name ==> FailedOn(status, n)
    ensures var after := PublishAndPrune(s, name, status, faults).state.rules;
            r in after && FailedOn(after[r].status, n)
  {
  }

  lemma ProcessKeepsFailures(s: Cluster, name: string, order: seq<string>, faults: Faults, r: string, n: string)
    requires name in s.rules && Listing(order, s.nodes.Keys) && r in s.rules && FailedOn(s.rules[r].status, n)
    ensures var after := Process(s, name, order, faults).state.rules;
            r in after && FailedOn(after[r].status, n)
  {
    var rule := s.rules[name];
    if rule.spec.dryRun {
      PublishKeepsFailures(s, name, rule.status.(dryRunResults := Some(Simulated(s.nodes, rule.spec))), faults, r, n);
    } else {
      RowFailures(rule.status.(dryRunResults := None), s.nodes, order, name, rule.spec, faults, n);
      PublishKeepsFailures(s.(nodes := Evaluated(s.nodes, s.nodes.Keys, name, rule.spec, faults)),
                           name, ProcessedStatus(rule, s.nodes, order, name, faults), faults, r, n);
    }
  }

  lemma ReconcileKeepsFailures(s: Cluster, name: string, order: seq<string>, faults: Faults, r: string, n: string)
    requires Listing(order, s.nodes.Keys) && r in s.rules && FailedOn(s.rules[r].status, n)
    ensures var after := ReconcileRule(s, name, order, faults).state.rules;
            r in after ==> FailedOn(after[r].status, n)
  {
    if name in s.rules && !s.rules[name].deleting {
      LiveReconcile(s, name, order, faults);
      if Proceeds(s, name, faults) {
        ProcessKeepsFailures(Prepared(s, name, faults), name, order, faults, r, n);
      }
    }
  }

  /** No run of rule reconciles, however successful, clears a failure record of a node while its rule stays. */
  lemma {:induction false} FailureRecordsStay(s: Cluster, moves: seq<Move>, r: string, n: string)
    requires CanRun(s, moves) && forall m :: m in moves ==> m.OnRule?
    requires r in s.rules && FailedOn(s.rules[r].status, n) && !s.rules[r].deleting
    ensures var end := RunAll(s, moves);
            r in end.rules && FailedOn(end.rules[r].status, n)
    decreases |moves|
  {
    if moves != [] {
      var m := moves[0];
      assert m in moves && forall x :: x in moves[1..] ==> x in moves;
      ReconcileKeepsFailures(s, m.rule, m.order, m.faults, r, n);
      LiveRuleStays(s, m.rule, m.order, m.faults, r);
      FailureRecordsStay(Perform(s, m), moves[1..], r, n);
    }
  }

  lemma LiveRuleStays(s: Cluster, name: string, order: seq<string>, faults: Faults, r: string)
    requires Listing(order, s.nodes.Keys) && r in s.rules && !s.rules[r].deleting
    ensures var after := ReconcileRule(s, name, order, faults).state.rules;
            r in after && !after[r].deleting
  {
    if name in s.rules && !s.rules[name].deleting {
      LiveReconcileEffect(s, name, order, faults);
    }
  }

  // ---------- two writers of one status ----------

  /** Evaluating rules leaves the cached generation and applied nodes as they were when the rule was
      cached, so a node reconcile publishes those. */
  lemma {:induction false} PassKeepsGeneration(
    v: View, cache: map<string, Rule>, order: seq<string>, name: string, dry: bool, faults: Faults, r: string)
    requires r in cache
    ensures var after := PassCache(v, cache, order, name, dry, faults)[r].status;
            && after.observedGeneration == cache[r].status.observedGeneration
            && after.appliedNodes == cache[r].status.appliedNodes
  {
    if order != [] {
      PassKeepsGeneration(v, cache, order[..|order| - 1], name, dry, faults, r);
    }
  }

  /** The observed generation in the store is not monotone: a node reconcile lowers it exactly when it
      evaluates the rule, its publish goes through and the cached rule has an earlier one. */
  lemma GenerationFallsExactly(s: Cluster, n: string, order: seq<string>, faults: Faults, r: string)
    requires n in s.nodes && NodeOrder(s, n, order) && r in s.cache && r in s.rules
    ensures var after := ReconcileNode(s, n, order, faults).rules;
            && r in after
            && (after[r].status.observedGeneration < s.rules[r].status.observedGeneration
                <==> HasTurn(s.nodes[n], s.cache, order, s.globalDryRun, r) && PublishStatus(r) !in faults
                     && s.cache[r].status.observedGeneration < s.rules[r].status.observedGeneration)
  {
    PassKeepsGeneration(Fresh(s.nodes[n]), s.cache, order, n, s.globalDryRun, faults, r);
    PassPublishes(s.rules, s.nodes[n], s.cache, order, n, s.globalDryRun, faults, r);
  }

  /** A rule reconcile that succeeded: the store has its new status, the cache the rule as it was before. */
  lemma SucceededReconcile(s: Cluster, s1: Cluster, r: string, listing: seq<string>, faults: Faults)
    requires r in s.rules && !s.rules[r].deleting && Listing(listing, s.nodes.Keys)
    requires Outcome(s1, true) == ReconcileRule(s, r, listing, faults)
    ensures r in s1.rules && r in s1.cache && s1.cache[r] == Guarded(s, r).rules[r]
    ensures s1.cache[r].status == s.rules[r].status && s1.globalDryRun == s.globalDryRun
    ensures !s.rules[r].spec.dryRun ==> s1.rules[r].status.observedGeneration == s.rules[r].generation
  {
    ReconciledStatus(s, r, listing, faults);
    LiveReconcileEffect(s, r, listing, faults);
  }

  /** A rule reconcile caches the rule before it advances the generation. So the next node reconcile that
      evaluates the rule lowers the generation again exactly when there had been something to advance. */
  lemma {:induction false} NodeReconcileRevertsGeneration(
    s: Cluster, s1: Cluster, r: string, listing: seq<string>, n: string, order: seq<string>, earlier: Faults,
    faults: Faults)
    requires r in s.rules && !s.rules[r].deleting && !s.rules[r].spec.dryRun && Listing(listing, s.nodes.Keys)
    requires Outcome(s1, true) == ReconcileRule(s, r, listing, earlier)
    requires n in s1.nodes && NodeOrder(s1, n, order)
    ensures r in s1.rules && r in s1.cache && s1.rules[r].status.observedGeneration == s.rules[r].generation
    ensures var s2 := ReconcileNode(s1, n, order, faults);
            && r in s2.rules
            && (s2.rules[r].status.observedGeneration < s1.rules[r].status.observedGeneration
                <==> HasTurn(s1.nodes[n], s1.cache, order, s1.globalDryRun, r) && PublishStatus(r) !in faults
                     && s.rules[r].status.observedGeneration < s.rules[r].generation)
  {
    SucceededReconcile(s, s1, r, listing, earlier);
    GenerationFallsExactly(s1, n, order, faults, r);
  }

  /** The same goes for the entries: a rule reconcile renews those of all its nodes in the store, and the next
      node reconcile that publishes the rule puts back, for every other node, the entry from before. */
  lemma {:induction false} FreshEntriesAreLost(
    s: Cluster, s1: Cluster, r: string, listing: seq<string>, n: string, order: seq<string>, earlier: Faults,
    faults: Faults, m: string)
    requires r in s.rules && !s.rules[r].deleting && Listing(listing, s.nodes.Keys) && OnePerNode(s.rules[r].status)
    requires Outcome(s1, true) == ReconcileRule(s, r, listing, earlier)
    requires n in s1.nodes && NodeOrder(s1, n, order) && m != n
    ensures r in s1.cache && r in s1.rules
    ensures var s2 := ReconcileNode(s1, n, order, faults);
            && r in s2.rules
            && SameEntry(s2.rules[r].status.evaluations,
                         if HasTurn(s1.nodes[n], s1.cache, order, s1.globalDryRun, r) && PublishStatus(r) !in faults
                         then s.rules[r].status.evaluations else s1.rules[r].status.evaluations, m)
  {
    SucceededReconcile(s, s1, r, listing, earlier);
    PassPublishes(s1.rules, s1.nodes[n], s1.cache, order, n, s1.globalDryRun, faults, r);
    PassStatusIsVerdict(s1.nodes[n], s1.cache, order, n, s1.globalDryRun, faults, r);
  }

  /** A live rule whose latest generation has not been observed, and a node that it selects. */
  ghost predicate GenerationPending(s: Cluster, r: string, n: string) {
    && r in s.rules && !s.rules[r].deleting && !s.rules[r].spec.dryRun && s.rules[r].spec.mode != BootstrapOnly
    && !s.globalDryRun && s.rules[r].status.observedGeneration < s.rules[r].generation
    && n in s.nodes && Selects(s.rules[r].spec.selector, s.nodes[n].labels)
  }

  /** From every such state: reconcile the rule with success, then the node with no call failing, and the
      generation just observed is lost again. */
  lemma {:induction false} PendingGenerationIsLost(
    s: Cluster, s1: Cluster, r: string, listing: seq<string>, n: string, order: seq<string>, earlier: Faults)
    requires GenerationPending(s, r, n) && Listing(listing, s.nodes.Keys)
    requires Outcome(s1, true) == ReconcileRule(s, r, listing, earlier)
    requires NodeOrder(s1, n, order)
    ensures r in s1.rules && s1.rules[r].status.observedGeneration == s.rules[r].generation
    ensures var s2 := ReconcileNode(s1, n, order, {});
            r in s2.rules && s2.rules[r].status.observedGeneration < s1.rules[r].status.observedGeneration
  {
    SucceededReconcile(s, s1, r, listing, earlier);
    LiveReconcileEffect(s, r, listing, earlier);
    assert n in s1.nodes && s1.nodes[n].labels == s.nodes[n].labels by {
      if Edited(s, r) {
        SweptNode(s, r, earlier, n);
      }
    }
    assert r in Applicable(s1.cache, s1.nodes[n].labels);
    NodeReconcileRevertsGeneration(s, s1, r, listing, n, order, earlier, {});
  }

  /** There are such states: a rule edited to generation 2 and last observed at 1. */
  lemma GenerationCanBePending()
    ensures exists s: Cluster :: GenerationPending(s, "r", "n")
  {
    var spec := RuleSpec([ConditionRequirement("c", "True")], Continuous, Taint("t", "", "NoSchedule"), None, false);
    var rule := Rule(spec, [FINALIZER], false, 2, Status(1, [], [], [], [], None));
    var s := Cluster(map["n" := Node(map[], [], [], map[], {})], map["r" := rule], map[], false);
    assert FINALIZER in rule.finalizers;
    assert GenerationPending(s, "r", "n");
  }
}
