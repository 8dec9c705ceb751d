/** What one pass over a node's rules makes of one taint and of one rule's completion: whatever the order,
    the failures and the number of rules that share the taint. */
module Verdicts {
  import opened Model
  import opened Sequences
  import opened Evaluation
  import opened Reconcile

  // ---------- one rule ----------

  lemma ActDecides(m: Node, r: string, spec: RuleSpec, other: Taint)
    ensures var after := Act(Decide(spec, m), m, r, spec.taint);
            HasTaint(after.taints, other)
            <==> if SameTaint(spec.taint, other) then !Ready(spec, m.conditions) else HasTaint(m.taints, other)
  {
    WithoutMembers(m.taints, spec.taint);
    TaintedHas(m, r, spec.taint, other);
    if SameTaint(spec.taint, other) {
      assert forall t :: SameTaint(t, other) <==> SameTaint(t, spec.taint);
    } else {
      WithoutOther(m.taints, spec.taint, other);
    }
  }

  lemma CompletionOf(m: Node, q: string, r: string)
    ensures Completed(Complete(m, q), r) <==> Completed(m, r) || r == q
  {
    if BootstrapKey(q) == BootstrapKey(r) {
      BootstrapKeyInjective(q, r);
    }
  }

  lemma EnforceCompletes(q: string, spec: RuleSpec, name: string, v: View, faults: Faults, r: string)
    ensures Completed(Enforce(q, spec, name, v, faults).stored, r)
            <==> Completed(v.stored, r)
                 || (r == q && PatchTaints(q, name) !in faults
                     && Completes(q, spec, name, Decide(spec, v.copy), faults))
  {
    var moved := Act(Decide(spec, v.copy), v.copy, q, spec.taint);
    CompletionOf(WithTaintsOf(v.stored, moved), q, r);
  }

  // ---------- one pass ----------

  /** Passing over two lists of rules in turn is passing over them joined. */
  lemma {:induction false} PassConcat(
    v: View, cache: map<string, Rule>, a: seq<string>, b: seq<string>, name: string, dry: bool, faults: Faults)
    ensures PassView(v, cache, a + b, name, dry, faults)
            == PassView(PassView(v, cache, a, name, dry, faults), cache, b, name, dry, faults)
  {
    if b == [] {
      assert a + b == a;
    } else {
      var init, last := b[..|b| - 1], b[|b| - 1];
      assert (a + b)[..|a + b| - 1] == a + init && (a + b)[|a + b| - 1] == last;
      PassConcat(v, cache, a, init, name, dry, faults);
    }
  }

  /** A pass without the rule leaves labels, conditions and the rule's completion as they are. */
  lemma {:induction false} WithoutItsTurn(
    v: View, cache: map<string, Rule>, order: seq<string>, name: string, dry: bool, faults: Faults, r: string)
    requires r !in order
    ensures var w := PassView(v, cache, order, name, dry, faults);
            && w.copy.conditions == v.copy.conditions && w.stored.conditions == v.stored.conditions
            && w.copy.labels == v.copy.labels && w.stored.labels == v.stored.labels
            && (Completed(w.stored, r) <==> Completed(v.stored, r))
  {
    if order != [] {
      var init, q := order[..|order| - 1], order[|order| - 1];
      assert order == init + [q];
      WithoutItsTurn(v, cache, init, name, dry, faults, r);
      if q in cache {
        EnforceCompletes(q, cache[q].spec, name, PassView(v, cache, init, name, dry, faults), faults, r);
      }
    }
  }

  lemma {:induction false} PassKeepsFacts(
    v: View, cache: map<string, Rule>, order: seq<string>, name: string, dry: bool, faults: Faults)
    ensures var w := PassView(v, cache, order, name, dry, faults);
            && w.copy.conditions == v.copy.conditions && w.stored.conditions == v.stored.conditions
            && w.copy.labels == v.copy.labels && w.stored.labels == v.stored.labels
            && forall r :: Completed(v.stored, r) ==> Completed(w.stored, r)
  {
    if order != [] {
      var init, q := order[..|order| - 1], order[|order| - 1];
      PassKeepsFacts(v, cache, init, name, dry, faults);
      if q in cache {
        forall r | Completed(v.stored, r) ensures Completed(PassView(v, cache, order, name, dry, faults).stored, r) {
          EnforceCompletes(q, cache[q].spec, name, PassView(v, cache, init, name, dry, faults), faults, r);
        }
      }
    }
  }

  lemma LastIsNew(order: seq<string>)
    requires Distinct(order) && order != []
    ensures order[|order| - 1] !in order[..|order| - 1] && Distinct(order[..|order| - 1])
    ensures order == order[..|order| - 1] + [order[|order| - 1]]
  {
  }

  /** The rule is not skipped on the node and manages this taint. */
  predicate Sharer(n: Node, cache: map<string, Rule>, dry: bool, q: string, t: Taint) {
    q in cache && !Skipped(n, q, cache[q].spec, dry) && SameTaint(cache[q].spec.taint, t)
  }

  /** The verdict of the last rule in the list that shares the taint; without one, the taint as it was. */
  predicate LastVerdict(n: Node, cache: map<string, Rule>, order: seq<string>, dry: bool, t: Taint) {
    if order == [] then HasTaint(n.taints, t)
    else
      var q := order[|order| - 1];
      if Sharer(n, cache, dry, q, t) then !Ready(cache[q].spec, n.conditions)
      else LastVerdict(n, cache, order[..|order| - 1], dry, t)
  }

  /** Whatever fails, that is what the working copy ends with. */
  lemma {:induction false} CopyPresence(
    n: Node, cache: map<string, Rule>, order: seq<string>, name: string, dry: bool, faults: Faults, t: Taint)
    requires Distinct(order)
    ensures var v := PassView(Fresh(n), cache, order, name, dry, faults);
            v.copy.conditions == n.conditions && (HasTaint(v.copy.taints, t) <==> LastVerdict(n, cache, order, dry, t))
  {
    if order != [] {
      var init, q := order[..|order| - 1], order[|order| - 1];
      LastIsNew(order);
      CopyPresence(n, cache, init, name, dry, faults, t);
      WithoutItsTurn(Fresh(n), cache, init, name, dry, faults, q);
      if q in cache {
        ActDecides(PassView(Fresh(n), cache, init, name, dry, faults).copy, q, cache[q].spec, t);
      }
    }
  }

  lemma {:induction false} NoSharerBefore(n: Node, cache: map<string, Rule>, order: seq<string>, dry: bool, t: Taint)
    requires forall q :: q in order ==> !Sharer(n, cache, dry, q, t)
    ensures LastVerdict(n, cache, order, dry, t) <==> HasTaint(n.taints, t)
  {
    if order != [] {
      assert order == order[..|order| - 1] + [order[|order| - 1]];
      NoSharerBefore(n, cache, order[..|order| - 1], dry, t);
    }
  }

  lemma {:induction false} OnlySharerDecides(
    n: Node, cache: map<string, Rule>, order: seq<string>, dry: bool, t: Taint, r: string)
    requires r in order && r in cache && SameTaint(cache[r].spec.taint, t)
    requires forall q :: q in order && q != r ==> !Sharer(n, cache, dry, q, t)
    ensures LastVerdict(n, cache, order, dry, t)
            <==> if Sharer(n, cache, dry, r, t) then !Ready(cache[r].spec, n.conditions) else HasTaint(n.taints, t)
  {
    var init, q := order[..|order| - 1], order[|order| - 1];
    assert order == init + [q];
    if r in init {
      OnlySharerDecides(n, cache, init, dry, t, r);
    } else {
      NoSharerBefore(n, cache, init, dry, t);
    }
  }

  ghost predicate NoPatchFailsOn(faults: Faults, name: string) {
    forall r :: PatchTaints(r, name) !in faults
  }

  /** When no patch fails the store keeps up with the copy. */
  lemma {:induction false} StoredFollowsCopy(
    n: Node, cache: map<string, Rule>, order: seq<string>, name: string, dry: bool, faults: Faults)
    requires NoPatchFailsOn(faults, name)
    ensures var v := PassView(Fresh(n), cache, order, name, dry, faults);
            v.stored.taints == v.copy.taints
  {
    if order != [] {
      StoredFollowsCopy(n, cache, order[..|order| - 1], name, dry, faults);
    }
  }

  /** When they all fail it stays as it was. */
  lemma {:induction false} AllPatchesFail(
    n: Node, cache: map<string, Rule>, order: seq<string>, name: string, dry: bool, faults: Faults)
    requires forall r :: r in order ==> PatchTaints(r, name) in faults
    ensures PassView(Fresh(n), cache, order, name, dry, faults).stored == n
  {
    if order != [] {
      assert order == order[..|order| - 1] + [order[|order| - 1]];
      AllPatchesFail(n, cache, order[..|order| - 1], name, dry, faults);
    }
  }

  /** Every rule of the list that shares the taint is content with it being there, or not. */
  ghost predicate Content(n: Node, cache: map<string, Rule>, order: seq<string>, dry: bool, t: Taint, there: bool) {
    forall q :: q in order && Sharer(n, cache, dry, q, t) ==> (there <==> !Ready(cache[q].spec, n.conditions))
  }

  /** The view is of this node, none of these rules has had its turn yet, and copy and store agree on the taint. */
  ghost predicate Steady(n: Node, v: View, order: seq<string>, t: Taint, there: bool) {
    && v.copy.conditions == n.conditions
    && (forall q :: q in order ==> (Completed(v.stored, q) <==> Completed(n, q)))
    && (HasTaint(v.copy.taints, t) <==> there) && (HasTaint(v.stored.taints, t) <==> there)
  }

  /** Then, whatever fails, it stays so, in the copy and in the store. */
  lemma {:induction false} SteadyPresence(
    n: Node, v: View, cache: map<string, Rule>, order: seq<string>, name: string, dry: bool, faults: Faults, t: Taint,
    there: bool)
    requires Distinct(order) && Content(n, cache, order, dry, t, there) && Steady(n, v, order, t, there)
    ensures Steady(n, PassView(v, cache, order, name, dry, faults), [], t, there)
  {
    if order != [] {
      var init, q := order[..|order| - 1], order[|order| - 1];
      LastIsNew(order);
      SteadyPresence(n, v, cache, init, name, dry, faults, t, there);
      WithoutItsTurn(v, cache, init, name, dry, faults, q);
      if q in cache {
        assert q in order;
        ActDecides(PassView(v, cache, init, name, dry, faults).copy, q, cache[q].spec, t);
      }
    }
  }

  // ---------- a rule's turn ----------

  /** The rules that come before this one. */
  function Before(order: seq<string>, r: string): seq<string> {
    if order == [] then []
    else if order[|order| - 1] == r then order[..|order| - 1]
    else Before(order[..|order| - 1], r)
  }

  lemma {:induction false} TurnSplits(order: seq<string>, r: string) returns (later: seq<string>)
    requires Distinct(order) && r in order
    ensures order == Before(order, r) + [r] + later && r !in Before(order, r)
    ensures Distinct(Before(order, r)) && Distinct(later) && forall q :: q in later ==> q !in Before(order, r) + [r]
  {
    LastIsNew(order);
    if order[|order| - 1] == r {
      later := [];
    } else {
      var rest := TurnSplits(order[..|order| - 1], r);
      later := rest + [order[|order| - 1]];
    }
  }

  lemma {:induction false} BeforeOf(a: seq<string>, r: string, b: seq<string>)
    requires r !in b
    ensures Before(a + [r] + b, r) == a
  {
    var order := a + [r] + b;
    if b == [] {
      assert order[..|order| - 1] == a;
    } else {
      assert order[..|order| - 1] == a + [r] + b[..|b| - 1] && order[|order| - 1] == b[|b| - 1];
      BeforeOf(a, r, b[..|b| - 1]);
    }
  }

  /** What the rule finds in the copy when its turn comes. */
  ghost predicate FindsTaint(n: Node, cache: map<string, Rule>, order: seq<string>, dry: bool, r: string)
    requires r in cache
  {
    LastVerdict(n, cache, Before(order, r), dry, cache[r].spec.taint)
  }

  lemma AtItsTurn(
    n: Node, cache: map<string, Rule>, order: seq<string>, name: string, dry: bool, faults: Faults, r: string)
    requires r in cache && r in order && Distinct(order)
    ensures var v := PassView(Fresh(n), cache, Before(order, r), name, dry, faults);
            && v.copy.conditions == n.conditions
            && (HasTaint(v.copy.taints, cache[r].spec.taint) <==> FindsTaint(n, cache, order, dry, r))
            && (Completed(v.stored, r) <==> Completed(n, r))
  {
    var later := TurnSplits(order, r);
    CopyPresence(n, cache, Before(order, r), name, dry, faults, cache[r].spec.taint);
    WithoutItsTurn(Fresh(n), cache, Before(order, r), name, dry, faults, r);
  }

  /** Completion is recorded in a pass exactly when the rule, not skipped, is satisfied, finds its taint, and
      both its patch and the annotation write go through. */
  lemma PassCompletes(
    n: Node, cache: map<string, Rule>, order: seq<string>, name: string, dry: bool, faults: Faults, r: string)
    requires r in cache && r in order && Distinct(order) && cache[r].spec.mode == BootstrapOnly
    ensures Completed(PassView(Fresh(n), cache, order, name, dry, faults).stored, r)
            <==> Completed(n, r)
                 || (!Skipped(n, r, cache[r].spec, dry) && Ready(cache[r].spec, n.conditions)
                     && FindsTaint(n, cache, order, dry, r)
                     && PatchTaints(r, name) !in faults && MarkBootstrap(r, name) !in faults)
  {
    var before := Before(order, r);
    var later := TurnSplits(order, r);
    AtItsTurn(n, cache, order, name, dry, faults, r);
    var v := PassView(Fresh(n), cache, before, name, dry, faults);
    EnforceCompletes(r, cache[r].spec, name, v, faults, r);
    assert (before + [r])[..|before|] == before;
    PassConcat(Fresh(n), cache, before + [r], later, name, dry, faults);
    WithoutItsTurn(PassView(Fresh(n), cache, before + [r], name, dry, faults), cache, later, name, dry, faults, r);
  }
}
