/** Get, modify, update, and again on conflict: the retry loop behind every whole-object write. Others may
    write, delete or create the object at any point in between. */
module OptimisticUpdate {
  import opened Model
  import opened Evaluation
  import opened Reconcile
  import opened StatusLists

  /** What the function passed to the loop makes of the object it read. */
  datatype Decision<T> = Nothing | Write(value: T)

  /** What happens around one attempt: the writes of others before the read and between read and update
      (None deletes the object), and whether the calls fail for some other reason. */
  datatype Attempt<T> = Attempt(
    beforeRead: seq<Option<T>>, beforeWrite: seq<Option<T>>, readFails: bool, writeFails: bool)

  function AllEdits<T>(script: seq<Attempt<T>>): seq<Option<T>> {
    if script == [] then []
    else AllEdits(script[..|script| - 1]) + script[|script| - 1].beforeRead + script[|script| - 1].beforeWrite
  }

  lemma {:induction false} EarlierEditsComeFirst<T>(script: seq<Attempt<T>>, i: nat)
    requires i <= |script|
    ensures AllEdits(script[..i]) <= AllEdits(script)
    decreases |script|
  {
    if i == |script| {
      assert script[..i] == script;
    } else {
      assert script[..|script| - 1][..i] == script[..i];
      EarlierEditsComeFirst(script[..|script| - 1], i);
    }
  }

  lemma {:induction false} EditsSoFar<T>(script: seq<Attempt<T>>, i: nat)
    requires i < |script|
    ensures AllEdits(script[..i + 1]) == AllEdits(script[..i]) + (script[i].beforeRead + script[i].beforeWrite)
    ensures AllEdits(script[..i + 1]) <= AllEdits(script) && script[i] in script
  {
    var first := script[..i + 1];
    assert first[..|first| - 1] == script[..i] && first[|first| - 1] == script[i];
    assert AllEdits(first) == AllEdits(script[..i]) + script[i].beforeRead + script[i].beforeWrite;
    EarlierEditsComeFirst(script, i + 1);
  }

  /** The object after these writes. */
  function Latest<T>(content: Option<T>, edits: seq<Option<T>>): Option<T> {
    if edits == [] then content else edits[|edits| - 1]
  }

  /** It held this value at some moment of the call. */
  ghost predicate Held<T(!new)>(content: Option<T>, edits: seq<Option<T>>, value: T) {
    content == Some(value) || Some(value) in edits
  }

  predicate CallFails<T>(a: Attempt<T>) {
    a.readFails || a.writeFails
  }

  datatype Tried = Wrote | Unneeded | Failed | Conflict

  /** What an attempt did to an object that was as given and then edited by others: it wrote the decision on
      what they left, or left that as it is because an object it read needed nothing, a call failed or the
      object was missing, or somebody wrote in between. */
  ghost predicate Concludes<T(!new)>(
    start: Option<T>, edits: seq<Option<T>>, end: Option<T>, decide: T -> Decision<T>, result: Tried, callFailed: bool)
  {
    var current := Latest(start, edits);
    match result
    case Wrote => current.Some? && decide(current.value).Write? && end == Some(decide(current.value).value)
    case Unneeded => end == current && exists v: T :: Held(start, edits, v) && decide(v).Nothing?
    case Failed => end == current && (callFailed || start.None? || None in edits)
    case Conflict => end == current
  }

  lemma ConcludesLater<T(!new)>(
    start: Option<T>, edits: seq<Option<T>>, more: seq<Option<T>>, end: Option<T>, decide: T -> Decision<T>,
    result: Tried, callFailed: bool)
    requires Concludes(Latest(start, edits), more, end, decide, result, callFailed)
    ensures Concludes(start, edits + more, end, decide, result, callFailed)
  {
  }

  class Register<T(!new)> {
    var content: Option<T>
    var version: nat

    constructor (initial: Option<T>)
      ensures content == initial
    {
      content, version := initial, 0;
    }

    /** Others write; every write gives the object a new version. */
    method Interfere(edits: seq<Option<T>>)
      modifies this
      ensures content == Latest(old(content), edits)
      ensures version == old(version) + |edits|
    {
      for i := 0 to |edits|
        invariant content == Latest(old(content), edits[..i]) && version == old(version) + i
      {
        content, version := edits[i], version + 1;
      }
      assert edits[..|edits|] == edits;
    }

    /** The function that the loop retries: read, decide, update; the update is refused on a conflict. */
    method TryOnce(decide: T -> Decision<T>, a: Attempt<T>) returns (result: Tried, ghost edits: seq<Option<T>>)
      modifies this
      ensures edits <= a.beforeRead + a.beforeWrite
      ensures Concludes(old(content), edits, content, decide, result, CallFails(a))
      ensures result == Conflict ==> edits == a.beforeRead + a.beforeWrite && a.beforeWrite != []
    {
      Interfere(a.beforeRead);
      edits := a.beforeRead;
      if content.None? || a.readFails {
        return Failed, edits;
      }
      var read, seen := content.value, version;
      assert Held(old(content), edits, read);
      var decision := decide(read);
      if decision.Nothing? {
        return Unneeded, edits;
      }
      Interfere(a.beforeWrite);
      edits := edits + a.beforeWrite;
      if content.None? || a.writeFails {
        return Failed, edits;
      }
      if version != seen {
        return Conflict, edits;
      }
      content, version := Some(decision.value), version + 1;
      return Wrote, edits;
    }

    /** At most one write of ours goes in, last, and it is the decision on exactly the object that others
        left: no write of theirs is lost. Otherwise the object is as they left it. The call succeeds when
        it wrote or when an object it read needed nothing; it gives up only on a failing call, a missing
        object, or a conflict in every single attempt. */
    method RetryOnConflict(decide: T -> Decision<T>, script: seq<Attempt<T>>)
      returns (ok: bool, wrote: bool, ghost edits: seq<Option<T>>)
      modifies this
      ensures edits <= AllEdits(script)
      ensures var current := Latest(old(content), edits);
              if wrote then current.Some? && decide(current.value).Write?
                  && content == Some(decide(current.value).value)
              else content == current
      ensures wrote ==> ok
      ensures ok && !wrote ==> exists v: T :: Held(old(content), edits, v) && decide(v).Nothing?
      ensures !ok ==>
                || (exists a :: a in script && CallFails(a))
                || old(content).None? || None in edits
                || (edits == AllEdits(script) && forall a :: a in script ==> a.beforeWrite != [])
    {
      edits := [];
      for i := 0 to |script|
        invariant edits == AllEdits(script[..i]) && content == Latest(old(content), edits)
        invariant forall k :: 0 <= k < i ==> script[k].beforeWrite != []
      {
        var a := script[i];
        EditsSoFar(script, i);
        var result, added := TryOnce(decide, a);
        ConcludesLater(old(content), edits, added, content, decide, result, CallFails(a));
        edits := edits + added;
        if result != Conflict {
          return result != Failed, result == Wrote, edits;
        }
      }
      assert script[..|script|] == script;
      return false, false, edits;
    }
  }

  // ---------- the three updates made this way ----------

  /** At least one attempt, nobody else writes, and no call fails. */
  ghost predicate Undisturbed<T>(script: seq<Attempt<T>>) {
    script != [] && AllEdits(script) == [] && forall a :: a in script ==> !CallFails(a)
  }

  lemma UndisturbedAttempt<T>(script: seq<Attempt<T>>)
    requires Undisturbed(script)
    ensures exists a :: a in script && a.beforeWrite == []
  {
    var last := script[|script| - 1];
    assert last in script && last.beforeWrite == [];
  }

  function DecideCompletion(rule: string, n: Node): Decision<Node> {
    if Completed(n, rule) then Nothing else Write(n.(annotations := n.annotations[BootstrapKey(rule) := "true"]))
  }

  /** Marking a bootstrap complete adds one annotation to the node as others left it, or nothing. Without
      interference it is what an atomic reconcile does. */
  method MarkBootstrapCompleted(node: Register<Node>, rule: string, script: seq<Attempt<Node>>)
    returns (ok: bool, wrote: bool, ghost edits: seq<Option<Node>>)
    modifies node
    ensures edits <= AllEdits(script)
    ensures var current := Latest(old(node.content), edits);
            if wrote then
              && current.Some? && !Completed(current.value, rule)
              && node.content == Some(current.value.(
                   annotations := current.value.annotations[BootstrapKey(rule) := "true"]))
            else node.content == current
    ensures wrote ==> ok
    ensures ok && !wrote ==> exists n: Node :: Held(old(node.content), edits, n) && Completed(n, rule)
    ensures !ok ==>
              || (exists a :: a in script && CallFails(a))
              || old(node.content).None? || None in edits
              || (edits == AllEdits(script) && forall a :: a in script ==> a.beforeWrite != [])
    ensures Undisturbed(script) && old(node.content).Some? ==>
              ok && node.content == Some(Complete(old(node.content.value), rule))
  {
    ok, wrote, edits := node.RetryOnConflict(n => DecideCompletion(rule, n), script);
    if Undisturbed(script) {
      UndisturbedAttempt(script);
    }
  }

  function WithPublished(rule: Rule, status: Status): Rule {
    rule.(status := status.(conditions := rule.status.conditions))
  }

  function WithPruned(rule: Rule, existing: set<string>): Rule {
    rule.(status := rule.status.(evaluations := Pruned(rule.status.evaluations, existing)))
  }

  /** These two are what an atomic reconcile stores for a rule when the calls go through. */
  lemma PublishAndPruneStores(s: Cluster, name: string, status: Status, faults: Faults)
    requires name in s.rules && PublishAndPrune(s, name, status, faults).ok
    ensures PublishAndPrune(s, name, status, faults).state
            == s.(rules := s.rules[name := WithPruned(WithPublished(s.rules[name], status), s.nodes.Keys)])
  {
    PublishedAndPruned(s, name, status, faults);
  }

  /** Publishing a status replaces everything but the status conditions, in the rule as others left it.
      Undisturbed, it always does. */
  method UpdateRuleStatus(rule: Register<Rule>, status: Status, script: seq<Attempt<Rule>>)
    returns (ok: bool, wrote: bool, ghost edits: seq<Option<Rule>>)
    modifies rule
    ensures edits <= AllEdits(script) && ok == wrote
    ensures var current := Latest(old(rule.content), edits);
            if wrote then current.Some? && rule.content == Some(WithPublished(current.value, status))
            else rule.content == current
    ensures !ok ==>
              || (exists a :: a in script && CallFails(a))
              || old(rule.content).None? || None in edits
              || (edits == AllEdits(script) && forall a :: a in script ==> a.beforeWrite != [])
    ensures Undisturbed(script) && old(rule.content).Some? ==>
              ok && rule.content == Some(WithPublished(old(rule.content.value), status))
  {
    ok, wrote, edits := rule.RetryOnConflict((latest: Rule) => Write(WithPublished(latest, status)), script);
    if Undisturbed(script) {
      UndisturbedAttempt(script);
    }
  }

  function DecidePrune(existing: set<string>, rule: Rule): Decision<Rule> {
    var kept := Pruned(rule.status.evaluations, existing);
    if |kept| == |rule.status.evaluations| then Nothing
    else Write(rule.(status := rule.status.(evaluations := kept)))
  }

  /** Pruning removes the entries of missing nodes from the rule as others left it. Undisturbed,
      it always does. */
  method PruneRuleStatus(rule: Register<Rule>, existing: set<string>, script: seq<Attempt<Rule>>)
    returns (ok: bool, wrote: bool, ghost edits: seq<Option<Rule>>)
    modifies rule
    ensures edits <= AllEdits(script)
    ensures var current := Latest(old(rule.content), edits);
            if wrote then
              && current.Some? && rule.content == Some(WithPruned(current.value, existing))
              && forall e :: e in rule.content.value.status.evaluations ==> e.nodeName in existing
            else rule.content == current
    ensures wrote ==> ok
    ensures ok && !wrote ==>
              exists r: Rule :: Held(old(rule.content), edits, r) && forall e :: e in r.status.evaluations ==>
                  e.nodeName in existing
    ensures !ok ==>
              || (exists a :: a in script && CallFails(a))
              || old(rule.content).None? || None in edits
              || (edits == AllEdits(script) && forall a :: a in script ==> a.beforeWrite != [])
    ensures Undisturbed(script) && old(rule.content).Some? ==>
              ok && rule.content == Some(WithPruned(old(rule.content.value), existing))
  {
    ok, wrote, edits := rule.RetryOnConflict(r => DecidePrune(existing, r), script);
    if Undisturbed(script) {
      UndisturbedAttempt(script);
    }
    if wrote {
      PrunedFacts(Latest(old(rule.content), edits).value.status.evaluations, existing);
    } else if ok {
      ghost var r: Rule :| Held(old(rule.content), edits, r) && DecidePrune(existing, r).Nothing?;
      PrunedFacts(r.status.evaluations, existing);
    }
  }
}
