/** The validating webhook: what it accepts, and what that keeps true of the stored rules. */
module Admission {
  import opened Model
  import opened Sequences
  import opened Selectors
  import opened Disjointness
  import opened Evaluation
  import opened Reconcile
  import opened NodePass
  import opened Runs

  datatype FieldError =
    | ConditionsRequired
    | KindRequired(index: nat)
    | StatusRequired(index: nat)
    | TaintKeyRequired
    | TaintEffectRequired
    | InvalidEnforcementMode
    | Conflict(existing: string)

  predicate SpecValid(spec: RuleSpec) {
    && spec.conditions != []
    && (forall c :: c in spec.conditions ==> c.kind != "" && c.requiredStatus != "")
    && spec.taint.key != "" && spec.taint.effect != ""
    && !spec.mode.OtherMode?
  }

  /** Is this error due? */
  predicate Due(e: FieldError, spec: RuleSpec) {
    match e
    case ConditionsRequired => spec.conditions == []
    case KindRequired(i) => i < |spec.conditions| && spec.conditions[i].kind == ""
    case StatusRequired(i) => i < |spec.conditions| && spec.conditions[i].requiredStatus == ""
    case TaintKeyRequired => spec.taint.key == ""
    case TaintEffectRequired => spec.taint.effect == ""
    case InvalidEnforcementMode => spec.mode.OtherMode?
    case Conflict(_) => false
  }

  /** Every due error is reported and no other; there is none exactly when the spec is valid. */
  method ValidateSpec(spec: RuleSpec) returns (errors: seq<FieldError>)
    ensures forall e :: e in errors <==> Due(e, spec)
    ensures forall i: nat :: KindRequired(i) in errors <==> i < |spec.conditions| && spec.conditions[i].kind == ""
    ensures forall i: nat ::
              StatusRequired(i) in errors <==> i < |spec.conditions| && spec.conditions[i].requiredStatus == ""
    ensures errors == [] <==> SpecValid(spec)
  {
    errors := [];
    if |spec.conditions| == 0 {
      errors := errors + [ConditionsRequired];
    }
    for i := 0 to |spec.conditions|
      invariant forall e :: e in errors <==>
        || (e == ConditionsRequired && Due(e, spec))
        || ((e.KindRequired? || e.StatusRequired?) && e.index < i && Due(e, spec))
    {
      if spec.conditions[i].kind == "" {
        errors := errors + [KindRequired(i)];
      }
      if spec.conditions[i].requiredStatus == "" {
        errors := errors + [StatusRequired(i)];
      }
    }
    if spec.taint.key == "" {
      errors := errors + [TaintKeyRequired];
    }
    if spec.taint.effect == "" {
      errors := errors + [TaintEffectRequired];
    }
    if spec.mode != BootstrapOnly && spec.mode != Continuous {
      errors := errors + [InvalidEnforcementMode];
    }
    if errors != [] {
      assert errors[0] in errors;
    }
    assert forall i :: 0 <= i < |spec.conditions| ==> !(KindRequired(i) !in errors && spec.conditions[i].kind == "");
    assert forall i :: 0 <= i < |spec.conditions| ==>
        !(StatusRequired(i) !in errors && spec.conditions[i].requiredStatus == "");
    assert ConditionsRequired in errors || spec.conditions != [];
    assert TaintKeyRequired in errors || spec.taint.key != "";
    assert TaintEffectRequired in errors || spec.taint.effect != "";
    assert InvalidEnforcementMode in errors || !spec.mode.OtherMode?;
  }

  /** How the label library prints a selector; any printing will do. */
  type Render = LabelSelector -> string

  /** No selector, or one in error, counts as overlapping; otherwise the texts decide. */
  predicate SelectorsOverlap(a: Option<LabelSelector>, b: Option<LabelSelector>, render: Render) {
    a.None? || b.None? || !Parseable(a.value) || !Parseable(b.value) || render(a.value) == render(b.value)
  }

  predicate Clashes(a: RuleSpec, b: RuleSpec, render: Render) {
    SameTaint(a.taint, b.taint) && SelectorsOverlap(a.selector, b.selector, render)
  }

  predicate ConflictsWith(
    rules: map<string, Rule>, other: string, name: string, spec: RuleSpec, isUpdate: bool, render: Render) {
    other in rules && !(isUpdate && other == name) && Clashes(spec, rules[other].spec, render)
  }

  /** One error for each stored rule that clashes; none when the listing fails. */
  method ValidateTaintConflicts(
    rules: map<string, Rule>, listing: seq<string>, listed: bool, name: string, spec: RuleSpec, isUpdate: bool,
    render: Render)
    returns (errors: seq<FieldError>)
    requires Listing(listing, rules.Keys)
    ensures !listed ==> errors == []
    ensures listed ==> forall e :: e in errors <==>
                         e.Conflict? && ConflictsWith(rules, e.existing, name, spec, isUpdate, render)
    ensures Distinct(errors)
    ensures listed ==> (errors == [] <==> forall other :: !ConflictsWith(rules, other, name, spec, isUpdate, render))
  {
    errors := [];
    if !listed {
      return;
    }
    for i := 0 to |listing|
      invariant Distinct(errors)
      invariant forall e :: e in errors <==>
                  e.Conflict? && e.existing in listing[..i]
                      && ConflictsWith(rules, e.existing, name, spec, isUpdate, render)
    {
      var other := listing[i];
      assert listing[..i + 1] == listing[..i] + [other];
      if isUpdate && other == name {
        continue;
      }
      var existing := rules[other].spec;
      if existing.taint.key == spec.taint.key && existing.taint.effect == spec.taint.effect {
        if SelectorsOverlap(spec.selector, existing.selector, render) {
          errors := errors + [Conflict(other)];
        }
      }
    }
    assert listing[..|listing|] == listing;
    if errors != [] {
      assert errors[0] in errors;
    }
    assert forall other :: ConflictsWith(rules, other, name, spec, isUpdate, render) ==> Conflict(other) in errors;
  }

  predicate Admits(rules: map<string, Rule>, name: string, spec: RuleSpec, isUpdate: bool, render: Render) {
    SpecValid(spec) && forall other :: other in rules ==> !ConflictsWith(rules, other, name, spec, isUpdate, render)
  }

  method ValidateRule(
    rules: map<string, Rule>, listing: seq<string>, listed: bool, name: string, spec: RuleSpec, isUpdate: bool,
    render: Render)
    returns (errors: seq<FieldError>)
    requires Listing(listing, rules.Keys)
    ensures listed ==> (errors == [] <==> Admits(rules, name, spec, isUpdate, render))
    ensures !listed ==> (errors == [] <==> SpecValid(spec))
  {
    var specErrors := ValidateSpec(spec);
    var conflicts := ValidateTaintConflicts(rules, listing, listed, name, spec, isUpdate, render);
    errors := specErrors + conflicts;
  }

  // ---------- over whole runs ----------

  datatype Request = Create(name: string, rule: Rule) | Update(name: string, spec: RuleSpec) | Delete(name: string)

  predicate Accepted(rules: map<string, Rule>, q: Request, render: Render) {
    match q
    case Create(name, rule) => name !in rules && Admits(rules, name, rule.spec, false, render)
    case Update(name, spec) => name in rules && Admits(rules, name, spec, true, render)
    case Delete(_) => true
  }

  function Serve(rules: map<string, Rule>, q: Request, render: Render): map<string, Rule>
    requires Accepted(rules, q, render)
  {
    match q
    case Create(name, rule) => rules[name := rule]
    case Update(name, spec) => rules[name := rules[name].(spec := spec)]
    case Delete(name) => rules - {name}
  }

  predicate AllAccepted(rules: map<string, Rule>, requests: seq<Request>, render: Render)
    decreases |requests|
  {
    requests == [] ||
    (Accepted(rules, requests[0], render) && AllAccepted(Serve(rules, requests[0], render), requests[1..], render))
  }

  function ServeAll(rules: map<string, Rule>, requests: seq<Request>, render: Render): map<string, Rule>
    requires AllAccepted(rules, requests, render)
    decreases |requests|
  {
    if requests == [] then rules else ServeAll(Serve(rules, requests[0], render), requests[1..], render)
  }

  ghost predicate NoClash(rules: map<string, Rule>, render: Render) {
    forall a, b :: a in rules && b in rules && a != b ==> !Clashes(rules[a].spec, rules[b].spec, render)
  }

  lemma ServeKeepsNoClash(rules: map<string, Rule>, q: Request, render: Render)
    requires NoClash(rules, render) && Accepted(rules, q, render)
    ensures NoClash(Serve(rules, q, render), render)
  {
  }

  lemma {:induction false} RunsKeepNoClash(rules: map<string, Rule>, requests: seq<Request>, render: Render)
    requires NoClash(rules, render) && AllAccepted(rules, requests, render)
    ensures NoClash(ServeAll(rules, requests, render), render)
    decreases |requests|
  {
    if requests != [] {
      ServeKeepsNoClash(rules, requests[0], render);
      RunsKeepNoClash(Serve(rules, requests[0], render), requests[1..], render);
    }
  }

  /** The spec that the last request for this rule asked for. */
  function LastWord(requests: seq<Request>, name: string): Option<RuleSpec> {
    if requests == [] then None
    else
      var q := requests[|requests| - 1];
      if q.name != name then LastWord(requests[..|requests| - 1], name)
      else
        match q
        case Create(_, rule) => Some(rule.spec)
        case Update(_, spec) => Some(spec)
        case Delete(_) => None
  }

  lemma {:induction false} ServeLast(rules: map<string, Rule>, requests: seq<Request>, render: Render)
    requires requests != [] && AllAccepted(rules, requests, render)
    ensures var init, q := requests[..|requests| - 1], requests[|requests| - 1];
            && AllAccepted(rules, init, render) && Accepted(ServeAll(rules, init, render), q, render)
            && ServeAll(rules, requests, render) == Serve(ServeAll(rules, init, render), q, render)
    decreases |requests|
  {
    var init := requests[..|requests| - 1];
    if init != [] {
      assert requests[1..][..|requests| - 2] == init[1..] && requests[1..][|requests| - 2] == requests[|requests| - 1];
      ServeLast(Serve(rules, requests[0], render), requests[1..], render);
    } else {
      assert requests[1..] == [];
    }
  }

  /** After any sequence of accepted requests a rule is stored exactly when the last request for it was not a
      deletion, and then with the spec of that request. */
  lemma {:induction false} LastWordIsStored(requests: seq<Request>, render: Render, name: string)
    requires AllAccepted(map[], requests, render)
    ensures var rules := ServeAll(map[], requests, render);
            LastWord(requests, name) == if name in rules then Some(rules[name].spec) else None
    decreases |requests|
  {
    if requests != [] {
      ServeLast(map[], requests, render);
      LastWordIsStored(requests[..|requests| - 1], render, name);
    }
  }

  /** What is accepted, in full: every deletion; otherwise a new name or a stored one, a spec with nothing
      missing, and of every stored rule, but for the updated one itself, another key or effect, or else usable
      selectors of different texts. */
  lemma AcceptedExactly(rules: map<string, Rule>, q: Request, render: Render)
    ensures q.Delete? ==> Accepted(rules, q, render)
    ensures !q.Delete? ==>
            var spec := if q.Create? then q.rule.spec else q.spec;
            Accepted(rules, q, render)
            <==> (q.Create? <==> q.name !in rules)
                 && spec.conditions != []
                 && (forall c :: c in spec.conditions ==> c.kind != "" && c.requiredStatus != "")
                 && spec.taint.key != "" && spec.taint.effect != "" && spec.mode in {BootstrapOnly, Continuous}
                 && forall other :: other in rules && !(q.Update? && other == q.name) ==>
                      var existing := rules[other].spec;
                      || existing.taint.key != spec.taint.key || existing.taint.effect != spec.taint.effect
                      || (spec.selector.Some? && existing.selector.Some?
                          && Parseable(spec.selector.value) && Parseable(existing.selector.value)
                          && render(spec.selector.value) != render(existing.selector.value))
  {
  }

  ghost predicate AllValid(rules: map<string, Rule>) {
    forall r :: r in rules ==> SpecValid(rules[r].spec)
  }

  lemma {:induction false} RunsKeepValid(rules: map<string, Rule>, requests: seq<Request>, render: Render)
    requires AllValid(rules) && AllAccepted(rules, requests, render)
    ensures AllValid(ServeAll(rules, requests, render))
    decreases |requests|
  {
    if requests != [] {
      RunsKeepValid(Serve(rules, requests[0], render), requests[1..], render);
    }
  }

  /** Whatever was accepted can be submitted again: after any sequence of accepted requests, updating a stored
      rule to the spec it has is accepted and changes nothing. */
  lemma ResubmissionAccepted(requests: seq<Request>, render: Render, name: string)
    requires AllAccepted(map[], requests, render) && name in ServeAll(map[], requests, render)
    ensures var rules := ServeAll(map[], requests, render);
            && Accepted(rules, Update(name, rules[name].spec), render)
            && Serve(rules, Update(name, rules[name].spec), render) == rules
  {
    RunsKeepNoClash(map[], requests, render);
    RunsKeepValid(map[], requests, render);
    var rules := ServeAll(map[], requests, render);
    forall other | other in rules && other != name ensures !Clashes(rules[name].spec, rules[other].spec, render) {
    }
    assert rules[name].(spec := rules[name].spec) == rules[name];
    assert rules[name := rules[name]] == rules;
  }

  /** After any sequence of accepted creations, updates and deletions from the empty store, two rules with
      the same key and effect have usable selectors of different texts. */
  lemma AdmissionInvariant(requests: seq<Request>, render: Render, a: string, b: string)
    requires AllAccepted(map[], requests, render)
    requires a in ServeAll(map[], requests, render) && b in ServeAll(map[], requests, render) && a != b
    requires SameTaint(ServeAll(map[], requests, render)[a].spec.taint, ServeAll(map[], requests, render)[b].spec.taint)
    ensures var rules := ServeAll(map[], requests, render);
            var s, t := rules[a].spec.selector, rules[b].spec.selector;
            s.Some? && t.Some? && Parseable(s.value) && Parseable(t.value) && render(s.value) != render(t.value)
  {
    RunsKeepNoClash(map[], requests, render);
  }

  /** Of every two rules with one taint, some key keeps the selectors apart. */
  predicate SelectorsApart(rules: map<string, Rule>) {
    forall a, b :: a in rules && b in rules && a != b && SameTaint(rules[a].spec.taint, rules[b].spec.taint) ==>
      && rules[a].spec.selector.Some? && rules[b].spec.selector.Some?
      && KeptApart(rules[a].spec.selector.value, rules[b].spec.selector.value)
  }

  lemma ApartRulesMeetNowhere(rules: map<string, Rule>)
    requires SelectorsApart(rules)
    ensures MeetNowhere(rules)
  {
    forall labels ensures DistinctTaints(rules, Applicable(rules, labels)) {
      forall a, b | a in Applicable(rules, labels) && b in Applicable(rules, labels) && a != b
        ensures !SameTaint(rules[a].spec.taint, rules[b].spec.taint)
      {
        if SameTaint(rules[a].spec.taint, rules[b].spec.taint) {
          DisjointExact(rules[a].spec.selector.value, rules[b].spec.selector.value);
          assert false;
        }
      }
    }
  }

  lemma RulesThatMeetNowhereAreApart(rules: map<string, Rule>, a: string, b: string)
    requires MeetNowhere(rules) && a in rules && b in rules && a != b
    requires SameTaint(rules[a].spec.taint, rules[b].spec.taint)
    requires rules[a].spec.selector.Some? && rules[b].spec.selector.Some?
    requires Parseable(rules[a].spec.selector.value) && Parseable(rules[b].spec.selector.value)
    ensures KeptApart(rules[a].spec.selector.value, rules[b].spec.selector.value)
  {
    var s, t := rules[a].spec.selector.value, rules[b].spec.selector.value;
    forall labels ensures !(Matches(s, labels) && Matches(t, labels)) {
      assert DistinctTaints(rules, Applicable(rules, labels));
    }
    DisjointExact(s, t);
  }

  /** What the webhook lets through is not enough for confluence and quiescence; this is exactly what is
      missing. After any sequence of accepted requests, rules with one taint never select the same node if
      and only if of every two of them some key keeps the selectors apart. */
  lemma AdmittedRulesMeetNowhere(requests: seq<Request>, render: Render)
    requires AllAccepted(map[], requests, render)
    ensures MeetNowhere(ServeAll(map[], requests, render)) <==> SelectorsApart(ServeAll(map[], requests, render))
  {
    var rules := ServeAll(map[], requests, render);
    if SelectorsApart(rules) {
      ApartRulesMeetNowhere(rules);
    }
    if MeetNowhere(rules) {
      forall a, b | a in rules && b in rules && a != b && SameTaint(rules[a].spec.taint, rules[b].spec.taint)
        ensures rules[a].spec.selector.Some? && rules[b].spec.selector.Some?
        ensures KeptApart(rules[a].spec.selector.value, rules[b].spec.selector.value)
      {
        AdmissionInvariant(requests, render, a, b);
        RulesThatMeetNowhereAreApart(rules, a, b);
      }
    }
  }

  predicate LabelsOnly(rules: map<string, Rule>) {
    forall r :: r in rules && rules[r].spec.selector.Some? ==> rules[r].spec.selector.value.matchExpressions == []
  }

  predicate LabelsDiffer(rules: map<string, Rule>) {
    forall a, b :: a in rules && b in rules && a != b && SameTaint(rules[a].spec.taint, rules[b].spec.taint) ==>
      && rules[a].spec.selector.Some? && rules[b].spec.selector.Some?
      && DifferOnAKey(rules[a].spec.selector.value.matchLabels, rules[b].spec.selector.value.matchLabels)
  }

  /** When selectors have labels only: if and only if every two rules with one taint give some key different
      values. */
  lemma AdmittedLabelRulesMeetNowhere(requests: seq<Request>, render: Render)
    requires AllAccepted(map[], requests, render) && LabelsOnly(ServeAll(map[], requests, render))
    ensures MeetNowhere(ServeAll(map[], requests, render)) <==> LabelsDiffer(ServeAll(map[], requests, render))
  {
    var rules := ServeAll(map[], requests, render);
    AdmittedRulesMeetNowhere(requests, render);
    forall a, b | a in rules && b in rules && rules[a].spec.selector.Some? && rules[b].spec.selector.Some?
      ensures KeptApart(rules[a].spec.selector.value, rules[b].spec.selector.value)
              <==> DifferOnAKey(rules[a].spec.selector.value.matchLabels, rules[b].spec.selector.value.matchLabels)
    {
      KeptApartByLabels(rules[a].spec.selector.value, rules[b].spec.selector.value);
    }
  }

  /** The webhook does not ask for it: with any printing that tells these two selectors apart, two rules with
      the same taint are both accepted although they select the same node. */
  lemma OverlappingRulesAdmitted(render: Render, first: RuleSpec, second: RuleSpec)
    requires SpecValid(first) && SpecValid(second) && SameTaint(first.taint, second.taint)
    requires first.selector == Some(LabelSelector(map["a" := "1"], []))
    requires second.selector == Some(LabelSelector(map["b" := "1"], []))
    requires render(first.selector.value) != render(second.selector.value)
    ensures var blank := Status(0, [], [], [], [], None);
            var requests := [Create("x", Rule(first, [], false, 1, blank)),
                Create("y", Rule(second, [], false, 1, blank))];
            && AllAccepted(map[], requests, render)
            && Applicable(ServeAll(map[], requests, render), map["a" := "1", "b" := "1"]) == {"x", "y"}
  {
    var blank := Status(0, [], [], [], [], None);
    var x, y := Create("x", Rule(first, [], false, 1, blank)), Create("y", Rule(second, [], false, 1, blank));
    var one := Serve(map[], x, render);
    assert Accepted(one, y, render);
    assert [x, y][1..] == [y] && [y][1..] == [];
    assert ServeAll(map[], [x, y], render) == ServeAll(one, [y], render) == Serve(one, y, render);
  }
}
