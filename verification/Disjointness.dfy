/** When can a set of label requirements be met at all? A check that looks at one key and finitely many
    choices of its value at a time, and what it decides about two selectors. */
module Disjointness {
  import opened Model
  import opened Sequences
  import opened Selectors

  // ---------- a selector as a set of requirements ----------

  function LabelDemand(k: string, v: string): Requirement {
    Requirement(k, OP_IN, [v])
  }

  function Demands(s: LabelSelector): set<Requirement> {
    (set k | k in s.matchLabels :: LabelDemand(k, s.matchLabels[k])) + (set r | r in s.matchExpressions)
  }

  predicate MeetsAll(demands: set<Requirement>, labels: map<string, string>) {
    forall r :: r in demands ==> Holds(r, labels)
  }

  lemma MatchesIsMeetsAll(s: LabelSelector, labels: map<string, string>)
    ensures Matches(s, labels) <==> MeetsAll(Demands(s), labels)
  {
    forall k | k in s.matchLabels
      ensures LabelDemand(k, s.matchLabels[k]) in Demands(s)
      ensures Holds(LabelDemand(k, s.matchLabels[k]), labels) <==> k in labels && labels[k] == s.matchLabels[k]
    {
    }
    if Matches(s, labels) {
      forall r | r in Demands(s) ensures Holds(r, labels) {
        if r !in s.matchExpressions {
          var k :| k in s.matchLabels && r == LabelDemand(k, s.matchLabels[k]);
        }
      }
    }
  }

  ghost predicate Satisfiable(demands: set<Requirement>) {
    exists labels :: MeetsAll(demands, labels)
  }

  // ---------- one key at a time ----------

  /** What a label set can hold at a key, as far as a set of requirements can tell. */
  datatype Choice = Missing | Value(value: string) | OtherValue

  predicate Permits(r: Requirement, c: Choice) {
    if r.operator == OP_IN then c.Value? && c.value in r.values
    else if r.operator == OP_NOT_IN then c.Value? ==> c.value !in r.values
    else if r.operator == OP_EXISTS then c != Missing
    else c == Missing
  }

  function ValuesAt(demands: set<Requirement>, k: string): set<string> {
    {""} + set r, v | r in demands && r.key == k && v in r.values :: v
  }

  function Choices(demands: set<Requirement>, k: string): set<Choice> {
    {Missing, OtherValue} + set v | v in ValuesAt(demands, k) :: Value(v)
  }

  predicate AllPermit(demands: set<Requirement>, k: string, c: Choice) {
    forall r :: r in demands && r.key == k ==> Permits(r, c)
  }

  /** Some choice at the key suits every requirement on it. */
  predicate Open(demands: set<Requirement>, k: string) {
    exists c :: c in Choices(demands, k) && AllPermit(demands, k, c)
  }

  predicate AllOpen(demands: set<Requirement>) {
    forall r :: r in demands ==> Open(demands, r.key)
  }

  function ChoiceAt(demands: set<Requirement>, labels: map<string, string>, k: string): Choice {
    if k !in labels then Missing
    else if labels[k] in ValuesAt(demands, k) then Value(labels[k])
    else OtherValue
  }

  lemma ChoiceDecides(demands: set<Requirement>, labels: map<string, string>, r: Requirement)
    requires r in demands
    ensures Holds(r, labels) <==> Permits(r, ChoiceAt(demands, labels, r.key))
  {
  }

  lemma ChoiceIsAChoice(demands: set<Requirement>, labels: map<string, string>, k: string)
    ensures ChoiceAt(demands, labels, k) in Choices(demands, k)
  {
  }

  /** Labels that realise a choice at a key and are otherwise as given. */
  lemma Realised(demands: set<Requirement>, labels: map<string, string>, k: string, c: Choice)
    returns (changed: map<string, string>)
    requires c in Choices(demands, k)
    ensures ChoiceAt(demands, changed, k) == c
    ensures forall x :: x != k ==> (x in changed <==> x in labels) && (x in labels ==> changed[x] == labels[x])
  {
    match c
    case Missing => changed := labels - {k};
    case Value(v) => changed := labels[k := v];
    case OtherValue =>
      var unused := FreshString(ValuesAt(demands, k));
      changed := labels[k := unused];
  }

  lemma SameChoiceElsewhere(demands: set<Requirement>, a: map<string, string>, b: map<string, string>, k: string)
    requires (k in a <==> k in b) && (k in a ==> a[k] == b[k])
    ensures ChoiceAt(demands, a, k) == ChoiceAt(demands, b, k)
  {
  }

  /** Choosing key by key. */
  lemma {:induction false} ChosenForKeys(
    demands: set<Requirement>, keys: set<string>) returns (labels: map<string, string>)
    requires forall k :: k in keys ==> Open(demands, k)
    ensures forall k :: k in keys ==> AllPermit(demands, k, ChoiceAt(demands, labels, k))
    decreases keys
  {
    labels := map[];
    if keys != {} {
      var k :| k in keys;
      var before := ChosenForKeys(demands, keys - {k});
      var c :| c in Choices(demands, k) && AllPermit(demands, k, c);
      labels := Realised(demands, before, k, c);
      forall x | x in keys ensures AllPermit(demands, x, ChoiceAt(demands, labels, x)) {
        if x != k {
          SameChoiceElsewhere(demands, before, labels, x);
        }
      }
    }
  }

  /** Requirements can be met together exactly when every key they mention is open. */
  lemma SatisfiableExact(demands: set<Requirement>)
    ensures Satisfiable(demands) <==> AllOpen(demands)
  {
    if Satisfiable(demands) {
      var labels :| MeetsAll(demands, labels);
      forall r | r in demands ensures Open(demands, r.key) {
        ChoiceIsAChoice(demands, labels, r.key);
        forall q | q in demands && q.key == r.key ensures Permits(q, ChoiceAt(demands, labels, r.key)) {
          ChoiceDecides(demands, labels, q);
        }
      }
    }
    if AllOpen(demands) {
      var labels := ChosenForKeys(demands, set r | r in demands :: r.key);
      forall r | r in demands ensures Holds(r, labels) {
        ChoiceDecides(demands, labels, r);
      }
      assert MeetsAll(demands, labels);
    }
  }

  // ---------- two selectors ----------

  /** Some key has no choice that suits both selectors. */
  predicate KeptApart(s: LabelSelector, t: LabelSelector) {
    !AllOpen(Demands(s) + Demands(t))
  }

  /** Two selectors match no label set together exactly when some key keeps them apart. */
  lemma DisjointExact(s: LabelSelector, t: LabelSelector)
    ensures (forall labels :: !(Matches(s, labels) && Matches(t, labels))) <==> KeptApart(s, t)
  {
    SatisfiableExact(Demands(s) + Demands(t));
    forall labels
      ensures Matches(s, labels) && Matches(t, labels) <==> MeetsAll(Demands(s) + Demands(t), labels)
    {
      MatchesIsMeetsAll(s, labels);
      MatchesIsMeetsAll(t, labels);
    }
  }

  predicate DifferOnAKey(a: map<string, string>, b: map<string, string>) {
    exists k :: k in a && k in b && a[k] != b[k]
  }

  /** For selectors of labels only: exactly when a key has different values in the two. */
  lemma KeptApartByLabels(s: LabelSelector, t: LabelSelector)
    requires s.matchExpressions == [] && t.matchExpressions == []
    ensures KeptApart(s, t) <==> DifferOnAKey(s.matchLabels, t.matchLabels)
  {
    DisjointExact(s, t);
    if !DifferOnAKey(s.matchLabels, t.matchLabels) {
      var both := s.matchLabels + t.matchLabels;
      assert Matches(s, both) && Matches(t, both);
    }
  }

  // ---------- one selector within another ----------

  /** Whatever meets the requirements meets this one too, as far as a search over choices can tell. */
  predicate Implied(demands: set<Requirement>, d: Requirement) {
    forall c :: c in Choices(demands + {d}, d.key) && AllPermit(demands, d.key, c) ==> Permits(d, c)
  }

  lemma ChangedKeyStillMeets(demands: set<Requirement>, d: Requirement, labels: map<string, string>, c: Choice)
    returns (changed: map<string, string>)
    requires MeetsAll(demands, labels) && c in Choices(demands + {d}, d.key) && AllPermit(demands, d.key, c)
    ensures MeetsAll(demands, changed) && ChoiceAt(demands + {d}, changed, d.key) == c
  {
    var all := demands + {d};
    changed := Realised(all, labels, d.key, c);
    forall r | r in demands ensures Holds(r, changed) {
      ChoiceDecides(all, changed, r);
      if r.key != d.key {
        ChoiceDecides(all, labels, r);
        SameChoiceElsewhere(all, labels, changed, r.key);
      }
    }
  }

  /** A requirement follows from others exactly when they cannot be met or every choice at its key that suits
      them suits it. */
  lemma ImpliedExact(demands: set<Requirement>, d: Requirement)
    ensures (forall labels :: MeetsAll(demands, labels) ==> Holds(d, labels))
            <==> !AllOpen(demands) || Implied(demands, d)
  {
    var all := demands + {d};
    SatisfiableExact(demands);
    if Implied(demands, d) {
      forall labels | MeetsAll(demands, labels) ensures Holds(d, labels) {
        ChoiceIsAChoice(all, labels, d.key);
        forall q | q in all && q.key == d.key ensures Holds(q, labels) <==> Permits(q, ChoiceAt(all, labels, d.key)) {
          ChoiceDecides(all, labels, q);
        }
      }
    }
    if AllOpen(demands) && forall labels :: MeetsAll(demands, labels) ==> Holds(d, labels) {
      var labels :| MeetsAll(demands, labels);
      forall c | c in Choices(all, d.key) && AllPermit(demands, d.key, c) ensures Permits(d, c) {
        var changed := ChangedKeyStillMeets(demands, d, labels, c);
        ChoiceDecides(all, changed, d);
      }
    }
  }

  function DemandsOf(s: Option<LabelSelector>): set<Requirement> {
    if s.None? then {} else Demands(s.value)
  }

  lemma SelectsIsMeetsAll(s: Option<LabelSelector>, labels: map<string, string>)
    ensures Selects(s, labels) <==> !InError(s) && MeetsAll(DemandsOf(s), labels)
  {
    if s.Some? {
      MatchesIsMeetsAll(s.value, labels);
    }
  }

  /** A finite search, key by key, for whether one selector selects all that another does. */
  predicate Within(inner: Option<LabelSelector>, outer: Option<LabelSelector>) {
    || InError(inner)
    || !AllOpen(DemandsOf(inner))
    || (!InError(outer) && forall d :: d in DemandsOf(outer) ==> Implied(DemandsOf(inner), d))
  }

  lemma WithinExact(inner: Option<LabelSelector>, outer: Option<LabelSelector>)
    ensures (forall labels :: Selects(inner, labels) ==> Selects(outer, labels)) <==> Within(inner, outer)
  {
    var demands := DemandsOf(inner);
    SatisfiableExact(demands);
    forall labels
      ensures Selects(inner, labels) <==> !InError(inner) && MeetsAll(demands, labels)
      ensures Selects(outer, labels) <==> !InError(outer) && MeetsAll(DemandsOf(outer), labels)
    {
      SelectsIsMeetsAll(inner, labels);
      SelectsIsMeetsAll(outer, labels);
    }
    forall d
      ensures (forall labels :: MeetsAll(demands, labels) ==> Holds(d, labels))
              <==> !AllOpen(demands) || Implied(demands, d)
    {
      ImpliedExact(demands, d);
    }
  }

  // ---------- which selectors can be edited unnoticed ----------

  /** The selector selects all that is selected by what the selector check sees of it. */
  predicate SafeBySearch(s: LabelSelector) {
    Within(Some(Reread(s)), Some(s))
  }

  /** That search decides whether every edit that the selector check calls no change is harmless. */
  lemma SafeToSkipIsSafeBySearch(s: LabelSelector)
    ensures SafeToSkip(s) <==> SafeBySearch(s)
  {
    UnchangedSelectorExact(s);
    WithinExact(Some(Reread(s)), Some(s));
  }

  /** The ordinary case: a usable selector without an empty label value. */
  lemma UsualSelectorIsSafe(s: LabelSelector)
    requires Parseable(s) && NoEmptyValue(s.matchLabels)
    ensures SafeBySearch(s)
  {
    RereadOfParseable(s);
    assert NonEmptyOnly(s.matchLabels) == s.matchLabels;
    assert Reread(s) == s;
    WithinExact(Some(s), Some(s));
  }
}
