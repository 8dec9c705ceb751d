/** Label selectors: what they match, and the controller's fast check for an edited selector. */
module Selectors {
  import opened Model
  import opened Sequences

  const OP_IN := "In"
  const OP_NOT_IN := "NotIn"
  const OP_EXISTS := "Exists"
  const OP_DOES_NOT_EXIST := "DoesNotExist"

  // ---------- meaning ----------

  predicate ValueChar(c: char) {
    'a' <= c <= 'z' || 'A' <= c <= 'Z' || '0' <= c <= '9' || c == '-' || c == '_' || c == '.'
  }

  predicate KeyChar(c: char) {
    ValueChar(c) || c == '/'
  }

  predicate ValidKey(k: string) {
    k != "" && forall c :: c in k ==> KeyChar(c)
  }

  predicate ValidValue(v: string) {
    forall c :: c in v ==> ValueChar(c)
  }

  predicate TakesValues(operator: string) {
    operator == OP_IN || operator == OP_NOT_IN
  }

  predicate KnownOperator(operator: string) {
    TakesValues(operator) || operator == OP_EXISTS || operator == OP_DOES_NOT_EXIST
  }

  predicate ValidRequirement(r: Requirement) {
    && ValidKey(r.key)
    && (forall v :: v in r.values ==> ValidValue(v))
    && KnownOperator(r.operator)
    && (TakesValues(r.operator) <==> r.values != [])
  }

  /** The selector is accepted by the label library; otherwise it is an error there. */
  predicate Parseable(s: LabelSelector) {
    && (forall k :: k in s.matchLabels ==> ValidKey(k) && ValidValue(s.matchLabels[k]))
    && (forall r :: r in s.matchExpressions ==> ValidRequirement(r))
  }

  predicate Holds(r: Requirement, labels: map<string, string>) {
    if r.operator == OP_IN then r.key in labels && labels[r.key] in r.values
    else if r.operator == OP_NOT_IN then r.key in labels ==> labels[r.key] !in r.values
    else if r.operator == OP_EXISTS then r.key in labels
    else r.key !in labels
  }

  predicate Matches(s: LabelSelector, labels: map<string, string>) {
    && (forall k :: k in s.matchLabels ==> k in labels && labels[k] == s.matchLabels[k])
    && (forall r :: r in s.matchExpressions ==> Holds(r, labels))
  }

  /** No selector applies to every node; a selector in error applies to none. */
  predicate Selects(selector: Option<LabelSelector>, labels: map<string, string>) {
    selector.Some? ==> Parseable(selector.value) && Matches(selector.value, labels)
  }

  /** The operators by name: they come in pairs of opposites, and In asks for the key. */
  lemma OperatorsArePaired(key: string, values: seq<string>, labels: map<string, string>)
    ensures Holds(Requirement(key, "NotIn", values), labels) <==> !Holds(Requirement(key, "In", values), labels)
    ensures Holds(Requirement(key, "DoesNotExist", []), labels) <==> !Holds(Requirement(key, "Exists", []), labels)
    ensures Holds(Requirement(key, "In", values), labels) ==> Holds(Requirement(key, "Exists", []), labels)
    ensures key in labels ==> Holds(Requirement(key, "In", [labels[key]]), labels)
  {
  }

  // ---------- map comparison ----------

  function ValueOrZero(m: map<string, string>, k: string): string {
    if k in m then m[k] else ""
  }

  /** What comparing sizes and then `b[k] != v` for each entry of `a` decides. */
  predicate ZeroValueEqual(a: map<string, string>, b: map<string, string>) {
    |a| == |b| && forall k :: k in a ==> ValueOrZero(b, k) == a[k]
  }

  predicate NoEmptyValue(m: map<string, string>) {
    forall k :: k in m ==> m[k] != ""
  }

  method StringMapEqual(a: map<string, string>, b: map<string, string>) returns (equal: bool)
    ensures equal <==> ZeroValueEqual(a, b)
  {
    if |a| != |b| {
      return false;
    }
    var rest := a.Keys;
    while rest != {}
      invariant rest <= a.Keys
      invariant forall k :: k in a.Keys - rest ==> ValueOrZero(b, k) == a[k]
      decreases rest
    {
      var k :| k in rest;
      if ValueOrZero(b, k) != a[k] {
        return false;
      }
      rest := rest - {k};
    }
    return true;
  }

  lemma ZeroValueEqualIsEquality(a: map<string, string>, b: map<string, string>)
    requires NoEmptyValue(a)
    ensures ZeroValueEqual(a, b) <==> a == b
  {
    if ZeroValueEqual(a, b) {
      SubsetSameSize(a.Keys, b.Keys);
    }
  }

  /** The comparison is equality for every second map exactly when the first map has no empty value. */
  lemma ZeroValueEqualExact(a: map<string, string>)
    ensures (forall b :: ZeroValueEqual(a, b) <==> a == b) <==> NoEmptyValue(a)
  {
    if NoEmptyValue(a) {
      forall b ensures ZeroValueEqual(a, b) <==> a == b {
        ZeroValueEqualIsEquality(a, b);
      }
    } else {
      var k :| k in a && a[k] == "";
      var b, unused := Rekeyed(a, k);
      assert ZeroValueEqual(a, b) && a != b;
    }
  }

  /** Trading an empty-valued key for a fresh one goes unnoticed. */
  lemma Rekeyed(a: map<string, string>, k: string) returns (b: map<string, string>, unused: string)
    requires k in a && a[k] == ""
    ensures ZeroValueEqual(a, b) && k !in b
    ensures unused !in a && unused in b && ValidKey(unused) && b[unused] == "x"
  {
    unused := FreshString(a.Keys);
    b := (a - {k})[unused := "x"];
    assert b.Keys == a.Keys - {k} + {unused};
  }

  // ---------- the textual key of a match expression ----------

  function Join(values: seq<string>): string {
    if values == [] then ""
    else if |values| == 1 then values[0]
    else values[0] + " " + Join(values[1..])
  }

  function ExpressionKey(r: Requirement): string {
    r.key + "-" + r.operator + "-" + "[" + Join(r.values) + "]"
  }

  function Split(s: string): (values: seq<string>)
    decreases |s|
  {
    var i := FirstIndex(' ', s);
    if i == |s| then [s] else [s[..i]] + Split(s[i + 1..])
  }

  lemma {:induction false} SplitOfJoin(values: seq<string>)
    requires values != [] && forall v :: v in values ==> ' ' !in v
    ensures Split(Join(values)) == values
  {
    assert values == [values[0]] + values[1..];
    if |values| == 1 {
      FirstIndexOf(' ', values[0], "");
    } else {
      var rest := Join(values[1..]);
      var all := values[0] + [' '] + rest;
      assert Join(values) == all;
      FirstIndexOf(' ', values[0], rest);
      SplitOfJoin(values[1..]);
      assert all[..|values[0]|] == values[0] && all[|values[0]| + 1..] == rest;
    }
  }

  /** Taking a text apart at the first bracket and at the last hyphen before it. */
  function TakenApart(text: string): Requirement {
    var i := FirstIndex('[', text);
    var stem := if i == 0 then "" else text[..i - 1];
    var inner := if i + 2 <= |text| then text[i + 1..|text| - 1] else "";
    var j := LastIndex('-', stem);
    var operator := if j < |stem| then stem[j + 1..] else "";
    Requirement(stem[..j], operator, if TakesValues(operator) then Split(inner) else [])
  }

  /** The valid requirement with this text, if there is one. */
  function Parsed(text: string): Option<Requirement> {
    var r := TakenApart(text);
    if ValidRequirement(r) && ExpressionKey(r) == text then Some(r) else None
  }

  function Stem(r: Requirement): string {
    r.key + ['-'] + r.operator
  }

  lemma ExpressionKeyParts(r: Requirement)
    ensures ExpressionKey(r) == (Stem(r) + "-") + ['['] + (Join(r.values) + "]")
    ensures ValidRequirement(r) ==> '[' !in Stem(r) + "-" && '-' !in r.operator
  {
    var head := r.key + "-" + r.operator + "-";
    assert head == Stem(r) + "-";
    assert ExpressionKey(r) == head + "[" + Join(r.values) + "]";
  }

  /** Round trip: the text of a valid requirement is parsed back to it. */
  lemma ParsedOfKey(r: Requirement)
    requires ValidRequirement(r)
    ensures Parsed(ExpressionKey(r)) == Some(r)
  {
    TakenApartOfKey(r);
  }

  lemma TakenApartOfKey(r: Requirement)
    requires ValidRequirement(r)
    ensures TakenApart(ExpressionKey(r)) == r
  {
    var text, i := ExpressionKey(r), |Stem(r)| + 1;
    TextSplits(r);
    assert text[..i - 1] == Stem(r) && text[i + 1..|text| - 1] == Join(r.values);
    StemSplits(r);
    if r.values != [] {
      SplitOfJoin(r.values);
    }
  }

  lemma TextSplits(r: Requirement)
    requires ValidRequirement(r)
    ensures var text, i := ExpressionKey(r), |Stem(r)| + 1;
            && FirstIndex('[', text) == i && i + 2 <= |text|
            && text[..i - 1] == Stem(r) && text[i + 1..|text| - 1] == Join(r.values)
  {
    var head, tail := Stem(r) + "-", Join(r.values) + "]";
    ExpressionKeyParts(r);
    FirstIndexOf('[', head, tail);
    var text := head + ['['] + tail;
    assert text[..|head|] == head && text[|head| + 1..] == tail;
    assert text[..|head| - 1] == head[..|head| - 1] == Stem(r);
    assert text[|head| + 1..|text| - 1] == tail[..|tail| - 1] == Join(r.values);
  }

  lemma StemSplits(r: Requirement)
    requires ValidRequirement(r)
    ensures var stem := Stem(r);
            LastIndex('-', stem) == |r.key| < |stem| && stem[..|r.key|] == r.key && stem[|r.key| + 1..] == r.operator
  {
    ExpressionKeyParts(r);
    LastIndexOf('-', r.key, r.operator);
  }

  /** Two valid requirements with the same key text are the same requirement. */
  lemma ExpressionKeyInjective(a: Requirement, b: Requirement)
    requires ValidRequirement(a) && ValidRequirement(b)
    requires ExpressionKey(a) == ExpressionKey(b)
    ensures a == b
  {
    ParsedOfKey(a);
    ParsedOfKey(b);
  }

  /** Outside valid requirements the key text is ambiguous. */
  lemma ExpressionKeyCollides()
    ensures var a, b := Requirement("a-b", "In", ["x"]), Requirement("a", "b-In", ["x"]);
            a != b && ExpressionKey(a) == ExpressionKey(b) && ValidRequirement(a)
  {
  }

  // ---------- has the selector changed? ----------

  function ExpressionKeys(rs: seq<Requirement>): set<string> {
    set r | r in rs :: ExpressionKey(r)
  }

  /** Inclusion of key texts is inclusion of the requirements themselves. */
  lemma KeyInclusionIsInclusion(a: seq<Requirement>, b: seq<Requirement>)
    requires forall r :: r in a || r in b ==> ValidRequirement(r)
    ensures ExpressionKeys(a) <= ExpressionKeys(b) <==> forall r :: r in a ==> r in b
  {
    if ExpressionKeys(a) <= ExpressionKeys(b) {
      forall r | r in a ensures r in b {
        assert ExpressionKey(r) in ExpressionKeys(b);
        var q :| q in b && ExpressionKey(q) == ExpressionKey(r);
        ExpressionKeyInjective(r, q);
      }
    }
  }

  predicate SelectorChanged(current: Option<LabelSelector>, previous: Option<LabelSelector>) {
    match (current, previous)
    case (None, None) => false
    case (Some(c), Some(p)) =>
      || !ZeroValueEqual(c.matchLabels, p.matchLabels)
      || |c.matchExpressions| != |p.matchExpressions|
      || !(ExpressionKeys(c.matchExpressions) <= ExpressionKeys(p.matchExpressions))
    case _ => true
  }

  method KeyedExpressions(rs: seq<Requirement>) returns (m: map<string, Requirement>)
    ensures m.Keys == ExpressionKeys(rs)
  {
    m := map[];
    for i := 0 to |rs|
      invariant m.Keys == ExpressionKeys(rs[..i])
    {
      assert rs[..i + 1] == rs[..i] + [rs[i]];
      m := m[ExpressionKey(rs[i]) := rs[i]];
    }
    assert rs[..|rs|] == rs;
  }

  method NodeSelectorChanged(current: Option<LabelSelector>, previous: Option<LabelSelector>) returns (changed: bool)
    ensures changed <==> SelectorChanged(current, previous)
    ensures current.None? != previous.None? ==> changed
    ensures current.Some? && previous.Some? ==>
              |current.value.matchExpressions| != |previous.value.matchExpressions| ==> changed
  {
    if current.None? && previous.None? {
      return false;
    }
    if current.None? != previous.None? {
      return true;
    }
    var equal := StringMapEqual(current.value.matchLabels, previous.value.matchLabels);
    if !equal {
      return true;
    }
    if |current.value.matchExpressions| != |previous.value.matchExpressions| {
      return true;
    }
    var currentExprs := KeyedExpressions(current.value.matchExpressions);
    var previousExprs := KeyedExpressions(previous.value.matchExpressions);
    var rest := currentExprs.Keys;
    while rest != {}
      invariant rest <= currentExprs.Keys
      invariant currentExprs.Keys - rest <= previousExprs.Keys
      decreases rest
    {
      var key :| key in rest;
      if key !in previousExprs {
        return true;
      }
      rest := rest - {key};
    }
    return false;
  }

  /** Same labels, and the same expressions as often. */
  predicate SameSelector(s: LabelSelector, t: LabelSelector) {
    s.matchLabels == t.matchLabels && multiset(s.matchExpressions) == multiset(t.matchExpressions)
  }

  /** For usable selectors without empty label values, none of whose expressions is repeated, the check notices
      every edit but a reordering: also one that only drops labels or expressions. */
  lemma UnchangedIsReordered(c: LabelSelector, p: LabelSelector)
    requires Parseable(c) && Parseable(p) && NoEmptyValue(c.matchLabels) && Distinct(c.matchExpressions)
    ensures !SelectorChanged(Some(c), Some(p)) <==> SameSelector(c, p)
  {
    var a, b := c.matchExpressions, p.matchExpressions;
    ZeroValueEqualIsEquality(c.matchLabels, p.matchLabels);
    KeyInclusionIsInclusion(a, b);
    if multiset(a) == multiset(b) {
      assert |multiset(a)| == |multiset(b)|;
      forall r | r in a ensures r in b {
        assert r in multiset(b);
      }
    } else if |a| == |b| && forall r :: r in a ==> r in b {
      var sa, sb := set r | r in a, set r | r in b;
      CardinalityOfElements(a);
      CardinalityOfElements(b);
      assert sa <= sb;
      SubsetSameSize(sa, sb);
      DistinctMultiset(a);
      DistinctMultiset(b);
      assert false;
    }
  }

  /** A repeated expression hides the loss of another one. */
  lemma RepeatedExpressionMisleads(c: LabelSelector, i: nat, j: nat) returns (p: LabelSelector)
    requires Parseable(c) && i < j < |c.matchExpressions| && c.matchExpressions[i] == c.matchExpressions[j]
    ensures Parseable(p) && !SelectorChanged(Some(c), Some(p)) && !SameSelector(c, p)
  {
    var a := c.matchExpressions;
    var key := FreshString(set r | r in a :: r.key);
    var other := Requirement(key, OP_EXISTS, []);
    var b := a[i := other];
    p := c.(matchExpressions := b);
    assert b[i] == other && other !in a;
    forall r | r in a ensures r in b {
      var k :| 0 <= k < |a| && a[k] == r;
      assert b[if k == i then j else k] == r;
    }
    forall r | r in b ensures ValidRequirement(r) {
      assert r == other || r in a;
    }
    KeyInclusionIsInclusion(a, b);
    assert other in multiset(b) && other !in multiset(a);
  }

  /** That no expression is repeated is exactly what it takes. */
  lemma {:induction false} UnchangedIsReorderedExact(c: LabelSelector)
    requires Parseable(c) && NoEmptyValue(c.matchLabels)
    ensures (forall p :: Parseable(p) ==> (!SelectorChanged(Some(c), Some(p)) <==> SameSelector(c, p)))
            <==> Distinct(c.matchExpressions)
  {
    if Distinct(c.matchExpressions) {
      forall p | Parseable(p) ensures !SelectorChanged(Some(c), Some(p)) <==> SameSelector(c, p) {
        UnchangedIsReordered(c, p);
      }
    } else {
      var i, j :| 0 <= i < j < |c.matchExpressions| && c.matchExpressions[i] == c.matchExpressions[j];
      var p := RepeatedExpressionMisleads(c, i, j);
    }
  }

  predicate InError(selector: Option<LabelSelector>) {
    selector.Some? && !Parseable(selector.value)
  }

  /** An edit that the check calls no change can only widen the selector: every label set the previous
      one selected is still selected, so the skipped cleanup had no node to clean. Reordered or
      repeated expressions are covered. */
  lemma UnchangedSelectorStillSelects(
    current: Option<LabelSelector>, previous: Option<LabelSelector>, labels: map<string, string>)
    requires current.Some? ==> NoEmptyValue(current.value.matchLabels)
    requires InError(current) ==> InError(previous)
    requires !SelectorChanged(current, previous)
    ensures Selects(previous, labels) ==> Selects(current, labels)
  {
    if current.Some? && Selects(previous, labels) {
      var c, p := current.value, previous.value;
      ZeroValueEqualIsEquality(c.matchLabels, p.matchLabels);
      KeyInclusionIsInclusion(c.matchExpressions, p.matchExpressions);
    }
  }

  // ---------- exactly when the check is safe ----------

  /** The valid requirement that the text of this one stands for, if there is one. */
  function Reading(r: Requirement): Requirement {
    match Parsed(ExpressionKey(r))
    case Some(q) => q
    case None => r
  }

  lemma ReadingFacts(r: Requirement)
    ensures ExpressionKey(Reading(r)) == ExpressionKey(r)
    ensures ValidRequirement(r) ==> Reading(r) == r
    ensures forall q :: ValidRequirement(q) && ExpressionKey(q) == ExpressionKey(r) ==> Reading(r) == q
  {
    forall q | ValidRequirement(q) && ExpressionKey(q) == ExpressionKey(r) ensures Reading(r) == q {
      ParsedOfKey(q);
    }
  }

  function NonEmptyOnly(m: map<string, string>): map<string, string> {
    map k | k in m && m[k] != "" :: m[k]
  }

  /** What is left of a selector when it is seen as the check sees it: the labels with a non-empty value,
      and what the texts of the expressions stand for. */
  function Reread(s: LabelSelector): (t: LabelSelector)
    ensures |t.matchExpressions| == |s.matchExpressions|
    ensures forall i :: 0 <= i < |s.matchExpressions| ==> t.matchExpressions[i] == Reading(s.matchExpressions[i])
  {
    LabelSelector(
      NonEmptyOnly(s.matchLabels),
      seq(|s.matchExpressions|, i requires 0 <= i < |s.matchExpressions| => Reading(s.matchExpressions[i])))
  }

  lemma RereadTexts(s: LabelSelector)
    ensures ExpressionKeys(Reread(s).matchExpressions) == ExpressionKeys(s.matchExpressions)
  {
  }

  /** Without expressions in error nothing but the empty labels is lost. */
  lemma RereadOfParseable(s: LabelSelector)
    requires Parseable(s)
    ensures Reread(s) == LabelSelector(NonEmptyOnly(s.matchLabels), s.matchExpressions) && Parseable(Reread(s))
  {
    forall i | 0 <= i < |s.matchExpressions| ensures Reading(s.matchExpressions[i]) == s.matchExpressions[i] {
      ReadingFacts(s.matchExpressions[i]);
    }
    assert Reread(s).matchExpressions == s.matchExpressions;
  }

  /** Every previous selector that the check cannot tell from the current one keeps what is left of it. */
  lemma PreviousKeepsReread(current: LabelSelector, previous: LabelSelector, labels: map<string, string>)
    requires !SelectorChanged(Some(current), Some(previous)) && Selects(Some(previous), labels)
    ensures Selects(Some(Reread(current)), labels)
  {
    var left := Reread(current);
    forall r | r in left.matchExpressions ensures ValidRequirement(r) && Holds(r, labels) {
      var i :| 0 <= i < |left.matchExpressions| && left.matchExpressions[i] == r;
      var own := current.matchExpressions[i];
      assert ExpressionKey(own) in ExpressionKeys(previous.matchExpressions);
      var q :| q in previous.matchExpressions && ExpressionKey(q) == ExpressionKey(own);
      ReadingFacts(own);
    }
    forall k | k in left.matchLabels
      ensures ValidKey(k) && ValidValue(left.matchLabels[k]) && k in labels && labels[k] == left.matchLabels[k]
    {
      assert ValueOrZero(previous.matchLabels, k) == current.matchLabels[k];
    }
  }

  function AllX(keys: set<string>): map<string, string> {
    map k | k in keys :: "x"
  }

  function EmptyKeys(m: map<string, string>): set<string> {
    set k | k in m && m[k] == ""
  }

  lemma NonEmptyKeys(m: map<string, string>)
    ensures NonEmptyOnly(m).Keys == m.Keys - EmptyKeys(m)
    ensures |NonEmptyOnly(m).Keys| + |EmptyKeys(m)| == |m|
  {
  }

  lemma DisjointMapSize(m: map<string, string>, keys: set<string>)
    requires keys !! m.Keys
    ensures |m + AllX(keys)| == |m.Keys| + |keys|
  {
    assert (m + AllX(keys)).Keys == m.Keys + keys;
  }

  /** Trading the empty-valued keys for as many new ones goes unnoticed. */
  lemma TradedKeys(m: map<string, string>, unused: set<string>)
    requires unused !! m.Keys && |unused| == |EmptyKeys(m)|
    ensures ZeroValueEqual(m, NonEmptyOnly(m) + AllX(unused))
  {
    NonEmptyKeys(m);
    DisjointMapSize(NonEmptyOnly(m), unused);
  }

  lemma FreshKeys(used: set<string>, n: nat) returns (keys: set<string>)
    ensures |keys| == n && keys !! used && forall k :: k in keys ==> ValidKey(k)
  {
    keys := FreshStrings(used, n);
  }

  lemma WithExtraLabels(s: LabelSelector, labels: map<string, string>, unused: set<string>)
    requires Selects(Some(s), labels) && forall k :: k in unused ==> ValidKey(k)
    requires unused !! labels.Keys && forall r :: r in s.matchExpressions ==> r.key !in unused
    ensures Selects(Some(s.(matchLabels := s.matchLabels + AllX(unused))), labels + AllX(unused))
  {
  }

  lemma NewKeysSelectNothing(s: LabelSelector, labels: map<string, string>, unused: set<string>)
    requires !Selects(Some(s), labels) && unused !! s.matchLabels.Keys
    requires forall r :: r in s.matchExpressions ==> r.key !in unused
    ensures !Selects(Some(s), labels + AllX(unused))
  {
  }

  function ExpressionsOn(rs: seq<Requirement>): set<string> {
    set r | r in rs :: r.key
  }

  /** Where what is left selects more than the current selector, there is a previous selector which the
      check cannot tell from the current one and which selects a node that the current one does not. */
  lemma UnnoticedPrevious(current: LabelSelector, labels: map<string, string>)
    returns (previous: LabelSelector, seen: map<string, string>)
    requires Selects(Some(Reread(current)), labels) && !Selects(Some(current), labels)
    ensures !SelectorChanged(Some(current), Some(previous))
    ensures Selects(Some(previous), seen) && !Selects(Some(current), seen)
  {
    var left, m := Reread(current), current.matchLabels;
    var used := m.Keys + labels.Keys + ExpressionsOn(left.matchExpressions) + ExpressionsOn(current.matchExpressions);
    var unused := FreshKeys(used, |EmptyKeys(m)|);
    previous := left.(matchLabels := left.matchLabels + AllX(unused));
    seen := labels + AllX(unused);
    TradedKeys(m, unused);
    RereadTexts(current);
    forall r | r in left.matchExpressions || r in current.matchExpressions ensures r.key !in unused {
      assert r.key in used;
    }
    WithExtraLabels(left, labels, unused);
    NewKeysSelectNothing(current, labels, unused);
  }

  /** Every edit to this selector that the check calls no change is harmless. */
  ghost predicate SafeToSkip(current: LabelSelector) {
    forall previous, labels ::
      !SelectorChanged(Some(current), Some(previous)) && Selects(Some(previous), labels) ==>
          Selects(Some(current), labels)
  }

  /** For every selector, in error or not: that is so exactly when the selector selects whatever is selected
      by what the check sees of it. */
  lemma {:induction false} UnchangedSelectorExact(current: LabelSelector)
    ensures SafeToSkip(current)
            <==> forall labels :: Selects(Some(Reread(current)), labels) ==> Selects(Some(current), labels)
  {
    if SafeToSkip(current) {
      forall labels | Selects(Some(Reread(current)), labels) ensures Selects(Some(current), labels) {
        if !Selects(Some(current), labels) {
          var previous, seen := UnnoticedPrevious(current, labels);
          assert false;
        }
      }
    } else {
      var previous, labels :|
        !SelectorChanged(Some(current), Some(previous)) && Selects(Some(previous), labels)
            && !Selects(Some(current), labels);
      PreviousKeepsReread(current, previous, labels);
    }
  }

  predicate InvalidLabel(s: LabelSelector) {
    exists k :: k in s.matchLabels && s.matchLabels[k] != "" && !(ValidKey(k) && ValidValue(s.matchLabels[k]))
  }

  /** For a selector of labels only: exactly when it has no empty label value, or a label so invalid that no
      previous selector could have had it. */
  lemma UnchangedLabelsExact(current: LabelSelector)
    requires current.matchExpressions == []
    ensures SafeToSkip(current) <==> NoEmptyValue(current.matchLabels) || InvalidLabel(current)
  {
    UnchangedSelectorExact(current);
    var left := Reread(current);
    assert left.matchExpressions == [];
    if !InvalidLabel(current) {
      assert Parseable(left);
      assert Selects(Some(left), left.matchLabels);
      if NoEmptyValue(current.matchLabels) {
        assert left.matchLabels == current.matchLabels;
        assert left == current;
      } else {
        var k :| k in current.matchLabels && current.matchLabels[k] == "";
        assert k !in left.matchLabels;
        assert !Selects(Some(current), left.matchLabels);
      }
    } else {
      var k :| k in current.matchLabels && current.matchLabels[k] != ""
          && !(ValidKey(k) && ValidValue(current.matchLabels[k]));
      assert k in left.matchLabels;
    }
  }

  lemma SpacedTexts()
    ensures var two, one := Requirement("k", OP_IN, ["a", "b"]), Requirement("k", OP_IN, ["a b"]);
            ExpressionKey(two) == ExpressionKey(one) && ValidRequirement(two) && !ValidRequirement(one)
  {
    var two, one := Requirement("k", OP_IN, ["a", "b"]), Requirement("k", OP_IN, ["a b"]);
    assert Join(["b"]) == "b" && two.values[1..] == ["b"];
    assert Join(two.values) == "a" + " " + "b";
    assert Join(one.values) == "a b";
    assert ' ' in one.values[0] && one.values[0] in one.values;
  }

  /** An edit into error can go unnoticed: joining two values into one with a space leaves the text as it
      was, and the selector then selects nothing. */
  lemma SpacedValueGoesUnnoticed(labels: map<string, string>)
    requires "k" in labels && labels["k"] == "a"
    ensures var previous := Some(LabelSelector(map[], [Requirement("k", OP_IN, ["a", "b"])]));
            var current := Some(LabelSelector(map[], [Requirement("k", OP_IN, ["a b"])]));
            !SelectorChanged(current, previous) && Selects(previous, labels) && !Selects(current, labels)
  {
    SpacedTexts();
    var one := Requirement("k", OP_IN, ["a b"]);
    assert one in [one];
  }

  /** A selector never counts as changed against itself. */
  lemma SelectorUnchangedAgainstItself(s: Option<LabelSelector>)
    ensures !SelectorChanged(s, s)
  {
  }
}
