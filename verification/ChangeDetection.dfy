/** The node watch skips an update when conditions, taints and labels all compare equal.
    The comparisons are hand-written; here is what they decide and when skipping is safe. */
module ChangeDetection {
  import opened Model
  import opened Sequences
  import opened Selectors
  import opened Evaluation

  type Pair = (string, string)

  // ---------- comparing two lists through a map of the first ----------

  /** The map that filling in the pairs from left to right leaves: the last pair of a key wins. */
  function LastOf(s: seq<Pair>): map<string, string> {
    if s == [] then map[]
    else LastOf(s[..|s| - 1])[s[|s| - 1].0 := s[|s| - 1].1]
  }

  lemma {:induction false} LastOfEntries(s: seq<Pair>)
    ensures forall k :: k in LastOf(s) ==> (k, LastOf(s)[k]) in s
    ensures forall p :: p in s ==> p.0 in LastOf(s)
  {
    if s != [] {
      LastOfEntries(s[..|s| - 1]);
      assert s == s[..|s| - 1] + [s[|s| - 1]];
    }
  }

  predicate KeyedEqual(a: seq<Pair>, b: seq<Pair>) {
    |a| == |b| && forall p :: p in b ==> p.0 in LastOf(a) && LastOf(a)[p.0] == p.1
  }

  function Keys(s: seq<Pair>): (ks: seq<string>)
    ensures |ks| == |s| && forall i :: 0 <= i < |s| ==> ks[i] == s[i].0
  {
    seq(|s|, i requires 0 <= i < |s| => s[i].0)
  }

  ghost predicate UniqueKeys(s: seq<Pair>) {
    Distinct(Keys(s))
  }

  lemma UniqueKeysSameEntry(s: seq<Pair>, p: Pair, q: Pair)
    requires UniqueKeys(s) && p in s && q in s && p.0 == q.0
    ensures p == q
  {
  }

  /** Pigeonhole: as many pairs, every key of b among the keys of a, and no key twice in b. */
  lemma EqualKeySets(a: seq<Pair>, b: seq<Pair>)
    requires |a| == |b| && UniqueKeys(b)
    requires forall p :: p in b ==> p.0 in Keys(a)
    ensures UniqueKeys(a)
    ensures forall k :: k in Keys(a) <==> k in Keys(b)
  {
    var ka, kb := set k | k in Keys(a), set k | k in Keys(b);
    CardinalityOfElements(Keys(a));
    CardinalityOfElements(Keys(b));
    assert kb <= ka;
    SubsetSameSize(kb, ka);
    assert forall k :: k in Keys(a) <==> k in ka;
  }

  lemma UniqueKeysDistinct(s: seq<Pair>)
    requires UniqueKeys(s)
    ensures Distinct(s)
  {
  }

  /** When no key repeats in b, the comparison says yes exactly to the permutations of b. */
  lemma KeyedEqualIsPermutation(a: seq<Pair>, b: seq<Pair>)
    requires UniqueKeys(b)
    ensures KeyedEqual(a, b) <==> multiset(a) == multiset(b)
    ensures KeyedEqual(a, b) ==> UniqueKeys(a) && forall p :: p in a <==> p in b
  {
    LastOfEntries(a);
    if KeyedEqual(a, b) {
      forall p | p in b ensures p.0 in Keys(a) && p in a {
        assert (p.0, LastOf(a)[p.0]) in a;
        var i :| 0 <= i < |a| && a[i] == p;
        assert Keys(a)[i] == p.0;
      }
      EqualKeySets(a, b);
      forall p | p in a ensures p in b {
        var i :| 0 <= i < |a| && a[i] == p;
        assert Keys(a)[i] in Keys(b);
        var j :| 0 <= j < |b| && Keys(b)[j] == p.0;
        UniqueKeysSameEntry(a, p, b[j]);
      }
      UniqueKeysDistinct(a);
      UniqueKeysDistinct(b);
      DistinctMultiset(a);
      DistinctMultiset(b);
      assert (set p | p in a) == (set p | p in b);
    } else if multiset(a) == multiset(b) {
      SameElements(a, b);
      forall p | p in b ensures p.0 in LastOf(a) && LastOf(a)[p.0] == p.1 {
        assert p in a;
        assert (p.0, LastOf(a)[p.0]) in b;
        UniqueKeysSameEntry(b, p, (p.0, LastOf(a)[p.0]));
      }
    }
  }

  lemma SameElements<T>(a: seq<T>, b: seq<T>)
    requires multiset(a) == multiset(b)
    ensures |a| == |b| && forall x :: x in a <==> x in b
  {
    assert |multiset(a)| == |a| && |multiset(b)| == |b|;
    forall x ensures x in a <==> x in b {
      assert x in a <==> x in multiset(a);
      assert x in b <==> x in multiset(b);
    }
  }

  /** Overwriting one of two entries of the same key with an unused key goes unnoticed. */
  lemma RepeatedKeyMisleads(b: seq<Pair>, i: nat, j: nat, other: Pair)
    requires i < |b| && j < |b| && i != j && b[i].0 == b[j].0
    requires KeyedEqual(b, b) && other.0 !in Keys(b)
    ensures KeyedEqual(b[i := other], b) && multiset(b[i := other]) != multiset(b)
  {
    var a := b[i := other];
    LastOfEntries(b);
    forall p | p in b ensures p.0 != other.0 && p.0 in LastOf(a) && LastOf(a)[p.0] == p.1 {
      var k :| 0 <= k < |b| && b[k] == p;
      assert Keys(b)[k] == p.0;
      assert a[if k == i then j else k].0 == p.0;
      SurvivingEntry(a, b, i, p);
    }
    assert a[i] in a && a[i] !in b;
    if multiset(a) == multiset(b) {
      SameElements(a, b);
      assert false;
    }
  }

  lemma SurvivingEntry(a: seq<Pair>, b: seq<Pair>, i: nat, p: Pair)
    requires i < |b| == |a| && a == b[i := a[i]] && KeyedEqual(b, b)
    requires p in b && p.0 != a[i].0 && exists q :: q in a && q.0 == p.0
    ensures p.0 in LastOf(a) && LastOf(a)[p.0] == p.1
  {
    LastOfEntries(a);
    LastOfEntries(b);
    var q := (p.0, LastOf(a)[p.0]);
    var k :| 0 <= k < |a| && a[k] == q;
    assert b[k] == q;
  }

  /** Uniqueness is exactly what it takes: a list with a repeated key has a list that the comparison
      gets wrong, one way or the other. */
  lemma KeyedEqualExact(b: seq<Pair>)
    ensures (forall a :: KeyedEqual(a, b) <==> multiset(a) == multiset(b)) <==> UniqueKeys(b)
  {
    if UniqueKeys(b) {
      forall a ensures KeyedEqual(a, b) <==> multiset(a) == multiset(b) {
        KeyedEqualIsPermutation(a, b);
      }
    } else if KeyedEqual(b, b) {
      var i, j :| 0 <= i < j < |b| && Keys(b)[i] == Keys(b)[j];
      var unused := FreshString(set k | k in Keys(b));
      RepeatedKeyMisleads(b, i, j, (unused, "x"));
      assert !(KeyedEqual(b[i := (unused, "x")], b) <==> multiset(b[i := (unused, "x")]) == multiset(b));
    }
  }

  // ---------- conditions ----------

  function ConditionPairs(conditions: seq<Condition>): (ps: seq<Pair>)
    ensures |ps| == |conditions|
    ensures forall i :: 0 <= i < |ps| ==> ps[i] == (conditions[i].kind, conditions[i].status)
  {
    seq(|conditions|, i requires 0 <= i < |conditions| => (conditions[i].kind, conditions[i].status))
  }

  method ConditionsEqual(a: seq<Condition>, b: seq<Condition>) returns (equal: bool)
    ensures equal <==> KeyedEqual(ConditionPairs(a), ConditionPairs(b))
  {
    if |a| != |b| {
      return false;
    }
    ghost var pa, pb := ConditionPairs(a), ConditionPairs(b);
    var aMap: map<string, string> := map[];
    for i := 0 to |a|
      invariant aMap == LastOf(pa[..i])
    {
      assert pa[..i + 1][..i] == pa[..i];
      aMap := aMap[a[i].kind := a[i].status];
    }
    assert pa[..|a|] == pa;
    for i := 0 to |b|
      invariant forall j :: 0 <= j < i ==> pb[j].0 in aMap && aMap[pb[j].0] == pb[j].1
    {
      if b[i].kind !in aMap || aMap[b[i].kind] != b[i].status {
        assert pb[i] in pb;
        return false;
      }
    }
    return true;
  }

  // ---------- taints ----------

  function TaintKey(t: Taint): string {
    t.key + t.effect
  }

  function TaintPairs(taints: seq<Taint>): (ps: seq<Pair>)
    ensures |ps| == |taints|
    ensures forall i :: 0 <= i < |ps| ==> ps[i] == (TaintKey(taints[i]), taints[i].value)
  {
    seq(|taints|, i requires 0 <= i < |taints| => (TaintKey(taints[i]), taints[i].value))
  }

  /** The value each key text ends up with, as far as the comparison can see. */
  function ValuesOf(m: map<string, Taint>): map<string, string> {
    map k | k in m :: m[k].value
  }

  method TaintMap(a: seq<Taint>) returns (m: map<string, Taint>)
    ensures ValuesOf(m) == LastOf(TaintPairs(a))
  {
    ghost var pa := TaintPairs(a);
    m := map[];
    for i := 0 to |a|
      invariant ValuesOf(m) == LastOf(pa[..i])
    {
      assert pa[..i + 1][..i] == pa[..i];
      ghost var before := m;
      m := m[TaintKey(a[i]) := a[i]];
      assert ValuesOf(m) == ValuesOf(before)[TaintKey(a[i]) := a[i].value];
    }
    assert pa[..|a|] == pa;
  }

  method TaintsEqual(a: seq<Taint>, b: seq<Taint>) returns (equal: bool)
    ensures equal <==> KeyedEqual(TaintPairs(a), TaintPairs(b))
  {
    if |a| != |b| {
      return false;
    }
    ghost var pb := TaintPairs(b);
    var aMap := TaintMap(a);
    for i := 0 to |b|
      invariant forall j :: 0 <= j < i ==> pb[j].0 in aMap && aMap[pb[j].0].value == pb[j].1
    {
      var key := TaintKey(b[i]);
      if key !in aMap || aMap[key].value != b[i].value {
        assert pb[i] in pb;
        assert key in aMap ==> ValuesOf(aMap)[key] != pb[i].1;
        return false;
      }
    }
    forall p | p in pb ensures p.0 in aMap && ValuesOf(aMap)[p.0] == p.1 {
      var j :| 0 <= j < |pb| && pb[j] == p;
    }
    return true;
  }

  const NO_SCHEDULE := "NoSchedule"
  const PREFER_NO_SCHEDULE := "PreferNoSchedule"
  const NO_EXECUTE := "NoExecute"

  predicate StandardEffect(effect: string) {
    effect == NO_SCHEDULE || effect == PREFER_NO_SCHEDULE || effect == NO_EXECUTE
  }

  /** The one way two different (key, effect) pairs can run together into the same text. */
  predicate PreferCollision(s: Taint, t: Taint) {
    s.effect == PREFER_NO_SCHEDULE && t.effect == NO_SCHEDULE && t.key == s.key + "Prefer"
  }

  lemma TaintKeyCollisions(s: Taint, t: Taint)
    requires StandardEffect(s.effect) && StandardEffect(t.effect)
    ensures TaintKey(s) == TaintKey(t)
            <==> (s.key == t.key && s.effect == t.effect) || PreferCollision(s, t) || PreferCollision(t, s)
  {
    if TaintKey(s) == TaintKey(t) {
      KeyTextDecides(s, t);
    }
    if PreferCollision(s, t) {
      PreferText(s.key);
    }
    if PreferCollision(t, s) {
      PreferText(t.key);
    }
  }

  lemma PreferText(key: string)
    ensures key + PREFER_NO_SCHEDULE == (key + "Prefer") + NO_SCHEDULE
  {
  }

  lemma SameSuffix(x: string, y: string, suffix: string)
    requires x + suffix == y + suffix
    ensures x == y
  {
    var w := x + suffix;
    assert x == w[..|w| - |suffix|] && y == w[..|w| - |suffix|];
  }

  /** The last letter but one tells NoExecute from the other two. */
  lemma TailLetter(t: Taint)
    requires StandardEffect(t.effect)
    ensures |TaintKey(t)| >= 2
    ensures TaintKey(t)[|TaintKey(t)| - 2] == if t.effect == NO_EXECUTE then 't' else 'l'
  {
  }

  lemma KeyTextDecides(s: Taint, t: Taint)
    requires StandardEffect(s.effect) && StandardEffect(t.effect) && TaintKey(s) == TaintKey(t)
    ensures (s.key == t.key && s.effect == t.effect) || PreferCollision(s, t) || PreferCollision(t, s)
  {
    TailLetter(s);
    TailLetter(t);
    if s.effect == t.effect {
      SameSuffix(s.key, t.key, s.effect);
    } else if s.effect == PREFER_NO_SCHEDULE {
      PreferText(s.key);
      SameSuffix(s.key + "Prefer", t.key, NO_SCHEDULE);
    } else {
      PreferText(t.key);
      SameSuffix(t.key + "Prefer", s.key, NO_SCHEDULE);
    }
  }

  // ---------- the update filter ----------

  ghost predicate UniqueConditions(conditions: seq<Condition>) {
    UniqueKeys(ConditionPairs(conditions))
  }

  predicate StandardEffects(taints: seq<Taint>) {
    forall t :: t in taints ==> StandardEffect(t.effect)
  }

  /** No taint of one list runs together with one of the other. */
  predicate NoCollision(a: seq<Taint>, b: seq<Taint>) {
    forall s, t :: s in a && t in b ==> !PreferCollision(s, t) && !PreferCollision(t, s)
  }

  predicate EndsInPrefer(key: string) {
    |key| >= 6 && key[|key| - 6..] == "Prefer"
  }

  predicate Skips(old_: Node, new_: Node) {
    && KeyedEqual(ConditionPairs(old_.conditions), ConditionPairs(new_.conditions))
    && KeyedEqual(TaintPairs(old_.taints), TaintPairs(new_.taints))
    && ZeroValueEqual(old_.labels, new_.labels)
  }

  method ShouldReconcile(oldNode: Node, newNode: Node) returns (reconcile: bool)
    ensures reconcile <==> !Skips(oldNode, newNode)
  {
    var conditionsSame := ConditionsEqual(oldNode.conditions, newNode.conditions);
    var taintsSame := TaintsEqual(oldNode.taints, newNode.taints);
    var labelsSame := StringMapEqual(oldNode.labels, newNode.labels);
    return !conditionsSame || !taintsSame || !labelsSame;
  }

  /** An update that leaves conditions, taints and labels as they were is skipped whatever else it changes, unless
      one of the lists contradicts itself. */
  lemma {:induction false} OtherChangesAreSkipped(old_: Node, new_: Node)
    requires new_.conditions == old_.conditions && new_.taints == old_.taints && new_.labels == old_.labels
    ensures Skips(old_, new_)
            <==> !Contradictory(ConditionPairs(old_.conditions)) && !Contradictory(TaintPairs(old_.taints))
  {
    ContradictoryExact(ConditionPairs(old_.conditions));
    ContradictoryExact(TaintPairs(old_.taints));
  }

  lemma StatusIsEntry(conditions: seq<Condition>, kind: string)
    ensures (kind, ConditionStatus(conditions, kind)) in ConditionPairs(conditions)
            || (ConditionStatus(conditions, kind) == UNKNOWN && kind !in Keys(ConditionPairs(conditions)))
  {
  }

  lemma SameStatuses(a: seq<Condition>, b: seq<Condition>, kind: string)
    requires UniqueConditions(b) && KeyedEqual(ConditionPairs(a), ConditionPairs(b))
    ensures ConditionStatus(a, kind) == ConditionStatus(b, kind)
  {
    var pa, pb := ConditionPairs(a), ConditionPairs(b);
    KeyedEqualIsPermutation(pa, pb);
    StatusIsEntry(a, kind);
    StatusIsEntry(b, kind);
    var ea, eb := (kind, ConditionStatus(a, kind)), (kind, ConditionStatus(b, kind));
    if ea in pa && eb in pb {
      UniqueKeysSameEntry(pb, ea, eb);
    } else if ea in pa {
      EntryKey(pb, ea);
    } else if eb in pb {
      EntryKey(pa, eb);
    }
  }

  lemma EntryKey(s: seq<Pair>, p: Pair)
    requires p in s
    ensures p.0 in Keys(s)
  {
  }

  lemma PreferKeyEnds(s: Taint, t: Taint)
    ensures PreferCollision(s, t) ==> EndsInPrefer(t.key)
  {
  }

  /** Different taints of b have different texts, if every text of b is one of a and none run together. */
  lemma UniqueTexts(a: seq<Taint>, b: seq<Taint>)
    requires StandardEffects(a) && StandardEffects(b) && NoCollision(a, b) && UniqueTaints(b)
    requires forall t :: t in b ==> exists s :: s in a && TaintKey(s) == TaintKey(t)
    ensures UniqueKeys(TaintPairs(b))
  {
    forall i, j | 0 <= i < j < |b| ensures TaintKey(b[i]) != TaintKey(b[j]) {
      if TaintKey(b[i]) == TaintKey(b[j]) {
        assert b[i] in b && b[j] in b;
        var s :| s in a && TaintKey(s) == TaintKey(b[i]);
        TaintKeyCollisions(s, b[i]);
        TaintKeyCollisions(s, b[j]);
        assert false;
      }
    }
  }

  lemma ComparedTexts(a: seq<Taint>, b: seq<Taint>)
    requires StandardEffects(a) && StandardEffects(b) && NoCollision(a, b) && UniqueTaints(b)
    requires KeyedEqual(TaintPairs(a), TaintPairs(b))
    ensures UniqueKeys(TaintPairs(a)) && UniqueKeys(TaintPairs(b))
    ensures forall p :: p in TaintPairs(a) <==> p in TaintPairs(b)
  {
    var pa, pb := TaintPairs(a), TaintPairs(b);
    LastOfEntries(pa);
    forall t | t in b ensures exists s :: s in a && TaintKey(s) == TaintKey(t) {
      var j :| 0 <= j < |b| && b[j] == t;
      assert pb[j] in pb && (TaintKey(t), LastOf(pa)[TaintKey(t)]) in pa;
      var i :| 0 <= i < |a| && pa[i] == (TaintKey(t), LastOf(pa)[TaintKey(t)]);
      assert a[i] in a;
    }
    UniqueTexts(a, b);
    KeyedEqualIsPermutation(pa, pb);
  }

  lemma UniqueTaintsDistinct(taints: seq<Taint>)
    requires UniqueTaints(taints)
    ensures Distinct(taints)
  {
  }

  /** When no taint repeats in b and none runs together with one of a, the comparison says yes exactly to
      the permutations of b on key, effect and value. */
  lemma TaintsEqualIsPermutation(a: seq<Taint>, b: seq<Taint>)
    requires StandardEffects(a) && StandardEffects(b) && NoCollision(a, b) && UniqueTaints(b)
    ensures KeyedEqual(TaintPairs(a), TaintPairs(b)) <==> multiset(a) == multiset(b)
  {
    var pa, pb := TaintPairs(a), TaintPairs(b);
    if KeyedEqual(pa, pb) {
      ComparedTexts(a, b);
      SameTaintLists(a, b);
      SameTaintLists(b, a);
      assert forall i, j :: 0 <= i < j < |a| ==> Keys(pa)[i] != Keys(pa)[j];
      assert UniqueTaints(a);
      UniqueTaintsDistinct(a);
      UniqueTaintsDistinct(b);
      DistinctMultiset(a);
      DistinctMultiset(b);
      assert (set t | t in a) == (set t | t in b);
    } else if multiset(a) == multiset(b) {
      PermutationsCompareEqual(a, b);
    }
  }

  lemma PermutationsCompareEqual(a: seq<Taint>, b: seq<Taint>)
    requires StandardEffects(a) && StandardEffects(b) && NoCollision(a, b) && UniqueTaints(b)
    requires multiset(a) == multiset(b)
    ensures KeyedEqual(TaintPairs(a), TaintPairs(b))
  {
    var pa, pb := TaintPairs(a), TaintPairs(b);
    SameElements(a, b);
    UniqueTexts(a, b);
    forall p | p in pb ensures p in pa {
      PairMoves(b, a, p);
    }
    forall p | p in pa ensures p in pb {
      PairMoves(a, b, p);
    }
    LastOfEntries(pa);
    forall p | p in pb ensures p.0 in LastOf(pa) && LastOf(pa)[p.0] == p.1 {
      UniqueKeysSameEntry(pb, p, (p.0, LastOf(pa)[p.0]));
    }
  }

  lemma PairMoves(a: seq<Taint>, b: seq<Taint>, p: Pair)
    requires p in TaintPairs(a) && forall t :: t in a ==> t in b
    ensures p in TaintPairs(b)
  {
    var i :| 0 <= i < |a| && TaintPairs(a)[i] == p;
    assert a[i] in b;
    var j :| 0 <= j < |b| && b[j] == a[i];
    assert TaintPairs(b)[j] == p;
  }

  lemma SameTaintLists(a: seq<Taint>, b: seq<Taint>)
    requires StandardEffects(a) && StandardEffects(b) && NoCollision(a, b)
    requires forall p :: p in TaintPairs(a) ==> p in TaintPairs(b)
    ensures forall t :: t in a ==> t in b
  {
    forall t | t in a ensures t in b {
      var j := Counterpart(a, b, t);
      assert b[j] == t;
    }
  }

  /** A taint of a list whose texts and values all occur in another has a counterpart there. */
  lemma Counterpart(a: seq<Taint>, b: seq<Taint>, t: Taint) returns (j: nat)
    requires StandardEffects(a) && StandardEffects(b) && NoCollision(a, b) && t in a
    requires forall p :: p in TaintPairs(a) ==> p in TaintPairs(b)
    ensures j < |b| && SameTaint(b[j], t) && b[j].value == t.value
  {
    var i :| 0 <= i < |a| && a[i] == t;
    assert TaintPairs(a)[i] in TaintPairs(b);
    j :| 0 <= j < |b| && TaintPairs(b)[j] == TaintPairs(a)[i];
    assert b[j] in b;
    TaintKeyCollisions(b[j], t);
  }

  lemma PresenceCarriesOver(a: seq<Taint>, b: seq<Taint>, spec: Taint)
    requires StandardEffects(a) && StandardEffects(b) && NoCollision(a, b)
    requires (forall p :: p in TaintPairs(a) ==> p in TaintPairs(b)) && HasTaint(a, spec)
    ensures HasTaint(b, spec)
  {
    var t :| t in a && SameTaint(t, spec);
    var j := Counterpart(a, b, t);
    assert b[j] in b;
  }

  lemma SameTaintPresence(a: seq<Taint>, b: seq<Taint>, spec: Taint)
    requires StandardEffects(a) && StandardEffects(b) && NoCollision(a, b)
    requires forall p :: p in TaintPairs(a) <==> p in TaintPairs(b)
    ensures HasTaint(a, spec) <==> HasTaint(b, spec)
  {
    if HasTaint(a, spec) {
      PresenceCarriesOver(a, b, spec);
    }
    if HasTaint(b, spec) {
      PresenceCarriesOver(b, a, spec);
    }
  }

  /** A skipped update would have changed nothing: for every possible rule, the rule applies to both
      versions of the node or to neither, and it decides the same action on both. */
  lemma SkippedUpdateIsHarmless(old_: Node, new_: Node, spec: RuleSpec)
    requires Skips(old_, new_)
    requires UniqueConditions(new_.conditions) && UniqueTaints(new_.taints)
    requires StandardEffects(old_.taints) && StandardEffects(new_.taints)
    requires NoCollision(old_.taints, new_.taints)
    requires NoEmptyValue(old_.labels)
    ensures Selects(spec.selector, old_.labels) <==> Selects(spec.selector, new_.labels)
    ensures Results(spec, old_.conditions) == Results(spec, new_.conditions)
    ensures HasTaint(old_.taints, spec.taint) <==> HasTaint(new_.taints, spec.taint)
    ensures Decide(spec, old_) == Decide(spec, new_)
  {
    ZeroValueEqualIsEquality(old_.labels, new_.labels);
    ComparedTexts(old_.taints, new_.taints);
    SameTaintPresence(old_.taints, new_.taints, spec.taint);
    forall c | c in spec.conditions
      ensures ConditionStatus(old_.conditions, c.kind) == ConditionStatus(new_.conditions, c.kind)
    {
      SameStatuses(old_.conditions, new_.conditions, c.kind);
    }
  }

  // ---------- exactly when each comparison is safe ----------

  /** The list gives one type two different statuses. */
  predicate Contradictory(s: seq<Pair>) {
    exists p, q :: p in s && q in s && p.0 == q.0 && p.1 != q.1
  }

  /** A contradictory list compares equal to nothing, any other list at least to itself. */
  lemma ContradictoryExact(b: seq<Pair>)
    ensures KeyedEqual(b, b) <==> !Contradictory(b)
    ensures Contradictory(b) ==> forall a :: !KeyedEqual(a, b)
  {
    LastOfEntries(b);
    if !KeyedEqual(b, b) {
      var p :| p in b && !(p.0 in LastOf(b) && LastOf(b)[p.0] == p.1);
      assert (p.0, LastOf(b)[p.0]) in b;
    }
  }

  ghost predicate SafeForConditions(b: seq<Condition>) {
    forall a, kind :: KeyedEqual(ConditionPairs(a), ConditionPairs(b)) ==>
        ConditionStatus(a, kind) == ConditionStatus(b, kind)
  }

  /** Overwriting one of two entries of a type by a fresh type goes unnoticed and changes a status. */
  lemma {:induction false} RepeatedTypeMisleads(b: seq<Condition>, i: nat, j: nat)
    requires i < j < |b| && b[i].kind == b[j].kind && !Contradictory(ConditionPairs(b))
    ensures !SafeForConditions(b)
  {
    var pb := ConditionPairs(b);
    ContradictoryExact(pb);
    var unused := FreshString(set k | k in Keys(pb));
    RepeatedKeyMisleads(pb, i, j, (unused, "x"));
    var a := b[i := Condition(unused, "x")];
    assert ConditionPairs(a) == pb[i := (unused, "x")];
    assert forall k :: 0 <= k < |b| ==> b[k].kind == Keys(pb)[k];
    StatusOfOnlyEntry(a, i);
    StatusIsEntry(b, unused);
    if (unused, ConditionStatus(b, unused)) in pb {
      EntryKey(pb, (unused, ConditionStatus(b, unused)));
    }
    assert ConditionStatus(a, unused) != ConditionStatus(b, unused);
  }

  /** Equal conditions mean equal statuses exactly when no type repeats with one status throughout. */
  lemma {:induction false} ConditionsEqualSafeExact(b: seq<Condition>)
    ensures SafeForConditions(b) <==> UniqueConditions(b) || Contradictory(ConditionPairs(b))
  {
    ContradictoryExact(ConditionPairs(b));
    if UniqueConditions(b) {
      forall a, kind | KeyedEqual(ConditionPairs(a), ConditionPairs(b))
        ensures ConditionStatus(a, kind) == ConditionStatus(b, kind)
      {
        SameStatuses(a, b, kind);
      }
    } else if !Contradictory(ConditionPairs(b)) {
      var i, j :| 0 <= i < j < |b| && Keys(ConditionPairs(b))[i] == Keys(ConditionPairs(b))[j];
      RepeatedTypeMisleads(b, i, j);
    }
  }

  lemma {:induction false} StatusOfOnlyEntry(conditions: seq<Condition>, i: nat)
    requires i < |conditions|
    requires forall j :: 0 <= j < |conditions| && j != i ==> conditions[j].kind != conditions[i].kind
    ensures ConditionStatus(conditions, conditions[i].kind) == conditions[i].status
  {
    if i > 0 {
      StatusOfOnlyEntry(conditions[1..], i - 1);
    }
  }

  /** Another key and effect have the same text. */
  predicate Collidable(t: Taint) {
    t.effect == PREFER_NO_SCHEDULE || (t.effect == NO_SCHEDULE && EndsInPrefer(t.key))
  }

  function Twin(t: Taint): Taint
    requires Collidable(t)
  {
    if t.effect == PREFER_NO_SCHEDULE then Taint(t.key + "Prefer", t.value, NO_SCHEDULE)
    else Taint(t.key[..|t.key| - 6], t.value, PREFER_NO_SCHEDULE)
  }

  lemma TwinFacts(t: Taint)
    requires Collidable(t)
    ensures TaintKey(Twin(t)) == TaintKey(t) && Twin(t).value == t.value
    ensures StandardEffect(Twin(t).effect) && !SameTaint(Twin(t), t)
  {
  }

  ghost predicate SafeForTaints(b: seq<Taint>) {
    forall a, spec :: StandardEffects(a) && KeyedEqual(TaintPairs(a), TaintPairs(b)) ==>
        (HasTaint(a, spec) <==> HasTaint(b, spec))
  }

  lemma TwinListMisleads(b: seq<Taint>, i: nat)
    requires StandardEffects(b) && UniqueKeys(TaintPairs(b)) && i < |b| && Collidable(b[i])
    ensures !SafeForTaints(b)
  {
    var a := b[i := Twin(b[i])];
    TwinFacts(b[i]);
    assert TaintPairs(a) == TaintPairs(b);
    KeyedEqualIsPermutation(TaintPairs(a), TaintPairs(b));
    forall t | t in a ensures StandardEffect(t.effect) && !SameTaint(t, b[i]) {
      var k :| 0 <= k < |a| && a[k] == t;
      if k != i {
        assert b[k] in b;
        assert Keys(TaintPairs(b))[k] != Keys(TaintPairs(b))[i];
      }
    }
    assert b[i] in b && HasTaint(b, b[i]) && !HasTaint(a, b[i]);
  }

  predicate NoneCollidable(taints: seq<Taint>) {
    forall t :: t in taints ==> !Collidable(t)
  }

  /** A NoSchedule taint whose text none of these has. */
  lemma FreshTaint(b: seq<Taint>) returns (t: Taint)
    ensures t.effect == NO_SCHEDULE && forall u :: u in b ==> TaintKey(u) != TaintKey(t)
  {
    var stems := set u | u in b && |TaintKey(u)| >= 10 :: TaintKey(u)[..|TaintKey(u)| - 10];
    var key := FreshString(stems);
    t := Taint(key, "x", NO_SCHEDULE);
    assert TaintKey(t)[..|TaintKey(t)| - 10] == key;
  }

  /** Overwriting one of two taints of the same text by a fresh taint goes unnoticed. */
  lemma RepeatedTextMisleads(b: seq<Taint>, i: nat, j: nat)
    requires StandardEffects(b) && i < j < |b| && TaintKey(b[i]) == TaintKey(b[j]) && !Contradictory(TaintPairs(b))
    ensures !SafeForTaints(b)
  {
    var pb := TaintPairs(b);
    var t := FreshTaint(b);
    ContradictoryExact(pb);
    assert forall k :: 0 <= k < |b| ==> Keys(pb)[k] == TaintKey(b[k]) && b[k] in b;
    RepeatedKeyMisleads(pb, i, j, (TaintKey(t), t.value));
    assert TaintPairs(b[i := t]) == pb[i := (TaintKey(t), t.value)];
    FreshTaintTells(b, i, t);
  }

  lemma FreshTaintTells(b: seq<Taint>, i: nat, t: Taint)
    requires StandardEffects(b) && i < |b| && t.effect == NO_SCHEDULE
    requires forall u :: u in b ==> TaintKey(u) != TaintKey(t)
    ensures StandardEffects(b[i := t]) && HasTaint(b[i := t], t) && !HasTaint(b, t)
  {
    assert b[i := t][i] in b[i := t];
    assert forall u :: SameTaint(u, t) ==> TaintKey(u) == TaintKey(t);
    forall u | u in b[i := t] ensures StandardEffect(u.effect) {
      assert u == t || u in b;
    }
  }

  /** For every list with standard effects: equal taints mean equal presence of every taint exactly when the
      new list gives one text two values, or repeats no text and has no taint with a twin, that is an effect
      of PreferNoSchedule or a NoSchedule key ending in "Prefer". */
  lemma TaintsEqualSafeExact(b: seq<Taint>)
    requires StandardEffects(b)
    ensures SafeForTaints(b)
            <==> Contradictory(TaintPairs(b)) || (UniqueKeys(TaintPairs(b)) && NoneCollidable(b))
  {
    var pb := TaintPairs(b);
    ContradictoryExact(pb);
    if !Contradictory(pb) {
      if i, j :| 0 <= i < j < |b| && Keys(pb)[i] == Keys(pb)[j] {
        RepeatedTextMisleads(b, i, j);
      } else if t :| t in b && Collidable(t) {
        var i :| 0 <= i < |b| && b[i] == t;
        TwinListMisleads(b, i);
      } else {
        PlainListIsSafe(b);
      }
    }
  }

  lemma PlainListIsSafe(b: seq<Taint>)
    requires StandardEffects(b) && UniqueKeys(TaintPairs(b)) && NoneCollidable(b)
    ensures SafeForTaints(b)
  {
    forall a, spec | StandardEffects(a) && KeyedEqual(TaintPairs(a), TaintPairs(b))
      ensures HasTaint(a, spec) <==> HasTaint(b, spec)
    {
      KeyedEqualIsPermutation(TaintPairs(a), TaintPairs(b));
      forall s, t | s in a && t in b ensures !PreferCollision(s, t) && !PreferCollision(t, s) {
        PreferKeyEnds(s, t);
        PreferKeyEnds(t, s);
      }
      SameTaintPresence(a, b, spec);
    }
  }

  ghost predicate SafeForLabels(old_: map<string, string>) {
    forall new_, selector :: ZeroValueEqual(old_, new_) ==> (Selects(selector, old_) <==> Selects(selector, new_))
  }

  /** Equal labels mean that the same selectors apply exactly when no label of the old node is empty. */
  lemma LabelsEqualSafeExact(old_: map<string, string>)
    ensures SafeForLabels(old_) <==> NoEmptyValue(old_)
  {
    if NoEmptyValue(old_) {
      forall new_, selector | ZeroValueEqual(old_, new_) ensures Selects(selector, old_) <==> Selects(selector, new_) {
        ZeroValueEqualIsEquality(old_, new_);
      }
    } else {
      var k :| k in old_ && old_[k] == "";
      var new_, unused := Rekeyed(old_, k);
      var selector := Some(LabelSelector(map[unused := "x"], []));
      assert Selects(selector, new_) && !Selects(selector, old_);
    }
  }

  /** Without the label hypothesis it is not: moving an empty-valued role label to another role is
      skipped, although a rule that selects the new role now applies. */
  lemma RelabelledNodeIsSkipped()
    ensures exists old_: Node, new_: Node, spec: RuleSpec :: Skips(old_, new_)
              && !Selects(spec.selector, old_.labels) && Selects(spec.selector, new_.labels)
  {
    var old_ := Node(map["role/a" := ""], [], [], map[], {});
    var new_ := old_.(labels := map["role/b" := ""]);
    var selector := Some(LabelSelector(map["role/b" := ""], []));
    var spec := RuleSpec([], Continuous, Taint("k", "", NO_SCHEDULE), selector, false);
    assert Skips(old_, new_);
    assert !Selects(spec.selector, old_.labels) && Selects(spec.selector, new_.labels);
  }

  /** Nor without the one on taint keys: the watch takes one taint for another. */
  lemma PreferCollisionIsSkipped(key: string)
    ensures var a, b := [Taint(key, "", PREFER_NO_SCHEDULE)], [Taint(key + "Prefer", "", NO_SCHEDULE)];
            KeyedEqual(TaintPairs(a), TaintPairs(b)) && !HasTaint(b, a[0])
  {
    var a, b := [Taint(key, "", PREFER_NO_SCHEDULE)], [Taint(key + "Prefer", "", NO_SCHEDULE)];
    PreferText(key);
    assert TaintPairs(a) == TaintPairs(b);
    LastOfEntries(TaintPairs(a));
  }
}
