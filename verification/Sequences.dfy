/** Facts about sequences, sets and strings that several proofs need. */
module Sequences {

  ghost predicate Distinct<T(!new)>(s: seq<T>) {
    forall i, j :: 0 <= i < j < |s| ==> s[i] != s[j]
  }

  /** `names` lists every element of `keys` once, in any order. */
  ghost predicate Listing<T(!new)>(names: seq<T>, keys: set<T>) {
    Distinct(names) && forall n :: n in names <==> n in keys
  }

  lemma {:induction false} ListingOf<T(!new)>(keys: set<T>) returns (names: seq<T>)
    ensures Listing(names, keys)
  {
    names := [];
    if keys != {} {
      var k :| k in keys;
      var rest := ListingOf(keys - {k});
      names := rest + [k];
    }
  }

  function Elements<T(==)>(s: seq<T>): set<T> {
    set x | x in s
  }

  // ---------- filtering ----------

  /** The elements that pass, in their order. */
  function Filter<T>(s: seq<T>, keep: T -> bool): seq<T> {
    if s == [] then []
    else
      var rest := Filter(s[..|s| - 1], keep);
      if keep(s[|s| - 1]) then rest + [s[|s| - 1]] else rest
  }

  /** Filtering keeps exactly the elements that pass; equal length means that nothing was dropped. */
  lemma {:induction false} FilterMembers<T>(s: seq<T>, keep: T -> bool)
    ensures forall x :: x in Filter(s, keep) <==> x in s && keep(x)
    ensures |Filter(s, keep)| <= |s| && (|Filter(s, keep)| == |s| ==> Filter(s, keep) == s)
  {
    if s != [] {
      FilterMembers(s[..|s| - 1], keep);
      assert s == s[..|s| - 1] + [s[|s| - 1]];
    }
  }

  /** Filtering works piece by piece, so what stays keeps its order. */
  lemma {:induction false} FilterConcat<T>(a: seq<T>, b: seq<T>, keep: T -> bool)
    ensures Filter(a + b, keep) == Filter(a, keep) + Filter(b, keep)
  {
    if b == [] {
      assert a + b == a;
    } else {
      var init, last := b[..|b| - 1], b[|b| - 1];
      assert (a + b)[..|a + b| - 1] == a + init && (a + b)[|a + b| - 1] == last;
      FilterConcat(a, init, keep);
    }
  }

  lemma {:induction false} FilterNothing<T>(s: seq<T>, keep: T -> bool)
    requires forall x :: x in s ==> keep(x)
    ensures Filter(s, keep) == s
  {
    if s != [] {
      assert s == s[..|s| - 1] + [s[|s| - 1]];
      FilterNothing(s[..|s| - 1], keep);
    }
  }

  /** What the filtering loops do in one turn. */
  lemma FilterNext<T>(s: seq<T>, i: nat, keep: T -> bool)
    requires i < |s|
    ensures Filter(s[..i + 1], keep) == Filter(s[..i], keep) + if keep(s[i]) then [s[i]] else []
  {
    assert s[..i + 1][..i] == s[..i];
  }

  // ---------- sizes and strings ----------

  lemma {:induction false} CardinalityOfElements<T(!new)>(s: seq<T>)
    ensures |set x | x in s| <= |s|
    ensures Distinct(s) <==> |set x | x in s| == |s|
  {
    if s != [] {
      var init, last := s[..|s| - 1], s[|s| - 1];
      CardinalityOfElements(init);
      assert s == init + [last];
      assert (set x | x in s) == (set x | x in init) + {last};
      if last in init {
        var i :| 0 <= i < |init| && init[i] == last;
        assert s[i] == s[|s| - 1];
      } else {
        assert Distinct(init) ==> Distinct(s);
        assert Distinct(s) ==> Distinct(init);
      }
    }
  }

  lemma {:induction false} DistinctMultiset<T(!new)>(s: seq<T>)
    requires Distinct(s)
    ensures multiset(s) == multiset(set x | x in s)
  {
    if s != [] {
      var init, last := s[..|s| - 1], s[|s| - 1];
      DistinctMultiset(init);
      assert s == init + [last];
      assert (set x | x in s) == (set x | x in init) + {last};
    }
  }

  /** A finite set of strings never holds every string. */
  lemma {:induction false} FreshString(used: set<string>) returns (s: string)
    ensures s !in used && s != "" && forall c :: c in s ==> c == 'x'
  {
    var bound := LongerThanAll(used);
    s := seq(bound + 1, i => 'x');
  }

  lemma {:induction false} FreshStrings(used: set<string>, n: nat) returns (fresh_: set<string>)
    ensures |fresh_| == n && fresh_ !! used && forall s :: s in fresh_ ==> s != "" && forall c :: c in s ==> c == 'x'
  {
    fresh_ := {};
    if n > 0 {
      var rest := FreshStrings(used, n - 1);
      var s := FreshString(used + rest);
      fresh_ := rest + {s};
    }
  }

  lemma {:induction false} LongerThanAll(used: set<string>) returns (bound: nat)
    ensures forall s :: s in used ==> |s| <= bound
  {
    bound := 0;
    var rest := used;
    while rest != {}
      invariant rest <= used
      invariant forall s :: s in used - rest ==> |s| <= bound
      decreases rest
    {
      var s :| s in rest;
      rest := rest - {s};
      if |s| > bound {
        bound := |s|;
      }
    }
  }

  /** Where the character first occurs, or the length of the string. */
  function FirstIndex(c: char, s: string): (i: nat)
    ensures i <= |s|
  {
    if s == "" || s[0] == c then 0 else 1 + FirstIndex(c, s[1..])
  }

  lemma {:induction false} FirstIndexOf(c: char, a: string, b: string)
    requires c !in a
    ensures FirstIndex(c, a) == |a| && FirstIndex(c, a + [c] + b) == |a|
  {
    if a != "" {
      assert (a + [c] + b)[1..] == a[1..] + [c] + b;
      FirstIndexOf(c, a[1..], b);
    }
  }

  /** Where it last occurs, or the length of the string. */
  function LastIndex(c: char, s: string): (i: nat)
    ensures i <= |s|
  {
    if s == "" then 0
    else if s[|s| - 1] == c then |s| - 1
    else
      var i := LastIndex(c, s[..|s| - 1]);
      if i == |s| - 1 then |s| else i
  }

  lemma {:induction false} LastIndexOf(c: char, a: string, b: string)
    requires c !in b
    ensures LastIndex(c, a + [c] + b) == |a|
  {
    var s := a + [c] + b;
    if b != "" {
      assert s[..|s| - 1] == a + [c] + b[..|b| - 1];
      LastIndexOf(c, a, b[..|b| - 1]);
    }
  }

  function RowOf<A(==), B(==)>(a: A, bs: set<B>): set<(A, B)> {
    set b | b in bs :: (a, b)
  }

  function ColumnOf<A(==), B(==)>(rows: set<A>, b: B): set<(A, B)> {
    set a | a in rows :: (a, b)
  }

  lemma {:induction false} RowSize<A, B>(a: A, bs: set<B>)
    ensures |RowOf(a, bs)| == |bs|
  {
    if bs != {} {
      var b :| b in bs;
      RowSize(a, bs - {b});
      assert RowOf(a, bs) == RowOf(a, bs - {b}) + {(a, b)};
    }
  }

  lemma {:induction false} ColumnSize<A, B>(rows: set<A>, b: B)
    ensures |ColumnOf(rows, b)| == |rows|
  {
    if rows != {} {
      var a :| a in rows;
      ColumnSize(rows - {a}, b);
      assert ColumnOf(rows, b) == ColumnOf(rows - {a}, b) + {(a, b)};
    }
  }

  lemma SubsetCardinality<T>(a: set<T>, b: set<T>)
    requires a <= b
    ensures |b - a| == |b| - |a|
  {
  }

  lemma SubsetSameSize<T>(a: set<T>, b: set<T>)
    requires a <= b && |a| >= |b|
    ensures a == b
  {
    SubsetCardinality(a, b);
    assert b - a == {};
  }
}
