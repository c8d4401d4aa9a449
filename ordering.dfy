/** Python's ordering of `str` values (code point by code point, a proper
    prefix first) and the builtin `sorted()` on a list of strings. */
module Ordering {

  /** Python's `a <= b` on strings */
  predicate LessEq(a: string, b: string)
    decreases |a|
  {
    |a| == 0 || (|b| > 0 && (a[0] < b[0] || (a[0] == b[0] && LessEq(a[1..], b[1..]))))
  }

  lemma {:induction false} LessEqReflexive(a: string)
    ensures LessEq(a, a)
    decreases |a|
  {
    if |a| > 0 { LessEqReflexive(a[1..]); }
  }

  lemma {:induction false} LessEqTotal(a: string, b: string)
    ensures LessEq(a, b) || LessEq(b, a)
    decreases |a|
  {
    if |a| > 0 && |b| > 0 && a[0] == b[0] { LessEqTotal(a[1..], b[1..]); }
  }

  lemma {:induction false} LessEqTransitive(a: string, b: string, c: string)
    requires LessEq(a, b) && LessEq(b, c)
    ensures LessEq(a, c)
    decreases |a|
  {
    if |a| > 0 && a[0] == b[0] && b[0] == c[0] { LessEqTransitive(a[1..], b[1..], c[1..]); }
  }

  lemma {:induction false} LessEqAntisymmetric(a: string, b: string)
    requires LessEq(a, b) && LessEq(b, a)
    ensures a == b
    decreases |a|
  {
    if |a| > 0 {
      LessEqAntisymmetric(a[1..], b[1..]);
      assert a == [a[0]] + a[1..] && b == [b[0]] + b[1..];
    }
  }

  /** Ascending order, as `sorted()` leaves a list. */
  predicate Sorted(s: seq<string>) {
    forall i, j :: 0 <= i < j < |s| ==> LessEq(s[i], s[j])
  }

  /** A bound below every element of `a` is below every element of a list
      with the same elements. */
  lemma {:induction false} BelowAll(h: string, a: seq<string>, b: seq<string>)
    requires multiset(a) == multiset(b)
    requires forall j :: 0 <= j < |a| ==> LessEq(h, a[j])
    ensures forall j :: 0 <= j < |b| ==> LessEq(h, b[j])
  {
    forall j | 0 <= j < |b| ensures LessEq(h, b[j]) {
      assert b[j] in multiset(a);
      var i :| 0 <= i < |a| && a[i] == b[j];
    }
  }

  /** An element below every element of an ascending list can head it. */
  lemma {:induction false} ConsSorted(h: string, t: seq<string>)
    requires Sorted(t)
    requires forall j :: 0 <= j < |t| ==> LessEq(h, t[j])
    ensures Sorted([h] + t)
  {
    var r := [h] + t;
    forall i, j | 0 <= i < j < |r| ensures LessEq(r[i], r[j]) {
      assert r[j] == t[j - 1];
      if i > 0 { assert r[i] == t[i - 1]; }
    }
  }

  /** `x` not above the head of an ascending list can go in front of it. */
  lemma {:induction false} InsertFront(x: string, s: seq<string>)
    requires Sorted(s) && s != [] && LessEq(x, s[0])
    ensures Sorted([x] + s)
  {
    forall j | 0 <= j < |s| ensures LessEq(x, s[j]) {
      if j > 0 { LessEqTransitive(x, s[0], s[j]); }
    }
    ConsSorted(x, s);
  }

  /** `x` above the head of an ascending list goes somewhere after it: the
      head followed by `t`, an ascending arrangement of the rest and `x`, is
      ascending and holds the list's elements and `x`. */
  lemma {:induction false} InsertAfter(x: string, s: seq<string>, t: seq<string>)
    requires Sorted(s) && s != [] && !LessEq(x, s[0])
    requires Sorted(t) && multiset(t) == multiset(s[1..]) + multiset{x}
    ensures Sorted([s[0]] + t)
    ensures multiset([s[0]] + t) == multiset(s) + multiset{x}
  {
    var rest := s[1..];
    LessEqTotal(x, s[0]);
    var others := rest + [x];
    forall j | 0 <= j < |others| ensures LessEq(s[0], others[j]) {
      if j < |rest| { assert others[j] == s[j + 1]; }
    }
    BelowAll(s[0], others, t);
    ConsSorted(s[0], t);
    assert s == [s[0]] + rest;
  }

  /** Places `x` in front of the first element it does not exceed. */
  function Insert(x: string, s: seq<string>): (r: seq<string>)
    requires Sorted(s)
    ensures multiset(r) == multiset(s) + multiset{x}
    ensures Sorted(r)
  {
    if s == [] then [x]
    else if LessEq(x, s[0]) then
      InsertFront(x, s);
      [x] + s
    else
      var t := Insert(x, s[1..]);
      InsertAfter(x, s, t);
      [s[0]] + t
  }

  /** Python's `sorted(xs)` on strings: an ascending permutation of `xs`. */
  function Sort(xs: seq<string>): (r: seq<string>)
    ensures multiset(r) == multiset(xs)
    ensures Sorted(r)
  {
    if xs == [] then []
    else
      assert xs == [xs[0]] + xs[1..];
      Insert(xs[0], Sort(xs[1..]))
  }

  /** The head of an ascending list does not exceed any of its elements. */
  lemma {:induction false} HeadIsLeast(a: seq<string>, x: string)
    requires Sorted(a) && x in multiset(a)
    ensures |a| > 0 && LessEq(a[0], x)
  {
    var i :| 0 <= i < |a| && a[i] == x;
    if i == 0 { LessEqReflexive(x); }
  }

  /** The elements after the head are the others. */
  lemma {:induction false} TailMultiset(a: seq<string>)
    requires |a| > 0
    ensures multiset(a[1..]) == multiset(a) - multiset{a[0]}
  {
    assert a == [a[0]] + a[1..];
  }

  lemma {:induction false} SameHeadAndTail(a: seq<string>, b: seq<string>)
    requires |a| > 0 && |b| > 0 && a[0] == b[0] && a[1..] == b[1..]
    ensures a == b
  {
    assert a == [a[0]] + a[1..];
    assert b == [b[0]] + b[1..];
  }

  /** Sorting a list of strings is determined by its contents alone: two
      ascending lists with the same elements are equal, so `Sort` is the only
      possible outcome of `sorted()`. */
  lemma {:induction false} SortedUnique(a: seq<string>, b: seq<string>)
    requires Sorted(a) && Sorted(b) && multiset(a) == multiset(b)
    ensures a == b
    decreases |a|
  {
    if |a| > 0 {
      assert a[0] in multiset(a);
      HeadIsLeast(b, a[0]);
      assert b[0] in multiset(b);
      HeadIsLeast(a, b[0]);
      LessEqAntisymmetric(a[0], b[0]);
      TailMultiset(a);
      TailMultiset(b);
      SortedUnique(a[1..], b[1..]);
      SameHeadAndTail(a, b);
    }
  }
}
