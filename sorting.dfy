/**
  Python's `sorted` on strings: code-point lexicographic order, `sorted(set)`
  (ascending, no duplicates) and `sorted(list)` (ascending, a permutation).
 */
module Sorting {

  /** `a <= b` for Python strings. */
  predicate LessEq(a: string, b: string)
    decreases |a|
  {
    a == [] || (b != [] && (a[0] < b[0] || (a[0] == b[0] && LessEq(a[1..], b[1..]))))
  }

  predicate Less(a: string, b: string) {
    LessEq(a, b) && a != b
  }

  lemma {:induction false} LessEqAntisymmetric(a: string, b: string)
    requires LessEq(a, b) && LessEq(b, a)
    ensures a == b
    decreases |a|
  {
    if a != [] {
      LessEqAntisymmetric(a[1..], b[1..]);
      assert a == [a[0]] + a[1..] && b == [b[0]] + b[1..];
    }
  }

  lemma {:induction false} LessEqTransitive(a: string, b: string, c: string)
    requires LessEq(a, b) && LessEq(b, c)
    ensures LessEq(a, c)
    decreases |a|
  {
    if a != [] && b != [] && c != [] && a[0] == b[0] && b[0] == c[0] {
      LessEqTransitive(a[1..], b[1..], c[1..]);
    }
  }

  lemma {:induction false} LessEqTotal(a: string, b: string)
    ensures LessEq(a, b) || LessEq(b, a)
    decreases |a|
  {
    if a != [] && b != [] && a[0] == b[0] {
      LessEqTotal(a[1..], b[1..]);
    }
  }

  predicate IsLeast(m: string, s: set<string>) {
    m in s && forall y :: y in s ==> LessEq(m, y)
  }

  lemma {:induction false} LeastExists(s: set<string>)
    requires s != {}
    ensures exists m :: IsLeast(m, s)
    decreases |s|
  {
    var x :| x in s;
    if s - {x} == {} {
      assert s == {x};
      assert LessEq(x, x) by { LessEqTotal(x, x); }
      assert IsLeast(x, s);
    } else {
      LeastExists(s - {x});
      var m :| IsLeast(m, s - {x});
      LessEqTotal(m, x);
      if LessEq(m, x) {
        assert IsLeast(m, s);
      } else {
        forall y | y in s ensures LessEq(x, y) {
          if y == x { LessEqTotal(x, x); } else { LessEqTransitive(x, m, y); }
        }
        assert IsLeast(x, s);
      }
    }
  }

  lemma LeastUnique(s: set<string>)
    ensures forall m, m' :: IsLeast(m, s) && IsLeast(m', s) ==> m == m'
  {
    forall m, m' | IsLeast(m, s) && IsLeast(m', s) ensures m == m' {
      LessEqAntisymmetric(m, m');
    }
  }

  /** The smallest element of a non-empty set. */
  function Least(s: set<string>): (m: string)
    requires s != {}
    ensures IsLeast(m, s)
  {
    LeastExists(s);
    LeastUnique(s);
    var m :| IsLeast(m, s); m
  }

  predicate StrictlySorted(r: seq<string>) {
    forall i, j :: 0 <= i < j < |r| ==> Less(r[i], r[j])
  }

  /** `sorted(s)` for a set: ascending, each element exactly once. */
  function SortedList(s: set<string>): (r: seq<string>)
    ensures StrictlySorted(r)
    ensures |r| == |s|
    ensures forall x :: x in r <==> x in s
    decreases |s|
  {
    if s == {} then []
    else
      var m := Least(s);
      var rest := SortedList(s - {m});
      assert forall j :: 0 <= j < |rest| ==> Less(m, rest[j]) by {
        forall j | 0 <= j < |rest| ensures Less(m, rest[j]) {
          assert rest[j] in rest;
          assert rest[j] in s - {m};
        }
      }
      [m] + rest
  }

  predicate Sorted(r: seq<string>) {
    forall i, j :: 0 <= i < j < |r| ==> LessEq(r[i], r[j])
  }

  function Insert(x: string, r: seq<string>): (t: seq<string>)
    requires Sorted(r)
    ensures Sorted(t)
    ensures multiset(t) == multiset(r) + multiset{x}
    decreases |r|
  {
    if r == [] then [x]
    else if LessEq(x, r[0]) then
      assert forall j :: 0 <= j < |r| ==> LessEq(x, r[j]) by {
        forall j | 0 < j < |r| ensures LessEq(x, r[j]) { LessEqTransitive(x, r[0], r[j]); }
      }
      [x] + r
    else
      LessEqTotal(x, r[0]);
      var t := Insert(x, r[1..]);
      assert r == [r[0]] + r[1..];
      HeadBelow(r, x, t);
      [r[0]] + t
  }

  /** The head of a sorted list is below every element of its tail and below
      any `x` it does not exceed, so below any rearrangement of them. */
  lemma HeadBelow(r: seq<string>, x: string, t: seq<string>)
    requires Sorted(r) && r != [] && LessEq(r[0], x)
    requires multiset(t) == multiset(r[1..]) + multiset{x}
    ensures forall j :: 0 <= j < |t| ==> LessEq(r[0], t[j])
  {
    forall j | 0 <= j < |t| ensures LessEq(r[0], t[j]) {
      assert t[j] in multiset(t);
      assert t[j] in multiset(r[1..]) || t[j] == x;
      if t[j] != x {
        var k :| 0 <= k < |r[1..]| && r[1..][k] == t[j];
        assert r[k + 1] == t[j];
      }
    }
  }

  /** `sorted(xs)` for a list: ascending and a permutation of `xs`. */
  function SortSeq(xs: seq<string>): (r: seq<string>)
    ensures Sorted(r)
    ensures multiset(r) == multiset(xs)
  {
    if xs == [] then []
    else
      assert xs == xs[..|xs| - 1] + [xs[|xs| - 1]];
      Insert(xs[|xs| - 1], SortSeq(xs[..|xs| - 1]))
  }
}
