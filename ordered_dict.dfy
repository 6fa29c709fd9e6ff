/**
  A Python `dict` with string keys: key/value entries kept in first-insertion
  order. Assigning an existing key replaces its value in place; a new key goes
  last. The tools depend on this order (`', '.join(defines.keys())`, and which
  entry `update` applies last).
 */
module OrderedDict {

  type Dict<V> = seq<(string, V)>

  /** `list(d.keys())` */
  function Keys<V>(d: Dict<V>): (ks: seq<string>)
    ensures |ks| == |d| && forall i :: 0 <= i < |d| ==> ks[i] == d[i].0
  {
    if d == [] then [] else [d[0].0] + Keys(d[1..])
  }

  /** `list(d.values())` */
  function Values<V>(d: Dict<V>): (vs: seq<V>)
    ensures |vs| == |d| && forall i :: 0 <= i < |d| ==> vs[i] == d[i].1
  {
    if d == [] then [] else [d[0].1] + Values(d[1..])
  }

  predicate DistinctKeys<V>(d: Dict<V>) {
    forall i, j :: 0 <= i < j < |d| ==> d[i].0 != d[j].0
  }

  /** The mapping the dict represents. */
  function ToMap<V>(d: Dict<V>): map<string, V>
  {
    if d == [] then map[] else ToMap(d[1..])[d[0].0 := d[0].1]
  }

  /** A key is in the dict exactly when it is one of its keys. */
  lemma {:induction false} ToMapKeys<V>(d: Dict<V>, k: string)
    ensures k in ToMap(d) <==> k in Keys(d)
    decreases |d|
  {
    if d != [] {
      ToMapKeys(d[1..], k);
    }
  }

  /** In a dict with distinct keys, the entry at index `i` is what the key maps to. */
  lemma {:induction false} ToMapAt<V>(d: Dict<V>, i: nat)
    requires DistinctKeys(d) && i < |d|
    ensures d[i].0 in ToMap(d) && ToMap(d)[d[i].0] == d[i].1
    decreases |d|
  {
    if i > 0 {
      ToMapAt(d[1..], i - 1);
    }
  }

  /** `d[k] = v` */
  function Put<V>(d: Dict<V>, k: string, v: V): (r: Dict<V>)
    ensures ToMap(r) == ToMap(d)[k := v]
    decreases |d|
  {
    if d == [] then [(k, v)]
    else if d[0].0 == k then
      assert ([(k, v)] + d[1..])[1..] == d[1..];
      [(k, v)] + d[1..]
    else
      var t := Put(d[1..], k, v);
      assert ([d[0]] + t)[1..] == t;
      [d[0]] + t
  }

  /** An existing key keeps its place; a new key is appended. */
  lemma {:induction false} PutKeys<V>(d: Dict<V>, k: string, v: V)
    ensures k in Keys(d) ==> Keys(Put(d, k, v)) == Keys(d)
    ensures k !in Keys(d) ==> Keys(Put(d, k, v)) == Keys(d) + [k]
    decreases |d|
  {
    if d != [] && d[0].0 != k {
      PutKeys(d[1..], k, v);
      assert k in Keys(d) <==> k in Keys(d[1..]);
      assert Put(d, k, v)[1..] == Put(d[1..], k, v);
    } else if d != [] {
      assert Put(d, k, v)[1..] == d[1..];
    }
  }

  /** Keys stay distinct under assignment. */
  lemma PutDistinct<V>(d: Dict<V>, k: string, v: V)
    ensures DistinctKeys(d) ==> DistinctKeys(Put(d, k, v))
  {
    var r := Put(d, k, v);
    PutKeys(d, k, v);
    if DistinctKeys(d) {
      forall i, j | 0 <= i < j < |r| ensures r[i].0 != r[j].0 {
        assert Keys(r)[i] == r[i].0 && Keys(r)[j] == r[j].0;
        if j < |d| {
          assert Keys(d)[i] == d[i].0 && Keys(d)[j] == d[j].0;
        } else {
          assert Keys(d)[i] == d[i].0;
        }
      }
    }
  }

  /** What a sequence of assignments leaves behind: the last value for each key. */
  function Assignments<V>(es: seq<(string, V)>): map<string, V>
  {
    if es == [] then map[] else Assignments(es[..|es| - 1])[es[|es| - 1].0 := es[|es| - 1].1]
  }

  /** Assigning `es` one after another: a loop of `d[k] = v`, and `d.update(es)`. */
  function PutAll<V>(d: Dict<V>, es: seq<(string, V)>): (r: Dict<V>)
    ensures DistinctKeys(d) ==> DistinctKeys(r)
  {
    if es == [] then d
    else
      var p := PutAll(d, es[..|es| - 1]);
      PutDistinct(p, es[|es| - 1].0, es[|es| - 1].1);
      Put(p, es[|es| - 1].0, es[|es| - 1].1)
  }

  /** One more assignment of the loop. */
  lemma PutAllSnoc<V>(d: Dict<V>, es: seq<(string, V)>, i: nat)
    requires i < |es|
    ensures PutAll(d, es[..i + 1]) == Put(PutAll(d, es[..i]), es[i].0, es[i].1)
  {
    assert es[..i + 1][..i] == es[..i];
  }

  /** `d.update(es)` as the loop of `d[k] = v` it performs. */
  method Update<V>(d: Dict<V>, es: seq<(string, V)>) returns (r: Dict<V>)
    ensures r == PutAll(d, es)
  {
    r := d;
    for j := 0 to |es|
      invariant r == PutAll(d, es[..j])
    {
      PutAllSnoc(d, es, j);
      r := Put(r, es[j].0, es[j].1);
    }
    assert es[..|es|] == es;
  }

  /** `d.update(es)`: the keys of `es` take their last value in `es`, the rest keep theirs. */
  lemma {:induction false} PutAllMap<V>(d: Dict<V>, es: seq<(string, V)>)
    ensures ToMap(PutAll(d, es)) == ToMap(d) + Assignments(es)
    decreases |es|
  {
    if es != [] {
      var p := es[..|es| - 1];
      PutAllMap(d, p);
      UnionUpdate(ToMap(d), Assignments(p), es[|es| - 1].0, es[|es| - 1].1);
    }
  }

  /** Updating a union updates its right-hand side. */
  lemma UnionUpdate<V>(a: map<string, V>, b: map<string, V>, k: string, v: V)
    ensures (a + b)[k := v] == a + b[k := v]
  {
  }

  /** The value a key ends with is the one of its last assignment. */
  lemma {:induction false} AssignmentsLastWins<V>(es: seq<(string, V)>, i: nat)
    requires i < |es|
    requires forall j :: i < j < |es| ==> es[j].0 != es[i].0
    ensures es[i].0 in Assignments(es) && Assignments(es)[es[i].0] == es[i].1
    decreases |es|
  {
    if i < |es| - 1 {
      AssignmentsLastWins(es[..|es| - 1], i);
    }
  }

  /** Exactly the keys some assignment mentions are assigned. */
  lemma {:induction false} AssignmentsKeys<V>(es: seq<(string, V)>, k: string)
    ensures k in Assignments(es) <==> exists i :: 0 <= i < |es| && es[i].0 == k
    decreases |es|
  {
    if es != [] {
      var p := es[..|es| - 1];
      AssignmentsKeys(p, k);
      if exists i :: 0 <= i < |p| && p[i].0 == k {
        var i :| 0 <= i < |p| && p[i].0 == k;
        assert es[i].0 == k;
      }
    }
  }

  /** The value a key ends with comes from one of its assignments. */
  lemma {:induction false} AssignmentsFrom<V>(es: seq<(string, V)>, k: string)
    requires k in Assignments(es)
    ensures exists i :: 0 <= i < |es| && es[i].0 == k && es[i].1 == Assignments(es)[k]
    decreases |es|
  {
    var p := es[..|es| - 1];
    if es[|es| - 1].0 != k {
      AssignmentsFrom(p, k);
      var i :| 0 <= i < |p| && p[i].0 == k && p[i].1 == Assignments(p)[k];
      assert es[i] == p[i];
    }
  }

  /** Each entry after an assignment is the assigned one or an entry from before. */
  lemma {:induction false} PutEntry<V>(d: Dict<V>, k: string, v: V, i: nat)
    requires i < |Put(d, k, v)|
    ensures Put(d, k, v)[i] == (k, v) || Put(d, k, v)[i] in d
    decreases |d|
  {
    if d != [] && d[0].0 != k && i > 0 {
      PutEntry(d[1..], k, v, i - 1);
      assert Put(d, k, v)[i] == Put(d[1..], k, v)[i - 1];
    }
  }
}
