/**
  The regular-expression primitives the tools rely on, written as scanners:
  maximal character runs (what a greedy `\w+`, `\s*` or `[^\s]+` consumes),
  `re.search` (first match) and `re.finditer`/`re.findall` (successive
  non-overlapping matches). Each pattern of the tools supplies a matcher
  `at(p)` that says whether the pattern matches at position `p`, with what
  captured value, and where the match ends.
 */
module Scan {
  import opened Wrappers

  /** End of the maximal run of characters satisfying `p` that starts at `i`. */
  function RunEnd(s: string, i: nat, p: char -> bool): (j: nat)
    requires i <= |s|
    ensures i <= j <= |s|
    ensures j == |s| || !p(s[j])
    decreases |s| - i
  {
    if i < |s| && p(s[i]) then RunEnd(s, i + 1, p) else i
  }

  /** Every character of the run satisfies `p`: the run is maximal and no shorter. */
  lemma {:induction false} RunEndHolds(s: string, i: nat, p: char -> bool)
    requires i <= |s|
    ensures forall k :: i <= k < RunEnd(s, i, p) ==> p(s[k])
    decreases |s| - i
  {
    if i < |s| && p(s[i]) {
      RunEndHolds(s, i + 1, p);
    }
  }

  /** One match: where it starts, what it captured, where it ends. */
  datatype Found<T> = Found(start: nat, value: T, end: nat)

  /** A matcher consumes at least one character and stays inside the text. */
  ghost predicate Progresses<T>(n: nat, from: nat, at: nat -> Option<(T, nat)>) {
    forall p :: from <= p < n && at(p).Some? ==> p < at(p).value.1 <= n
  }

  /** `re.finditer` over a text of length `n`: try each position from `from`;
      after a match, resume at its end. */
  function FindAll<T>(n: nat, from: nat, at: nat -> Option<(T, nat)>): seq<Found<T>>
    requires Progresses(n, from, at)
    decreases n - from
  {
    if from >= n then []
    else match at(from)
      case Some((v, e)) => [Found(from, v, e)] + FindAll(n, e, at)
      case None => FindAll(n, from + 1, at)
  }

  /** Every element of `FindAll` is a match of the pattern at its start, the
      matches come in text order without overlapping, and where the pattern
      matches nowhere there are none. */
  lemma {:induction false} FindAllMatches<T>(n: nat, from: nat, at: nat -> Option<(T, nat)>)
    requires Progresses(n, from, at)
    ensures forall i :: 0 <= i < |FindAll(n, from, at)| ==>
      from <= FindAll(n, from, at)[i].start < FindAll(n, from, at)[i].end <= n &&
      at(FindAll(n, from, at)[i].start) == Some((FindAll(n, from, at)[i].value, FindAll(n, from, at)[i].end))
    ensures forall i, j :: 0 <= i < j < |FindAll(n, from, at)| ==>
      FindAll(n, from, at)[i].end <= FindAll(n, from, at)[j].start
    ensures (forall p :: from <= p < n ==> at(p).None?) ==> FindAll(n, from, at) == []
    decreases n - from
  {
    if from < n {
      match at(from)
      case Some((v, e)) =>
        FindAllMatches(n, e, at);
        var rest := FindAll(n, e, at);
        var r := [Found(from, v, e)] + rest;
        assert forall i :: 1 <= i < |r| ==> r[i] == rest[i - 1];
      case None =>
        FindAllMatches(n, from + 1, at);
    }
  }

  /** `FindAll` skips no match: wherever the pattern matches at or after `from`,
      that position is the start of a returned match or lies inside one. */
  lemma {:induction false} FindAllComplete<T>(n: nat, from: nat, at: nat -> Option<(T, nat)>, p: nat)
    requires Progresses(n, from, at)
    requires from <= p < n && at(p).Some?
    ensures exists i ::
      0 <= i < |FindAll(n, from, at)| && FindAll(n, from, at)[i].start <= p < FindAll(n, from, at)[i].end
    decreases n - from
  {
    var r := FindAll(n, from, at);
    match at(from)
    case Some((v, e)) =>
      assert r[0] == Found(from, v, e);
      if e <= p {
        FindAllComplete(n, e, at, p);
        var rest := FindAll(n, e, at);
        var i :| 0 <= i < |rest| && rest[i].start <= p < rest[i].end;
        assert r[i + 1] == rest[i];
      }
    case None =>
      FindAllComplete(n, from + 1, at, p);
  }

  /** A match that no earlier match reaches over is returned as it stands:
      some element starts at its position with its capture. */
  lemma FindAllStart<T>(n: nat, from: nat, at: nat -> Option<(T, nat)>, p: nat)
    requires Progresses(n, from, at)
    requires from <= p < n && at(p).Some?
    requires forall q :: from <= q < p && at(q).Some? ==> at(q).value.1 <= p
    ensures exists i ::
      0 <= i < |FindAll(n, from, at)| && FindAll(n, from, at)[i].start == p &&
      FindAll(n, from, at)[i].value == at(p).value.0
  {
    FindAllComplete(n, from, at, p);
    FindAllMatches(n, from, at);
    var r := FindAll(n, from, at);
    var i :| 0 <= i < |r| && r[i].start <= p < r[i].end;
    assert at(r[i].start) == Some((r[i].value, r[i].end));
  }

  /** `re.search`: the match at the lowest position at or after `from`. */
  function Search<T>(n: nat, from: nat, at: nat -> Option<(T, nat)>): (r: Option<Found<T>>)
    ensures r.Some? ==> from <= r.value.start < n && at(r.value.start) == Some((r.value.value, r.value.end))
    ensures r.Some? ==> forall p :: from <= p < r.value.start ==> at(p).None?
    ensures r.None? <==> forall p :: from <= p < n ==> at(p).None?
    decreases n - from
  {
    if from >= n then None
    else match at(from)
      case Some((v, e)) => Some(Found(from, v, e))
      case None => Search(n, from + 1, at)
  }

  /** The captured values of a sequence of matches, in order. */
  function Captures<T>(found: seq<Found<T>>): (vs: seq<T>)
    ensures |vs| == |found| && forall i :: 0 <= i < |found| ==> vs[i] == found[i].value
  {
    if found == [] then [] else Captures(found[..|found| - 1]) + [found[|found| - 1].value]
  }
}
