/**
  The result side of `tools/test_executor.py`: parsing one gtest run's
  output into counts and failure lines, summing those over all test
  executables, the verdict `print_summary` returns, and the choice and order
  of the executables to run. Running an executable is a parameter `run`
  from path to its (stdout, stderr), `None` when it timed out or failed to
  start; the directory walk is given as its list of (directory, file names).
 */
module TestExecutor {
  import opened Wrappers
  import opened Text
  import opened Scan
  import opened Sorting

  /** What `_parse_gtest_output` reports for one output. */
  datatype GtestResult = GtestResult(total: nat, passed: nat, failed: nat, failures: seq<string>)

  // ---------------------------------------------------------------------------
  // The count patterns. In each, a greedy run is followed by a character the
  // run cannot contain, so backtracking never changes where a match ends.

  predicate IsDash(c: char) { c == '-' }

  /** `\[\s*-+\s*\]` at `p`: where the tag ends. */
  function DashTagAt(s: string, p: nat): (e: Option<nat>)
    ensures e.Some? ==> p < e.value <= |s|
  {
    if p < |s| && s[p] == '[' then
      var q := RunEnd(s, p + 1, IsSpace);
      if q < |s| && s[q] == '-' then
        var t := RunEnd(s, RunEnd(s, q, IsDash), IsSpace);
        if t < |s| && s[t] == ']' then Some(t + 1) else None
      else None
    else None
  }

  /** `\[\s*LABEL\s*\]` at `p`, for a word starting with a non-space
      character: where the tag ends. */
  function LabelTagAt(s: string, p: nat, word: string): (e: Option<nat>)
    ensures e.Some? ==> p < e.value <= |s|
  {
    if p < |s| && s[p] == '[' then
      var q := RunEnd(s, p + 1, IsSpace);
      if q + |word| <= |s| && s[q..q + |word|] == word then
        var t := RunEnd(s, q + |word|, IsSpace);
        if t < |s| && s[t] == ']' then Some(t + 1) else None
      else None
    else None
  }

  lemma DigitRun(s: string, u: nat)
    requires u <= |s|
    ensures forall i :: 0 <= i < |s[u..RunEnd(s, u, IsDigit)]| ==> IsDigit(s[u..RunEnd(s, u, IsDigit)][i])
  {
    RunEndHolds(s, u, IsDigit);
  }

  /** `\s+(\d+)\s+test` from `q`: the number read and where the match ends. */
  function CountAt(s: string, q: nat): (m: Option<(nat, nat)>)
    requires q <= |s|
    ensures m.Some? ==> q < m.value.1 <= |s|
  {
    var u := RunEnd(s, q, IsSpace);
    var v := RunEnd(s, u, IsDigit);
    var w := RunEnd(s, v, IsSpace);
    if u == q || v == u || w == v || !(w + 4 <= |s| && s[w..w + 4] == "test") then None
    else
      DigitRun(s, u);
      Some((DigitsValue(s[u..v]), w + 4))
  }

  /** `\[\s*-+\s*\]\s+(\d+)\s+tests?` at `p`. */
  function TotalAt(s: string, p: nat): Option<(nat, nat)> {
    match DashTagAt(s, p)
    case None => None
    case Some(q) => CountAt(s, q)
  }

  /** `\[\s*LABEL\s*\]\s+(\d+)\s+test` at `p`. */
  function LabelCountAt(s: string, p: nat, word: string): Option<(nat, nat)> {
    match LabelTagAt(s, p, word)
    case None => None
    case Some(q) => CountAt(s, q)
  }

  function TotalMatcher(s: string): nat -> Option<(nat, nat)> {
    p => TotalAt(s, p)
  }

  function LabelMatcher(s: string, word: string): nat -> Option<(nat, nat)> {
    p => LabelCountAt(s, p, word)
  }

  /** `re.search` for a count pattern: the number of the first match, or 0
      when the pattern matches nowhere. */
  function FirstCount(s: string, at: nat -> Option<(nat, nat)>): nat {
    match Search(|s|, 0, at)
    case Some(f) => f.value
    case None => 0
  }

  /** The first match decides the count; no match gives 0. */
  lemma FirstCountOf(s: string, at: nat -> Option<(nat, nat)>, p: nat)
    requires p < |s| && at(p).Some? && forall q :: 0 <= q < p ==> at(q).None?
    ensures FirstCount(s, at) == at(p).value.0
  {
    var r := Search(|s|, 0, at);
    assert r.Some?;
    assert !(r.value.start < p) && !(p < r.value.start);
  }

  /** `\[\s*FAILED\s*\]` at `p`, for `re.findall`. */
  function FailedTagMatcher(s: string): nat -> Option<(nat, nat)> {
    p => match LabelTagAt(s, p, "FAILED") case Some(e) => Some((p, e)) case None => None
  }

  lemma FailedTagsProgress(s: string)
    ensures Progresses(|s|, 0, FailedTagMatcher(s))
  {
  }

  /** `len(re.findall(r'\[\s*FAILED\s*\]', s))` */
  function FailedTagCount(s: string): nat {
    FailedTagsProgress(s);
    |FindAll(|s|, 0, FailedTagMatcher(s))|
  }

  // ---------------------------------------------------------------------------
  // The failure pattern `\[\s*FAILED\s*\].*?:\s*(.+?)(?=\[|$)` with `re.DOTALL`

  /** The first position from `i` on where `(?=\[|$)` holds: before a `[`,
      at the end, or before a newline that ends the text. */
  function LookaheadEnd(s: string, i: nat): (e: nat)
    requires i <= |s|
    ensures i <= e <= |s|
    ensures e == |s| || s[e] == '[' || (e == |s| - 1 && s[e] == '\n')
    ensures forall j :: i <= j < e ==> s[j] != '['
    decreases |s| - i
  {
    if i == |s| || s[i] == '[' || (i == |s| - 1 && s[i] == '\n') then i else LookaheadEnd(s, i + 1)
  }

  /** A failure match at `p`: the FAILED tag, then the rest of the pattern. */
  function FailureAt(s: string, p: nat): (m: Option<(string, nat)>)
    ensures m.Some? ==> p < m.value.1 <= |s|
  {
    match LabelTagAt(s, p, "FAILED")
    case None => None
    case Some(q) => FailureAfterTag(s, q)
  }

  /** The failure pattern after its tag, from `q`: the lazy `.*?` up to the
      first colon, then the rest. */
  function FailureAfterTag(s: string, q: nat): (m: Option<(string, nat)>)
    requires q <= |s|
    ensures m.Some? ==> q < m.value.1 <= |s|
  {
    var k := FindChar(s, ':', q);
    if k == -1 || k + 1 == |s| then None else Some(FailureAfterColon(s, k))
  }

  /** The failure pattern after the colon at `k`: the greedy spaces, then at
      least one character up to the lookahead. When only whitespace follows
      the colon to the end of the text, the greedy spaces give back one
      character for `(.+?)`. */
  function FailureAfterColon(s: string, k: nat): (m: (string, nat))
    requires k + 1 < |s|
    ensures k + 1 < m.1 <= |s|
  {
    var m := RunEnd(s, k + 1, IsSpace);
    if m == |s| then (s[|s| - 1..], |s|)
    else
      var e := LookaheadEnd(s, m + 1);
      (s[m..e], e)
  }

  /** What the failure pattern matches after its tag at `q`. */
  lemma AfterTagText(s: string, q: nat, g: string, e: nat)
    requires q <= |s| && FailureAfterTag(s, q) == Some((g, e))
    ensures var k := FindChar(s, ':', q); 0 <= k < e && Strip(g) == Strip(s[k + 1..e])
    ensures var k := FindChar(s, ':', q); 0 <= k < e && FailureText(g) == FailureText(s[k + 1..e])
    ensures e == |s| || s[e] == '[' || (e == |s| - 1 && s[e] == '\n')
  {
    AfterTagValue(s, q, g, e);
    var k := FindChar(s, ':', q);
    AfterColonText(s, k, g, e);
    SameFailureText(g, s[k + 1..e]);
  }

  /** A match after the tag has a colon after the tag, with text after it. */
  lemma AfterTagValue(s: string, q: nat, g: string, e: nat)
    requires q <= |s| && FailureAfterTag(s, q) == Some((g, e))
    ensures FindChar(s, ':', q) != -1 && FindChar(s, ':', q) + 1 < |s|
    ensures FailureAfterColon(s, FindChar(s, ':', q)) == (g, e)
  {
  }

  /** The capture after the colon at `k` strips to the same text as
      everything from after the colon to the end of the match, and the match
      ends where the lookahead holds. */
  lemma AfterColonText(s: string, k: nat, g: string, e: nat)
    requires k + 1 < |s| && FailureAfterColon(s, k) == (g, e)
    ensures Strip(g) == Strip(s[k + 1..e])
    ensures e == |s| || s[e] == '[' || (e == |s| - 1 && s[e] == '\n')
  {
    AfterColonValue(s, k);
    CaptureStrip(s, k);
  }

  /** The two shapes of the match after the colon: the last character when
      only whitespace follows the colon, otherwise from the end of the
      whitespace up to the lookahead. */
  lemma AfterColonValue(s: string, k: nat)
    requires k + 1 < |s|
    ensures RunEnd(s, k + 1, IsSpace) == |s| ==> FailureAfterColon(s, k) == (s[|s| - 1..], |s|)
    ensures var m := RunEnd(s, k + 1, IsSpace);
      m < |s| ==> FailureAfterColon(s, k) == (s[m..LookaheadEnd(s, m + 1)], LookaheadEnd(s, m + 1))
  {
  }

  /** The spaces the greedy `\s*` takes after the colon, and the one it
      gives back when nothing else follows, are stripped away anyway. */
  lemma CaptureStrip(s: string, k: nat)
    requires k + 1 < |s|
    ensures var m := RunEnd(s, k + 1, IsSpace);
      m == |s| ==> Strip(s[|s| - 1..]) == Strip(s[k + 1..|s|])
    ensures var m := RunEnd(s, k + 1, IsSpace);
      m < |s| ==> Strip(s[m..LookaheadEnd(s, m + 1)]) == Strip(s[k + 1..LookaheadEnd(s, m + 1)])
  {
    var m := RunEnd(s, k + 1, IsSpace);
    if m == |s| {
      TrailingSpaces(s, k + 1);
    } else {
      RunTrimLeft(s, k + 1, LookaheadEnd(s, m + 1), IsSpace);
    }
  }

  /** A whitespace run to the end of the text strips to nothing, and so
      does its last character. */
  lemma TrailingSpaces(s: string, a: nat)
    requires a < |s| && RunEnd(s, a, IsSpace) == |s|
    ensures Strip(s[a..|s|]) == [] && Strip(s[|s| - 1..]) == []
  {
    RunEndHolds(s, a, IsSpace);
    var w := s[a..|s|];
    assert forall i :: 0 <= i < |w| ==> w[i] == s[a + i];
    StripSpaces(w);
    assert s[|s| - 1..] == [w[|w| - 1]];
    StripSpaces(s[|s| - 1..]);
  }

  /** A run of dropped characters in front changes nothing of what
      `TrimLeft` keeps. */
  lemma RunTrimLeft(s: string, a: nat, e: nat, drop: char -> bool)
    requires a <= e <= |s| && RunEnd(s, a, drop) <= e
    ensures TrimLeft(s[RunEnd(s, a, drop)..e], drop) == TrimLeft(s[a..e], drop)
  {
    RunEndHolds(s, a, drop);
    DroppedPrefix(s, a, RunEnd(s, a, drop), e, drop);
  }

  /** Dropped characters in front change nothing of what `TrimLeft` keeps. */
  lemma DroppedPrefix(s: string, a: nat, m: nat, e: nat, drop: char -> bool)
    requires a <= m <= e <= |s|
    requires forall j :: a <= j < m ==> drop(s[j])
    ensures TrimLeft(s[m..e], drop) == TrimLeft(s[a..e], drop)
  {
    var w := s[a..m];
    assert forall i :: 0 <= i < |w| ==> w[i] == s[a + i];
    assert s[a..e] == w + s[m..e];
    TrimLeftPrefix(w, s[m..e], drop);
  }

  function FailureMatcher(s: string): nat -> Option<(string, nat)> {
    p => FailureAt(s, p)
  }

  lemma FailuresProgress(s: string)
    ensures Progresses(|s|, 0, FailureMatcher(s))
  {
  }

  /** `group(1).strip().split('\n')[0]` */
  function FailureText(g: string): string {
    Split(Strip(g), '\n')[0]
  }

  function FailureMatches(s: string): seq<Found<string>> {
    FailuresProgress(s);
    FindAll(|s|, 0, FailureMatcher(s))
  }

  /** The failure line of each match, in order. */
  function Texts(found: seq<Found<string>>): (fs: seq<string>)
    ensures |fs| == |found|
  {
    if found == [] then [] else Texts(found[..|found| - 1]) + [FailureText(found[|found| - 1].value)]
  }

  lemma {:induction false} TextsAt(found: seq<Found<string>>, i: nat)
    requires i < |found|
    ensures Texts(found)[i] == FailureText(found[i].value)
    decreases |found|
  {
    if i < |found| - 1 {
      var init := found[..|found| - 1];
      assert init[i] == found[i];
      TextsAt(init, i);
    }
  }

  function Failures(s: string): seq<string> {
    Texts(FailureMatches(s))
  }

  // ---------------------------------------------------------------------------
  // `_parse_gtest_output`

  /** The counts of the joined output: the first count of each kind,
      recounted from `[ OK ]` and FAILED tags when there is a total but
      neither a passed nor a failed count. */
  function Counts(output: string): GtestResult {
    var total := FirstCount(output, TotalMatcher(output));
    var passed := FirstCount(output, LabelMatcher(output, "PASSED"));
    var failed := FirstCount(output, LabelMatcher(output, "FAILED"));
    if total > 0 && passed == 0 && failed == 0 then
      GtestResult(total, CountOf(output, "[ OK ]"), FailedTagCount(output), [])
    else GtestResult(total, passed, failed, [])
  }

  /** The parse of the joined output: its counts and its failure lines. */
  function Parsed(output: string): GtestResult {
    Counts(output).(failures := Failures(output))
  }

  /** `_parse_gtest_output`: the result record filled in step by step, then
      one failure line appended per failure match. */
  method ParseGtestOutput(stdout: string, stderr: string) returns (result: GtestResult)
    ensures result == Parsed(stdout + stderr)
  {
    var output := stdout + stderr;
    result := CountTests(output);
    var failures := CollectFailures(output);
    result := result.(failures := failures);
  }

  /** The failure half of `_parse_gtest_output`: one line appended per
      failure match, in text order. */
  method CollectFailures(output: string) returns (failures: seq<string>)
    ensures failures == Failures(output)
  {
    failures := [];
    var found := FailureMatches(output);
    for i := 0 to |found|
      invariant failures == Texts(found[..i])
    {
      assert found[..i + 1][..i] == found[..i];
      var failureText := FailureText(found[i].value);
      failures := failures + [failureText];
    }
    assert found[..|found|] == found;
  }

  /** The counting half of `_parse_gtest_output`: three searches, then the
      recount. */
  method CountTests(output: string) returns (result: GtestResult)
    ensures result == Counts(output)
  {
    result := GtestResult(0, 0, 0, []);
    var m := Search(|output|, 0, TotalMatcher(output));
    if m.Some? {
      result := result.(total := m.value.value);
    }
    assert result.total == FirstCount(output, TotalMatcher(output));
    m := Search(|output|, 0, LabelMatcher(output, "PASSED"));
    if m.Some? {
      result := result.(passed := m.value.value);
    }
    assert result.passed == FirstCount(output, LabelMatcher(output, "PASSED"));
    m := Search(|output|, 0, LabelMatcher(output, "FAILED"));
    if m.Some? {
      result := result.(failed := m.value.value);
    }
    assert result.failed == FirstCount(output, LabelMatcher(output, "FAILED"));
    if result.total > 0 && result.passed == 0 && result.failed == 0 {
      var passCount := CountOf(output, "[ OK ]");
      var failCount := FailedTagCount(output);
      result := result.(passed := passCount, failed := failCount);
    }
  }

  /** Output without any `[` holds none of the markers: everything is zero
      and there are no failure lines. */
  lemma NoMarkers(output: string)
    requires '[' !in output
    ensures Parsed(output) == GtestResult(0, 0, 0, [])
  {
    forall p | 0 <= p < |output|
      ensures TotalMatcher(output)(p).None? && FailureMatcher(output)(p).None?
      ensures LabelMatcher(output, "PASSED")(p).None? && LabelMatcher(output, "FAILED")(p).None?
    {
      assert output[p] != '[';
    }
    NoCount(output, TotalMatcher(output));
    NoCount(output, LabelMatcher(output, "PASSED"));
    NoCount(output, LabelMatcher(output, "FAILED"));
    FailuresProgress(output);
    FindAllMatches(|output|, 0, FailureMatcher(output));
    assert Failures(output) == [];
  }

  /** A count pattern that matches nowhere counts 0. */
  lemma NoCount(s: string, at: nat -> Option<(nat, nat)>)
    requires forall p :: 0 <= p < |s| ==> at(p).None?
    ensures FirstCount(s, at) == 0
  {
    assert Search(|s|, 0, at).None?;
  }

  /** The total is the number on the first dashed count line. */
  lemma TotalLine(output: string, p: nat)
    requires p < |output| && TotalAt(output, p).Some?
    requires forall q :: 0 <= q < p ==> TotalAt(output, q).None?
    ensures Parsed(output).total == TotalAt(output, p).value.0
  {
    FirstCountOf(output, TotalMatcher(output), p);
  }

  /** A non-zero number on the first `[ PASSED ]` (or `[ FAILED ]`) count line
      is the passed (or failed) count; no recount replaces it. */
  lemma LabelLine(output: string, word: string, p: nat)
    requires word == "PASSED" || word == "FAILED"
    requires p < |output| && LabelCountAt(output, p, word).Some? && LabelCountAt(output, p, word).value.0 > 0
    requires forall q :: 0 <= q < p ==> LabelCountAt(output, q, word).None?
    ensures word == "PASSED" ==> Parsed(output).passed == LabelCountAt(output, p, word).value.0
    ensures word == "FAILED" ==> Parsed(output).failed == LabelCountAt(output, p, word).value.0
  {
    FirstCountOf(output, LabelMatcher(output, word), p);
  }

  /** The recount runs exactly when there is a total but the passed and failed
      searches both give 0; it then counts `[ OK ]` occurrences and FAILED
      tags. Otherwise the searched numbers stand. */
  lemma Recount(output: string)
    ensures var passed := FirstCount(output, LabelMatcher(output, "PASSED"));
      var failed := FirstCount(output, LabelMatcher(output, "FAILED"));
      if Parsed(output).total > 0 && passed == 0 && failed == 0 then
        Parsed(output).passed == CountOf(output, "[ OK ]") && Parsed(output).failed == FailedTagCount(output)
      else
        Parsed(output).passed == passed && Parsed(output).failed == failed
  {
  }

  /** One failure line per failure match, in text order; each match opens
      with a FAILED tag, and each line is a single line without leading
      whitespace. */
  lemma FailureLines(output: string)
    ensures |Parsed(output).failures| == |FailureMatches(output)|
    ensures forall i :: 0 <= i < |FailureMatches(output)| ==>
      LabelTagAt(output, FailureMatches(output)[i].start, "FAILED").Some?
    ensures forall i, j :: 0 <= i < j < |FailureMatches(output)| ==>
      FailureMatches(output)[i].end <= FailureMatches(output)[j].start
    ensures forall i :: 0 <= i < |Parsed(output).failures| ==>
      '\n' !in Parsed(output).failures[i] &&
      (Parsed(output).failures[i] == [] || !IsSpace(Parsed(output).failures[i][0]))
  {
    FailuresProgress(output);
    FindAllMatches(|output|, 0, FailureMatcher(output));
    var fs := Parsed(output).failures;
    forall i | 0 <= i < |fs|
      ensures '\n' !in fs[i] && (fs[i] == [] || !IsSpace(fs[i][0]))
    {
      TextsAt(FailureMatches(output), i);
      FirstLineStart(Strip(FailureMatches(output)[i].value));
    }
  }

  /** `re.finditer` skips no failure: every position where the failure pattern
      matches starts or lies inside one of the matches that give the failure lines. */
  lemma FailuresComplete(output: string)
    ensures forall p :: 0 <= p < |output| && FailureAt(output, p).Some? ==>
      exists i :: 0 <= i < |FailureMatches(output)| && FailureMatches(output)[i].start <= p < FailureMatches(output)[i].end
  {
    forall p | 0 <= p < |output| && FailureAt(output, p).Some?
      ensures exists i :: 0 <= i < |FailureMatches(output)| && FailureMatches(output)[i].start <= p < FailureMatches(output)[i].end
    {
      assert FailureMatcher(output)(p) == FailureAt(output, p);
      FailuresProgress(output);
      FindAllComplete(|output|, 0, FailureMatcher(output), p);
      var r := FindAll(|output|, 0, FailureMatcher(output));
      var i :| 0 <= i < |r| && r[i].start <= p < r[i].end;
      assert FailureMatches(output) == r;
    }
  }

  /** Each failure match opens with a FAILED tag, and the rest of the match
      is the failure pattern's match after that tag (see `AfterTagText`). */
  lemma FailureMatchTag(output: string, i: nat)
    requires i < |FailureMatches(output)|
    ensures LabelTagAt(output, FailureMatches(output)[i].start, "FAILED").Some?
    ensures var f := FailureMatches(output)[i];
      var q := LabelTagAt(output, f.start, "FAILED").value;
      q <= |output| && FailureAfterTag(output, q) == Some((f.value, f.end))
  {
    var f := FailureMatches(output)[i];
    MatchAt(output, i);
    assert FailureAt(output, f.start) == Some((f.value, f.end));
  }

  /** Each failure line is the first line of its match's capture, once
      stripped. */
  lemma FailureLineText(output: string, i: nat)
    requires i < |FailureMatches(output)|
    ensures Failures(output)[i] == FailureText(FailureMatches(output)[i].value)
  {
    TextsAt(FailureMatches(output), i);
  }

  /** Texts that strip to the same text give the same failure line. */
  lemma SameFailureText(a: string, b: string)
    requires Strip(a) == Strip(b)
    ensures FailureText(a) == FailureText(b)
  {
  }

  /** Each failure match is the failure pattern's match at its start. */
  lemma MatchAt(output: string, i: nat)
    requires i < |FailureMatches(output)|
    ensures FailureAt(output, FailureMatches(output)[i].start) ==
      Some((FailureMatches(output)[i].value, FailureMatches(output)[i].end))
  {
    FailuresProgress(output);
    FindAllMatches(|output|, 0, FailureMatcher(output));
  }

  /** The first line of text that does not start with whitespace does not
      start with whitespace either. */
  lemma FirstLineStart(t: string)
    requires t == [] || !IsSpace(t[0])
    ensures '\n' !in Split(t, '\n')[0]
    ensures Split(t, '\n')[0] == [] || !IsSpace(Split(t, '\n')[0][0])
  {
    var k := FindChar(t, '\n', 0);
    if k != -1 {
      assert Split(t, '\n')[0] == t[..k];
    }
  }

  // ---------------------------------------------------------------------------
  // `run_tests` and `print_summary`

  /** One entry of `results['tests']`: the parse plus the executable's name. */
  datatype ExecResult = ExecResult(executable: string, result: GtestResult)

  datatype RunResults = RunResults(total: nat, passed: nat, failed: nat, tests: seq<ExecResult>)

  /** The index of the last `/` before `end`, or -1 when there is none. */
  function LastSlash(path: string, end: nat): (k: int)
    requires end <= |path|
    ensures -1 <= k < end
    ensures k >= 0 ==> path[k] == '/'
    ensures forall i :: k < i < end ==> path[i] != '/'
  {
    if end == 0 then -1
    else if path[end - 1] == '/' then end - 1
    else LastSlash(path, end - 1)
  }

  /** `os.path.basename`: what follows the last `/`. */
  function Basename(path: string): string {
    path[LastSlash(path, |path|) + 1..]
  }

  /** The base name is the longest suffix without `/`: it holds no `/`, ends
      the path, and is either the whole path or preceded by a `/`. */
  lemma BasenameSuffix(path: string)
    ensures '/' !in Basename(path) && EndsWith(path, Basename(path))
    ensures Basename(path) == path || path[|path| - |Basename(path)| - 1] == '/'
  {
    var k := LastSlash(path, |path|);
    assert forall i :: 0 <= i < |path| - k - 1 ==> Basename(path)[i] == path[k + 1 + i];
  }

  /** The entries of the executables that ran, in order; one that timed out
      or failed to start has none. */
  function Executed(exes: seq<string>, run: string -> Option<(string, string)>): seq<ExecResult> {
    Collect(exes, Runner(run))
  }

  /** Each executable's entry under one `run`. */
  function Runner(run: string -> Option<(string, string)>): string -> Option<ExecResult> {
    exe => Entry(exe, run)
  }

  /** The entries of a list of executables, in order, each giving one entry
      or none. */
  function Collect(exes: seq<string>, entryOf: string -> Option<ExecResult>): seq<ExecResult> {
    if exes == [] then []
    else
      Collect(exes[..|exes| - 1], entryOf) +
        match entryOf(exes[|exes| - 1])
        case None => []
        case Some(e) => [e]
  }

  /** The entry of one executable: its parse labelled with its base name, or
      none when it did not run. */
  function Entry(exe: string, run: string -> Option<(string, string)>): Option<ExecResult> {
    match run(exe)
    case None => None
    case Some(out) => Some(ExecResult(Basename(exe), Parsed(out.0 + out.1)))
  }

  function TotalOf(tests: seq<ExecResult>): nat {
    if tests == [] then 0 else TotalOf(tests[..|tests| - 1]) + tests[|tests| - 1].result.total
  }

  function PassedOf(tests: seq<ExecResult>): nat {
    if tests == [] then 0 else PassedOf(tests[..|tests| - 1]) + tests[|tests| - 1].result.passed
  }

  function FailedOf(tests: seq<ExecResult>): nat {
    if tests == [] then 0 else FailedOf(tests[..|tests| - 1]) + tests[|tests| - 1].result.failed
  }

  /** The entries and the sums of their counts. */
  function Outcome(tests: seq<ExecResult>): RunResults {
    RunResults(TotalOf(tests), PassedOf(tests), FailedOf(tests), tests)
  }

  /** The aggregate of a run of the executables. */
  function RunOutcome(exes: seq<string>, run: string -> Option<(string, string)>): RunResults {
    Outcome(Executed(exes, run))
  }

  /** `run_tests`: the executables run in turn; the entry of each one that
      ran is appended and its counts are added to the totals. */
  method RunTests(testExecutables: seq<string>, run: string -> Option<(string, string)>) returns (results: RunResults)
    ensures results == RunOutcome(testExecutables, run)
  {
    results := RunResults(0, 0, 0, []);
    if testExecutables == [] {
      return;
    }
    results := Accumulate(testExecutables, Runner(run));
  }

  /** The loop of `run_tests`, for any way `entryOf` of running one
      executable and parsing its output. */
  method Accumulate(exes: seq<string>, entryOf: string -> Option<ExecResult>) returns (results: RunResults)
    ensures results == Outcome(Collect(exes, entryOf))
  {
    results := RunResults(0, 0, 0, []);
    ghost var done: seq<string> := [];
    for i := 0 to |exes|
      invariant done == exes[..i]
      invariant results == Outcome(Collect(done, entryOf))
    {
      var entry := entryOf(exes[i]);
      ghost var before := results;
      if entry.Some? {
        var testResult := entry.value.result;
        results := RunResults(results.total + testResult.total, results.passed + testResult.passed,
          results.failed + testResult.failed, results.tests + [entry.value]);
      }
      assert results == Added(before, entry);
      RunStep(done, exes[i], entryOf);
      done := done + [exes[i]];
    }
    assert done == exes;
  }

  /** The totals after one more executable's turn. */
  function Added(results: RunResults, entry: Option<ExecResult>): RunResults {
    match entry
    case None => results
    case Some(e) =>
      RunResults(results.total + e.result.total, results.passed + e.result.passed,
        results.failed + e.result.failed, results.tests + [e])
  }

  /** One executable's turn adds its entry, if any, and its counts. */
  lemma RunStep(done: seq<string>, exe: string, entryOf: string -> Option<ExecResult>)
    ensures Outcome(Collect(done + [exe], entryOf)) == Added(Outcome(Collect(done, entryOf)), entryOf(exe))
  {
    var before := Collect(done, entryOf);
    match entryOf(exe)
    case Some(e) =>
      CollectSnoc(done, exe, entryOf);
      assert Collect(done + [exe], entryOf) == before + [e];
      SumsSnoc(before, e);
    case None =>
      CollectSnoc(done, exe, entryOf);
  }

  /** One more executable adds its entry, if any, at the end. */
  lemma CollectSnoc(done: seq<string>, exe: string, entryOf: string -> Option<ExecResult>)
    ensures entryOf(exe).None? ==> Collect(done + [exe], entryOf) == Collect(done, entryOf)
    ensures entryOf(exe).Some? ==> Collect(done + [exe], entryOf) == Collect(done, entryOf) + [entryOf(exe).value]
  {
    var d := done + [exe];
    assert d[..|d| - 1] == done && d[|d| - 1] == exe;
  }

  /** One more entry adds its counts to the sums. */
  lemma SumsSnoc(tests: seq<ExecResult>, e: ExecResult)
    ensures TotalOf(tests + [e]) == TotalOf(tests) + e.result.total
    ensures PassedOf(tests + [e]) == PassedOf(tests) + e.result.passed
    ensures FailedOf(tests + [e]) == FailedOf(tests) + e.result.failed
  {
    assert (tests + [e])[..|tests|] == tests;
  }

  /** The entries of two lists one after the other. */
  lemma {:induction false} CollectAppend(a: seq<string>, b: seq<string>, entry: string -> Option<ExecResult>)
    ensures Collect(a + b, entry) == Collect(a, entry) + Collect(b, entry)
    decreases |b|
  {
    if b == [] {
      assert a + b == a;
    } else {
      var c := a + b;
      assert c[..|c| - 1] == a + b[..|b| - 1];
      CollectAppend(a, b[..|b| - 1], entry);
    }
  }

  /** An executable that times out or fails to start contributes nothing: the
      outcome is as if it were not in the list. */
  lemma SkippedContributesNothing(before: seq<string>, exe: string, after: seq<string>, run: string -> Option<(string, string)>)
    requires run(exe).None?
    ensures RunOutcome(before + [exe] + after, run) == RunOutcome(before + after, run)
  {
    SkippedExecuted(before, exe, after, run);
  }

  lemma SkippedExecuted(a: seq<string>, x: string, b: seq<string>, run: string -> Option<(string, string)>)
    requires run(x).None?
    ensures Executed(a + [x] + b, run) == Executed(a + b, run)
  {
    NoEntry(x, run);
    SkippedEntries(a, x, b, Runner(run));
  }

  lemma NoEntry(x: string, run: string -> Option<(string, string)>)
    requires run(x).None?
    ensures Runner(run)(x).None?
  {
  }

  lemma SkippedEntries(a: seq<string>, x: string, b: seq<string>, entry: string -> Option<ExecResult>)
    requires entry(x).None?
    ensures Collect(a + [x] + b, entry) == Collect(a + b, entry)
  {
    assert Collect([x], entry) == [] by {
      assert [x][..0] == [];
    }
    CollectAppend(a, [x], entry);
    CollectAppend(a + [x], b, entry);
    CollectAppend(a, b, entry);
  }

  /** The value `print_summary` returns. */
  function PrintSummary(results: RunResults): bool {
    results.failed == 0
  }

  /** A sum of failed counts is zero exactly when every count is. */
  lemma {:induction false} FailedOfZero(tests: seq<ExecResult>)
    ensures FailedOf(tests) == 0 <==> forall i :: 0 <= i < |tests| ==> tests[i].result.failed == 0
  {
    if tests != [] {
      var init := tests[..|tests| - 1];
      FailedOfZero(init);
      assert forall i :: 0 <= i < |init| ==> init[i] == tests[i];
    }
  }

  /** The summary reports success exactly when no executable that ran had a
      failed test. */
  lemma SummaryVerdict(exes: seq<string>, run: string -> Option<(string, string)>)
    ensures PrintSummary(RunOutcome(exes, run)) <==>
      forall i :: 0 <= i < |Executed(exes, run)| ==> Executed(exes, run)[i].result.failed == 0
  {
    assert RunOutcome(exes, run).failed == FailedOf(Executed(exes, run));
    FailedOfZero(Executed(exes, run));
  }

  // ---------------------------------------------------------------------------
  // `_find_test_executables`

  /** `os.path.join(root, name)` for a plain file name. */
  function PathJoin(root: string, name: string): string {
    if root == [] || EndsWith(root, "/") then root + name else root + "/" + name
  }

  function TestSuffix(windows: bool): string {
    if windows then "_test.exe" else "_test"
  }

  /** The paths of one directory's files that end with `suffix`, in listing
      order. */
  function Matching(root: string, files: seq<string>, suffix: string): (paths: seq<string>)
    ensures forall k :: 0 <= k < |paths| ==> EndsWith(paths[k], suffix)
  {
    if files == [] then []
    else
      var name := files[|files| - 1];
      Matching(root, files[..|files| - 1], suffix) +
        if EndsWith(name, suffix) then
          EndsWithAppend(root + (if root == [] || EndsWith(root, "/") then "" else "/"), name, suffix);
          [PathJoin(root, name)]
        else []
  }

  /** The matching paths of the whole walk, directory by directory. */
  function Candidates(walk: seq<(string, seq<string>)>, suffix: string): (paths: seq<string>)
    ensures forall k :: 0 <= k < |paths| ==> EndsWith(paths[k], suffix)
  {
    if walk == [] then []
    else
      var last := walk[|walk| - 1];
      Candidates(walk[..|walk| - 1], suffix) + Matching(last.0, last.1, suffix)
  }

  function TestExecutables(buildExists: bool, windows: bool, walk: seq<(string, seq<string>)>): seq<string> {
    if !buildExists then [] else SortSeq(Candidates(walk, TestSuffix(windows)))
  }

  /** `_find_test_executables`: each walked file that ends with the platform's
      suffix is collected, then the list is sorted. */
  method FindTestExecutables(buildExists: bool, windows: bool, walk: seq<(string, seq<string>)>)
    returns (executables: seq<string>)
    ensures executables == TestExecutables(buildExists, windows, walk)
  {
    executables := [];
    if !buildExists {
      return;
    }
    var suffix := if windows then "_test.exe" else "_test";
    for i := 0 to |walk|
      invariant executables == Candidates(walk[..i], suffix)
    {
      CandidatesSnoc(walk, i, suffix);
      executables := AddMatching(executables, walk[i].0, walk[i].1, suffix);
    }
    assert walk[..|walk|] == walk;
    executables := SortSeq(executables);
  }

  /** The inner loop of `_find_test_executables` over one directory's files. */
  method AddMatching(before: seq<string>, root: string, files: seq<string>, suffix: string)
    returns (executables: seq<string>)
    ensures executables == before + Matching(root, files, suffix)
  {
    executables := before;
    for j := 0 to |files|
      invariant executables == before + Matching(root, files[..j], suffix)
    {
      MatchingSnoc(root, files, j, suffix);
      if EndsWith(files[j], suffix) {
        assert before + Matching(root, files[..j], suffix) + [PathJoin(root, files[j])] ==
          before + (Matching(root, files[..j], suffix) + [PathJoin(root, files[j])]);
        executables := executables + [PathJoin(root, files[j])];
      } else {
        assert Matching(root, files[..j], suffix) + [] == Matching(root, files[..j], suffix);
      }
    }
    assert files[..|files|] == files;
  }

  lemma MatchingSnoc(root: string, files: seq<string>, j: nat, suffix: string)
    requires j < |files|
    ensures Matching(root, files[..j + 1], suffix) ==
      Matching(root, files[..j], suffix) + if EndsWith(files[j], suffix) then [PathJoin(root, files[j])] else []
  {
    assert files[..j + 1][..j] == files[..j];
  }

  lemma CandidatesSnoc(walk: seq<(string, seq<string>)>, i: nat, suffix: string)
    requires i < |walk|
    ensures Candidates(walk[..i + 1], suffix) == Candidates(walk[..i], suffix) + Matching(walk[i].0, walk[i].1, suffix)
  {
    assert walk[..i + 1][..i] == walk[..i];
  }

  /** The executables are sorted, all end with the platform's suffix, and are
      exactly the walked files that do (as a multiset); with no build
      directory there are none. */
  lemma TestExecutablesShape(buildExists: bool, windows: bool, walk: seq<(string, seq<string>)>)
    ensures Sorted(TestExecutables(buildExists, windows, walk))
    ensures forall x :: x in TestExecutables(buildExists, windows, walk) ==> EndsWith(x, TestSuffix(windows))
    ensures buildExists ==>
      multiset(TestExecutables(buildExists, windows, walk)) == multiset(Candidates(walk, TestSuffix(windows)))
    ensures !buildExists ==> TestExecutables(buildExists, windows, walk) == []
  {
    if buildExists {
      var c := Candidates(walk, TestSuffix(windows));
      forall x | x in SortSeq(c) ensures EndsWith(x, TestSuffix(windows)) {
        assert x in multiset(SortSeq(c));
        assert x in multiset(c);
      }
    }
  }

  /** Every walked file with the suffix is among the candidates. */
  lemma {:induction false} CandidatesComplete(walk: seq<(string, seq<string>)>, suffix: string, i: nat, j: nat)
    requires i < |walk| && j < |walk[i].1| && EndsWith(walk[i].1[j], suffix)
    ensures PathJoin(walk[i].0, walk[i].1[j]) in Candidates(walk, suffix)
    decreases |walk|
  {
    var init := walk[..|walk| - 1];
    if i < |walk| - 1 {
      assert init[i] == walk[i];
      CandidatesComplete(init, suffix, i, j);
    } else {
      MatchingComplete(walk[i].0, walk[i].1, suffix, j);
    }
  }

  lemma {:induction false} MatchingComplete(root: string, files: seq<string>, suffix: string, j: nat)
    requires j < |files| && EndsWith(files[j], suffix)
    ensures PathJoin(root, files[j]) in Matching(root, files, suffix)
    decreases |files|
  {
    if j < |files| - 1 {
      var init := files[..|files| - 1];
      assert init[j] == files[j];
      MatchingComplete(root, init, suffix, j);
    }
  }
}
