/**
  The C source scanner of `tools/c_code_analyzer.py`: it finds
  `<type> <name>(<params>) {` definitions, splits their parameter text into
  (type, name) pairs, cuts a brace-balanced body to collect `identifier(`
  call sites, and records one `FunctionDependency` per new function name.
 */
module CCodeAnalyzer {
  import opened Wrappers
  import opened Text
  import opened Scan

  /** One declared parameter, split at its last whitespace run. */
  datatype Param = Param(ptype: string, name: string)

  /** The record kept per function name. */
  datatype FunctionDependency = FunctionDependency(
    name: string,
    returnType: string,
    parameters: seq<Param>,
    externalCalls: set<string>,
    sourceFile: string,
    includeFiles: set<string>)

  /** Control-flow keywords and `NULL`, never reported as calls. */
  const Keywords: set<string> := {"if", "while", "for", "switch", "return", "sizeof", "NULL"}

  /** Definitions named `main` or starting with `_` are never recorded. */
  predicate Skipped(name: string) {
    name == "main" || StartsWith(name, "_")
  }

  // ---------------------------------------------------------------------------
  // `#include\s+[<"]([^>"]+)[>"]`

  predicate IsHeaderNameChar(c: char) { c != '>' && c != '"' }

  /** The include pattern at position `p`: the header name and where the match ends.
      The greedy `[^>"]+` stops at the first `>` or `"`, which must be there. */
  function IncludeAt(c: string, p: nat): (m: Option<(string, nat)>)
    ensures m.Some? ==> p < m.value.1 <= |c| && m.value.0 != ""
  {
    if p > |c| || !StartsWith(c[p..], "#include") then None
    else
      var q := p + 8;
      var w := RunEnd(c, q, IsSpace);
      if w == q || w >= |c| || !(c[w] == '<' || c[w] == '"') then None
      else
        var e := RunEnd(c, w + 1, IsHeaderNameChar);
        if e == w + 1 || e >= |c| then None
        else Some((c[w + 1..e], e + 1))
  }

  /** The include pattern as a matcher over positions of `c`. */
  function IncludeMatcher(c: string): nat -> Option<(string, nat)> {
    (p: nat) => IncludeAt(c, p)
  }

  lemma IncludesProgress(c: string)
    ensures Progresses(|c|, 0, IncludeMatcher(c))
  {
  }

  /** `set(re.findall(include_pattern, content))` */
  function IncludesOf(c: string): set<string>
  {
    IncludesProgress(c);
    var found := FindAll(|c|, 0, IncludeMatcher(c));
    set i | 0 <= i < |found| :: found[i].value
  }

  // ---------------------------------------------------------------------------
  // `(\w+)\s+(\w+)\s*\(\s*([^)]*)\s*\)\s*\{`

  /** What one match of the definition pattern captures. */
  datatype Definition = Definition(returnType: string, name: string, params: string)

  /** The definition pattern at position `p`. No backtracking can change a match:
      each `\w+` and `\s` run must be maximal for the next token to fit, and
      `[^)]*` always ends at the first `)` after the `(`. The captured parameter
      text keeps any whitespace before that `)`; the match ends just after `{`. */
  function DefinitionAt(c: string, p: nat): (m: Option<(Definition, nat)>)
    ensures m.Some? ==> p < m.value.1 <= |c| && c[m.value.1 - 1] == '{'
    ensures m.Some? ==> IsWord(m.value.0.returnType) && IsWord(m.value.0.name)
    ensures m.Some? ==> ')' !in m.value.0.params
  {
    if p >= |c| || !IsWordChar(c[p]) then None
    else
      var e1 := RunEnd(c, p, IsWordChar);
      var s2 := RunEnd(c, e1, IsSpace);
      if s2 == e1 || s2 >= |c| || !IsWordChar(c[s2]) then None
      else
        WordRun(c, p);
        DefinitionFrom(c, p, e1, s2)
  }

  /** The definition whose return type is `c[p..e1]` and whose name starts at `s2`. */
  function DefinitionFrom(c: string, p: nat, e1: nat, s2: nat): (m: Option<(Definition, nat)>)
    requires p < e1 <= s2 < |c| && IsWordChar(c[s2]) && IsWord(c[p..e1])
    ensures m.Some? ==> p < m.value.1 <= |c| && c[m.value.1 - 1] == '{'
    ensures m.Some? ==> m.value.0.returnType == c[p..e1] && IsWord(m.value.0.name)
    ensures m.Some? ==> ')' !in m.value.0.params
  {
    var rest := NameAndParamsAt(c, s2);
    if rest.None? then None
    else Some((Definition(c[p..e1], rest.value.0, rest.value.1), rest.value.2))
  }

  /** The rest of the definition pattern from the function name on:
      `(\w+)\s*\(\s*([^)]*)\s*\)\s*\{`. */
  function NameAndParamsAt(c: string, s2: nat): (m: Option<(string, string, nat)>)
    requires s2 < |c| && IsWordChar(c[s2])
    ensures m.Some? ==> s2 < m.value.2 <= |c| && c[m.value.2 - 1] == '{'
    ensures m.Some? ==> IsWord(m.value.0) && ')' !in m.value.1
  {
    var e2 := RunEnd(c, s2, IsWordChar);
    var s3 := RunEnd(c, e2, IsSpace);
    if s3 >= |c| || c[s3] != '(' then None
    else
      WordRun(c, s2);
      var rest := ParamsAt(c, s3 + 1);
      if rest.None? then None else Some((c[s2..e2], rest.value.0, rest.value.1))
  }

  /** The pattern after its `(`: `\s*([^)]*)\s*\)\s*\{`. */
  function ParamsAt(c: string, s: nat): (m: Option<(string, nat)>)
    requires s <= |c|
    ensures m.Some? ==> s < m.value.1 <= |c| && c[m.value.1 - 1] == '{'
    ensures m.Some? ==> ')' !in m.value.0
  {
    var s4 := RunEnd(c, s, IsSpace);
    var k := FindChar(c, ')', s4);
    if k == -1 then None
    else
      var s5 := RunEnd(c, k + 1, IsSpace);
      if s5 >= |c| || c[s5] != '{' then None
      else
        NoCloseBefore(c, s4);
        Some((c[s4..k], s5 + 1))
  }

  /** A maximal `\w` run that starts on a word character is a word. */
  lemma WordRun(c: string, p: nat)
    requires p < |c| && IsWordChar(c[p])
    ensures IsWord(c[p..RunEnd(c, p, IsWordChar)])
  {
    var e := RunEnd(c, p, IsWordChar);
    RunEndHolds(c, p, IsWordChar);
    forall i | 0 <= i < e - p ensures IsWordChar(c[p..e][i]) {
      assert c[p..e][i] == c[p + i];
    }
  }

  /** `[^)]*` stops at the first `)`: what it consumed holds none. */
  lemma NoCloseBefore(c: string, s: nat)
    requires FindChar(c, ')', s) != -1
    ensures ')' !in c[s..FindChar(c, ')', s)]
  {
    var k := FindChar(c, ')', s);
    forall i | 0 <= i < k - s ensures c[s..k][i] != ')' {
      assert c[s..k][i] == c[s + i];
    }
  }

  /** `re.finditer(func_pattern, content)` */
  function DefinitionsOf(c: string): seq<Found<Definition>>
  {
    DefinitionsProgress(c);
    FindAll(|c|, 0, DefinitionMatcher(c))
  }

  /** The definition pattern as a matcher over positions of `c`. */
  function DefinitionMatcher(c: string): nat -> Option<(Definition, nat)> {
    (p: nat) => DefinitionAt(c, p)
  }

  /** Each definition match is a match of the pattern at its start, the matches
      are in text order and do not overlap, a text without any match gives none,
      and no match is skipped: every position where the pattern matches starts
      or lies inside a returned match. */
  lemma DefinitionsMatch(c: string)
    ensures forall i :: 0 <= i < |DefinitionsOf(c)| ==>
      DefinitionsOf(c)[i].start < DefinitionsOf(c)[i].end <= |c| &&
      DefinitionAt(c, DefinitionsOf(c)[i].start) == Some((DefinitionsOf(c)[i].value, DefinitionsOf(c)[i].end))
    ensures forall i, j :: 0 <= i < j < |DefinitionsOf(c)| ==> DefinitionsOf(c)[i].end <= DefinitionsOf(c)[j].start
    ensures (forall p :: 0 <= p < |c| ==> DefinitionAt(c, p).None?) ==> DefinitionsOf(c) == []
    ensures forall p :: 0 <= p < |c| && DefinitionAt(c, p).Some? ==>
      exists i :: 0 <= i < |DefinitionsOf(c)| && DefinitionsOf(c)[i].start <= p < DefinitionsOf(c)[i].end
  {
    var at := DefinitionMatcher(c);
    DefinitionsProgress(c);
    FindAllMatches(|c|, 0, at);
    var r := DefinitionsOf(c);
    assert r == FindAll(|c|, 0, at);
    forall i | 0 <= i < |r| ensures DefinitionAt(c, r[i].start) == Some((r[i].value, r[i].end)) {
      DefinitionMatcherAt(c, r[i].start);
    }
    if forall p :: 0 <= p < |c| ==> DefinitionAt(c, p).None? {
      forall p | 0 <= p < |c| ensures at(p).None? {
        DefinitionMatcherAt(c, p);
      }
    }
    DefinitionsComplete(c);
  }

  /** `re.finditer` skips no definition: every position where the pattern
      matches starts or lies inside a returned match. */
  lemma DefinitionsComplete(c: string)
    ensures forall p :: 0 <= p < |c| && DefinitionAt(c, p).Some? ==>
      exists i :: 0 <= i < |DefinitionsOf(c)| && DefinitionsOf(c)[i].start <= p < DefinitionsOf(c)[i].end
  {
    forall p | 0 <= p < |c| && DefinitionAt(c, p).Some?
      ensures exists i :: 0 <= i < |DefinitionsOf(c)| && DefinitionsOf(c)[i].start <= p < DefinitionsOf(c)[i].end
    {
      DefinitionMatcherAt(c, p);
      DefinitionsProgress(c);
      FindAllComplete(|c|, 0, DefinitionMatcher(c), p);
      var r := FindAll(|c|, 0, DefinitionMatcher(c));
      var i :| 0 <= i < |r| && r[i].start <= p < r[i].end;
      assert DefinitionsOf(c) == r;
    }
  }

  lemma DefinitionMatcherAt(c: string, p: nat)
    ensures DefinitionMatcher(c)(p) == DefinitionAt(c, p)
  {
  }

  lemma DefinitionsProgress(c: string)
    ensures Progresses(|c|, 0, DefinitionMatcher(c))
  {
  }

  // ---------------------------------------------------------------------------
  // `_parse_parameters`

  /** Index of the last whitespace character of `s`, or -1. */
  function LastSpace(s: string): (k: int)
    ensures -1 <= k < |s|
    ensures k >= 0 ==> IsSpace(s[k])
    ensures forall i :: k < i < |s| ==> !IsSpace(s[i])
  {
    if s == [] then -1
    else if IsSpace(s[|s| - 1]) then |s| - 1
    else LastSpace(s[..|s| - 1])
  }

  /** `s.rsplit(None, 1)`: at most two parts, split at the last whitespace run;
      the last part is a non-empty run without whitespace. */
  function RSplitOnce(s: string): (parts: seq<string>)
    ensures |parts| <= 2
    ensures |parts| >= 1 ==> parts[|parts| - 1] != "" && !HasSpace(parts[|parts| - 1])
    ensures |parts| == 2 ==> parts[0] != ""
  {
    var t := TrimRight(s, IsSpace);
    if t == "" then []
    else
      var k := LastSpace(t);
      if k == -1 then [t]
      else
        var left := TrimRight(t[..k], IsSpace);
        if left == "" then [t[k + 1..]] else [left, t[k + 1..]]
  }

  /** The pair one comma fragment contributes, if it has two parts. */
  function ParamOf(fragment: string): (o: Option<Param>)
    ensures o.Some? ==> WellFormedParam(o.value)
  {
    var param := Strip(fragment);
    if param == "" then None
    else
      var parts := RSplitOnce(param);
      if |parts| == 2 then Some(Param(parts[0], parts[1])) else None
  }

  /** The pairs a sequence of comma fragments contributes, in order. */
  function ParamsOfFragments(fragments: seq<string>): seq<Param>
  {
    if fragments == [] then []
    else ParamsOfFragments(fragments[..|fragments| - 1]) + ParamList(ParamOf(fragments[|fragments| - 1]))
  }

  /** The pairs one optional parameter contributes. */
  function ParamList(o: Option<Param>): seq<Param> {
    match o
    case Some(p) => [p]
    case None => []
  }

  /** Parsing one more fragment appends what that fragment contributes. */
  lemma ParamsOfFragmentsStep(fragments: seq<string>, i: nat)
    requires i < |fragments|
    ensures ParamsOfFragments(fragments[..i + 1]) == ParamsOfFragments(fragments[..i]) + ParamList(ParamOf(fragments[i]))
  {
    assert fragments[..i + 1][..i] == fragments[..i];
  }

  /** What `_parse_parameters` returns for the captured parameter text. */
  function ParametersOf(paramsText: string): seq<Param>
  {
    if paramsText == "" || Strip(paramsText) == "void" then []
    else ParamsOfFragments(Split(paramsText, ','))
  }

  /** A parsed parameter has a non-empty type and a non-empty name without whitespace. */
  predicate WellFormedParam(p: Param) {
    p.ptype != "" && p.name != "" && !HasSpace(p.name)
  }

  lemma {:induction false} ParamsOfFragmentsShape(fragments: seq<string>)
    ensures |ParamsOfFragments(fragments)| <= |fragments|
    ensures forall i :: 0 <= i < |ParamsOfFragments(fragments)| ==>
      WellFormedParam(ParamsOfFragments(fragments)[i])
    decreases |fragments|
  {
    if fragments != [] {
      ParamsOfFragmentsShape(fragments[..|fragments| - 1]);
    }
  }

  /** `_parse_parameters`: empty or `void` text gives no parameters; otherwise
      each comma fragment (split on every comma, nested or not) that still
      holds whitespace after stripping gives one (type, name) pair, in order. */
  method ParseParameters(paramsText: string) returns (parameters: seq<Param>)
    ensures parameters == ParametersOf(paramsText)
    ensures paramsText == "" || Strip(paramsText) == "void" ==> parameters == []
  {
    if paramsText == "" || Strip(paramsText) == "void" {
      return [];
    }
    parameters := ParseFragments(Split(paramsText, ','));
  }

  /** The loop of `_parse_parameters` over the comma fragments. */
  method ParseFragments(fragments: seq<string>) returns (parameters: seq<Param>)
    ensures parameters == ParamsOfFragments(fragments)
  {
    parameters := [];
    for i := 0 to |fragments|
      invariant parameters == ParamsOfFragments(fragments[..i])
    {
      ParamsOfFragmentsStep(fragments, i);
      var param := ParseFragment(fragments[i]);
      if param.Some? {
        parameters := parameters + [param.value];
      }
    }
    assert fragments[..|fragments|] == fragments;
  }

  /** One pass of the loop in `_parse_parameters`: strip the fragment and, when
      it is not empty and `rsplit` gives two parts, make them a pair. */
  method ParseFragment(fragment: string) returns (param: Option<Param>)
    ensures param == ParamOf(fragment)
  {
    param := None;
    var stripped := Strip(fragment);
    if stripped != "" {
      var parts := RSplitOnce(stripped);
      if |parts| == 2 {
        param := Some(Param(parts[0], parts[1]));
      }
    }
  }

  /** At most one parameter per comma fragment, each with a type and a one-word name. */
  lemma ParametersShape(paramsText: string)
    ensures |ParametersOf(paramsText)| <= |Split(paramsText, ',')|
    ensures forall i :: 0 <= i < |ParametersOf(paramsText)| ==> WellFormedParam(ParametersOf(paramsText)[i])
  {
    ParamsOfFragmentsShape(Split(paramsText, ','));
  }

  // ---------------------------------------------------------------------------
  // `_extract_calls`

  function BraceDelta(ch: char): int {
    if ch == '{' then 1 else if ch == '}' then -1 else 0
  }

  /** Where the brace scan stops: it advances while text remains and the depth is positive. */
  function ScanEnd(c: string, pos: nat, depth: int): (e: nat)
    requires pos <= |c|
    ensures pos <= e <= |c|
    decreases |c| - pos
  {
    if pos < |c| && depth > 0 then ScanEnd(c, pos + 1, depth + BraceDelta(c[pos])) else pos
  }

  /** Opening minus closing braces. */
  function Depth(s: string): int {
    multiset(s)['{'] as int - multiset(s)['}'] as int
  }

  lemma DepthStep(c: string, b: nat, k: nat)
    requires b <= k < |c|
    ensures Depth(c[b..k + 1]) == Depth(c[b..k]) + BraceDelta(c[k])
  {
    assert c[b..k + 1] == c[b..k] + [c[k]];
  }

  lemma {:induction false} ScanEndDepth(c: string, b: nat, pos: nat, d: int)
    requires b < pos <= |c| && d == Depth(c[b..pos]) && d >= 0
    requires forall k :: b < k < pos ==> Depth(c[b..k]) > 0
    ensures Depth(c[b..ScanEnd(c, pos, d)]) == 0 || ScanEnd(c, pos, d) == |c|
    ensures forall k :: b < k < ScanEnd(c, pos, d) ==> Depth(c[b..k]) > 0
    decreases |c| - pos
  {
    if pos < |c| && d > 0 {
      DepthStep(c, b, pos);
      ScanEndDepth(c, b, pos + 1, d + BraceDelta(c[pos]));
    }
  }

  /** The brace scan of `_extract_calls`, started just after the `{` at `b`
      with depth 1, stops at the first position where the depth is back to 0;
      the span then ends with `}` and holds as many `{` as `}`. A span that
      stops before the end of the text is balanced; one whose depth never
      returns to 0 runs to the end of the text. */
  lemma BodySpan(c: string, b: nat)
    requires b < |c| && c[b] == '{'
    ensures b < ScanEnd(c, b + 1, 1) && c[b..ScanEnd(c, b + 1, 1)][0] == '{'
    ensures ScanEnd(c, b + 1, 1) < |c| ==> Depth(c[b..ScanEnd(c, b + 1, 1)]) == 0
    ensures Depth(c[b..ScanEnd(c, b + 1, 1)]) == 0 ==>
      c[ScanEnd(c, b + 1, 1) - 1] == '}' &&
      multiset(c[b..ScanEnd(c, b + 1, 1)])['{'] == multiset(c[b..ScanEnd(c, b + 1, 1)])['}']
    ensures forall k :: b < k < ScanEnd(c, b + 1, 1) ==> Depth(c[b..k]) > 0
  {
    assert c[b..b + 1] == [c[b]];
    ScanEndDepth(c, b, b + 1, 1);
    var e := ScanEnd(c, b + 1, 1);
    if Depth(c[b..e]) == 0 {
      assert e > b + 1;
      DepthStep(c, b, e - 1);
    }
  }

  /** The body `_extract_calls` cuts out, if there is a `{` at or after `from`. */
  function BodyOf(c: string, from: nat): Option<string>
  {
    var b := FindChar(c, '{', from);
    if b == -1 then None else Some(c[b..ScanEnd(c, b + 1, 1)])
  }

  /** `(\w+)\s*\(` at position `p`: an identifier, optional whitespace, `(`. */
  function CallAt(body: string, p: nat): (m: Option<(string, nat)>)
    ensures m.Some? ==> p < m.value.1 <= |body| && IsWord(m.value.0)
  {
    if p >= |body| || !IsWordChar(body[p]) then None
    else
      var e := RunEnd(body, p, IsWordChar);
      var s := RunEnd(body, e, IsSpace);
      if s < |body| && body[s] == '(' then
        WordRun(body, p);
        Some((body[p..e], s + 1))
      else None
  }

  /** `name` followed, after optional whitespace, by `(` at position `p` of `body`. */
  predicate CallSiteAt(body: string, p: nat, name: string) {
    p + |name| <= |body| && body[p..p + |name|] == name &&
    var s := RunEnd(body, p + |name|, IsSpace); s < |body| && body[s] == '('
  }

  /** `set(re.findall(call_pattern, body))` */
  function CallNames(body: string): (names: set<string>)
    ensures forall x :: x in names ==> IsWord(x) && exists p :: CallSiteAt(body, p, x)
  {
    CallsFound(body);
    var found := FindAll(|body|, 0, CallMatcher(body));
    set i | 0 <= i < |found| :: found[i].value
  }

  /** The call pattern as a matcher over positions of `body`. */
  function CallMatcher(body: string): nat -> Option<(string, nat)> {
    (p: nat) => CallAt(body, p)
  }

  lemma CallsProgress(body: string)
    ensures Progresses(|body|, 0, CallMatcher(body))
  {
  }

  /** Every call match captures a word that is followed by `(` where it starts. */
  lemma CallsFound(body: string)
    ensures Progresses(|body|, 0, CallMatcher(body))
    ensures forall i :: 0 <= i < |FindAll(|body|, 0, CallMatcher(body))| ==>
      IsWord(FindAll(|body|, 0, CallMatcher(body))[i].value) &&
      CallSiteAt(body, FindAll(|body|, 0, CallMatcher(body))[i].start, FindAll(|body|, 0, CallMatcher(body))[i].value)
  {
    CallsProgress(body);
    var found := FindAll(|body|, 0, CallMatcher(body));
    FindAllMatches(|body|, 0, CallMatcher(body));
    forall i | 0 <= i < |found|
      ensures IsWord(found[i].value) && CallSiteAt(body, found[i].start, found[i].value)
    {
      var m := CallAt(body, found[i].start);
      assert CallMatcher(body)(found[i].start) == m == Some((found[i].value, found[i].end));
    }
  }

  /** No word is `set(re.findall(call_pattern, body))` misses: a call match that
      starts where a word starts (no word character just before it) is never
      swallowed by an earlier match, so its identifier is collected. */
  lemma CallNamesComplete(body: string, p: nat, w: string, e: nat)
    requires CallAt(body, p) == Some((w, e))
    requires p == 0 || !IsWordChar(body[p - 1])
    ensures w in CallNames(body)
  {
    CallsProgress(body);
    NoCallOverWordStart(body, p);
    assert CallMatcher(body)(p) == Some((w, e));
    FindAllStart(|body|, 0, CallMatcher(body), p);
    var found := FindAll(|body|, 0, CallMatcher(body));
    var i :| 0 <= i < |found| && found[i].start == p && found[i].value == w;
    FoundCallNamed(body, i);
  }

  /** No call match that starts earlier reaches over a call match that starts
      where a word starts. */
  lemma NoCallOverWordStart(body: string, p: nat)
    requires CallAt(body, p).Some?
    requires p == 0 || !IsWordChar(body[p - 1])
    ensures forall q :: 0 <= q < p && CallMatcher(body)(q).Some? ==> CallMatcher(body)(q).value.1 <= p
  {
    forall q | 0 <= q < p && CallMatcher(body)(q).Some? ensures CallMatcher(body)(q).value.1 <= p {
      assert CallMatcher(body)(q) == CallAt(body, q);
      if p < CallAt(body, q).value.1 {
        CallInsideCall(body, q, p);
      }
    }
  }

  /** The identifier of every call match is in the collected set. */
  lemma FoundCallNamed(body: string, i: nat)
    requires Progresses(|body|, 0, CallMatcher(body)) && i < |FindAll(|body|, 0, CallMatcher(body))|
    ensures FindAll(|body|, 0, CallMatcher(body))[i].value in CallNames(body)
  {
  }

  /** A call match that begins inside an earlier call match starts right after
      a word character: the earlier match covers a word run, then spaces, then `(`,
      and only the first of those can be followed by a word character. */
  lemma CallInsideCall(body: string, q: nat, p: nat)
    requires q < p && CallAt(body, q).Some? && p < CallAt(body, q).value.1
    requires CallAt(body, p).Some?
    ensures IsWordChar(body[p - 1])
  {
    var ew := RunEnd(body, q, IsWordChar);
    RunEndHolds(body, q, IsWordChar);
    RunEndHolds(body, ew, IsSpace);
  }

  /** What `_extract_calls(content, _, from)` returns. */
  function CallsOf(c: string, from: nat): set<string>
  {
    match BodyOf(c, from)
    case None => {}
    case Some(body) => CallNames(body) - Keywords
  }

  /** `_extract_calls`: finds the first `{` at or after `end`, runs the brace scan
      from it, and collects the identifiers called in that span, minus keywords. */
  method ExtractCalls(content: string, start: nat, end: nat) returns (calls: set<string>)
    ensures calls == CallsOf(content, end)
    ensures FindChar(content, '{', end) == -1 ==> calls == {}
    ensures forall x :: x in calls ==> x !in Keywords && IsWord(x)
  {
    var funcBodyStart := FindChar(content, '{', end);
    if funcBodyStart == -1 {
      return {};
    }
    var braceCount := 1;
    var pos := funcBodyStart + 1;
    while pos < |content| && braceCount > 0
      invariant funcBodyStart < pos <= |content|
      invariant ScanEnd(content, pos, braceCount) == ScanEnd(content, funcBodyStart + 1, 1)
      decreases |content| - pos
    {
      if content[pos] == '{' {
        braceCount := braceCount + 1;
      } else if content[pos] == '}' {
        braceCount := braceCount - 1;
      }
      pos := pos + 1;
    }
    var funcBody := content[funcBodyStart..pos];
    calls := CallNames(funcBody) - Keywords;
  }

  /** Every reported call is an identifier followed by `(` inside the cut span,
      and none is a keyword. */
  lemma CallsAreCallSites(c: string, from: nat, x: string)
    requires x in CallsOf(c, from)
    ensures x !in Keywords && IsWord(x)
    ensures exists b, e ::
      (0 <= b < e <= |c| && c[b] == '{' && e == ScanEnd(c, b + 1, 1) && exists p :: CallSiteAt(c[b..e], p, x))
  {
    var b := FindChar(c, '{', from);
    assert b != -1;
    var e := ScanEnd(c, b + 1, 1);
    var body := c[b..e];
    assert BodyOf(c, from) == Some(body);
    assert x in CallNames(body);
    var p :| CallSiteAt(body, p, x);
    assert 0 <= b < e <= |c| && c[b] == '{' && e == ScanEnd(c, b + 1, 1) && CallSiteAt(c[b..e], p, x);
  }

  // ---------------------------------------------------------------------------
  // `analyze_file` and the function map

  /** The record `analyze_file` builds for one definition match of a file. */
  function FactFor(path: string, c: string, includes: set<string>, d: Found<Definition>): FunctionDependency
  {
    FunctionDependency(d.value.name, d.value.returnType, ParametersOf(d.value.params),
                       CallsOf(c, d.end), path, includes)
  }

  /** The records for the definition matches of a file, in match order. */
  function Facts(path: string, c: string, includes: set<string>, defs: seq<Found<Definition>>): (fs: seq<FunctionDependency>)
    ensures |fs| == |defs|
    ensures forall i :: 0 <= i < |defs| ==> fs[i] == FactFor(path, c, includes, defs[i])
  {
    seq(|defs|, i requires 0 <= i < |defs| => FactFor(path, c, includes, defs[i]))
  }

  /** The map after offering the records `facts` in order: a skipped name is
      ignored and a name already present is never overwritten. */
  function Record(m: map<string, FunctionDependency>, facts: seq<FunctionDependency>): map<string, FunctionDependency>
  {
    if facts == [] then m
    else
      var before := Record(m, facts[..|facts| - 1]);
      var f := facts[|facts| - 1];
      if Skipped(f.name) || f.name in before then before
      else before[f.name := f]
  }

  /** One more record offered. */
  lemma RecordStep(m: map<string, FunctionDependency>, facts: seq<FunctionDependency>, i: nat)
    requires i < |facts|
    ensures Record(m, facts[..i + 1]) ==
      var before := Record(m, facts[..i]);
      if Skipped(facts[i].name) || facts[i].name in before then before else before[facts[i].name := facts[i]]
  {
    assert facts[..i + 1][..i] == facts[..i];
  }

  /** Insert-if-absent: the map never shrinks and existing entries never change. */
  lemma {:induction false} RecordKeepsEntries(m: map<string, FunctionDependency>, facts: seq<FunctionDependency>)
    ensures forall k :: k in m ==> k in Record(m, facts) && Record(m, facts)[k] == m[k]
    decreases |facts|
  {
    if facts != [] {
      RecordKeepsEntries(m, facts[..|facts| - 1]);
    }
  }

  /** `facts[i]` is the first record in `facts` with its name. */
  predicate FirstWithName(facts: seq<FunctionDependency>, i: nat) {
    i < |facts| && forall j :: 0 <= j < i ==> facts[j].name != facts[i].name
  }

  /** Every record not skipped ends up in the map under its name. */
  lemma {:induction false} RecordCovers(m: map<string, FunctionDependency>, facts: seq<FunctionDependency>, i: nat)
    requires i < |facts| && !Skipped(facts[i].name)
    ensures facts[i].name in Record(m, facts)
    decreases |facts|
  {
    if i < |facts| - 1 {
      RecordCovers(m, facts[..|facts| - 1], i);
    }
  }

  /** Every entry added is not skipped and is the first record offered under its name. */
  lemma {:induction false} RecordNewEntries(m: map<string, FunctionDependency>, facts: seq<FunctionDependency>, k: string)
    requires k in Record(m, facts) && k !in m
    ensures !Skipped(k)
    ensures exists i: nat :: FirstWithName(facts, i) && facts[i].name == k && Record(m, facts)[k] == facts[i]
    decreases |facts|
  {
    var p := facts[..|facts| - 1];
    var before := Record(m, p);
    if k in before {
      RecordNewEntries(m, p, k);
      var i: nat :| FirstWithName(p, i) && p[i].name == k && before[k] == p[i];
      assert FirstWithName(facts, i);
    } else {
      var i := |facts| - 1;
      forall j | 0 <= j < i ensures facts[j].name != k {
        if facts[j].name == k {
          RecordCovers(m, p, j);
        }
      }
      assert FirstWithName(facts, i);
    }
  }

  /** Records that are all skipped (`main`, `_helper`) add nothing. */
  lemma {:induction false} RecordOnlySkipped(m: map<string, FunctionDependency>, facts: seq<FunctionDependency>)
    requires forall i :: 0 <= i < |facts| ==> Skipped(facts[i].name)
    ensures Record(m, facts) == m
    decreases |facts|
  {
    if facts != [] {
      RecordOnlySkipped(m, facts[..|facts| - 1]);
    }
  }

  /** What `analyze_file(path)` leaves in the map `m` for a file with text `c`. */
  function AnalyzedFile(m: map<string, FunctionDependency>, path: string, c: string): map<string, FunctionDependency>
  {
    Record(m, Facts(path, c, IncludesOf(c), DefinitionsOf(c)))
  }

  /** An entry added by a file carries that file's path and full include set, and
      is built from the first definition match with that name in the file. */
  lemma NewEntriesOf(m: map<string, FunctionDependency>, path: string, c: string, includes: set<string>,
                      defs: seq<Found<Definition>>, k: string)
    requires k in Record(m, Facts(path, c, includes, defs)) && k !in m
    ensures var e := Record(m, Facts(path, c, includes, defs))[k];
      !Skipped(k) && e.name == k && e.sourceFile == path && e.includeFiles == includes
    ensures exists i: nat ::
      (i < |defs| && defs[i].value.name == k && (forall j :: 0 <= j < i ==> defs[j].value.name != k) &&
       Record(m, Facts(path, c, includes, defs))[k] == FactFor(path, c, includes, defs[i]))
  {
    var facts := Facts(path, c, includes, defs);
    RecordNewEntries(m, facts, k);
    var i: nat :| FirstWithName(facts, i) && facts[i].name == k && Record(m, facts)[k] == facts[i];
    assert forall j :: 0 <= j < i ==> defs[j].value.name == facts[j].name;
  }

  /** Analysing another file never removes or changes an entry already recorded. */
  lemma AnalyzedFileKeepsEntries(m: map<string, FunctionDependency>, path: string, c: string)
    ensures forall k :: k in m ==> k in AnalyzedFile(m, path, c) && AnalyzedFile(m, path, c)[k] == m[k]
  {
    RecordKeepsEntries(m, Facts(path, c, IncludesOf(c), DefinitionsOf(c)));
  }

  /** Every definition of the file whose name is not skipped is in the map afterwards. */
  lemma AnalyzedFileCovers(m: map<string, FunctionDependency>, path: string, c: string, i: nat)
    requires i < |DefinitionsOf(c)| && !Skipped(DefinitionsOf(c)[i].value.name)
    ensures DefinitionsOf(c)[i].value.name in AnalyzedFile(m, path, c)
  {
    var facts := Facts(path, c, IncludesOf(c), DefinitionsOf(c));
    RecordCovers(m, facts, i);
  }

  /** The calls recorded for a definition come from the span that starts at the
      first `{` after the definition's own `{`: when no such brace exists the
      function is recorded with no calls at all, whatever its own body calls. */
  lemma CallsStartAfterOwnBrace(path: string, c: string, includes: set<string>, d: Found<Definition>)
    requires d.end <= |c| && DefinitionAt(c, d.start) == Some((d.value, d.end))
    requires FindChar(c, '{', d.end) == -1
    ensures c[d.end - 1] == '{'
    ensures FactFor(path, c, includes, d).externalCalls == {}
  {
  }

  /** `CCodeAnalyzer`: the function map accumulated over analysed files. */
  class Analyzer {
    var functionMap: map<string, FunctionDependency>

    /** Every entry is keyed by its own name, and no skipped name is present. */
    ghost predicate Valid()
      reads this
    {
      forall k :: k in functionMap ==> functionMap[k].name == k && !Skipped(k)
    }

    constructor ()
      ensures Valid() && functionMap == map[]
    {
      functionMap := map[];
    }

    /** `analyze_file` on the text of one file (the file read is not modelled). */
    method AnalyzeFile(filepath: string, content: string)
      requires Valid()
      modifies this
      ensures Valid()
      ensures functionMap == AnalyzedFile(old(functionMap), filepath, content)
    {
      var includes := IncludesOf(content);
      var defs := DefinitionsOf(content);
      ghost var facts := Facts(filepath, content, includes, defs);
      for i := 0 to |defs|
        invariant Valid()
        invariant functionMap == Record(old(functionMap), facts[..i])
      {
        RecordStep(old(functionMap), facts, i);
        var returnType, funcName, paramsStr := defs[i].value.returnType, defs[i].value.name, defs[i].value.params;
        if funcName == "main" || StartsWith(funcName, "_") {
          continue;
        }
        var parameters := ParseParameters(paramsStr);
        var externalCalls := ExtractCalls(content, defs[i].start, defs[i].end);
        if funcName !in functionMap {
          functionMap := functionMap[funcName := FunctionDependency(
            funcName, returnType, parameters, externalCalls, filepath, includes)];
        }
      }
      assert facts[..|defs|] == facts;
    }

    /** `get_function_dependencies`: the record for a name, if one was recorded. */
    function GetFunctionDependencies(funcName: string): (r: Option<FunctionDependency>)
      reads this
      requires Valid()
      ensures r.Some? <==> funcName in functionMap
      ensures r.Some? ==> r.value == functionMap[funcName] && r.value.name == funcName && !Skipped(funcName)
    {
      if funcName in functionMap then Some(functionMap[funcName]) else None
    }

    /** `get_all_functions` */
    function GetAllFunctions(): (r: map<string, FunctionDependency>)
      reads this
      requires Valid()
      ensures r == functionMap
      ensures forall k :: k in r ==> r[k].name == k && k != "main" && !StartsWith(k, "_")
    {
      functionMap
    }
  }
}
