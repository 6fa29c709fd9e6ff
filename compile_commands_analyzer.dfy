/**
  The flag extractor of `tools/compile_commands_analyzer.py`: string rules over
  one compile command (GCC `-I`, `-D`, `-std=`, `-O`, `-W` and MSVC `/I`,
  `-external:I`, `/D`, `/std:`, `/O`, `/W` flags), and the per-file table
  built from a list of already parsed `compile_commands.json` entries.
 */
module CompileCommandsAnalyzer {
  import opened Wrappers
  import opened Text
  import opened Scan
  import opened Sorting
  import opened OrderedDict

  /** One entry of `compile_commands.json`; a missing key is `None`. */
  datatype CommandEntry = CommandEntry(file: Option<string>, directory: Option<string>, command: Option<string>)

  /** What is extracted for one source file. */
  datatype CompileInfo = CompileInfo(
    file: string,
    directory: string,
    command: string,
    includeDirs: seq<string>,
    defines: Dict<Option<string>>,
    cStandard: Option<string>,
    cxxStandard: Option<string>,
    optimization: string,
    warnings: seq<string>)

  predicate NotSpace(ch: char) { !IsSpace(ch) }

  /** `flag` at position `p` followed by a non-empty maximal run of `cls`
      characters: the run is captured and the match ends after it. */
  function FlagRunAt(c: string, p: nat, flag: string, cls: char -> bool): (m: Option<(string, nat)>)
    ensures m.Some? ==> p < m.value.1 <= |c| && m.value.0 != ""
    ensures m.Some? ==> forall i :: 0 <= i < |m.value.0| ==> cls(m.value.0[i])
  {
    if p > |c| || !StartsWith(c[p..], flag) then None
    else
      var q := p + |flag|;
      var e := RunEnd(c, q, cls);
      if e == q then None
      else
        RunEndHolds(c, q, cls);
        Some((c[q..e], e))
  }

  /** `re.finditer(flag + cls + '+', c)` */
  function FlagMatches(c: string, flag: string, cls: char -> bool): seq<Found<string>>
  {
    FlagProgress(c, flag, cls);
    FindAll(|c|, 0, FlagMatcher(c, flag, cls))
  }

  /** The flag pattern as a matcher over positions of `c`. */
  function FlagMatcher(c: string, flag: string, cls: char -> bool): nat -> Option<(string, nat)> {
    (p: nat) => FlagRunAt(c, p, flag, cls)
  }

  lemma FlagProgress(c: string, flag: string, cls: char -> bool)
    ensures Progresses(|c|, 0, FlagMatcher(c, flag, cls))
  {
  }

  /** `re.finditer` skips no flag: every position where `flag` is followed by a
      run of `cls` starts or lies inside a returned match. */
  lemma FlagMatchesComplete(c: string, flag: string, cls: char -> bool)
    ensures forall p :: 0 <= p < |c| && FlagRunAt(c, p, flag, cls).Some? ==>
      exists i ::
        0 <= i < |FlagMatches(c, flag, cls)| &&
        FlagMatches(c, flag, cls)[i].start <= p < FlagMatches(c, flag, cls)[i].end
  {
    forall p | 0 <= p < |c| && FlagRunAt(c, p, flag, cls).Some?
      ensures exists i ::
        0 <= i < |FlagMatches(c, flag, cls)| &&
        FlagMatches(c, flag, cls)[i].start <= p < FlagMatches(c, flag, cls)[i].end
    {
      assert FlagMatcher(c, flag, cls)(p) == FlagRunAt(c, p, flag, cls);
      FlagProgress(c, flag, cls);
      FindAllComplete(|c|, 0, FlagMatcher(c, flag, cls), p);
      var r := FindAll(|c|, 0, FlagMatcher(c, flag, cls));
      var i :| 0 <= i < |r| && r[i].start <= p < r[i].end;
      assert FlagMatches(c, flag, cls) == r;
    }
  }

  /** The captures of `re.finditer(flag + cls + '+', c)`. */
  function FlagValues(c: string, flag: string, cls: char -> bool): seq<string>
  {
    Captures(FlagMatches(c, flag, cls))
  }

  /** The capture of `re.search(flag + cls + '+', c)`: the run after the first
      occurrence of the flag that is followed by at least one `cls` character. */
  function FirstRun(c: string, flag: string, cls: char -> bool): (r: Option<string>)
    ensures r.Some? ==> r.value != "" && forall i :: 0 <= i < |r.value| ==> cls(r.value[i])
  {
    match Search(|c|, 0, FlagMatcher(c, flag, cls))
    case Some(f) => Some(f.value)
    case None => None
  }

  /** `FirstRun` is empty exactly when the pattern matches nowhere, and otherwise
      holds the capture of the match at the lowest position. */
  lemma FirstRunSearch(c: string, flag: string, cls: char -> bool)
    ensures FirstRun(c, flag, cls).None? <==> forall p :: 0 <= p < |c| ==> FlagRunAt(c, p, flag, cls).None?
    ensures FirstRun(c, flag, cls).Some? ==> exists p ::
      (0 <= p < |c| && FlagRunAt(c, p, flag, cls).Some? && FlagRunAt(c, p, flag, cls).value.0 == FirstRun(c, flag, cls).value &&
       forall q :: 0 <= q < p ==> FlagRunAt(c, q, flag, cls).None?)
  {
    var at := FlagMatcher(c, flag, cls);
    var r := Search(|c|, 0, at);
    assert FirstRun(c, flag, cls) == if r.Some? then Some(r.value.value) else None;
    if r.Some? {
      var p := r.value.start;
      assert at(p) == FlagRunAt(c, p, flag, cls);
      forall q | 0 <= q < p ensures FlagRunAt(c, q, flag, cls).None? {
        assert at(q) == FlagRunAt(c, q, flag, cls);
      }
    } else {
      forall p | 0 <= p < |c| ensures FlagRunAt(c, p, flag, cls).None? {
        assert at(p) == FlagRunAt(c, p, flag, cls);
      }
    }
  }

  // ---------------------------------------------------------------------------
  // `_normalize_path` and `_extract_includes`

  predicate IsQuote(ch: char) { ch == '"' || ch == '\'' }

  /** `_normalize_path`: quotes of either kind are stripped from both ends and
      every backslash becomes a forward slash. */
  function NormalizePath(path: string): (r: string)
    ensures forall i :: 0 <= i < |r| ==> r[i] != '\\'
    ensures r == [] || (!IsQuote(r[0]) && !IsQuote(r[|r| - 1]))
  {
    ReplaceChar(TrimRight(TrimLeft(path, IsQuote), IsQuote), '\\', '/')
  }

  /** Normalising twice is normalising once. */
  lemma NormalizeIdempotent(path: string)
    ensures NormalizePath(NormalizePath(path)) == NormalizePath(path)
  {
    var r := NormalizePath(path);
    assert TrimLeft(r, IsQuote) == r;
    assert TrimRight(r, IsQuote) == r;
  }

  /** The raw `/I`, `-external:I` and `-I` captures, in the order the three loops collect them. */
  function RawIncludes(c: string): seq<string>
  {
    FlagValues(c, "/I", NotSpace) + FlagValues(c, "-external:I", NotSpace) + FlagValues(c, "-I", NotSpace)
  }

  /** `order` lists each element of `s` exactly once. */
  ghost predicate Enumerates(order: seq<string>, raw: seq<string>) {
    (forall i, j :: 0 <= i < j < |order| ==> order[i] != order[j]) &&
    (forall x :: x in order <==> x in raw)
  }

  function NormalizeAll(paths: seq<string>): (r: seq<string>)
    ensures |r| == |paths| && forall i :: 0 <= i < |paths| ==> r[i] == NormalizePath(paths[i])
  {
    seq(|paths|, i requires 0 <= i < |paths| => NormalizePath(paths[i]))
  }

  /** `dirs` is what `_extract_includes` may return: the distinct raw captures,
      in the unspecified order of `list(set(...))`, each normalised afterwards. */
  ghost predicate IncludeDirsOf(dirs: seq<string>, raw: seq<string>) {
    exists order :: Enumerates(order, raw) && dirs == NormalizeAll(order)
  }

  /** `_extract_includes` */
  method ExtractIncludes(command: string) returns (includes: seq<string>)
    ensures IncludeDirsOf(includes, RawIncludes(command))
  {
    var raw: seq<string> := [];
    raw := AppendCaptures(raw, FlagMatches(command, "/I", NotSpace));
    raw := AppendCaptures(raw, FlagMatches(command, "-external:I", NotSpace));
    raw := AppendCaptures(raw, FlagMatches(command, "-I", NotSpace));
    includes := DedupNormalize(raw);
  }

  /** One of the three `for match in re.finditer(...)` loops: the captures of
      `found` are appended to `raw` in match order. */
  method AppendCaptures(raw: seq<string>, found: seq<Found<string>>) returns (r: seq<string>)
    ensures r == raw + Captures(found)
  {
    r := raw;
    for i := 0 to |found|
      invariant r == raw + Captures(found[..i])
    {
      assert found[..i + 1][..i] == found[..i];
      r := r + [found[i].value];
    }
    assert found[..|found|] == found;
  }

  /** `[normalize(inc) for inc in list(set(raw))]`: each distinct raw capture once,
      in some order, normalised. */
  method DedupNormalize(raw: seq<string>) returns (includes: seq<string>)
    ensures IncludeDirsOf(includes, raw)
  {
    var unique := set x | x in raw;
    var rest := unique;
    ghost var order: seq<string> := [];
    includes := [];
    assert forall x :: x in unique <==> x in raw;
    while rest != {}
      invariant DedupState(raw, rest, order, includes)
      decreases |rest|
    {
      var x :| x in rest;
      DedupStep(raw, rest, order, includes, x);
      order := order + [x];
      includes := includes + [NormalizePath(x)];
      rest := rest - {x};
    }
    assert Enumerates(order, raw);
  }

  /** The state of the deduplication loop: `order` lists the captures taken so
      far, each once, `rest` the ones still to take, and `includes` the
      normalised `order`. */
  ghost predicate DedupState(raw: seq<string>, rest: set<string>, order: seq<string>, includes: seq<string>) {
    (forall i, j :: 0 <= i < j < |order| ==> order[i] != order[j]) &&
    (forall x :: x in raw <==> x in rest || x in order) &&
    (forall x :: x in order ==> x !in rest) &&
    includes == NormalizeAll(order)
  }

  /** Taking one more capture out of `rest` keeps the loop state. */
  lemma DedupStep(raw: seq<string>, rest: set<string>, order: seq<string>, includes: seq<string>, x: string)
    requires DedupState(raw, rest, order, includes) && x in rest
    ensures DedupState(raw, rest - {x}, order + [x], includes + [NormalizePath(x)])
  {
    var o := order + [x];
    forall i, j | 0 <= i < j < |o| ensures o[i] != o[j] {
      if j == |order| {
        assert o[i] == order[i] && order[i] in order;
      } else {
        assert o[i] == order[i] && o[j] == order[j];
      }
    }
    assert includes + [NormalizePath(x)] == NormalizeAll(o);
  }

  /** No include directory contains a backslash or begins or ends with a quote. */
  lemma IncludeDirsNormalized(dirs: seq<string>, raw: seq<string>, i: nat)
    requires IncludeDirsOf(dirs, raw) && i < |dirs|
    ensures '\\' !in dirs[i]
    ensures dirs[i] == [] || (!IsQuote(dirs[i][0]) && !IsQuote(dirs[i][|dirs[i]| - 1]))
  {
    var order :| Enumerates(order, raw) && dirs == NormalizeAll(order);
    assert dirs[i] == NormalizePath(order[i]);
  }

  /** A path in double quotes normalises to the path itself, when the path
      neither begins nor ends with a quote. */
  lemma QuotedSame(x: string)
    requires x != [] && !IsQuote(x[0]) && !IsQuote(x[|x| - 1])
    ensures NormalizePath("\"" + x + "\"") == NormalizePath(x)
  {
    var q := "\"" + x + "\"";
    var y := x + "\"";
    assert q[1..] == y;
    assert TrimLeft(y, IsQuote) == y;
    assert TrimLeft(q, IsQuote) == y;
    assert y[..|y| - 1] == x;
    assert TrimRight(y, IsQuote) == TrimRight(x, IsQuote);
    assert TrimLeft(x, IsQuote) == x;
    assert TrimRight(x, IsQuote) == x;
  }

  /** Deduplication happens before normalisation: a directory given both bare and
      quoted is listed twice, with the same normalised text. */
  lemma QuotedDuplicate(raw: seq<string>, dirs: seq<string>, x: string)
    requires IncludeDirsOf(dirs, raw)
    requires x != [] && !IsQuote(x[0]) && !IsQuote(x[|x| - 1])
    requires x in raw && "\"" + x + "\"" in raw
    ensures exists i, j :: 0 <= i < j < |dirs| && dirs[i] == dirs[j] == NormalizePath(x)
  {
    var q := "\"" + x + "\"";
    QuotedSame(x);
    assert |q| == |x| + 2;
    SameNormalDuplicate(raw, dirs, x, q);
  }

  /** Two different raw captures with the same normalised text both survive
      deduplication, so that text is listed twice. */
  lemma SameNormalDuplicate(raw: seq<string>, dirs: seq<string>, a: string, b: string)
    requires IncludeDirsOf(dirs, raw)
    requires a in raw && b in raw && a != b && NormalizePath(a) == NormalizePath(b)
    ensures exists i, j :: 0 <= i < j < |dirs| && dirs[i] == dirs[j] == NormalizePath(a)
  {
    var order :| Enumerates(order, raw) && dirs == NormalizeAll(order);
    assert a in order && b in order;
    var v := NormalizePath(a);
    forall i | 0 <= i < |order| && (order[i] == a || order[i] == b) ensures dirs[i] == v {
      assert dirs[i] == NormalizePath(order[i]);
    }
    DuplicateImage(order, dirs, a, b, v);
  }

  /** Two different elements of `order` whose images in `dirs` are both `v`
      put `v` in `dirs` twice. */
  lemma DuplicateImage(order: seq<string>, dirs: seq<string>, a: string, b: string, v: string)
    requires |dirs| == |order| && a in order && b in order && a != b
    requires forall i :: 0 <= i < |order| && (order[i] == a || order[i] == b) ==> dirs[i] == v
    ensures exists i, j :: 0 <= i < j < |dirs| && dirs[i] == dirs[j] == v
  {
    var i :| 0 <= i < |order| && order[i] == a;
    var j :| 0 <= j < |order| && order[j] == b;
    if i < j {
      assert dirs[i] == dirs[j] == v;
    } else {
      assert dirs[j] == dirs[i] == v;
    }
  }

  // ---------------------------------------------------------------------------
  // `_extract_defines`

  predicate IsNameStart(ch: char) { IsLetter(ch) || ch == '_' }

  /** `flag([A-Za-z_]\w*)(?:=([^\s]*)?)?` at position `p`. The greedy optional
      `=` part is taken whenever `=` follows the name; an absent or empty value
      is `None`. */
  function DefineAt(c: string, p: nat, flag: string): (m: Option<((string, Option<string>), nat)>)
    ensures m.Some? ==> p < m.value.1 <= |c| && IsWord(m.value.0.0) && IsNameStart(m.value.0.0[0])
    ensures m.Some? ==> m.value.0.1 != Some("")
  {
    if p > |c| || !StartsWith(c[p..], flag) then None
    else
      var q := p + |flag|;
      if q >= |c| || !IsNameStart(c[q]) then None
      else
        NameRun(c, q);
        var e := RunEnd(c, q + 1, IsWordChar);
        if e < |c| && c[e] == '=' then
          var v := RunEnd(c, e + 1, NotSpace);
          Some(((c[q..e], if v == e + 1 then None else Some(c[e + 1..v])), v))
        else Some(((c[q..e], None), e))
  }

  /** A name start followed by the maximal `\w` run after it is a word. */
  lemma NameRun(c: string, q: nat)
    requires q < |c| && IsNameStart(c[q])
    ensures IsWord(c[q..RunEnd(c, q + 1, IsWordChar)])
  {
    var e := RunEnd(c, q + 1, IsWordChar);
    RunEndHolds(c, q + 1, IsWordChar);
    forall i | 0 <= i < e - q ensures IsWordChar(c[q..e][i]) {
      assert c[q..e][i] == c[q + i];
    }
  }

  /** The (name, value) pairs of one pass, in match order. */
  function DefineEntries(c: string, flag: string): (es: seq<(string, Option<string>)>)
    ensures forall i :: 0 <= i < |es| ==> IsWord(es[i].0) && es[i].1 != Some("")
  {
    DefinesFound(c, flag);
    Captures(FindAll(|c|, 0, DefineMatcher(c, flag)))
  }

  /** The define pattern as a matcher over positions of `c`. */
  function DefineMatcher(c: string, flag: string): nat -> Option<((string, Option<string>), nat)> {
    (p: nat) => DefineAt(c, p, flag)
  }

  lemma DefineProgress(c: string, flag: string)
    ensures Progresses(|c|, 0, DefineMatcher(c, flag))
  {
  }

  /** Every define match captures a word and never an empty value. */
  lemma DefinesFound(c: string, flag: string)
    ensures Progresses(|c|, 0, DefineMatcher(c, flag))
    ensures forall i :: 0 <= i < |FindAll(|c|, 0, DefineMatcher(c, flag))| ==>
      IsWord(FindAll(|c|, 0, DefineMatcher(c, flag))[i].value.0) &&
      FindAll(|c|, 0, DefineMatcher(c, flag))[i].value.1 != Some("")
  {
    DefineProgress(c, flag);
    var found := FindAll(|c|, 0, DefineMatcher(c, flag));
    FindAllMatches(|c|, 0, DefineMatcher(c, flag));
    forall i | 0 <= i < |found| ensures IsWord(found[i].value.0) && found[i].value.1 != Some("") {
      assert DefineMatcher(c, flag)(found[i].start) == DefineAt(c, found[i].start, flag);
    }
  }

  /** `re.finditer(define_pattern, c)` for one pass. */
  function DefineMatches(c: string, flag: string): seq<Found<(string, Option<string>)>>
  {
    DefineProgress(c, flag);
    FindAll(|c|, 0, DefineMatcher(c, flag))
  }

  /** `re.finditer` skips no define: every position where the define pattern
      matches starts or lies inside a returned match, and the pass's entries
      are the captures of those matches. */
  lemma DefinesComplete(c: string, flag: string)
    ensures DefineEntries(c, flag) == Captures(DefineMatches(c, flag))
    ensures forall p :: 0 <= p < |c| && DefineAt(c, p, flag).Some? ==>
      exists i ::
        0 <= i < |DefineMatches(c, flag)| &&
        DefineMatches(c, flag)[i].start <= p < DefineMatches(c, flag)[i].end
  {
    forall p | 0 <= p < |c| && DefineAt(c, p, flag).Some?
      ensures exists i ::
        0 <= i < |DefineMatches(c, flag)| &&
        DefineMatches(c, flag)[i].start <= p < DefineMatches(c, flag)[i].end
    {
      assert DefineMatcher(c, flag)(p) == DefineAt(c, p, flag);
      DefineProgress(c, flag);
      FindAllComplete(|c|, 0, DefineMatcher(c, flag), p);
      var r := FindAll(|c|, 0, DefineMatcher(c, flag));
      var i :| 0 <= i < |r| && r[i].start <= p < r[i].end;
      assert DefineMatches(c, flag) == r;
    }
  }

  /** The dict `_extract_defines` builds: the `/D` pass, then the `-D` pass. */
  function Defines(c: string): Dict<Option<string>>
  {
    PutAll(PutAll([], DefineEntries(c, "/D")), DefineEntries(c, "-D"))
  }

  /** `_extract_defines` */
  method ExtractDefines(command: string) returns (defines: Dict<Option<string>>)
    ensures defines == Defines(command)
  {
    defines := [];
    var msvc := DefineEntries(command, "/D");
    for i := 0 to |msvc|
      invariant defines == PutAll([], msvc[..i])
    {
      PutAllSnoc([], msvc, i);
      defines := Put(defines, msvc[i].0, msvc[i].1);
    }
    assert msvc[..|msvc|] == msvc;
    var gcc := DefineEntries(command, "-D");
    for i := 0 to |gcc|
      invariant defines == PutAll(PutAll([], msvc), gcc[..i])
    {
      PutAllSnoc(PutAll([], msvc), gcc, i);
      defines := Put(defines, gcc[i].0, gcc[i].1);
    }
    assert gcc[..|gcc|] == gcc;
  }

  /** A `-D` flag beats every `/D` flag for the same name, and within a pass the
      last flag for a name wins. */
  lemma DefinesPrecedence(c: string, k: string)
    ensures var m := ToMap(Defines(c));
      var msvc := DefineEntries(c, "/D");
      var gcc := DefineEntries(c, "-D");
      (k in m <==> k in Assignments(msvc) || k in Assignments(gcc)) &&
      (k in Assignments(gcc) ==> m[k] == Assignments(gcc)[k]) &&
      (k !in Assignments(gcc) && k in Assignments(msvc) ==> m[k] == Assignments(msvc)[k])
  {
    var msvc := DefineEntries(c, "/D");
    PutAllMap([], msvc);
    PutAllMap(PutAll([], msvc), DefineEntries(c, "-D"));
    assert ToMap<Option<string>>([]) == map[];
  }

  /** A flag with no `=`, or with `=` and nothing after it, defines its name as `None`;
      no name is ever defined as the empty string. */
  lemma DefinesNeverEmpty(c: string, k: string)
    requires k in ToMap(Defines(c))
    ensures ToMap(Defines(c))[k] != Some("")
  {
    var msvc := DefineEntries(c, "/D");
    var gcc := DefineEntries(c, "-D");
    DefinesPrecedence(c, k);
    if k in Assignments(gcc) {
      AssignmentsFrom(gcc, k);
    } else {
      AssignmentsFrom(msvc, k);
    }
  }

  // ---------------------------------------------------------------------------
  // language standards, optimisation and warnings

  /** `_extract_c_standard`: `c` and the digits of the first `-std=c<digits>`;
      failing that, when `/std:c` occurs, `c` and the word of the first `/std:c<word>`. */
  function CStandard(c: string): (r: Option<string>)
    ensures r.Some? ==> |r.value| >= 2 && r.value[0] == 'c' && IsWord(r.value[1..])
  {
    match FirstRun(c, "-std=c", IsDigit)
    case Some(digits) => Some("c" + digits)
    case None =>
      if Contains(c, "/std:c") then
        match FirstRun(c, "/std:c", IsWordChar)
        case Some(word) => Some("c" + word)
        case None => None
      else None
  }

  /** The first `-std=c<digits>` decides the C standard whenever there is one. */
  lemma CStandardFirstMatch(c: string, p: nat)
    requires p < |c| && FlagRunAt(c, p, "-std=c", IsDigit).Some?
    ensures exists q :: (0 <= q <= p && FlagRunAt(c, q, "-std=c", IsDigit).Some? &&
      CStandard(c) == Some("c" + FlagRunAt(c, q, "-std=c", IsDigit).value.0))
  {
    FirstRunSearch(c, "-std=c", IsDigit);
  }

  /** Without any `-std=c<digits>`, the MSVC spelling decides: the word after
      the first `/std:c` that has one, and no C standard when there is none. */
  lemma CStandardMsvc(c: string)
    ensures FirstRun(c, "-std=c", IsDigit).None? && FirstRun(c, "/std:c", IsWordChar).Some? ==>
      CStandard(c) == Some("c" + FirstRun(c, "/std:c", IsWordChar).value)
    ensures FirstRun(c, "-std=c", IsDigit).None? && FirstRun(c, "/std:c", IsWordChar).None? ==>
      CStandard(c) == None
  {
    FirstRunContains(c, "/std:c", IsWordChar);
  }

  /** A flag pattern that matches somewhere means the flag occurs in the text. */
  lemma FirstRunContains(c: string, flag: string, cls: char -> bool)
    ensures FirstRun(c, flag, cls).Some? ==> Contains(c, flag)
  {
    FirstRunSearch(c, flag, cls);
    if FirstRun(c, flag, cls).Some? {
      var p :| 0 <= p < |c| && FlagRunAt(c, p, flag, cls).Some?;
      FlagOccurs(c, p, flag, cls);
      ContainsIff(c, flag);
    }
  }

  /** A flag match at `p` starts with the flag itself. */
  lemma FlagOccurs(c: string, p: nat, flag: string, cls: char -> bool)
    requires FlagRunAt(c, p, flag, cls).Some?
    ensures OccursAt(c, flag, p)
  {
    assert c[p..][..|flag|] == c[p..p + |flag|];
  }

  /** A command whose every `-std=c` is followed by `+` (such as `-std=c++17`)
      and that has no `/std:c` yields no C standard. */
  lemma CStandardIgnoresCxx(c: string)
    requires forall p :: 0 <= p < |c| && StartsWith(c[p..], "-std=c") ==> p + 6 < |c| && c[p + 6] == '+'
    requires !Contains(c, "/std:c")
    ensures CStandard(c) == None
  {
    var flag := "-std=c";
    assert |flag| == 6;
    forall p | 0 <= p < |c| && StartsWith(c[p..], flag)
      ensures p + |flag| < |c| && !IsDigit(c[p + |flag|])
    {
    }
    NoRunAfterFlag(c, flag, IsDigit);
    assert CStandard(c) == None;
  }

  /** A flag that is never followed by a character of the class never matches. */
  lemma NoRunAfterFlag(c: string, flag: string, cls: char -> bool)
    requires forall p :: 0 <= p < |c| && StartsWith(c[p..], flag) ==> p + |flag| < |c| && !cls(c[p + |flag|])
    ensures FirstRun(c, flag, cls).None?
  {
    forall p | 0 <= p < |c| ensures FlagRunAt(c, p, flag, cls).None? {
      if StartsWith(c[p..], flag) {
        assert RunEnd(c, p + |flag|, cls) == p + |flag|;
      }
    }
    FirstRunSearch(c, flag, cls);
  }

  /** `_extract_cxx_standard`: `c++` and the digits after the first `-std:c++`,
      else after the first `-std=c++`, else after the first `/std:c++`. */
  function CxxStandard(c: string): (r: Option<string>)
    ensures r.Some? ==>
      (|r.value| > 3 && r.value[..3] == "c++" && forall i :: 3 <= i < |r.value| ==> IsDigit(r.value[i]))
  {
    match FirstRun(c, "-std:c++", IsDigit)
    case Some(d) => Some("c++" + d)
    case None =>
      match FirstRun(c, "-std=c++", IsDigit)
      case Some(d) => Some("c++" + d)
      case None =>
        match FirstRun(c, "/std:c++", IsDigit)
        case Some(d) => Some("c++" + d)
        case None => None
  }

  /** The three flag spellings are tried in priority order: the first that
      matches anywhere decides, and none matching means no C++ standard. */
  lemma CxxStandardPriority(c: string)
    ensures CxxStandard(c).None? <==>
      (forall p :: 0 <= p < |c| ==>
        FlagRunAt(c, p, "-std:c++", IsDigit).None? && FlagRunAt(c, p, "-std=c++", IsDigit).None? &&
        FlagRunAt(c, p, "/std:c++", IsDigit).None?)
    ensures FirstRun(c, "-std:c++", IsDigit).Some? ==> CxxStandard(c) == Some("c++" + FirstRun(c, "-std:c++", IsDigit).value)
    ensures FirstRun(c, "-std:c++", IsDigit).None? && FirstRun(c, "-std=c++", IsDigit).Some? ==>
      CxxStandard(c) == Some("c++" + FirstRun(c, "-std=c++", IsDigit).value)
    ensures
      FirstRun(c, "-std:c++", IsDigit).None? && FirstRun(c, "-std=c++", IsDigit).None? &&
      FirstRun(c, "/std:c++", IsDigit).Some? ==>
        CxxStandard(c) == Some("c++" + FirstRun(c, "/std:c++", IsDigit).value)
  {
    FirstRunSearch(c, "-std:c++", IsDigit);
    FirstRunSearch(c, "-std=c++", IsDigit);
    FirstRunSearch(c, "/std:c++", IsDigit);
  }

  const GccOptimizationFlags: seq<string> := ["-O3", "-O2", "-O1", "-O0", "-Os"]

  /** The first of `flags` that occurs in `c`. */
  function FirstContained(c: string, flags: seq<string>): (r: Option<string>)
    ensures r.Some? ==> r.value in flags && Contains(c, r.value)
    ensures r.Some? ==>
      exists i :: 0 <= i < |flags| && flags[i] == r.value && (forall j :: 0 <= j < i ==> !Contains(c, flags[j]))
    ensures r.None? <==> forall i :: 0 <= i < |flags| ==> !Contains(c, flags[i])
  {
    if flags == [] then None
    else if Contains(c, flags[0]) then Some(flags[0])
    else FirstContained(c, flags[1..])
  }

  /** `_extract_optimization`: MSVC `/Od`, `/Ox` or `/O2`, `/O1` first, then GCC
      `-O3`, `-O2`, `-O1`, `-O0`, `-Os`; `O2` when none occurs. */
  function Optimization(c: string): (r: string)
    ensures r in {"O0", "O1", "O2", "O3", "Os"}
    ensures Contains(c, "/Od") ==> r == "O0"
    ensures ((forall i :: 0 <= i < |GccOptimizationFlags| ==> !Contains(c, GccOptimizationFlags[i])) &&
             !Contains(c, "/Od") && !Contains(c, "/O1")) ==> r == "O2"
    ensures !Contains(c, "/Od") && (Contains(c, "/Ox") || Contains(c, "/O2")) ==> r == "O2"
    ensures !Contains(c, "/Od") && !Contains(c, "/Ox") && !Contains(c, "/O2") && Contains(c, "/O1") ==> r == "O1"
    ensures forall i ::
      (0 <= i < |GccOptimizationFlags| && Contains(c, GccOptimizationFlags[i]) &&
       (forall j :: 0 <= j < i ==> !Contains(c, GccOptimizationFlags[j])) &&
       !Contains(c, "/Od") && !Contains(c, "/Ox") && !Contains(c, "/O2") && !Contains(c, "/O1")) ==>
      r == GccOptimizationFlags[i][1..]
  {
    if Contains(c, "/Od") then "O0"
    else if Contains(c, "/Ox") || Contains(c, "/O2") then "O2"
    else if Contains(c, "/O1") then "O1"
    else match FirstContained(c, GccOptimizationFlags)
      case Some(flag) => flag[1..]
      case None => "O2"
  }

  /** Position of a warning name in the order `_extract_warnings` appends them. */
  function WarningRank(w: string): int {
    if w == "W3" then 0 else if w == "W4" then 1 else if w == "Wall" then 2 else 3
  }

  /** The four warning names have four different ranks, so they are different names. */
  lemma WarningRanks()
    ensures WarningRank("W3") == 0 && WarningRank("W4") == 1
    ensures WarningRank("Wall") == 2 && WarningRank("Wextra") == 3
  {
    assert "W4" != "W3" by { assert "W4"[1] != "W3"[1]; }
  }

  /** `w` is the warning list of command `c`: `W3` if `/W3` occurs, else `W4` if
      `/W4` occurs; then `Wall` and `Wextra`; nothing else, each at most once, in that order. */
  predicate WarningsFor(w: seq<string>, c: string) {
    (forall i :: 0 <= i < |w| ==> w[i] in {"W3", "W4", "Wall", "Wextra"}) &&
    ("W3" in w <==> Contains(c, "/W3")) &&
    ("W4" in w <==> Contains(c, "/W4") && !Contains(c, "/W3")) &&
    ("Wall" in w <==> Contains(c, "-Wall")) &&
    ("Wextra" in w <==> Contains(c, "-Wextra")) &&
    (forall i, j :: 0 <= i < j < |w| ==> WarningRank(w[i]) < WarningRank(w[j]))
  }

  /** `_extract_warnings` */
  method ExtractWarnings(command: string) returns (warnings: seq<string>)
    ensures WarningsFor(warnings, command)
    ensures |warnings| <= 3
  {
    WarningRanks();
    warnings := [];
    if Contains(command, "/W3") {
      warnings := warnings + ["W3"];
    } else if Contains(command, "/W4") {
      warnings := warnings + ["W4"];
    }
    if Contains(command, "-Wall") {
      warnings := warnings + ["Wall"];
    }
    if Contains(command, "-Wextra") {
      warnings := warnings + ["Wextra"];
    }
  }

  // ---------------------------------------------------------------------------
  // `_analyze_command` and the per-file table

  /** `cmd_entry.get("file", "")` */
  function FileOf(e: CommandEntry): string { e.file.GetOr("") }

  /** `info` is what `_analyze_command` may return for `e`. */
  ghost predicate AnalyzedFrom(info: CompileInfo, e: CommandEntry) {
    var command := e.command.GetOr("");
    info.file == FileOf(e) && info.directory == e.directory.GetOr("") && info.command == command &&
    IncludeDirsOf(info.includeDirs, RawIncludes(command)) && info.defines == Defines(command) &&
    info.cStandard == CStandard(command) && info.cxxStandard == CxxStandard(command) &&
    info.optimization == Optimization(command) && WarningsFor(info.warnings, command)
  }

  /** `_analyze_command`: a missing `file`, `directory` or `command` reads as empty. */
  method AnalyzeCommand(e: CommandEntry) returns (info: CompileInfo)
    ensures AnalyzedFrom(info, e)
  {
    var command := e.command.GetOr("");
    var includeDirs := ExtractIncludes(command);
    var defines := ExtractDefines(command);
    var warnings := ExtractWarnings(command);
    info := CompileInfo(FileOf(e), e.directory.GetOr(""), command, includeDirs, defines,
                        CStandard(command), CxxStandard(command), Optimization(command), warnings);
  }

  /** `cmds[i]` names a file and is the last entry for that file. */
  predicate LastFor(cmds: seq<CommandEntry>, i: nat) {
    i < |cmds| && FileOf(cmds[i]) != "" && forall j :: i < j < |cmds| ==> FileOf(cmds[j]) != FileOf(cmds[i])
  }

  /** The key order of the table after offering the files of `cmds` to keys `ks`:
      empty files are skipped, a new file goes last, a known file keeps its place. */
  function KeysAfter(ks: seq<string>, cmds: seq<CommandEntry>): seq<string>
  {
    if cmds == [] then ks
    else
      var before := KeysAfter(ks, cmds[..|cmds| - 1]);
      var f := FileOf(cmds[|cmds| - 1]);
      if f == "" || f in before then before else before + [f]
  }

  /** The union of the include directories of all table entries. */
  function IncludeUnion(infos: seq<CompileInfo>): (r: set<string>)
    ensures forall x :: x in r <==> exists i :: 0 <= i < |infos| && x in infos[i].includeDirs
  {
    if infos == [] then {}
    else
      var dirs := infos[|infos| - 1].includeDirs;
      var r := IncludeUnion(infos[..|infos| - 1]) + set j | 0 <= j < |dirs| :: dirs[j];
      assert forall i :: 0 <= i < |infos| - 1 ==> infos[..|infos| - 1][i] == infos[i];
      r
  }

  /** `all_defines.update(info.defines)` over the table entries in order. */
  function MergedDefines(infos: seq<CompileInfo>): Dict<Option<string>>
  {
    if infos == [] then [] else PutAll(MergedDefines(infos[..|infos| - 1]), infos[|infos| - 1].defines)
  }

  /** A macro is in the merged defines exactly when some entry defines it. */
  lemma {:induction false} MergedDefinesKeys(infos: seq<CompileInfo>, k: string)
    ensures k in ToMap(MergedDefines(infos)) <==> exists i :: 0 <= i < |infos| && k in Assignments(infos[i].defines)
    decreases |infos|
  {
    if infos != [] {
      var p := infos[..|infos| - 1];
      MergedDefinesKeys(p, k);
      PutAllMap(MergedDefines(p), infos[|infos| - 1].defines);
      assert forall i :: 0 <= i < |p| ==> p[i] == infos[i];
    } else {
      assert ToMap<Option<string>>([]) == map[];
    }
  }

  /** A macro ends up with the value of the last entry that defines it. */
  lemma {:induction false} MergedDefinesLastWins(infos: seq<CompileInfo>, k: string, i: nat)
    requires i < |infos| && k in Assignments(infos[i].defines)
    requires forall j :: i < j < |infos| ==> k !in Assignments(infos[j].defines)
    ensures k in ToMap(MergedDefines(infos))
    ensures ToMap(MergedDefines(infos))[k] == Assignments(infos[i].defines)[k]
    decreases |infos|
  {
    var p := infos[..|infos| - 1];
    PutAllMap(MergedDefines(p), infos[|infos| - 1].defines);
    if i < |infos| - 1 {
      assert p[i] == infos[i];
      MergedDefinesLastWins(p, k, i);
    }
  }

  /** `CompileCommandsAnalyzer` over an already loaded entry list. */
  class Analyzer {
    var commands: seq<CommandEntry>
    var compileInfo: Dict<CompileInfo>

    /** Keys are distinct and each entry is stored under its own file. */
    ghost predicate Valid()
      reads this
    {
      DistinctKeys(compileInfo) && forall i :: 0 <= i < |compileInfo| ==> compileInfo[i].1.file == compileInfo[i].0
    }

    /** The table starts empty; loading the JSON file is not modelled. */
    constructor (commands: seq<CommandEntry>)
      ensures this.commands == commands && compileInfo == [] && Valid()
    {
      this.commands := commands;
      compileInfo := [];
    }

    /** One iteration of `analyze_all`: an entry with a file is analysed and
        stored under that file (replacing any earlier value, a new file going
        last); an entry without one changes nothing. `info` is the analysis. */
    method AnalyzeEntry(e: CommandEntry) returns (ghost info: Option<CompileInfo>)
      requires Valid()
      modifies this
      ensures Valid() && commands == old(commands)
      ensures AnalysisOf(info, e)
      ensures compileInfo == if info.Some? then Put(old(compileInfo), FileOf(e), info.value) else old(compileInfo)
    {
      var file := FileOf(e);
      if file != "" {
        var analysis := AnalyzeCommand(e);
        PutDistinct(compileInfo, file, analysis);
        StoredUnderOwnFile(compileInfo, file, analysis);
        compileInfo := Put(compileInfo, file, analysis);
        info := Some(analysis);
      } else {
        info := None;
      }
    }

    /** `analyze_all`: every entry with a non-empty file is analysed and stored
        under that file; a later entry for the same file replaces an earlier one,
        a new file goes last, and files no entry names keep their value. */
    method AnalyzeAll()
      requires Valid()
      modifies this
      ensures Valid() && commands == old(commands)
      ensures AnalyzedTable(compileInfo, old(compileInfo), commands)
    {
      ghost var infos: seq<Option<CompileInfo>> := [];
      for n := 0 to |commands|
        invariant Valid() && commands == old(commands)
        invariant AnalysesOf(commands[..n], infos)
        invariant compileInfo == TableOf(old(compileInfo), commands[..n], infos)
      {
        ghost var info := AnalyzeEntry(commands[n]);
        PrefixSnoc(commands, n);
        TableSnoc(old(compileInfo), commands[..n], infos, commands[n], info);
        infos := infos + [info];
      }
      PrefixAll(commands);
      TableOfAnalyzed(old(compileInfo), commands[..|commands|], infos);
    }

    /** `get_source_files`: the distinct files of the table, sorted. */
    function SourceFiles(): (r: seq<string>)
      reads this
      ensures StrictlySorted(r)
      ensures forall x :: x in r <==> exists i :: 0 <= i < |compileInfo| && compileInfo[i].1.file == x
    {
      SortedList(set i | 0 <= i < |compileInfo| :: compileInfo[i].1.file)
    }

    /** `get_all_includes` */
    function AllIncludes(): (r: set<string>)
      reads this
      ensures forall x :: x in r <==> exists i :: 0 <= i < |compileInfo| && x in compileInfo[i].1.includeDirs
    {
      IncludeUnion(Values(compileInfo))
    }

    /** `get_all_defines`: the entries' defines merged in table order. */
    method AllDefines() returns (allDefines: Dict<Option<string>>)
      ensures allDefines == MergedDefines(Values(compileInfo))
    {
      var infos := Values(compileInfo);
      allDefines := [];
      for i := 0 to |infos|
        invariant allDefines == MergedDefines(infos[..i])
      {
        assert infos[..i + 1][..i] == infos[..i];
        allDefines := Update(allDefines, infos[i].defines);
      }
      assert infos[..|infos|] == infos;
    }

    /** `get_compile_info` */
    function GetCompileInfo(file: string): (r: Option<CompileInfo>)
      reads this
      requires Valid()
      ensures r.Some? <==> file in ToMap(compileInfo)
      ensures r.Some? ==> r.value == ToMap(compileInfo)[file] && r.value.file == file
    {
      ToMapKeys(compileInfo, file);
      if file in ToMap(compileInfo) then
        var i :| 0 <= i < |compileInfo| && compileInfo[i].0 == file;
        ToMapAt(compileInfo, i);
        Some(ToMap(compileInfo)[file])
      else None
    }
  }

  /** The prefix one longer is the prefix with the next element appended. */
  lemma PrefixSnoc<T>(s: seq<T>, n: nat)
    requires n < |s|
    ensures s[..n + 1] == s[..n] + [s[n]] && (s[..n] + [s[n]])[..n] == s[..n]
  {
  }

  /** Appending one element keeps the sequence as the prefix before it. */
  lemma SnocPrefix<T>(s: seq<T>, x: T)
    ensures (s + [x])[..|s|] == s && (s + [x])[|s|] == x
  {
  }

  /** One more iteration of `analyze_all`: its analysis is recorded and, when
      it names a file, stored under that file. */
  lemma TableSnoc(d0: Dict<CompileInfo>, cmds: seq<CommandEntry>, infos: seq<Option<CompileInfo>>,
                  e: CommandEntry, info: Option<CompileInfo>)
    requires AnalysesOf(cmds, infos) && AnalysisOf(info, e)
    ensures AnalysesOf(cmds + [e], infos + [info])
    ensures TableOf(d0, cmds + [e], infos + [info]) ==
      if info.Some? then Put(TableOf(d0, cmds, infos), FileOf(e), info.value) else TableOf(d0, cmds, infos)
  {
    SnocPrefix(cmds, e);
    SnocPrefix(infos, info);
  }

  /** The whole prefix is the sequence. */
  lemma PrefixAll<T>(s: seq<T>)
    ensures s[..|s|] == s
  {
  }

  /** `info` is what one iteration of `analyze_all` produces for `e`: nothing for
      an entry without a file, otherwise an analysis of the entry. */
  ghost predicate AnalysisOf(info: Option<CompileInfo>, e: CommandEntry) {
    (info.Some? <==> FileOf(e) != "") && (info.Some? ==> AnalyzedFrom(info.value, e))
  }

  /** `infos[i]` is what one iteration produces for `cmds[i]`, for every `i`. */
  ghost predicate AnalysesOf(cmds: seq<CommandEntry>, infos: seq<Option<CompileInfo>>)
    decreases |cmds|
  {
    |infos| == |cmds| &&
    (cmds != [] ==>
      AnalysesOf(cmds[..|cmds| - 1], infos[..|infos| - 1]) && AnalysisOf(infos[|infos| - 1], cmds[|cmds| - 1]))
  }

  lemma {:induction false} AnalysesAt(cmds: seq<CommandEntry>, infos: seq<Option<CompileInfo>>, i: nat)
    requires AnalysesOf(cmds, infos) && i < |cmds|
    ensures AnalysisOf(infos[i], cmds[i])
    decreases |cmds|
  {
    if i < |cmds| - 1 {
      AnalysesAt(cmds[..|cmds| - 1], infos[..|infos| - 1], i);
    }
  }

  /** `infos[i]` is present exactly for the entries that name a file. */
  ghost predicate Labelled(cmds: seq<CommandEntry>, infos: seq<Option<CompileInfo>>) {
    |infos| == |cmds| && forall i :: 0 <= i < |cmds| ==> (infos[i].Some? <==> FileOf(cmds[i]) != "")
  }

  /** The table `analyze_all` builds from `d0` when the analyses of `cmds` are `infos`. */
  ghost function TableOf(d0: Dict<CompileInfo>, cmds: seq<CommandEntry>, infos: seq<Option<CompileInfo>>): Dict<CompileInfo>
    requires |infos| == |cmds|
  {
    if cmds == [] then d0
    else
      var d := TableOf(d0, cmds[..|cmds| - 1], infos[..|infos| - 1]);
      var f := FileOf(cmds[|cmds| - 1]);
      if f == "" || infos[|infos| - 1].None? then d else Put(d, f, infos[|infos| - 1].value)
  }

  /** The table built by `analyze_all` has the key order, values and untouched
      entries `TableAfter` describes. */
  lemma {:induction false} TableOfAfter(d0: Dict<CompileInfo>, cmds: seq<CommandEntry>, infos: seq<Option<CompileInfo>>)
    requires Labelled(cmds, infos)
    ensures TableAfter(TableOf(d0, cmds, infos), d0, cmds, infos)
    decreases |cmds|
  {
    if cmds != [] {
      var c := cmds[..|cmds| - 1];
      var ins := infos[..|infos| - 1];
      var e := cmds[|cmds| - 1];
      assert Labelled(c, ins);
      TableOfAfter(d0, c, ins);
      assert cmds == c + [e] && infos == ins + [infos[|infos| - 1]];
      if FileOf(e) == "" {
        TableSkip(TableOf(d0, c, ins), d0, c, ins, e);
      } else {
        TableStep(TableOf(d0, c, ins), d0, c, ins, e, infos[|infos| - 1].value);
      }
    }
  }

  /** When every stored analysis is an analysis of its entry, the table built by
      `analyze_all` has the key order `KeysAfter` gives, holds for each file the
      analysis of its last entry, and keeps the files no entry names. */
  lemma TableOfAnalyzed(d0: Dict<CompileInfo>, cmds: seq<CommandEntry>, infos: seq<Option<CompileInfo>>)
    requires AnalysesOf(cmds, infos)
    ensures AnalyzedTable(TableOf(d0, cmds, infos), d0, cmds)
  {
    forall i | 0 <= i < |cmds| ensures AnalysisOf(infos[i], cmds[i]) {
      AnalysesAt(cmds, infos, i);
    }
    TableOfAfter(d0, cmds, infos);
    var d := TableOf(d0, cmds, infos);
    forall i: nat | LastFor(cmds, i)
      ensures FileOf(cmds[i]) in ToMap(d) && AnalyzedFrom(ToMap(d)[FileOf(cmds[i])], cmds[i])
    {
      assert ToMap(d)[FileOf(cmds[i])] == infos[i].value;
    }
  }

  /** `d` is what `analyze_all` leaves when it starts from table `d0`: the key
      order `KeysAfter` gives, for each file the analysis of its last entry, and
      the old value of every file no entry names. */
  ghost predicate AnalyzedTable(d: Dict<CompileInfo>, d0: Dict<CompileInfo>, cmds: seq<CommandEntry>) {
    Keys(d) == KeysAfter(Keys(d0), cmds) &&
    (forall i: nat :: LastFor(cmds, i) ==>
      FileOf(cmds[i]) in ToMap(d) && AnalyzedFrom(ToMap(d)[FileOf(cmds[i])], cmds[i])) &&
    (forall k :: k in ToMap(d0) && (forall i :: 0 <= i < |cmds| ==> FileOf(cmds[i]) != k) ==>
      k in ToMap(d) && ToMap(d)[k] == ToMap(d0)[k])
  }

  /** `d` is the table after `analyze_all` has processed `cmds` starting from
      table `d0`, where `infos[i]` is the analysis of `cmds[i]` (`None` for an
      entry without a file): the keys are `d0`'s followed by the new files in
      first-seen order, the last entry for each file is the one stored, and
      files no entry names keep their old value. */
  ghost predicate TableAfter(d: Dict<CompileInfo>, d0: Dict<CompileInfo>, cmds: seq<CommandEntry>,
                             infos: seq<Option<CompileInfo>>) {
    |infos| == |cmds| &&
    (forall i :: 0 <= i < |cmds| ==> (infos[i].Some? <==> FileOf(cmds[i]) != "")) &&
    Keys(d) == KeysAfter(Keys(d0), cmds) &&
    (forall i: nat :: LastFor(cmds, i) ==> FileOf(cmds[i]) in ToMap(d) && Some(ToMap(d)[FileOf(cmds[i])]) == infos[i]) &&
    (forall k :: k in ToMap(d0) && (forall i :: 0 <= i < |cmds| ==> FileOf(cmds[i]) != k) ==>
      k in ToMap(d) && ToMap(d)[k] == ToMap(d0)[k])
  }

  /** An entry with a file is analysed and stored under it. */
  lemma TableStep(d: Dict<CompileInfo>, d0: Dict<CompileInfo>, cmds: seq<CommandEntry>,
                  infos: seq<Option<CompileInfo>>, e: CommandEntry, info: CompileInfo)
    requires TableAfter(d, d0, cmds, infos) && FileOf(e) != ""
    ensures TableAfter(Put(d, FileOf(e), info), d0, cmds + [e], infos + [Some(info)])
  {
    var cs := cmds + [e];
    var ins := infos + [Some(info)];
    forall i | 0 <= i < |cs| ensures ins[i].Some? <==> FileOf(cs[i]) != "" {
      if i < |cmds| {
        assert cs[i] == cmds[i] && ins[i] == infos[i];
      }
    }
    TableStepKeys(d, d0, cmds, e, info);
    TableStepLast(d, cmds, infos, e, info);
    TableStepKept(d, d0, cmds, e, info);
  }

  /** A new file goes last in the key order; a known one keeps its place. */
  lemma TableStepKeys(d: Dict<CompileInfo>, d0: Dict<CompileInfo>, cmds: seq<CommandEntry>,
                      e: CommandEntry, info: CompileInfo)
    requires Keys(d) == KeysAfter(Keys(d0), cmds) && FileOf(e) != ""
    ensures Keys(Put(d, FileOf(e), info)) == KeysAfter(Keys(d0), cmds + [e])
  {
    assert (cmds + [e])[..|cmds|] == cmds;
    PutKeys(d, FileOf(e), info);
  }

  /** After storing `info` under the file of `e`, each last entry's analysis is the stored one. */
  lemma TableStepLast(d: Dict<CompileInfo>, cmds: seq<CommandEntry>,
                      infos: seq<Option<CompileInfo>>, e: CommandEntry, info: CompileInfo)
    requires |infos| == |cmds| && FileOf(e) != ""
    requires forall i: nat :: LastFor(cmds, i) ==> FileOf(cmds[i]) in ToMap(d) && Some(ToMap(d)[FileOf(cmds[i])]) == infos[i]
    ensures forall i: nat :: LastFor(cmds + [e], i) ==>
      FileOf((cmds + [e])[i]) in ToMap(Put(d, FileOf(e), info)) &&
      Some(ToMap(Put(d, FileOf(e), info))[FileOf((cmds + [e])[i])]) == (infos + [Some(info)])[i]
  {
    var f := FileOf(e);
    var r := Put(d, f, info);
    var cs := cmds + [e];
    var ins := infos + [Some(info)];
    forall i: nat | LastFor(cs, i)
      ensures FileOf(cs[i]) in ToMap(r) && Some(ToMap(r)[FileOf(cs[i])]) == ins[i]
    {
      if i < |cmds| {
        assert cs[i] == cmds[i] && ins[i] == infos[i];
        assert FileOf(cmds[i]) != f by {
          assert cs[|cmds|] == e;
        }
        forall j | i < j < |cmds| ensures FileOf(cmds[j]) != FileOf(cmds[i]) {
          assert cs[j] == cmds[j];
        }
        assert LastFor(cmds, i);
      } else {
        assert cs[i] == e && ins[i] == Some(info);
      }
    }
  }

  /** Storing under the file of `e` keeps every file no entry of `cmds + [e]` names. */
  lemma TableStepKept(d: Dict<CompileInfo>, d0: Dict<CompileInfo>, cmds: seq<CommandEntry>,
                      e: CommandEntry, info: CompileInfo)
    requires forall k :: k in ToMap(d0) && (forall i :: 0 <= i < |cmds| ==> FileOf(cmds[i]) != k) ==>
      k in ToMap(d) && ToMap(d)[k] == ToMap(d0)[k]
    ensures forall k :: k in ToMap(d0) && (forall i :: 0 <= i < |cmds + [e]| ==> FileOf((cmds + [e])[i]) != k) ==>
      k in ToMap(Put(d, FileOf(e), info)) && ToMap(Put(d, FileOf(e), info))[k] == ToMap(d0)[k]
  {
    var cs := cmds + [e];
    forall k | k in ToMap(d0) && (forall i :: 0 <= i < |cs| ==> FileOf(cs[i]) != k)
      ensures k in ToMap(Put(d, FileOf(e), info)) && ToMap(Put(d, FileOf(e), info))[k] == ToMap(d0)[k]
    {
      assert FileOf(cs[|cmds|]) != k;
      assert forall i :: 0 <= i < |cmds| ==> FileOf(cmds[i]) == FileOf(cs[i]);
    }
  }

  /** An entry without a file changes nothing. */
  lemma TableSkip(d: Dict<CompileInfo>, d0: Dict<CompileInfo>, cmds: seq<CommandEntry>,
                  infos: seq<Option<CompileInfo>>, e: CommandEntry)
    requires TableAfter(d, d0, cmds, infos) && FileOf(e) == ""
    ensures TableAfter(d, d0, cmds + [e], infos + [None])
  {
    var cs := cmds + [e];
    var ins := infos + [None];
    assert cs[..|cmds|] == cmds;
    forall i: nat | LastFor(cs, i)
      ensures FileOf(cs[i]) in ToMap(d) && Some(ToMap(d)[FileOf(cs[i])]) == ins[i]
    {
      assert LastFor(cmds, i);
    }
    forall k | k in ToMap(d0) && (forall i :: 0 <= i < |cs| ==> FileOf(cs[i]) != k)
      ensures k in ToMap(d) && ToMap(d)[k] == ToMap(d0)[k]
    {
      assert forall i :: 0 <= i < |cmds| ==> FileOf(cmds[i]) == FileOf(cs[i]);
    }
  }

  /** Storing an entry under its own file keeps every entry under its own file. */
  lemma StoredUnderOwnFile(d: Dict<CompileInfo>, file: string, info: CompileInfo)
    requires forall i :: 0 <= i < |d| ==> d[i].1.file == d[i].0
    requires info.file == file
    ensures forall i :: 0 <= i < |Put(d, file, info)| ==> Put(d, file, info)[i].1.file == Put(d, file, info)[i].0
  {
    var r := Put(d, file, info);
    PutKeys(d, file, info);
    forall i | 0 <= i < |r| ensures r[i].1.file == r[i].0 {
      PutEntry(d, file, info, i);
    }
  }
}
