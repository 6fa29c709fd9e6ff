/**
  The template test generator of `tools/gtest_generator.py`: from one
  function's facts it renders a gtest file (include lines, a mock section, a
  fixture class and three test cases) and, separately, a header of mock
  classes. Parameter and return types are dispatched by substring tests in a
  fixed order, the first matching rule winning.
 */
module GtestGenerator {
  import opened Text
  import opened Sorting
  import opened CCodeAnalyzer

  // ---------------------------------------------------------------------------
  // `_generate_includes`

  /** The header derived from a source path: every `.c` becomes `.h`, and when
      the path mentions `src` anywhere, every `src/` is then removed. */
  function HeaderName(sourceFile: string): string {
    var h := ReplaceAll(sourceFile, ".c", ".h");
    if Contains(sourceFile, "src") then ReplaceAll(h, "src/", "") else h
  }

  function IncludeDirective(name: string): string { "#include \"" + name + "\"" }

  /** The include lines as a set: the derived header and every include file. */
  function IncludeSet(f: FunctionDependency): set<string> {
    {IncludeDirective(HeaderName(f.sourceFile))} + Directives(f.includeFiles)
  }

  /** The include block: the include lines sorted and joined by newlines. */
  function Includes(f: FunctionDependency): string {
    Join(SortedList(IncludeSet(f)), "\n")
  }

  /** `_generate_includes`: the set grows by one line per include file. */
  method GenerateIncludes(f: FunctionDependency) returns (text: string)
    ensures text == Includes(f)
  {
    var header := IncludeDirective(HeaderName(f.sourceFile));
    var includes := {header};
    var rest := f.includeFiles;
    ghost var done: set<string> := {};
    while rest != {}
      invariant rest + done == f.includeFiles && rest !! done
      invariant includes == {header} + Directives(done)
      decreases |rest|
    {
      var inc :| inc in rest;
      DirectivesAdd(done, inc);
      includes := includes + {IncludeDirective(inc)};
      rest := rest - {inc};
      done := done + {inc};
    }
    text := Join(SortedList(includes), "\n");
  }

  function Directives(incs: set<string>): set<string> {
    set inc | inc in incs :: IncludeDirective(inc)
  }

  lemma DirectivesAdd(incs: set<string>, inc: string)
    ensures Directives(incs + {inc}) == Directives(incs) + {IncludeDirective(inc)}
  {
  }

  /** An include line has a newline only if its name has one. */
  lemma DirectiveOneLine(name: string)
    requires '\n' !in name
    ensures '\n' !in IncludeDirective(name)
  {
    NoSepConcat("#include \"", name, '\n');
    NoSepConcat("#include \"" + name, "\"", '\n');
  }

  /** The include block is one line per distinct include, in strictly
      ascending order: the derived header's line and one line per include
      file, and nothing else. */
  lemma IncludesLines(f: FunctionDependency)
    requires '\n' !in f.sourceFile
    requires forall inc :: inc in f.includeFiles ==> '\n' !in inc
    ensures StrictlySorted(Split(Includes(f), '\n'))
    ensures IncludeDirective(HeaderName(f.sourceFile)) in Split(Includes(f), '\n')
    ensures forall inc :: inc in f.includeFiles ==> IncludeDirective(inc) in Split(Includes(f), '\n')
    ensures forall line :: line in Split(Includes(f), '\n') ==>
      line == IncludeDirective(HeaderName(f.sourceFile)) || exists inc :: inc in f.includeFiles && line == IncludeDirective(inc)
  {
    var header := HeaderName(f.sourceFile);
    var lines := SortedList(IncludeSet(f));
    ReplaceKeepsOut(f.sourceFile, ".c", ".h", '\n');
    ReplaceKeepsOut(ReplaceAll(f.sourceFile, ".c", ".h"), "src/", "", '\n');
    DirectiveOneLine(header);
    forall i | 0 <= i < |lines| ensures '\n' !in lines[i] {
      assert lines[i] in IncludeSet(f);
      if lines[i] != IncludeDirective(header) {
        var inc :| inc in f.includeFiles && lines[i] == IncludeDirective(inc);
        DirectiveOneLine(inc);
      }
    }
    assert IncludeDirective(header) in IncludeSet(f);
    assert "\n" == ['\n'];
    SplitJoin(lines, '\n');
    forall inc | inc in f.includeFiles ensures IncludeDirective(inc) in lines {
      assert IncludeDirective(inc) in IncludeSet(f);
    }
  }

  /** The first character of a replaced text can be `c` only if the text
      itself starts with `c`. */
  lemma DotCFirst(t: string)
    requires ReplaceAll(t, ".c", ".h") != [] && ReplaceAll(t, ".c", ".h")[0] == 'c'
    ensures t != [] && t[0] == 'c'
  {
  }

  /** Replacing `.c` by `.h` leaves no `.c` behind. */
  lemma {:induction false} DotCReplaced(s: string)
    ensures !Contains(ReplaceAll(s, ".c", ".h"), ".c")
    decreases |s|
  {
    var r := ReplaceAll(s, ".c", ".h");
    if |s| < 2 {
      ShortNotContains(s, ".c");
    } else if s[..2] == ".c" {
      var t := ReplaceAll(s[2..], ".c", ".h");
      DotCReplaced(s[2..]);
      assert r == ".h" + t;
      assert r[1..] == "h" + t;
      assert r[1..][1..] == t;
      assert !StartsWith(r, ".c") by { assert r[1] == 'h'; }
      assert !StartsWith(r[1..], ".c") by { assert r[1..][0] == 'h'; }
      assert !Contains(r[1..], ".c");
    } else {
      var t := ReplaceAll(s[1..], ".c", ".h");
      DotCReplaced(s[1..]);
      assert r == [s[0]] + t;
      assert r[1..] == t;
      if t != [] && t[0] == 'c' {
        DotCFirst(s[1..]);
        assert s[..2] == [s[0], s[1]];
        assert s[0] != '.';
      }
      assert !StartsWith(r, ".c");
    }
  }

  /** For a path without `src`, the derived header keeps no `.c`; a path with
      neither `.c` nor `src` is its own header name. */
  lemma HeaderNameOf(sourceFile: string)
    requires !Contains(sourceFile, "src")
    ensures !Contains(HeaderName(sourceFile), ".c")
    ensures !Contains(sourceFile, ".c") ==> HeaderName(sourceFile) == sourceFile
  {
    DotCReplaced(sourceFile);
    if !Contains(sourceFile, ".c") {
      ReplaceAbsent(sourceFile, ".c", ".h");
    }
  }

  // ---------------------------------------------------------------------------
  // `_generate_mock_defines`

  const NoMocks := "// No external function calls to mock\n\n"
  const MockBanner := "\n/* ========== MOCK DEFINITIONS - MODIFY HERE ========== */\n\n"
  const MockFooter := "/* ================================================= */\n\n"

  /** The comment pair for one external call. */
  function MockEntry(call: string): string {
    "// Mock definition for: " + call + "\n" + ("// #define MOCK_" + call + "_RETURN_VALUE  [default_value]\n\n")
  }

  function MockDefines(calls: set<string>): string {
    if calls == {} then NoMocks
    else MockBanner + ConcatMap(SortedList(calls), MockEntry) + MockFooter
  }

  /** `_generate_mock_defines`: the section grows by two comment lines per
      call, in sorted order. */
  method GenerateMockDefines(externalCalls: set<string>) returns (section: string)
    ensures section == MockDefines(externalCalls)
  {
    if externalCalls == {} {
      return NoMocks;
    }
    section := MockBanner;
    var start := section;
    var calls := SortedList(externalCalls);
    for i := 0 to |calls|
      invariant section == start + ConcatMap(calls[..i], MockEntry)
    {
      ConcatMapSnoc(calls, i, MockEntry);
      Assoc(start, ConcatMap(calls[..i], MockEntry), MockEntry(calls[i]));
      var before := section;
      section := section + ("// Mock definition for: " + calls[i] + "\n");
      section := section + ("// #define MOCK_" + calls[i] + "_RETURN_VALUE  [default_value]\n\n");
      Assoc(before, "// Mock definition for: " + calls[i] + "\n",
        "// #define MOCK_" + calls[i] + "_RETURN_VALUE  [default_value]\n\n");
    }
    assert calls[..|calls|] == calls;
    section := section + MockFooter;
  }

  /** The banner alone is longer than the placeholder. */
  lemma MockBannerLonger()
    ensures |MockBanner| > |NoMocks|
  {
  }

  /** The mock section is the fixed placeholder exactly when there are no
      external calls; otherwise it sits between the two banners and holds the
      comment pair of every call. */
  lemma MockDefinesShape(calls: set<string>)
    ensures calls == {} <==> MockDefines(calls) == NoMocks
    ensures calls != {} ==> StartsWith(MockDefines(calls), MockBanner) && EndsWith(MockDefines(calls), MockFooter)
    ensures forall c :: c in calls ==> Contains(MockDefines(calls), MockEntry(c))
  {
    if calls != {} {
      var sorted := SortedList(calls);
      var body := ConcatMap(sorted, MockEntry);
      StartsWithConcat(MockBanner, body + MockFooter);
      Assoc(MockBanner, body, MockFooter);
      EndsWithConcat(MockBanner + body, MockFooter);
      MockBannerLonger();
      forall c | c in calls ensures Contains(MockDefines(calls), MockEntry(c)) {
        var i :| 0 <= i < |sorted| && sorted[i] == c;
        ConcatMapContains(sorted, i, MockEntry);
        ContainsWithin(MockBanner, body, MockFooter, MockEntry(c));
      }
    }
  }

  // ---------------------------------------------------------------------------
  // Type dispatch shared by the call arguments and the arrange lines

  predicate StringType(t: string) { Contains(t, "char*") || Contains(t, "const char*") }

  predicate IntType(t: string) { Contains(t, "int") || Contains(t, "int32_t") }

  predicate FloatType(t: string) { Contains(t, "float") || Contains(t, "double") }

  /** The second test of each pair is subsumed by the first. */
  lemma LongerTestsRedundant(t: string)
    ensures StringType(t) <==> Contains(t, "char*")
    ensures IntType(t) <==> Contains(t, "int")
  {
    assert OccursAt("const char*", "char*", 6);
    ContainsIff("const char*", "char*");
    if Contains(t, "const char*") {
      ContainsTrans(t, "const char*", "char*");
    }
    assert StartsWith("int32_t", "int");
    if Contains(t, "int32_t") {
      ContainsTrans(t, "int32_t", "int");
    }
  }

  // ---------------------------------------------------------------------------
  // `_generate_call_params`

  /** The argument passed for one parameter: the first rule that matches. */
  function Argument(p: Param): string {
    if StringType(p.ptype) then "\"test_value\""
    else if IntType(p.ptype) then "1"
    else if FloatType(p.ptype) then "1.0f"
    else if Contains(p.ptype, "*") then "&" + p.name + "_var"
    else "0"
  }

  function Arguments(ps: seq<Param>): (args: seq<string>)
    ensures |args| == |ps|
  {
    seq(|ps|, i requires 0 <= i < |ps| => Argument(ps[i]))
  }

  function CallParams(ps: seq<Param>): string {
    Join(Arguments(ps), ", ")
  }

  /** `_generate_call_params`: one argument appended per parameter, then
      joined by commas. */
  method GenerateCallParams(ps: seq<Param>) returns (text: string)
    ensures text == CallParams(ps)
  {
    if ps == [] {
      return "";
    }
    var params: seq<string> := [];
    for i := 0 to |ps|
      invariant params == Arguments(ps)[..i]
    {
      params := params + [Argument(ps[i])];
    }
    assert params == Arguments(ps);
    text := Join(params, ", ");
  }

  /** Each argument kind marks exactly the parameters its rule is the first
      to match: a string gets `"test_value"`, an integer `1`, a floating
      type `1.0f`, another pointer the address of its `_var`, and anything
      else `0`. No parameters give no arguments. */
  lemma ArgumentRules(p: Param)
    ensures Argument(p) == "\"test_value\"" <==> Contains(p.ptype, "char*")
    ensures Argument(p) == "1" <==> !Contains(p.ptype, "char*") && Contains(p.ptype, "int")
    ensures Argument(p) == "1.0f" <==> !StringType(p.ptype) && !IntType(p.ptype) && FloatType(p.ptype)
    ensures Argument(p) == "&" + p.name + "_var" <==>
      !StringType(p.ptype) && !IntType(p.ptype) && !FloatType(p.ptype) && Contains(p.ptype, "*")
    ensures Argument(p) == "0" <==>
      !StringType(p.ptype) && !IntType(p.ptype) && !FloatType(p.ptype) && !Contains(p.ptype, "*")
    ensures CallParams([]) == ""
  {
    LongerTestsRedundant(p.ptype);
    var addr := "&" + p.name + "_var";
    assert addr[0] == '&';
    assert "\"test_value\""[0] == '"' && "1"[0] == '1' && "1.0f"[0] == '1' && "0"[0] == '0';
    assert |"1"| != |"1.0f"|;
  }

  // ---------------------------------------------------------------------------
  // `_generate_arrange`

  const SetupText := "        // Setup test data"

  /** Parameters with an arrange line: the integer, floating and string rules. */
  predicate Arranged(p: Param) { IntType(p.ptype) || FloatType(p.ptype) || StringType(p.ptype) }

  /** The declared C type of a parameter's test variable, by the first rule
      that matches. */
  function VarType(p: Param): string
    requires Arranged(p)
  {
    if IntType(p.ptype) then "int32_t" else if FloatType(p.ptype) then "float" else "const char*"
  }

  /** The initial value of a parameter's test variable in a given case. */
  function InitialValue(p: Param, caseType: string): string
    requires Arranged(p)
  {
    if IntType(p.ptype) then
      (if caseType == "normal" then "42" else if caseType == "boundary" then "0" else "-1")
    else if FloatType(p.ptype) then
      (if caseType == "normal" then "85.5f" else if caseType == "boundary" then "0.0f" else "101.0f")
    else if caseType == "normal" then "\"valid_input\"" else "\"\""
  }

  /** The arrange line of one parameter, without its newline. */
  function ArrangeText(p: Param, caseType: string): string
    requires Arranged(p)
  {
    "        " + VarType(p) + " " + p.name + "_var = " + InitialValue(p, caseType) + ";"
  }

  function ArrangeLine(p: Param, caseType: string): string {
    if Arranged(p) then ArrangeText(p, caseType) + "\n" else ""
  }

  function ArrangeLineOf(caseType: string): Param -> string {
    p => ArrangeLine(p, caseType)
  }

  function Arrange(ps: seq<Param>, caseType: string): string {
    SetupText + "\n" + ConcatMap(ps, ArrangeLineOf(caseType))
  }

  /** `_generate_arrange`: one line appended per parameter that some rule
      matches. */
  method GenerateArrange(ps: seq<Param>, caseType: string) returns (arrange: string)
    ensures arrange == Arrange(ps, caseType)
  {
    arrange := SetupText + "\n";
    var start := arrange;
    for i := 0 to |ps|
      invariant arrange == start + ConcatMap(ps[..i], ArrangeLineOf(caseType))
    {
      ConcatMapSnoc(ps, i, ArrangeLineOf(caseType));
      Assoc(start, ConcatMap(ps[..i], ArrangeLineOf(caseType)), ArrangeLine(ps[i], caseType));
      arrange := arrange + ArrangeLine(ps[i], caseType);
    }
    assert ps[..|ps|] == ps;
  }

  /** The parameters that get an arrange line, in declared order. */
  function ArrangedParams(ps: seq<Param>): (qs: seq<Param>)
    ensures |qs| <= |ps|
    ensures forall i :: 0 <= i < |qs| ==> Arranged(qs[i]) && qs[i] in ps
  {
    if ps == [] then []
    else
      var last := ps[|ps| - 1];
      ArrangedParams(ps[..|ps| - 1]) + (if Arranged(last) then [last] else [])
  }

  /** Parameters without an arrange line add nothing to the text. */
  lemma {:induction false} ArrangeDropsUnmatched(ps: seq<Param>, caseType: string)
    ensures ConcatMap(ps, ArrangeLineOf(caseType)) == ConcatMap(ArrangedParams(ps), ArrangeLineOf(caseType))
    decreases |ps|
  {
    if ps != [] {
      var last := ps[|ps| - 1];
      var init := ps[..|ps| - 1];
      ArrangeDropsUnmatched(init, caseType);
      if Arranged(last) {
        assert ArrangedParams(ps) == ArrangedParams(init) + [last];
        ConcatMapAppend(ArrangedParams(init), [last], ArrangeLineOf(caseType));
        assert ConcatMap([last], ArrangeLineOf(caseType)) == ArrangeLine(last, caseType) by {
          assert [last][..0] == [];
        }
      } else {
        assert ArrangedParams(ps) == ArrangedParams(init) + [];
        assert ArrangedParams(init) + [] == ArrangedParams(init);
      }
    }
  }

  /** An arrange line is a single line when the parameter name is. */
  lemma ArrangeTextOneLine(p: Param, caseType: string)
    requires Arranged(p) && '\n' !in p.name
    ensures '\n' !in ArrangeText(p, caseType)
  {
    var v := InitialValue(p, caseType);
    assert '\n' !in VarType(p);
    assert '\n' !in v;
    NoSepConcat("        " + VarType(p) + " ", p.name, '\n');
    NoSepConcat("        " + VarType(p) + " " + p.name, "_var = ", '\n');
    NoSepConcat("        " + VarType(p) + " " + p.name + "_var = ", v, '\n');
    NoSepConcat("        " + VarType(p) + " " + p.name + "_var = " + v, ";", '\n');
  }

  /** The arrange block is the setup comment, then exactly one line per
      parameter that some rule matches, in declared order, and nothing else. */
  lemma ArrangeLines(ps: seq<Param>, caseType: string)
    requires forall i :: 0 <= i < |ps| ==> '\n' !in ps[i].name
    ensures |Split(Arrange(ps, caseType), '\n')| == |ArrangedParams(ps)| + 2
    ensures Split(Arrange(ps, caseType), '\n')[0] == SetupText
    ensures Split(Arrange(ps, caseType), '\n')[|ArrangedParams(ps)| + 1] == ""
    ensures forall i :: 0 <= i < |ArrangedParams(ps)| ==>
      Split(Arrange(ps, caseType), '\n')[i + 1] == ArrangeText(ArrangedParams(ps)[i], caseType)
  {
    var qs := ArrangedParams(ps);
    var x := ConcatMap(qs, ArrangeLineOf(caseType));
    ArrangeDropsUnmatched(ps, caseType);
    assert Arrange(ps, caseType) == SetupText + "\n" + x;
    ArrangedNames(ps);
    ArrangedLines(qs, caseType);
    SetupOneLine();
    SplitLine(SetupText, x);
  }

  lemma SetupOneLine()
    ensures '\n' !in SetupText
  {
  }

  /** The parameters kept for arranging have the names they had. */
  lemma ArrangedNames(ps: seq<Param>)
    requires forall i :: 0 <= i < |ps| ==> '\n' !in ps[i].name
    ensures forall i :: 0 <= i < |ArrangedParams(ps)| ==> '\n' !in ArrangedParams(ps)[i].name
  {
    var qs := ArrangedParams(ps);
    forall i | 0 <= i < |qs| ensures '\n' !in qs[i].name {
      assert qs[i] in ps;
      var j :| 0 <= j < |ps| && ps[j] == qs[i];
    }
  }

  function ArrangeTextOf(caseType: string): Param -> string {
    q => if Arranged(q) then ArrangeText(q, caseType) else ""
  }

  /** Parameters that all have arrange lines give one text line each. */
  lemma ArrangedLines(qs: seq<Param>, caseType: string)
    requires forall i :: 0 <= i < |qs| ==> Arranged(qs[i]) && '\n' !in qs[i].name
    ensures |Split(ConcatMap(qs, ArrangeLineOf(caseType)), '\n')| == |qs| + 1
    ensures Split(ConcatMap(qs, ArrangeLineOf(caseType)), '\n')[|qs|] == ""
    ensures forall i :: 0 <= i < |qs| ==> Split(ConcatMap(qs, ArrangeLineOf(caseType)), '\n')[i] == ArrangeText(qs[i], caseType)
  {
    forall i | 0 <= i < |qs|
      ensures ArrangeLineOf(caseType)(qs[i]) == ArrangeTextOf(caseType)(qs[i]) + "\n"
      ensures '\n' !in ArrangeTextOf(caseType)(qs[i])
    {
      ArrangeTextOneLine(qs[i], caseType);
    }
    SplitLines(qs, ArrangeLineOf(caseType), ArrangeTextOf(caseType));
  }

  // ---------------------------------------------------------------------------
  // `_generate_assert`

  const VoidAssert := "        // Function returns void, just verify no crash\n        EXPECT_TRUE(true);"
  const EqAssert := "        EXPECT_EQ(result, 0);  // 期望成功返回0"
  const NeAssert := "        EXPECT_NE(result, 0);  // 期望返回错误"
  const NearAssert := "        EXPECT_NEAR(result, 0.0f, 0.01f);  // 期望返回接近0"
  const TrueAssert := "        EXPECT_TRUE(true);  // Add proper assertion"

  function AssertStmt(returnType: string, caseType: string): string {
    if returnType == "void" then VoidAssert
    else if Contains(returnType, "int") || returnType == "int32_t" then
      (if caseType == "normal" then EqAssert else NeAssert)
    else if Contains(returnType, "float") || Contains(returnType, "double") then NearAssert
    else TrueAssert
  }

  /** Only integer-returning functions get a case-dependent assertion: the
      normal case expects 0 and every other case expects non-zero. */
  lemma AssertOnCase(returnType: string, caseType: string)
    ensures AssertStmt(returnType, caseType) != AssertStmt(returnType, "normal") <==>
      caseType != "normal" && returnType != "void" && Contains(returnType, "int")
    ensures caseType != "normal" && returnType != "void" && Contains(returnType, "int") ==>
      AssertStmt(returnType, caseType) == NeAssert && AssertStmt(returnType, "normal") == EqAssert
  {
    assert EqAssert[15] != NeAssert[15];
    if returnType == "int32_t" {
      assert StartsWith(returnType, "int");
    }
  }

  // ---------------------------------------------------------------------------
  // `_generate_basic_test_cases`

  /** One test-case record: its name, description and three code blocks. */
  datatype TestCase = TestCase(name: string, description: string, arrange: string, act: string, assertion: string)

  /** The call shared by all three cases. */
  function Act(f: FunctionDependency): string {
    "auto result = " + f.name + "(" + CallParams(f.parameters) + ");"
  }

  function BasicTestCases(f: FunctionDependency): seq<TestCase> {
    [TestCase("NormalCase", "Test normal execution path", Arrange(f.parameters, "normal"), Act(f),
       AssertStmt(f.returnType, "normal")),
     TestCase("BoundaryCase", "Test boundary conditions", Arrange(f.parameters, "boundary"), Act(f),
       AssertStmt(f.returnType, "normal")),
     TestCase("ErrorCase", "Test error handling", Arrange(f.parameters, "error"), Act(f),
       AssertStmt(f.returnType, "error"))]
  }

  /** `_generate_basic_test_cases`: three records appended in turn. */
  method GenerateBasicTestCases(f: FunctionDependency) returns (testCases: seq<TestCase>)
    ensures testCases == BasicTestCases(f)
  {
    testCases := [];
    var arrange := GenerateArrange(f.parameters, "normal");
    var params := GenerateCallParams(f.parameters);
    var act := "auto result = " + f.name + "(" + params + ");";
    var assertStmt := AssertStmt(f.returnType, "normal");
    testCases := testCases + [TestCase("NormalCase", "Test normal execution path", arrange, act, assertStmt)];
    var arrangeBoundary := GenerateArrange(f.parameters, "boundary");
    testCases := testCases + [TestCase("BoundaryCase", "Test boundary conditions", arrangeBoundary, act, assertStmt)];
    var arrangeError := GenerateArrange(f.parameters, "error");
    testCases := testCases + [TestCase("ErrorCase", "Test error handling", arrangeError, act,
      AssertStmt(f.returnType, "error"))];
  }

  /** Exactly three cases, named in order; all share one call, the first two
      share the normal-case assertion, and the error case asserts differently
      exactly when the function returns an integer type. */
  lemma BasicTestCasesShape(f: FunctionDependency)
    ensures |BasicTestCases(f)| == 3
    ensures BasicTestCases(f)[0].name == "NormalCase" && BasicTestCases(f)[1].name == "BoundaryCase"
      && BasicTestCases(f)[2].name == "ErrorCase"
    ensures forall k :: 0 <= k < 3 ==> BasicTestCases(f)[k].act == Act(f)
    ensures BasicTestCases(f)[1].assertion == BasicTestCases(f)[0].assertion
    ensures BasicTestCases(f)[2].assertion != BasicTestCases(f)[0].assertion <==>
      f.returnType != "void" && Contains(f.returnType, "int")
  {
    AssertOnCase(f.returnType, "error");
  }

  // ---------------------------------------------------------------------------
  // `_generate_test_cases`

  /** `str(n)`: the decimal digits of `n`. */
  function Numeral(n: nat): (s: string)
    ensures |s| >= 1 && forall k :: 0 <= k < |s| ==> IsDigit(s[k])
  {
    if n < 10 then [('0' as int + n) as char]
    else Numeral(n / 10) + [('0' as int + n % 10) as char]
  }

  /** Reading back the digits of `n` gives `n`. */
  lemma {:induction false} NumeralValue(n: nat)
    ensures DigitsValue(Numeral(n)) == n
  {
    if n >= 10 {
      NumeralValue(n / 10);
      var s := Numeral(n);
      assert s[..|s| - 1] == Numeral(n / 10);
    } else {
      var s := Numeral(n);
      assert s[..0] == "";
    }
  }

  /** The fixture class of a function: its capitalised name plus `Test`. */
  function ClassName(name: string): string { Capitalize(name) + "Test" }

  /** The `TEST_F` line of case `i`, without its newline. */
  function TestDecl(className: string, i: nat, caseName: string): string {
    "TEST_F(" + className + ", TestCase" + Numeral(i) + "_" + caseName + ") {"
  }

  function CaseHeading(i: nat, tc: TestCase): string {
    "// Test Case " + Numeral(i) + ": " + tc.description + "\n"
  }

  function CaseBody(tc: TestCase): string {
    "\n    // Arrange\n" + tc.arrange + "\n    \n    // Act\n" + tc.act + "\n    \n    // Assert\n" +
    tc.assertion + "\n}\n\n"
  }

  /** The text of case number `i`. */
  function CaseText(className: string, i: nat, tc: TestCase): string {
    CaseHeading(i, tc) + TestDecl(className, i, tc.name) + CaseBody(tc)
  }

  /** The cases numbered from 1, as `enumerate(test_cases, 1)` yields them. */
  function Numbered(cases: seq<TestCase>): (ns: seq<(nat, TestCase)>)
    ensures |ns| == |cases|
    ensures forall i :: 0 <= i < |ns| ==> ns[i] == (i + 1, cases[i])
  {
    seq(|cases|, i requires 0 <= i < |cases| => (i + 1, cases[i]))
  }

  function CaseTextOf(className: string): ((nat, TestCase)) -> string {
    (e: (nat, TestCase)) => CaseText(className, e.0, e.1)
  }

  function TestCasesText(f: FunctionDependency): string {
    ConcatMap(Numbered(BasicTestCases(f)), CaseTextOf(ClassName(f.name)))
  }

  /** `_generate_test_cases`: one block appended per numbered case. */
  method GenerateTestCases(f: FunctionDependency) returns (testCode: string)
    ensures testCode == TestCasesText(f)
  {
    var testCases := GenerateBasicTestCases(f);
    testCode := AppendEach("", Numbered(testCases), CaseTextOf(ClassName(f.name)));
  }

  // ---------------------------------------------------------------------------
  // `_generate_fixture_class`, `_generate_header`, `generate_test_file`

  function FixtureDecl(name: string): string {
    "class " + ClassName(name) + " : public ::testing::Test {"
  }

  const FixtureBody :=
    "\nprotected:\n" +
    "    void SetUp() override {\n" +
    "        // 初始化测试前置条件\n" +
    "    }\n" +
    "    \n" +
    "    void TearDown() override {\n" +
    "        // 清理测试后续处理\n" +
    "    }\n" +
    "};\n" +
    "\n"

  function Fixture(name: string): string {
    FixtureDecl(name) + FixtureBody
  }

  const GtestIncludes := "#include <gtest/gtest.h>\n#include <gmock/gmock.h>\n"
  const UsingLines := "\n\nusing ::testing::Return;\nusing ::testing::_;\nusing ::testing::AtLeast;\n\n"

  function Header(f: FunctionDependency): string {
    GtestIncludes + Includes(f) + UsingLines
  }

  /** `_generate_header`: the include block inside the fixed head. */
  method GenerateHeader(f: FunctionDependency) returns (header: string)
    ensures header == Header(f)
  {
    var includes := GenerateIncludes(f);
    header := GtestIncludes + includes + UsingLines;
  }

  /** The whole test file: header, mock section, fixture, cases. */
  function TestFile(f: FunctionDependency): string {
    Header(f) + MockDefines(f.externalCalls) + Fixture(f.name) + TestCasesText(f)
  }

  /** `generate_test_file`: the four parts appended in order. The output path
      is not used. */
  method GenerateTestFile(f: FunctionDependency, outputFile: string) returns (testCode: string)
    ensures testCode == TestFile(f)
  {
    testCode := GenerateHeader(f);
    var mocks := GenerateMockDefines(f.externalCalls);
    testCode := testCode + mocks;
    testCode := testCode + Fixture(f.name);
    var cases := GenerateTestCases(f);
    testCode := testCode + cases;
  }

  /** The file opens with the gtest and gmock includes, declares the
      fixture class, and carries the no-mocks placeholder when there is
      nothing to mock. */
  lemma TestFileHead(f: FunctionDependency)
    ensures StartsWith(TestFile(f), GtestIncludes)
    ensures Contains(TestFile(f), FixtureDecl(f.name))
    ensures f.externalCalls == {} ==> Contains(TestFile(f), NoMocks)
  {
    StartsWithConcat(GtestIncludes, Includes(f));
    StartsWithAppend(GtestIncludes + Includes(f), UsingLines, GtestIncludes);
    StartsWithConcat(FixtureDecl(f.name), FixtureBody);
    FileParts(Header(f), MockDefines(f.externalCalls), Fixture(f.name), TestCasesText(f),
      GtestIncludes, FixtureDecl(f.name));
    if f.externalCalls == {} {
      MockPart(Header(f), MockDefines(f.externalCalls), Fixture(f.name), TestCasesText(f));
    }
  }

  /** The file holds the three numbered `TEST_F` cases on the fixture. */
  lemma TestFileCases(f: FunctionDependency)
    ensures Contains(TestFile(f), TestDecl(ClassName(f.name), 1, "NormalCase"))
    ensures Contains(TestFile(f), TestDecl(ClassName(f.name), 2, "BoundaryCase"))
    ensures Contains(TestFile(f), TestDecl(ClassName(f.name), 3, "ErrorCase"))
  {
    CaseInFile(f, 0, 1, "NormalCase");
    CaseInFile(f, 1, 2, "BoundaryCase");
    CaseInFile(f, 2, 3, "ErrorCase");
  }

  /** The head of the first part starts the file, and the head of the third
      part occurs in it. */
  lemma FileParts(h: string, m: string, x: string, t: string, hh: string, xh: string)
    requires StartsWith(h, hh) && StartsWith(x, xh)
    ensures StartsWith(h + m + x + t, hh)
    ensures Contains(h + m + x + t, xh)
  {
    StartsWithAppend(h, m + x + t, hh);
    assert h + m + x + t == h + (m + x + t);
    ContainsWithin(h + m, x, t, xh);
  }

  /** A mock section with no calls occurs in the file. */
  lemma MockPart(h: string, m: string, x: string, t: string)
    requires m == NoMocks
    ensures Contains(h + m + x + t, NoMocks)
  {
    ContainsMiddle(h, m, x + t);
    assert h + m + (x + t) == h + m + x + t;
  }

  /** The `TEST_F` line of each case is in the file. */
  lemma CaseInFile(f: FunctionDependency, k: nat, i: nat, name: string)
    requires k < |BasicTestCases(f)| && i == k + 1 && name == BasicTestCases(f)[k].name
    ensures Contains(TestFile(f), TestDecl(ClassName(f.name), i, name))
  {
    var cn := ClassName(f.name);
    var ns := Numbered(BasicTestCases(f));
    var tc := BasicTestCases(f)[k];
    var decl := TestDecl(cn, i, name);
    ConcatMapContains(ns, k, CaseTextOf(cn));
    ContainsMiddle(CaseHeading(k + 1, tc), decl, CaseBody(tc));
    ContainsTrans(TestCasesText(f), CaseText(cn, k + 1, tc), decl);
    ContainsWithin(Header(f) + MockDefines(f.externalCalls) + Fixture(f.name), TestCasesText(f), "", decl);
    AppendEmpty(TestFile(f));
  }

  // ---------------------------------------------------------------------------
  // `generate_mock_header`

  const MockGuard :=
    "\n#ifndef MOCK_DEFINITIONS_H\n#define MOCK_DEFINITIONS_H\n\n// 自动生成的Mock定义，可在此处添加自定义Mock类\n\n"
  const MockGuardEnd := "\n#endif"

  /** The mock class for one call. */
  function MockClass(call: string): string {
    "class Mock" + Capitalize(call) + " {\npublic:\n    MOCK_METHOD(int32_t, " + call + ", ());\n};\n\n"
  }

  function MockHeader(calls: set<string>): string {
    MockGuard + ConcatMap(SortedList(calls), MockClass) + MockGuardEnd
  }

  /** `generate_mock_header`: one class appended per call, in sorted order. */
  method GenerateMockHeader(externalCalls: set<string>) returns (mockHeader: string)
    ensures mockHeader == MockHeader(externalCalls)
  {
    mockHeader := AppendEach(MockGuard, SortedList(externalCalls), MockClass);
    mockHeader := mockHeader + MockGuardEnd;
  }

  /** The mock header opens the include guard, closes it with `#endif` at the
      very end, and holds a mock class for every call; with no calls it is
      the guard alone. */
  lemma MockHeaderShape(calls: set<string>)
    ensures StartsWith(MockHeader(calls), MockGuard)
    ensures EndsWith(MockHeader(calls), MockGuardEnd)
    ensures calls == {} ==> MockHeader(calls) == MockGuard + MockGuardEnd
    ensures forall c :: c in calls ==> Contains(MockHeader(calls), MockClass(c))
  {
    var sorted := SortedList(calls);
    var body := ConcatMap(sorted, MockClass);
    StartsWithConcat(MockGuard, body + MockGuardEnd);
    Assoc(MockGuard, body, MockGuardEnd);
    EndsWithConcat(MockGuard + body, MockGuardEnd);
    forall c | c in calls ensures Contains(MockHeader(calls), MockClass(c)) {
      var i :| 0 <= i < |sorted| && sorted[i] == c;
      ConcatMapContains(sorted, i, MockClass);
      ContainsWithin(MockGuard, body, MockGuardEnd, MockClass(c));
    }
  }
}
