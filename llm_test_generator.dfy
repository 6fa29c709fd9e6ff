/**
  The LLM-based test generator (`tools/llm_test_generator.py`): the prompt it
  assembles from a function's facts and compile information, the cleaning of
  the generator's reply, the fallback template, batch generation, and the two
  `PromptBuilder` helpers. The language model itself is a parameter `llm`
  from prompt to reply (`None` when the call failed).
 */
module LlmTestGenerator {
  import opened Wrappers
  import opened Text
  import opened Sorting
  import opened OrderedDict
  import opened CCodeAnalyzer
  import opened CompileCommandsAnalyzer

  // ---------------------------------------------------------------------------
  // `_build_prompt`

  function PromptHead(f: FunctionDependency): string {
    "Generate comprehensive unit tests for this C function:\n\nFunction Name: " + f.name +
    "\nReturn Type: " + f.returnType + "\nSource File: " + f.sourceFile + "\n\nParameters:\n"
  }

  const NoParameters := "  - void (no parameters)"

  /** The line listing one parameter, without its newline. */
  function ParamText(p: Param): string { "  - " + p.ptype + " " + p.name }

  function ParamLine(p: Param): string { ParamText(p) + "\n" }

  function ParamsSection(ps: seq<Param>): string {
    if ps == [] then NoParameters + "\n" else ConcatMap(ps, ParamLine)
  }

  const CallsHeading := "External Function Calls (requires mocking):"
  const NoCalls := "External Function Calls: None"

  /** The line listing one external call, without its newline. */
  function CallText(c: string): string { "  - " + c + "()" }

  function CallLine(c: string): string { CallText(c) + "\n" }

  function CallsSection(calls: set<string>): string {
    if calls == {} then "\n" + NoCalls + "\n"
    else "\n" + CallsHeading + "\n" + ConcatMap(SortedList(calls), CallLine)
  }

  const IncludesHeading := "Include Files:"

  /** The line listing one include file, without its newline. */
  function IncludeText(inc: string): string { "  - " + inc }

  function IncludeLine(inc: string): string { IncludeText(inc) + "\n" }

  function IncludesSection(incs: set<string>): string {
    if incs == {} then "" else "\n" + IncludesHeading + "\n" + ConcatMap(SortedList(incs), IncludeLine)
  }

  /** Python's `value or default` on an optional string: `None` and `""` are false. */
  function OrDefault(o: Option<string>, default: string): string {
    if o.Some? && o.value != "" then o.value else default
  }

  const CompileHeading := "Compilation Info:"

  function StandardLine(info: CompileInfo): string { "  C Standard: " + OrDefault(info.cStandard, "default") }

  function CxxStandardLine(info: CompileInfo): string { "  C++ Standard: " + OrDefault(info.cxxStandard, "c++14") }

  /** The macro names, in the dict's order. */
  function MacrosText(defines: Dict<Option<string>>): string {
    "  Macros: " + Join(Keys(defines), ", ")
  }

  function MacrosPart(defines: Dict<Option<string>>): string {
    if defines == [] then "" else MacrosText(defines) + "\n"
  }

  function CompileSection(ci: Option<CompileInfo>): string {
    match ci
    case None => ""
    case Some(info) =>
      "\n" + CompileHeading + "\n" + (StandardLine(info) + "\n") + (CxxStandardLine(info) + "\n") + MacrosPart(info.defines)
  }

  const ExtraHeading := "Additional Context:"

  function ExtraSection(extra: string): string {
    if extra == "" then "" else "\n" + ExtraHeading + "\n" + extra + "\n"
  }

  const PromptTail :=
    "\nGenerate a complete test file with:\n" +
    "1. All necessary #include directives\n" +
    "2. Mock definitions for external calls\n" +
    "3. A test fixture class\n" +
    "4. Multiple test cases covering various scenarios\n" +
    "5. Proper error handling and assertions\n" +
    "\n" +
    "Make sure the tests are:\n" +
    "- Comprehensive and cover edge cases\n" +
    "- Independent and isolated\n" +
    "- Using Google Test (gtest) framework\n" +
    "- Using Google Mock (gmock) for mocking\n" +
    "\n" +
    "Return ONLY the C++ code, no markdown wrappers."

  /** The prompt for `f`: its sections in the order `_build_prompt` appends them. */
  function Prompt(f: FunctionDependency, ci: Option<CompileInfo>, extra: string): string {
    PromptHead(f) + ParamsSection(f.parameters) + CallsSection(f.externalCalls) +
    IncludesSection(f.includeFiles) + CompileSection(ci) + ExtraSection(extra) + PromptTail
  }

  /** `_build_prompt`: the prompt grows by `+=`, one line per parameter, call
      and include file. */
  method BuildPrompt(f: FunctionDependency, ci: Option<CompileInfo>, extra: string) returns (prompt: string)
    ensures prompt == Prompt(f, ci, extra)
  {
    prompt := AppendParams(PromptHead(f), f.parameters);
    prompt := AppendCalls(prompt, f.externalCalls);
    prompt := AppendIncludes(prompt, f.includeFiles);
    prompt := AppendCompile(prompt, ci);
    if extra != "" {
      prompt := prompt + ("\n" + ExtraHeading + "\n" + extra + "\n");
    } else {
      AppendEmpty(prompt);
    }
    prompt := prompt + PromptTail;
  }

  /** The parameter lines of `_build_prompt`, appended one at a time. */
  method AppendParams(head: string, ps: seq<Param>) returns (prompt: string)
    ensures prompt == head + ParamsSection(ps)
  {
    prompt := head;
    if ps != [] {
      for i := 0 to |ps|
        invariant prompt == head + ConcatMap(ps[..i], ParamLine)
      {
        ConcatMapSnoc(ps, i, ParamLine);
        Assoc(head, ConcatMap(ps[..i], ParamLine), ParamLine(ps[i]));
        prompt := prompt + ParamLine(ps[i]);
      }
      assert ps[..|ps|] == ps;
    } else {
      prompt := prompt + (NoParameters + "\n");
    }
  }

  /** The external-call lines of `_build_prompt`, appended one at a time in
      sorted order. */
  method AppendCalls(head: string, externalCalls: set<string>) returns (prompt: string)
    ensures prompt == head + CallsSection(externalCalls)
  {
    prompt := head;
    if externalCalls != {} {
      prompt := prompt + ("\n" + CallsHeading + "\n");
      var calls := SortedList(externalCalls);
      var start := prompt;
      for i := 0 to |calls|
        invariant prompt == start + ConcatMap(calls[..i], CallLine)
      {
        ConcatMapSnoc(calls, i, CallLine);
        Assoc(start, ConcatMap(calls[..i], CallLine), CallLine(calls[i]));
        prompt := prompt + CallLine(calls[i]);
      }
      assert calls[..|calls|] == calls;
      Assoc(head, "\n" + CallsHeading + "\n", ConcatMap(calls, CallLine));
    } else {
      prompt := prompt + ("\n" + NoCalls + "\n");
    }
  }

  /** The include lines of `_build_prompt`, appended one at a time in sorted
      order. */
  method AppendIncludes(head: string, includeFiles: set<string>) returns (prompt: string)
    ensures prompt == head + IncludesSection(includeFiles)
  {
    prompt := head;
    if includeFiles != {} {
      prompt := prompt + ("\n" + IncludesHeading + "\n");
      var incs := SortedList(includeFiles);
      var start := prompt;
      for i := 0 to |incs|
        invariant prompt == start + ConcatMap(incs[..i], IncludeLine)
      {
        ConcatMapSnoc(incs, i, IncludeLine);
        Assoc(start, ConcatMap(incs[..i], IncludeLine), IncludeLine(incs[i]));
        prompt := prompt + IncludeLine(incs[i]);
      }
      assert incs[..|incs|] == incs;
      Assoc(head, "\n" + IncludesHeading + "\n", ConcatMap(incs, IncludeLine));
    } else {
      AppendEmpty(head);
    }
  }

  /** The compilation lines of `_build_prompt`. */
  method AppendCompile(head: string, ci: Option<CompileInfo>) returns (prompt: string)
    ensures prompt == head + CompileSection(ci)
  {
    prompt := head;
    if ci.Some? {
      var info := ci.value;
      prompt := prompt + ("\n" + CompileHeading + "\n");
      prompt := prompt + (StandardLine(info) + "\n");
      prompt := prompt + (CxxStandardLine(info) + "\n");
      if info.defines != [] {
        prompt := prompt + (MacrosText(info.defines) + "\n");
      } else {
        AppendEmpty(prompt);
      }
      Assoc4(head, "\n" + CompileHeading + "\n" + (StandardLine(info) + "\n"), CxxStandardLine(info) + "\n",
        MacrosPart(info.defines));
      Assoc(head, "\n" + CompileHeading + "\n", StandardLine(info) + "\n");
    } else {
      AppendEmpty(head);
    }
  }

  /** The parameters section is one line `  - type name` per parameter, in
      declared order, or the single line `  - void (no parameters)`. */
  lemma ParamsSectionLines(ps: seq<Param>)
    requires forall i :: 0 <= i < |ps| ==> '\n' !in ParamText(ps[i])
    ensures ps == [] ==> Split(ParamsSection(ps), '\n') == [NoParameters, ""]
    ensures ps != [] ==> |Split(ParamsSection(ps), '\n')| == |ps| + 1 && Split(ParamsSection(ps), '\n')[|ps|] == ""
    ensures forall i :: 0 <= i < |ps| ==> Split(ParamsSection(ps), '\n')[i] == ParamText(ps[i])
  {
    if ps == [] {
      SplitLastLine(NoParameters);
    } else {
      SplitLines(ps, ParamLine, ParamText);
    }
  }

  /** The calls section is the heading line followed by one line `  - name()`
      per call, in the order of `SortedList` (each call once, sorted). */
  lemma CallsSectionLines(calls: set<string>)
    requires forall c :: c in calls ==> '\n' !in c
    ensures calls != {} ==> |Split(CallsSection(calls), '\n')| == |calls| + 3
    ensures calls != {} ==> Split(CallsSection(calls), '\n')[..2] == ["", CallsHeading]
    ensures calls != {} ==> Split(CallsSection(calls), '\n')[|calls| + 2] == ""
    ensures calls != {} ==> forall i :: 0 <= i < |calls| ==>
      Split(CallsSection(calls), '\n')[i + 2] == CallText(SortedList(calls)[i])
  {
    if calls != {} {
      var sorted := SortedList(calls);
      forall i | 0 <= i < |sorted| ensures '\n' !in sorted[i] {
        assert sorted[i] in calls;
      }
      SomeCallsLines(sorted);
    }
  }

  lemma SomeCallsLines(sorted: seq<string>)
    requires forall i :: 0 <= i < |sorted| ==> '\n' !in sorted[i]
    ensures |Split("\n" + CallsHeading + "\n" + ConcatMap(sorted, CallLine), '\n')| == |sorted| + 3
    ensures Split("\n" + CallsHeading + "\n" + ConcatMap(sorted, CallLine), '\n')[..2] == ["", CallsHeading]
    ensures Split("\n" + CallsHeading + "\n" + ConcatMap(sorted, CallLine), '\n')[|sorted| + 2] == ""
    ensures forall i :: 0 <= i < |sorted| ==>
      Split("\n" + CallsHeading + "\n" + ConcatMap(sorted, CallLine), '\n')[i + 2] == CallText(sorted[i])
  {
    SplitHeadedLines(CallsHeading, sorted, CallLine, CallText);
  }

  /** Without calls the section is the single line `External Function Calls: None`. */
  lemma NoCallsLines()
    ensures Split(CallsSection({}), '\n') == ["", NoCalls, ""]
  {
    SplitHeadingOnly(NoCalls);
  }

  /** The include section lists each include file once, in the order of
      `SortedList`, under its heading, and is absent when there are none. */
  lemma IncludesSectionLines(incs: set<string>)
    requires forall c :: c in incs ==> '\n' !in c
    ensures incs == {} ==> IncludesSection(incs) == ""
    ensures incs != {} ==> |Split(IncludesSection(incs), '\n')| == |incs| + 3
    ensures incs != {} ==> Split(IncludesSection(incs), '\n')[..2] == ["", IncludesHeading]
    ensures incs != {} ==> Split(IncludesSection(incs), '\n')[|incs| + 2] == ""
    ensures incs != {} ==> forall i :: 0 <= i < |incs| ==>
      Split(IncludesSection(incs), '\n')[i + 2] == IncludeText(SortedList(incs)[i])
  {
    if incs != {} {
      var sorted := SortedList(incs);
      forall i | 0 <= i < |sorted| ensures '\n' !in sorted[i] {
        assert sorted[i] in incs;
      }
      SomeIncludesLines(sorted);
    }
  }

  lemma SomeIncludesLines(sorted: seq<string>)
    requires forall i :: 0 <= i < |sorted| ==> '\n' !in sorted[i]
    ensures |Split("\n" + IncludesHeading + "\n" + ConcatMap(sorted, IncludeLine), '\n')| == |sorted| + 3
    ensures Split("\n" + IncludesHeading + "\n" + ConcatMap(sorted, IncludeLine), '\n')[..2] == ["", IncludesHeading]
    ensures Split("\n" + IncludesHeading + "\n" + ConcatMap(sorted, IncludeLine), '\n')[|sorted| + 2] == ""
    ensures forall i :: 0 <= i < |sorted| ==>
      Split("\n" + IncludesHeading + "\n" + ConcatMap(sorted, IncludeLine), '\n')[i + 2] == IncludeText(sorted[i])
  {
    SplitHeadedLines(IncludesHeading, sorted, IncludeLine, IncludeText);
  }

  /** The compilation block appears only with compile information: a heading,
      the C standard (`default` when missing or empty), the C++ standard
      (`c++14` when missing or empty), and a line naming the macros in order
      only when there are defines. */
  lemma CompileSectionLines(info: CompileInfo)
    requires '\n' !in OrDefault(info.cStandard, "default")
    requires '\n' !in OrDefault(info.cxxStandard, "c++14")
    requires '\n' !in MacrosText(info.defines)
    ensures info.defines == [] ==>
      Split(CompileSection(Some(info)), '\n') == ["", CompileHeading, StandardLine(info), CxxStandardLine(info), ""]
    ensures info.defines != [] ==>
      Split(CompileSection(Some(info)), '\n') ==
      ["", CompileHeading, StandardLine(info), CxxStandardLine(info), MacrosText(info.defines), ""]
  {
    NoSepConcat("  C Standard: ", OrDefault(info.cStandard, "default"), '\n');
    NoSepConcat("  C++ Standard: ", OrDefault(info.cxxStandard, "c++14"), '\n');
    if info.defines == [] {
      SplitNoSep("", '\n');
      SplitHeadedBlock(CompileHeading, StandardLine(info), CxxStandardLine(info), "", [""]);
    } else {
      MacrosBlock(info);
    }
  }

  /** With defines, the Macros line and an empty last line follow the standards. */
  lemma MacrosBlock(info: CompileInfo)
    requires info.defines != []
    requires '\n' !in StandardLine(info) && '\n' !in CxxStandardLine(info)
    requires '\n' !in MacrosText(info.defines)
    ensures Split(CompileSection(Some(info)), '\n') ==
      ["", CompileHeading, StandardLine(info), CxxStandardLine(info), MacrosText(info.defines), ""]
  {
    SplitLastLine(MacrosText(info.defines));
    SplitHeadedBlock(CompileHeading, StandardLine(info), CxxStandardLine(info), MacrosText(info.defines) + "\n",
      [MacrosText(info.defines), ""]);
  }

  /** A heading block of two lines and a tail splits into a blank line, the
      heading, the two lines and the tail's lines. */
  lemma SplitHeadedBlock(h: string, l1: string, l2: string, rest: string, tail: seq<string>)
    requires '\n' !in h && '\n' !in l1 && '\n' !in l2 && Split(rest, '\n') == tail
    ensures Split("\n" + h + "\n" + (l1 + "\n") + (l2 + "\n") + rest, '\n') == ["", h, l1, l2] + tail
  {
    var x, y, z := "\n" + h + "\n", l1 + "\n", l2 + "\n";
    Assoc(y, z, rest);
    Assoc4(x, y, z, rest);
    assert x + y + z + rest == x + (y + (z + rest));
    SplitLine(l2, rest);
    SplitLine(l1, z + rest);
    SplitHeading(h, y + (z + rest));
    ConsLines(h, l1, l2, tail);
  }

  lemma ConsLines(h: string, l1: string, l2: string, tail: seq<string>)
    ensures ["", h] + ([l1] + ([l2] + tail)) == ["", h, l1, l2] + tail
  {
  }

  // ---------------------------------------------------------------------------
  // `_clean_response`

  const Fence := "```"

  /** Drops the opening fence line, and the closing line when it is a bare fence. */
  function Unfenced(lines: seq<string>): seq<string>
    requires lines != []
  {
    var ls := if StartsWith(lines[0], Fence) then lines[1..] else lines;
    if ls != [] && Strip(ls[|ls| - 1]) == Fence then ls[..|ls| - 1] else ls
  }

  /** `_clean_response`: a reply starting with a fence loses its first line and
      a closing fence line; the result is stripped of outer whitespace. */
  function CleanResponse(response: string): (r: string)
    ensures r == [] || (!IsSpace(r[0]) && !IsSpace(r[|r| - 1]))
  {
    Strip(Unwrapped(response))
  }

  /** The reply without its fence lines, when it starts with a fence. */
  function Unwrapped(response: string): string {
    if StartsWith(response, Fence) then Join(Unfenced(Split(response, '\n')), "\n") else response
  }

  /** A reply that does not start with a fence is only stripped. */
  lemma CleanUnfenced(response: string)
    requires !StartsWith(response, Fence)
    ensures CleanResponse(response) == Strip(response)
  {
  }

  lemma StripFence()
    ensures Strip(Fence) == Fence
  {
    assert TrimLeft(Fence, IsSpace) == Fence;
    assert TrimRight(Fence, IsSpace) == Fence;
  }

  /** A fenced reply gives back the code inside the fence, stripped, whether or
      not the closing fence is there (when it is absent, the code's last line
      must not itself be a bare fence). */
  lemma CleanFenced(lang: string, code: string, closed: bool)
    requires '\n' !in lang
    requires !closed ==> Strip(Split(code, '\n')[|Split(code, '\n')| - 1]) != Fence
    ensures CleanResponse(Fence + lang + "\n" + code + (if closed then "\n" + Fence else "")) == Strip(code)
  {
    var close := if closed then "\n" + Fence else "";
    var reply := Fence + lang + "\n" + code + close;
    FencedReplyLines(lang, code, close);
    FencedCodeLines(lang, code, closed);
    JoinLines(code);
    assert Join(Unfenced(Split(reply, '\n')), "\n") == code;
  }

  /** A fenced reply starts with the fence, and its lines are the fence line
      followed by the lines of what comes after it. */
  lemma FencedReplyLines(lang: string, code: string, close: string)
    requires '\n' !in lang
    ensures StartsWith(Fence + lang + "\n" + code + close, Fence)
    ensures Split(Fence + lang + "\n" + code + close, '\n') == [Fence + lang] + Split(code + close, '\n')
  {
    var first := Fence + lang;
    var rest := code + close;
    Assoc(first + "\n", code, close);
    StartsWithConcat(Fence, lang);
    StartsWithAppend(first, "\n", Fence);
    StartsWithAppend(first + "\n", rest, Fence);
    NoSepConcat(Fence, lang, '\n');
    SplitLine(first, rest);
  }

  /** Dropping the fence line and a closing fence line leaves the code's lines. */
  lemma FencedCodeLines(lang: string, code: string, closed: bool)
    requires !closed ==> Strip(Split(code, '\n')[|Split(code, '\n')| - 1]) != Fence
    ensures Unfenced([Fence + lang] + Split(code + (if closed then "\n" + Fence else ""), '\n')) == Split(code, '\n')
  {
    var close := if closed then "\n" + Fence else "";
    var lines := [Fence + lang] + Split(code + close, '\n');
    StartsWithConcat(Fence, lang);
    assert lines[0] == Fence + lang;
    assert lines[1..] == Split(code + close, '\n');
    var codeLines := Split(code, '\n');
    if closed {
      Assoc(code, "\n", Fence);
      SplitLastPart(code, Fence);
      StripFence();
      assert (codeLines + [Fence])[..|codeLines|] == codeLines;
    } else {
      AppendEmpty(code);
    }
  }

  // ---------------------------------------------------------------------------
  // `_generate_fallback_test` and `generate_test_file`

  const GtestInclude := "#include <gtest/gtest.h>\n"

  function FallbackIntro(name: string): string {
    GtestInclude + FallbackNote(name)
  }

  function FallbackNote(name: string): string {
    "#include <gmock/gmock.h>\n\n" +
    "// TODO: Generate proper tests for " + name + "()\n" +
    "// This is a fallback template - please review and complete\n\n"
  }

  /** The fixture's opening line; the fixture is the capitalised name plus `Test`. */
  function FixtureDecl(name: string): string {
    "class " + Capitalize(name) + "Test : public ::testing::Test {"
  }

  const FixtureBody :=
    "\nprotected:\n" +
    "    void SetUp() override {\n" +
    "        // Initialize test fixtures\n" +
    "    }\n" +
    "    \n" +
    "    void TearDown() override {\n" +
    "        // Cleanup\n" +
    "    }\n" +
    "};\n\n"

  function BasicTestDecl(name: string): string {
    "TEST_F(" + Capitalize(name) + "Test, BasicTest) {"
  }

  const BasicTestBody := "\n    // TODO: Implement test\n    EXPECT_TRUE(true);\n}\n"

  /** `_generate_fallback_test`: a skeleton with one fixture and one test. */
  function Fallback(name: string): string {
    FallbackIntro(name) + FixtureDecl(name) + FixtureBody + BasicTestDecl(name) + BasicTestBody
  }

  /** The fallback includes gtest first, declares the fixture `<Name>Test`
      (the function name capitalised) and a single `BasicTest` on it. */
  lemma FallbackFixture(name: string)
    ensures StartsWith(Fallback(name), GtestInclude)
    ensures Contains(Fallback(name), FixtureDecl(name))
    ensures Contains(Fallback(name), BasicTestDecl(name))
  {
    var intro := FallbackIntro(name);
    var (fixture, body, test) := (FixtureDecl(name), FixtureBody, BasicTestDecl(name));
    StartsWithConcat(GtestInclude, FallbackNote(name));
    StartsWithAppend(intro, fixture, GtestInclude);
    StartsWithAppend(intro + fixture, body, GtestInclude);
    StartsWithAppend(intro + fixture + body, test, GtestInclude);
    StartsWithAppend(intro + fixture + body + test, BasicTestBody, GtestInclude);
    ContainsMiddle(intro, fixture, body);
    ContainsAppend(intro + fixture + body, test, fixture);
    ContainsAppend(intro + fixture + body + test, BasicTestBody, fixture);
    ContainsMiddle(intro + fixture + body, test, BasicTestBody);
  }

  /** `generate_test_file`: an empty or failed reply gives the fallback,
      anything else the cleaned reply. */
  function TestFor(f: FunctionDependency, ci: Option<CompileInfo>, extra: string, llm: string -> Option<string>): string
  {
    TestForReplyText(f.name, llm(Prompt(f, ci, extra)))
  }

  /** The test file for one reply of the model. */
  function TestForReplyText(name: string, reply: Option<string>): string {
    if reply.None? || reply.value == "" then Fallback(name) else CleanResponse(reply.value)
  }

  method GenerateTestFile(f: FunctionDependency, ci: Option<CompileInfo>, extra: string, llm: string -> Option<string>)
    returns (code: string)
    ensures code == TestFor(f, ci, extra, llm)
  {
    var prompt := BuildPrompt(f, ci, extra);
    var reply := llm(prompt);
    assert TestFor(f, ci, extra, llm) == TestForReplyText(f.name, reply);
    if reply.None? || reply.value == "" {
      return Fallback(f.name);
    }
    code := CleanResponse(reply.value);
  }

  /** A reply that fences its code yields that code, stripped. */
  lemma TestForReply(f: FunctionDependency, ci: Option<CompileInfo>, extra: string, llm: string -> Option<string>,
                     lang: string, code: string)
    requires '\n' !in lang
    requires llm(Prompt(f, ci, extra)) == Some(Fence + lang + "\n" + code + "\n" + Fence)
    ensures TestFor(f, ci, extra, llm) == Strip(code)
  {
    FencedReplyText(f.name, lang, code);
  }

  lemma FencedReplyText(name: string, lang: string, code: string)
    requires '\n' !in lang
    ensures TestForReplyText(name, Some(Fence + lang + "\n" + code + "\n" + Fence)) == Strip(code)
  {
    ClosedFenceClean(lang, code);
  }

  /** A reply that opens and closes a fence is not empty and cleans to its code. */
  lemma ClosedFenceClean(lang: string, code: string)
    requires '\n' !in lang
    ensures Fence + lang + "\n" + code + "\n" + Fence != ""
    ensures CleanResponse(Fence + lang + "\n" + code + "\n" + Fence) == Strip(code)
  {
    var reply := Fence + lang + "\n" + code + "\n" + Fence;
    Assoc(Fence + lang + "\n" + code, "\n", Fence);
    CleanFenced(lang, code, true);
    assert reply[..3] == Fence;
  }

  /** A failed or empty reply yields the fallback fixture for the function. */
  lemma TestForNoReply(f: FunctionDependency, ci: Option<CompileInfo>, extra: string, llm: string -> Option<string>)
    requires llm(Prompt(f, ci, extra)) in {None, Some("")}
    ensures StartsWith(TestFor(f, ci, extra, llm), GtestInclude)
    ensures Contains(TestFor(f, ci, extra, llm), FixtureDecl(f.name))
    ensures Contains(TestFor(f, ci, extra, llm), BasicTestDecl(f.name))
  {
    NoReplyText(f.name, llm(Prompt(f, ci, extra)));
  }

  lemma NoReplyText(name: string, reply: Option<string>)
    requires reply in {None, Some("")}
    ensures StartsWith(TestForReplyText(name, reply), GtestInclude)
    ensures Contains(TestForReplyText(name, reply), FixtureDecl(name))
    ensures Contains(TestForReplyText(name, reply), BasicTestDecl(name))
  {
    FallbackFixture(name);
  }

  // ---------------------------------------------------------------------------
  // `generate_batch_tests`

  /** The compile information passed for `f`: the map's entry for its source
      file, when there is a map and it has one. */
  function CompileInfoFor(f: FunctionDependency, infos: Option<map<string, CompileInfo>>): (r: Option<CompileInfo>)
    ensures r.Some? <==> infos.Some? && f.sourceFile in infos.value
    ensures r.Some? ==> r.value == infos.value[f.sourceFile]
  {
    if infos.Some? && f.sourceFile in infos.value then Some(infos.value[f.sourceFile]) else None
  }

  /** The test `generate_batch_tests` generates for one function: its source
      file's compile information, when the map has it, and no extra context. */
  function BatchGenerator(infos: Option<map<string, CompileInfo>>, llm: string -> Option<string>): FunctionDependency -> string {
    f => TestFor(f, CompileInfoFor(f, infos), "", llm)
  }

  /** The `results[name] = code` assignments of a batch, in order, for a
      generator `gen` from function to test file. */
  function BatchAssignments(fs: seq<FunctionDependency>, gen: FunctionDependency -> string): (es: seq<(string, string)>)
    ensures |es| == |fs|
    ensures forall i :: 0 <= i < |fs| ==> es[i] == (fs[i].name, gen(fs[i]))
  {
    seq(|fs|, i requires 0 <= i < |fs| => (fs[i].name, gen(fs[i])))
  }

  /** `generate_batch_tests`: the results dict is filled in function order. */
  method GenerateBatchTests(fs: seq<FunctionDependency>, infos: Option<map<string, CompileInfo>>,
                            llm: string -> Option<string>) returns (results: Dict<string>)
    ensures results == PutAll([], BatchAssignments(fs, BatchGenerator(infos, llm)))
  {
    var es := BatchAssignments(fs, BatchGenerator(infos, llm));
    results := [];
    for i := 0 to |fs|
      invariant results == PutAll([], es[..i])
    {
      var ci := CompileInfoFor(fs[i], infos);
      var code := GenerateTestFile(fs[i], ci, "", llm);
      assert es[i] == (fs[i].name, code);
      PutAllSnoc([], es, i);
      results := Put(results, fs[i].name, code);
    }
    assert es[..|fs|] == es;
  }

  /** The batch has one result per function name, and a name has a result
      exactly when some function of the batch has that name. */
  lemma BatchResults(fs: seq<FunctionDependency>, gen: FunctionDependency -> string)
    ensures DistinctKeys(PutAll([], BatchAssignments(fs, gen)))
    ensures forall k :: k in ToMap(PutAll([], BatchAssignments(fs, gen))) <==>
      exists i :: 0 <= i < |fs| && fs[i].name == k
  {
    var es := BatchAssignments(fs, gen);
    PutAllMap([], es);
    assert ToMap<string>([]) == map[];
    forall k ensures k in ToMap(PutAll([], es)) <==> exists i :: 0 <= i < |fs| && fs[i].name == k {
      AssignmentsKeys(es, k);
      if exists i :: 0 <= i < |es| && es[i].0 == k {
        var i :| 0 <= i < |es| && es[i].0 == k;
        assert fs[i].name == k;
      }
      if exists i :: 0 <= i < |fs| && fs[i].name == k {
        var i :| 0 <= i < |fs| && fs[i].name == k;
        assert es[i].0 == k;
      }
    }
  }

  /** A later function with the same name replaces the earlier result: the
      result for a name is the test generated for the last function with it. */
  lemma BatchLastWins(fs: seq<FunctionDependency>, gen: FunctionDependency -> string, i: nat)
    requires i < |fs| && forall j :: i < j < |fs| ==> fs[j].name != fs[i].name
    ensures fs[i].name in ToMap(PutAll([], BatchAssignments(fs, gen)))
    ensures ToMap(PutAll([], BatchAssignments(fs, gen)))[fs[i].name] == gen(fs[i])
  {
    var es := BatchAssignments(fs, gen);
    PutAllMap([], es);
    assert ToMap<string>([]) == map[];
    forall j | i < j < |es| ensures es[j].0 != es[i].0 {
      assert es[j].0 == fs[j].name;
    }
    AssignmentsLastWins(es, i);
  }

  // ---------------------------------------------------------------------------
  // `PromptBuilder`

  /** Index of the first line at or after `from` containing `w`, or -1. */
  function FirstLineWith(lines: seq<string>, w: string, from: nat): (r: int)
    ensures r == -1 || (from <= r < |lines| && Contains(lines[r], w))
    ensures r == -1 ==> forall i :: from <= i < |lines| ==> !Contains(lines[i], w)
    ensures r != -1 ==> forall i :: from <= i < r ==> !Contains(lines[i], w)
    decreases |lines| - from
  {
    if from >= |lines| then -1
    else if Contains(lines[from], w) then from
    else FirstLineWith(lines, w, from + 1)
  }

  function Max(a: int, b: int): int { if a >= b then a else b }

  function Min(a: int, b: int): int { if a <= b then a else b }

  /** Python's `xs[start:end]` for `0 <= start` and `0 <= end <= len(xs)`. */
  function Slice<T>(xs: seq<T>, start: int, end: int): seq<T>
    requires 0 <= start && 0 <= end <= |xs|
  {
    if start >= end then [] else xs[start..end]
  }

  /** `build_source_context`: the lines from `context` before the first line
      mentioning `name(` up to 20 lines from it, in a `c` fence; empty when no
      line mentions it. */
  function SourceContext(source: string, name: string, context: int): string
  {
    var lines := Split(source, '\n');
    var i := FirstLineWith(lines, name + "(", 0);
    if i == -1 then "" else ContextBlock(lines, i, context)
  }

  /** The fenced block of lines from `context` before line `i` up to 20
      lines from it. */
  function ContextBlock(lines: seq<string>, i: nat, context: int): string
    requires i < |lines|
  {
    "Source context:\n```c\n" + Join(Slice(lines, Max(0, i - context), Min(|lines|, i + 20)), "\n") + "\n```"
  }

  method BuildSourceContext(source: string, name: string, context: int) returns (r: string)
    ensures r == SourceContext(source, name, context)
  {
    var lines := Split(source, '\n');
    var w := name + "(";
    for i := 0 to |lines|
      invariant forall j :: 0 <= j < i ==> !Contains(lines[j], w)
    {
      if Contains(lines[i], w) {
        assert FirstLineWith(lines, w, 0) == i;
        return ContextBlock(lines, i, context);
      }
    }
    return "";
  }

  /** The context is empty exactly when `name(` occurs nowhere in the source;
      otherwise, for a non-negative context width, it shows a run of at most
      `context + 20` consecutive lines that includes the first line mentioning
      `name(`. */
  lemma SourceContextShows(source: string, name: string, context: int)
    requires '\n' !in name
    ensures SourceContext(source, name, context) == "" <==> !Contains(source, name + "(")
    ensures context >= 0 && Contains(source, name + "(") ==>
      var lines := Split(source, '\n');
      exists a, i, b :: 0 <= a <= i < b <= |lines| && b - a <= context + 20 &&
        Contains(lines[i], name + "(") && (forall j :: 0 <= j < i ==> !Contains(lines[j], name + "(")) &&
        SourceContext(source, name, context) == "Source context:\n```c\n" + Join(lines[a..b], "\n") + "\n```"
  {
    var w := name + "(";
    assert '\n' !in w;
    ContainsSplit(source, '\n', w);
    var lines := Split(source, '\n');
    var i := FirstLineWith(lines, w, 0);
    if i != -1 && context >= 0 {
      var a := Max(0, i - context);
      var b := Min(|lines|, i + 20);
      assert a <= i < b;
      assert Slice(lines, a, b) == lines[a..b];
      assert SourceContext(source, name, context) == ContextBlock(lines, i, context);
    }
  }

  /** A header line worth documenting. */
  predicate MentionsType(line: string) {
    Contains(line, "struct") || Contains(line, "typedef")
  }

  /** The documentation lines for the header lines that mention `struct` or
      `typedef`, in order, each stripped and indented by two spaces. */
  function TypeLines(lines: seq<string>): (r: seq<string>)
    ensures |r| <= |lines|
    ensures r == [] <==> forall i :: 0 <= i < |lines| ==> !MentionsType(lines[i])
  {
    if lines == [] then []
    else
      var before := TypeLines(lines[..|lines| - 1]);
      var last := lines[|lines| - 1];
      assert forall i :: 0 <= i < |lines| - 1 ==> lines[..|lines| - 1][i] == lines[i];
      if MentionsType(last) then before + ["  " + Strip(last)] else before
  }

  const TypesHeading := "Data structures defined:"

  /** `build_header_documentation` */
  function HeaderDoc(header: string): string {
    if MentionsType(header) then Join([TypesHeading] + TypeLines(Split(header, '\n')), "\n") else ""
  }

  method BuildHeaderDocumentation(header: string) returns (r: string)
    ensures r == HeaderDoc(header)
  {
    var lines: seq<string> := [];
    if MentionsType(header) {
      lines := lines + [TypesHeading];
      var hs := Split(header, '\n');
      for i := 0 to |hs|
        invariant lines == [TypesHeading] + TypeLines(hs[..i])
      {
        TypeLinesSnoc(hs, i);
        if MentionsType(hs[i]) {
          SnocAssoc([TypesHeading], TypeLines(hs[..i]), "  " + Strip(hs[i]));
          lines := lines + ["  " + Strip(hs[i])];
        }
      }
      assert hs[..|hs|] == hs;
    }
    r := Join(lines, "\n");
  }

  lemma SnocAssoc<T>(a: seq<T>, b: seq<T>, x: T)
    ensures a + b + [x] == a + (b + [x])
  {
  }

  /** One more header line adds its documentation line, if it has one. */
  lemma TypeLinesSnoc(hs: seq<string>, i: nat)
    requires i < |hs|
    ensures MentionsType(hs[i]) ==> TypeLines(hs[..i + 1]) == TypeLines(hs[..i]) + ["  " + Strip(hs[i])]
    ensures !MentionsType(hs[i]) ==> TypeLines(hs[..i + 1]) == TypeLines(hs[..i])
  {
    assert hs[..i + 1][..i] == hs[..i];
  }

  /** The documentation is empty exactly when the header never mentions
      `struct` or `typedef`; otherwise it is the heading followed by at least
      one documented line. */
  lemma HeaderDocShape(header: string)
    ensures HeaderDoc(header) == "" <==> !MentionsType(header)
    ensures MentionsType(header) ==>
      |TypeLines(Split(header, '\n'))| >= 1 &&
      Split(HeaderDoc(header), '\n')[0] == TypesHeading
  {
    if MentionsType(header) {
      MentionsTypeLines(header);
      var lines := Split(header, '\n');
      var k :| 0 <= k < |lines| && MentionsType(lines[k]);
      var ts := TypeLines(lines);
      assert ts != [];
      TypesHeadingLine();
      HeadedJoin(TypesHeading, ts);
      assert HeaderDoc(header) == Join([TypesHeading] + ts, "\n");
    }
  }

  lemma TypesHeadingLine()
    ensures TypesHeading != "" && '\n' !in TypesHeading
  {
  }

  /** Lines joined under a non-empty heading line: the text is not empty and
      its first line is the heading. */
  lemma HeadedJoin(heading: string, ts: seq<string>)
    requires heading != "" && '\n' !in heading && ts != []
    ensures Join([heading] + ts, "\n") != ""
    ensures Split(Join([heading] + ts, "\n"), '\n')[0] == heading
  {
    JoinCons(heading, ts, "\n");
    SplitLine(heading, Join(ts, "\n"));
  }

  /** The header mentions a type exactly when one of its lines does. */
  lemma MentionsTypeLines(header: string)
    ensures MentionsType(header) <==>
      exists i :: 0 <= i < |Split(header, '\n')| && MentionsType(Split(header, '\n')[i])
  {
    ContainsSplit(header, '\n', "struct");
    ContainsSplit(header, '\n', "typedef");
  }
}
