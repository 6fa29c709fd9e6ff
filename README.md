# c-unit-test-workflow in Dafny

A model of the core of c-unit-test-workflow, a unit-test generation pipeline
for C code, with proofs about that model. The pipeline has two parts.

The Python tools under `tools/`:

- `c_code_analyzer.py` finds `<type> <name>(<params>) {` definitions,
  `#include` targets and the calls in a function body. It records one entry
  per function name, on an insert-if-absent basis.
- `compile_commands_analyzer.py` reads GCC and MSVC flags out of
  `compile_commands.json` entries: include directories, macros, language
  standards, optimisation level and warnings. It merges the entries last-wins.
- `llm_test_generator.py` assembles a prompt from a function's facts and
  cleans the fenced reply of a language model. It falls back to a template
  when there is no reply, and also builds header and source-context snippets.
- `gtest_generator.py` renders a template gtest file: includes, a mock
  section, a fixture and three test cases chosen by type-dispatch rules. It
  also renders a mock header.
- `test_executor.py` parses gtest output into counts and failure lines, adds
  up the counts over the executables, decides the summary verdict, and finds
  the `_test` executables.

The sample C library under `src/`:

- `database.c` is a fixed table of 100 student records with a count. It
  supports append, first-match lookup and update, and delete by shifting the
  later records left.
- `validator.c` holds the name, score and id checks.
- `student_manager.c` issues ids from a counter and stores validated
  students in the table.

Each source file is one Dafny module. Code that changes state step by step
is written as classes and methods with loops, proved against specification
functions:

- the analyzer's function map and the compile-command table;
- the `+=` builders of the prompt, the mock section and the test file;
- the gtest parser and the run loop;
- the student table, which is an `array` updated in place.

The checks and the templates are functions. Python's regular expressions
are written as deterministic scanners over `seq<char>`, with a generic
`FindAll` standing for `re.finditer`. For each pattern, the comment at its
scanner explains why backtracking cannot change the match.

Helper modules:

- `Text` provides `str` methods: `strip`, `split`, `join`, `replace`,
  `capitalize`, `count` and `in`.
- `Scan` provides the regex primitives.
- `Sorting` provides `sorted` on strings.
- `OrderedDict` models a Python dict, which keeps insertion order.

A C `float` is the datatype `Float`: a finite value, an infinity or NaN.
This keeps the IEEE comparisons in `validate_score` exact.

## Model

| member | source | states |
|---|---|---|
| CCodeAnalyzer.IncludeAt | tools/c_code_analyzer.py:39 | a match of the include pattern captures a non-empty header name and ends after it |
| Scan.FindAllComplete | tools/test_executor.py:208 | `re.finditer` skips no match: every position where the pattern matches starts or lies inside a returned match |
| Scan.FindAllStart | tools/c_code_analyzer.py:102 | a match that no earlier match reaches over is returned at its own position with its own capture |
| CCodeAnalyzer.DefinitionAt | tools/c_code_analyzer.py:42 | a match of the definition pattern has word-shaped return type and name, parameter text without `)`, and ends just after its `{` |
| CCodeAnalyzer.DefinitionFrom | tools/c_code_analyzer.py:42 | once the return type has matched, a definition match keeps that return type, captures a word-shaped name and parameter text without `)`, and ends just after its `{` |
| CCodeAnalyzer.NameAndParamsAt | tools/c_code_analyzer.py:42 | the name-and-parameters part of the definition pattern captures a word and parameter text without `)`, and ends at a `{` |
| CCodeAnalyzer.ParamsAt | tools/c_code_analyzer.py:42 | the `\s*([^)]*)\s*\)\s*\{` tail captures text without `)` and ends at a `{` |
| CCodeAnalyzer.WordRun | tools/c_code_analyzer.py:42 | a maximal `\w` run starting on a word character is a word |
| CCodeAnalyzer.NoCloseBefore | tools/c_code_analyzer.py:42 | `[^)]*` consumes no `)` |
| CCodeAnalyzer.DefinitionsMatch | tools/c_code_analyzer.py:41-43 | every match of `re.finditer` over definitions is a pattern match at its start; the matches are in text order and do not overlap; a text with no match gives none; no match is skipped (every position where the pattern matches starts or lies inside a returned match) |
| CCodeAnalyzer.DefinitionsComplete | tools/c_code_analyzer.py:41-43 | `re.finditer` skips no definition: every position where the pattern matches starts or lies inside a returned match |
| CCodeAnalyzer.LastSpace | tools/c_code_analyzer.py:77 | the index of the last whitespace character, with none after it |
| CCodeAnalyzer.RSplitOnce | tools/c_code_analyzer.py:77 | `rsplit(None, 1)` gives at most two parts; the last part is non-empty and has no whitespace, and with two parts the first is non-empty |
| CCodeAnalyzer.ParamOf | tools/c_code_analyzer.py:75-79 | a fragment that yields a pair yields one with a non-empty type and a one-word name |
| CCodeAnalyzer.ParamsOfFragmentsShape | tools/c_code_analyzer.py:74-80 | at most one pair per comma fragment, each well formed |
| CCodeAnalyzer.ParseParameters | tools/c_code_analyzer.py:68-80 | the method computes the parameter list; empty text or text stripping to `void` gives no parameters |
| CCodeAnalyzer.ParseFragments | tools/c_code_analyzer.py:73-80 | the loop over the comma fragments appends each fragment's pair, in order |
| CCodeAnalyzer.ParseFragment | tools/c_code_analyzer.py:75-79 | one iteration: strip the fragment, then split it at its last whitespace run |
| CCodeAnalyzer.ParametersShape | tools/c_code_analyzer.py:74-80 | the result is no longer than the number of comma fragments, and every name is one word |
| CCodeAnalyzer.ScanEnd | tools/c_code_analyzer.py:91-96 | the brace scan stops within the text, at or after where it started |
| CCodeAnalyzer.ScanEndDepth | tools/c_code_analyzer.py:89-96 | the scan stops at the first position where the depth is 0, or at the end of the text |
| CCodeAnalyzer.BodySpan | tools/c_code_analyzer.py:84-98 | the cut span starts with `{`; a span that stops before the end of the text is balanced; a balanced span ends with `}` and has as many `{` as `}`; the depth is positive at every cut inside it |
| CCodeAnalyzer.CallAt | tools/c_code_analyzer.py:101 | a match of the call pattern captures a word |
| CCodeAnalyzer.CallNames | tools/c_code_analyzer.py:101-102 | every name found is a word followed, after optional whitespace, by `(` |
| CCodeAnalyzer.CallNamesComplete | tools/c_code_analyzer.py:101-102 | conversely, the identifier of every call match that starts where a word starts is in the set |
| CCodeAnalyzer.NoCallOverWordStart | tools/c_code_analyzer.py:101-102 | no earlier call match reaches over a call match that starts where a word starts |
| CCodeAnalyzer.CallInsideCall | tools/c_code_analyzer.py:101 | a call match that begins inside an earlier one is preceded by a word character |
| CCodeAnalyzer.CallsFound | tools/c_code_analyzer.py:101-102 | each call match is a call site of its captured word at its start |
| CCodeAnalyzer.ExtractCalls | tools/c_code_analyzer.py:82-106 | the calls of the span cut from the first `{` at or after `end`; empty when there is no such brace; never a keyword |
| CCodeAnalyzer.CallsAreCallSites | tools/c_code_analyzer.py:84-106 | every reported call is a non-keyword identifier followed by `(` inside a span that opens at a `{` and closes where the brace scan stops |
| CCodeAnalyzer.CallsStartAfterOwnBrace | tools/c_code_analyzer.py:42-54 | the definition match ends with its own `{`, so with no later `{` the function is recorded with no calls |
| CCodeAnalyzer.Facts | tools/c_code_analyzer.py:44-64 | one record per definition match, in match order |
| CCodeAnalyzer.RecordKeepsEntries | tools/c_code_analyzer.py:56-64 | insert-if-absent: entries already in the map are never removed or changed |
| CCodeAnalyzer.RecordCovers | tools/c_code_analyzer.py:50-64 | every record whose name is not skipped ends up in the map |
| CCodeAnalyzer.RecordNewEntries | tools/c_code_analyzer.py:50-64 | every new entry has a name that is not skipped and is the first record offered with that name |
| CCodeAnalyzer.RecordOnlySkipped | tools/c_code_analyzer.py:50-51 | records named `main` or starting with `_` add nothing |
| CCodeAnalyzer.NewEntriesOf | tools/c_code_analyzer.py:39-64 | a new entry carries the file's path and its full include set, and comes from the first definition with that name |
| CCodeAnalyzer.AnalyzedFileKeepsEntries | tools/c_code_analyzer.py:56-64 | analysing another file never changes an entry already recorded |
| CCodeAnalyzer.AnalyzedFileCovers | tools/c_code_analyzer.py:44-64 | every definition of the file whose name is not skipped is in the map afterwards |
| CCodeAnalyzer.Analyzer.AnalyzeFile | tools/c_code_analyzer.py:32-64 | the map after the loop over the matches is the specified one, and every entry stays keyed by its own name with no skipped name |
| CCodeAnalyzer.Analyzer.GetFunctionDependencies | tools/c_code_analyzer.py:122-124 | the entry recorded under the name, or none; a found entry has that name |
| CCodeAnalyzer.Analyzer.GetAllFunctions | tools/c_code_analyzer.py:126-128 | the map itself, in which no key is `main` or starts with `_` |
| CompileCommandsAnalyzer.FlagRunAt | tools/compile_commands_analyzer.py:105-114 | a flag match captures a non-empty run of the flag's character class |
| CompileCommandsAnalyzer.FirstRun | tools/compile_commands_analyzer.py:143 | the capture of `re.search` is a non-empty run of the class |
| CompileCommandsAnalyzer.FirstRunSearch | tools/compile_commands_analyzer.py:143-162 | the search finds nothing exactly when the pattern matches nowhere; otherwise it returns the capture of the lowest match |
| CompileCommandsAnalyzer.NormalizePath | tools/compile_commands_analyzer.py:202-208 | no backslash is left, and the result neither begins nor ends with a quote |
| CompileCommandsAnalyzer.NormalizeIdempotent | tools/compile_commands_analyzer.py:202-208 | normalising twice is normalising once |
| CompileCommandsAnalyzer.NormalizeAll | tools/compile_commands_analyzer.py:118 | the list comprehension normalises each path in place |
| CompileCommandsAnalyzer.ExtractIncludes | tools/compile_commands_analyzer.py:99-120 | the result is each distinct raw capture of `/I`, `-external:I` and `-I`, once, normalised |
| CompileCommandsAnalyzer.AppendCaptures | tools/compile_commands_analyzer.py:105-114 | each `finditer` loop appends its captures in match order |
| CompileCommandsAnalyzer.FlagMatchesComplete | tools/compile_commands_analyzer.py:105-114 | `re.finditer` skips no flag: every position where the flag and a run of its class match starts or lies inside a returned match |
| CompileCommandsAnalyzer.DedupNormalize | tools/compile_commands_analyzer.py:117-118 | deduplication by `set`, then normalisation |
| CompileCommandsAnalyzer.IncludeDirsNormalized | tools/compile_commands_analyzer.py:117-208 | no include directory contains a backslash or begins or ends with a quote |
| CompileCommandsAnalyzer.QuotedSame | tools/compile_commands_analyzer.py:205 | a double-quoted path normalises like the bare path |
| CompileCommandsAnalyzer.QuotedDuplicate | tools/compile_commands_analyzer.py:117-118 | a directory given both bare and quoted is listed twice, because deduplication comes first |
| CompileCommandsAnalyzer.SameNormalDuplicate | tools/compile_commands_analyzer.py:117-118 | two different captures with the same normal form both survive |
| CompileCommandsAnalyzer.DefineAt | tools/compile_commands_analyzer.py:127-133 | a define match captures a name that starts with a letter or `_`; an empty value is never kept as text |
| CompileCommandsAnalyzer.DefineEntries | tools/compile_commands_analyzer.py:127-136 | each pass yields word names and values that are never the empty string |
| CompileCommandsAnalyzer.DefinesFound | tools/compile_commands_analyzer.py:127-133 | every define match captures a word and no empty value |
| CompileCommandsAnalyzer.DefinesComplete | tools/compile_commands_analyzer.py:127-133 | a pass's entries are the captures of its matches, and `re.finditer` skips no define: every position where the pattern matches starts or lies inside a returned match |
| CompileCommandsAnalyzer.ExtractDefines | tools/compile_commands_analyzer.py:122-138 | the loops compute the two-pass dictionary |
| CompileCommandsAnalyzer.DefinesPrecedence | tools/compile_commands_analyzer.py:127-136 | a name is defined when either pass defines it; a `-D` value beats every `/D` value; within a pass the last flag wins |
| CompileCommandsAnalyzer.DefinesNeverEmpty | tools/compile_commands_analyzer.py:129-135 | `-DNAME` and `-DNAME=` both define NAME as None, never as the empty string |
| CompileCommandsAnalyzer.CStandard | tools/compile_commands_analyzer.py:140-151 | a C standard is `c` followed by a word |
| CompileCommandsAnalyzer.CStandardFirstMatch | tools/compile_commands_analyzer.py:143-144 | the first `-std=c<digits>` decides whenever one exists |
| CompileCommandsAnalyzer.CStandardIgnoresCxx | tools/compile_commands_analyzer.py:143-151 | a command whose only standard flags are `-std=c++…` and which has no `/std:c` yields no C standard |
| CompileCommandsAnalyzer.CStandardMsvc | tools/compile_commands_analyzer.py:143-151 | with no `-std=c<digits>`, the word after the first `/std:c` that has one gives `c<word>`; with neither, no C standard |
| CompileCommandsAnalyzer.FirstRunContains | tools/compile_commands_analyzer.py:147-148 | a `/std:c` pattern match implies the `'/std:c' in command` test holds (for any flag pattern) |
| CompileCommandsAnalyzer.FlagOccurs | tools/compile_commands_analyzer.py:147-148 | a flag match at a position starts with the flag text itself |
| CompileCommandsAnalyzer.CxxStandard | tools/compile_commands_analyzer.py:153-165 | a C++ standard is `c++` followed by digits |
| CompileCommandsAnalyzer.CxxStandardPriority | tools/compile_commands_analyzer.py:156-165 | `-std:c++`, then `-std=c++`, then `/std:c++`: the first spelling that matches anywhere decides and gives `c++` plus the digits of its first match; none matching gives None |
| CompileCommandsAnalyzer.FirstContained | tools/compile_commands_analyzer.py:178-180 | a found flag is in the list and occurs, and no flag listed before it occurs; none exactly when no listed flag occurs |
| CompileCommandsAnalyzer.Optimization | tools/compile_commands_analyzer.py:167-182 | always one of O0, O1, O2, O3, Os; `/Od` gives O0; otherwise `/Ox` or `/O2` gives O2; otherwise `/O1` gives O1; with no MSVC flag, the first GCC flag of `-O3`, `-O2`, `-O1`, `-O0`, `-Os` that occurs gives its name without the dash; with no flag at all the result is O2 |
| CompileCommandsAnalyzer.ExtractWarnings | tools/compile_commands_analyzer.py:184-200 | at most one of W3/W4, with W3 when both occur, then Wall and Wextra in that order; at most three entries |
| CompileCommandsAnalyzer.AnalyzeCommand | tools/compile_commands_analyzer.py:66-97 | the record holds the entry's fields (empty when missing) and each extractor's result |
| CompileCommandsAnalyzer.IncludeUnion | tools/compile_commands_analyzer.py:218-221 | the union of every entry's include directories |
| CompileCommandsAnalyzer.MergedDefinesKeys | tools/compile_commands_analyzer.py:225-228 | a macro is merged exactly when some entry defines it |
| CompileCommandsAnalyzer.MergedDefinesLastWins | tools/compile_commands_analyzer.py:225-228 | a macro takes the value of the last entry that defines it |
| CompileCommandsAnalyzer.Analyzer.AnalyzeEntry | tools/compile_commands_analyzer.py:62-64 | one iteration: an entry with a file is stored under that file, replacing an earlier value; an entry without one changes nothing |
| CompileCommandsAnalyzer.Analyzer.AnalyzeAll | tools/compile_commands_analyzer.py:59-64 | entries without a file are skipped; the last entry for a file wins; a new file goes last; files no entry names keep their value |
| CompileCommandsAnalyzer.TableOfAnalyzed | tools/compile_commands_analyzer.py:59-64 | the table `analyze_all` builds has that key order and those values |
| CompileCommandsAnalyzer.TableStepKeys | tools/compile_commands_analyzer.py:64 | a new file goes last in the dict; a known one keeps its place |
| CompileCommandsAnalyzer.StoredUnderOwnFile | tools/compile_commands_analyzer.py:64-88 | each record stays stored under its own file |
| CompileCommandsAnalyzer.Analyzer.SourceFiles | tools/compile_commands_analyzer.py:210-214 | strictly sorted, and exactly the files of the table |
| CompileCommandsAnalyzer.Analyzer.AllIncludes | tools/compile_commands_analyzer.py:216-221 | exactly the include directories of some entry |
| CompileCommandsAnalyzer.Analyzer.AllDefines | tools/compile_commands_analyzer.py:223-228 | the entries' defines merged in table order |
| OrderedDict.Update | tools/compile_commands_analyzer.py:227 | `dict.update` assigns the entries one after another, in order |
| CompileCommandsAnalyzer.Analyzer.GetCompileInfo | tools/compile_commands_analyzer.py:230-232 | the record stored for the file, or none; a found record names that file |
| LlmTestGenerator.BuildPrompt | tools/llm_test_generator.py:86-151 | the `+=` steps produce the specified prompt |
| LlmTestGenerator.AppendParams | tools/llm_test_generator.py:101-105 | the parameter lines are appended in declared order |
| LlmTestGenerator.AppendCalls | tools/llm_test_generator.py:108-113 | the call lines are appended in sorted order |
| LlmTestGenerator.AppendIncludes | tools/llm_test_generator.py:116-119 | the include lines are appended in sorted order |
| LlmTestGenerator.AppendCompile | tools/llm_test_generator.py:122-128 | the compilation lines are appended |
| LlmTestGenerator.ParamsSectionLines | tools/llm_test_generator.py:101-105 | one line `  - type name` per parameter in order, or the single line `  - void (no parameters)` |
| LlmTestGenerator.CallsSectionLines | tools/llm_test_generator.py:108-113 | with calls: the heading, then one `  - name()` line per call, each once and sorted |
| LlmTestGenerator.NoCallsLines | tools/llm_test_generator.py:112-113 | without calls, the single line `External Function Calls: None` |
| LlmTestGenerator.IncludesSectionLines | tools/llm_test_generator.py:116-119 | absent without include files; otherwise the heading and one line per file, each once and sorted |
| LlmTestGenerator.CompileSectionLines | tools/llm_test_generator.py:122-128 | the heading, the C standard (`default` when missing), the C++ standard (`c++14` when missing), and a Macros line in key order only when there are defines |
| LlmTestGenerator.CleanResponse | tools/llm_test_generator.py:153-169 | the result has no leading or trailing whitespace |
| LlmTestGenerator.CleanUnfenced | tools/llm_test_generator.py:156-167 | a reply not starting with a fence is only stripped |
| LlmTestGenerator.CleanFenced | tools/llm_test_generator.py:156-167 | a fenced reply gives back its code, stripped, with or without a closing fence |
| LlmTestGenerator.FencedCodeLines | tools/llm_test_generator.py:159-163 | dropping the fence line, and a last line stripping to a fence, leaves the code's lines |
| LlmTestGenerator.FallbackFixture | tools/llm_test_generator.py:171-198 | the fallback starts with the gtest include and declares `<Name>Test` with one `BasicTest` |
| LlmTestGenerator.GenerateTestFile | tools/llm_test_generator.py:51-84 | the prompt goes to the model; no reply or an empty one gives the fallback, otherwise the cleaned reply |
| LlmTestGenerator.TestForReply | tools/llm_test_generator.py:77-84 | a fenced reply yields its code, stripped |
| LlmTestGenerator.TestForNoReply | tools/llm_test_generator.py:77-79 | a failed or empty reply yields the fallback fixture |
| LlmTestGenerator.CompileInfoFor | tools/llm_test_generator.py:215-217 | compile info is passed exactly when the map has the function's source file |
| LlmTestGenerator.GenerateBatchTests | tools/llm_test_generator.py:200-222 | the loop fills the results dict in function order |
| LlmTestGenerator.BatchResults | tools/llm_test_generator.py:214-222 | one result per name, and a name has a result exactly when some function has it |
| LlmTestGenerator.BatchLastWins | tools/llm_test_generator.py:219-220 | the result for a name is the test of the last function with that name |
| LlmTestGenerator.FirstLineWith | tools/llm_test_generator.py:250-251 | the first line at or after `from` containing the word, or -1 when none does |
| LlmTestGenerator.BuildSourceContext | tools/llm_test_generator.py:244-259 | the loop returns the specified context |
| LlmTestGenerator.SourceContextShows | tools/llm_test_generator.py:247-259 | empty exactly when `name(` occurs nowhere; otherwise at most `context + 20` consecutive lines around the first line mentioning it |
| LlmTestGenerator.TypeLines | tools/llm_test_generator.py:238-240 | at most one documentation line per header line, and none exactly when no line mentions `struct` or `typedef` |
| LlmTestGenerator.BuildHeaderDocumentation | tools/llm_test_generator.py:228-242 | the loop returns the specified documentation |
| LlmTestGenerator.HeaderDocShape | tools/llm_test_generator.py:235-242 | empty exactly when the header never mentions `struct` or `typedef`; otherwise the heading and at least one line |
| LlmTestGenerator.MentionsTypeLines | tools/llm_test_generator.py:235-239 | the header mentions a type exactly when one of its lines does |
| GtestGenerator.GenerateIncludes | tools/gtest_generator.py:52-67 | the loop over the include files produces the specified block |
| GtestGenerator.IncludesLines | tools/gtest_generator.py:52-67 | the lines are strictly sorted: the derived header's line, one line per include file, and nothing else |
| GtestGenerator.DotCReplaced | tools/gtest_generator.py:57 | replacing `.c` by `.h` leaves no `.c` |
| GtestGenerator.HeaderNameOf | tools/gtest_generator.py:57-59 | for a path without `src`, the header name holds no `.c`, and a path without `.c` is its own header name |
| GtestGenerator.GenerateMockDefines | tools/gtest_generator.py:69-86 | the `+=` loop produces the specified section |
| GtestGenerator.MockDefinesShape | tools/gtest_generator.py:72-86 | the placeholder exactly when there are no calls; otherwise between the banners, with every call's comment pair |
| GtestGenerator.Arguments | tools/gtest_generator.py:178-189 | one argument per parameter |
| GtestGenerator.GenerateCallParams | tools/gtest_generator.py:173-191 | the loop produces the specified argument list |
| GtestGenerator.ArgumentRules | tools/gtest_generator.py:175-191 | each kind of argument goes to exactly the parameters its rule is the first to match; no parameters give the empty string |
| GtestGenerator.LongerTestsRedundant | tools/gtest_generator.py:180-182 | the second substring test of each pair is subsumed by the first |
| GtestGenerator.GenerateArrange | tools/gtest_generator.py:193-219 | the loop produces the specified arrange block |
| GtestGenerator.ArrangedParams | tools/gtest_generator.py:198-217 | the parameters that get a line are a subsequence of the parameters |
| GtestGenerator.ArrangeDropsUnmatched | tools/gtest_generator.py:198-217 | parameters no rule matches add no text |
| GtestGenerator.ArrangeLines | tools/gtest_generator.py:196-219 | the setup comment, then exactly one line per matched parameter, in order |
| GtestGenerator.AssertOnCase | tools/gtest_generator.py:226-236 | only an integer return type gives a case-dependent assertion: `EXPECT_EQ` for the normal case, `EXPECT_NE` otherwise |
| GtestGenerator.GenerateBasicTestCases | tools/gtest_generator.py:133-171 | the three appends produce the specified cases |
| GtestGenerator.BasicTestCasesShape | tools/gtest_generator.py:133-171 | exactly NormalCase, BoundaryCase, ErrorCase; one shared act line; the first two share the assertion; the error case differs exactly for integer return types |
| GtestGenerator.Numeral | tools/gtest_generator.py:116-118 | `str(n)` is a non-empty string of digits |
| GtestGenerator.NumeralValue | tools/gtest_generator.py:116-118 | the digits read back as `n` |
| GtestGenerator.Numbered | tools/gtest_generator.py:116 | `enumerate(cases, 1)` pairs case `i` with `i + 1` |
| GtestGenerator.GenerateTestCases | tools/gtest_generator.py:107-131 | the loop produces the specified test-case text |
| Text.AppendEach | tools/gtest_generator.py:116-129 | the `+=` loop over a sequence appends one piece per element, in order |
| GtestGenerator.GenerateHeader | tools/gtest_generator.py:37-50 | the include block inside the fixed head |
| GtestGenerator.GenerateTestFile | tools/gtest_generator.py:19-35 | the four parts appended in order |
| GtestGenerator.TestFileHead | tools/gtest_generator.py:30-93 | the file opens with the gtest and gmock includes, declares the `<Name>Test` fixture, and carries the placeholder when there is nothing to mock |
| GtestGenerator.TestFileCases | tools/gtest_generator.py:107-131 | the file holds `TestCase1_NormalCase`, `TestCase2_BoundaryCase` and `TestCase3_ErrorCase` on the fixture |
| GtestGenerator.GenerateMockHeader | tools/gtest_generator.py:240-261 | the loop produces the specified header |
| GtestGenerator.MockHeaderShape | tools/gtest_generator.py:243-261 | opens the include guard, ends with `#endif`, and holds a mock class per call; with no calls it is the guard alone |
| TestExecutor.DashTagAt | tools/test_executor.py:182 | a `[---]` tag ends inside the text, after its start |
| TestExecutor.LabelTagAt | tools/test_executor.py:188-202 | a `[ PASSED ]` or `[ FAILED ]` tag ends inside the text, after its start |
| TestExecutor.CountAt | tools/test_executor.py:182-194 | the `\s+(\d+)\s+test` tail ends inside the text |
| TestExecutor.FirstCountOf | tools/test_executor.py:182-196 | the first match decides the count |
| TestExecutor.LookaheadEnd | tools/test_executor.py:207 | where `(?=\[\|$)` first holds |
| TestExecutor.FailureAt | tools/test_executor.py:207 | a failure match ends inside the text, after its start |
| TestExecutor.CountTests | tools/test_executor.py:171-204 | the three searches and the recount give the specified counts |
| TestExecutor.CollectFailures | tools/test_executor.py:207-210 | one line appended per failure match, in text order |
| TestExecutor.ParseGtestOutput | tools/test_executor.py:169-212 | the method computes the specified parse of stdout followed by stderr |
| TestExecutor.NoMarkers | tools/test_executor.py:171-212 | output without any `[` parses to zero counts and no failures |
| TestExecutor.TotalLine | tools/test_executor.py:182-184 | the total is the number on the first dashed count line |
| TestExecutor.LabelLine | tools/test_executor.py:188-199 | a non-zero number on the first `[ PASSED ]` (or `[ FAILED ]`) line is the passed (or failed) count |
| TestExecutor.Recount | tools/test_executor.py:199-204 | the recount runs exactly when the total is positive and both searched counts are 0; it then counts `[ OK ]` and FAILED tags |
| TestExecutor.FailureLines | tools/test_executor.py:207-210 | one failure line per match, in text order; each match opens with a FAILED tag; each line is one line without leading whitespace |
| TestExecutor.FailuresComplete | tools/test_executor.py:207-208 | `re.finditer` skips no failure: every position where the failure pattern matches starts or lies inside one of the matches that give the failure lines |
| TestExecutor.FailureMatchTag | tools/test_executor.py:206-207 | each failure match opens with a FAILED tag, and the rest of it is the pattern's match after that tag |
| TestExecutor.AfterTagText | tools/test_executor.py:206-208 | after the tag, the first colon lies inside the match; the capture strips to the same text, and gives the same failure line, as everything from after that colon to the match's end; the match ends at the end of the output, before a `[`, or before a final newline |
| TestExecutor.AfterColonText | tools/test_executor.py:206 | the greedy `\s*` and the one character it may give back are stripped away, so the capture strips like the whole text after the colon; the match ends where the lookahead holds |
| TestExecutor.FailureLineText | tools/test_executor.py:207-209 | failure line `i` is the first line of match `i`'s capture, once stripped |
| TestExecutor.NoCount | tools/test_executor.py:182-196 | a count pattern that matches nowhere gives 0 |
| TestExecutor.BasenameSuffix | tools/test_executor.py:123 | the base name has no `/`, ends the path, and is the whole path or follows a `/` |
| TestExecutor.RunTests | tools/test_executor.py:93-145 | the result is the specified aggregate of the executables that ran |
| TestExecutor.Accumulate | tools/test_executor.py:111-143 | the loop appends each entry and adds its counts |
| TestExecutor.RunStep | tools/test_executor.py:122-128 | one executable's turn adds its entry, if any, and its counts |
| TestExecutor.SumsSnoc | tools/test_executor.py:126-128 | the totals are sums of the per-executable counts |
| TestExecutor.SkippedContributesNothing | tools/test_executor.py:140-143 | an executable that times out or errors contributes nothing |
| TestExecutor.FailedOfZero | tools/test_executor.py:128-242 | the summed failed count is zero exactly when every count is |
| TestExecutor.SummaryVerdict | tools/test_executor.py:214-242 | the summary is true exactly when no executable that ran had a failed test |
| TestExecutor.Matching | tools/test_executor.py:157-165 | every path kept from a directory ends with the suffix |
| TestExecutor.Candidates | tools/test_executor.py:156-165 | every path kept from the walk ends with the suffix |
| TestExecutor.FindTestExecutables | tools/test_executor.py:147-167 | the nested loops and the sort produce the specified list |
| TestExecutor.AddMatching | tools/test_executor.py:162-165 | the inner loop appends, in listing order, the joined path of each of one directory's files that ends with the suffix |
| TestExecutor.TestExecutablesShape | tools/test_executor.py:147-167 | sorted; every path ends with `_test` (`_test.exe` on Windows); exactly the matching walked files as a multiset; empty without a build directory |
| TestExecutor.CandidatesComplete | tools/test_executor.py:156-165 | every walked file with the suffix is a candidate |
| Validator.StrLen | src/validator.c:6 | `strlen`: the characters before the first NUL, which is where the length stops |
| Validator.ValidateStudentName | src/validator.c:5-13 | 0 or -1; 0 exactly for a non-null name of length 1 to 63 |
| Validator.ValidateScore | src/validator.c:15-20 | 0 or -1; -1 exactly when the score compares below 0 or above 100 |
| Validator.ValidateStudentId | src/validator.c:22-27 | 0 or -1; 0 exactly when the id is positive |
| Validator.ScoreRange | src/validator.c:16-19 | a finite score is accepted exactly in [0, 100], both bounds included; infinities are refused |
| Validator.NaNAccepted | src/validator.c:16-19 | NaN fails both comparisons and is accepted |
| Validator.NameStopsAtNul | src/validator.c:6-12 | characters after a NUL never count toward the length |
| Validator.StrLenPrefix | src/validator.c:6 | a NUL-free prefix counts whole |
| Database.FirstIndex | src/database.c:32-37 | the lowest index with the id, or none exactly when no record has it |
| Database.Table.constructor | src/database.c:5-6 | the storage starts zeroed, with no record in use |
| Database.Table.Init | src/database.c:8-12 | count 0, every slot zeroed, returns 0 |
| Database.Table.Add | src/database.c:14-25 | refuses a full table (checked first) or a null record, changing nothing; otherwise stores the record at `count`, grows the count by one, and leaves the other slots alone |
| Database.Table.Get | src/database.c:27-39 | a null destination or no match gives -1 with the destination untouched; otherwise 0 and a copy of the first match |
| Database.Table.UpdateScore | src/database.c:41-49 | 0 exactly when some record has the id; only that first match's score changes |
| Database.Table.Delete | src/database.c:51-61 | 0 exactly when some record has the id; the first match is removed and the slots past the new count keep their records |
| Database.MoveDown | src/database.c:54-55 | the `memmove` shifts the records after `from` down by one and leaves the last slot as it was |
| Database.AppendFound | src/database.c:22-37 | an appended record is found by its id exactly when no earlier record has that id |
| Database.DeleteUndoesAdd | src/database.c:22-57 | deleting the id of a fresh append restores the table |
| Database.UpdateOnlyScore | src/database.c:42-45 | only the first match's score changes; ids, names and other records stay, and a lookup then sees the new score |
| Database.DeleteRemovesOne | src/database.c:52-57 | one record fewer (that record, as a multiset); earlier records stay in place and later ones move down by one |
| Database.RemoveAt | src/database.c:54-56 | taking out one element keeps the order of the others |
| Database.DeleteAbsent | src/database.c:52-60 | deleting an absent id changes nothing, and a delete never adds a record |
| StudentManager.NameBuffer | src/student_manager.c:17-18 | the buffer has 64 characters and ends with NUL |
| StudentManager.Manager.constructor | src/student_manager.c:5 | the counter starts at 1 |
| StudentManager.Manager.AddStudent | src/student_manager.c:7-26 | a refused name or score gives -1 with nothing changed; otherwise the counter rises by one before the insert; a full table gives -1; success returns the pre-increment id (at least 1) and appends that record |
| StudentManager.Manager.UpdateStudentScore | src/student_manager.c:28-41 | a refused id or score gives -1 with the table untouched; otherwise 0 exactly when the table had the id, with the table's update applied |
| StudentManager.Manager.TotalStudents | src/student_manager.c:60-63 | the number of ids handed out, not the number of records |
| StudentManager.NameBufferKeepsName | src/student_manager.c:17-18 | a valid name reads back whole from its buffer |
| StudentManager.NameBufferTruncates | src/student_manager.c:17-18 | a longer name is cut to its first 63 characters |
| StudentManager.IdsIncrease | src/student_manager.c:5-16 | in a manager, the ids handed out so far increase strictly from 1 and stay below the counter that gives the next one, so no id repeats |
| StudentManager.FreshIdFound | src/student_manager.c:16-21 | a record whose id is above every stored id is found by that id after the append |

## Left out

- File and process I/O are parameters of the model:
  - the file reads in `analyze_file` and `analyze_directory`;
  - the JSON loading of `compile_commands.json`;
  - `subprocess.run` in `run_tests`, which becomes a function from an executable to its (stdout, stderr) or to nothing on a timeout or error;
  - the `os.walk` listing in `_find_test_executables`, which becomes a list of (directory, files);
  - the existence check on the build directory and the platform test, which become booleans.
- `analyze_directory`: it only walks two directories and calls `analyze_file` on `.h` and `.c` files.
- `TestExecutor.build_tests` (cmake), `print_summary`'s printing and the pass-rate percentage (floating point), and `get_average_score` in `src/student_manager.c` (floating-point division) are not part of this model.
- The language model client (`tools/llm_client.py`) is an arbitrary function from prompt to optional reply. The sampling settings it receives are not modelled.
- The regular-expression engine is not modelled in general. Each pattern the core uses has its own scanner. `\w` and `\d` are ASCII only, and `capitalize` and `lower` act on ASCII letters only. Python's Unicode classes are not modelled.
- Each `print` and logging call is left out.
- Windows path separators: `os.path.basename` and `os.path.join` are modelled with `/` only.
- `_extract_includes` returns the distinct captures in the order `list(set(...))` happens to give. The model allows any duplicate-free order.
- GtestGenerator.HeaderNameOf: stated only for paths without `src`. For such paths the `src/` removal does not apply.
- Int32 arithmetic: ids, counts and `g_next_id` are unbounded integers. The overflow of `g_next_id++` after 2^31 - 1 additions is undefined behaviour in C and is not modelled.
- Float values: a score is a real number, an infinity or NaN. `float` rounding is not modelled, because the table only stores and compares scores.
- A record's name is its 64-character buffer. The bytes after the terminator are NUL, as `strncpy` pads them.
- StudentManager.FreshIdFound: stated for any table whose ids are all below the new id. That holds when only the manager adds records, but the model does not carry it as an invariant, since the table is shared.
- TestExecutor.RunTests: the loop is proved against `Parsed`, the specification function that `ParseGtestOutput` is proved to compute. It does not call that method.
