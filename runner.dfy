/** `lintFixRunner.ts` above the process layer: the prompts, the lint task
    generation, one fix per issue, and `runLintFixes`, which fans the fixes
    out over the work pool and tallies the statuses. The outside world is
    the `exec` of `Commands`; the JSON layer is a `JsonTools` value. */
module Runner {
  import opened Wrappers
  import opened JsStrings
  import opened RunnerErrors
  import opened Commands
  import opened JsonExtract
  import opened Opencode
  import opened WorkPool

  /** One element of the lint task array schema. */
  datatype LintIssue = LintIssue(
    lintMessage: string,
    suggestionsText: string,
    loc: int,
    column: int,
    filePath: string)

  /** The lint task result schema. */
  datatype FixResult = FixResult(status: string, summary: string)

  /** `RunLintFixesResult`. */
  datatype RunResult = RunResult(issues: seq<LintIssue>, results: seq<FixResult>)

  /** The JSON layer: `parses` stands for `JSON.parse` succeeding, the two
      validators for the schemas' `safeParse` on the parsed text (the error
      text on failure), and the two texts for `JSON.stringify(z.toJSONSchema(...))`. */
  datatype JsonTools = JsonTools(
    parses: string -> bool,
    issuesSchema: string -> Result<seq<LintIssue>, string>,
    resultSchema: string -> Result<FixResult, string>,
    issuesSchemaText: string,
    resultSchemaText: string)

  /** `fixer`: the model-tool options of the fixing calls and the pool width. */
  datatype FixerOptions = FixerOptions(opencode: OpencodeOptions, concurrency: Option<int>)

  /** `RunLintFixesOptions` without `cwd` and `env`. */
  datatype RunLintFixesOptions = RunLintFixesOptions(
    lintCommand: Option<CommandSpec>,
    parser: Option<OpencodeOptions>,
    fixer: Option<FixerOptions>)

  const Ellipsis: char := '…'

  /** `truncate(value, maxLength)`: a value longer than `maxLength` keeps its
      first `maxLength - 1` characters and gets an ellipsis. With
      `maxLength == 0`, `slice(0, -1)` drops only the last character. */
  function Truncate(value: string, maxLength: nat): (r: string)
    ensures |value| <= maxLength ==> r == value
    ensures |value| > maxLength >= 1 ==> |r| == maxLength && r == value[..maxLength - 1] + [Ellipsis]
    ensures |value| > maxLength == 0 ==> r == value[..|value| - 1] + [Ellipsis]
    ensures |r| <= (if maxLength == 0 then |value| else maxLength)
  {
    if |value| > maxLength then Slice(value, 0, maxLength - 1) + [Ellipsis] else value
  }

  /** `[stdout, stderr].filter(part => part.length > 0).join("\n")`. */
  function LintOutput(stdout: string, stderr: string): (r: string)
    ensures r == [] <==> stdout == [] && stderr == []
    ensures stdout != [] ==> IsPrefix(stdout, r)
    ensures stderr != [] ==> IsSuffix(stderr, r)
    ensures stdout != [] && stderr != [] ==> r == stdout + "\n" + stderr
    ensures stdout == [] || stderr == [] ==> r == stdout + stderr
  {
    LintOutputParts(stdout, stderr);
    Join(FilterNonEmpty([stdout, stderr]), "\n")
  }

  lemma LintOutputParts(stdout: string, stderr: string)
    ensures var parts := FilterNonEmpty([stdout, stderr]);
      && parts == (if stdout != [] then [stdout] else []) + (if stderr != [] then [stderr] else [])
      && (Join(parts, "\n") == [] <==> parts == [])
      && (parts != [] ==> IsPrefix(parts[0], Join(parts, "\n")) && IsSuffix(parts[|parts| - 1], Join(parts, "\n")))
  {
    var parts := FilterNonEmpty([stdout, stderr]);
    assert [stdout, stderr] == [stdout] + [stderr];
    FilterNonEmptyParts([stdout], [stderr]);
    FilterNonEmptyOne(stdout);
    FilterNonEmptyOne(stderr);
    JoinEmptyIff(parts, "\n");
    if parts != [] { JoinEnds(parts, "\n"); }
  }

  /** `generateLintTaskPrompt(lintOut)`: the conversion request, the schema,
      and the lint output at the end. */
  function LintTaskPrompt(lintOut: string, schemaText: string): (r: string)
    ensures IsSuffix(lintOut, r)
    ensures IsInfix(schemaText, r)
  {
    var lead := "convert the following linting output to JSON matching this schema: ";
    var tail := "\n\nLint output:\n";
    var r := lead + schemaText + tail + lintOut;
    assert r[|lead|..|lead| + |schemaText|] == schemaText;
    assert OccursAt(schemaText, r, |lead|);
    assert r[|r| - |lintOut|..] == lintOut;
    r
  }

  function FileLine(issue: LintIssue): string { "- File: " + issue.filePath }

  function LocationLine(issue: LintIssue): string {
    "- Location: line " + IntToString(issue.loc) + ", column " + IntToString(issue.column)
  }

  function MessageLine(issue: LintIssue): string { "- Message: " + issue.lintMessage }

  /** The suggestions entry, `""` when there are none. */
  function SuggestionsLine(issue: LintIssue): string {
    if issue.suggestionsText != [] then "Suggestions:\n" + issue.suggestionsText else ""
  }

  function SchemaLine(schemaText: string): string {
    "Respond with JSON matching this schema: " + schemaText
  }

  const PromptPreamble: seq<string> := [
    "You are an experienced engineer improving a codebase.",
    "Resolve exactly one ESLint finding using the provided schema.",
    "Only modify the specified file and keep changes minimal.",
    "Repository guardrails:",
    "- Keep changes minimal and strongly typed.",
    "- NEVER use any.",
    "- NEVER take shortcuts.",
    "- Do not downgrade types or disable lint rules.",
    "Lint finding details:"]

  /** The fourteen entries of `buildFixPrompt`'s array, before the filter. */
  function FixPromptLines(issue: LintIssue, schemaText: string): seq<string> {
    PromptPreamble + [FileLine(issue), LocationLine(issue), MessageLine(issue), SuggestionsLine(issue), SchemaLine(schemaText)]
  }

  /** `buildFixPrompt(issue)`: the non-empty entries joined by newlines. */
  function BuildFixPrompt(issue: LintIssue, schemaText: string): string {
    Join(FilterNonEmpty(FixPromptLines(issue, schemaText)), "\n")
  }

  /** Only the suggestions entry can be empty, so the filter drops exactly
      that entry and only when there are no suggestions. */
  lemma FixPromptKeptLines(issue: LintIssue, schemaText: string)
    ensures var lines := FixPromptLines(issue, schemaText);
      FilterNonEmpty(lines) == if issue.suggestionsText != [] then lines else lines[..12] + lines[13..]
  {
    var lines := FixPromptLines(issue, schemaText);
    var head, mid, tail := lines[..12], [lines[12]], lines[13..];
    assert lines == head + mid + tail;
    assert FilterNonEmpty(head) == head && FilterNonEmpty(tail) == tail by {
      assert forall k :: 0 <= k < |head| ==> head[k] != [];
      assert tail == [SchemaLine(schemaText)];
    }
    assert FilterNonEmpty(mid) == if issue.suggestionsText != [] then mid else [] by {
      FilterNonEmptyOne(lines[12]);
    }
    FilterNonEmptyParts(head + mid, tail);
    FilterNonEmptyParts(head, mid);
  }

  /** The prompt opens with the preamble, names the issue's file, location
      and message, carries its suggestions when there are any, and ends with
      the schema request. */
  lemma {:induction false} FixPromptMentionsIssue(issue: LintIssue, schemaText: string)
    ensures var prompt := BuildFixPrompt(issue, schemaText);
      && IsPrefix(Join(PromptPreamble, "\n") + "\n", prompt)
      && IsInfix(FileLine(issue), prompt)
      && IsInfix(LocationLine(issue), prompt)
      && IsInfix(MessageLine(issue), prompt)
      && (issue.suggestionsText != [] ==> IsInfix(SuggestionsLine(issue), prompt))
      && IsSuffix(SchemaLine(schemaText), prompt)
  {
    KeptLineFacts(issue, schemaText);
    var suggestions := if issue.suggestionsText != [] then Some(SuggestionsLine(issue)) else None;
    JoinedKeptLines(FilterNonEmpty(FixPromptLines(issue, schemaText)),
      FileLine(issue), LocationLine(issue), MessageLine(issue), suggestions, SchemaLine(schemaText));
  }

  /** The same facts for any list of lines laid out as the kept lines are:
      the preamble, then the file, location and message lines, then the
      suggestions line when there is one, and the schema line last. */
  lemma JoinedKeptLines(kept: seq<string>, file: string, location: string, message: string,
                        suggestions: Option<string>, schema: string)
    requires |kept| >= 13 && kept[..9] == PromptPreamble
    requires kept[9] == file && kept[10] == location && kept[11] == message
    requires suggestions.Some? ==> kept[12] == suggestions.value
    requires kept[|kept| - 1] == schema
    ensures var prompt := Join(kept, "\n");
      && IsPrefix(Join(PromptPreamble, "\n") + "\n", prompt)
      && IsInfix(file, prompt) && IsInfix(location, prompt) && IsInfix(message, prompt)
      && (suggestions.Some? ==> IsInfix(suggestions.value, prompt))
      && IsSuffix(schema, prompt)
  {
    var prompt := Join(kept, "\n");
    assert IsPrefix(Join(PromptPreamble, "\n") + "\n", prompt) by {
      JoinedPrefix(kept, 9);
    }
    assert IsSuffix(schema, prompt) by {
      JoinEnds(kept, "\n");
    }
    assert IsInfix(file, prompt) by {
      JoinContainsParts(kept, "\n", 9);
    }
    assert IsInfix(location, prompt) by {
      JoinContainsParts(kept, "\n", 10);
    }
    assert IsInfix(message, prompt) by {
      JoinContainsParts(kept, "\n", 11);
    }
    if suggestions.Some? {
      JoinContainsParts(kept, "\n", 12);
    }
  }

  /** The first `n` lines, joined and followed by a newline, open the
      joined text of more than `n` lines. */
  lemma JoinedPrefix(lines: seq<string>, n: nat)
    requires 0 < n < |lines|
    ensures IsPrefix(Join(lines[..n], "\n") + "\n", Join(lines, "\n"))
  {
    assert lines == lines[..n] + lines[n..];
    JoinConcat(lines[..n], lines[n..], "\n");
  }

  /** Where the issue's lines sit among the kept lines. */
  lemma KeptLineFacts(issue: LintIssue, schemaText: string)
    ensures var kept := FilterNonEmpty(FixPromptLines(issue, schemaText));
      && |kept| >= 13
      && kept[..9] == PromptPreamble
      && kept[9] == FileLine(issue) && kept[10] == LocationLine(issue) && kept[11] == MessageLine(issue)
      && (issue.suggestionsText != [] ==> kept[12] == SuggestionsLine(issue))
      && kept[|kept| - 1] == SchemaLine(schemaText)
  {
    var lines := FixPromptLines(issue, schemaText);
    assert |lines| == 14 && lines[..9] == PromptPreamble;
    assert lines[9] == FileLine(issue) && lines[10] == LocationLine(issue) && lines[11] == MessageLine(issue);
    assert lines[12] == SuggestionsLine(issue) && lines[13] == SchemaLine(schemaText);
    FixPromptKeptLines(issue, schemaText);
    var kept := FilterNonEmpty(lines);
    if issue.suggestionsText == [] {
      var cut := lines[..12] + lines[13..];
      assert kept == cut;
      assert |cut| == 13 && cut[..9] == lines[..9] && cut[12] == lines[13];
      assert cut[9] == lines[9] && cut[10] == lines[10] && cut[11] == lines[11];
    }
  }

  /** Without suggestions, the prompt is thirteen lines: no blank line is
      left where the suggestions would go. */
  lemma NoSuggestionsNoBlankLine(issue: LintIssue, schemaText: string)
    requires issue.suggestionsText == []
    ensures var kept := FilterNonEmpty(FixPromptLines(issue, schemaText));
      |kept| == 13 && kept[12] == SchemaLine(schemaText) && kept[11] == MessageLine(issue)
  {
    FixPromptKeptLines(issue, schemaText);
  }

  /** `JSON.parse(extractJsonCandidate(output))`: the extracted candidate,
      which must parse (the extractor gives back `""` for blank output, and
      it is this parse that rejects it). */
  function ParsedCandidate(output: string, parses: string -> bool): (r: Result<string, RunnerError>)
    ensures r.Ok? ==> parses(r.value) && IsInfix(r.value, Trim(output))
    ensures r.Err? ==> r.error.JsonParseFailed?
    ensures IsBlank(output) && !parses([]) ==> r == Err(JsonParseFailed([]))
  {
    var candidate :- ExtractJsonCandidate(output, parses);
    if parses(candidate) then Ok(candidate) else Err(JsonParseFailed(candidate))
  }

  /** The argument vector of the lint command, or why there is none. */
  function LintArgv(lintCommand: Option<CommandSpec>, envDefault: Option<string>): (r: Result<seq<string>, RunnerError>)
    // a resolved command always converts, so the only failure is resolving it
    ensures r.Err? <==> ResolveLintCommand(lintCommand, envDefault).Err?
    ensures r.Err? ==> r == Err(NoLintCommand)
  {
    var command :- ResolveLintCommand(lintCommand, envDefault);
    ToCommandArgs(command)
  }

  /** What the parser model makes of a non-empty lint output. */
  function IssuesFromLintOutput(lintOutput: string, parser: Option<OpencodeOptions>, exec: Exec, json: JsonTools): (r: Result<seq<LintIssue>, RunnerError>)
    // the issues are what the schema accepted for a parsing piece of the
    // parser model's trimmed answer to the conversion prompt
    ensures var answer := InvokeOpencode(LintTaskPrompt(lintOutput, json.issuesSchemaText), parser, exec);
      r.Ok? ==> answer.Ok? && exists c :: IsInfix(c, Trim(answer.value)) && json.parses(c) && json.issuesSchema(c) == Ok(r.value)
    ensures var answer := InvokeOpencode(LintTaskPrompt(lintOutput, json.issuesSchemaText), parser, exec);
      answer.Err? ==> r == Err(answer.error)
    ensures r.Err? ==> r.error.ModelInvocationFailed? || r.error.JsonParseFailed? || r.error.LintTasksInvalid?
  {
    var output :- InvokeOpencode(LintTaskPrompt(lintOutput, json.issuesSchemaText), parser, exec);
    var candidate :- ParsedCandidate(output, json.parses);
    match json.issuesSchema(candidate)
    case Err(reason) => Err(LintTasksInvalid(reason))
    case Ok(items) => Ok(items)
  }

  /** `generateLintTaskItems(options)`: run the lint command; a non-zero exit
      is an error with stderr, else stdout; an empty lint output yields no
      issues; otherwise the parser model converts the output and the schema
      validates it. */
  function GenerateLintTaskItems(lintCommand: Option<CommandSpec>, envDefault: Option<string>, parser: Option<OpencodeOptions>, exec: Exec, json: JsonTools): (r: Result<seq<LintIssue>, RunnerError>)
    ensures LintArgv(lintCommand, envDefault).Err? ==> r == Err(LintArgv(lintCommand, envDefault).error)
    ensures r.Ok? && r.value != [] ==> exists c :: json.parses(c) && json.issuesSchema(c) == Ok(r.value)
  {
    var argv :- LintArgv(lintCommand, envDefault);
    var p := Completed(exec(argv));
    if p.exitCode != 0 then Err(LintCommandFailed(p.exitCode, OrElse(p.stderr, p.stdout)))
    else
      var lintOutput := LintOutput(p.stdout, p.stderr);
      if lintOutput == [] then Ok([])
      else IssuesFromLintOutput(lintOutput, parser, exec, json)
  }

  /** A failing lint command is reported with its exit code and its stderr,
      or its stdout when stderr is empty; the model tool is never asked. */
  lemma LintFailureReported(lintCommand: Option<CommandSpec>, envDefault: Option<string>, parser: Option<OpencodeOptions>, exec: Exec, json: JsonTools)
    requires LintArgv(lintCommand, envDefault).Ok?
    requires exec(LintArgv(lintCommand, envDefault).value).exitCode != 0
    ensures var raw := exec(LintArgv(lintCommand, envDefault).value);
      var r := GenerateLintTaskItems(lintCommand, envDefault, parser, exec, json);
      && r == Err(LintCommandFailed(raw.exitCode, if IsBlank(raw.stderr) then Trim(raw.stdout) else Trim(raw.stderr)))
      && IsInfix(IntToString(raw.exitCode), r.error.Message())
  {
    var raw := exec(LintArgv(lintCommand, envDefault).value);
    ExitFailureMessage(GenerateLintTaskItems(lintCommand, envDefault, parser, exec, json).error);
  }

  /** When the lint command succeeds with only whitespace on both streams,
      there are no issues, and the result is the same whatever the model
      tool would answer: the model is not invoked. */
  lemma EmptyLintOutputSkipsModel(lintCommand: Option<CommandSpec>, envDefault: Option<string>, parser: Option<OpencodeOptions>, exec: Exec, other: Exec, json: JsonTools)
    requires LintArgv(lintCommand, envDefault).Ok?
    requires var raw := exec(LintArgv(lintCommand, envDefault).value);
      raw.exitCode == 0 && IsBlank(raw.stdout) && IsBlank(raw.stderr)
    requires other(LintArgv(lintCommand, envDefault).value) == exec(LintArgv(lintCommand, envDefault).value)
    ensures GenerateLintTaskItems(lintCommand, envDefault, parser, exec, json) == Ok([])
    ensures GenerateLintTaskItems(lintCommand, envDefault, parser, other, json) == Ok([])
  {
  }

  /** Once there is lint output, the lint command's exit code was 0 and the
      output goes to the model tool inside the conversion prompt. */
  lemma LintOutputReachesModel(lintCommand: Option<CommandSpec>, envDefault: Option<string>, parser: Option<OpencodeOptions>, exec: Exec, json: JsonTools)
    requires LintArgv(lintCommand, envDefault).Ok?
    requires var p := Completed(exec(LintArgv(lintCommand, envDefault).value));
      p.exitCode == 0 && !(p.stdout == [] && p.stderr == [])
    ensures var p := Completed(exec(LintArgv(lintCommand, envDefault).value));
      var lintOutput := LintOutput(p.stdout, p.stderr);
      && lintOutput != []
      && GenerateLintTaskItems(lintCommand, envDefault, parser, exec, json) == IssuesFromLintOutput(lintOutput, parser, exec, json)
  {
  }

  /** `options.fixer` as `invokeOpencode` sees it: only the tool options. */
  function FixerOpencode(fixer: Option<FixerOptions>): Option<OpencodeOptions> {
    if fixer.Some? then Some(fixer.value.opencode) else None
  }

  /** `options.fixer?.concurrency ?? 1`. */
  function FixConcurrency(fixer: Option<FixerOptions>): (k: int)
    ensures fixer.None? || fixer.value.concurrency.None? ==> k == 1
    ensures fixer.Some? && fixer.value.concurrency.Some? ==> k == fixer.value.concurrency.value
  {
    if fixer.Some? then fixer.value.concurrency.GetOr(1) else 1
  }

  /** `runFixForIssue(issue, options)`: one call of the fixing model; its
      answer must contain JSON that the result schema accepts. */
  function RunFixForIssue(issue: LintIssue, fixer: Option<OpencodeOptions>, exec: Exec, json: JsonTools): (r: Result<FixResult, RunnerError>)
    // the result is what the schema accepted for a parsing piece of the
    // fixing model's trimmed answer to this issue's fix prompt
    ensures var answer := InvokeOpencode(BuildFixPrompt(issue, json.resultSchemaText), fixer, exec);
      r.Ok? ==> answer.Ok? && exists c :: IsInfix(c, Trim(answer.value)) && json.parses(c) && json.resultSchema(c) == Ok(r.value)
    ensures var answer := InvokeOpencode(BuildFixPrompt(issue, json.resultSchemaText), fixer, exec);
      answer.Err? ==> r == Err(answer.error)
    ensures r.Err? ==> r.error.ModelInvocationFailed? || r.error.JsonParseFailed? || r.error.FixResultInvalid?
  {
    var output :- InvokeOpencode(BuildFixPrompt(issue, json.resultSchemaText), fixer, exec);
    var candidate :- ParsedCandidate(output, json.parses);
    match json.resultSchema(candidate)
    case Err(reason) => Err(FixResultInvalid(reason))
    case Ok(result) => Ok(result)
  }

  /** `runFixForIssue(issue, options.fixer)` as the worker the pool is given. */
  function FixOf(fixer: Option<OpencodeOptions>, exec: Exec, json: JsonTools): LintIssue -> Result<FixResult, RunnerError> {
    issue => RunFixForIssue(issue, fixer, exec, json)
  }

  /** The fix of `issues[i]` fails and every earlier one succeeds. */
  predicate FirstFailure(issues: seq<LintIssue>, fix: LintIssue -> Result<FixResult, RunnerError>, i: nat)
    requires i < |issues|
  {
    && fix(issues[i]).Err?
    && forall k :: 0 <= k < i ==> fix(issues[k]).Ok?
  }

  /** There is only one first failure, and the sequential run reports it. */
  lemma FirstFailureUnique(issues: seq<LintIssue>, fix: LintIssue -> Result<FixResult, RunnerError>, i: nat)
    requires i < |issues| && FirstFailure(issues, fix, i)
    ensures FixAll(issues, fix) == Err(fix(issues[i]).error)
  {
    var j :| 0 <= j < |issues| && FirstFailure(issues, fix, j) && fix(issues[j]) == Err(FixAll(issues, fix).error);
    assert FirstFailure(issues, fix, j);
    assert forall k :: 0 <= k < j ==> fix(issues[k]).Ok?;
    assert forall k :: 0 <= k < i ==> fix(issues[k]).Ok?;
    assert fix(issues[i]).Err? && fix(issues[j]).Err?;
    assert i == j;
  }

  /** The fixes one after another, in issue order: the reference against
      which the pool is compared. It fails with the first failing fix. */
  function FixAll(issues: seq<LintIssue>, fix: LintIssue -> Result<FixResult, RunnerError>): (r: Result<seq<FixResult>, RunnerError>)
    ensures r.Ok? <==> forall i :: 0 <= i < |issues| ==> fix(issues[i]).Ok?
    ensures r.Ok? ==>
      && |r.value| == |issues|
      && forall i :: 0 <= i < |issues| ==> fix(issues[i]) == Ok(r.value[i])
    ensures r.Err? ==> exists i :: 0 <= i < |issues| && FirstFailure(issues, fix, i) && fix(issues[i]) == Err(r.error)
  {
    if issues == [] then Ok([])
    else
      var first := fix(issues[0]);
      var rest := FixAll(issues[1..], fix);
      if first.Err? then
        assert FirstFailure(issues, fix, 0);
        Err(first.error)
      else if rest.Err? then
        assert forall k :: 1 <= k < |issues| ==> issues[1..][k - 1] == issues[k];
        var j :| 0 <= j < |issues[1..]| && FirstFailure(issues[1..], fix, j) && fix(issues[1..][j]) == Err(rest.error);
        assert FirstFailure(issues, fix, j + 1);
        Err(rest.error)
      else
        assert forall k :: 1 <= k < |issues| ==> issues[1..][k - 1] == issues[k];
        Ok([first.value] + rest.value)
  }

  /** The issues `runLintFixes` works on: it resolves the lint command
      itself and hands the resolved command to `generateLintTaskItems`. */
  function IssuesStage(options: RunLintFixesOptions, envDefault: Option<string>, exec: Exec, json: JsonTools): Result<seq<LintIssue>, RunnerError> {
    var command :- ResolveLintCommand(options.lintCommand, envDefault);
    GenerateLintTaskItems(Some(command), envDefault, options.parser, exec, json)
  }

  /** Resolving twice is resolving once: the issues are those of
      `generateLintTaskItems` called with the options' own command. */
  lemma IssuesStageResolvesOnce(options: RunLintFixesOptions, envDefault: Option<string>, exec: Exec, json: JsonTools)
    ensures IssuesStage(options, envDefault, exec, json) ==
      GenerateLintTaskItems(options.lintCommand, envDefault, options.parser, exec, json)
  {
    var resolved := ResolveLintCommand(options.lintCommand, envDefault);
    if resolved.Ok? {
      ResolveIdempotent(options.lintCommand, envDefault, envDefault);
      assert LintArgv(Some(resolved.value), envDefault) == LintArgv(options.lintCommand, envDefault);
    }
  }

  /** What follows the issues in `runLintFixes`, with the fixes done one
      after another: no issues return at once, before the concurrency is
      looked at; otherwise a non-positive concurrency is refused and each
      issue gets its fix, in issue order. */
  function FixStage(issues: seq<LintIssue>, concurrency: int, fix: LintIssue -> Result<FixResult, RunnerError>): (r: Result<RunResult, RunnerError>)
    ensures issues == [] ==> r == Ok(RunResult([], []))
    ensures issues != [] && concurrency <= 0 ==> r == Err(ConcurrencyNotPositive)
    ensures r.Ok? ==> r.value.issues == issues && |r.value.results| == |issues|
    ensures r.Ok? ==> forall i :: 0 <= i < |issues| ==> fix(issues[i]) == Ok(r.value.results[i])
    ensures issues != [] && concurrency > 0 ==> (r.Ok? <==> forall i :: 0 <= i < |issues| ==> fix(issues[i]).Ok?)
  {
    if issues == [] then Ok(RunResult([], []))
    else if concurrency <= 0 then Err(ConcurrencyNotPositive)
    else
      var results :- FixAll(issues, fix);
      Ok(RunResult(issues, results))
  }

  /** `runLintFixes(options)` with the fixes done in issue order: what the
      pooled run is proved equal to. */
  function SequentialRun(options: RunLintFixesOptions, envDefault: Option<string>, exec: Exec, json: JsonTools): Result<RunResult, RunnerError> {
    var issues :- IssuesStage(options, envDefault, exec, json);
    FixStage(issues, FixConcurrency(options.fixer), FixOf(FixerOpencode(options.fixer), exec, json))
  }

  /** The shape of a successful run: the issues are the generated ones, no
      issues means no results, and otherwise there is one result per issue,
      at the issue's index. */
  lemma RunShape(options: RunLintFixesOptions, envDefault: Option<string>, exec: Exec, json: JsonTools)
    requires SequentialRun(options, envDefault, exec, json).Ok?
    ensures var run := SequentialRun(options, envDefault, exec, json).value;
      && IssuesStage(options, envDefault, exec, json) == Ok(run.issues)
      && (run.issues == [] ==> run.results == [])
      && |run.results| == |run.issues|
      && forall i :: 0 <= i < |run.issues| ==>
           RunFixForIssue(run.issues[i], FixerOpencode(options.fixer), exec, json) == Ok(run.results[i])
  {
    var issues := IssuesStage(options, envDefault, exec, json);
    var fix := FixOf(FixerOpencode(options.fixer), exec, json);
    assert SequentialRun(options, envDefault, exec, json) == FixStage(issues.value, FixConcurrency(options.fixer), fix);
    forall i | 0 <= i < |issues.value| ensures fix(issues.value[i]) == RunFixForIssue(issues.value[i], FixerOpencode(options.fixer), exec, json) {
    }
  }

  /** With no issues the run succeeds whatever the fixer concurrency, even
      one the pool would refuse. */
  lemma NoIssuesIgnoresConcurrency(options: RunLintFixesOptions, envDefault: Option<string>, exec: Exec, json: JsonTools)
    requires IssuesStage(options, envDefault, exec, json) == Ok([])
    ensures SequentialRun(options, envDefault, exec, json) == Ok(RunResult([], []))
  {
  }

  /** How many results carry `status`. */
  function StatusCount(results: seq<FixResult>, status: string): nat {
    if results == [] then 0
    else StatusCount(results[..|results| - 1], status) + (if results[|results| - 1].status == status then 1 else 0)
  }

  /** A status count is at most the number of results, and is positive
      exactly when some result has that status. */
  lemma {:induction false} StatusCountBounds(results: seq<FixResult>, status: string)
    ensures StatusCount(results, status) <= |results|
    ensures StatusCount(results, status) > 0 <==> exists i :: 0 <= i < |results| && results[i].status == status
  {
    if results != [] {
      var init := results[..|results| - 1];
      StatusCountBounds(init, status);
      assert forall i :: 0 <= i < |init| ==> init[i] == results[i];
    }
  }

  /** The counts add up to the number of results: each count is the
      multiplicity of its status among the results' statuses. */
  lemma {:induction false} StatusCountMultiplicity(results: seq<FixResult>, status: string)
    ensures StatusCount(results, status) == multiset(Statuses(results))[status]
  {
    if results != [] {
      var init := results[..|results| - 1];
      StatusCountMultiplicity(init, status);
      assert Statuses(results) == Statuses(init) + [results[|results| - 1].status];
    }
  }

  /** The statuses of the results, in order. */
  function Statuses(results: seq<FixResult>): (r: seq<string>)
    ensures |r| == |results| && forall i :: 0 <= i < |results| ==> r[i] == results[i].status
  {
    seq(|results|, i requires 0 <= i < |results| => results[i].status)
  }

  /** The `statusCounts` reduce: an accumulator object incremented at each
      result's status, starting from `?? 0`. */
  method StatusCounts(results: seq<FixResult>) returns (counts: map<string, nat>)
    ensures forall s :: s in counts <==> StatusCount(results, s) > 0
    ensures forall s :: s in counts ==> counts[s] == StatusCount(results, s)
  {
    counts := map[];
    var n := 0;
    while n < |results|
      invariant n <= |results|
      invariant forall s :: s in counts <==> StatusCount(results[..n], s) > 0
      invariant forall s :: s in counts ==> counts[s] == StatusCount(results[..n], s)
    {
      var status := results[n].status;
      var previous := if status in counts then counts[status] else 0;
      counts := counts[status := previous + 1];
      assert results[..n + 1][..n] == results[..n];
      n := n + 1;
    }
    assert results[..n] == results;
  }

  /** The fixing half of `runLintFixes`: the early return for no issues,
      then `runWithConcurrency(issues, issue => runFixForIssue(...),
      concurrency)`. Whatever the completion order, it succeeds exactly when
      the sequential fixes do and then gives the same results; a failure is
      the refused concurrency or the error of one of the failing fixes. */
  method FixIssues(issues: seq<LintIssue>, concurrency: int, fix: LintIssue -> Result<FixResult, RunnerError>, schedule: seq<nat>)
    returns (r: Result<RunResult, RunnerError>)
    ensures r.Ok? <==> FixStage(issues, concurrency, fix).Ok?
    ensures r.Ok? ==> r == FixStage(issues, concurrency, fix)
    ensures r.Err? ==>
      || r == FixStage(issues, concurrency, fix) == Err(ConcurrencyNotPositive)
      || exists i :: 0 <= i < |issues| && fix(issues[i]) == Err(r.error)
    // a single worker stops at the first failing fix, as the sequential run does
    ensures concurrency == 1 ==> r == FixStage(issues, concurrency, fix)
  {
    if issues == [] {
      return Ok(RunResult(issues, []));
    }
    var work := (issue: LintIssue, index: nat) => fix(issue);
    var pooled := RunWithConcurrency(issues, work, concurrency, schedule);
    match pooled
    case Err(failure) =>
      if failure.NonPositiveConcurrency? {
        r := Err(ConcurrencyNotPositive);
      } else {
        r := Err(failure.cause);
        if concurrency == 1 {
          var i :| 0 <= i < |issues| && work(issues[i], i) == Err(failure.cause) && forall k :: 0 <= k < i ==> work(issues[k], k).Ok?;
          assert FirstFailure(issues, fix, i);
          FirstFailureUnique(issues, fix, i);
        }
      }
    case Ok(results) =>
      assert forall i :: 0 <= i < |issues| ==> work(issues[i], i) == fix(issues[i]);
      var sequential := FixAll(issues, fix);
      assert results == sequential.value;
      r := Ok(RunResult(issues, results));
  }

  /** `runLintFixes(options)`: resolve the lint command, generate the
      issues, fix them on the pool with `fixer?.concurrency ?? 1` workers,
      and tally the statuses. The outcome is the sequential run's, except
      that a failing run may report any one of the failing fixes. */
  method RunLintFixes(options: RunLintFixesOptions, envDefault: Option<string>, exec: Exec, json: JsonTools, schedule: seq<nat>)
    returns (r: Result<RunResult, RunnerError>, counts: map<string, nat>)
    ensures r.Ok? <==> SequentialRun(options, envDefault, exec, json).Ok?
    ensures r.Ok? ==> r == SequentialRun(options, envDefault, exec, json)
    ensures r.Err? ==>
      || r.error == SequentialRun(options, envDefault, exec, json).error
      || (IssuesStage(options, envDefault, exec, json).Ok? &&
       exists i :: 0 <= i < |IssuesStage(options, envDefault, exec, json).value| &&
         RunFixForIssue(IssuesStage(options, envDefault, exec, json).value[i], FixerOpencode(options.fixer), exec, json) == Err(r.error))
    // with the default single worker the run is exactly the sequential one
    ensures FixConcurrency(options.fixer) == 1 ==> r == SequentialRun(options, envDefault, exec, json)
    ensures r.Ok? ==> forall s :: s in counts <==> StatusCount(r.value.results, s) > 0
    ensures r.Ok? ==> forall s :: s in counts ==> counts[s] == StatusCount(r.value.results, s)
  {
    counts := map[];
    var lintCommand := ResolveLintCommand(options.lintCommand, envDefault);
    if lintCommand.Err? {
      return Err(lintCommand.error), counts;
    }
    var issues := GenerateLintTaskItems(Some(lintCommand.value), envDefault, options.parser, exec, json);
    assert issues == IssuesStage(options, envDefault, exec, json);
    if issues.Err? {
      return Err(issues.error), counts;
    }
    var fix := FixOf(FixerOpencode(options.fixer), exec, json);
    r := FixIssues(issues.value, FixConcurrency(options.fixer), fix, schedule);
    assert SequentialRun(options, envDefault, exec, json) == FixStage(issues.value, FixConcurrency(options.fixer), fix);
    if r.Ok? {
      counts := StatusCounts(r.value.results);
    }
  }
}
