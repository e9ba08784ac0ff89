# Lint-fix pipeline of AgentCommandCentral, modelled in Dafny

AgentCommandCentral's `lintfix` command works in four steps. It runs a lint
command and hands the lint output to a model tool (`opencode`) to be
converted into a JSON list of lint issues. It then asks the model tool to
fix each issue, running several fixes at once through a small work pool.
Finally it turns the fix statuses into the process exit code.

This project models the decision and bookkeeping code of that pipeline:
- how the lint command is resolved (`resolveLintCommand`) and turned into an argument vector (`toCommandArgs`);
- how a JSON candidate is recovered from a noisy model answer (`extractJsonCandidate`);
- the model tool's argument vector and the verdict on its exit code (`invokeOpencode`);
- the prompts (`generateLintTaskPrompt`, `buildFixPrompt`) and `truncate`;
- lint-task generation (`generateLintTaskItems`) and the per-issue fix (`runFixForIssue`);
- the concurrency-limited pool (`runWithConcurrency`);
- `runLintFixes` and its status tally;
- the CLI action in `commands/lintFix.ts`.

Modules, in dependency order:

- `Wrappers` (`wrappers.dfy`): `Option` and `Result`.
- `JsStrings` (`js_strings.dfy`): the JavaScript built-ins the code relies on.
  - `trim`, with ECMAScript's whitespace and line-terminator set.
  - `indexOf`, `lastIndexOf`, and `slice` with its negative and clamped bounds.
  - `||` on strings, `filter(Boolean)`, `join`, decimal rendering of integers, and ASCII `toLowerCase`.
- `RunnerErrors` (`runner_errors.dfy`): the errors thrown, one constructor per `throw` site, with their message texts.
- `Commands` (`commands.dfy`): `CommandSpec`, `toCommandArgs`, `resolveLintCommand`, and the trimmed output `runProcess` reports.
- `JsonExtract` (`json_extract.dfy`): `extractJsonCandidate`.
- `Opencode` (`opencode.dfy`): the model tool's argument vector, built both declaratively and with the source's append-then-`splice` construction, and the exit-code verdict.
- `WorkPool` (`work_pool.dfy`): `runWithConcurrency`.
  - A `Pool` class holds the shared `cursor`, the preallocated `results` array and the workers in flight.
  - A `schedule` chooses which awaited call completes next. Every property holds for every schedule.
- `Runner` (`runner.dfy`): the prompts, `generateLintTaskItems`, `runFixForIssue` and `runLintFixes`.
  - The pooled run is proved to succeed exactly when a sequential reference run, `SequentialRun`, succeeds, and then to equal it. With one worker it equals the reference run in every case. With more workers a failure is proved to be some failing fix's error, not necessarily the reference run's.
- `LintFixCli` (`lint_fix_cli.dfy`): option normalisation, the parallel check, the run options, the unresolved counter and the exit-code rule.

The outside world is a parameter everywhere:
- **Processes:** `exec: seq<string> -> ProcessOutput` gives the raw output a spawned argument vector produces. `runProcess`'s trimming is applied to it.
- **JSON:** `parses: string -> bool` stands for `JSON.parse` succeeding. The two zod validators are functions from the candidate text to a validated value or an error text. The two `JSON.stringify(z.toJSONSchema(...))` texts are plain string parameters.
- **Environment:** `ACC_LINT_COMMAND`, read once at load time, is `envDefault: Option<string>`.
- **Parallel count:** `Number.parseInt` of the `--parallel` option is an `Option<int>`. `None` stands for `NaN` and also for `Infinity`, which `Number.parseInt` gives for a numeral above `Number.MAX_VALUE` (about 1.8e308). The `Number.isFinite` check refuses both (src/commands/lintFix.ts:50).

Behaviour of the code worth noting, all of it modelled as written:

- **Shell wrapping.** A string command is trimmed and run as `["bash", "-lc", trimmed]` (src/lintFixRunner.ts:111-116).
- **Empty vectors.** An explicit argument vector is returned unchanged, even an empty one (src/lintFixRunner.ts:107-109). Only a missing or blank string command is refused (src/lintFixRunner.ts:112-114, :121-125).
- **Failing fixes.** A rejected fix ends only its own worker's loop (src/lintFixRunner.ts:355-366). The other workers are not cancelled and keep claiming items. `Promise.all` (src/lintFixRunner.ts:373) reports the first rejection in completion order.
- **Blank model answers.** `extractJsonCandidate` returns `""` for a blank answer instead of throwing (src/lintFixRunner.ts:174-177). The caller's `JSON.parse("")` is what fails (src/lintFixRunner.ts:286).
- **No issues.** With no issues, `runLintFixes` returns before it reads the concurrency (src/lintFixRunner.ts:390-393). A non-positive concurrency is refused only when there is something to fix (src/lintFixRunner.ts:348-350).

## Model

| member | source | states |
|---|---|---|
| JsStrings.Trim | src/lintFixRunner.ts:111 | the result is the input with exactly its leading and trailing whitespace cut off: a slice `s[a..b]` with only whitespace before `a` and after `b`, neither starting nor ending with whitespace, and empty exactly when the input is all whitespace |
| JsStrings.TrimIdempotent | src/lintFixRunner.ts:174 | trimming the already trimmed process output again (as `extractJsonCandidate` does) changes nothing |
| JsStrings.IndexOf | src/lintFixRunner.ts:183-184 | -1 exactly when the character is absent; otherwise the position holds it and no earlier position does |
| JsStrings.LastIndexOf | src/lintFixRunner.ts:191-192 | -1 exactly when the character is absent; otherwise the position holds it and no later position does |
| JsStrings.OrElse | src/lintFixRunner.ts:237 | the logical-or fallback on strings (`stderr` or else `stdout`): the first when it is non-empty, else the second |
| JsStrings.Slice | src/lintFixRunner.ts:199 | in-range bounds give exactly that subsequence; an end at or before the start gives the empty string |
| JsStrings.FilterNonEmpty | src/lintFixRunner.ts:271-272 | keeps exactly the non-empty parts, and changes nothing when none is empty |
| JsStrings.FilterNonEmptyParts | src/lintFixRunner.ts:271-272 | filtering a concatenation is the concatenation of the filtered pieces, so the kept parts stay in their original order |
| JsStrings.FilterNonEmptyOne | src/lintFixRunner.ts:271-272 | a single part is kept exactly when it is non-empty |
| JsStrings.Join | src/lintFixRunner.ts:273-274 | `join`; what it produces is stated by JsStrings.JoinConcat, JsStrings.JoinEmptyIff, JsStrings.JoinContainsParts and JsStrings.JoinEnds |
| JsStrings.JoinConcat | src/lintFixRunner.ts:315-316 | joining two non-empty lists equals joining each and putting the separator between them |
| JsStrings.JoinEmptyIff | src/lintFixRunner.ts:273-274 | joining non-empty parts gives the empty string exactly when there are no parts |
| JsStrings.JoinContainsParts | src/lintFixRunner.ts:315-316 | every part occurs verbatim in the joined prompt |
| JsStrings.JoinEnds | src/lintFixRunner.ts:315-316 | the joined string starts with the first part and ends with the last |
| JsStrings.IntToString | src/lintFixRunner.ts:266 | the text of `${code}`: a minus sign exactly for a negative number, then at least one digit and only digits, with no leading zero except for zero itself; JsStrings.IntToStringValue reads it back as the number, so the text is the shortest decimal numeral |
| JsStrings.IntToStringValue | src/lintFixRunner.ts:266 | the decimal text of an exit code or a line number reads back as that integer, sign included |
| RunnerErrors.RunnerError.Message | src/lintFixRunner.ts:113 | the message text of each `throw` site (also :122-124, :236-237, :265-267, :289, :333 and :349); RunnerErrors.ExitFailureMessage states what a process failure's message carries |
| RunnerErrors.ExitFailureMessage | src/lintFixRunner.ts:236-237 | a failed process's message contains its exit code and ends with `: ` and the detail verbatim |
| Commands.ToCommandArgs | src/lintFixRunner.ts:106-117 | a vector is returned unchanged; a string errs exactly when blank, and otherwise gives `["bash", "-lc", trim(s)]` with a non-empty last element taken from the line |
| Commands.ResolveLintCommand | src/lintFixRunner.ts:119-128 | an explicit command wins and is returned unchanged; without one the environment default is used; the call errs exactly when the choice is absent or a blank string, never for a vector |
| Commands.ResolveIdempotent | src/lintFixRunner.ts:380-388 | resolving the already resolved command again (as `generateLintTaskItems` does) returns it unchanged whatever the environment |
| Commands.ResolvedCommandHasArgs | src/lintFixRunner.ts:254-256 | a resolved command always converts to an argument vector |
| Commands.Completed | src/lintFixRunner.ts:170 | both streams trimmed, the exit code unchanged; a stream is empty exactly when it was all whitespace |
| JsonExtract.ExtractJsonCandidate | src/lintFixRunner.ts:173-203 | anything returned occurs in the trimmed output and is empty or parses; every error is a parse failure |
| JsonExtract.ExtractDirect | src/lintFixRunner.ts:174-181 | a trimmed output that is empty or parses is returned exactly |
| JsonExtract.ExtractWithoutBrackets | src/lintFixRunner.ts:183-196 | with no opening or no closing bracket, the first parse failure (of the whole trimmed text) is rethrown |
| JsonExtract.ExtractFallback | src/lintFixRunner.ts:183-202 | otherwise the result is exactly the slice from the first `[`/`{` to the last `]`/`}`, and that slice must parse |
| JsonExtract.EmbeddedJsonRecovered | src/lintFixRunner.ts:173-202 | JSON with any prose around it, whitespace included, is recovered whenever the prose before it has no opening bracket, the prose after it has no closing bracket and the whole text does not parse |
| JsonExtract.TrimAround | src/lintFixRunner.ts:174 | trimming text around a piece that starts and ends with non-whitespace keeps the piece whole, between a tail of the text before it and a head of the text after it |
| JsonExtract.FirstOpenerFound | src/lintFixRunner.ts:183-190 | `Math.min` of the present `indexOf` results is the first opening bracket |
| JsonExtract.LastCloserFound | src/lintFixRunner.ts:191-198 | `Math.max` of the present `lastIndexOf` results is the last closing bracket |
| JsonExtract.OpenerUnique | src/lintFixRunner.ts:190 | the first opening bracket is a single position |
| JsonExtract.CloserUnique | src/lintFixRunner.ts:198 | the last closing bracket is a single position |
| Opencode.OpencodeArgv | src/lintFixRunner.ts:209-227 | the declared layout of the model tool's vector; Opencode.ArgvLayout states where each part sits and Opencode.BuildArgv that the source's construction yields it |
| Opencode.ArgvLayout | src/lintFixRunner.ts:209-227 | the binary is first and the prompt last, then the base arguments; `--model m` sits right after the base arguments exactly when a non-empty model is set; then the extra arguments; the length is two plus the base and extra counts, plus two with a model |
| Opencode.BuildArgv | src/lintFixRunner.ts:221-226 | the append-then-splice construction gives exactly that layout |
| Opencode.ModelOutcome | src/lintFixRunner.ts:232-242 | exit code 0 returns stdout unchanged; any other code is an error with that code and the detail stderr, else stdout, else `unknown error` |
| Opencode.InvokeOpencode | src/lintFixRunner.ts:205-243 | a failing call can only fail with a model-invocation error |
| WorkPool.Pool.constructor | src/lintFixRunner.ts:352-372 | `min(K, N)` workers start; worker `w` claims index `w`; no result is set yet |
| WorkPool.Pool.Complete | src/lintFixRunner.ts:355-366 | the chosen worker's call settles. On rejection exactly that worker leaves, its index joins the rejected ones, the failure becomes this error unless one was recorded, and the cursor, the claims and every result slot stay. On success the value lands at the worker's index and no other slot changes, the cursor advances, the failure and the rejections stay, and the worker then awaits the old cursor when it is below `N` (which extends the claims by it) or else leaves. The pool invariant is kept |
| WorkPool.Pool.Reject | src/lintFixRunner.ts:365 | exactly worker `w` leaves; its index joins the rejected ones; the failure becomes this error when none was recorded and is otherwise kept; the cursor, the claims and every result are unchanged |
| WorkPool.Pool.Fulfil | src/lintFixRunner.ts:357-365 | the value lands in its own slot and no other slot changes; the cursor advances; worker `w` then awaits the old cursor when it is below `N`, and otherwise exactly that worker leaves; the failure and the rejections are unchanged |
| WorkPool.Pool.Run | src/lintFixRunner.ts:369-373 | under any schedule all workers finish; without a rejection every index below `N` was claimed exactly once, in order, and every result is set |
| WorkPool.RunWithConcurrency | src/lintFixRunner.ts:343-375 | non-positive concurrency is refused before any call. Otherwise the run succeeds exactly when no item's call rejects, with `results[i]` the value for `items[i]`, and a failure is some item's rejection. With one worker the failure is that of the first failing item |
| Runner.Truncate | src/lintFixRunner.ts:57-59 | a value within the limit is unchanged; a longer one keeps its first `limit - 1` characters plus an ellipsis, making exactly `limit` characters for a limit of at least 1; at limit 0, `slice(0, -1)` keeps all but the last character before the ellipsis |
| Runner.LintOutput | src/lintFixRunner.ts:271-277 | empty exactly when both streams are; a single present stream is taken alone, and two present streams are joined by a newline |
| Runner.LintTaskPrompt | src/lintFixRunner.ts:245-249 | the prompt contains the schema text and ends with the lint output |
| Runner.BuildFixPrompt | src/lintFixRunner.ts:296-317 | `buildFixPrompt`: the entries kept by the filter, joined by newlines; Runner.FixPromptKeptLines, Runner.FixPromptMentionsIssue and Runner.NoSuggestionsNoBlankLine state what it contains |
| Runner.FixPromptKeptLines | src/lintFixRunner.ts:310-316 | the filter drops only the suggestions entry, and only when there are no suggestions |
| Runner.FixPromptMentionsIssue | src/lintFixRunner.ts:296-317 | the fix prompt starts with the whole preamble, line by line, followed by a newline. It contains the file, location and message lines, and the suggestions when there are any. It ends with the schema request |
| Runner.JoinedPrefix | src/lintFixRunner.ts:315-316 | the first `n` lines joined and followed by the separator are a prefix of all the lines joined |
| Runner.NoSuggestionsNoBlankLine | src/lintFixRunner.ts:310 | without suggestions the prompt has 13 entries, and the schema line directly follows the message line |
| Runner.ParsedCandidate | src/lintFixRunner.ts:286-287 | the candidate handed to the schema parses and occurs in the trimmed answer; a blank answer fails at `JSON.parse("")` |
| Runner.LintArgv | src/lintFixRunner.ts:254-256 | the lint command's vector fails exactly when the command cannot be resolved, and then only with the missing-command error |
| Runner.IssuesFromLintOutput | src/lintFixRunner.ts:280-293 | a failed parser-model call is passed on unchanged. Any issues are what the schema accepted for a parsing piece of the model's trimmed answer to the conversion prompt. Every error is a model, parse or schema failure |
| Runner.GenerateLintTaskItems | src/lintFixRunner.ts:251-294 | a command that cannot be resolved or converted fails with that error; a non-empty list of issues is accepted by the schema for some parsing candidate |
| Runner.LintFailureReported | src/lintFixRunner.ts:261-268 | a non-zero lint exit fails with that code and stderr, or stdout when stderr is blank, and the message names the code |
| Runner.EmptyLintOutputSkipsModel | src/lintFixRunner.ts:271-277 | a successful lint run with blank output gives no issues, whatever the model tool would answer |
| Runner.LintOutputReachesModel | src/lintFixRunner.ts:278-284 | non-blank lint output goes through the parser model, inside the conversion prompt |
| Runner.FixConcurrency | src/lintFixRunner.ts:396 | the fixer's concurrency when given, else 1 |
| Runner.RunFixForIssue | src/lintFixRunner.ts:319-341 | a failed fixer call is passed on unchanged. A result is what the result schema accepted for a parsing piece of the model's trimmed answer to this issue's fix prompt. Every error is a model, parse or schema failure |
| Runner.FixAll | src/lintFixRunner.ts:398-402 | the sequential reference: succeeds exactly when every fix does, aligned with the issues, and otherwise fails with the first failing fix |
| Runner.FirstFailureUnique | src/lintFixRunner.ts:398-402 | the sequential reference fails with the error of whichever fix is the first to fail |
| Runner.IssuesStage | src/lintFixRunner.ts:380-388 | resolving the lint command, then `generateLintTaskItems` with it; Runner.IssuesStageResolvesOnce states that the second resolution changes nothing |
| Runner.IssuesStageResolvesOnce | src/lintFixRunner.ts:380-388 | resolving before `generateLintTaskItems` and again inside it gives the issues of resolving once |
| Runner.FixStage | src/lintFixRunner.ts:390-402 | no issues return at once with no results; otherwise non-positive concurrency is refused, and success means one result per issue at its index |
| Runner.RunShape | src/lintFixRunner.ts:390-413 | a successful run returns the generated issues with no results when there are none, else one result per issue, each that issue's fix |
| Runner.NoIssuesIgnoresConcurrency | src/lintFixRunner.ts:390-393 | with no issues the run succeeds whatever the concurrency |
| Runner.StatusCountBounds | src/lintFixRunner.ts:403-406 | a status count is at most the number of results, and positive exactly when some result has that status |
| Runner.StatusCountMultiplicity | src/lintFixRunner.ts:403-406 | each count is the multiplicity of its status among the results, so the counts add up to the number of results |
| Runner.StatusCounts | src/lintFixRunner.ts:403-406 | the reduce's map has exactly the statuses that occur, each with its count |
| Runner.FixIssues | src/lintFixRunner.ts:396-402 | the pooled fixes succeed exactly when the sequential ones do and then equal them. A failure is the refused concurrency or one failing fix's error. With one worker the result is exactly the sequential one |
| Runner.RunLintFixes | src/lintFixRunner.ts:377-414 | under any schedule the run succeeds exactly when the sequential run does and then equals it. Its status counts match the results. A failure is the sequential run's error or one failing fix's error. With the default concurrency of 1 the run is exactly the sequential one |
| LintFixCli.ParseExtraArgs | src/commands/lintFix.ts:25-27 | `undefined` exactly for a missing or empty list, otherwise the list unchanged |
| LintFixCli.BuildOpencodeOptions | src/commands/lintFix.ts:9-23 | `undefined` exactly when bin and model are falsy and there are no extra arguments; otherwise bin and model are copied, and an empty extra list becomes `undefined` |
| LintFixCli.ParseExtraArgsIdempotent | src/commands/lintFix.ts:60-69 | normalising the extra arguments before building the options changes nothing |
| LintFixCli.CliFlagsReachArgv | src/commands/lintFix.ts:9-23 | a given binary comes first (the default when none; an empty one is dropped when alone but spawned next to other options); `--model m` appears exactly for a non-empty model; then the extra arguments; and the prompt last |
| LintFixCli.ParallelIsValid | src/commands/lintFix.ts:49-58 | the `--parallel` check; LintFixCli.LintFixAction states that a refused value sets exit code 1 and runs nothing |
| LintFixCli.RunOptionsFor | src/commands/lintFix.ts:60-78 | the lint argument becomes a shell line; the pool gets exactly `parallel` as its concurrency; merging `concurrency` into the fixer options leaves the tool call unchanged |
| LintFixCli.StatusAt | src/commands/lintFix.ts:98-99 | an issue with a result has that result's status |
| LintFixCli.MissingResultUnresolved | src/commands/lintFix.ts:98-101 | an issue without a result (status `unknown`) counts as unresolved |
| LintFixCli.IsResolved | src/commands/lintFix.ts:100 | the case-insensitive comparison with `resolved`; LintFixCli.ResolvedExactly states exactly which statuses pass it |
| LintFixCli.ResolvedExactly | src/commands/lintFix.ts:100 | a status counts as resolved exactly when it has eight letters spelling `resolved`, each in either case |
| LintFixCli.ResolvedExamples | src/commands/lintFix.ts:100 | `ReSoLvEd` and `RESOLVED` count as resolved; `resolved ` with a trailing space, `resolve`, the empty status and `unresolved` do not |
| LintFixCli.CountUnmet | src/commands/lintFix.ts:96-103 | the counter of issues failing the resolved test never exceeds the number of issues looked at |
| LintFixCli.UnresolvedCountZero | src/commands/lintFix.ts:96-103 | the counter is zero exactly when every issue's status is resolved |
| LintFixCli.OneOfTwoUnresolved | src/commands/lintFix.ts:96-103 | a `Resolved` and an `open` result leave one issue unresolved |
| LintFixCli.CountUnresolved | src/commands/lintFix.ts:96-103 | the `unresolved += 1` loop computes the unresolved count |
| LintFixCli.LintFixAction | src/commands/lintFix.ts:48-128 | the exit code is only ever 1 or unset; an invalid parallel value sets 1 and runs nothing; otherwise the run gets exactly the built options, and 1 is set exactly when the run fails or an issue is unresolved; no issues leave it unset |

## Left out

- **Logging.** Console and chalk output, the `displayArgs` log line, `describeCommandSpec`, the status-summary string and the `models` catalog only feed the log. The summary includes its `"no results"` fallback.
- **Process I/O.** `runProcess` and `readStream` (spawning, stream reading, `TextDecoder`), `cwd` and `env` are I/O. A process is reduced to the output `exec` gives for its argument vector. The model therefore assumes that every spawned process exits. The source sets no time-out, so a process that never exits would leave `await worker(...)` (src/lintFixRunner.ts:365) and the whole run waiting forever.
- **Foreign calls.**
  - `JSON.parse`, the zod schemas and `z.toJSONSchema` are parameters.
  - `JSON.parse`'s own error message is not modelled. `RunnerError.Message` leaves that case out.
- **Character encoding.** Strings are sequences of characters. JavaScript's `length` and `slice` count UTF-16 code units, so `Truncate` is exact only for text without astral characters.
- **`Number.parseInt`.** Its digit parsing is left out: the parsed value is an input.
- **Undefined items.** The "undefined item" check in `runWorker` (src/lintFixRunner.ts:362-364) cannot fire for a Dafny sequence. The argument filter `typeof value === "string"` (src/lintFixRunner.ts:221-223) keeps every element of a typed vector.
- **Status keys.** The status reduce is modelled as a map keyed by the status. A plain JavaScript object also answers keys such as `constructor` from its prototype, and that quirk is not modelled.
- **`src/utils/format.ts`, `src/utils/log.ts`, `src/commands/info.ts`, `src/commands/hello.ts` and `src/index.ts`** are not part of this model. They are floating-point formatting, logger setup, system queries and command wiring.
- WorkPool.RunWithConcurrency: with more than one worker, which rejection `Promise.all` reports depends on completion order. The contract says only that it is the rejection of some item, not the first by index. With one worker it is the first by index.
- Runner.FixIssues: with more than one worker, a failure is stated as one of the failing fixes' errors rather than the first by index, for the same reason. With one worker the result equals the sequential one.
- Runner.RunLintFixes: the same weakening applies to its failure case when the fixer's concurrency is above 1. With the default of 1 the run equals the sequential one.
- **Non-integer concurrency.** The fixer's `concurrency` is a JavaScript number (src/lintFixRunner.ts:103), and the model takes it as an integer. A value such as `0.5` or `NaN` passes the `concurrency <= 0` check (src/lintFixRunner.ts:348). `Array.from` then starts no worker for a length of `Math.min(concurrency, N)` below 1 (src/lintFixRunner.ts:369-372). The holes of `new Array(N)` (src/lintFixRunner.ts:352) would then come back as a successful run. The `lintfix` command cannot produce such a value, because `Number.parseInt` yields an integer and `NaN` is refused (src/commands/lintFix.ts:49-50). A direct caller of the exported `runLintFixes` could.
- **Fixes that affect each other.** A fix is a function of its argument vector through `exec`, so the model treats fixes as independent of each other and of the order they run in. In the program the fixer edits the shared working tree while other fixes are running, so one answer can depend on which fixes ran before it. The equality of the pooled and the sequential run therefore carries over only as far as this independence holds. What holds regardless is that each result is stored at its own issue's index.
