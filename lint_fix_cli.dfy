/** The `lintfix` command's action (`commands/lintFix.ts`): option
    normalisation, the parallel-count check, the `runLintFixes` options, and
    the reading of the results into an exit code. Printing is left out;
    `process.exitCode` is the `exitCode` out-parameter (`None` when the
    action leaves it unset). */
module LintFixCli {
  import opened Wrappers
  import opened JsStrings
  import opened Commands
  import opened Opencode
  import opened Runner

  /** The options commander hands to the action. `parallel` is the value of
      `Number.parseInt(options.parallel, 10)`, `None` for `NaN`. */
  datatype CliOptions = CliOptions(
    parallel: Option<int>,
    opencodeBin: Option<string>,
    parserModel: Option<string>,
    fixModel: Option<string>,
    parserExtra: Option<seq<string>>,
    fixExtra: Option<seq<string>>)

  /** A string option that is set and not `""`. */
  predicate Truthy(s: Option<string>) {
    s.Some? && s.value != []
  }

  /** `parseExtraArgs(option)`: a missing or empty list becomes `undefined`. */
  function ParseExtraArgs(option: Option<seq<string>>): (r: Option<seq<string>>)
    ensures r.None? <==> option.None? || option.value == []
    ensures r.Some? ==> r == option && r.value != []
  {
    if option.Some? && |option.value| > 0 then option else None
  }

  /** `buildOpencodeOptions(bin, model, extraArgs)`: nothing at all when no
      option is given; otherwise `bin` and `model` as given and the extra
      arguments with an empty list dropped. */
  function BuildOpencodeOptions(bin: Option<string>, model: Option<string>, extraArgs: Option<seq<string>>): (r: Option<OpencodeOptions>)
    ensures r.None? <==> !Truthy(bin) && !Truthy(model) && ParseExtraArgs(extraArgs).None?
    ensures r.Some? ==> r.value.bin == bin && r.value.model == model && r.value.args.None?
    ensures r.Some? ==> r.value.extraArgs == ParseExtraArgs(extraArgs)
  {
    if !Truthy(bin) && !Truthy(model) && (extraArgs.None? || |extraArgs.value| == 0) then None
    else Some(OpencodeOptions(bin, None, model, if extraArgs.Some? && |extraArgs.value| > 0 then extraArgs else None))
  }

  /** The action normalises the extra arguments twice (`parseExtraArgs`, then
      inside `buildOpencodeOptions`); the second pass changes nothing. */
  lemma ParseExtraArgsIdempotent(bin: Option<string>, model: Option<string>, extraArgs: Option<seq<string>>)
    ensures ParseExtraArgs(ParseExtraArgs(extraArgs)) == ParseExtraArgs(extraArgs)
    ensures BuildOpencodeOptions(bin, model, ParseExtraArgs(extraArgs)) == BuildOpencodeOptions(bin, model, extraArgs)
  {
  }

  /** What the command-line flags make of the model tool's vector: the
      binary given (the default when none), `--model` exactly when a
      non-empty model is given, the extra arguments given, and the prompt
      last. */
  lemma CliFlagsReachArgv(prompt: string, bin: Option<string>, model: Option<string>, extraArgs: Option<seq<string>>)
    ensures var argv := OpencodeArgv(prompt, BuildOpencodeOptions(bin, model, extraArgs).GetOr(NoOptions));
      var m := if Truthy(model) then 2 else 0;
      var extra := if ParseExtraArgs(extraArgs).Some? then extraArgs.value else [];
      && (Truthy(bin) ==> argv[0] == bin.value)
      && (bin.None? ==> argv[0] == DefaultBin)
      // `--opencode-bin ""` is dropped on its own, but kept (and spawned) next to other options
      && (bin == Some([]) ==> argv[0] == if Truthy(model) || ParseExtraArgs(extraArgs).Some? then [] else DefaultBin)
      && argv[1..2] == DefaultArgs
      && (Truthy(model) ==> argv[2] == ModelFlag && argv[3] == model.value)
      && argv[2 + m..|argv| - 1] == extra
      && argv[|argv| - 1] == prompt
  {
    var o := BuildOpencodeOptions(bin, model, extraArgs).GetOr(NoOptions);
    ArgvLayout(prompt, o);
    assert HasModel(o) <==> Truthy(model);
    assert BaseArgs(o) == DefaultArgs;
    assert ExtraArgs(o) == (if ParseExtraArgs(extraArgs).Some? then extraArgs.value else []);
  }

  /** `!Number.isFinite(parallel) || parallel <= 0` is what is refused. */
  predicate ParallelIsValid(parallel: Option<int>) {
    parallel.Some? && parallel.value > 0
  }

  /** `runOptions`: the positional lint command as a shell line, the parser
      options, and the fixer options with `concurrency: parallel` merged in. */
  function RunOptionsFor(lintCommandArg: Option<string>, cli: CliOptions, parallel: int): (o: RunLintFixesOptions)
    ensures lintCommandArg.None? ==> o.lintCommand.None?
    ensures lintCommandArg.Some? ==> o.lintCommand == Some(Shell(lintCommandArg.value))
    ensures o.parser == BuildOpencodeOptions(cli.opencodeBin, cli.parserModel, cli.parserExtra)
    // the pool gets exactly `parallel` workers' worth of concurrency
    ensures FixConcurrency(o.fixer) == parallel
    // merging the fixer options into `{ concurrency }` leaves the tool call as
    // if the built options had been passed on their own
    ensures forall prompt: string, exec: Exec ::
      InvokeOpencode(prompt, FixerOpencode(o.fixer), exec) ==
      InvokeOpencode(prompt, BuildOpencodeOptions(cli.opencodeBin, cli.fixModel, cli.fixExtra), exec)
  {
    ParseExtraArgsIdempotent(cli.opencodeBin, cli.parserModel, cli.parserExtra);
    ParseExtraArgsIdempotent(cli.opencodeBin, cli.fixModel, cli.fixExtra);
    var parser := BuildOpencodeOptions(cli.opencodeBin, cli.parserModel, ParseExtraArgs(cli.parserExtra));
    var fixer := BuildOpencodeOptions(cli.opencodeBin, cli.fixModel, ParseExtraArgs(cli.fixExtra));
    RunLintFixesOptions(
      if lintCommandArg.Some? then Some(Shell(lintCommandArg.value)) else None,
      parser,
      Some(FixerOptions(fixer.GetOr(NoOptions), Some(parallel))))
  }

  /** `result?.status ?? "unknown"`. */
  function StatusAt(results: seq<FixResult>, i: nat): (status: string)
    ensures i < |results| ==> status == results[i].status
  {
    if i < |results| then results[i].status else "unknown"
  }

  /** `status.toLowerCase() === "resolved"`. */
  predicate IsResolved(status: string) {
    ToLower(status) == "resolved"
  }

  /** An issue without a result counts as unresolved. */
  lemma MissingResultUnresolved(results: seq<FixResult>, i: nat)
    requires i >= |results|
    ensures !IsResolved(StatusAt(results, i))
  {
    assert ToLower("unknown")[0] == 'u';
  }

  /** The statuses counted as resolved are exactly the eight-letter words
      that spell "resolved" with each letter in either case. */
  lemma ResolvedExactly(status: string)
    ensures IsResolved(status) <==>
      |status| == 8 && forall i :: 0 <= i < 8 ==> status[i] == "resolved"[i] || status[i] == "RESOLVED"[i]
  {
    if |status| == 8 {
      forall i | 0 <= i < 8
        ensures LowerChar(status[i]) == "resolved"[i] <==> status[i] == "resolved"[i] || status[i] == "RESOLVED"[i]
      {
        assert "resolved"[i] as int == "RESOLVED"[i] as int + 32;
      }
      assert IsResolved(status) <==> forall i :: 0 <= i < 8 ==> ToLower(status)[i] == "resolved"[i];
    }
  }

  /** Mixed case is accepted; padding, truncation and other words are not. */
  lemma ResolvedExamples()
    ensures IsResolved("ReSoLvEd") && IsResolved("RESOLVED")
    ensures !IsResolved("resolved ") && !IsResolved("resolve") && !IsResolved("") && !IsResolved("unresolved")
  {
    ResolvedExactly("ReSoLvEd");
    ResolvedExactly("RESOLVED");
  }

  /** How many of `0 .. n - 1` fail `met`; never more than `n`. */
  function CountUnmet(met: nat -> bool, n: nat): (count: nat)
    ensures count <= n
  {
    if n == 0 then 0 else CountUnmet(met, n - 1) + (if met(n - 1) then 0 else 1)
  }

  /** Nothing is counted exactly when every index meets `met`. */
  lemma {:induction false} CountUnmetZero(met: nat -> bool, n: nat)
    ensures CountUnmet(met, n) == 0 <==> forall i :: 0 <= i < n ==> met(i)
  {
    if n > 0 {
      CountUnmetZero(met, n - 1);
    }
  }

  /** Whether issue `i` counts as resolved. */
  function ResolvedAt(results: seq<FixResult>): nat -> bool {
    (i: nat) => IsResolved(StatusAt(results, i))
  }

  /** How many of the first `n` issues are unresolved. */
  function UnresolvedCount(results: seq<FixResult>, n: nat): nat {
    CountUnmet(ResolvedAt(results), n)
  }

  /** The counter is zero exactly when every one of the `n` issues was
      resolved. */
  lemma UnresolvedCountZero(results: seq<FixResult>, n: nat)
    ensures UnresolvedCount(results, n) == 0 <==> forall i :: 0 <= i < n ==> IsResolved(StatusAt(results, i))
  {
    CountUnmetZero(ResolvedAt(results), n);
    assert forall i :: 0 <= i < n ==> ResolvedAt(results)(i) == IsResolved(StatusAt(results, i));
  }

  /** Two issues, one fixed as "Resolved" and one left "open": one issue
      remains, so the action's exit code is 1. */
  lemma OneOfTwoUnresolved(summary0: string, summary1: string)
    ensures UnresolvedCount([FixResult("Resolved", summary0), FixResult("open", summary1)], 2) == 1
  {
    var results := [FixResult("Resolved", summary0), FixResult("open", summary1)];
    assert ToLower("Resolved") == "resolved";
    assert ToLower("open")[0] == 'o';
    assert StatusAt(results, 0) == "Resolved" && StatusAt(results, 1) == "open";
    assert IsResolved(StatusAt(results, 0)) && !IsResolved(StatusAt(results, 1));
    assert UnresolvedCount(results, 1) == 0;
  }

  /** `issues.forEach(...)` with the `unresolved += 1` counter, over the
      first `n` issues. */
  method CountUnresolved(results: seq<FixResult>, n: nat) returns (unresolved: nat)
    ensures unresolved == UnresolvedCount(results, n)
  {
    unresolved := 0;
    var index := 0;
    while index < n
      invariant index <= n
      invariant unresolved == UnresolvedCount(results, index)
    {
      var status := StatusAt(results, index);
      if !IsResolved(status) {
        unresolved := unresolved + 1;
      }
      index := index + 1;
    }
  }

  /** The action handler. An invalid parallel value sets exit code 1 and
      returns before anything runs; otherwise `runLintFixes` runs, a thrown
      error sets exit code 1, no issues leave the exit code unset, and
      otherwise the exit code is 1 exactly when some issue is unresolved. */
  method LintFixAction(lintCommandArg: Option<string>, cli: CliOptions, envDefault: Option<string>, exec: Exec, json: JsonTools, schedule: seq<nat>)
    returns (exitCode: Option<int>, invoked: Option<RunLintFixesOptions>)
    ensures exitCode == None || exitCode == Some(1)
    ensures !ParallelIsValid(cli.parallel) ==> exitCode == Some(1) && invoked.None?
    ensures ParallelIsValid(cli.parallel) ==> invoked == Some(RunOptionsFor(lintCommandArg, cli, cli.parallel.value))
    ensures ParallelIsValid(cli.parallel) ==>
      var run := SequentialRun(invoked.value, envDefault, exec, json);
      exitCode == Some(1) <==> run.Err? || UnresolvedCount(run.value.results, |run.value.issues|) > 0
    ensures ParallelIsValid(cli.parallel) && SequentialRun(invoked.value, envDefault, exec, json) == Ok(RunResult([], [])) ==>
      exitCode.None?
  {
    if cli.parallel.None? || cli.parallel.value <= 0 {
      return Some(1), None;
    }
    var parallel := cli.parallel.value;
    var runOptions := RunOptionsFor(lintCommandArg, cli, parallel);
    invoked := Some(runOptions);
    exitCode := None;
    var outcome, _ := RunLintFixes(runOptions, envDefault, exec, json, schedule);
    if outcome.Err? {
      exitCode := Some(1);
      return;
    }
    var issues, results := outcome.value.issues, outcome.value.results;
    if |issues| == 0 {
      return;
    }
    var unresolved := CountUnresolved(results, |issues|);
    if unresolved != 0 {
      exitCode := Some(1);
    }
  }
}
