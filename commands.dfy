/** Command specifications (`CommandSpec`), their resolution against the
    environment default, their conversion to an argument vector, and the
    output of a finished process as `runProcess` reports it. */
module Commands {
  import opened Wrappers
  import opened JsStrings
  import opened RunnerErrors

  /** `string | string[]`: a line for the shell, or an argument vector. */
  datatype CommandSpec = Shell(line: string) | Argv(args: seq<string>)

  /** `toCommandArgs`: a vector is used as it is; a line is trimmed and run
      by `bash -lc`, and a blank line is refused. */
  function ToCommandArgs(command: CommandSpec): (r: Result<seq<string>, RunnerError>)
    ensures command.Argv? ==> r == Ok(command.args)
    ensures command.Shell? ==> (r.Err? <==> IsBlank(command.line))
    ensures r.Err? ==> r.error == EmptyCommandString
    ensures command.Shell? && r.Ok? ==>
      && |r.value| == 3 && r.value[0] == "bash" && r.value[1] == "-lc"
      && r.value[2] == Trim(command.line) && r.value[2] != []
      && IsInfix(r.value[2], command.line)
  {
    match command
    case Argv(args) => Ok(args)
    case Shell(line) =>
      var trimmed := Trim(line);
      if trimmed == [] then Err(EmptyCommandString) else Ok(["bash", "-lc", trimmed])
  }

  /** `resolveLintCommand`: `command ?? ACC_LINT_COMMAND`, where the variable
      was read once at load time (`envDefault`). A missing value or a blank
      line is refused; a vector, even an empty one, never is. */
  function ResolveLintCommand(command: Option<CommandSpec>, envDefault: Option<string>): (r: Result<CommandSpec, RunnerError>)
    ensures command.Some? && r.Ok? ==> r.value == command.value
    ensures command.None? && r.Ok? ==> envDefault.Some? && r.value == Shell(envDefault.value)
    ensures r.Err? ==> r.error == NoLintCommand
    ensures command.Some? ==> (r.Err? <==> command.value.Shell? && IsBlank(command.value.line))
    ensures command.None? ==> (r.Err? <==> envDefault.None? || IsBlank(envDefault.value))
  {
    var resolved := if command.Some? then command else if envDefault.Some? then Some(Shell(envDefault.value)) else None;
    match resolved
    case None => Err(NoLintCommand)
    case Some(spec) =>
      if spec.Shell? && Trim(spec.line) == [] then Err(NoLintCommand) else Ok(spec)
  }

  /** Resolving an already resolved command gives it back, whatever the
      environment: `runLintFixes` resolves once and `generateLintTaskItems`
      resolves the result again. */
  lemma ResolveIdempotent(command: Option<CommandSpec>, envDefault: Option<string>, otherDefault: Option<string>)
    requires ResolveLintCommand(command, envDefault).Ok?
    ensures var c := ResolveLintCommand(command, envDefault).value;
      ResolveLintCommand(Some(c), otherDefault) == Ok(c)
  {
  }

  /** A resolved command always converts to an argument vector. */
  lemma ResolvedCommandHasArgs(command: Option<CommandSpec>, envDefault: Option<string>)
    requires ResolveLintCommand(command, envDefault).Ok?
    ensures ToCommandArgs(ResolveLintCommand(command, envDefault).value).Ok?
  {
  }

  /** The `{ stdout, stderr, exitCode }` of a finished process. */
  datatype ProcessOutput = ProcessOutput(stdout: string, stderr: string, exitCode: int)

  /** The outside world: the raw output the process spawned with an argument
      vector produces. */
  type Exec = seq<string> -> ProcessOutput

  /** `runProcess`'s result: both captured streams trimmed, the exit code
      as reported. */
  function Completed(raw: ProcessOutput): (p: ProcessOutput)
    ensures p.exitCode == raw.exitCode
    ensures p.stdout == Trim(raw.stdout) && p.stderr == Trim(raw.stderr)
    ensures p.stdout == [] <==> IsBlank(raw.stdout)
    ensures p.stderr == [] <==> IsBlank(raw.stderr)
  {
    ProcessOutput(Trim(raw.stdout), Trim(raw.stderr), raw.exitCode)
  }
}
