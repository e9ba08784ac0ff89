/** `invokeOpencode`: the argument vector of the model tool and the verdict
    on its exit code. */
module Opencode {
  import opened Wrappers
  import opened JsStrings
  import opened RunnerErrors
  import opened Commands

  /** `OpencodeCommandOptions` without `cwd` and `env`, which only reach the
      spawn call. */
  datatype OpencodeOptions = OpencodeOptions(
    bin: Option<string>,
    args: Option<seq<string>>,
    model: Option<string>,
    extraArgs: Option<seq<string>>)

  /** `{}`: every option left to its default. */
  const NoOptions := OpencodeOptions(None, None, None, None)

  const DefaultBin := "opencode"
  const DefaultArgs := ["run"]
  const ModelFlag := "--model"

  /** `if (options.model)`: a model is given and is not the empty string. */
  predicate HasModel(o: OpencodeOptions) {
    o.model.Some? && o.model.value != []
  }

  function Bin(o: OpencodeOptions): string { o.bin.GetOr(DefaultBin) }
  function BaseArgs(o: OpencodeOptions): seq<string> { o.args.GetOr(DefaultArgs) }
  function ExtraArgs(o: OpencodeOptions): seq<string> { o.extraArgs.GetOr([]) }

  /** The vector the tool is spawned with, field by field: the binary, the
      base arguments, `--model <m>` when a model is set, the extra arguments
      and the prompt. The log line shows the same vector without the prompt. */
  function OpencodeArgv(prompt: string, o: OpencodeOptions): seq<string> {
    [Bin(o)] + BaseArgs(o) + (if HasModel(o) then [ModelFlag, o.model.value] else []) + ExtraArgs(o) + [prompt]
  }

  /** Where each part of the vector sits. */
  lemma ArgvLayout(prompt: string, o: OpencodeOptions)
    ensures var argv, b, m := OpencodeArgv(prompt, o), |BaseArgs(o)|, if HasModel(o) then 2 else 0;
      && |argv| == 2 + b + m + |ExtraArgs(o)|
      && argv[0] == Bin(o)
      && argv[1..1 + b] == BaseArgs(o)
      && (HasModel(o) ==> argv[1 + b] == ModelFlag && argv[2 + b] == o.model.value)
      && argv[1 + b + m..|argv| - 1] == ExtraArgs(o)
      && argv[|argv| - 1] == prompt
  {
    var argv, b := OpencodeArgv(prompt, o), |BaseArgs(o)|;
    var flag := if HasModel(o) then [ModelFlag, o.model.value] else [];
    assert argv == [Bin(o)] + BaseArgs(o) + flag + ExtraArgs(o) + [prompt];
    assert argv[1..1 + b] == BaseArgs(o);
    assert argv[1 + b..1 + b + |flag|] == flag;
    assert argv[1 + b + |flag|..|argv| - 1] == ExtraArgs(o);
  }

  /** `array.splice(at, 0, ...inserted)`. */
  function Splice<T>(s: seq<T>, at: nat, inserted: seq<T>): (r: seq<T>)
    requires at <= |s|
    ensures |r| == |s| + |inserted|
  {
    s[..at] + inserted + s[at..]
  }

  /** The source's construction: `[bin, ...baseArgs, ...extraArgs, prompt]`,
      then `--model <m>` spliced in at `1 + baseArgs.length`. */
  method BuildArgv(prompt: string, o: OpencodeOptions) returns (argv: seq<string>)
    ensures argv == OpencodeArgv(prompt, o)
  {
    var bin := o.bin.GetOr(DefaultBin);
    var baseArgs := o.args.GetOr(DefaultArgs);
    var extraArgs := o.extraArgs.GetOr([]);
    argv := [bin] + baseArgs + extraArgs + [prompt];
    if o.model.Some? && o.model.value != [] {
      argv := Splice(argv, 1 + |baseArgs|, [ModelFlag, o.model.value]);
      assert argv[..1 + |baseArgs|] == [bin] + baseArgs;
    }
  }

  /** The verdict on the tool's (trimmed) output: exit code 0 gives stdout
      as it is; any other code is an error naming the code and stderr, else
      stdout, else `"unknown error"`. */
  function ModelOutcome(p: ProcessOutput): (r: Result<string, RunnerError>)
    ensures r.Ok? <==> p.exitCode == 0
    ensures r.Ok? ==> r.value == p.stdout
    ensures r.Err? ==> r.error.ModelInvocationFailed? && r.error.code == p.exitCode
    ensures r.Err? && p.stderr != [] ==> r.error.detail == p.stderr
    ensures r.Err? && p.stderr == [] && p.stdout != [] ==> r.error.detail == p.stdout
    ensures r.Err? && p.stderr == [] && p.stdout == [] ==> r.error.detail == "unknown error"
  {
    if p.exitCode != 0 then
      Err(ModelInvocationFailed(p.exitCode, OrElse(p.stderr, OrElse(p.stdout, "unknown error"))))
    else
      Ok(p.stdout)
  }

  /** `invokeOpencode(prompt, options)` against the outside world `exec`. */
  function InvokeOpencode(prompt: string, options: Option<OpencodeOptions>, exec: Exec): (r: Result<string, RunnerError>)
    ensures r.Err? ==> r.error.ModelInvocationFailed?
  {
    ModelOutcome(Completed(exec(OpencodeArgv(prompt, options.GetOr(NoOptions)))))
  }
}
