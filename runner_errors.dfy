/** The errors the lint-fix runner throws, one constructor per `throw` site,
    with the message text each site builds. */
module RunnerErrors {
  import opened JsStrings

  datatype RunnerError =
    | NoLintCommand                                   // resolveLintCommand
    | EmptyCommandString                              // toCommandArgs
    | ConcurrencyNotPositive                          // runWithConcurrency
    | LintCommandFailed(code: int, detail: string)    // generateLintTaskItems, lint exit code
    | ModelInvocationFailed(code: int, detail: string) // invokeOpencode, tool exit code
    | JsonParseFailed(text: string)                   // JSON.parse rejected `text`
    | LintTasksInvalid(reason: string)                // lint task array schema
    | FixResultInvalid(reason: string)                // lint fix result schema
  {
    /** The `Error` message of the site; `JSON.parse`'s own message is the
        engine's and is not modelled. */
    function Message(): string
      requires !JsonParseFailed?
    {
      match this
      case NoLintCommand =>
        "No lint command provided. Pass lintCommand, set ACC_LINT_COMMAND, or configure the runner."
      case EmptyCommandString => "Command string cannot be empty"
      case ConcurrencyNotPositive => "Concurrency must be greater than 0"
      case LintCommandFailed(code, detail) =>
        "Lint command failed with code " + IntToString(code) + ": " + detail
      case ModelInvocationFailed(code, detail) =>
        "Model invocation failed with code " + IntToString(code) + ": " + detail
      case LintTasksInvalid(reason) => "Failed to parse lint task items: " + reason
      case FixResultInvalid(reason) => "Failed to parse lint fix result: " + reason
    }
  }

  /** A failed process's message names its exit code, and the text after the
      colon is the detail verbatim. */
  lemma ExitFailureMessage(e: RunnerError)
    requires e.LintCommandFailed? || e.ModelInvocationFailed?
    ensures IsInfix(IntToString(e.code), e.Message())
    ensures IsSuffix(": " + e.detail, e.Message())
  {
    if e.LintCommandFailed? {
      MiddleAndEnd("Lint command failed with code ", IntToString(e.code), ": ", e.detail);
    } else {
      MiddleAndEnd("Model invocation failed with code ", IntToString(e.code), ": ", e.detail);
    }
  }

  /** In `lead + mid + sep + tail`, `mid` occurs and `sep + tail` ends the text. */
  lemma MiddleAndEnd(lead: string, mid: string, sep: string, tail: string)
    ensures IsInfix(mid, lead + mid + sep + tail) && IsSuffix(sep + tail, lead + mid + sep + tail)
  {
    var m := lead + mid + sep + tail;
    assert m[|lead|..|lead| + |mid|] == mid;
    assert OccursAt(mid, m, |lead|);
    assert m[|m| - |sep + tail|..] == sep + tail;
  }
}
