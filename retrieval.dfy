/**
 * The retrieve command as the controller sees it, and how one attempt's reply is classified.
 *
 * The command itself, the temporary result file and `JSON.parse` are outside the model:
 * a reply is a value handed in by the caller, and the parser is a function parameter whose
 * failure carries the message of the error it would throw.
 */
module Retrieval {
  import opened Wrappers

  /**
   * A parsed JSON reply. `Null` is the JSON value `null`, whose `status` cannot be read.
   * For any other value, `status` is its `status` member when that is a number, and `body`
   * is what `JSON.stringify` gives for the whole value.
   */
  datatype Json = Null | Value(status: Option<int>, body: string)
  {
    /** `JSON.stringify` of the value. */
    function Text(): string
    {
      if Null? then "null" else body
    }
  }

  /** The message of the `TypeError` raised by reading `status` of `null`. */
  const NullStatusMessage := "Cannot read properties of null (reading 'status')"

  /**
   * The error object a failed process invocation throws. Each captured stream is `Some`
   * when the error carries it; a captured stream counts as present even when empty.
   */
  datatype ExecError = ExecError(stdout: Option<string>, stderr: Option<string>, message: string)

  /** The outcome of running the retrieve command once. */
  datatype Reply =
    | Exited(output: string)   // the command exited with status 0; its output
    | Threw(error: ExecError)  // the command failed or could not be run

  /** `JSON.parse`: a value, or the message of the syntax error it throws. */
  type Parser = string -> Result<Json, string>

  /** How an attempt ended, as far as the retry loop is concerned. */
  datatype AttemptOutcome =
    | Success                                // the reply says status 0
    | StructuredFailure(retrieveJson: Json)  // a parsed reply to scan for missing types
    | Unparseable                            // the captured text is not JSON

  /** The text saved from a thrown error: its standard output, else its standard error, else its message. */
  function RawOutput(err: ExecError): (raw: string)
    ensures err.stdout.Some? ==> raw == err.stdout.value
    ensures err.stdout.None? && err.stderr.Some? ==> raw == err.stderr.value
    ensures err.stdout.None? && err.stderr.None? ==> raw == err.message
  {
    if err.stdout.Some? then err.stdout.value
    else if err.stderr.Some? then err.stderr.value
    else err.message
  }

  /** The exception handler: parse the saved text and hand it on, without looking at its status. */
  function CatchPath(err: ExecError, parse: Parser): AttemptOutcome
  {
    match parse(RawOutput(err))
    case Ok(retrieveJson) => StructuredFailure(retrieveJson)
    case Err(_) => Unparseable
  }

  /**
   * Classifies one reply. When the output of a normal exit does not parse, or parses to
   * `null` so that reading its `status` raises, the error is thrown inside the `try` block:
   * the handler sees an error with neither stream and that error's message.
   */
  function Classify(reply: Reply, parse: Parser): (outcome: AttemptOutcome)
    ensures outcome.Success?
        <==> && reply.Exited? && parse(reply.output).Ok?
             && parse(reply.output).value.Value? && parse(reply.output).value.status == Some(0)
    ensures outcome.Unparseable?
        <==> || (reply.Threw? && parse(RawOutput(reply.error)).Err?)
             || (reply.Exited? && parse(reply.output).Err? && parse(parse(reply.output).error).Err?)
             || (reply.Exited? && parse(reply.output) == Ok(Null) && parse(NullStatusMessage).Err?)
    ensures outcome.StructuredFailure? ==>
        || (reply.Exited? && parse(reply.output) == Ok(outcome.retrieveJson)
            && outcome.retrieveJson.Value? && outcome.retrieveJson.status != Some(0))
        || (reply.Exited? && parse(reply.output).Err? && parse(parse(reply.output).error) == Ok(outcome.retrieveJson))
        || (reply.Exited? && parse(reply.output) == Ok(Null) && parse(NullStatusMessage) == Ok(outcome.retrieveJson))
        || (reply.Threw? && parse(RawOutput(reply.error)) == Ok(outcome.retrieveJson))
  {
    match reply
    case Exited(output) =>
      (match parse(output)
       case Ok(Null) => CatchPath(ExecError(None, None, NullStatusMessage), parse)
       case Ok(retrieveJson) =>
         if retrieveJson.status == Some(0) then Success else StructuredFailure(retrieveJson)
       case Err(message) => CatchPath(ExecError(None, None, message), parse))
    case Threw(err) => CatchPath(err, parse)
  }
}
