/**
 * The request controller `InstagramFactCheckCrew.run`.
 *
 * Each attempt rebuilds the agents and tasks and starts the two-stage
 * pipeline (fact-checker, then analysis writer).  While the result is longer
 * than 850 characters the writer alone is asked for a shorter version.  An
 * exception anywhere in an attempt lands in one handler: if its text contains
 * "Ratelimit" and the attempt was not the last, the controller sleeps
 * `2 * 2^attempt` seconds and starts over; otherwise it answers with a
 * failure envelope carrying the exception text.
 *
 * The agent framework is a script of outcomes, one consumed per pipeline
 * kickoff.  Sleeping appends to a trace, and the timestamp is a parameter.
 * The controller is then a pure function from the script to an envelope and
 * a trace.
 */
module Orchestrator {
  import opened Text
  import opened Envelopes

  /** `max_retries`: the number of pipeline attempts. */
  const MaxRetries: nat := 3
  /** `retry_delay`: the base of the exponential backoff, in seconds. */
  const RetryDelay: nat := 2
  /** The longest result returned without asking for a rewrite. */
  const ContentLimit: nat := 850
  /** The case-sensitive marker that makes an exception retryable. */
  const RateLimitMarker: string := "Ratelimit"

  /** What one `crew.kickoff()` does: return a result (already passed
      through `str`) or raise an exception whose `str` is `message`. */
  datatype Outcome = Ok(text: string) | Err(message: string)

  /** The outcomes the agent framework will produce, in call order. */
  type Script = seq<Outcome>

  /** Which crew was kicked off: the two-stage fact-check and analysis crew,
      or the writer-only crew that condenses an overlong result. */
  datatype Stage = Verify | Rewrite

  /** One observable step of a run. */
  datatype Event =
    | Setup(attempt: nat)                       // create_agents and create_tasks for this attempt
    | SetupRaised(message: string)              // ... and they raised
    | Kickoff(stage: Stage, outcome: Outcome)   // one crew.kickoff() call
    | Sleep(seconds: nat)                       // time.sleep before the next attempt

  type Trace = seq<Event>

  /** The three `return` statements of `run`: inside the `try`, inside the
      handler, and after the attempt loop. */
  datatype ReturnSite = TryReturn | HandlerReturn | ExhaustedReturn

  /** The whole run: the envelope it returns and the return statement that
      built it, or the point where the script ran out. */
  datatype RunResult =
    | Returned(envelope: Envelope, site: ReturnSite, trace: Trace)
    | ScriptExhausted(trace: Trace)

  /** The end of one attempt (or of the rewrite loop inside it). */
  datatype AttemptResult =
    | Completed(text: string, trace: Trace)
    | Raised(message: string, rest: Script, trace: Trace)
    | Starved(trace: Trace)

  /** `"Ratelimit" in str(e)` */
  predicate IsRateLimit(message: string)
  {
    Contains(message, RateLimitMarker)
  }

  /** `retry_delay * (2 ** attempt)` */
  function Backoff(attempt: nat): (seconds: nat)
    ensures seconds >= RetryDelay
  {
    RetryDelay * Pow2(attempt)
  }

  function WithPrefix(pre: Trace, r: AttemptResult): AttemptResult
  {
    r.(trace := pre + r.trace)
  }

  function Continue(pre: Trace, r: RunResult): RunResult
  {
    r.(trace := pre + r.trace)
  }

  /** The `while len(result) > 850` loop: each round builds a writer-only crew
      and kicks it off once.  Its result is under the limit when it completes. */
  function RewriteLoop(result: string, script: Script): (r: AttemptResult)
    ensures r.Completed? ==> |r.text| <= ContentLimit
    ensures r.Completed? && |result| > ContentLimit ==> |r.trace| > 0
    decreases |script|
  {
    if |result| <= ContentLimit then Completed(result, [])
    else if script == [] then Starved([])
    else
      var ev := Kickoff(Rewrite, script[0]);
      match script[0]
      case Err(m) => Raised(m, script[1..], [ev])
      case Ok(t) => WithPrefix([ev], RewriteLoop(t, script[1..]))
  }

  /** One pass through the body of the `try`: rebuild agents and tasks, kick
      off the two-stage crew, then shorten the result if needed. */
  function Attempt(attempt: nat, setup: Option<string>, script: Script): (r: AttemptResult)
    ensures r.Completed? ==> |r.text| <= ContentLimit
    ensures |r.trace| > 0 && r.trace[0] == Setup(attempt)
  {
    var pre := [Setup(attempt)];
    match setup
    case Some(m) => Raised(m, script, pre + [SetupRaised(m)])
    case None =>
      if script == [] then Starved(pre)
      else
        var ev := Kickoff(Verify, script[0]);
        match script[0]
        case Err(m) => Raised(m, script[1..], pre + [ev])
        case Ok(t) => WithPrefix(pre + [ev], RewriteLoop(t, script[1..]))
  }

  /** The `for attempt in range(max_retries)` loop from `attempt` on, with the
      exception handler and the return after the loop. */
  function RunFrom(attempt: nat, setup: Option<string>, script: Script, now: Timestamp): (r: RunResult)
    ensures r.Returned? ==> SingleRecord(r.envelope, now)
    ensures r.Returned? && r.envelope.message[0].Content? ==> |r.envelope.message[0].content| <= ContentLimit
    decreases MaxRetries - attempt
  {
    if attempt >= MaxRetries then Returned(ExhaustedEnvelope(now), ExhaustedReturn, [])
    else
      match Attempt(attempt, setup, script)
      case Starved(tr) => ScriptExhausted(tr)
      case Completed(text, tr) => Returned(SuccessEnvelope(text, now), TryReturn, tr)
      case Raised(m, rest, tr) =>
        if IsRateLimit(m) && attempt < MaxRetries - 1 then
          Continue(tr + [Sleep(Backoff(attempt))], RunFrom(attempt + 1, setup, rest, now))
        else
          Returned(FailureEnvelope(m, now), HandlerReturn, tr)
  }

  /** `run(post_data)`: `setup` is the exception, if any, that building the
      agents and tasks raises for this request, `script` the framework's
      kickoff outcomes and `now` the timestamp of the reply. */
  function Run(setup: Option<string>, script: Script, now: Timestamp): (r: RunResult)
    ensures r.Returned? ==> SingleRecord(r.envelope, now)
    ensures r.Returned? && r.envelope.message[0].Content? ==> |r.envelope.message[0].content| <= ContentLimit
  {
    RunFrom(0, setup, script, now)
  }
}
