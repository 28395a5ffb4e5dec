/**
 * What `run` promises, stated over its trace.
 *
 * `Next` lists which event may follow which.  `RunObeysProtocol` proves that
 * every run follows it, counts its attempts and sleeps, and says how the
 * final event decides the envelope.  The lemmas after it read the individual
 * guarantees off that one result.
 */
module RunTraces {
  import opened Text
  import opened Envelopes
  import opened Orchestrator

  function Last(tr: Trace): Event
    requires |tr| > 0
  {
    tr[|tr| - 1]
  }

  /** The event is an exception reaching the handler. */
  predicate Raises(e: Event)
  {
    e.SetupRaised? || (e.Kickoff? && e.outcome.Err?)
  }

  function RaisedMessage(e: Event): string
    requires Raises(e)
  {
    if e.SetupRaised? then e.message else e.outcome.message
  }

  /** A kickoff whose result already fits the length limit. */
  predicate Fits(e: Event)
  {
    e.Kickoff? && e.outcome.Ok? && |e.outcome.text| <= ContentLimit
  }

  /** A kickoff whose result is too long. */
  predicate TooLong(e: Event)
  {
    e.Kickoff? && e.outcome.Ok? && |e.outcome.text| > ContentLimit
  }

  /** The controller's step relation: which event may come right after `e`. */
  predicate Next(e: Event, f: Event)
  {
    match e
    case Setup(_) => f.SetupRaised? || (f.Kickoff? && f.stage == Verify)
    case SetupRaised(m) => IsRateLimit(m) && f.Sleep?
    case Kickoff(_, Err(m)) => IsRateLimit(m) && f.Sleep?
    case Kickoff(_, Ok(t)) => |t| > ContentLimit && f.Kickoff? && f.stage == Rewrite
    case Sleep(d) => f.Setup? && 1 <= f.attempt < MaxRetries && d == Backoff(f.attempt - 1)
  }

  /** Every pair of neighbouring events is a step of the controller. */
  predicate Chained(tr: Trace)
  {
    forall i :: 0 <= i < |tr| - 1 ==> Next(tr[i], tr[i + 1])
  }

  /** The step from position `i` of a chained trace. */
  lemma StepAt(tr: Trace, i: nat)
    requires Chained(tr) && i + 1 < |tr|
    ensures Next(tr[i], tr[i + 1])
  {
  }

  /** The values `f` extracts from the events of `tr`, in order. */
  function Project<T>(tr: Trace, f: Event -> Option<T>): seq<T>
  {
    if tr == [] then []
    else (match f(tr[0]) case Some(v) => [v] case None => []) + Project(tr[1..], f)
  }

  function AttemptOf(e: Event): Option<nat>
  {
    if e.Setup? then Some(e.attempt) else None
  }

  function SleepOf(e: Event): Option<nat>
  {
    if e.Sleep? then Some(e.seconds) else None
  }

  function OutcomeOf(e: Event): Option<Outcome>
  {
    if e.Kickoff? then Some(e.outcome) else None
  }

  function StartOf(e: Event): Option<Outcome>
  {
    if e.Kickoff? && e.stage == Verify then Some(e.outcome) else None
  }

  /** The attempt numbers, in the order the attempts were made. */
  function Attempts(tr: Trace): seq<nat> { Project(tr, AttemptOf) }

  /** The delays slept, in order. */
  function Sleeps(tr: Trace): seq<nat> { Project(tr, SleepOf) }

  /** The outcomes of all kickoffs, in call order. */
  function Kicked(tr: Trace): seq<Outcome> { Project(tr, OutcomeOf) }

  /** The outcomes of the two-stage crew's kickoffs only. */
  function Starts(tr: Trace): seq<Outcome> { Project(tr, StartOf) }

  /** `lo, lo + 1, ..., lo + n - 1` */
  function Range(lo: nat, n: nat): seq<nat>
    decreases n
  {
    if n == 0 then [] else [lo] + Range(lo + 1, n - 1)
  }

  /** The backoff delays of `n` consecutive attempts starting at `lo`. */
  function Backoffs(lo: nat, n: nat): seq<nat>
    decreases n
  {
    if n == 0 then [] else [Backoff(lo)] + Backoffs(lo + 1, n - 1)
  }

  /** How a returned run ends: a kickoff result that fits gives the content
      envelope from inside the `try`; otherwise the last event is the
      exception the handler turned into a failure envelope, and a rate-limit
      exception ends the run only when no attempt is left (`lastAttempt`). */
  predicate Closes(r: RunResult, now: Timestamp, lastAttempt: bool)
    requires r.Returned? && |r.trace| > 0
  {
    var e := Last(r.trace);
    if Fits(e) then
      r.envelope == SuccessEnvelope(e.outcome.text, now) && r.site == TryReturn
    else
      && Raises(e)
      && r.envelope == FailureEnvelope(RaisedMessage(e), now)
      && r.site == HandlerReturn
      && (IsRateLimit(RaisedMessage(e)) ==> lastAttempt)
  }

  /** The attempts recorded in a trace that starts at attempt `a`: numbered
      `a`, `a + 1`, ... and never beyond the last, one backoff delay between
      consecutive attempts, and at most one start of the two-stage crew each. */
  predicate Counted(tr: Trace, a: nat)
  {
    var k := |Attempts(tr)|;
    && 1 <= k && a + k <= MaxRetries
    && Attempts(tr) == Range(a, k)
    && Sleeps(tr) == Backoffs(a, k - 1)
    && |Starts(tr)| <= k
  }

  /** How a run that starts at attempt `a` ends: out of script right after a
      rebuild or an overlong result, or returned as `Closes` says. */
  predicate Ends(r: RunResult, now: Timestamp, a: nat)
  {
    && |r.trace| > 0
    && (r.ScriptExhausted? ==> Last(r.trace).Setup? || TooLong(Last(r.trace)))
    && (r.Returned? ==> Closes(r, now, a + |Attempts(r.trace)| == MaxRetries))
  }

  /** The setup step behaves as given for the run: a `SetupRaised` event
      occurs only when building agents and tasks raises, with that message,
      and then every rebuild is followed at once by that exception. */
  predicate SetupFaithful(tr: Trace, setup: Option<string>)
  {
    && (forall i :: 0 <= i < |tr| && tr[i].SetupRaised? ==> setup == Some(tr[i].message))
    && (setup.Some? ==>
          forall i :: 0 <= i < |tr| && tr[i].Setup? ==> i + 1 < |tr| && tr[i + 1] == SetupRaised(setup.value))
  }

  /** Everything `RunObeysProtocol` states about a run starting at `a`. */
  predicate Protocol(r: RunResult, a: nat, setup: Option<string>, script: Script, now: Timestamp)
  {
    && |r.trace| > 0 && r.trace[0] == Setup(a) && Chained(r.trace)
    && SetupFaithful(r.trace, setup)
    && Counted(r.trace, a)
    && Kicked(r.trace) <= script
    && (r.ScriptExhausted? ==> Kicked(r.trace) == script)
    && Ends(r, now, a)
  }

  // ---------------------------------------------------------------------
  // Bookkeeping lemmas

  lemma {:induction false} ProjectAppend<T>(a: Trace, b: Trace, f: Event -> Option<T>)
    ensures Project(a + b, f) == Project(a, f) + Project(b, f)
    decreases |a|
  {
    if a != [] {
      assert (a + b)[1..] == a[1..] + b;
      ProjectAppend(a[1..], b, f);
    } else {
      assert a + b == b;
    }
  }

  lemma PrefixExtend<T>(x: seq<T>, y: seq<T>, z: seq<T>)
    requires y <= z
    ensures x + y <= x + z
    ensures y == z ==> x + y == x + z
  {
    assert (x + z)[..|x + y|] == x + z[..|y|];
  }

  lemma ChainedAppend(a: Trace, b: Trace)
    requires Chained(a) && Chained(b)
    requires |a| > 0 && |b| > 0 && Next(Last(a), b[0])
    ensures Chained(a + b)
  {
    var ab := a + b;
    forall i | 0 <= i < |ab| - 1
      ensures Next(ab[i], ab[i + 1])
    {
      if i < |a| - 1 {
        assert ab[i] == a[i] && ab[i + 1] == a[i + 1];
      } else if i == |a| - 1 {
        assert ab[i] == Last(a) && ab[i + 1] == b[0];
      } else {
        assert ab[i] == b[i - |a|] && ab[i + 1] == b[i - |a| + 1];
      }
    }
  }

  lemma SetupFaithfulAppend(x: Trace, y: Trace, setup: Option<string>)
    requires SetupFaithful(x, setup) && SetupFaithful(y, setup)
    ensures SetupFaithful(x + y, setup)
  {
    var xy := x + y;
    forall i | 0 <= i < |xy| && xy[i].SetupRaised?
      ensures setup == Some(xy[i].message)
    {
      if i < |x| {
        assert xy[i] == x[i];
      } else {
        assert xy[i] == y[i - |x|];
      }
    }
    if setup.Some? {
      forall i | 0 <= i < |xy| && xy[i].Setup?
        ensures i + 1 < |xy| && xy[i + 1] == SetupRaised(setup.value)
      {
        if i < |x| {
          assert xy[i] == x[i] && xy[i + 1] == x[i + 1];
        } else {
          assert xy[i] == y[i - |x|] && xy[i + 1] == y[i - |x| + 1];
        }
      }
    }
  }

  /** How an attempt's result matches the last event of its trace. */
  predicate EndsWith(r: AttemptResult, e: Event)
  {
    match r
    case Completed(text, _) => Fits(e) && e.outcome.text == text
    case Raised(m, _, _) => Raises(e) && RaisedMessage(e) == m
    case Starved(_) => e.Setup? || TooLong(e)
  }

  /** How much of the script an attempt's kickoffs consumed. */
  predicate Consumed(r: AttemptResult, script: Script)
  {
    match r
    case Completed(_, tr) => Kicked(tr) <= script
    case Raised(_, rest, tr) => Kicked(tr) + rest == script
    case Starved(tr) => Kicked(tr) == script
  }

  predicate OnlyRewrites(tr: Trace)
  {
    forall i :: 0 <= i < |tr| ==> tr[i].Kickoff? && tr[i].stage == Rewrite
  }

  lemma ProjectCons<T>(e: Event, tr: Trace, f: Event -> Option<T>)
    ensures Project([e] + tr, f) == (if f(e).Some? then [f(e).value] else []) + Project(tr, f)
  {
    assert ([e] + tr)[1..] == tr;
  }

  lemma {:induction false} ProjectNone<T>(tr: Trace, f: Event -> Option<T>)
    requires forall i :: 0 <= i < |tr| ==> f(tr[i]).None?
    ensures Project(tr, f) == []
    decreases |tr|
  {
    if tr != [] {
      assert f(tr[0]).None?;
      ProjectNone(tr[1..], f);
    }
  }
}

/**
 * The guarantees of `run`, proved from the definitions of the rewrite loop,
 * one attempt and the attempt loop.
 */
module RunProperties {
  import opened Text
  import opened Envelopes
  import opened Orchestrator
  import opened RunTraces

  // ---------------------------------------------------------------------
  // The rewrite loop, one attempt, the attempt loop

  lemma {:induction false} RewriteLoopOnlyRewrites(result: string, script: Script)
    ensures OnlyRewrites(RewriteLoop(result, script).trace)
    decreases |script|
  {
    if |result| > ContentLimit && script != [] && script[0].Ok? {
      RewriteLoopOnlyRewrites(script[0].text, script[1..]);
    }
  }

  lemma {:induction false} RewriteLoopConsumes(result: string, script: Script)
    ensures Consumed(RewriteLoop(result, script), script)
    decreases |script|
  {
    if |result| > ContentLimit && script != [] {
      var r := RewriteLoop(result, script);
      var ev := Kickoff(Rewrite, script[0]);
      assert script == [script[0]] + script[1..];
      assert [ev] == [ev] + [];
      ProjectCons(ev, [], OutcomeOf);
      if script[0].Ok? {
        var r' := RewriteLoop(script[0].text, script[1..]);
        RewriteLoopConsumes(script[0].text, script[1..]);
        assert r.trace == [ev] + r'.trace;
        ProjectCons(ev, r'.trace, OutcomeOf);
      }
    }
  }

  /** The rewrite loop, seen right after the kickoff that produced `result`. */
  lemma {:induction false} RewriteLoopChain(stage: Stage, result: string, script: Script)
    ensures var r := RewriteLoop(result, script);
            var tr := [Kickoff(stage, Ok(result))] + r.trace;
            Chained(tr) && EndsWith(r, Last(tr))
    decreases |script|
  {
    var r := RewriteLoop(result, script);
    if |result| > ContentLimit && script != [] && script[0].Ok? {
      var ev := Kickoff(Rewrite, script[0]);
      var r' := RewriteLoop(script[0].text, script[1..]);
      RewriteLoopChain(Rewrite, script[0].text, script[1..]);
      assert r.trace == [ev] + r'.trace;
      ChainedAppend([Kickoff(stage, Ok(result))], [ev] + r'.trace);
    }
  }

  lemma AttemptChain(a: nat, setup: Option<string>, script: Script)
    ensures var r := Attempt(a, setup, script);
            Chained(r.trace) && EndsWith(r, Last(r.trace))
  {
    var r := Attempt(a, setup, script);
    if setup.None? && script != [] && script[0].Ok? {
      var ev := Kickoff(Verify, script[0]);
      var r' := RewriteLoop(script[0].text, script[1..]);
      RewriteLoopChain(Verify, script[0].text, script[1..]);
      assert r.trace == [Setup(a)] + ([ev] + r'.trace);
      ChainedAppend([Setup(a)], [ev] + r'.trace);
    }
  }

  lemma AttemptCounts(a: nat, setup: Option<string>, script: Script)
    ensures var tr := Attempt(a, setup, script).trace;
            Attempts(tr) == [a] && Sleeps(tr) == [] && |Starts(tr)| <= 1
  {
    var mid, rt := AttemptShape(a, setup, script);
    ShapeCounts(a, mid, rt);
  }

  /** An attempt's trace: its `Setup` event, at most one event that raised
      or started the two-stage crew, then rewrites only. */
  lemma AttemptShape(a: nat, setup: Option<string>, script: Script) returns (mid: Trace, rt: Trace)
    ensures Attempt(a, setup, script).trace == [Setup(a)] + (mid + rt)
    ensures OnlyRewrites(rt)
    ensures mid == [] || (|mid| == 1 && (mid[0].SetupRaised? || (mid[0].Kickoff? && mid[0].stage == Verify)))
    ensures setup.Some? ==> mid == [SetupRaised(setup.value)] && rt == []
    ensures setup.None? ==> mid == [] || mid[0].Kickoff?
  {
    rt, mid := [], [];
    if setup.Some? {
      mid := [SetupRaised(setup.value)];
    } else if script != [] {
      mid := [Kickoff(Verify, script[0])];
      if script[0].Ok? {
        rt := RewriteLoop(script[0].text, script[1..]).trace;
        RewriteLoopOnlyRewrites(script[0].text, script[1..]);
      }
    }
  }

  lemma AttemptSetup(a: nat, setup: Option<string>, script: Script)
    ensures SetupFaithful(Attempt(a, setup, script).trace, setup)
  {
    var mid, rt := AttemptShape(a, setup, script);
    ShapeSetup(a, setup, mid, rt);
  }

  lemma ShapeSetup(a: nat, setup: Option<string>, mid: Trace, rt: Trace)
    requires OnlyRewrites(rt) && |mid| <= 1
    requires setup.Some? ==> mid == [SetupRaised(setup.value)] && rt == []
    requires setup.None? ==> mid == [] || mid[0].Kickoff?
    ensures SetupFaithful([Setup(a)] + (mid + rt), setup)
  {
    var tr := [Setup(a)] + (mid + rt);
    if setup.Some? {
      assert tr == [Setup(a), SetupRaised(setup.value)];
    } else {
      forall i | 0 <= i < |tr|
        ensures !tr[i].SetupRaised?
      {
        if i == 0 {
        } else if i <= |mid| {
          assert tr[i] == mid[0];
        } else {
          assert tr[i] == rt[i - 1 - |mid|];
        }
      }
    }
  }

  lemma ShapeCounts(a: nat, mid: Trace, rt: Trace)
    requires OnlyRewrites(rt)
    requires mid == [] || (|mid| == 1 && (mid[0].SetupRaised? || (mid[0].Kickoff? && mid[0].stage == Verify)))
    ensures var tr := [Setup(a)] + (mid + rt);
            Attempts(tr) == [a] && Sleeps(tr) == [] && |Starts(tr)| <= 1
  {
    ProjectNone(rt, AttemptOf);
    ProjectNone(rt, SleepOf);
    ProjectNone(rt, StartOf);
    ProjectAppend(mid, rt, AttemptOf);
    ProjectAppend(mid, rt, SleepOf);
    ProjectAppend(mid, rt, StartOf);
    ProjectCons(Setup(a), mid + rt, AttemptOf);
    ProjectCons(Setup(a), mid + rt, SleepOf);
    ProjectCons(Setup(a), mid + rt, StartOf);
    if mid != [] {
      assert mid == [mid[0]] + [];
      ProjectCons(mid[0], [], AttemptOf);
      ProjectCons(mid[0], [], SleepOf);
      ProjectCons(mid[0], [], StartOf);
    }
  }

  lemma AttemptConsumes(a: nat, setup: Option<string>, script: Script)
    ensures Consumed(Attempt(a, setup, script), script)
  {
    if setup.Some? {
      ProjectCons(SetupRaised(setup.value), [], OutcomeOf);
      ProjectCons(Setup(a), [SetupRaised(setup.value)], OutcomeOf);
    } else if script == [] {
      assert [Setup(a)] + [] == [Setup(a)];
      ProjectCons(Setup(a), [], OutcomeOf);
    } else {
      var ev := Kickoff(Verify, script[0]);
      ProjectCons(ev, [], OutcomeOf);
      ProjectCons(Setup(a), [ev], OutcomeOf);
      assert [Setup(a)] + [ev] == [Setup(a), ev];
      assert script == [script[0]] + script[1..];
      if script[0].Ok? {
        RewriteLoopConsumes(script[0].text, script[1..]);
        ConsumedAfter([Setup(a), ev], RewriteLoop(script[0].text, script[1..]), script[0], script[1..]);
      }
    }
  }

  /** Kickoffs in front of an attempt's trace consume the script in front. */
  lemma ConsumedAfter(pre: Trace, r: AttemptResult, o: Outcome, rest: Script)
    requires Kicked(pre) == [o] && Consumed(r, rest)
    ensures Consumed(WithPrefix(pre, r), [o] + rest)
  {
    ProjectAppend(pre, r.trace, OutcomeOf);
    match r
    case Completed(_, _) =>
      PrefixExtend([o], Kicked(r.trace), rest);
    case Raised(_, rest', _) =>
      ConcatAssociates([o], Kicked(r.trace), rest');
    case Starved(_) =>
  }

  /** One turn of the attempt loop: an attempt that raises a rate-limit
      exception before the last attempt is followed by a sleep and the rest
      of the loop; any other attempt ends the run with its own trace. */
  lemma RunFromUnfold(a: nat, setup: Option<string>, script: Script, now: Timestamp)
    requires a < MaxRetries
    ensures var at := Attempt(a, setup, script);
            var r := RunFrom(a, setup, script, now);
            if at.Raised? && IsRateLimit(at.message) && a < MaxRetries - 1 then
              var next := RunFrom(a + 1, setup, at.rest, now);
              && r.trace == at.trace + ([Sleep(Backoff(a))] + next.trace)
              && r.Returned? == next.Returned?
              && (r.Returned? ==> r.envelope == next.envelope && r.site == next.site)
            else
              && r.trace == at.trace
              && r.ScriptExhausted? == at.Starved?
              && (at.Completed? ==> r == Returned(SuccessEnvelope(at.text, now), TryReturn, at.trace))
              && (at.Raised? ==> r == Returned(FailureEnvelope(at.message, now), HandlerReturn, at.trace))
  {
    var at := Attempt(a, setup, script);
    if at.Raised? && IsRateLimit(at.message) && a < MaxRetries - 1 {
      UnfoldRetry(a, setup, script, now);
    } else {
      UnfoldStop(a, setup, script, now);
    }
  }

  lemma UnfoldRetry(a: nat, setup: Option<string>, script: Script, now: Timestamp)
    requires a < MaxRetries - 1
    requires var at := Attempt(a, setup, script); at.Raised? && IsRateLimit(at.message)
    ensures var at := Attempt(a, setup, script);
            var r := RunFrom(a, setup, script, now);
            var next := RunFrom(a + 1, setup, at.rest, now);
            && r.trace == at.trace + ([Sleep(Backoff(a))] + next.trace)
            && r.Returned? == next.Returned?
            && (r.Returned? ==> r.envelope == next.envelope && r.site == next.site)
  {
    var at := Attempt(a, setup, script);
    ConcatAssociates(at.trace, [Sleep(Backoff(a))], RunFrom(a + 1, setup, at.rest, now).trace);
  }

  lemma UnfoldStop(a: nat, setup: Option<string>, script: Script, now: Timestamp)
    requires a < MaxRetries
    requires var at := Attempt(a, setup, script); !(at.Raised? && IsRateLimit(at.message) && a < MaxRetries - 1)
    ensures var at := Attempt(a, setup, script);
            var r := RunFrom(a, setup, script, now);
            && r.trace == at.trace
            && r.ScriptExhausted? == at.Starved?
            && (at.Completed? ==> r == Returned(SuccessEnvelope(at.text, now), TryReturn, at.trace))
            && (at.Raised? ==> r == Returned(FailureEnvelope(at.message, now), HandlerReturn, at.trace))
  {
  }

  // The step lemmas below put one raising attempt, the sleep after it and
  // the rest of the run together, without looking at how either was computed.

  lemma ChainStep(a: nat, at: Trace, next: Trace)
    requires |at| > 0 && Chained(at) && Raises(Last(at)) && IsRateLimit(RaisedMessage(Last(at)))
    requires 1 <= a + 1 < MaxRetries && |next| > 0 && next[0] == Setup(a + 1) && Chained(next)
    ensures Chained(at + ([Sleep(Backoff(a))] + next))
  {
    var s := [Sleep(Backoff(a))];
    ChainedAppend(at, s);
    ChainedAppend(at + s, next);
    assert (at + s) + next == at + (s + next);
  }

  lemma CountedStep(a: nat, at: Trace, next: Trace)
    requires Attempts(at) == [a] && Sleeps(at) == [] && |Starts(at)| <= 1
    requires Counted(next, a + 1)
    ensures Counted(at + ([Sleep(Backoff(a))] + next), a)
  {
    var s := Sleep(Backoff(a));
    var tr := at + ([s] + next);
    ProjectCons(s, next, AttemptOf);
    ProjectCons(s, next, SleepOf);
    ProjectCons(s, next, StartOf);
    ProjectAppend(at, [s] + next, AttemptOf);
    ProjectAppend(at, [s] + next, SleepOf);
    ProjectAppend(at, [s] + next, StartOf);
    var k' := |Attempts(next)|;
    assert Attempts(tr) == [a] + Attempts(next);
    assert Sleeps(tr) == [Backoff(a)] + Sleeps(next);
    assert Range(a, k' + 1) == [a] + Range(a + 1, k');
    assert Backoffs(a, k') == [Backoff(a)] + Backoffs(a + 1, k' - 1);
  }

  lemma EndsStep(a: nat, at: Trace, next: RunResult, r: RunResult, now: Timestamp)
    requires Attempts(at) == [a] && Ends(next, now, a + 1)
    requires r.trace == at + ([Sleep(Backoff(a))] + next.trace)
    requires r.Returned? == next.Returned?
    requires r.Returned? ==> r.envelope == next.envelope && r.site == next.site
    ensures Ends(r, now, a)
  {
    var s := Sleep(Backoff(a));
    ProjectCons(s, next.trace, AttemptOf);
    ProjectAppend(at, [s] + next.trace, AttemptOf);
    assert |Attempts(r.trace)| == 1 + |Attempts(next.trace)|;
    assert Last(r.trace) == Last(next.trace);
  }

  /** A run that ends within attempt `a` ends as that attempt did. */
  lemma EndsHere(a: nat, at: AttemptResult, r: RunResult, now: Timestamp)
    requires a < MaxRetries
    requires |at.trace| > 0 && EndsWith(at, Last(at.trace)) && Attempts(at.trace) == [a]
    requires !(at.Raised? && IsRateLimit(at.message) && a < MaxRetries - 1)
    requires r.trace == at.trace && r.ScriptExhausted? == at.Starved?
    requires at.Completed? ==> r == Returned(SuccessEnvelope(at.text, now), TryReturn, at.trace)
    requires at.Raised? ==> r == Returned(FailureEnvelope(at.message, now), HandlerReturn, at.trace)
    ensures Ends(r, now, a)
  {
  }

  lemma ConsumedStep(at: Trace, rest: Script, next: Trace, script: Script, s: Event)
    requires Kicked(at) + rest == script && Kicked(next) <= rest && !s.Kickoff?
    ensures Kicked(at + ([s] + next)) <= script
    ensures Kicked(next) == rest ==> Kicked(at + ([s] + next)) == script
  {
    ProjectCons(s, next, OutcomeOf);
    ProjectAppend(at, [s] + next, OutcomeOf);
    assert Kicked(at + ([s] + next)) == Kicked(at) + Kicked(next);
    PrefixExtend(Kicked(at), Kicked(next), rest);
  }

  /** The attempt loop goes on after attempt `a`: it raised a rate-limit
      exception and was not the last. */
  predicate Retries(a: nat, setup: Option<string>, script: Script)
  {
    var at := Attempt(a, setup, script);
    at.Raised? && IsRateLimit(at.message) && a < MaxRetries - 1
  }

  lemma {:induction false} RunFromChain(a: nat, setup: Option<string>, script: Script, now: Timestamp)
    requires a < MaxRetries
    ensures var tr := RunFrom(a, setup, script, now).trace;
            |tr| > 0 && tr[0] == Setup(a) && Chained(tr)
    decreases MaxRetries - a
  {
    if Retries(a, setup, script) {
      RunFromChain(a + 1, setup, Attempt(a, setup, script).rest, now);
      ChainAfterRetry(a, setup, script, now);
    } else {
      ChainWithoutRetry(a, setup, script, now);
    }
  }

  lemma ChainAfterRetry(a: nat, setup: Option<string>, script: Script, now: Timestamp)
    requires a < MaxRetries && Retries(a, setup, script)
    requires var tr := RunFrom(a + 1, setup, Attempt(a, setup, script).rest, now).trace;
             |tr| > 0 && tr[0] == Setup(a + 1) && Chained(tr)
    ensures var tr := RunFrom(a, setup, script, now).trace;
            |tr| > 0 && tr[0] == Setup(a) && Chained(tr)
  {
    var at := Attempt(a, setup, script);
    AttemptChain(a, setup, script);
    RunFromUnfold(a, setup, script, now);
    ChainStep(a, at.trace, RunFrom(a + 1, setup, at.rest, now).trace);
  }

  lemma ChainWithoutRetry(a: nat, setup: Option<string>, script: Script, now: Timestamp)
    requires a < MaxRetries && !Retries(a, setup, script)
    ensures var tr := RunFrom(a, setup, script, now).trace;
            |tr| > 0 && tr[0] == Setup(a) && Chained(tr)
  {
    AttemptChain(a, setup, script);
    RunFromUnfold(a, setup, script, now);
  }

  lemma {:induction false} RunFromCounts(a: nat, setup: Option<string>, script: Script, now: Timestamp)
    requires a < MaxRetries
    ensures Counted(RunFrom(a, setup, script, now).trace, a)
    decreases MaxRetries - a
  {
    if Retries(a, setup, script) {
      RunFromCounts(a + 1, setup, Attempt(a, setup, script).rest, now);
      CountsAfterRetry(a, setup, script, now);
    } else {
      CountsWithoutRetry(a, setup, script, now);
    }
  }

  lemma CountsAfterRetry(a: nat, setup: Option<string>, script: Script, now: Timestamp)
    requires a < MaxRetries && Retries(a, setup, script)
    requires Counted(RunFrom(a + 1, setup, Attempt(a, setup, script).rest, now).trace, a + 1)
    ensures Counted(RunFrom(a, setup, script, now).trace, a)
  {
    var at := Attempt(a, setup, script);
    AttemptCounts(a, setup, script);
    RunFromUnfold(a, setup, script, now);
    CountedStep(a, at.trace, RunFrom(a + 1, setup, at.rest, now).trace);
  }

  lemma CountsWithoutRetry(a: nat, setup: Option<string>, script: Script, now: Timestamp)
    requires a < MaxRetries && !Retries(a, setup, script)
    ensures Counted(RunFrom(a, setup, script, now).trace, a)
  {
    AttemptCounts(a, setup, script);
    RunFromUnfold(a, setup, script, now);
    assert Range(a, 1) == [a];
  }

  lemma {:induction false} RunFromEnds(a: nat, setup: Option<string>, script: Script, now: Timestamp)
    requires a < MaxRetries
    ensures Ends(RunFrom(a, setup, script, now), now, a)
    decreases MaxRetries - a
  {
    if Retries(a, setup, script) {
      RunFromEnds(a + 1, setup, Attempt(a, setup, script).rest, now);
      EndsAfterRetry(a, setup, script, now);
    } else {
      EndsWithoutRetry(a, setup, script, now);
    }
  }

  lemma EndsAfterRetry(a: nat, setup: Option<string>, script: Script, now: Timestamp)
    requires a < MaxRetries && Retries(a, setup, script)
    requires Ends(RunFrom(a + 1, setup, Attempt(a, setup, script).rest, now), now, a + 1)
    ensures Ends(RunFrom(a, setup, script, now), now, a)
  {
    var at := Attempt(a, setup, script);
    AttemptCounts(a, setup, script);
    RunFromUnfold(a, setup, script, now);
    EndsStep(a, at.trace, RunFrom(a + 1, setup, at.rest, now), RunFrom(a, setup, script, now), now);
  }

  lemma EndsWithoutRetry(a: nat, setup: Option<string>, script: Script, now: Timestamp)
    requires a < MaxRetries && !Retries(a, setup, script)
    ensures Ends(RunFrom(a, setup, script, now), now, a)
  {
    var at := Attempt(a, setup, script);
    AttemptCounts(a, setup, script);
    AttemptChain(a, setup, script);
    RunFromUnfold(a, setup, script, now);
    EndsHere(a, at, RunFrom(a, setup, script, now), now);
  }

  lemma {:induction false} RunFromConsumes(a: nat, setup: Option<string>, script: Script, now: Timestamp)
    requires a < MaxRetries
    ensures var r := RunFrom(a, setup, script, now);
            && Kicked(r.trace) <= script
            && (r.ScriptExhausted? ==> Kicked(r.trace) == script)
    decreases MaxRetries - a
  {
    if Retries(a, setup, script) {
      RunFromConsumes(a + 1, setup, Attempt(a, setup, script).rest, now);
      ConsumesAfterRetry(a, setup, script, now);
    } else {
      ConsumesWithoutRetry(a, setup, script, now);
    }
  }

  lemma ConsumesAfterRetry(a: nat, setup: Option<string>, script: Script, now: Timestamp)
    requires a < MaxRetries && Retries(a, setup, script)
    requires var rest := Attempt(a, setup, script).rest;
             var next := RunFrom(a + 1, setup, rest, now);
             && Kicked(next.trace) <= rest
             && (next.ScriptExhausted? ==> Kicked(next.trace) == rest)
    ensures var r := RunFrom(a, setup, script, now);
            && Kicked(r.trace) <= script
            && (r.ScriptExhausted? ==> Kicked(r.trace) == script)
  {
    var at := Attempt(a, setup, script);
    AttemptConsumes(a, setup, script);
    RunFromUnfold(a, setup, script, now);
    ConsumedStep(at.trace, at.rest, RunFrom(a + 1, setup, at.rest, now).trace, script, Sleep(Backoff(a)));
  }

  lemma ConsumesWithoutRetry(a: nat, setup: Option<string>, script: Script, now: Timestamp)
    requires a < MaxRetries && !Retries(a, setup, script)
    ensures var r := RunFrom(a, setup, script, now);
            && Kicked(r.trace) <= script
            && (r.ScriptExhausted? ==> Kicked(r.trace) == script)
  {
    var at := Attempt(a, setup, script);
    AttemptConsumes(a, setup, script);
    RunFromUnfold(a, setup, script, now);
    if at.Raised? {
      PrefixExtend(Kicked(at.trace), [], at.rest);
    }
  }

  lemma {:induction false} RunFromSetup(a: nat, setup: Option<string>, script: Script, now: Timestamp)
    requires a < MaxRetries
    ensures SetupFaithful(RunFrom(a, setup, script, now).trace, setup)
    decreases MaxRetries - a
  {
    if Retries(a, setup, script) {
      RunFromSetup(a + 1, setup, Attempt(a, setup, script).rest, now);
      SetupAfterRetry(a, setup, script, now);
    } else {
      AttemptSetup(a, setup, script);
      UnfoldStop(a, setup, script, now);
    }
  }

  lemma SetupAfterRetry(a: nat, setup: Option<string>, script: Script, now: Timestamp)
    requires a < MaxRetries && Retries(a, setup, script)
    requires SetupFaithful(RunFrom(a + 1, setup, Attempt(a, setup, script).rest, now).trace, setup)
    ensures SetupFaithful(RunFrom(a, setup, script, now).trace, setup)
  {
    var at := Attempt(a, setup, script);
    var next := RunFrom(a + 1, setup, at.rest, now).trace;
    AttemptSetup(a, setup, script);
    UnfoldRetry(a, setup, script, now);
    SetupFaithfulAppend([Sleep(Backoff(a))], next, setup);
    SetupFaithfulAppend(at.trace, [Sleep(Backoff(a))] + next, setup);
  }

  lemma RunFromProtocol(a: nat, setup: Option<string>, script: Script, now: Timestamp)
    requires a < MaxRetries
    ensures Protocol(RunFrom(a, setup, script, now), a, setup, script, now)
  {
    RunFromSetup(a, setup, script, now);
    RunFromChain(a, setup, script, now);
    RunFromCounts(a, setup, script, now);
    RunFromEnds(a, setup, script, now);
    RunFromConsumes(a, setup, script, now);
  }

  // ---------------------------------------------------------------------
  // The guarantees of `run`

  /** Every run, up to the point where the script may run out, follows the
      controller's step relation from a first `Setup(0)`, makes one to three
      attempts numbered 0, 1, 2 in order, sleeps the backoff delays between
      consecutive attempts, starts the two-stage crew at most once per
      attempt, and consumes the script in order; a setup exception occurs
      exactly when building agents and tasks raises, right after every
      rebuild; a returned envelope is decided by the last event. */
  lemma RunObeysProtocol(setup: Option<string>, script: Script, now: Timestamp)
    ensures Protocol(Run(setup, script, now), 0, setup, script, now)
  {
    RunFromProtocol(0, setup, script, now);
  }

  /** A setup exception shows up in the trace exactly when building the
      agents and tasks raises: never otherwise, and right after the first
      rebuild when it does, with that message. */
  lemma SetupExceptionOnlyFromSetup(setup: Option<string>, script: Script, now: Timestamp)
    ensures var tr := Run(setup, script, now).trace;
            && (setup.None? ==> forall i :: 0 <= i < |tr| ==> !tr[i].SetupRaised?)
            && (setup.Some? ==> |tr| >= 2 && tr[1] == SetupRaised(setup.value))
  {
    RunObeysProtocol(setup, script, now);
  }

  /** The fixed "Maximum retries reached" return is dead: every returned
      envelope is built inside the `try` or inside the handler, and a failure
      record's error is the text of the exception the run ended with. */
  lemma MaxRetriesEnvelopeUnreachable(setup: Option<string>, script: Script, now: Timestamp)
    ensures var r := Run(setup, script, now);
            r.Returned? ==>
              && r.site != ExhaustedReturn
              && |r.trace| > 0
              && (r.envelope.message[0].Failure? ==>
                    Raises(Last(r.trace)) && r.envelope.message[0].error == RaisedMessage(Last(r.trace)))
  {
    RunObeysProtocol(setup, script, now);
  }

  /** At most three attempts, numbered 0, 1, 2 in order; each attempt starts
      by rebuilding agents and tasks, and every kickoff of the two-stage crew
      comes right after such a rebuild. */
  lemma AtMostThreeAttempts(setup: Option<string>, script: Script, now: Timestamp)
    ensures var tr := Run(setup, script, now).trace;
            && 1 <= |Attempts(tr)|
            && Attempts(tr) <= [0, 1, 2]
            && |Starts(tr)| <= |Attempts(tr)|
            && (forall i :: 0 <= i < |tr| && tr[i].Kickoff? && tr[i].stage == Verify ==> 0 < i && tr[i - 1].Setup?)
  {
    var tr := Run(setup, script, now).trace;
    RunObeysProtocol(setup, script, now);
    var k := |Attempts(tr)|;
    assert k == 1 || k == 2 || k == 3;
    assert Attempts(tr) == Range(0, k);
    forall i | 0 <= i < |tr| && tr[i].Kickoff? && tr[i].stage == Verify
      ensures 0 < i && tr[i - 1].Setup?
    {
      assert i != 0;
      assert Next(tr[i - 1], tr[i]);
    }
  }

  /** The backoff schedule: the delays are 2 then 4 seconds, one fewer than
      the attempts; each sleep comes right after an exception whose text
      contains "Ratelimit" and right before a new attempt, which is never
      attempt 0 and never beyond the third. */
  lemma SleepSchedule(setup: Option<string>, script: Script, now: Timestamp)
    ensures var tr := Run(setup, script, now).trace;
            && |Sleeps(tr)| == |Attempts(tr)| - 1
            && Sleeps(tr) <= [2, 4]
            && (forall i :: 0 <= i < |tr| && tr[i].Sleep? ==>
                  && 0 < i < |tr| - 1
                  && Raises(tr[i - 1]) && IsRateLimit(RaisedMessage(tr[i - 1]))
                  && tr[i + 1].Setup? && 1 <= tr[i + 1].attempt < MaxRetries
                  && tr[i].seconds == Backoff(tr[i + 1].attempt - 1))
  {
    var r := Run(setup, script, now);
    RunObeysProtocol(setup, script, now);
    CountedSleeps(r.trace);
    EndsNotAsleep(r, now, 0);
    SleepsBetweenAttempts(r.trace);
  }

  /** The delays of a run counted from attempt 0. */
  lemma CountedSleeps(tr: Trace)
    requires Counted(tr, 0)
    ensures |Sleeps(tr)| == |Attempts(tr)| - 1 && Sleeps(tr) <= [2, 4]
  {
    var k := |Attempts(tr)|;
    assert Backoff(0) == 2 && Backoff(1) == 4;
    assert k == 1 || k == 2 || k == 3;
  }

  /** No run ends with a sleep. */
  lemma EndsNotAsleep(r: RunResult, now: Timestamp, a: nat)
    requires Ends(r, now, a)
    ensures |r.trace| > 0 && !Last(r.trace).Sleep?
  {
  }

  /** In a chained trace that starts and ends with something other than a
      sleep, each sleep sits between a rate-limit exception and a new
      attempt, and lasts the backoff of the attempt before. */
  lemma SleepsBetweenAttempts(tr: Trace)
    requires |tr| > 0 && !tr[0].Sleep? && !Last(tr).Sleep? && Chained(tr)
    ensures forall i :: 0 <= i < |tr| && tr[i].Sleep? ==>
              && 0 < i < |tr| - 1
              && Raises(tr[i - 1]) && IsRateLimit(RaisedMessage(tr[i - 1]))
              && tr[i + 1].Setup? && 1 <= tr[i + 1].attempt < MaxRetries
              && tr[i].seconds == Backoff(tr[i + 1].attempt - 1)
  {
    forall i | 0 <= i < |tr| && tr[i].Sleep?
      ensures 0 < i < |tr| - 1
      ensures Raises(tr[i - 1]) && IsRateLimit(RaisedMessage(tr[i - 1]))
      ensures tr[i + 1].Setup? && 1 <= tr[i + 1].attempt < MaxRetries
      ensures tr[i].seconds == Backoff(tr[i + 1].attempt - 1)
    {
      StepAt(tr, i - 1);
      StepAt(tr, i);
    }
  }

  /** A run whose last event is an exception was returned by the handler
      with that exception's text. */
  lemma RaiseClosesRun(r: RunResult, now: Timestamp)
    requires Ends(r, now, 0) && Raises(Last(r.trace))
    ensures r == Returned(FailureEnvelope(RaisedMessage(Last(r.trace)), now), HandlerReturn, r.trace)
    ensures IsRateLimit(RaisedMessage(Last(r.trace))) ==> |Attempts(r.trace)| == MaxRetries
  {
  }

  /** A run whose last event is a result that fits was returned from inside
      the `try` with that result. */
  lemma FitClosesRun(r: RunResult, now: Timestamp)
    requires Ends(r, now, 0) && Fits(Last(r.trace))
    ensures r == Returned(SuccessEnvelope(Last(r.trace).outcome.text, now), TryReturn, r.trace)
  {
  }

  /** An exception whose text lacks "Ratelimit" ends the run on the spot:
      nothing follows it in the trace (no sleep, no further attempt) and the
      reply is the failure envelope carrying exactly that text. */
  lemma NonRateLimitEndsRun(setup: Option<string>, script: Script, now: Timestamp)
    ensures var r := Run(setup, script, now);
            var tr := r.trace;
            forall i :: 0 <= i < |tr| && Raises(tr[i]) && !IsRateLimit(RaisedMessage(tr[i])) ==>
              i == |tr| - 1 && r == Returned(FailureEnvelope(RaisedMessage(tr[i]), now), HandlerReturn, tr)
  {
    var r := Run(setup, script, now);
    var tr := r.trace;
    RunObeysProtocol(setup, script, now);
    forall i | 0 <= i < |tr| && Raises(tr[i]) && !IsRateLimit(RaisedMessage(tr[i]))
      ensures i == |tr| - 1
      ensures r == Returned(FailureEnvelope(RaisedMessage(tr[i]), now), HandlerReturn, tr)
    {
      if i < |tr| - 1 {
        StepAt(tr, i);
        assert false;
      }
      RaiseClosesRun(r, now);
    }
  }

  /** A rate-limit exception, whether from rebuilding, from the two-stage crew
      or from a rewrite, is followed by a sleep and a fresh attempt, unless it
      came in the third attempt: then it ends the run with a failure envelope
      carrying its own text. */
  lemma RateLimitRetriedUnlessLast(setup: Option<string>, script: Script, now: Timestamp)
    ensures var r := Run(setup, script, now);
            var tr := r.trace;
            forall i :: 0 <= i < |tr| && Raises(tr[i]) && IsRateLimit(RaisedMessage(tr[i])) ==>
              || (i + 2 < |tr| && tr[i + 1].Sleep? && tr[i + 2].Setup?)
              || (&& i == |tr| - 1
                  && |Attempts(tr)| == MaxRetries
                  && r == Returned(FailureEnvelope(RaisedMessage(tr[i]), now), HandlerReturn, tr))
  {
    var r := Run(setup, script, now);
    var tr := r.trace;
    RunObeysProtocol(setup, script, now);
    forall i | 0 <= i < |tr| - 1 && Raises(tr[i]) && IsRateLimit(RaisedMessage(tr[i]))
      ensures i + 2 < |tr|
      ensures tr[i + 1].Sleep?
      ensures tr[i + 2].Setup?
    {
      StepAt(tr, i);
      assert i + 1 != |tr| - 1;
      StepAt(tr, i + 1);
    }
    if Raises(Last(tr)) {
      RaiseClosesRun(r, now);
    }
  }

  /** The length-rewrite loop stops at the first result that fits: such a
      result is the last event and becomes the content of the reply; an
      overlong result is followed by a rewrite kickoff, unless the script ran
      out right there. */
  lemma RewriteStopsAtFirstFit(setup: Option<string>, script: Script, now: Timestamp)
    ensures var r := Run(setup, script, now);
            var tr := r.trace;
            forall i :: 0 <= i < |tr| && tr[i].Kickoff? && tr[i].outcome.Ok? ==>
              if |tr[i].outcome.text| <= ContentLimit then
                i == |tr| - 1 && r == Returned(SuccessEnvelope(tr[i].outcome.text, now), TryReturn, tr)
              else
                || (i < |tr| - 1 && tr[i + 1].Kickoff? && tr[i + 1].stage == Rewrite)
                || (i == |tr| - 1 && r.ScriptExhausted?)
  {
    var r := Run(setup, script, now);
    var tr := r.trace;
    RunObeysProtocol(setup, script, now);
    forall i | 0 <= i < |tr| - 1 && tr[i].Kickoff? && tr[i].outcome.Ok?
      ensures |tr[i].outcome.text| > ContentLimit
      ensures tr[i + 1].Kickoff? && tr[i + 1].stage == Rewrite
    {
      StepAt(tr, i);
    }
    if Fits(Last(tr)) {
      FitClosesRun(r, now);
    }
  }

  /** A rewrite is only ever requested right after an overlong result, so a
      first result that fits is never rewritten. */
  lemma RewriteOnlyAfterOverlongResult(setup: Option<string>, script: Script, now: Timestamp)
    ensures var tr := Run(setup, script, now).trace;
            forall i :: 0 <= i < |tr| && tr[i].Kickoff? && tr[i].stage == Rewrite ==>
              0 < i && TooLong(tr[i - 1])
  {
    var tr := Run(setup, script, now).trace;
    RunObeysProtocol(setup, script, now);
    forall i | 0 <= i < |tr| && tr[i].Kickoff? && tr[i].stage == Rewrite
      ensures 0 < i && TooLong(tr[i - 1])
    {
      assert i != 0;
      assert Next(tr[i - 1], tr[i]);
    }
  }

  /** The kickoffs consume the script in order, one outcome each; when the
      run stops for want of outcomes it has used every one of them. */
  lemma ScriptConsumedInOrder(setup: Option<string>, script: Script, now: Timestamp)
    ensures var r := Run(setup, script, now);
            && Kicked(r.trace) <= script
            && (r.ScriptExhausted? ==> Kicked(r.trace) == script && setup.None?)
  {
    var r := Run(setup, script, now);
    RunObeysProtocol(setup, script, now);
    if r.ScriptExhausted? && setup.Some? {
      SetupFailureNeverKicksOff(setup.value, script, now);
    }
  }

  // ---------------------------------------------------------------------
  // Scenarios

  /** When building the agents and tasks raises, no crew is ever kicked off:
      a rate-limit text is retried twice with 2 and 4 seconds of sleep, and
      any text ends as the failure envelope carrying it. */
  lemma SetupFailureNeverKicksOff(m: string, script: Script, now: Timestamp)
    ensures Run(Some(m), script, now) ==
      Returned(FailureEnvelope(m, now), HandlerReturn,
        if IsRateLimit(m) then
          [Setup(0), SetupRaised(m), Sleep(2), Setup(1), SetupRaised(m), Sleep(4), Setup(2), SetupRaised(m)]
        else
          [Setup(0), SetupRaised(m)])
  {
    assert Backoff(0) == 2 && Backoff(1) == 4;
    RunFromUnfold(0, Some(m), script, now);
    if IsRateLimit(m) {
      RunFromUnfold(1, Some(m), script, now);
      RunFromUnfold(2, Some(m), script, now);
    }
  }

  /** A first result that fits is returned as it is, with no rewrite. */
  lemma FirstResultFits(text: string, more: Script, now: Timestamp)
    requires |text| <= ContentLimit
    ensures Run(None, [Ok(text)] + more, now) ==
      Returned(SuccessEnvelope(text, now), TryReturn, [Setup(0), Kickoff(Verify, Ok(text))])
  {
    RunFromUnfold(0, None, [Ok(text)] + more, now);
  }

  /** An overlong first result followed by a rewrite that fits (1000 and then
      700 characters, say): exactly one rewrite, and its text is the reply. */
  lemma OneRewrite(long: string, short: string, more: Script, now: Timestamp)
    requires |long| > ContentLimit && |short| <= ContentLimit
    ensures Run(None, [Ok(long), Ok(short)] + more, now) ==
      Returned(SuccessEnvelope(short, now), TryReturn,
               [Setup(0), Kickoff(Verify, Ok(long)), Kickoff(Rewrite, Ok(short))])
  {
    var script := [Ok(long), Ok(short)] + more;
    assert script[1..] == [Ok(short)] + more;
    assert RewriteLoop(short, more) == Completed(short, []);
    assert RewriteLoop(long, script[1..]) == Completed(short, [Kickoff(Rewrite, Ok(short))]);
    RunFromUnfold(0, None, script, now);
  }

  /** A rate-limit exception during a rewrite goes to the same handler as one
      from the first kickoff: after the 2-second sleep the whole two-stage
      pipeline runs again from a fresh rebuild. */
  lemma RewriteRateLimitRestartsPipeline(long: string, m: string, short: string, more: Script, now: Timestamp)
    requires |long| > ContentLimit && IsRateLimit(m) && |short| <= ContentLimit
    ensures Run(None, [Ok(long), Err(m), Ok(short)] + more, now) ==
      Returned(SuccessEnvelope(short, now), TryReturn,
               [Setup(0), Kickoff(Verify, Ok(long)), Kickoff(Rewrite, Err(m)),
                Sleep(2),
                Setup(1), Kickoff(Verify, Ok(short))])
  {
    var script := [Ok(long), Err(m), Ok(short)] + more;
    assert script[1..] == [Err(m), Ok(short)] + more;
    assert script[1..][1..] == [Ok(short)] + more;
    assert Backoff(0) == 2;
    RunFromUnfold(0, None, script, now);
    RunFromUnfold(1, None, [Ok(short)] + more, now);
  }

  /** Three rate-limit exceptions in a row: sleeps of 2 and 4 seconds, no
      sleep after the third attempt, and the reply carries the third
      exception's own text rather than the fixed "Maximum retries" message. */
  lemma ThreeRateLimits(m0: string, m1: string, m2: string, more: Script, now: Timestamp)
    requires IsRateLimit(m0) && IsRateLimit(m1) && IsRateLimit(m2)
    ensures Run(None, [Err(m0), Err(m1), Err(m2)] + more, now) ==
      Returned(FailureEnvelope(m2, now), HandlerReturn,
               [Setup(0), Kickoff(Verify, Err(m0)), Sleep(2),
                Setup(1), Kickoff(Verify, Err(m1)), Sleep(4),
                Setup(2), Kickoff(Verify, Err(m2))])
  {
    var script := [Err(m0), Err(m1), Err(m2)] + more;
    assert script[1..] == [Err(m1), Err(m2)] + more;
    assert script[1..][1..] == [Err(m2)] + more;
    assert Backoff(0) == 2 && Backoff(1) == 4;
    RunFromUnfold(0, None, script, now);
    RunFromUnfold(1, None, script[1..], now);
    RunFromUnfold(2, None, script[1..][1..], now);
  }

  /** The marker is matched case-sensitively: an exception whose text is
      the class name "RateLimitError" is not retried. */
  lemma MarkerIsCaseSensitive()
    ensures !IsRateLimit("RateLimitError")
  {
    LacksCharNotRateLimit("RateLimitError", 4);
  }

  /** The backoff starts at `retry_delay` and doubles with every attempt. */
  lemma BackoffDoubles(attempt: nat)
    ensures Backoff(0) == RetryDelay
    ensures Backoff(attempt + 1) == 2 * Backoff(attempt)
  {
  }

  /** A message that starts with the marker, such as "Ratelimit exceeded",
      is retried. */
  lemma MarkerFirstIsRateLimit(rest: string)
    ensures IsRateLimit(RateLimitMarker + rest)
  {
    assert RateLimitMarker <= RateLimitMarker + rest;
  }

  /** A message missing the marker's `j`-th character is not retried; for
      instance "ratelimit", which has no capital R. */
  lemma LacksCharNotRateLimit(message: string, j: nat)
    requires j < |RateLimitMarker| && forall k :: 0 <= k < |message| ==> message[k] != RateLimitMarker[j]
    ensures !IsRateLimit(message)
  {
    MissingCharNotContained(message, RateLimitMarker, j);
  }
}
