/**
 `ConfigmapHandler.pgbouncer_reload`: one administrative `RELOAD;` against
 pgbouncer. The try block runs five driver steps in order and stops at the
 first one that raises; the except clause logs that error; the finally
 clause closes the cursor and the connection that were actually obtained.

 The database driver is not modelled: each step is an abstract call whose
 success or failure is given by an outcome oracle, and the result is the
 trace of effects (driver calls, closes and log lines) the handler produces.
 */
module PgbouncerReload {

  /** Connection parameters of the admin console (the handler's fields). */
  datatype Target = Target(host: string, port: nat, user: string, password: string, database: string)

  /** `ConfigmapHandler`: where to reload, and how long to wait first (seconds). */
  datatype Handler = Handler(target: Target, timeout: nat)

  /** `psycopg2`'s ISOLATION_LEVEL_AUTOCOMMIT, passed to `set_isolation_level`. */
  const AutocommitLevel: int := 0

  /** The admin console command that makes pgbouncer re-read its configuration. */
  const ReloadCommand: string := "RELOAD;"

  /** One driver call of the try block. */
  datatype Step =
    | Connect(target: Target)
    | SetIsolationLevel(level: int)
    | OpenCursor
    | Execute(sql: string)
    | Commit

  /** The try block, in source order: connect first, the cursor third (after
      autocommit is set), and `RELOAD;` followed by its commit at the end.
      No step repeats. */
  function Script(target: Target): (steps: seq<Step>)
    ensures |steps| == 5 && steps[0] == Connect(target)
    ensures Distinct(steps)
    ensures forall i :: 0 <= i < |steps| ==> (Acquires(steps[i], Connection) <==> i == 0)
    ensures forall i :: 0 <= i < |steps| ==> (Acquires(steps[i], Cursor) <==> i == 2)
    ensures forall i :: 0 <= i < |steps| && steps[i].SetIsolationLevel? ==> i == 1 && steps[i].level == AutocommitLevel
    ensures forall i :: 0 <= i < |steps| && steps[i].Execute? ==>
              i == 3 && steps[i].sql == ReloadCommand && steps[i + 1] == Commit
  {
    [Connect(target), SetIsolationLevel(AutocommitLevel), OpenCursor, Execute(ReloadCommand), Commit]
  }

  /** What a driver call did: returned, or raised an `Exception`. */
  datatype StepResult = Succeeded | Failed

  /** The outside world: how each driver call turns out. */
  type Outcomes = Step -> StepResult

  datatype Call = Call(step: Step, result: StepResult)

  /** How the try block ended: ran to the end, or raised at `step`. */
  datatype TryOutcome = Completed | Raised(step: Step)

  datatype TryRun = TryRun(calls: seq<Call>, outcome: TryOutcome)

  /** The two resources the finally clause may have to release. */
  datatype Resource = Connection | Cursor

  /** A successful `step` leaves the handler holding `r`
      (`connection = psycopg2.connect(...)`, `cursor = connection.cursor()`). */
  predicate Acquires(step: Step, r: Resource) {
    match r
    case Connection => step.Connect?
    case Cursor => step.OpenCursor?
  }

  /** An observable effect of one reload. */
  datatype Effect =
    | Started                // debug: "graceful reload starting"
    | Invoke(call: Call)     // a driver call and how it turned out
    | ReportFailure(step: Step) // error: "Failed to RELOAD pgbouncer: ..."
    | CloseCursor
    | CloseConnection
    | ReportClosed           // debug: "connection is closed"
    | ReportReloaded         // info: "gracefully reloaded"
  {
    /** This effect hands `r` to the handler. */
    predicate Opens(r: Resource) {
      Invoke? && call.result.Succeeded? && Acquires(call.step, r)
    }

    /** This effect releases `r`. */
    predicate Closes(r: Resource) {
      match r
      case Connection => CloseConnection?
      case Cursor => CloseCursor?
    }
  }

  /** The semantics of a try block that runs `script` in order: the calls
      made are a prefix of the script, each with the result the outside world
      gave it; every call but the last succeeded; the block completes after
      the whole script succeeded and raises at the step whose call failed. */
  ghost predicate TrySemantics(script: seq<Step>, outcomes: Outcomes, run: TryRun) {
    && |run.calls| <= |script|
    && (forall i :: 0 <= i < |run.calls| ==> run.calls[i] == Call(script[i], outcomes(script[i])))
    && (forall i :: 0 <= i < |run.calls| - 1 ==> run.calls[i].result.Succeeded?)
    && (run.outcome.Completed? ==>
          |run.calls| == |script| && (|script| == 0 || run.calls[|script| - 1].result.Succeeded?))
    && (run.outcome.Raised? ==>
          |run.calls| > 0 && run.calls[|run.calls| - 1] == Call(run.outcome.step, Failed))
  }

  /** Runs `script` in order and stops at the first step that raises. */
  function RunTry(script: seq<Step>, outcomes: Outcomes): (run: TryRun)
    ensures TrySemantics(script, outcomes, run)
    decreases |script|
  {
    if |script| == 0 then TryRun([], Completed)
    else if outcomes(script[0]).Failed? then TryRun([Call(script[0], Failed)], Raised(script[0]))
    else
      var rest := RunTry(script[1..], outcomes);
      SucceededThen(script, outcomes, rest);
      TryRun([Call(script[0], Succeeded)] + rest.calls, rest.outcome)
  }

  /** A first step that succeeds, followed by a run of the rest of the script,
      is a run of the whole script. */
  lemma SucceededThen(script: seq<Step>, outcomes: Outcomes, rest: TryRun)
    requires |script| > 0 && outcomes(script[0]).Succeeded?
    requires TrySemantics(script[1..], outcomes, rest)
    ensures TrySemantics(script, outcomes, TryRun([Call(script[0], Succeeded)] + rest.calls, rest.outcome))
  {
    var calls := [Call(script[0], Succeeded)] + rest.calls;
    assert forall i :: 1 <= i < |calls| ==> calls[i] == rest.calls[i - 1] && script[i] == script[1..][i - 1];
  }

  /** Only one run meets the try-block semantics, so `RunTry` is it: both
      runs record the same prefix of the script, cut at the first failure. */
  lemma TrySemanticsDeterminesRun(script: seq<Step>, outcomes: Outcomes, run: TryRun)
    requires TrySemantics(script, outcomes, run)
    ensures run == RunTry(script, outcomes)
  {
  }

  /** A step is reached exactly when every earlier step succeeded; and the
      block completes exactly when every step succeeds. */
  lemma AttemptedIffEarlierSucceeded(script: seq<Step>, outcomes: Outcomes, run: TryRun, k: nat)
    requires TrySemantics(script, outcomes, run)
    requires k <= |script|
    ensures k < |script| ==> (k < |run.calls| <==> forall j :: 0 <= j < k ==> outcomes(script[j]).Succeeded?)
    ensures run.outcome.Completed? <==> forall j :: 0 <= j < |script| ==> outcomes(script[j]).Succeeded?
  {
  }

  /** After `calls`, the handler's variable for `r` is not `None`
      (driver objects are always truthy, so this is the `if` test of the
      finally clause). */
  predicate Holds(calls: seq<Call>, r: Resource) {
    exists i :: 0 <= i < |calls| && calls[i].result.Succeeded? && Acquires(calls[i].step, r)
  }

  function Invocations(calls: seq<Call>): (effects: seq<Effect>)
  {
    seq(|calls|, i requires 0 <= i < |calls| => Invoke(calls[i]))
  }

  /** The except clause: one error report, for the step that raised, and
      nothing when the try block completed. */
  function Except(outcome: TryOutcome): (effects: seq<Effect>)
    ensures |effects| <= 1
    ensures effects != [] <==> outcome.Raised?
    ensures forall e :: e in effects ==> outcome.Raised? && e == ReportFailure(outcome.step)
  {
    match outcome
    case Completed => []
    case Raised(step) => [ReportFailure(step)]
  }

  /** The finally clause: cursor first, then the connection and its two log lines. */
  function Finally(calls: seq<Call>): (effects: seq<Effect>)
    ensures CloseCursor in effects <==> Holds(calls, Cursor)
    ensures CloseConnection in effects <==> Holds(calls, Connection)
    ensures ReportClosed in effects <==> Holds(calls, Connection)
    ensures ReportReloaded in effects <==> Holds(calls, Connection)
    ensures forall e :: e in effects ==> !e.Started? && !e.Invoke? && !e.ReportFailure?
  {
    (if Holds(calls, Cursor) then [CloseCursor] else [])
    + (if Holds(calls, Connection) then [CloseConnection, ReportClosed, ReportReloaded] else [])
  }

  /** Everything before the finally clause: the start, the driver calls and the except clause. */
  function Body(run: TryRun): (effects: seq<Effect>)
  {
    [Started] + Invocations(run.calls) + Except(run.outcome)
  }

  /** The trace of a reload, assembled from the clauses of the try statement. */
  function Assemble(run: TryRun): (trace: seq<Effect>)
  {
    Body(run) + Finally(run.calls)
  }

  /** Where each clause's effects sit in an assembled trace. */
  lemma Layout(run: TryRun)
    ensures |Assemble(run)| == 1 + |run.calls| + |Except(run.outcome)| + |Finally(run.calls)|
    ensures Assemble(run)[0] == Started
    ensures forall i :: 1 <= i < 1 + |run.calls| ==> Assemble(run)[i] == Invoke(run.calls[i - 1])
    ensures forall i :: 0 <= i < |Except(run.outcome)| ==>
              Assemble(run)[1 + |run.calls| + i] == Except(run.outcome)[i]
    ensures forall i :: 0 <= i < |Finally(run.calls)| ==>
              Assemble(run)[1 + |run.calls| + |Except(run.outcome)| + i] == Finally(run.calls)[i]
  {
  }

  /** Only the except clause reports a failure, and it reports one exactly
      when the try block raised. */
  lemma ReportsComeFromExcept(run: TryRun)
    ensures forall i :: 0 <= i < |Assemble(run)| && Assemble(run)[i].ReportFailure? ==>
              run.outcome.Raised? && i == 1 + |run.calls| && Assemble(run)[i] == ReportFailure(run.outcome.step)
    ensures run.outcome.Raised? ==> Assemble(run)[1 + |run.calls|] == ReportFailure(run.outcome.step)
  {
    var head := [Started] + Invocations(run.calls);
    var tail := Finally(run.calls);
    assert forall e :: e in head ==> !e.ReportFailure?;
    assert forall e :: e in tail ==> !e.ReportFailure?;
    assert Assemble(run) == head + Except(run.outcome) + tail;
  }

  /** After the driver calls come only the except and finally clauses,
      which call the driver no more. */
  lemma NoInvokeAfterCalls(run: TryRun)
    ensures forall i :: 1 + |run.calls| <= i < |Assemble(run)| ==> !Assemble(run)[i].Invoke?
  {
    var tail := Except(run.outcome) + Finally(run.calls);
    assert forall e :: e in tail ==> !e.Invoke?;
    assert Assemble(run) == ([Started] + Invocations(run.calls)) + tail;
  }

  /** Driver calls appear only right after the start, in script order,
      each with the result the outside world gave it. */
  lemma InvokesInOrder(script: seq<Step>, outcomes: Outcomes, run: TryRun)
    requires TrySemantics(script, outcomes, run)
    ensures forall i :: 0 <= i < |Assemble(run)| && Assemble(run)[i].Invoke? ==>
              1 <= i <= |run.calls| && Assemble(run)[i].call == Call(script[i - 1], outcomes(script[i - 1]))
  {
    NoInvokeAfterCalls(run);
    Layout(run);
  }

  /** No step occurs twice in `script`. */
  ghost predicate Distinct(script: seq<Step>) {
    forall i, j :: 0 <= i < j < |script| ==> script[i] != script[j]
  }

  /** The driver step `step` shows up as a call in `trace`. */
  ghost predicate Invoked(trace: seq<Effect>, step: Step) {
    exists i :: 0 <= i < |trace| && trace[i].Invoke? && trace[i].call.step == step
  }

  /** For a script without repeated steps, step `k` shows up in the trace
      exactly when all steps before it succeeded. */
  lemma InvokedIffEarlierSucceeded(script: seq<Step>, outcomes: Outcomes, run: TryRun, k: nat)
    requires TrySemantics(script, outcomes, run)
    requires Distinct(script)
    requires k < |script|
    ensures Invoked(Assemble(run), script[k]) <==> forall j :: 0 <= j < k ==> outcomes(script[j]).Succeeded?
  {
    AttemptedIffEarlierSucceeded(script, outcomes, run, k);
    var trace := Assemble(run);
    if Invoked(trace, script[k]) {
      var i :| 0 <= i < |trace| && trace[i].Invoke? && trace[i].call.step == script[k];
      InvokesInOrder(script, outcomes, run);
      assert script[i - 1] == script[k];
    }
    if k < |run.calls| {
      Layout(run);
      assert trace[k + 1] == Invoke(run.calls[k]);
    }
  }

  /** Some driver step of the reload raises. */
  ghost predicate SomeStepFails(target: Target, outcomes: Outcomes) {
    exists i :: 0 <= i < |Script(target)| && outcomes(Script(target)[i]).Failed?
  }

  /** `pgbouncer_reload`: the effects of one reload. It has no error result:
      every failure is caught and appears in the trace as one report. */
  function Reload(target: Target, outcomes: Outcomes): (trace: seq<Effect>)
    ensures |trace| > 0 && trace[0] == Started
    ensures (exists i :: 0 <= i < |trace| && trace[i].ReportFailure?) <==> SomeStepFails(target, outcomes)
  {
    var run := RunTry(Script(target), outcomes);
    ReportsComeFromExcept(run);
    AttemptedIffEarlierSucceeded(Script(target), outcomes, run, 0);
    Assemble(run)
  }

  /** The reload's driver calls sit right after the start, in the order
      connect, `set_isolation_level(0)`, `cursor()`, `execute("RELOAD;")`,
      `commit()`, each with the result the outside world gave it. */
  lemma ReloadCallsInOrder(target: Target, outcomes: Outcomes)
    ensures forall i :: 0 <= i < |Reload(target, outcomes)| && Reload(target, outcomes)[i].Invoke? ==>
              1 <= i <= |Script(target)|
              && Reload(target, outcomes)[i].call == Call(Script(target)[i - 1], outcomes(Script(target)[i - 1]))
  {
    InvokesInOrder(Script(target), outcomes, RunTry(Script(target), outcomes));
  }

  /** Each step of the reload runs exactly when all the earlier ones succeeded. */
  lemma ReloadStepRunsIffEarlierSucceeded(target: Target, outcomes: Outcomes, k: nat)
    requires k < |Script(target)|
    ensures Invoked(Reload(target, outcomes), Script(target)[k])
            <==> forall j :: 0 <= j < k ==> outcomes(Script(target)[j]).Succeeded?
  {
    ScriptDistinct(target);
    InvokedIffEarlierSucceeded(Script(target), outcomes, RunTry(Script(target), outcomes), k);
  }

  /** The five steps of the reload are different calls. */
  lemma ScriptDistinct(target: Target)
    ensures Distinct(Script(target))
  {
  }

  /** One of the finally clause's effects. */
  predicate IsCleanup(e: Effect) {
    e.CloseCursor? || e.CloseConnection? || e.ReportClosed? || e.ReportReloaded?
  }

  /** The finally clause does nothing but clean up, and nothing before it does. */
  lemma CleanupExactlyInFinally(run: TryRun)
    ensures forall i :: 0 <= i < |Assemble(run)| ==> (IsCleanup(Assemble(run)[i]) <==> |Body(run)| <= i)
  {
    assert forall e :: e in Body(run) ==> !IsCleanup(e);
    assert forall e :: e in Finally(run.calls) ==> IsCleanup(e);
    forall i | 0 <= i < |Assemble(run)|
      ensures IsCleanup(Assemble(run)[i]) <==> |Body(run)| <= i
    {
      if i < |Body(run)| {
        assert Assemble(run)[i] in Body(run);
      } else {
        assert Assemble(run)[i] in Finally(run.calls);
      }
    }
  }

  /** The finally clause closes `r` once when it is held, and not at all
      otherwise; it closes the cursor before the connection, and it logs
      "gracefully reloaded" exactly when it closes a connection. */
  lemma FinallyReleasesHeld(calls: seq<Call>, r: Resource)
    ensures (exists j :: 0 <= j < |Finally(calls)| && Finally(calls)[j].Closes(r)) <==> Holds(calls, r)
    ensures forall j, j' ::
              (0 <= j < |Finally(calls)| && 0 <= j' < |Finally(calls)|
               && Finally(calls)[j].Closes(r) && Finally(calls)[j'].Closes(r)) ==> j == j'
    ensures forall j, j' ::
              (0 <= j < |Finally(calls)| && 0 <= j' < |Finally(calls)|
               && Finally(calls)[j].CloseCursor? && Finally(calls)[j'].CloseConnection?) ==> j < j'
    ensures ReportReloaded in Finally(calls) <==> Holds(calls, Connection)
  {
    var cursorPart: seq<Effect> := if Holds(calls, Cursor) then [CloseCursor] else [];
    if Holds(calls, r) {
      var j := if r == Cursor then 0 else |cursorPart|;
      assert Finally(calls)[j].Closes(r);
    }
  }

  /** A resource is acquired in the trace exactly when the handler holds it. */
  lemma OpensIffHeld(run: TryRun, r: Resource)
    ensures (exists i :: 0 <= i < |Assemble(run)| && Assemble(run)[i].Opens(r)) <==> Holds(run.calls, r)
  {
    NoInvokeAfterCalls(run);
    Layout(run);
    if Holds(run.calls, r) {
      var c :| 0 <= c < |run.calls| && run.calls[c].result.Succeeded? && Acquires(run.calls[c].step, r);
      assert Assemble(run)[c + 1].Opens(r);
    }
  }

  /** Closing effects of the trace are those of the finally clause. */
  lemma ClosesAreFinally(run: TryRun, r: Resource)
    ensures forall j :: 0 <= j < |Assemble(run)| && Assemble(run)[j].Closes(r) ==>
              |Body(run)| <= j && Finally(run.calls)[j - |Body(run)|].Closes(r)
    ensures forall f :: 0 <= f < |Finally(run.calls)| ==>
              Assemble(run)[|Body(run)| + f] == Finally(run.calls)[f]
  {
    CleanupExactlyInFinally(run);
  }

  /** Every resource the try block acquires is released exactly once, after
      it was acquired, and nothing is released that was never acquired. */
  lemma ReleasesWhatItAcquires(run: TryRun, r: Resource)
    ensures (exists i :: 0 <= i < |Assemble(run)| && Assemble(run)[i].Opens(r))
            <==> (exists j :: 0 <= j < |Assemble(run)| && Assemble(run)[j].Closes(r))
    ensures forall i, j ::
              (0 <= i < |Assemble(run)| && 0 <= j < |Assemble(run)|
               && Assemble(run)[i].Opens(r) && Assemble(run)[j].Closes(r)) ==> i < j
    ensures forall j, j' ::
              (0 <= j < |Assemble(run)| && 0 <= j' < |Assemble(run)|
               && Assemble(run)[j].Closes(r) && Assemble(run)[j'].Closes(r)) ==> j == j'
  {
    CleanupExactlyInFinally(run);
    ClosesAreFinally(run, r);
    FinallyReleasesHeld(run.calls, r);
    OpensIffHeld(run, r);
    if Holds(run.calls, r) {
      var f :| 0 <= f < |Finally(run.calls)| && Finally(run.calls)[f].Closes(r);
      assert Assemble(run)[|Body(run)| + f].Closes(r);
    }
  }

  /** The cursor is closed before the connection. */
  lemma CursorClosedFirst(run: TryRun)
    ensures forall i, j ::
              (0 <= i < |Assemble(run)| && 0 <= j < |Assemble(run)|
               && Assemble(run)[i].CloseCursor? && Assemble(run)[j].CloseConnection?) ==> i < j
  {
    ClosesAreFinally(run, Cursor);
    ClosesAreFinally(run, Connection);
    FinallyReleasesHeld(run.calls, Cursor);
  }

  /** Connect, isolation level and cursor all succeed. */
  ghost predicate CursorObtained(target: Target, outcomes: Outcomes) {
    && outcomes(Connect(target)).Succeeded?
    && outcomes(SetIsolationLevel(AutocommitLevel)).Succeeded?
    && outcomes(OpenCursor).Succeeded?
  }

  /** After the reload's try block, the handler holds a connection exactly
      when connecting succeeded. */
  lemma ReloadHoldsConnection(target: Target, outcomes: Outcomes)
    ensures Holds(RunTry(Script(target), outcomes).calls, Connection) <==> outcomes(Connect(target)).Succeeded?
  {
    var script := Script(target);
    var run := RunTry(script, outcomes);
    AttemptedIffEarlierSucceeded(script, outcomes, run, 0);
    if outcomes(Connect(target)).Succeeded? {
      assert run.calls[0].result.Succeeded? && Acquires(run.calls[0].step, Connection);
    }
  }

  /** After the reload's try block, the handler holds a cursor exactly when
      connecting, setting the isolation level and opening the cursor all
      succeeded. */
  lemma ReloadHoldsCursor(target: Target, outcomes: Outcomes)
    ensures Holds(RunTry(Script(target), outcomes).calls, Cursor) <==> CursorObtained(target, outcomes)
  {
    var script := Script(target);
    var run := RunTry(script, outcomes);
    AttemptedIffEarlierSucceeded(script, outcomes, run, 2);
    if CursorObtained(target, outcomes) {
      assert run.calls[2].result.Succeeded? && Acquires(run.calls[2].step, Cursor);
    }
  }

  /** The connection is opened exactly when connecting succeeds, and the
      cursor exactly when the first three steps succeed. */
  lemma ReloadOpens(target: Target, outcomes: Outcomes, r: Resource)
    ensures (exists i :: 0 <= i < |Reload(target, outcomes)| && Reload(target, outcomes)[i].Opens(r))
            <==> (if r == Connection then outcomes(Connect(target)).Succeeded? else CursorObtained(target, outcomes))
  {
    var run := RunTry(Script(target), outcomes);
    assert Reload(target, outcomes) == Assemble(run);
    ReloadHoldsConnection(target, outcomes);
    ReloadHoldsCursor(target, outcomes);
    OpensIffHeld(run, r);
  }

  /** Resource lifecycle of a reload: whatever is opened is closed exactly
      once, after it was opened; nothing else is closed; the cursor goes
      before the connection. */
  lemma ReloadReleasesResources(target: Target, outcomes: Outcomes, r: Resource)
    ensures (exists i :: 0 <= i < |Reload(target, outcomes)| && Reload(target, outcomes)[i].Opens(r))
            <==> (exists j :: 0 <= j < |Reload(target, outcomes)| && Reload(target, outcomes)[j].Closes(r))
    ensures forall i, j ::
              (0 <= i < |Reload(target, outcomes)| && 0 <= j < |Reload(target, outcomes)|
               && Reload(target, outcomes)[i].Opens(r) && Reload(target, outcomes)[j].Closes(r)) ==> i < j
    ensures forall j, j' ::
              (0 <= j < |Reload(target, outcomes)| && 0 <= j' < |Reload(target, outcomes)|
               && Reload(target, outcomes)[j].Closes(r) && Reload(target, outcomes)[j'].Closes(r)) ==> j == j'
    ensures forall i, j ::
              (0 <= i < |Reload(target, outcomes)| && 0 <= j < |Reload(target, outcomes)|
               && Reload(target, outcomes)[i].CloseCursor? && Reload(target, outcomes)[j].CloseConnection?) ==> i < j
  {
    var run := RunTry(Script(target), outcomes);
    assert Reload(target, outcomes) == Assemble(run);
    ReleasesWhatItAcquires(run, r);
    CursorClosedFirst(run);
  }

  /** The except clause reports at most one failure, and the step it reports
      is one that was called and raised. */
  lemma ReloadReportsOneFailure(target: Target, outcomes: Outcomes)
    ensures forall i, j ::
              (0 <= i < |Reload(target, outcomes)| && 0 <= j < |Reload(target, outcomes)|
               && Reload(target, outcomes)[i].ReportFailure? && Reload(target, outcomes)[j].ReportFailure?) ==> i == j
    ensures forall i :: 0 <= i < |Reload(target, outcomes)| && Reload(target, outcomes)[i].ReportFailure? ==>
              outcomes(Reload(target, outcomes)[i].step).Failed?
              && Invoked(Reload(target, outcomes), Reload(target, outcomes)[i].step)
  {
    var run := RunTry(Script(target), outcomes);
    ReportsComeFromExcept(run);
    if run.outcome.Raised? {
      var last := |run.calls| - 1;
      Layout(run);
      assert Assemble(run)[last + 1] == Invoke(run.calls[last]);
    }
  }

  /** "gracefully reloaded" is logged exactly when a connection was obtained,
      whether or not the `RELOAD;` itself went through. */
  lemma ReloadReportsReloadedIffConnected(target: Target, outcomes: Outcomes)
    ensures ReportReloaded in Reload(target, outcomes) <==> outcomes(Connect(target)).Succeeded?
  {
    var run := RunTry(Script(target), outcomes);
    ReloadHoldsConnection(target, outcomes);
    FinallyReleasesHeld(run.calls, Connection);
    assert ReportReloaded !in Body(run);
  }

  /** The handler's quirk, on an instance: when `execute("RELOAD;")` raises
      after a connection and cursor were obtained, the trace holds both the
      failure report and "gracefully reloaded". */
  lemma ReloadedReportedDespiteFailure(target: Target, outcomes: Outcomes)
    requires CursorObtained(target, outcomes)
    requires outcomes(Execute(ReloadCommand)).Failed?
    ensures ReportFailure(Execute(ReloadCommand)) in Reload(target, outcomes)
    ensures ReportReloaded in Reload(target, outcomes)
  {
    var script := Script(target);
    var run := RunTry(script, outcomes);
    ReloadReportsReloadedIffConnected(target, outcomes);
    assert script[0] == Connect(target) && script[1] == SetIsolationLevel(AutocommitLevel);
    assert script[2] == OpenCursor && script[3] == Execute(ReloadCommand);
    AttemptedIffEarlierSucceeded(script, outcomes, run, 3);
    AttemptedIffEarlierSucceeded(script, outcomes, run, 4);
    assert |run.calls| == 4;
    ReportsComeFromExcept(run);
    assert run.outcome == Raised(Execute(ReloadCommand));
  }

  /** The happy path, effect by effect. */
  lemma ReloadAllSucceed(target: Target, outcomes: Outcomes)
    requires forall k :: 0 <= k < |Script(target)| ==> outcomes(Script(target)[k]).Succeeded?
    ensures Reload(target, outcomes) ==
      [Started]
      + [Invoke(Call(Connect(target), Succeeded)),
         Invoke(Call(SetIsolationLevel(AutocommitLevel), Succeeded)),
         Invoke(Call(OpenCursor, Succeeded)),
         Invoke(Call(Execute(ReloadCommand), Succeeded)),
         Invoke(Call(Commit, Succeeded))]
      + [CloseCursor, CloseConnection, ReportClosed, ReportReloaded]
  {
    var run := RunTry(Script(target), outcomes);
    AttemptedIffEarlierSucceeded(Script(target), outcomes, run, 0);
    ReloadHoldsConnection(target, outcomes);
    ReloadHoldsCursor(target, outcomes);
    assert Script(target)[0] == Connect(target);
    assert Script(target)[1] == SetIsolationLevel(AutocommitLevel);
    assert Script(target)[2] == OpenCursor;
  }
}
