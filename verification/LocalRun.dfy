/** Local terraform execution as a trace: the apply and destroy operation with its AWS cleanup and
    retry, and the bounded readiness loop (src/apply.rs). What scripts and probes answer is arbitrary. */
module LocalRun {
  import opened Wrappers
  import opened Materialize

  datatype Script = ApplyScript | DestroyScript | CleanupScript

  /** A script runs to an exit status, or it cannot be run at all. */
  datatype RunResult = Succeeded | Exited | CannotRun

  /** The answer to one readiness request. */
  datatype Probe = Code200 | OtherAnswer | CurlMissing | CurlFailed

  datatype Event = Executed(script: Script, result: RunResult) | Probed(answer: Probe) | Slept

  datatype Outcome =
    | Unsupported | NoScript | Applied | Destroyed(afterCleanup: bool)
    | ScriptError | ScriptFailed | NoEndpoint | NotReady

  /** Everything outside: which scripts exist, what their first and later executions answer, and the
      settings and answers of the readiness check. */
  datatype World = World(
    scriptExists: bool, cleanupExists: bool,
    firstRun: RunResult, cleanupRun: RunResult, retryRun: RunResult,
    skipReadiness: bool, hasEndpoint: bool, maxAttempts: nat, probes: nat -> Probe)

  // ---------- readiness ----------

  /** An answer that ends the waiting: the endpoint is up, or there is no way to ask. */
  predicate Ends(p: Probe) { p.Code200? || p.CurlMissing? }

  function FirstEnd(w: World, from: nat): (r: nat)
    requires from <= w.maxAttempts
    ensures from <= r <= w.maxAttempts
    ensures r < w.maxAttempts ==> Ends(w.probes(r))
    ensures forall i | from <= i < r :: !Ends(w.probes(i))
    decreases w.maxAttempts - from
  {
    if from == w.maxAttempts || Ends(w.probes(from)) then from else FirstEnd(w, from + 1)
  }

  function EventAt(w: World, i: nat): Event { if i % 2 == 0 then Probed(w.probes(i / 2)) else Slept }

  /** The first n probes with one pause between any two of them. */
  function Alternating(w: World, n: nat): seq<Event> {
    if n == 0 then [] else seq(2 * n - 1, i requires 0 <= i => EventAt(w, i))
  }

  lemma AlternatingNext(w: World, n: nat)
    ensures Alternating(w, n + 1) == Alternating(w, n) + (if n == 0 then [] else [Slept]) + [Probed(w.probes(n))]
  {
  }

  /** The number of probes that are sent. */
  function ProbesSent(w: World): nat {
    var r := FirstEnd(w, 0);
    if r < w.maxAttempts then r + 1 else r
  }

  function Readiness(provider: Provider, w: World): (Option<Outcome>, seq<Event>) {
    if provider != Azure || w.skipReadiness then (None, [])
    else if !w.hasEndpoint then (Some(NoEndpoint), [])
    else (if FirstEnd(w, 0) < w.maxAttempts then None else Some(NotReady), Alternating(w, ProbesSent(w)))
  }

  /** `wait_for_runtime_readiness`; None means ready. */
  method WaitForRuntimeReadiness(provider: Provider, w: World) returns (failure: Option<Outcome>, trace: seq<Event>)
    ensures (failure, trace) == Readiness(provider, w)
  {
    trace := [];
    if provider != Azure {
      return None, trace;
    }
    if w.skipReadiness {
      return None, trace;
    }
    if !w.hasEndpoint {
      return Some(NoEndpoint), trace;
    }
    var attempt := 0;
    while attempt < w.maxAttempts
      invariant attempt <= w.maxAttempts
      invariant FirstEnd(w, 0) == FirstEnd(w, attempt)
      invariant trace == Alternating(w, attempt) + (if 0 < attempt < w.maxAttempts then [Slept] else [])
    {
      var answer := w.probes(attempt);
      trace := trace + [Probed(answer)];
      AlternatingNext(w, attempt);
      match answer {
        case Code200 => return None, trace;
        case CurlMissing => return None, trace;
        case _ =>
      }
      attempt := attempt + 1;
      if attempt < w.maxAttempts {
        trace := trace + [Slept];
      }
    }
    assert trace == Alternating(w, attempt);
    return Some(NotReady), trace;
  }

  function CountProbes(t: seq<Event>): nat {
    if t == [] then 0 else CountProbes(t[..|t| - 1]) + (if t[|t| - 1].Probed? then 1 else 0)
  }

  lemma {:induction false} AlternatingCount(w: World, n: nat)
    ensures CountProbes(Alternating(w, n)) == n
  {
    hide Alternating, CountProbes;
    if n == 0 {
      NothingSent(w);
    } else {
      AlternatingCount(w, n - 1);
      AlternatingNext(w, n - 1);
      var t, p := Alternating(w, n - 1), Probed(w.probes(n - 1));
      CountStep(t, Slept);
      CountStep(t, p);
      CountStep(t + [Slept], p);
      assert t + [] + [p] == t + [p];
    }
  }

  lemma NothingSent(w: World)
    ensures Alternating(w, 0) == [] && CountProbes([]) == 0
  {
  }

  lemma CountStep(t: seq<Event>, e: Event)
    ensures CountProbes(t + [e]) == CountProbes(t) + (if e.Probed? then 1 else 0)
  {
    assert (t + [e])[..|t|] == t;
  }

  /** The readiness check sends at most the allowed number of probes, pauses only between two probes,
      and stops at the first answer that ends it. */
  lemma ReadinessIsBounded(provider: Provider, w: World)
    ensures var t := Readiness(provider, w).1;
            CountProbes(t) <= w.maxAttempts &&
            (forall i | 0 <= i < |t| && t[i].Slept? :: 0 < i < |t| - 1 && t[i - 1].Probed? && t[i + 1].Probed?) &&
            (forall i | 0 <= i < |t| - 1 && t[i].Probed? :: !Ends(t[i].answer))
  {
    hide CountProbes, FirstEnd, Alternating;
    NothingSent(w);
    AlternatingCount(w, ProbesSent(w));
    AlternatingShape(w, ProbesSent(w));
  }

  lemma AlternatingShape(w: World, n: nat)
    requires n <= ProbesSent(w)
    ensures var t := Alternating(w, n);
            (forall i | 0 <= i < |t| && t[i].Slept? :: 0 < i < |t| - 1 && t[i - 1].Probed? && t[i + 1].Probed?) &&
            (forall i | 0 <= i < |t| - 1 && t[i].Probed? :: !Ends(t[i].answer))
  {
    hide FirstEnd, Ends;
    var t := Alternating(w, n);
    forall i | 0 <= i < |t| && t[i].Slept? ensures 0 < i < |t| - 1 && t[i - 1].Probed? && t[i + 1].Probed? {
      assert i % 2 == 1;
    }
    forall i | 0 <= i < |t| - 1 && t[i].Probed? ensures !Ends(t[i].answer) {
      assert i % 2 == 0 && i / 2 < n - 1 <= FirstEnd(w, 0);
    }
  }

  /** The requests of a required check, exactly: some number of probes with one pause between any two,
      each with the answer in turn, none of them but the last ending the check; and the last one ends it
      unless all allowed probes were sent. */
  lemma ReadinessTrace(provider: Provider, w: World) returns (n: nat)
    ensures var (failure, t) := Readiness(provider, w);
            if provider != Azure || w.skipReadiness then failure == None && t == []
            else if !w.hasEndpoint then failure == Some(NoEndpoint) && t == []
            else
              n <= w.maxAttempts && |t| == (if n == 0 then 0 else 2 * n - 1) &&
              (forall i | 0 <= i < |t| :: t[i] == if i % 2 == 0 then Probed(w.probes(i / 2)) else Slept) &&
              (forall i | 0 <= i < n - 1 :: w.probes(i) !in {Code200, CurlMissing}) &&
              (failure == None <==> n > 0 && w.probes(n - 1) in {Code200, CurlMissing}) &&
              (failure != None ==> failure == Some(NotReady) && n == w.maxAttempts)
  {
    n := ProbesSent(w);
    hide FirstEnd;
    var r := FirstEnd(w, 0);
  }

  /** It succeeds exactly when it is not required, or an endpoint is known and one of the allowed probes
      ends it; with no attempts allowed it always fails. */
  lemma ReadinessSucceeds(provider: Provider, w: World)
    ensures Readiness(provider, w).0 == None <==>
            provider != Azure || w.skipReadiness ||
            (w.hasEndpoint && exists i | 0 <= i < w.maxAttempts :: w.probes(i) in {Code200, CurlMissing})
  {
    hide FirstEnd, Alternating;
    var r := FirstEnd(w, 0);
    assert r < w.maxAttempts ==> Ends(w.probes(r));
  }

  // ---------- apply and destroy ----------

  datatype Operation = ApplyOperation | DestroyOperation

  function ParseOperation(name: string): Option<Operation> {
    if name == "apply" then Some(ApplyOperation) else if name == "destroy" then Some(DestroyOperation) else None
  }

  /** `execute_local_terraform_operation` */
  function TerraformOperation(provider: Provider, name: string, w: World): (Outcome, seq<Event>) {
    match ParseOperation(name)
    case None => (Unsupported, [])
    case Some(operation) => if w.scriptExists then RunOperation(provider, operation, w) else (NoScript, [])
  }

  function RunOperation(provider: Provider, operation: Operation, w: World): (Outcome, seq<Event>) {
    var script := if operation.ApplyOperation? then ApplyScript else DestroyScript;
    var ran := [Executed(script, w.firstRun)];
    match w.firstRun
    case CannotRun => (ScriptError, ran)
    case Exited =>
      if operation.DestroyOperation? && provider == Aws && w.cleanupExists then RunCleanup(script, ran, w)
      else (ScriptFailed, ran)
    case Succeeded =>
      if operation.ApplyOperation? then
        var (failure, waited) := Readiness(provider, w);
        (if failure.Some? then failure.value else Applied, ran + waited)
      else (Destroyed(false), ran)
  }

  /** The AWS fallback: clean up, and run the script again if that worked. */
  function RunCleanup(script: Script, ran: seq<Event>, w: World): (Outcome, seq<Event>) {
    var cleaned := ran + [Executed(CleanupScript, w.cleanupRun)];
    match w.cleanupRun
    case CannotRun => (ScriptError, cleaned)
    case Exited => (ScriptFailed, cleaned)
    case Succeeded =>
      var retried := cleaned + [Executed(script, w.retryRun)];
      match w.retryRun
      case CannotRun => (ScriptError, retried)
      case Exited => (ScriptFailed, retried)
      case Succeeded => (Destroyed(true), retried)
  }

  /** The positions at which a script was executed. */
  function Runs(t: seq<Event>, s: Script): (r: seq<nat>)
    ensures forall i | 0 <= i < |r| :: r[i] < |t| && t[r[i]].Executed? && t[r[i]].script == s
    ensures forall i, j | 0 <= i < j < |r| :: r[i] < r[j]
  {
    if t == [] then []
    else
      var n := |t| - 1;
      Runs(t[..n], s) + (if t[n].Executed? && t[n].script == s then [n] else [])
  }

  lemma {:induction false} RunsConcat(a: seq<Event>, b: seq<Event>, s: Script)
    requires forall e | e in b :: !e.Executed?
    ensures Runs(a + b, s) == Runs(a, s)
  {
    if b == [] {
      assert a + b == a;
    } else {
      var n := |b| - 1;
      assert (a + b)[..|a + b| - 1] == a + b[..n];
      assert b[n] in b;
      RunsConcat(a, b[..n], s);
    }
  }

  lemma ReadinessRunsNothing(provider: Provider, w: World)
    ensures forall e | e in Readiness(provider, w).1 :: !e.Executed?
  {
  }

  lemma RunsStep(t: seq<Event>, e: Event, s: Script)
    ensures Runs(t + [e], s) == Runs(t, s) + (if e.Executed? && e.script == s then [|t|] else [])
  {
    assert (t + [e])[..|t|] == t;
  }

  /** Apply runs its script once and cleans nothing up. The readiness check follows exactly if that
      execution succeeded; the operation is reported as applied exactly if the check passed then, and
      otherwise what went wrong is reported. */
  lemma ApplyTrace(provider: Provider, w: World)
    requires w.scriptExists
    ensures var (outcome, t) := TerraformOperation(provider, "apply", w);
            var (failure, waited) := Readiness(provider, w);
            Runs(t, ApplyScript) == [0] && Runs(t, DestroyScript) == [] && Runs(t, CleanupScript) == [] &&
            t == [Executed(ApplyScript, w.firstRun)] + (if w.firstRun == Succeeded then waited else []) &&
            (outcome == Applied <==> w.firstRun == Succeeded && failure == None) &&
            (outcome == ScriptFailed <==> w.firstRun == Exited) &&
            (outcome == ScriptError <==> w.firstRun == CannotRun) &&
            (w.firstRun == Succeeded && failure.Some? ==> outcome == failure.value)
  {
    hide Readiness, Runs, ParseOperation, RunOperation;
    ParseNames();
    var waited := Readiness(provider, w).1;
    ApplyOutcome(provider, w);
    ReadinessRunsNothing(provider, w);
    assert [Executed(ApplyScript, w.firstRun)] + [] == [Executed(ApplyScript, w.firstRun)];
    ApplyRuns(w.firstRun, waited, ApplyScript);
    ApplyRuns(w.firstRun, waited, DestroyScript);
    ApplyRuns(w.firstRun, waited, CleanupScript);
  }

  lemma ParseNames()
    ensures ParseOperation("apply") == Some(ApplyOperation) && ParseOperation("destroy") == Some(DestroyOperation)
  {
    assert |"apply"| == 5 && |"destroy"| == 7;
  }

  lemma ApplyOutcome(provider: Provider, w: World)
    requires w.scriptExists
    ensures var (outcome, t), ran := RunOperation(provider, ApplyOperation, w), [Executed(ApplyScript, w.firstRun)];
            var (failure, waited) := Readiness(provider, w);
            t == ran + (if w.firstRun == Succeeded then waited else []) &&
            (outcome == Applied <==> w.firstRun == Succeeded && failure == None) &&
            (outcome == ScriptFailed <==> w.firstRun == Exited) &&
            (outcome == ScriptError <==> w.firstRun == CannotRun) &&
            (w.firstRun == Succeeded && failure.Some? ==> outcome == failure.value)
  {
    hide Readiness;
    ReadinessFails(provider, w);
    var ran := [Executed(ApplyScript, w.firstRun)];
    assert ran + [] == ran;
  }

  /** Without the script nothing runs, and no other operation is known. */
  lemma NothingRuns(provider: Provider, name: string, w: World)
    ensures name != "apply" && name != "destroy" ==> TerraformOperation(provider, name, w) == (Unsupported, [])
    ensures name in {"apply", "destroy"} && !w.scriptExists ==>
              TerraformOperation(provider, name, w) == (NoScript, [])
  {
    hide RunOperation;
  }

  lemma ApplyRuns(result: RunResult, waited: seq<Event>, s: Script)
    requires forall e | e in waited :: !e.Executed?
    ensures var ran := [Executed(ApplyScript, result)];
            Runs(ran, s) == (if s == ApplyScript then [0] else []) && Runs(ran + waited, s) == Runs(ran, s)
  {
    var ran := [Executed(ApplyScript, result)];
    assert [] + ran == ran;
    RunsStep([], ran[0], s);
    hide Runs;
    RunsConcat(ran, waited, s);
  }

  lemma ReadinessFails(provider: Provider, w: World)
    ensures Readiness(provider, w).0 in {None, Some(NoEndpoint), Some(NotReady)}
  {
  }

  /** The cleanup of a destroy runs. */
  predicate CleansUp(provider: Provider, w: World) { provider == Aws && w.firstRun == Exited && w.cleanupExists }

  /** Destroy, exactly. The cleanup runs if and only if the provider is AWS, the script has run and failed,
      and there is a cleanup script; the script runs again if and only if the cleanup succeeded. Nothing
      else runs. It is reported as destroyed if and only if the last execution of the script succeeded and
      nothing failed after it, and as an error if and only if the last thing executed could not be run. */
  lemma DestroyTrace(provider: Provider, w: World)
    requires w.scriptExists
    ensures var (outcome, t) := TerraformOperation(provider, "destroy", w);
            var first, cleanup := Executed(DestroyScript, w.firstRun), Executed(CleanupScript, w.cleanupRun);
            var retry, cleans := Executed(DestroyScript, w.retryRun), CleansUp(provider, w);
            var retries := cleans && w.cleanupRun == Succeeded;
            t == (if retries then [first, cleanup, retry] else if cleans then [first, cleanup] else [first]) &&
            (outcome == Destroyed(true) <==> retries && w.retryRun == Succeeded) &&
            (outcome == Destroyed(false) <==> w.firstRun == Succeeded) &&
            (outcome == ScriptError <==> t[|t| - 1].result == CannotRun) &&
            (outcome == ScriptFailed <==> t[|t| - 1].result == Exited)
  {
    hide ParseOperation, Readiness;
    ParseNames();
  }

  /** So the script runs at most twice, the second time only after a successful cleanup on AWS, and success
      is reported exactly when its last execution succeeded. */
  lemma DestroyRuns(provider: Provider, w: World)
    requires w.scriptExists
    ensures var (outcome, t) := TerraformOperation(provider, "destroy", w);
            var runs := Runs(t, DestroyScript);
            Runs(t, ApplyScript) == [] &&
            Runs(t, CleanupScript) == (if CleansUp(provider, w) then [1] else []) &&
            runs == (if CleansUp(provider, w) && w.cleanupRun == Succeeded then [0, 2] else [0]) &&
            (outcome.Destroyed? <==> t[runs[|runs| - 1]].result == Succeeded)
  {
    hide Runs, TerraformOperation, ParseOperation;
    DestroyTrace(provider, w);
    var a, b := Executed(DestroyScript, w.firstRun), Executed(CleanupScript, w.cleanupRun);
    var c := Executed(DestroyScript, w.retryRun);
    AllRuns(a, b, c);
  }

  lemma AllRuns(a: Event, b: Event, c: Event)
    requires a.Executed? && a.script == DestroyScript && b.Executed? && b.script == CleanupScript
    requires c.Executed? && c.script == DestroyScript
    ensures Runs([a], DestroyScript) == [0] && Runs([a], CleanupScript) == [] && Runs([a], ApplyScript) == []
    ensures Runs([a, b], DestroyScript) == [0] && Runs([a, b], CleanupScript) == [1] && Runs([a, b], ApplyScript) == []
    ensures Runs([a, b, c], DestroyScript) == [0, 2] && Runs([a, b, c], CleanupScript) == [1]
    ensures Runs([a, b, c], ApplyScript) == []
  {
    hide Runs;
    assert [a] + [b] == [a, b] && [a] + [b] + [c] == [a, b, c];
    ThreeRuns(a, b, c, ApplyScript);
    ThreeRuns(a, b, c, CleanupScript);
    ThreeRuns(a, b, c, DestroyScript);
  }

  lemma ThreeRuns(a: Event, b: Event, c: Event, s: Script)
    requires a.Executed? && a.script == DestroyScript && b.Executed? && b.script == CleanupScript
    requires c.Executed? && c.script == DestroyScript
    ensures Runs([a], s) == (if s == DestroyScript then [0] else [])
    ensures Runs([a] + [b], s) == (match s case DestroyScript => [0] case CleanupScript => [1] case ApplyScript => [])
    ensures Runs([a] + [b] + [c], s) ==
            (match s case DestroyScript => [0, 2] case CleanupScript => [1] case ApplyScript => [])
  {
    assert [] + [a] == [a];
    RunsStep([], a, s);
    hide Runs;
    RunsStep([a], b, s);
    RunsStep([a] + [b], c, s);
  }
}
