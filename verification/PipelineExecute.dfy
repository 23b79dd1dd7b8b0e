/** Running a pipeline: retries of one stage, routing of stdin, and the run as a whole.

    A sandbox run is an oracle: what attempt number a of a stage does on a given stdin. */
module PipelineExecute {
  import opened Common
  import opened Powers
  import opened PipelineGraph
  import opened PipelineBuild
  import opened PipelineBuilder

  datatype Output = Output(exitCode: int, stdout: seq<byte>)

  datatype Attempt = CreateFailed(reason: string) | RunFailed(reason: string) | Ran(output: Output)

  type Oracle = (Stage, seq<byte>, nat) -> Attempt

  /** A panic is no error the caller gets, but it ends the execution. */
  datatype StageFailure = SandboxError(reason: string) | Panic

  datatype StageResult = StageResult(stageId: StageId, output: Output, retries: nat)

  datatype PipelineResult = PipelineResult(stageResults: seq<StageResult>, success: bool, failedStage: Option<StageId>)

  datatype ExecuteError = Unordered(cause: BuildError) | StageMissing(id: StageId) | StageFailed(failure: StageFailure)

  // ----- one stage with its retries

  /** Attempts after which the loop goes on as long as retries are left. */
  predicate Retryable(a: Attempt) {
    a.RunFailed? || (a.Ran? && a.output.exitCode != 0)
  }

  /** The factor of the delay after attempt number a: a power of two that saturates at 32 bits. */
  function BackoffFactor(a: nat): nat {
    if a < 32 then Pow2(a) else 0xFFFF_FFFF
  }

  /** The multiplication panics unless the delay is representable. */
  predicate DelayFits(stage: Stage, a: nat) {
    stage.baseDelay * BackoffFactor(a) <= MAX_DURATION
  }

  /** r is what the retry loop yields: attempts 0 to n-1 are retryable and their delays fit, and
      attempt n either is not retryable, or is the last one allowed, or its delay panics.  A failure to
      create the sandbox ends the loop at once, whatever retries are left. */
  ghost predicate StopsAt(stage: Stage, stdin: seq<byte>, run: Oracle, n: nat, r: Result<(Output, nat), StageFailure>) {
    && n <= stage.maxRetries
    && (forall a: nat | a < n :: Retryable(run(stage, stdin, a)) && DelayFits(stage, a))
    && if Retryable(run(stage, stdin, n)) && n < stage.maxRetries then !DelayFits(stage, n) && r == Err(Panic)
       else match run(stage, stdin, n)
         case CreateFailed(e) => r == Err(SandboxError(e))
         case RunFailed(e) => r == Err(SandboxError(e))
         case Ran(out) => r == Ok((out, n))
  }

  ghost predicate StageOutcome(stage: Stage, stdin: seq<byte>, run: Oracle, r: Result<(Output, nat), StageFailure>) {
    exists n: nat :: StopsAt(stage, stdin, run, n, r)
  }

  /** The oracle determines the outcome, including the retry count. */
  lemma StageOutcomeUnique(stage: Stage, stdin: seq<byte>, run: Oracle,
                           r: Result<(Output, nat), StageFailure>, r': Result<(Output, nat), StageFailure>)
    requires StageOutcome(stage, stdin, run, r)
    requires StageOutcome(stage, stdin, run, r')
    ensures r == r'
  {
    hide DelayFits;
    var n: nat :| StopsAt(stage, stdin, run, n, r);
    var n': nat :| StopsAt(stage, stdin, run, n', r');
    assert n < n' ==> Retryable(run(stage, stdin, n)) && DelayFits(stage, n);
    assert n' < n ==> Retryable(run(stage, stdin, n')) && DelayFits(stage, n');
  }

  method RunStage(stage: Stage, stdin: seq<byte>, run: Oracle) returns (r: Result<(Output, nat), StageFailure>)
    ensures StageOutcome(stage, stdin, run, r)
  {
    hide BackoffFactor;
    var retries := 0;
    while true
      invariant retries <= stage.maxRetries
      invariant forall a: nat | a < retries :: Retryable(run(stage, stdin, a)) && DelayFits(stage, a)
      decreases stage.maxRetries - retries
    {
      var attempt := run(stage, stdin, retries);
      match attempt {
        case CreateFailed(e) =>
          r := Err(SandboxError(e));
          assert StopsAt(stage, stdin, run, retries, r);
          return;
        case Ran(out) =>
          if out.exitCode == 0 || retries >= stage.maxRetries {
            r := Ok((out, retries));
            assert StopsAt(stage, stdin, run, retries, r);
            return;
          }
        case RunFailed(e) =>
          if retries >= stage.maxRetries {
            r := Err(SandboxError(e));
            assert StopsAt(stage, stdin, run, retries, r);
            return;
          }
      }
      retries := retries + 1;
      var delay := stage.baseDelay * BackoffFactor(retries - 1);
      if delay > MAX_DURATION {
        r := Err(Panic);
        assert StopsAt(stage, stdin, run, retries - 1, r);
        return;
      }
    }
  }

  lemma HalfOfTheWord()
    ensures Pow2(31) == 0x8000_0000
  {
    assert Pow2(3) == 8;
    Pow2Seven(3);
    Pow2Seven(10);
    Pow2Seven(17);
    Pow2Seven(24);
  }

  /** The factor is the power of two, saturated. */
  lemma FactorIsSaturated(a: nat)
    ensures BackoffFactor(a) == Min(Pow2(a), 0xFFFF_FFFF)
  {
    HalfOfTheWord();
    if a < 32 {
      Pow2Monotone(a, 31);
    } else {
      Pow2Monotone(32, a);
      assert Pow2(32) == 2 * Pow2(31);
    }
  }

  lemma FitsBefore(stage: Stage, a: nat, b: nat)
    requires a <= b && DelayFits(stage, b)
    ensures DelayFits(stage, a)
  {
    FactorIsSaturated(a);
    FactorIsSaturated(b);
    Pow2Monotone(a, b);
    hide BackoffFactor, Pow2;
    MulAtMost(BackoffFactor(a), BackoffFactor(b), stage.baseDelay);
  }

  // ----- what a stage yields, in plain terms

  /** The attempt may be repeated: its sandbox was created, but the run failed or exited with non-zero. */
  ghost predicate Failed(stage: Stage, stdin: seq<byte>, run: Oracle, a: nat) {
    var attempt := run(stage, stdin, a);
    attempt.RunFailed? || (attempt.Ran? && attempt.output.exitCode != 0)
  }

  /** Attempts 0 to n-1 failed, and each was followed by a delay that is representable: the base delay
      times a power of two that saturates at 2^32 - 1. */
  ghost predicate ReachesAttempt(stage: Stage, stdin: seq<byte>, run: Oracle, n: nat) {
    n <= stage.maxRetries
    && forall a: nat | a < n ::
      Failed(stage, stdin, run, a) && stage.baseDelay * Min(Pow2(a), 0xFFFF_FFFF) <= MAX_DURATION
  }

  lemma ReachedInPlainTerms(stage: Stage, stdin: seq<byte>, run: Oracle, n: nat)
    requires n <= stage.maxRetries
    ensures ReachesAttempt(stage, stdin, run, n) <==>
      forall a: nat | a < n :: Retryable(run(stage, stdin, a)) && DelayFits(stage, a)
  {
    hide Pow2, BackoffFactor, Min;
    forall a: nat | a < n
      ensures Failed(stage, stdin, run, a) <==> Retryable(run(stage, stdin, a))
      ensures stage.baseDelay * Min(Pow2(a), 0xFFFF_FFFF) <= MAX_DURATION <==> DelayFits(stage, a)
    {
      FactorIsSaturated(a);
    }
  }

  /** The stage yields an output with n retries exactly if attempt n is reached and ran with that output,
      and it exited with zero or no retry is left. */
  lemma StageYieldsIff(stage: Stage, stdin: seq<byte>, run: Oracle, r: Result<(Output, nat), StageFailure>,
                       output: Output, n: nat)
    requires StageOutcome(stage, stdin, run, r)
    ensures r == Ok((output, n)) <==>
      && ReachesAttempt(stage, stdin, run, n)
      && run(stage, stdin, n) == Ran(output)
      && (output.exitCode == 0 || n == stage.maxRetries)
  {
    hide DelayFits, ReachesAttempt;
    if r == Ok((output, n)) {
      var m: nat :| StopsAt(stage, stdin, run, m, r);
      ReachedInPlainTerms(stage, stdin, run, m);
    }
    if ReachesAttempt(stage, stdin, run, n) && run(stage, stdin, n) == Ran(output)
        && (output.exitCode == 0 || n == stage.maxRetries) {
      ReachedIsAllowed(stage, stdin, run, n);
      ReachedInPlainTerms(stage, stdin, run, n);
      assert StopsAt(stage, stdin, run, n, Ok((output, n)));
      StageOutcomeUnique(stage, stdin, run, r, Ok((output, n)));
    }
  }

  lemma ReachedIsAllowed(stage: Stage, stdin: seq<byte>, run: Oracle, n: nat)
    requires ReachesAttempt(stage, stdin, run, n)
    ensures n <= stage.maxRetries
  {
  }

  /** Attempt n is reached, and it could not create its sandbox, or its run failed with no retry left. */
  ghost predicate EndsWith(stage: Stage, stdin: seq<byte>, run: Oracle, n: nat, reason: string) {
    && ReachesAttempt(stage, stdin, run, n)
    && (run(stage, stdin, n) == CreateFailed(reason)
        || (run(stage, stdin, n) == RunFailed(reason) && n == stage.maxRetries))
  }

  /** It ends with a sandbox error exactly if some attempt is reached that could not create its sandbox,
      or whose run failed with no retry left. */
  lemma StageErrsIff(stage: Stage, stdin: seq<byte>, run: Oracle, r: Result<(Output, nat), StageFailure>, reason: string)
    requires StageOutcome(stage, stdin, run, r)
    ensures r == Err(SandboxError(reason)) <==> (exists n: nat :: EndsWith(stage, stdin, run, n, reason))
  {
    hide DelayFits, ReachesAttempt;
    if r == Err(SandboxError(reason)) {
      var m: nat :| StopsAt(stage, stdin, run, m, r);
      ReachedInPlainTerms(stage, stdin, run, m);
      assert EndsWith(stage, stdin, run, m, reason);
    }
    if n: nat :| EndsWith(stage, stdin, run, n, reason) {
      ReachedIsAllowed(stage, stdin, run, n);
      ReachedInPlainTerms(stage, stdin, run, n);
      assert StopsAt(stage, stdin, run, n, Err(SandboxError(reason)));
      StageOutcomeUnique(stage, stdin, run, r, Err(SandboxError(reason)));
    }
  }

  /** Attempt n is reached and failed, a retry is left, and the delay is too long. */
  ghost predicate PanicsAfter(stage: Stage, stdin: seq<byte>, run: Oracle, n: nat) {
    && n < stage.maxRetries && ReachesAttempt(stage, stdin, run, n) && Failed(stage, stdin, run, n)
    && stage.baseDelay * Min(Pow2(n), 0xFFFF_FFFF) > MAX_DURATION
  }

  /** It panics exactly if some attempt but the last allowed one is reached and failed, and the delay
      after it is too long. */
  lemma StagePanicsIff(stage: Stage, stdin: seq<byte>, run: Oracle, r: Result<(Output, nat), StageFailure>)
    requires StageOutcome(stage, stdin, run, r)
    ensures r == Err(Panic) <==> (exists n: nat :: PanicsAfter(stage, stdin, run, n))
  {
    hide ReachesAttempt, Pow2, Min, BackoffFactor;
    if r == Err(Panic) {
      var m: nat :| StopsAt(stage, stdin, run, m, r);
      ReachedInPlainTerms(stage, stdin, run, m);
      FactorIsSaturated(m);
      assert PanicsAfter(stage, stdin, run, m);
    }
    if n: nat :| PanicsAfter(stage, stdin, run, n) {
      ReachedInPlainTerms(stage, stdin, run, n);
      FactorIsSaturated(n);
      assert StopsAt(stage, stdin, run, n, Err(Panic));
      StageOutcomeUnique(stage, stdin, run, r, Err(Panic));
    }
  }

  /** A stage never panics, whatever its sandboxes do, exactly if it has no retries or the delay before
      the last one is still representable. */
  lemma NeverPanicsIff(stage: Stage)
    ensures (forall stdin, run, r | StageOutcome(stage, stdin, run, r) :: r != Err(Panic)) <==>
      stage.maxRetries == 0 || stage.baseDelay * Min(Pow2(stage.maxRetries - 1), 0xFFFF_FFFF) <= MAX_DURATION
  {
    hide DelayFits, StageOutcome, StopsAt, Pow2, Min;
    if stage.maxRetries > 0 {
      FitsInPlainTerms(stage, stage.maxRetries - 1);
    }
    if stage.maxRetries == 0 || DelayFits(stage, stage.maxRetries - 1) {
      forall stdin, run, r | StageOutcome(stage, stdin, run, r)
        ensures r != Err(Panic)
      {
        PanicNeedsLongDelay(stage, stdin, run, r);
      }
    } else {
      AlwaysFailingPanics(stage, stage.maxRetries - 1);
    }
  }

  lemma FitsInPlainTerms(stage: Stage, a: nat)
    ensures DelayFits(stage, a) <==> stage.baseDelay * Min(Pow2(a), 0xFFFF_FFFF) <= MAX_DURATION
  {
    FactorIsSaturated(a);
  }

  lemma PanicNeedsLongDelay(stage: Stage, stdin: seq<byte>, run: Oracle, r: Result<(Output, nat), StageFailure>)
    requires StageOutcome(stage, stdin, run, r)
    requires stage.maxRetries == 0 || DelayFits(stage, stage.maxRetries - 1)
    ensures r != Err(Panic)
  {
    hide DelayFits;
    var m: nat :| StopsAt(stage, stdin, run, m, r);
    if m < stage.maxRetries && !DelayFits(stage, m) {
      FitsBefore(stage, m, stage.maxRetries - 1);
    }
  }

  /** With sandboxes that always fail, the first delay that does not fit panics. */
  lemma {:induction false} AlwaysFailingPanics(stage: Stage, n: nat)
    requires n < stage.maxRetries && !DelayFits(stage, n)
    ensures exists stdin, run :: StageOutcome(stage, stdin, run, Err(Panic))
  {
    hide DelayFits;
    if a: nat :| a < n && !DelayFits(stage, a) {
      AlwaysFailingPanics(stage, a);
    } else {
      var run: Oracle := (s: Stage, stdin: seq<byte>, a: nat) => RunFailed("");
      assert StopsAt(stage, [], run, n, Err(Panic));
      assert StageOutcome(stage, [], run, Err(Panic));
    }
  }

  // ----- routing of stdin

  /** Where a stage's stdin comes from. */
  datatype Source = FromInput | FromStage(id: StageId)

  /** The first usable edge to `id` among the out-edges of `up`. */
  ghost function RouteVia(out: seq<OutEdge>, id: StageId, up: StageId, outputs: map<StageId, Output>): Option<Source> {
    if out == [] then None
    else
      var e, earlier := out[|out| - 1], RouteVia(out[..|out| - 1], id, up, outputs);
      if earlier.Some? then earlier
      else if e.target != id then None
      else if e.flow == PassThrough then Some(FromInput)
      else if up in outputs then Some(FromStage(up))
      else None
  }

  /** The first usable edge over all listed upstream stages; None if the loops find none. */
  ghost function Route(d: Definition, ups: seq<StageId>, id: StageId, outputs: map<StageId, Output>): Option<Source> {
    if ups == [] then None
    else
      var earlier := Route(d, ups[..|ups| - 1], id, outputs);
      if earlier.Some? then earlier
      else RouteVia(Lookup(d.edges, ups[|ups| - 1]), id, ups[|ups| - 1], outputs)
  }

  ghost function StageRoute(d: Definition, id: StageId, outputs: map<StageId, Output>): Option<Source> {
    Route(d, Lookup(d.reverseEdges, id), id, outputs)
  }

  ghost function Deliver(route: Option<Source>, input: seq<byte>, outputs: map<StageId, Output>): seq<byte> {
    if route.Some? && route.value.FromStage? && route.value.id in outputs
    then outputs[route.value.id].stdout
    else input
  }

  ghost function Stdin(d: Definition, input: seq<byte>, outputs: map<StageId, Output>, id: StageId): seq<byte> {
    Deliver(StageRoute(d, id, outputs), input, outputs)
  }

  /** The loop over the out-edges of one upstream stage. */
  method FirstUsableEdge(out: seq<OutEdge>, id: StageId, up: StageId, outputs: map<StageId, Output>)
    returns (r: Option<Source>)
    ensures r == RouteVia(out, id, up, outputs)
  {
    for j := 0 to |out|
      invariant RouteVia(out[..j], id, up, outputs) == None
    {
      assert out[..j + 1][..j] == out[..j];
      if out[j].target == id {
        match out[j].flow {
          case StdoutToStdin =>
            if up in outputs {
              RouteViaFirst(out, j + 1, id, up, outputs);
              return Some(FromStage(up));
            }
          case PassThrough =>
            RouteViaFirst(out, j + 1, id, up, outputs);
            return Some(FromInput);
        }
      }
    }
    assert out[..|out|] == out;
    return None;
  }

  method ResolveStageInput(d: Definition, id: StageId, input: seq<byte>, outputs: map<StageId, Output>)
    returns (r: seq<byte>)
    ensures r == Stdin(d, input, outputs, id)
  {
    hide RouteVia;
    var upstream := Lookup(d.reverseEdges, id);
    if upstream == [] {
      return input;
    }
    for i := 0 to |upstream|
      invariant Route(d, upstream[..i], id, outputs) == None
    {
      assert upstream[..i + 1][..i] == upstream[..i];
      var up := upstream[i];
      var route := FirstUsableEdge(Lookup(d.edges, up), id, up, outputs);
      assert Route(d, upstream[..i + 1], id, outputs) == route;
      if route.Some? {
        RouteFirst(d, upstream, i + 1, id, outputs);
        match route.value {
          case FromInput => return input;
          case FromStage(source) => return if source in outputs then outputs[source].stdout else input;
        }
      }
    }
    assert upstream[..|upstream|] == upstream;
    return input;
  }

  /** A usable edge found in a prefix is the one found overall. */
  lemma {:induction false} RouteViaFirst(out: seq<OutEdge>, n: nat, id: StageId, up: StageId, outputs: map<StageId, Output>)
    requires n <= |out| && RouteVia(out[..n], id, up, outputs).Some?
    ensures RouteVia(out, id, up, outputs) == RouteVia(out[..n], id, up, outputs)
  {
    if n < |out| {
      assert out[..|out| - 1][..n] == out[..n];
      RouteViaFirst(out[..|out| - 1], n, id, up, outputs);
    } else {
      assert out[..n] == out;
    }
  }

  lemma {:induction false} RouteFirst(d: Definition, ups: seq<StageId>, n: nat, id: StageId, outputs: map<StageId, Output>)
    requires n <= |ups| && Route(d, ups[..n], id, outputs).Some?
    ensures Route(d, ups, id, outputs) == Route(d, ups[..n], id, outputs)
  {
    if n < |ups| {
      assert ups[..|ups| - 1][..n] == ups[..n];
      RouteFirst(d, ups[..|ups| - 1], n, id, outputs);
    } else {
      assert ups[..n] == ups;
    }
  }

  // ----- the run as a whole

  /** `stage_outputs`: the outputs of the stages run so far, by stage. */
  ghost function OutputsOf(results: seq<StageResult>): map<StageId, Output> {
    if results == [] then map[]
    else
      var last := results[|results| - 1];
      OutputsOf(results[..|results| - 1])[last.stageId := last.output]
  }

  /** Result k is the outcome of stage order[k], run on the stdin its predecessors' outputs yield. */
  ghost predicate ResultAt(d: Definition, input: seq<byte>, run: Oracle, order: seq<StageId>,
                           results: seq<StageResult>, k: nat)
    requires k < |results| <= |order|
  {
    var r := results[k];
    && r.stageId == order[k]
    && order[k] in d.stages
    && StageOutcome(d.stages[order[k]], Stdin(d, input, OutputsOf(results[..k]), order[k]), run,
                    Ok((r.output, r.retries)))
  }

  ghost predicate RanInOrder(d: Definition, input: seq<byte>, run: Oracle, order: seq<StageId>, results: seq<StageResult>) {
    |results| <= |order| && forall k | 0 <= k < |results| :: ResultAt(d, input, run, order, results, k)
  }

  ghost predicate AllZero(results: seq<StageResult>) {
    forall k | 0 <= k < |results| :: results[k].output.exitCode == 0
  }

  /** A run that ended with a result: complete and all zero, or stopped at the first non-zero exit. */
  ghost predicate Finished(order: seq<StageId>, p: PipelineResult) {
    var rs := p.stageResults;
    && p.success == p.failedStage.None?
    && match p.failedStage
       case None => |rs| == |order| && AllZero(rs)
       case Some(id) =>
         && 0 < |rs| <= |order|
         && AllZero(rs[..|rs| - 1])
         && rs[|rs| - 1].stageId == id && rs[|rs| - 1].output.exitCode != 0
  }

  /** A run that ended with an error after the stages in `results` had all exited with zero. */
  ghost predicate Aborted(d: Definition, input: seq<byte>, run: Oracle, order: seq<StageId>,
                          results: seq<StageResult>, e: ExecuteError) {
    && RanInOrder(d, input, run, order, results) && AllZero(results) && |results| < |order|
    && var id := order[|results|];
       if id in d.stages
       then e.StageFailed?
            && StageOutcome(d.stages[id], Stdin(d, input, OutputsOf(results), id), run, Err(e.failure))
       else e == StageMissing(id)
  }

  /** A complete execution order: what the topological sort returns on success. */
  ghost predicate ExecutionOrder(d: Definition, order: seq<StageId>) {
    IsMaximalSchedule(d, order) && |order| == |d.stages|
  }

  method Execute(d: Definition, input: seq<byte>, run: Oracle) returns (r: Result<PipelineResult, ExecuteError>)
    ensures r.Ok? ==> exists order ::
      ExecutionOrder(d, order) && RanInOrder(d, input, run, order, r.value.stageResults) && Finished(order, r.value)
    ensures r.Err? && r.error.Unordered? ==> exists s :: IsMaximalSchedule(d, s) && |s| != |d.stages|
    ensures r.Err? && !r.error.Unordered? ==> exists order, results ::
      ExecutionOrder(d, order) && Aborted(d, input, run, order, results, r.error)
  {
    var sorted := TopologicalOrder(d);
    if sorted.Err? {
      return Err(Unordered(sorted.error));
    }
    var order := sorted.value;
    assert ExecutionOrder(d, order);
    var outputs: map<StageId, Output> := map[];
    var results: seq<StageResult> := [];
    for i := 0 to |order|
      invariant |results| == i
      invariant RanInOrder(d, input, run, order, results) && AllZero(results)
      invariant outputs == OutputsOf(results)
    {
      var id := order[i];
      if id !in d.stages {
        assert Aborted(d, input, run, order, results, StageMissing(id));
        return Err(StageMissing(id));
      }
      var stdin := ResolveStageInput(d, id, input, outputs);
      var outcome := RunStage(d.stages[id], stdin, run);
      if outcome.Err? {
        assert Aborted(d, input, run, order, results, StageFailed(outcome.error));
        return Err(StageFailed(outcome.error));
      }
      var (output, retries) := outcome.value;
      ghost var before := results;
      results := results + [StageResult(id, output, retries)];
      assert results[..i] == before;
      AppendResult(d, input, run, order, before, results[i]);
      if output.exitCode != 0 {
        return Ok(PipelineResult(results, false, Some(id)));
      }
      outputs := outputs[id := output];
    }
    return Ok(PipelineResult(results, true, None));
  }

  lemma AppendResult(d: Definition, input: seq<byte>, run: Oracle, order: seq<StageId>,
                     results: seq<StageResult>, r: StageResult)
    requires RanInOrder(d, input, run, order, results) && |results| < |order|
    requires r.stageId == order[|results|] && order[|results|] in d.stages
    requires StageOutcome(d.stages[order[|results|]], Stdin(d, input, OutputsOf(results), order[|results|]), run,
                          Ok((r.output, r.retries)))
    ensures RanInOrder(d, input, run, order, results + [r])
  {
    var results' := results + [r];
    forall k | 0 <= k < |results'|
      ensures ResultAt(d, input, run, order, results', k)
    {
      if k < |results| {
        assert results'[..k] == results[..k];
        assert ResultAt(d, input, run, order, results, k);
      } else {
        assert results'[..k] == results;
      }
    }
  }
}
