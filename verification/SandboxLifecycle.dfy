/** The life of a sandbox: its state, its cached instance and its execution log, over any
    sequence of calls.  What an execution does is an outcome given with the call; a streaming
    execution ends later, on its own, and shares the log. */
module SandboxLifecycle {
  import opened Common

  datatype SandboxState = Ready | Running | Terminated

  /** Interrupted: the blocking task could not be joined, or the caller dropped the call. */
  datatype Outcome = InstantiateFailed | Interrupted | Trapped | Completed(exitCode: int)

  datatype Trace = Trace(input: seq<byte>, exitCode: int)

  datatype Call =
    | Run(input: seq<byte>, permitted: bool, outcome: Outcome)
    | CallFunction(permitted: bool, outcome: Outcome)
    | RunStreaming(input: seq<byte>, permitted: bool, instantiated: bool)
    | RunBatch(inputs: seq<seq<byte>>, interrupted: bool)
    | Terminate
    | Reset
    | StreamEnds(id: nat, outcome: Outcome)

  /** `streams` holds the inputs of the streaming executions still under way. */
  datatype Sandbox = Sandbox(
    state: SandboxState,
    hasInstance: bool,
    log: seq<Trace>,
    streams: map<nat, seq<byte>>,
    nextStream: nat)

  const CREATED := Sandbox(Ready, false, [], map[], 0)

  // ----- one call

  /** The call passes the state check and the rate limit. */
  predicate Admitted(s: Sandbox, c: Call) {
    match c
    case Run(_, permitted, _) => s.state == Ready && permitted
    case CallFunction(permitted, _) => s.state == Ready && permitted
    case RunStreaming(_, permitted, _) => s.state == Ready && permitted
    case RunBatch(_, _) => s.state == Ready
    case Terminate => s.state != Running
    case Reset => s.state == Terminated
    case StreamEnds(id, _) => id in s.streams
  }

  /** The call starts an execution of the module's entry point. */
  predicate Starts(s: Sandbox, c: Call) {
    Admitted(s, c) && (c.Run? || c.RunStreaming? || (c.RunBatch? && c.inputs != []))
  }

  /** The call adds a trace to the log. */
  predicate Records(s: Sandbox, c: Call) {
    Admitted(s, c) && (c.Run? || c.StreamEnds?) && c.outcome.Completed?
  }

  function Next(s: Sandbox, c: Call): Sandbox {
    if !Admitted(s, c) then s
    else
      match c
      case Run(input, _, outcome) =>
        (match outcome
         case InstantiateFailed => s.(state := Running)
         case Interrupted => s.(state := Running)
         case Trapped => s.(state := Terminated)
         case Completed(code) => s.(state := Terminated, log := s.log + [Trace(input, code)]))
      case CallFunction(_, outcome) =>
        if outcome.Interrupted? || (outcome.InstantiateFailed? && !s.hasInstance) then s.(state := Running)
        else s.(hasInstance := true)
      case RunStreaming(input, _, instantiated) =>
        if instantiated then
          s.(state := Terminated, streams := s.streams[s.nextStream := input], nextStream := s.nextStream + 1)
        else s.(state := Running)
      case RunBatch(inputs, interrupted) =>
        if inputs == [] then s else s.(state := if interrupted then Running else Terminated)
      case Terminate => s.(state := Terminated, hasInstance := false)
      case Reset => s.(state := Ready, hasInstance := false)
      case StreamEnds(id, outcome) =>
        var rest := s.(streams := s.streams - {id});
        if outcome.Completed? then rest.(log := s.log + [Trace(s.streams[id], outcome.exitCode)]) else rest
  }

  function After(calls: seq<Call>): Sandbox {
    if calls == [] then CREATED else Next(After(calls[..|calls| - 1]), calls[|calls| - 1])
  }

  /** The sandbox object; `history` holds the calls made on it, whether admitted or not. */
  class SandboxObject {
    ghost var history: seq<Call>
    var state: SandboxState
    var hasInstance: bool
    var log: seq<Trace>
    var streams: map<nat, seq<byte>>
    var nextStream: nat

    ghost function Model(): Sandbox
      reads this
    {
      Sandbox(state, hasInstance, log, streams, nextStream)
    }

    /** The sandbox is as its history of calls has left it. */
    ghost predicate Valid()
      reads this
    {
      Model() == After(history)
    }

    constructor ()
      ensures Valid() && history == []
    {
      history := [];
      state, hasInstance, log, streams, nextStream := Ready, false, [], map[], 0;
    }

    method RunOnce(input: seq<byte>, permitted: bool, outcome: Outcome) returns (ok: bool)
      requires Valid()
      modifies this
      ensures Valid() && history == old(history) + [Run(input, permitted, outcome)]
      ensures state ==
        if old(state) != Ready || !permitted then old(state)
        else if outcome.Trapped? || outcome.Completed? then Terminated
        else Running
      ensures log == old(log) +
        if old(state) == Ready && permitted && outcome.Completed? then [Trace(input, outcome.exitCode)] else []
      ensures hasInstance == old(hasInstance) && streams == old(streams) && nextStream == old(nextStream)
      ensures ok <==> old(state) == Ready && permitted && outcome.Completed?
    {
      hide After;
      AfterMore(history, Run(input, permitted, outcome));
      history := history + [Run(input, permitted, outcome)];
      if state != Ready || !permitted {
        return false;
      }
      state := Running;
      if outcome.InstantiateFailed? || outcome.Interrupted? {
        return false;
      }
      state := Terminated;
      match outcome {
        case Completed(code) =>
          log := log + [Trace(input, code)];
          return true;
        case _ =>
          return false;
      }
    }

    method CallExport(permitted: bool, outcome: Outcome) returns (ok: bool)
      requires Valid()
      modifies this
      ensures Valid() && history == old(history) + [CallFunction(permitted, outcome)]
      ensures
        if old(state) != Ready || !permitted then state == old(state) && hasInstance == old(hasInstance)
        else if outcome.Interrupted? || (outcome.InstantiateFailed? && !old(hasInstance)) then
          state == Running && hasInstance == old(hasInstance)
        else state == Ready && hasInstance
      ensures log == old(log) && streams == old(streams) && nextStream == old(nextStream)
      ensures ok <==> old(state) == Ready && permitted && outcome.Completed?
    {
      hide After;
      AfterMore(history, CallFunction(permitted, outcome));
      history := history + [CallFunction(permitted, outcome)];
      if state != Ready || !permitted {
        return false;
      }
      state := Running;
      if outcome.Interrupted? {
        return false;
      }
      if !hasInstance {
        if outcome.InstantiateFailed? {
          return false;
        }
        hasInstance := true;
      }
      state := Ready;
      return outcome.Completed?;
    }

    method StartStreaming(input: seq<byte>, permitted: bool, instantiated: bool) returns (ok: bool)
      requires Valid()
      modifies this
      ensures Valid() && history == old(history) + [RunStreaming(input, permitted, instantiated)]
      ensures
        if old(state) != Ready || !permitted then
          state == old(state) && streams == old(streams) && nextStream == old(nextStream)
        else if !instantiated then state == Running && streams == old(streams) && nextStream == old(nextStream)
        else
          && state == Terminated && streams == old(streams)[old(nextStream) := input]
          && nextStream == old(nextStream) + 1
      ensures log == old(log) && hasInstance == old(hasInstance)
      ensures ok <==> old(state) == Ready && permitted && instantiated
    {
      hide After;
      AfterMore(history, RunStreaming(input, permitted, instantiated));
      history := history + [RunStreaming(input, permitted, instantiated)];
      if state != Ready || !permitted {
        return false;
      }
      state := Running;
      if !instantiated {
        return false;
      }
      streams := streams[nextStream := input];
      nextStream := nextStream + 1;
      state := Terminated;
      return true;
    }

    method RunInputs(inputs: seq<seq<byte>>, interrupted: bool) returns (ok: bool)
      requires Valid()
      modifies this
      ensures Valid() && history == old(history) + [RunBatch(inputs, interrupted)]
      ensures state ==
        if old(state) != Ready || inputs == [] then old(state) else if interrupted then Running else Terminated
      ensures log == old(log) && hasInstance == old(hasInstance)
      ensures streams == old(streams) && nextStream == old(nextStream)
      ensures ok <==> old(state) == Ready && (inputs == [] || !interrupted)
    {
      hide After;
      AfterMore(history, RunBatch(inputs, interrupted));
      history := history + [RunBatch(inputs, interrupted)];
      if state != Ready {
        return false;
      }
      if inputs == [] {
        return true;
      }
      state := Running;
      if interrupted {
        return false;
      }
      state := Terminated;
      return true;
    }

    method TerminateNow() returns (ok: bool)
      requires Valid()
      modifies this
      ensures Valid() && history == old(history) + [Terminate]
      ensures state == (if old(state) == Running then Running else Terminated)
      ensures hasInstance == (old(hasInstance) && old(state) == Running)
      ensures log == old(log) && streams == old(streams) && nextStream == old(nextStream)
      ensures ok <==> old(state) != Running
    {
      hide After;
      AfterMore(history, Terminate);
      history := history + [Terminate];
      if state == Running {
        return false;
      }
      state := Terminated;
      hasInstance := false;
      return true;
    }

    method ResetToReady() returns (ok: bool)
      requires Valid()
      modifies this
      ensures Valid() && history == old(history) + [Reset]
      ensures state == (if old(state) == Terminated then Ready else old(state))
      ensures hasInstance == (old(hasInstance) && old(state) != Terminated)
      ensures log == old(log) && streams == old(streams) && nextStream == old(nextStream)
      ensures ok <==> old(state) == Terminated
    {
      hide After;
      AfterMore(history, Reset);
      history := history + [Reset];
      if state != Terminated {
        return false;
      }
      hasInstance := false;
      state := Ready;
      return true;
    }

    /** Run by the background task of a stream when its execution ends. */
    method FinishStream(id: nat, outcome: Outcome)
      requires Valid()
      modifies this
      ensures Valid() && history == old(history) + [StreamEnds(id, outcome)]
      ensures streams == old(streams) - {id}
      ensures log == old(log) +
        if id in old(streams) && outcome.Completed? then [Trace(old(streams)[id], outcome.exitCode)] else []
      ensures state == old(state) && hasInstance == old(hasInstance) && nextStream == old(nextStream)
    {
      hide After;
      AfterMore(history, StreamEnds(id, outcome));
      history := history + [StreamEnds(id, outcome)];
      if id in streams {
        if outcome.Completed? {
          log := log + [Trace(streams[id], outcome.exitCode)];
        }
        streams := streams - {id};
      }
    }
  }

  // ----- any sequence of calls

  lemma AfterMore(calls: seq<Call>, c: Call)
    ensures After(calls + [c]) == Next(After(calls), c)
  {
    assert (calls + [c])[..|calls|] == calls;
  }

  ghost predicate StartedAt(calls: seq<Call>, i: nat)
    requires i < |calls|
  {
    Starts(After(calls[..i]), calls[i])
  }

  ghost predicate ResetAt(calls: seq<Call>, i: nat)
    requires i < |calls|
  {
    calls[i].Reset? && After(calls[..i]).state == Terminated
  }

  ghost predicate ResetBetween(calls: seq<Call>, i: nat, j: nat)
    requires j <= |calls|
  {
    exists k | i < k < j :: ResetAt(calls, k)
  }

  /** After an execution started, the sandbox is not ready again before a successful reset. */
  lemma {:induction false} NotReadyUntilReset(calls: seq<Call>, i: nat, j: nat)
    requires i < j <= |calls| && StartedAt(calls, i) && !ResetBetween(calls, i, j)
    ensures After(calls[..j]).state != Ready
  {
    assert calls[..j] == calls[..j - 1] + [calls[j - 1]];
    AfterMore(calls[..j - 1], calls[j - 1]);
    if i + 1 < j {
      NotReadyUntilReset(calls, i, j - 1);
      assert !ResetAt(calls, j - 1);
    }
  }

  /** Any two executions started on one sandbox are separated by a successful reset. */
  lemma ExecutionsAreSeparatedByResets(calls: seq<Call>, i: nat, j: nat)
    requires i < j < |calls| && StartedAt(calls, i) && StartedAt(calls, j)
    ensures ResetBetween(calls, i, j)
  {
    if !ResetBetween(calls, i, j) {
      NotReadyUntilReset(calls, i, j);
    }
  }

  /** Once a call has left the sandbox running, it stays so: no call but the end of a stream has
      any effect. */
  lemma {:induction false} RunningIsAbsorbing(calls: seq<Call>, more: seq<Call>)
    requires After(calls).state == Running
    ensures After(calls + more).state == Running
    ensures forall c: Call :: !c.StreamEnds? ==> !Admitted(After(calls + more), c)
  {
    if more == [] {
      assert calls + more == calls;
    } else {
      var init := more[..|more| - 1];
      RunningIsAbsorbing(calls, init);
      assert calls + more == calls + init + [more[|more| - 1]];
      AfterMore(calls + init, more[|more| - 1]);
    }
  }

  /** A call that starts an execution leaves the sandbox terminated exactly if it got as far as
      running it; a failed instantiation or an interruption leaves it running. */
  lemma StartEndsTerminatedIff(calls: seq<Call>, c: Call)
    requires Starts(After(calls), c)
    ensures var s := After(calls + [c]).state;
      && (s == Running || s == Terminated)
      && (s == Terminated <==> match c
            case Run(_, _, outcome) => outcome.Trapped? || outcome.Completed?
            case RunStreaming(_, _, instantiated) => instantiated
            case RunBatch(_, interrupted) => !interrupted
            case _ => false)
  {
    AfterMore(calls, c);
  }

  /** After every history, an admitted call of an exported function leaves the sandbox ready again with a
      cached instance, or running if it was interrupted or could not be instantiated; it logs nothing.
      So after a call that ended, another permitted one is admitted, whatever the first one's result. */
  lemma CallsCanFollow(calls: seq<Call>, outcome: Outcome)
    requires After(calls).state == Ready
    ensures var before, s := After(calls), After(calls + [CallFunction(true, outcome)]);
      && s.log == before.log && s.streams == before.streams && s.nextStream == before.nextStream
      && (s.state == Running <==> outcome.Interrupted? || (outcome.InstantiateFailed? && !before.hasInstance))
      && (s.state != Running ==> s.state == Ready && s.hasInstance)
    ensures var s := After(calls + [CallFunction(true, outcome)]);
      s.state != Running ==> forall next :: Admitted(s, CallFunction(true, next)) && Admitted(s, Run([], true, next))
  {
    AfterMore(calls, CallFunction(true, outcome));
  }

  /** How many calls recorded a trace. */
  ghost function Recorded(calls: seq<Call>): nat {
    if calls == [] then 0
    else
      var init := calls[..|calls| - 1];
      Recorded(init) + if Records(After(init), calls[|calls| - 1]) then 1 else 0
  }

  lemma NextLog(s: Sandbox, c: Call)
    ensures s.log <= Next(s, c).log && |Next(s, c).log| == |s.log| + if Records(s, c) then 1 else 0
  {
  }

  /** The log only grows, across resets too, by one trace for each completed run or stream. */
  lemma {:induction false} LogOnlyGrows(calls: seq<Call>, more: seq<Call>)
    ensures After(calls).log <= After(calls + more).log
    ensures |After(calls + more).log| - |After(calls).log| == Recorded(calls + more) - Recorded(calls)
    decreases |more|
  {
    hide Next, After, Records;
    if more == [] {
      assert calls + more == calls;
    } else {
      var init, c := more[..|more| - 1], more[|more| - 1];
      LogOnlyGrows(calls, init);
      assert calls + more == calls + init + [c];
      assert (calls + more)[..|calls + more| - 1] == calls + init;
      AfterMore(calls + init, c);
      NextLog(After(calls + init), c);
    }
  }

  /** A stream under way has an id below the next one to be given. */
  lemma {:induction false} StreamIdsAreFresh(calls: seq<Call>)
    ensures forall id | id in After(calls).streams :: id < After(calls).nextStream
  {
    if calls != [] {
      StreamIdsAreFresh(calls[..|calls| - 1]);
    }
  }

  /** A started stream takes the next id, which no stream under way has, and ids are never given twice. */
  lemma StreamTakesNextId(calls: seq<Call>, c: Call)
    requires c.RunStreaming? && c.instantiated && Admitted(After(calls), c)
    ensures After(calls).nextStream !in After(calls).streams
    ensures After(calls + [c]).streams == After(calls).streams[After(calls).nextStream := c.input]
    ensures After(calls + [c]).nextStream == After(calls).nextStream + 1
  {
    StreamIdsAreFresh(calls);
    AfterMore(calls, c);
  }

  lemma NextStreams(s: Sandbox, c: Call)
    ensures s.nextStream <= Next(s, c).nextStream
    ensures forall id | id in Next(s, c).streams :: id in s.streams || id == s.nextStream
  {
  }

  /** Given ids stay given, and a stream that is no longer under way never is again. */
  lemma {:induction false} StreamStaysEnded(calls: seq<Call>, more: seq<Call>, id: nat)
    requires id < After(calls).nextStream && id !in After(calls).streams
    ensures id < After(calls).nextStream <= After(calls + more).nextStream && id !in After(calls + more).streams
    decreases |more|
  {
    hide Next, After;
    if more == [] {
      assert calls + more == calls;
    } else {
      var init, c := more[..|more| - 1], more[|more| - 1];
      StreamStaysEnded(calls, init, id);
      assert calls + more == calls + init + [c];
      AfterMore(calls + init, c);
      NextStreams(After(calls + init), c);
    }
  }

  /** Every stream ends at most once. */
  lemma StreamEndsOnce(calls: seq<Call>, i: nat, j: nat)
    requires i < j < |calls| && calls[i].StreamEnds? && calls[j].StreamEnds? && calls[i].id == calls[j].id
    requires Admitted(After(calls[..i]), calls[i])
    ensures !Admitted(After(calls[..j]), calls[j])
  {
    StreamIdsAreFresh(calls[..i]);
    AfterMore(calls[..i], calls[i]);
    assert calls[..i] + [calls[i]] == calls[..i + 1];
    assert calls[..i + 1] + calls[i + 1..j] == calls[..j];
    StreamStaysEnded(calls[..i + 1], calls[i + 1..j], calls[i].id);
  }
}
