/** The RPC circuit breaker: its counters, and what they say about the history of calls. */
module CircuitBreaker {
  import opened Common

  datatype CircuitState = Closed | Open | HalfOpen

  datatype Config = Config(failureThreshold: nat, openDuration: nat, successThreshold: nat)

  datatype State = State(circuit: CircuitState, failureCount: nat, successCount: nat, lastFailure: Option<int>)

  const INITIAL := State(Closed, 0, 0, None)

  /** What happens to a breaker; times are instants of a monotonic clock. */
  datatype Event = Allow(now: int) | Success | Failure(now: int)

  // ----- the breaker as a function of its events

  predicate Allowed(cfg: Config, s: State, now: int) {
    match s.circuit
    case Closed => true
    case Open => s.lastFailure.Some? && now - s.lastFailure.value >= cfg.openDuration
    case HalfOpen => true
  }

  function Next(cfg: Config, s: State, e: Event): State {
    match e
    case Allow(now) =>
      if s.circuit == Open && Allowed(cfg, s, now) then s.(circuit := HalfOpen, successCount := 0) else s
    case Success =>
      (match s.circuit
       case HalfOpen =>
         var n := s.successCount + 1;
         if n >= cfg.successThreshold then s.(circuit := Closed, failureCount := 0, successCount := n)
         else s.(successCount := n)
       case Closed => s.(failureCount := 0)
       case Open => s)
    case Failure(now) =>
      var n := s.failureCount + 1;
      State(if n >= cfg.failureThreshold then Open else s.circuit, n, s.successCount, Some(now))
  }

  function Replay(cfg: Config, history: seq<Event>): State {
    if history == [] then INITIAL
    else Next(cfg, Replay(cfg, history[..|history| - 1]), history[|history| - 1])
  }

  /** `history` is what has happened to the breaker so far; the other fields are its own. */
  class Breaker {
    const config: Config
    ghost var history: seq<Event>
    var circuit: CircuitState
    var failureCount: nat
    var successCount: nat
    var lastFailure: Option<int>

    ghost function Model(): State
      reads this
    {
      State(circuit, failureCount, successCount, lastFailure)
    }

    ghost predicate Valid()
      reads this
    {
      Model() == Replay(config, history)
    }

    constructor (config: Config)
      ensures Valid() && this.config == config && history == []
    {
      this.config, history := config, [];
      circuit, failureCount, successCount, lastFailure := Closed, 0, 0, None;
    }

    /** The answer depends on the history alone: open, only the time since the latest failure counts. */
    method AllowRequest(now: int) returns (allowed: bool)
      requires Valid()
      modifies this
      ensures Valid() && history == old(history) + [Allow(now)]
      ensures allowed <==>
        (old(circuit) == Open ==> LatestFailure(history).Some? && now >= LatestFailure(history).value + config.openDuration)
      ensures circuit == if old(circuit) == Open && allowed then HalfOpen else old(circuit)
      ensures successCount == if old(circuit) == Open && allowed then 0 else old(successCount)
      ensures failureCount == old(failureCount) && lastFailure == old(lastFailure)
    {
      CountersReflectHistory(config, history);
      ReplayMore(config, history, Allow(now));
      history := history + [Allow(now)];
      assert history[..|history| - 1] == old(history);
      match circuit {
        case Closed => return true;
        case Open =>
          if lastFailure.Some? && now - lastFailure.value >= config.openDuration {
            circuit := HalfOpen;
            successCount := 0;
            return true;
          }
          return false;
        case HalfOpen => return true;
      }
    }

    /** A success closes the breaker only from half-open, after enough of them in a row. */
    method RecordSuccess()
      requires Valid()
      modifies this
      ensures Valid() && history == old(history) + [Success]
      ensures circuit != old(circuit) ==>
        old(circuit) == HalfOpen && circuit == Closed && TrailingSuccesses(history) >= AtLeastOne(config.successThreshold)
      ensures old(circuit) == HalfOpen ==>
        && successCount == old(successCount) + 1
        && circuit == (if successCount >= AtLeastOne(config.successThreshold) then Closed else HalfOpen)
      ensures old(circuit) != HalfOpen ==> successCount == old(successCount)
      ensures failureCount == if circuit == Closed then 0 else old(failureCount)
      ensures lastFailure == old(lastFailure)
    {
      CountersReflectHistory(config, history);
      ReplayMore(config, history, Success);
      history := history + [Success];
      match circuit {
        case HalfOpen =>
          successCount := successCount + 1;
          if successCount >= config.successThreshold {
            circuit := Closed;
            failureCount := 0;
          }
        case Closed =>
          failureCount := 0;
        case Open =>
      }
    }

    /** A failure leaves the breaker closed exactly while the failures in a row stay below the threshold. */
    method RecordFailure(now: int)
      requires Valid()
      modifies this
      ensures Valid() && history == old(history) + [Failure(now)]
      ensures circuit == Closed <==>
        old(circuit) == Closed && TrailingFailures(history) < AtLeastOne(config.failureThreshold)
      ensures circuit == Closed || circuit == Open
      ensures failureCount == old(failureCount) + 1 && lastFailure == Some(now) && successCount == old(successCount)
    {
      CountersReflectHistory(config, history);
      ReplayMore(config, history, Failure(now));
      history := history + [Failure(now)];
      assert history[..|history| - 1] == old(history);
      failureCount := failureCount + 1;
      lastFailure := Some(now);
      if failureCount >= config.failureThreshold {
        circuit := Open;
      }
    }
  }

  // ----- the history of outcomes

  /** How many of the latest outcomes are failures without a success in between. */
  ghost function TrailingFailures(history: seq<Event>): nat {
    if history == [] then 0
    else
      var init := history[..|history| - 1];
      match history[|history| - 1]
      case Allow(_) => TrailingFailures(init)
      case Success => 0
      case Failure(_) => TrailingFailures(init) + 1
  }

  ghost function TrailingSuccesses(history: seq<Event>): nat {
    if history == [] then 0
    else
      var init := history[..|history| - 1];
      match history[|history| - 1]
      case Allow(_) => TrailingSuccesses(init)
      case Success => TrailingSuccesses(init) + 1
      case Failure(_) => 0
  }

  ghost function LatestFailure(history: seq<Event>): Option<int> {
    if history == [] then None
    else
      match history[|history| - 1]
      case Failure(now) => Some(now)
      case _ => LatestFailure(history[..|history| - 1])
  }

  /** In every reachable state the counters say this about the outcomes so far. */
  ghost predicate Reflects(cfg: Config, s: State, history: seq<Event>) {
    && s.lastFailure == LatestFailure(history)
    && (s.circuit == Closed ==>
          s.failureCount == TrailingFailures(history) < AtLeastOne(cfg.failureThreshold))
    && (s.circuit != Closed ==> s.failureCount >= AtLeastOne(cfg.failureThreshold) && s.lastFailure.Some?)
    && (s.circuit == HalfOpen ==>
          s.successCount < AtLeastOne(cfg.successThreshold) && s.successCount <= TrailingSuccesses(history))
  }

  lemma {:induction false} CountersReflectHistory(cfg: Config, history: seq<Event>)
    ensures Reflects(cfg, Replay(cfg, history), history)
  {
    if history != [] {
      CountersReflectHistory(cfg, history[..|history| - 1]);
    }
  }

  lemma ReplayMore(cfg: Config, history: seq<Event>, e: Event)
    ensures Replay(cfg, history + [e]) == Next(cfg, Replay(cfg, history), e)
    ensures TrailingSuccesses(history + [e]) == match e
      case Allow(_) => TrailingSuccesses(history) case Success => TrailingSuccesses(history) + 1 case Failure(_) => 0
  {
    assert (history + [e])[..|history|] == history;
  }

  /** A closed breaker opens exactly when the failures in a row reach the threshold. */
  lemma TripsExactlyAtThreshold(cfg: Config, history: seq<Event>, now: int)
    requires Replay(cfg, history).circuit == Closed
    ensures Replay(cfg, history + [Failure(now)]).circuit
         == if TrailingFailures(history) + 1 >= AtLeastOne(cfg.failureThreshold) then Open else Closed
  {
    CountersReflectHistory(cfg, history);
    ReplayMore(cfg, history, Failure(now));
  }

  /** A breaker that is not closed closes only on a success that makes the latest
      successThreshold outcomes all successes. */
  lemma ClosesOnlyAfterSuccesses(cfg: Config, history: seq<Event>, e: Event)
    requires Replay(cfg, history).circuit != Closed && Replay(cfg, history + [e]).circuit == Closed
    ensures e == Success && Replay(cfg, history).circuit == HalfOpen
    ensures TrailingSuccesses(history + [e]) >= AtLeastOne(cfg.successThreshold)
  {
    CountersReflectHistory(cfg, history);
    ReplayMore(cfg, history, e);
  }

  lemma HalfOpenFailureReopens(cfg: Config, history: seq<Event>, now: int)
    requires Replay(cfg, history).circuit == HalfOpen
    ensures Replay(cfg, history + [Failure(now)]).circuit == Open
  {
    CountersReflectHistory(cfg, history);
    ReplayMore(cfg, history, Failure(now));
  }

  /** An open breaker admits a request exactly if the latest failure is long enough ago. */
  lemma {:induction false} OpenAdmitsExactlyAfterCooling(cfg: Config, history: seq<Event>, now: int)
    requires Replay(cfg, history).circuit == Open
    ensures LatestFailure(history).Some?
    ensures Allowed(cfg, Replay(cfg, history), now) <==> now >= LatestFailure(history).value + cfg.openDuration
  {
    CountersReflectHistory(cfg, history);
  }

  /** Requests before `until`, failures not before `since`. */
  ghost predicate Within(events: seq<Event>, since: int, until: int) {
    forall k | 0 <= k < |events| :: match events[k]
      case Allow(now) => now < until
      case Success => true
      case Failure(now) => now >= since
  }

  /** Until openDuration after the failure that opened it has passed, an open breaker stays open
      and admits nothing, whatever is asked of it and whatever late outcomes come in. */
  lemma {:induction false} StaysOpenWhileCooling(cfg: Config, history: seq<Event>, since: int, events: seq<Event>, now: int)
    requires Replay(cfg, history).circuit == Open && LatestFailure(history) == Some(since)
    requires Within(events, since, since + cfg.openDuration) && now < since + cfg.openDuration
    ensures var s := Replay(cfg, history + events);
      s.circuit == Open && s.lastFailure.Some? && s.lastFailure.value >= since && !Allowed(cfg, s, now)
  {
    CountersReflectHistory(cfg, history);
    if events == [] {
      assert history + events == history;
    } else {
      var init, e := events[..|events| - 1], events[|events| - 1];
      StaysOpenWhileCooling(cfg, history, since, init, if e.Allow? then e.now else now);
      CountersReflectHistory(cfg, history + init);
      assert history + events == history + init + [e];
      ReplayMore(cfg, history + init, e);
    }
  }

  // ----- half-open: counting the successes since

  /** How many of the events are successes. */
  ghost function Successes(events: seq<Event>): nat {
    if events == [] then 0
    else Successes(events[..|events| - 1]) + if events[|events| - 1].Success? then 1 else 0
  }

  /** Requests and successes in any order, but no failure. */
  ghost predicate NoFailure(events: seq<Event>) {
    forall k | 0 <= k < |events| :: !events[k].Failure?
  }

  lemma SuccessesMore(events: seq<Event>, e: Event)
    ensures Successes(events + [e]) == Successes(events) + if e.Success? then 1 else 0
    ensures Successes([]) == 0
  {
    assert (events + [e])[..|events|] == events;
  }

  /** After cooling, an admitted request half-opens the breaker; from then on, over any requests and
      successes, it counts exactly the successes, and closes exactly when they reach the threshold. */
  lemma {:induction false} RecoversExactly(cfg: Config, history: seq<Event>, now: int, events: seq<Event>)
    requires Replay(cfg, history).circuit == Open && LatestFailure(history).Some?
    requires now >= LatestFailure(history).value + cfg.openDuration && NoFailure(events)
    ensures var s := Replay(cfg, history + [Allow(now)] + events);
      if Successes(events) >= AtLeastOne(cfg.successThreshold) then s.circuit == Closed
      else s.circuit == HalfOpen && s.successCount == Successes(events)
  {
    var start := history + [Allow(now)];
    if events == [] {
      OpenAdmitsExactlyAfterCooling(cfg, history, now);
      ReplayMore(cfg, history, Allow(now));
      assert start + events == start;
    } else {
      var init, e := events[..|events| - 1], events[|events| - 1];
      RecoversExactly(cfg, history, now, init);
      assert start + events == start + init + [e];
      ReplayMore(cfg, start + init, e);
    }
  }

  lemma HalfOpenStep(cfg: Config, init: seq<Event>, e: Event)
    requires Replay(cfg, init + [e]).circuit == HalfOpen
    ensures var s, s' := Replay(cfg, init), Replay(cfg, init + [e]);
      || (s.circuit == HalfOpen && !e.Failure? && s'.successCount == s.successCount + if e.Success? then 1 else 0)
      || (s.circuit == Open && e.Allow? && s'.successCount == 0)
    ensures Replay(cfg, init + [e]).successCount < AtLeastOne(cfg.successThreshold)
  {
    CountersReflectHistory(cfg, init);
    CountersReflectHistory(cfg, init + [e]);
    hide Replay;
    ReplayMore(cfg, init, e);
  }

  lemma SliceMore(init: seq<Event>, e: Event, h: nat)
    requires h < |init|
    ensures var all := init + [e];
      && all[h] == init[h] && all[..h] == init[..h] && all[..h + 1] == init[..h + 1]
      && all[h + 1..] == init[h + 1..] + [e]
  {
  }

  /** A half-open breaker was half-opened by some request, nothing has failed since, and its count is
      that of the successes since. */
  lemma {:induction false} HalfOpenCountsSuccesses(cfg: Config, history: seq<Event>) returns (h: nat)
    requires Replay(cfg, history).circuit == HalfOpen
    ensures h < |history| && history[h].Allow? && NoFailure(history[h + 1..])
    ensures Replay(cfg, history[..h]).circuit == Open && Replay(cfg, history[..h + 1]).circuit == HalfOpen
    ensures Replay(cfg, history).successCount == Successes(history[h + 1..]) < AtLeastOne(cfg.successThreshold)
  {
    assert history != [];
    hide Replay, Successes;
    var init, e := history[..|history| - 1], history[|history| - 1];
    assert history == init + [e];
    HalfOpenStep(cfg, init, e);
    if Replay(cfg, init).circuit == HalfOpen {
      h := HalfOpenCountsSuccesses(cfg, init);
      SliceMore(init, e, h);
      SuccessesMore(init[h + 1..], e);
    } else {
      h := |init|;
      SuccessesMore([], e);
      assert history[..h] == init;
      assert history[..h + 1] == history && history[h + 1..] == [];
    }
  }

  /** After cooling, one admitted request and enough successes close the breaker again. */
  lemma RecoversAfterSuccesses(cfg: Config, history: seq<Event>, now: int)
    requires Replay(cfg, history).circuit == Open && LatestFailure(history).Some?
    requires now >= LatestFailure(history).value + cfg.openDuration
    ensures Replay(cfg, history + [Allow(now)] + seq(AtLeastOne(cfg.successThreshold), i => Success)).circuit == Closed
  {
    var n := AtLeastOne(cfg.successThreshold);
    AllSuccesses(n);
    RecoversExactly(cfg, history, now, seq(n, i => Success));
  }

  lemma {:induction false} AllSuccesses(n: nat)
    ensures Successes(seq(n, i => Success)) == n
  {
    if n > 0 {
      assert seq(n, i => Success)[..n - 1] == seq(n - 1, i => Success);
      AllSuccesses(n - 1);
    }
  }
}
