/** What every execution of a built pipeline does, in terms of the declared edges. */
module PipelineRuns {
  import opened Common
  import opened PipelineGraph
  import opened PipelineBuilder
  import opened PipelineExecute

  /** es[n] is the first declared edge into `id`. */
  ghost predicate IsFirstInto(es: seq<Edge>, n: nat, id: StageId) {
    n < |es| && es[n].target == id && forall m | 0 <= m < n :: es[m].target != id
  }

  lemma {:induction false} OutOfPrefix(es: seq<Edge>, n: nat, u: StageId)
    requires n <= |es|
    ensures OutOf(es[..n], u) <= OutOf(es, u)
  {
    if n < |es| {
      assert es[..|es| - 1][..n] == es[..n];
      OutOfPrefix(es[..|es| - 1], n, u);
    } else {
      assert es[..n] == es;
    }
  }

  lemma {:induction false} IntoOfPrefix(es: seq<Edge>, n: nat, v: StageId)
    requires n <= |es|
    ensures IntoOf(es[..n], v) <= IntoOf(es, v)
  {
    if n < |es| {
      assert es[..|es| - 1][..n] == es[..n];
      IntoOfPrefix(es[..|es| - 1], n, v);
    } else {
      assert es[..n] == es;
    }
  }

  /** Before the first edge into `id`, nothing routes to it. */
  lemma {:induction false} NoEarlierRoute(es: seq<Edge>, id: StageId, u: StageId, outputs: map<StageId, Output>)
    requires forall m | 0 <= m < |es| :: es[m].target != id
    ensures RouteVia(OutOf(es, u), id, u, outputs) == None
    ensures IntoOf(es, id) == []
  {
    if es != [] {
      var init, e := es[..|es| - 1], es[|es| - 1];
      NoEarlierRoute(init, id, u, outputs);
      if e.source == u {
        assert OutOf(es, u)[..|OutOf(es, u)| - 1] == OutOf(init, u);
      } else {
        assert OutOf(es, u) == OutOf(init, u);
      }
      assert IntoOf(es, id) == IntoOf(init, id);
    }
  }

  /** What an edge prescribes for its target's stdin. */
  function SourceOf(e: Edge): Source {
    if e.flow == PassThrough then FromInput else FromStage(e.source)
  }

  /** Among the out-edges of its source, the first declared edge is the first one usable. */
  lemma FirstVia(es: seq<Edge>, n: nat, id: StageId, outputs: map<StageId, Output>)
    requires IsFirstInto(es, n, id)
    requires es[n].flow == PassThrough || es[n].source in outputs
    ensures RouteVia(OutOf(es, es[n].source), id, es[n].source, outputs) == Some(SourceOf(es[n]))
  {
    hide OutOf;
    var e, init := es[n], es[..n];
    var before := OutOf(init, e.source);
    NoEarlierRoute(init, id, e.source, outputs);
    assert es[..n + 1] == init + [Edge(e.source, e.target, e.flow, e.condition)];
    OneMoreDeclaration(init, e.source, e.target, e.flow, e.condition, e.source);
    var via := before + [OutEdge(e.target, e.flow, e.condition)];
    LastIsUsable(before, via[|before|], id, e.source, outputs);
    hide RouteVia;
    OutOfPrefix(es, n + 1, e.source);
    assert OutOf(es, e.source)[..|via|] == via;
    RouteViaFirst(OutOf(es, e.source), |via|, id, e.source, outputs);
  }

  lemma LastIsUsable(before: seq<OutEdge>, e: OutEdge, id: StageId, up: StageId, outputs: map<StageId, Output>)
    requires RouteVia(before, id, up, outputs) == None && e.target == id
    requires e.flow == PassThrough || up in outputs
    ensures RouteVia(before + [e], id, up, outputs) == Some(if e.flow == PassThrough then FromInput else FromStage(up))
  {
    assert (before + [e])[..|before|] == before;
  }

  /** Its source is listed first among the upstream stages. */
  lemma FirstUpstream(es: seq<Edge>, n: nat, id: StageId)
    requires IsFirstInto(es, n, id)
    ensures IntoOf(es, id) != [] && IntoOf(es, id)[0] == es[n].source
  {
    assert es[..n + 1][..n] == es[..n];
    NoEarlierRoute(es[..n], id, id, map[]);
    assert IntoOf(es[..n + 1], id) == [es[n].source];
    IntoOfPrefix(es, n + 1, id);
  }

  /** The routing loops settle on the first declared edge into the stage, provided that
      edge passes the input through or its source has run. */
  lemma FirstEdgeRoutes(d: Definition, stages: map<StageId, Stage>, es: seq<Edge>, n: nat, id: StageId,
                        outputs: map<StageId, Output>)
    requires Represents(d, stages, es) && IsFirstInto(es, n, id)
    requires es[n].flow == PassThrough || es[n].source in outputs
    ensures StageRoute(d, id, outputs) == Some(SourceOf(es[n]))
  {
    hide OutOf, IntoOf, RouteVia;
    var u, ups := es[n].source, IntoOf(es, id);
    FirstVia(es, n, id, outputs);
    FirstUpstream(es, n, id);
    assert RepresentsAt(d, es, u) && RepresentsAt(d, es, id);
    assert ups[..1] == [u];
    assert [u][..0] == [];
    assert Route(d, [u], id, outputs) == RouteVia(Lookup(d.edges, u), id, u, outputs);
    RouteFirst(d, ups, 1, id, outputs);
  }

  lemma {:induction false} OutputsByStage(results: seq<StageResult>, j: nat)
    requires j < |results|
    requires forall a, b | 0 <= a < b < |results| :: results[a].stageId != results[b].stageId
    ensures results[j].stageId in OutputsOf(results)
    ensures OutputsOf(results)[results[j].stageId] == results[j].output
  {
    if j < |results| - 1 {
      OutputsByStage(results[..|results| - 1], j);
    }
  }

  /** Stage u ran among `results`, with exit code zero. */
  ghost predicate Succeeded(results: seq<StageResult>, u: StageId) {
    exists j | 0 <= j < |results| :: results[j].stageId == u && results[j].output.exitCode == 0
  }

  /** What the declarations say a stage's stdin is, given the results so far: the pipeline
      input if no edge leads to the stage, else what its first declared edge prescribes. */
  ghost predicate StdinAsDeclared(es: seq<Edge>, input: seq<byte>, results: seq<StageResult>, id: StageId, stdin: seq<byte>) {
    && ((forall m | 0 <= m < |es| :: es[m].target != id) ==> stdin == input)
    && (forall n: nat | IsFirstInto(es, n, id) ::
          if es[n].flow == PassThrough then stdin == input
          else exists j | 0 <= j < |results| ::
            results[j].stageId == es[n].source && stdin == results[j].output.stdout)
  }

  lemma {:induction false} FirstIntoExists(es: seq<Edge>, m: nat, id: StageId) returns (n: nat)
    requires m < |es| && es[m].target == id
    ensures IsFirstInto(es, n, id)
  {
    if i: nat :| i < m && es[i].target == id {
      n := FirstIntoExists(es, i, id);
    } else {
      n := m;
    }
  }

  /** Every upstream stage of a run stage ran earlier, with exit code zero. */
  lemma UpstreamSucceeded(d: Definition, stages: map<StageId, Stage>, es: seq<Edge>, input: seq<byte>, run: Oracle,
                          order: seq<StageId>, results: seq<StageResult>, k: nat, u: StageId)
    requires Represents(d, stages, es) && ExecutionOrder(d, order)
    requires RanInOrder(d, input, run, order, results) && k <= |results| && k < |order| && AllZero(results[..k])
    requires Declared(es, u, order[k])
    ensures Succeeded(results[..k], u)
  {
    EdgesAreDeclared(d, stages, es, u, order[k]);
    assert PredecessorsIn(d, order[k], order[..k]);
    var j :| 0 <= j < k && order[j] == u;
    assert ResultAt(d, input, run, order, results, j);
    assert results[..k][j].stageId == u;
  }

  /** In every execution of a built pipeline, stage order[k] gets the stdin its declared edges
      prescribe.  The routing loops find an edge exactly for the stages with upstreams; the others
      have left before them, so the fallback behind the loops is never reached. */
  lemma StdinFollowsDeclarations(d: Definition, stages: map<StageId, Stage>, es: seq<Edge>, input: seq<byte>, run: Oracle,
                                 order: seq<StageId>, results: seq<StageResult>, k: nat)
    requires Represents(d, stages, es) && ExecutionOrder(d, order)
    requires RanInOrder(d, input, run, order, results) && k <= |results| && k < |order| && AllZero(results[..k])
    ensures StdinAsDeclared(es, input, results[..k], order[k], Stdin(d, input, OutputsOf(results[..k]), order[k]))
    ensures StageRoute(d, order[k], OutputsOf(results[..k])).None? <==> forall u :: !Declared(es, u, order[k])
    ensures Lookup(d.reverseEdges, order[k]) != [] ==> StageRoute(d, order[k], OutputsOf(results[..k])).Some?
  {
    var id, before := order[k], results[..k];
    var outputs := OutputsOf(before);
    assert RepresentsAt(d, es, id);
    if forall m | 0 <= m < |es| :: es[m].target != id {
      NoEarlierRoute(es, id, id, outputs);
    } else {
      var m :| 0 <= m < |es| && es[m].target == id;
      var n := FirstIntoExists(es, m, id);
      assert Declared(es, es[n].source, id);
      FirstSourceRan(d, stages, es, input, run, order, results, k, n);
      hide Represents, RepresentsAt, ExecutionOrder, RanInOrder, AllZero, OutputsOf;
      FirstEdgeRoutes(d, stages, es, n, id, outputs);
      hide StageRoute;
      assert forall n': nat | IsFirstInto(es, n', id) :: n' == n;
    }
  }

  /** The source of the first edge into a stage that ran is among the earlier results. */
  lemma FirstSourceRan(d: Definition, stages: map<StageId, Stage>, es: seq<Edge>, input: seq<byte>, run: Oracle,
                       order: seq<StageId>, results: seq<StageResult>, k: nat, n: nat)
    requires Represents(d, stages, es) && ExecutionOrder(d, order)
    requires RanInOrder(d, input, run, order, results) && k <= |results| && k < |order| && AllZero(results[..k])
    requires IsFirstInto(es, n, order[k])
    ensures var outputs := OutputsOf(results[..k]);
      es[n].source in outputs && exists j | 0 <= j < k ::
        results[..k][j].stageId == es[n].source && outputs[es[n].source].stdout == results[..k][j].output.stdout
  {
    var before, u := results[..k], es[n].source;
    assert Declared(es, u, order[k]);
    UpstreamSucceeded(d, stages, es, input, run, order, results, k, u);
    var j :| 0 <= j < |before| && before[j].stageId == u && before[j].output.exitCode == 0;
    forall a | 0 <= a < k
      ensures before[a].stageId == order[a]
    {
      assert ResultAt(d, input, run, order, results, a);
    }
    OutputsByStage(before, j);
  }

  /** An execution of a built pipeline that returns a result: the stages run are a prefix of
      a topological order of all stages, each with the outcome its retries yield on its
      declared stdin, after all its upstreams; and success means every stage exited with zero. */
  lemma ExecutionsOfBuiltPipelines(d: Definition, stages: map<StageId, Stage>, es: seq<Edge>, input: seq<byte>, run: Oracle,
                                   order: seq<StageId>, p: PipelineResult)
    requires Represents(d, stages, es) && EndpointsKnown(stages, es) && ExecutionOrder(d, order)
    requires RanInOrder(d, input, run, order, p.stageResults) && Finished(order, p)
    ensures forall v | v in stages :: v in order
    ensures p.success <==>
      |p.stageResults| == |stages| && forall k | 0 <= k < |stages| :: p.stageResults[k].output.exitCode == 0
    ensures forall k | 0 <= k < |p.stageResults| - 1 :: p.stageResults[k].output.exitCode == 0
    ensures p.failedStage.None? <==> p.success
    ensures p.failedStage.Some? ==>
      var last := p.stageResults[|p.stageResults| - 1];
      p.failedStage == Some(last.stageId) && last.output.exitCode != 0
    ensures forall k | 0 <= k < |p.stageResults| ::
      && p.stageResults[k].stageId == order[k] && order[k] in stages
      && (forall u | Declared(es, u, order[k]) :: Succeeded(p.stageResults[..k], u))
      && exists stdin ::
        && StdinAsDeclared(es, input, p.stageResults[..k], order[k], stdin)
        && StageOutcome(stages[order[k]], stdin, run, Ok((p.stageResults[k].output, p.stageResults[k].retries)))
  {
    WellFormedIffKnown(d, stages, es);
    ScheduleCountsDecide(d, order);
    var rs := p.stageResults;
    forall k | 0 <= k < |rs| - 1
      ensures rs[k].output.exitCode == 0
    {
      assert AllZero(rs) || rs[..|rs| - 1][k] == rs[k];
    }
    forall k | 0 <= k < |rs|
      ensures rs[k].stageId == order[k] && order[k] in stages
      ensures forall u | Declared(es, u, order[k]) :: Succeeded(rs[..k], u)
      ensures exists stdin ::
        && StdinAsDeclared(es, input, rs[..k], order[k], stdin)
        && StageOutcome(stages[order[k]], stdin, run, Ok((rs[k].output, rs[k].retries)))
    {
      assert AllZero(rs[..k]);
      assert ResultAt(d, input, run, order, rs, k);
      forall u | Declared(es, u, order[k]) {
        UpstreamSucceeded(d, stages, es, input, run, order, rs, k, u);
      }
      StdinFollowsDeclarations(d, stages, es, input, run, order, rs, k);
    }
  }

  /** An error Execute reports: no complete order, or a run that ended early. */
  ghost predicate Reported(d: Definition, input: seq<byte>, run: Oracle, e: ExecuteError) {
    if e.Unordered? then exists s :: IsMaximalSchedule(d, s) && |s| != |d.stages|
    else exists order, results :: ExecutionOrder(d, order) && Aborted(d, input, run, order, results, e)
  }

  /** Executing a built pipeline fails in one way only: some stage, reached with all its upstreams
      at exit code zero, could not be created, went on failing until its retries were used up, or failed
      with a delay that panics. */
  lemma ErrorsOfBuiltPipelines(d: Definition, stages: map<StageId, Stage>, es: seq<Edge>, input: seq<byte>, run: Oracle,
                               e: ExecuteError)
    returns (order: seq<StageId>, results: seq<StageResult>)
    requires Represents(d, stages, es) && EndpointsKnown(stages, es) && !exists p :: IsDeclaredCycle(es, p)
    requires Reported(d, input, run, e)
    ensures e.StageFailed? && ExecutionOrder(d, order) && RanInOrder(d, input, run, order, results) && AllZero(results)
    ensures |results| < |order| && order[|results|] in stages
    ensures forall u | Declared(es, u, order[|results|]) :: Succeeded(results, u)
    ensures exists stdin ::
      && StdinAsDeclared(es, input, results, order[|results|], stdin)
      && StageOutcome(stages[order[|results|]], stdin, run, Err(e.failure))
  {
    WellFormedIffKnown(d, stages, es);
    CyclicIffDeclared(d, stages, es);
    if e.Unordered? {
      var s :| IsMaximalSchedule(d, s) && |s| != |d.stages|;
      ScheduleCountsDecide(d, s);
      assert false;
    } else {
      order, results :| ExecutionOrder(d, order) && Aborted(d, input, run, order, results, e);
      ScheduleCountsDecide(d, order);
      var k := |results|;
      assert order[k] in order && IsNode(d, order[k]);
      assert results[..k] == results;
      forall u | Declared(es, u, order[k]) {
        UpstreamSucceeded(d, stages, es, input, run, order, results, k, u);
      }
      StdinFollowsDeclarations(d, stages, es, input, run, order, results, k);
    }
  }

  // ----- entry and exit stages

  function EntryStages(d: Definition): set<StageId> {
    set id | id in d.stages && Lookup(d.reverseEdges, id) == []
  }

  function ExitStages(d: Definition): set<StageId> {
    set id | id in d.stages && Lookup(d.edges, id) == []
  }

  /** The entry stages are those into which no edge is declared, the exit stages those out of which
      none is. */
  lemma EntryAndExitDeclared(d: Definition, stages: map<StageId, Stage>, es: seq<Edge>, id: StageId)
    requires Represents(d, stages, es)
    ensures id in EntryStages(d) <==> id in stages && forall e | e in es :: e.target != id
    ensures id in ExitStages(d) <==> id in stages && forall e | e in es :: e.source != id
  {
    assert RepresentsAt(d, es, id);
    if IntoOf(es, id) != [] {
      IntoOfSources(es, id, IntoOf(es, id)[0]);
    }
    if OutOf(es, id) != [] {
      OutOfTargets(es, id, OutOf(es, id)[0].target);
    }
    forall e | e in es
      ensures e.target == id ==> e.source in IntoOf(es, id)
      ensures e.source == id ==> Targets(OutOf(es, id), e.target)
    {
      IntoOfSources(es, id, e.source);
      OutOfTargets(es, id, e.target);
    }
  }

  /** Every execution order of a built pipeline starts at an entry stage and ends at an exit stage. */
  lemma OrdersRunFromEntryToExit(d: Definition, stages: map<StageId, Stage>, es: seq<Edge>, order: seq<StageId>)
    requires Represents(d, stages, es) && EndpointsKnown(stages, es) && |stages| > 0 && ExecutionOrder(d, order)
    ensures order[0] in EntryStages(d) && order[|order| - 1] in ExitStages(d)
  {
    WellFormedIffKnown(d, stages, es);
    ScheduleCountsDecide(d, order);
    var first, last := order[0], order[|order| - 1];
    assert order[0] in order && order[|order| - 1] in order;
    assert IsNode(d, first) && IsNode(d, last);
    assert forall u | HasEdge(d, u, first) :: u in order[..0] by {
      assert PredecessorsIn(d, order[0], order[..0]);
    }
    if Lookup(d.reverseEdges, first) != [] {
      EdgesAreDeclared(d, stages, es, Lookup(d.reverseEdges, first)[0], first);
    }
    forall v | v in order
      ensures !HasEdge(d, last, v)
    {
      var j :| 0 <= j < |order| && order[j] == v;
      assert PredecessorsIn(d, order[j], order[..j]);
      assert last !in order[..j];
    }
    assert Lookup(d.edges, last) != [] ==> HasEdge(d, last, d.edges[last][0].target);
  }
}
