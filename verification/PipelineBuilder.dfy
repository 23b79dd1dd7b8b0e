/** The pipeline builder: declared stages and edges, and the definition they become. */
module PipelineBuilder {
  import opened Common
  import opened PipelineGraph
  import opened PipelineBuild

  // ----- what the two edge maps hold, in terms of the declared edges

  function OutOf(es: seq<Edge>, u: StageId): seq<OutEdge> {
    if es == [] then []
    else
      var e := es[|es| - 1];
      OutOf(es[..|es| - 1], u) + if e.source == u then [OutEdge(e.target, e.flow, e.condition)] else []
  }

  function IntoOf(es: seq<Edge>, v: StageId): seq<StageId> {
    if es == [] then []
    else
      var e := es[|es| - 1];
      IntoOf(es[..|es| - 1], v) + if e.target == v then [e.source] else []
  }

  /** Each declaration adds one entry, target, flow and condition as declared, at the end of its source's
      list, and its source at the end of its target's list; all other lists stay as they are. */
  lemma OneMoreDeclaration(es: seq<Edge>, source: StageId, target: StageId, flow: DataFlow, condition: BranchCondition,
                           u: StageId)
    ensures OutOf(es + [Edge(source, target, flow, condition)], u)
         == OutOf(es, u) + if u == source then [OutEdge(target, flow, condition)] else []
    ensures IntoOf(es + [Edge(source, target, flow, condition)], u)
         == IntoOf(es, u) + if u == target then [source] else []
    ensures OutOf([], u) == [] && IntoOf([], u) == []
  {
    assert (es + [Edge(source, target, flow, condition)])[..|es|] == es;
  }

  function Lookup<T>(m: map<StageId, seq<T>>, k: StageId): seq<T> {
    if k in m then m[k] else []
  }

  /** The forward and the reverse map list the declared edges in declaration order,
      and neither has an empty entry. */
  ghost predicate Represents(d: Definition, stages: map<StageId, Stage>, es: seq<Edge>) {
    d.stages == stages && forall k :: RepresentsAt(d, es, k)
  }

  ghost predicate RepresentsAt(d: Definition, es: seq<Edge>, k: StageId) {
    && Lookup(d.edges, k) == OutOf(es, k)
    && (k in d.edges <==> OutOf(es, k) != [])
    && Lookup(d.reverseEdges, k) == IntoOf(es, k)
    && (k in d.reverseEdges <==> IntoOf(es, k) != [])
  }

  ghost predicate Declared(es: seq<Edge>, u: StageId, v: StageId) {
    exists e | e in es :: e.source == u && e.target == v
  }

  lemma {:induction false} OutOfTargets(es: seq<Edge>, u: StageId, v: StageId)
    ensures Targets(OutOf(es, u), v) <==> Declared(es, u, v)
  {
    if es == [] {
    } else {
      var init, e := es[..|es| - 1], es[|es| - 1];
      assert es == init + [e];
      OutOfTargets(init, u, v);
      if e.source == u {
        TargetsExtend(OutOf(init, u), OutEdge(e.target, e.flow, e.condition));
        assert OutOf(es, u) == OutOf(init, u) + [OutEdge(e.target, e.flow, e.condition)];
      } else {
        assert OutOf(es, u) == OutOf(init, u);
      }
      assert Declared(es, u, v) <==> Declared(init, u, v) || (e.source == u && e.target == v);
    }
  }

  lemma {:induction false} IntoOfSources(es: seq<Edge>, v: StageId, u: StageId)
    ensures u in IntoOf(es, v) <==> Declared(es, u, v)
  {
    if es != [] {
      var init, e := es[..|es| - 1], es[|es| - 1];
      assert es == init + [e];
      IntoOfSources(init, v, u);
      assert Declared(es, u, v) <==> Declared(init, u, v) || (e.source == u && e.target == v);
    }
  }

  /** The edge relation of the definition is the declared one, and both maps agree on it. */
  lemma EdgesAreDeclared(d: Definition, stages: map<StageId, Stage>, es: seq<Edge>, u: StageId, v: StageId)
    requires Represents(d, stages, es)
    ensures HasEdge(d, u, v) <==> Declared(es, u, v)
    ensures u in Lookup(d.reverseEdges, v) <==> Declared(es, u, v)
  {
    OutOfTargets(es, u, v);
    IntoOfSources(es, v, u);
    assert RepresentsAt(d, es, u) && RepresentsAt(d, es, v);
  }

  // ----- what the builder promises, in terms of the declared edges alone

  ghost predicate EndpointsKnown(stages: map<StageId, Stage>, es: seq<Edge>) {
    forall e | e in es :: e.source in stages && e.target in stages
  }

  /** A closed walk along declared edges; a self-loop is one of length two. */
  ghost predicate IsDeclaredCycle(es: seq<Edge>, p: seq<StageId>) {
    && |p| >= 2 && p[0] == p[|p| - 1]
    && forall i | 0 <= i < |p| - 1 :: Declared(es, p[i], p[i + 1])
  }

  lemma WellFormedIffKnown(d: Definition, stages: map<StageId, Stage>, es: seq<Edge>)
    requires Represents(d, stages, es)
    ensures WellFormed(d) <==> EndpointsKnown(stages, es)
  {
    if WellFormed(d) {
      forall e | e in es
        ensures e.source in stages && e.target in stages
      {
        EdgesAreDeclared(d, stages, es, e.source, e.target);
        assert HasEdge(d, e.source, e.target);
      }
    }
    if EndpointsKnown(stages, es) {
      forall u | u in d.edges
        ensures u in d.stages && forall j | 0 <= j < |d.edges[u]| :: d.edges[u][j].target in d.stages
      {
        assert RepresentsAt(d, es, u);
        forall j | 0 <= j < |d.edges[u]|
          ensures u in d.stages && d.edges[u][j].target in d.stages
        {
          assert HasEdge(d, u, d.edges[u][j].target);
          EdgesAreDeclared(d, stages, es, u, d.edges[u][j].target);
        }
        assert d.edges[u][0].target in d.stages;
      }
    }
  }

  lemma CyclicIffDeclared(d: Definition, stages: map<StageId, Stage>, es: seq<Edge>)
    requires Represents(d, stages, es)
    ensures Cyclic(d) <==> exists p :: IsDeclaredCycle(es, p)
  {
    if Cyclic(d) {
      var p :| IsCycle(d, p);
      forall i | 0 <= i < |p| - 1
        ensures Declared(es, p[i], p[i + 1])
      {
        assert HasEdge(d, p[i], p[i + 1]);
        EdgesAreDeclared(d, stages, es, p[i], p[i + 1]);
      }
      assert IsDeclaredCycle(es, p);
    }
    if exists p :: IsDeclaredCycle(es, p) {
      var p :| IsDeclaredCycle(es, p);
      forall i | 0 <= i < |p| - 1
        ensures HasEdge(d, p[i], p[i + 1])
      {
        assert Declared(es, p[i], p[i + 1]);
        EdgesAreDeclared(d, stages, es, p[i], p[i + 1]);
      }
      assert IsCycle(d, p);
    }
  }

  /** Pushing one edge on both maps represents one more declaration. */
  lemma RepresentOneMore(stages: map<StageId, Stage>, forward: map<StageId, seq<OutEdge>>,
                         reverse: map<StageId, seq<StageId>>, es: seq<Edge>, e: Edge)
    requires Represents(Definition(stages, forward, reverse), stages, es)
    ensures Represents(
      Definition(stages,
        forward[e.source := Lookup(forward, e.source) + [OutEdge(e.target, e.flow, e.condition)]],
        reverse[e.target := Lookup(reverse, e.target) + [e.source]]),
      stages, es + [e])
  {
    var d := Definition(stages, forward, reverse);
    var d' := Definition(stages,
      forward[e.source := Lookup(forward, e.source) + [OutEdge(e.target, e.flow, e.condition)]],
      reverse[e.target := Lookup(reverse, e.target) + [e.source]]);
    assert (es + [e])[..|es|] == es;
    forall k
      ensures RepresentsAt(d', es + [e], k)
    {
      assert RepresentsAt(d, es, k);
    }
  }

  class Builder {
    var stages: map<StageId, Stage>
    var edges: seq<Edge>

    constructor ()
      ensures stages == map[] && edges == []
    {
      stages, edges := map[], [];
    }

    /** A stage added under an id already present replaces the earlier one. */
    method AddStage(stage: Stage)
      modifies this
      ensures stages == old(stages)[stage.id := stage] && edges == old(edges)
    {
      stages := stages[stage.id := stage];
    }

    /** Edges are only recorded here; their endpoints are checked by Build. */
    method AddEdge(source: StageId, target: StageId, flow: DataFlow, condition: BranchCondition)
      modifies this
      ensures edges == old(edges) + [Edge(source, target, flow, condition)] && stages == old(stages)
    {
      edges := edges + [Edge(source, target, flow, condition)];
    }

    method BranchOnExit(source: StageId, onSuccess: StageId, onFailure: StageId)
      modifies this
      ensures stages == old(stages)
      ensures edges == old(edges) + [
        Edge(source, onSuccess, StdoutToStdin, ExitCodeEquals(0)),
        Edge(source, onFailure, StdoutToStdin, OnFailure)]
    {
      AddEdge(source, onSuccess, StdoutToStdin, ExitCodeEquals(0));
      AddEdge(source, onFailure, StdoutToStdin, OnFailure);
    }

    /** Fills both edge maps in declaration order. */
    method FillMaps() returns (forward: map<StageId, seq<OutEdge>>, reverse: map<StageId, seq<StageId>>)
      ensures Represents(Definition(stages, forward, reverse), stages, edges)
    {
      forward, reverse := map[], map[];
      for i := 0 to |edges|
        invariant Represents(Definition(stages, forward, reverse), stages, edges[..i])
      {
        var e := edges[i];
        RepresentOneMore(stages, forward, reverse, edges[..i], e);
        assert edges[..i + 1] == edges[..i] + [e];
        forward := forward[e.source := Lookup(forward, e.source) + [OutEdge(e.target, e.flow, e.condition)]];
        reverse := reverse[e.target := Lookup(reverse, e.target) + [e.source]];
      }
      assert edges[..|edges|] == edges;
    }

    /** Build succeeds exactly when there is a stage, every endpoint is a stage and the
        declared edges have no cycle; the definition then represents the declarations. */
    method Build() returns (r: Result<Definition, BuildError>)
      ensures r.Ok? <==>
        |stages| > 0 && EndpointsKnown(stages, edges) && !exists p :: IsDeclaredCycle(edges, p)
      ensures r.Ok? ==> Represents(r.value, stages, edges)
      ensures r == Err(NoStages) <==> |stages| == 0
      ensures r.Err? && r.error.StageNotFound? ==>
        r.error.id !in stages && exists e | e in edges :: e.source == r.error.id || e.target == r.error.id
    {
      var forward, reverse := FillMaps();
      var d := Definition(stages, forward, reverse);
      WellFormedIffKnown(d, stages, edges);
      CyclicIffDeclared(d, stages, edges);
      var verdict := Validate(d);
      if verdict.Err? {
        if verdict.error.StageNotFound? {
          MissingStageIsDeclared(d, stages, edges, verdict.error.id);
        }
        return Err(verdict.error);
      }
      return Ok(d);
    }
  }

  lemma MissingStageIsDeclared(d: Definition, stages: map<StageId, Stage>, es: seq<Edge>, id: StageId)
    requires Represents(d, stages, es)
    requires id in d.edges || exists u :: HasEdge(d, u, id)
    ensures exists e | e in es :: e.source == id || e.target == id
  {
    if id in d.edges {
      assert RepresentsAt(d, es, id);
      var v := OutOf(es, id)[0].target;
      assert Targets(OutOf(es, id), v);
      OutOfTargets(es, id, v);
    } else {
      var u :| HasEdge(d, u, id);
      EdgesAreDeclared(d, stages, es, u, id);
    }
  }
}
