/** Checking a pipeline definition: the in-degree topological sort, and validation. */
module PipelineBuild {
  import opened Common
  import opened PipelineGraph
  import SetSum

  datatype BuildError = NoStages | HasCycle | StageNotFound(id: StageId)

  // ----- in-degrees

  ghost function CountTo(out: seq<OutEdge>, v: StageId): nat {
    if out == [] then 0
    else CountTo(out[..|out| - 1], v) + if out[|out| - 1].target == v then 1 else 0
  }

  lemma {:induction false} CountToPositive(out: seq<OutEdge>, v: StageId)
    ensures CountTo(out, v) > 0 <==> Targets(out, v)
  {
    if out != [] {
      var init := out[..|out| - 1];
      CountToPositive(init, v);
      if Targets(init, v) {
        var j :| 0 <= j < |init| && init[j].target == v;
        assert out[j].target == v;
      } else if Targets(out, v) {
        var j :| 0 <= j < |out| && out[j].target == v;
        assert j < |init| ==> init[j].target == v;
      }
    }
  }

  lemma {:induction false} CountToPrefix(out: seq<OutEdge>, n: nat, v: StageId)
    requires n <= |out|
    ensures CountTo(out[..n], v) <= CountTo(out, v)
  {
    if n < |out| {
      CountToPrefix(out[..|out| - 1], n, v);
      assert out[..|out| - 1][..n] == out[..n];
    } else {
      assert out[..n] == out;
    }
  }

  /** How many edges lead from one source to v. */
  ghost function EdgesInto(d: Definition, v: StageId): StageId -> nat {
    u => if u in d.edges then CountTo(d.edges[u], v) else 0
  }

  /** How many edges lead to v from the sources in `from`. */
  ghost function InDegree(d: Definition, from: set<StageId>, v: StageId): nat {
    SetSum.Sum(from, EdgesInto(d, v))
  }

  /** How many edges lead to v from sources that `order` does not list. */
  ghost function Pending(d: Definition, order: seq<StageId>, v: StageId): nat {
    InDegree(d, d.edges.Keys - Elements(order), v)
  }

  /** The forward map's entry for u, empty when there is none. */
  function OutEdges(d: Definition, u: StageId): seq<OutEdge> {
    if u in d.edges then d.edges[u] else []
  }

  lemma InDegreeExtract(d: Definition, from: set<StageId>, u: StageId, v: StageId)
    requires u in from && u in d.edges
    ensures InDegree(d, from, v) == CountTo(d.edges[u], v) + InDegree(d, from - {u}, v)
  {
    SetSum.Extract(from, u, EdgesInto(d, v));
  }

  lemma ZeroInDegree(d: Definition, from: set<StageId>, v: StageId)
    ensures InDegree(d, from, v) == 0 <==> forall u | u in from :: !HasEdge(d, u, v)
  {
    if InDegree(d, from, v) > 0 {
      var u := SetSum.PositiveTerm(from, EdgesInto(d, v));
      CountToPositive(d.edges[u], v);
      assert HasEdge(d, u, v);
    } else {
      forall u | u in from
        ensures !HasEdge(d, u, v)
      {
        if u in d.edges {
          InDegreeExtract(d, from, u, v);
          CountToPositive(d.edges[u], v);
        }
      }
    }
  }

  /** Adds the edges of one source to the table. */
  method CountOutEdges(out: seq<OutEdge>, table: map<StageId, nat>) returns (r: map<StageId, nat>)
    ensures forall v :: v in r <==> v in table || Targets(out, v)
    ensures forall v | v in r :: r[v] == (if v in table then table[v] else 0) + CountTo(out, v)
  {
    r := table;
    for i := 0 to |out|
      invariant forall v :: v in r <==> v in table || Targets(out[..i], v)
      invariant forall v | v in r :: r[v] == (if v in table then table[v] else 0) + CountTo(out[..i], v)
    {
      TargetsExtend(out[..i], out[i]);
      assert out[..i + 1] == out[..i] + [out[i]];
      var to := out[i].target;
      if to !in r {
        CountToPositive(out[..i], to);
      }
      r := r[to := (if to in r then r[to] else 0) + 1];
    }
    assert out[..|out|] == out;
  }

  lemma TargetsExtend(out: seq<OutEdge>, e: OutEdge)
    ensures forall v :: Targets(out + [e], v) <==> Targets(out, v) || v == e.target
    ensures forall v :: CountTo(out + [e], v) == CountTo(out, v) + if e.target == v then 1 else 0
  {
    assert (out + [e])[..|out|] == out;
    assert (out + [e])[|out|] == e;
    forall v | Targets(out, v)
      ensures Targets(out + [e], v)
    {
      var j :| 0 <= j < |out| && out[j].target == v;
      assert (out + [e])[j].target == v;
    }
  }

  /** The table holds the in-degrees due to the sources in `done`. */
  ghost predicate Tallied(d: Definition, done: set<StageId>, table: map<StageId, nat>) {
    && (forall v :: v in table <==> v in d.stages || exists u | u in done :: HasEdge(d, u, v))
    && (forall v | v in table :: table[v] == InDegree(d, done, v))
  }

  lemma TallyOneSource(d: Definition, done: set<StageId>, u: StageId,
                       table: map<StageId, nat>, table': map<StageId, nat>)
    requires Tallied(d, done, table) && u in d.edges && u !in done
    requires forall v :: v in table' <==> v in table || Targets(d.edges[u], v)
    requires forall v | v in table' :: table'[v] == (if v in table then table[v] else 0) + CountTo(d.edges[u], v)
    ensures Tallied(d, done + {u}, table')
  {
    forall v | v in table'
      ensures table'[v] == InDegree(d, done + {u}, v)
    {
      InDegreeExtract(d, done + {u}, u, v);
      assert done + {u} - {u} == done;
      if v !in table {
        ZeroInDegree(d, done, v);
      }
    }
    assert forall v :: HasEdge(d, u, v) <==> Targets(d.edges[u], v);
  }

  lemma AllTallied(d: Definition, table: map<StageId, nat>)
    requires Tallied(d, d.edges.Keys, table)
    ensures forall v :: v in table <==> IsNode(d, v)
  {
  }

  method InDegrees(d: Definition) returns (table: map<StageId, nat>)
    ensures forall v :: v in table <==> IsNode(d, v)
    ensures forall v | v in table :: table[v] == InDegree(d, d.edges.Keys, v)
  {
    table := map id | id in d.stages :: 0;
    var todo := d.edges.Keys;
    ghost var done := {};
    while todo != {}
      invariant done !! todo && done + todo == d.edges.Keys
      invariant Tallied(d, done, table)
    {
      var u :| u in todo;
      ghost var before := table;
      table := CountOutEdges(d.edges[u], table);
      TallyOneSource(d, done, u, before, table);
      todo := todo - {u};
      done := done + {u};
    }
    assert done == d.edges.Keys;
    AllTallied(d, table);
  }

  /** The nodes without incoming edges, in whatever order the table yields them. */
  method ZeroDegreeNodes(table: map<StageId, nat>) returns (queue: seq<StageId>)
    ensures Distinct(queue)
    ensures forall v :: v in queue <==> v in table && table[v] == 0
  {
    queue := [];
    var todo := table.Keys;
    while todo != {}
      invariant todo <= table.Keys
      invariant Distinct(queue)
      invariant forall v :: v in queue <==> v in table && v !in todo && table[v] == 0
    {
      var v :| v in todo;
      if table[v] == 0 {
        queue := queue + [v];
      }
      todo := todo - {v};
    }
  }

  /** The table and queue after the out-edges of a processed node were taken off. */
  ghost predicate Released(out: seq<OutEdge>, table: map<StageId, nat>, queue: seq<StageId>,
                           table': map<StageId, nat>, queue': seq<StageId>) {
    && table'.Keys == table.Keys
    && (forall v | v in table :: table'[v] == table[v] - CountTo(out, v))
    && Distinct(queue')
    && (forall v :: v in queue' <==> v in queue || (v in table && table[v] > 0 && table'[v] == 0))
  }

  lemma ReleaseNone(table: map<StageId, nat>, queue: seq<StageId>)
    requires Distinct(queue)
    ensures Released([], table, queue, table, queue)
  {
  }

  /** The last edge of `out` goes: its target is counted down, and queued at zero. */
  lemma ReleaseOne(out: seq<OutEdge>, e: OutEdge, table: map<StageId, nat>, queue: seq<StageId>,
                   table': map<StageId, nat>, queue': seq<StageId>)
    requires Released(out, table, queue, table', queue')
    requires forall v | v in queue :: v in table && table[v] == 0
    requires e.target in table && CountTo(out + [e], e.target) <= table[e.target]
    ensures e.target in table' && table'[e.target] > 0
    ensures var left := table'[e.target] - 1;
      Released(out + [e], table, queue, table'[e.target := left], if left == 0 then queue' + [e.target] else queue')
  {
    hide Targets;
    TargetsExtend(out, e);
    hide CountTo;
  }

  /** Takes the out-edges of a processed node off the table; a target is queued when its
      last pending edge goes.  The subtraction never goes below zero. */
  method ReleaseTargets(out: seq<OutEdge>, table: map<StageId, nat>, queue: seq<StageId>)
    returns (table': map<StageId, nat>, queue': seq<StageId>)
    requires forall j | 0 <= j < |out| :: out[j].target in table
    requires forall v | v in table :: CountTo(out, v) <= table[v]
    requires Distinct(queue)
    requires forall v | v in queue :: v in table && table[v] == 0
    ensures Released(out, table, queue, table', queue')
  {
    hide CountTo, Distinct;
    table', queue' := table, queue;
    ReleaseNone(table, queue);
    for i := 0 to |out|
      invariant table'.Keys == table.Keys && Released(out[..i], table, queue, table', queue')
    {
      hide Released;
      var to := out[i].target;
      assert out[..i + 1] == out[..i] + [out[i]];
      CountToPrefix(out, i + 1, to);
      ReleaseOne(out[..i], out[i], table, queue, table', queue');
      if to in table' {
        table' := table'[to := table'[to] - 1];
        if table'[to] == 0 {
          queue' := queue' + [to];
        }
      }
    }
    assert out[..|out|] == out;
  }

  // ----- the topological sort

  /** The graph side of the sort's invariant: `order` is a schedule and the table counts,
      for every node, the edges from sources not yet ordered. */
  ghost predicate Scheduled(d: Definition, table: map<StageId, nat>, order: seq<StageId>) {
    && (forall v :: v in table <==> IsNode(d, v))
    && (forall v | v in table :: table[v] == Pending(d, order, v))
    && IsSchedule(d, order)
  }

  /** The queue side: each node is ordered or queued at most once, and exactly when its count is zero. */
  ghost predicate Queued(table: map<StageId, nat>, order: seq<StageId>, queue: seq<StageId>) {
    && Distinct(order + queue)
    && (forall v :: v in order || v in queue <==> v in table && table[v] == 0)
  }

  lemma DistinctParts<T>(s: seq<T>, t: seq<T>)
    requires Distinct(s + t)
    ensures Distinct(s) && Distinct(t) && forall x | x in s :: x !in t
  {
    assert forall i | 0 <= i < |s| :: (s + t)[i] == s[i];
    assert forall i | 0 <= i < |t| :: (s + t)[|s| + i] == t[i];
  }

  lemma DistinctAppend<T>(s: seq<T>, t: seq<T>)
    requires Distinct(s) && Distinct(t) && forall x | x in s :: x !in t
    ensures Distinct(s + t)
  {
    forall i, j | 0 <= i < j < |s + t|
      ensures (s + t)[i] != (s + t)[j]
    {
      if i < |s| <= j {
        assert s[i] in s && t[j - |s|] in t;
      }
    }
  }

  /** What the queue says about its head and its rest. */
  lemma HeadOfQueue(table: map<StageId, nat>, order: seq<StageId>, queue: seq<StageId>)
    requires Queued(table, order, queue) && |queue| > 0
    ensures queue[0] !in order && queue[0] in table && table[queue[0]] == 0
    ensures Distinct(queue[1..]) && queue[0] !in queue[1..]
    ensures forall v | v in queue[1..] :: v in table && table[v] == 0 && v !in order
    ensures Distinct(order) && |order| < |table.Keys|
  {
    var id := queue[0];
    DistinctParts(order, queue);
    assert id in queue;
    assert queue == [id] + queue[1..];
    DistinctBound(order + [id], table.Keys);
  }

  /** Processing one node: what its out-edges contributed leaves the pending counts. */
  lemma PendingAfterPop(d: Definition, order: seq<StageId>, id: StageId, v: StageId)
    requires id !in order
    ensures Pending(d, order, v) == CountTo(OutEdges(d, id), v) + Pending(d, order + [id], v)
  {
    var from := d.edges.Keys - Elements(order);
    assert Elements(order + [id]) == Elements(order) + {id};
    if id in d.edges {
      InDegreeExtract(d, from, id, v);
      assert from - {id} == d.edges.Keys - Elements(order + [id]);
    } else {
      assert from == d.edges.Keys - Elements(order + [id]);
    }
  }

  /** A node's targets are in the table, each with at least the count the node contributes. */
  lemma OutEdgesCounted(d: Definition, table: map<StageId, nat>, order: seq<StageId>, id: StageId)
    requires Scheduled(d, table, order) && id !in order
    ensures forall j | 0 <= j < |OutEdges(d, id)| :: OutEdges(d, id)[j].target in table
    ensures forall v | v in table :: CountTo(OutEdges(d, id), v) <= table[v]
  {
    forall j | 0 <= j < |OutEdges(d, id)|
      ensures OutEdges(d, id)[j].target in table
    {
      assert HasEdge(d, id, OutEdges(d, id)[j].target);
    }
    forall v | v in table
      ensures CountTo(OutEdges(d, id), v) <= table[v]
    {
      PendingAfterPop(d, order, id, v);
    }
  }

  lemma ScheduledAfterPop(d: Definition, table: map<StageId, nat>, order: seq<StageId>, id: StageId,
                          table': map<StageId, nat>)
    requires Scheduled(d, table, order)
    requires id !in order && id in table && table[id] == 0
    requires table'.Keys == table.Keys
    requires forall v | v in table :: table'[v] == table[v] - CountTo(OutEdges(d, id), v)
    ensures Scheduled(d, table', order + [id])
  {
    forall v | v in table
      ensures table'[v] == Pending(d, order + [id], v)
    {
      PendingAfterPop(d, order, id, v);
    }
    ZeroInDegree(d, d.edges.Keys - Elements(order), id);
    ExtendSchedule(d, order, id);
  }

  lemma QueuedAfterPop(out: seq<OutEdge>, table: map<StageId, nat>, order: seq<StageId>, queue: seq<StageId>,
                       table': map<StageId, nat>, queue': seq<StageId>)
    requires Queued(table, order, queue) && |queue| > 0
    requires Released(out, table, queue[1..], table', queue')
    ensures Queued(table', order + [queue[0]], queue')
  {
    var id := queue[0];
    HeadOfQueue(table, order, queue);
    assert queue == [id] + queue[1..];
    forall v | v in order + [id]
      ensures v !in queue'
    {
      assert v in order || v == id;
    }
    DistinctAppend(order + [id], queue');
  }

  lemma InitiallyScheduled(d: Definition, table: map<StageId, nat>, queue: seq<StageId>)
    requires forall v :: v in table <==> IsNode(d, v)
    requires forall v | v in table :: table[v] == InDegree(d, d.edges.Keys, v)
    requires Distinct(queue) && forall v :: v in queue <==> v in table && table[v] == 0
    ensures Scheduled(d, table, []) && Queued(table, [], queue)
  {
    assert d.edges.Keys - Elements<StageId>([]) == d.edges.Keys;
    assert [] + queue == queue;
  }

  /** When the queue is empty, every node left out waits for another one left out. */
  lemma EmptyQueueIsMaximal(d: Definition, table: map<StageId, nat>, order: seq<StageId>)
    requires Scheduled(d, table, order) && Queued(table, order, [])
    ensures IsMaximalSchedule(d, order)
  {
    forall v | IsNode(d, v) && v !in order
      ensures WaitsOutside(d, order, v)
    {
      ZeroInDegree(d, d.edges.Keys - Elements(order), v);
    }
    StuckIsMaximal(d, order);
  }

  method TopologicalOrder(d: Definition) returns (r: Result<seq<StageId>, BuildError>)
    ensures r.Ok? ==> IsMaximalSchedule(d, r.value) && |r.value| == |d.stages|
    ensures r.Err? ==> r.error == HasCycle && exists s :: IsMaximalSchedule(d, s) && |s| != |d.stages|
  {
    var table := InDegrees(d);
    var queue := ZeroDegreeNodes(table);
    var order: seq<StageId> := [];
    InitiallyScheduled(d, table, queue);
    while queue != []
      invariant Scheduled(d, table, order) && Queued(table, order, queue)
      decreases |table.Keys| - |order|
    {
      HeadOfQueue(table, order, queue);
      var id := queue[0];
      OutEdgesCounted(d, table, order, id);
      ghost var table0, queue0 := table, queue;
      table, queue := ReleaseTargets(OutEdges(d, id), table, queue[1..]);
      ScheduledAfterPop(d, table0, order, id, table);
      QueuedAfterPop(OutEdges(d, id), table0, order, queue0, table, queue);
      order := order + [id];
    }
    EmptyQueueIsMaximal(d, table, order);
    if |order| != |d.stages| {
      return Err(HasCycle);
    }
    return Ok(order);
  }

  // ----- validation

  method Validate(d: Definition) returns (r: Result<(), BuildError>)
    ensures r.Ok? <==> |d.stages| > 0 && WellFormed(d) && !Cyclic(d)
    ensures r == Err(NoStages) <==> |d.stages| == 0
    ensures r.Err? && r.error.StageNotFound? ==>
      && r.error.id !in d.stages
      && (r.error.id in d.edges || exists u :: HasEdge(d, u, r.error.id))
  {
    if |d.stages| == 0 {
      return Err(NoStages);
    }
    var order := TopologicalOrder(d);
    if order.Err? {
      if WellFormed(d) {
        ghost var s :| IsMaximalSchedule(d, s) && |s| != |d.stages|;
        ScheduleCountsDecide(d, s);
      }
      return Err(order.error);
    }
    var todo := d.edges.Keys;
    while todo != {}
      invariant todo <= d.edges.Keys
      invariant forall u | u in d.edges && u !in todo ::
        u in d.stages && forall j | 0 <= j < |d.edges[u]| :: d.edges[u][j].target in d.stages
    {
      var u :| u in todo;
      if u !in d.stages {
        return Err(StageNotFound(u));
      }
      for i := 0 to |d.edges[u]|
        invariant forall j | 0 <= j < i :: d.edges[u][j].target in d.stages
      {
        if d.edges[u][i].target !in d.stages {
          assert HasEdge(d, u, d.edges[u][i].target);
          return Err(StageNotFound(d.edges[u][i].target));
        }
      }
      todo := todo - {u};
    }
    ScheduleCountsDecide(d, order.value);
    return Ok(());
  }
}
