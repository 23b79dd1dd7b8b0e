/** The stage graph of a pipeline: definitions, schedules and cycles.

    A schedule is a duplicate-free list of nodes in which every node comes
    after all its predecessors.  A maximal schedule contains every node that
    any schedule contains, so all maximal schedules have the same nodes: this
    is what makes the verdict of the topological sort independent of the order
    in which a hash map is iterated. */
module PipelineGraph {
  import opened Common

  type StageId = string

  datatype DataFlow = StdoutToStdin | PassThrough

  datatype BranchCondition =
    | Always
    | ExitCodeEquals(code: int)
    | OnFailure
    | StdoutContains(pattern: string)
    | StdoutMatches(pattern: string)

  /** The base delay between retries is in nanoseconds. */
  datatype Stage = Stage(id: StageId, maxRetries: nat, baseDelay: nat)

  /** An edge as the builder declares it. */
  datatype Edge = Edge(source: StageId, target: StageId, flow: DataFlow, condition: BranchCondition)

  /** An edge as the forward map stores it, under its source. */
  datatype OutEdge = OutEdge(target: StageId, flow: DataFlow, condition: BranchCondition)

  datatype Definition = Definition(
    stages: map<StageId, Stage>,
    edges: map<StageId, seq<OutEdge>>,
    reverseEdges: map<StageId, seq<StageId>>)

  // ----- the edge relation of a definition

  ghost predicate Targets(out: seq<OutEdge>, v: StageId) {
    exists j | 0 <= j < |out| :: out[j].target == v
  }

  ghost predicate HasEdge(d: Definition, u: StageId, v: StageId) {
    u in d.edges && Targets(d.edges[u], v)
  }

  /** The keys of the in-degree table: stages and edge targets. */
  ghost predicate IsNode(d: Definition, v: StageId) {
    v in d.stages || exists u :: HasEdge(d, u, v)
  }

  /** Every edge starts and ends at a stage. */
  ghost predicate WellFormed(d: Definition) {
    forall u | u in d.edges ::
      u in d.stages && forall j | 0 <= j < |d.edges[u]| :: d.edges[u][j].target in d.stages
  }

  // ----- schedules

  ghost predicate PredecessorsIn(d: Definition, v: StageId, before: seq<StageId>) {
    forall u | HasEdge(d, u, v) :: u in before
  }

  ghost predicate IsSchedule(d: Definition, s: seq<StageId>) {
    && Distinct(s)
    && (forall v | v in s :: IsNode(d, v))
    && (forall i | 0 <= i < |s| :: PredecessorsIn(d, s[i], s[..i]))
  }

  ghost predicate IsMaximalSchedule(d: Definition, s: seq<StageId>) {
    IsSchedule(d, s) && forall t | IsSchedule(d, t) :: forall v | v in t :: v in s
  }

  /** v has a predecessor that s does not contain. */
  ghost predicate WaitsOutside(d: Definition, s: seq<StageId>, v: StageId) {
    exists u :: HasEdge(d, u, v) && u !in s
  }

  /** A schedule is maximal once every node outside it waits for another node outside it. */
  lemma StuckIsMaximal(d: Definition, s: seq<StageId>)
    requires IsSchedule(d, s)
    requires forall v {:trigger WaitsOutside(d, s, v)} | IsNode(d, v) && v !in s :: WaitsOutside(d, s, v)
    ensures IsMaximalSchedule(d, s)
  {
    forall t | IsSchedule(d, t)
      ensures forall v | v in t :: v in s
    {
      PrefixInside(d, s, t, |t|);
    }
  }

  lemma {:induction false} PrefixInside(d: Definition, s: seq<StageId>, t: seq<StageId>, n: nat)
    requires forall v {:trigger WaitsOutside(d, s, v)} | IsNode(d, v) && v !in s :: WaitsOutside(d, s, v)
    requires IsSchedule(d, t) && n <= |t|
    ensures forall i | 0 <= i < n :: t[i] in s
  {
    if n > 0 {
      PrefixInside(d, s, t, n - 1);
      assert PredecessorsIn(d, t[n - 1], t[..n - 1]);
      assert !WaitsOutside(d, s, t[n - 1]);
    }
  }

  /** A schedule can be extended by any node whose predecessors it contains. */
  lemma ExtendSchedule(d: Definition, s: seq<StageId>, v: StageId)
    requires IsSchedule(d, s) && IsNode(d, v) && v !in s && !WaitsOutside(d, s, v)
    ensures IsSchedule(d, s + [v])
  {
    var t := s + [v];
    forall i | 0 <= i < |t|
      ensures PredecessorsIn(d, t[i], t[..i])
    {
      if i < |s| {
        assert t[..i] == s[..i];
        assert PredecessorsIn(d, s[i], s[..i]);
      } else {
        assert t[..i] == s;
      }
    }
  }

  /** The converse: a maximal schedule is stuck. */
  lemma MaximalIsStuck(d: Definition, s: seq<StageId>, v: StageId)
    requires IsMaximalSchedule(d, s) && IsNode(d, v) && v !in s
    ensures WaitsOutside(d, s, v)
  {
    assert v in s + [v];
    if !WaitsOutside(d, s, v) {
      ExtendSchedule(d, s, v);
      assert false;
    }
  }

  /** All maximal schedules have the same nodes and the same length. */
  lemma MaximalSchedulesAgree(d: Definition, s: seq<StageId>, t: seq<StageId>)
    requires IsMaximalSchedule(d, s) && IsMaximalSchedule(d, t)
    ensures Elements(s) == Elements(t) && |s| == |t|
  {
    forall v
      ensures v in s <==> v in t
    {
    }
    DistinctBound(s, Elements(t));
    DistinctBound(t, Elements(s));
    DistinctSize(s);
    DistinctSize(t);
  }

  lemma {:induction false} DistinctSize<T>(s: seq<T>)
    requires Distinct(s)
    ensures |Elements(s)| == |s|
  {
    if |s| > 0 {
      var last := s[|s| - 1];
      DistinctSize(s[..|s| - 1]);
      assert Elements(s) == Elements(s[..|s| - 1]) + {last};
    }
  }

  // ----- cycles

  ghost predicate IsWalk(d: Definition, p: seq<StageId>) {
    |p| >= 1 && forall i | 0 <= i < |p| - 1 :: HasEdge(d, p[i], p[i + 1])
  }

  ghost predicate IsCycle(d: Definition, p: seq<StageId>) {
    IsWalk(d, p) && |p| >= 2 && p[0] == p[|p| - 1]
  }

  ghost predicate Cyclic(d: Definition) {
    exists p :: IsCycle(d, p)
  }

  /** Walking backwards from a scheduled node stays inside the schedule and moves towards its front. */
  lemma {:induction false} WalkStartsEarlier(d: Definition, s: seq<StageId>, p: seq<StageId>, j: nat) returns (k: nat)
    requires IsSchedule(d, s) && IsWalk(d, p)
    requires j < |s| && s[j] == p[|p| - 1]
    ensures k <= j && s[k] == p[0]
    ensures |p| >= 2 ==> k < j
    decreases |p|
  {
    if |p| == 1 {
      k := j;
    } else {
      var u := p[|p| - 2];
      assert HasEdge(d, p[|p| - 2], p[|p| - 2 + 1]);
      assert PredecessorsIn(d, s[j], s[..j]);
      var i :| 0 <= i < j && s[i] == u;
      k := WalkStartsEarlier(d, s, p[..|p| - 1], i);
    }
  }

  /** A schedule of every node leaves no room for a cycle. */
  lemma CompleteScheduleIsAcyclic(d: Definition, s: seq<StageId>)
    requires IsSchedule(d, s)
    requires forall v | IsNode(d, v) :: v in s
    ensures !Cyclic(d)
  {
    forall p | IsCycle(d, p)
      ensures false
    {
      var n := |p| - 2;
      assert HasEdge(d, p[n], p[n + 1]);
      assert IsNode(d, p[n + 1]);
      var j :| 0 <= j < |s| && s[j] == p[|p| - 1];
      var k := WalkStartsEarlier(d, s, p, j);
    }
  }

  ghost predicate HasPredecessorIn(d: Definition, r: set<StageId>, v: StageId) {
    exists u :: u in r && HasEdge(d, u, v)
  }

  /** In a set where every node has a predecessor, one can walk backwards as far as one likes. */
  lemma {:induction false} BackwardWalk(d: Definition, r: set<StageId>, n: nat) returns (p: seq<StageId>)
    requires r != {} && n >= 1
    requires forall v {:trigger HasPredecessorIn(d, r, v)} | v in r :: HasPredecessorIn(d, r, v)
    ensures IsWalk(d, p) && |p| == n && forall v | v in p :: v in r
  {
    if n == 1 {
      var v :| v in r;
      p := [v];
    } else {
      var q := BackwardWalk(d, r, n - 1);
      assert q[0] in q;
      assert HasPredecessorIn(d, r, q[0]);
      var u :| u in r && HasEdge(d, u, q[0]);
      p := [u] + q;
      forall i | 0 <= i < |p| - 1
        ensures HasEdge(d, p[i], p[i + 1])
      {
        if i > 0 {
          assert HasEdge(d, q[i - 1], q[i - 1 + 1]);
        }
      }
    }
  }

  /** ... so by the pigeonhole principle it contains a cycle. */
  lemma StuckSetIsCyclic(d: Definition, r: set<StageId>)
    requires r != {}
    requires forall v {:trigger HasPredecessorIn(d, r, v)} | v in r :: HasPredecessorIn(d, r, v)
    ensures Cyclic(d)
  {
    var p := BackwardWalk(d, r, |r| + 1);
    assert !Distinct(p) by {
      if Distinct(p) {
        DistinctBound(p, r);
      }
    }
    var i, j :| 0 <= i < j < |p| && p[i] == p[j];
    var q := p[i..j + 1];
    forall k | 0 <= k < |q| - 1
      ensures HasEdge(d, q[k], q[k + 1])
    {
      assert HasEdge(d, p[i + k], p[i + k + 1]);
    }
    assert IsCycle(d, q);
  }

  /** For a well-formed definition, the number of scheduled nodes decides acyclicity. */
  lemma ScheduleCountsDecide(d: Definition, s: seq<StageId>)
    requires WellFormed(d) && IsMaximalSchedule(d, s)
    ensures |s| == |d.stages| <==> !Cyclic(d)
    ensures |s| == |d.stages| ==> forall v | v in d.stages :: v in s
  {
    assert forall v :: IsNode(d, v) <==> v in d.stages;
    DistinctBound(s, d.stages.Keys);
    if |s| == |d.stages| {
      CompleteScheduleIsAcyclic(d, s);
    } else {
      var r := d.stages.Keys - Elements(s);
      DistinctSize(s);
      assert forall v | v in s :: v in d.stages;
      assert Elements(s) <= d.stages.Keys;
      assert forall v | v in d.stages.Keys :: v in Elements(s) || v in r;
      assert r == {} ==> Elements(s) == d.stages.Keys;
      forall v | v in r
        ensures HasPredecessorIn(d, r, v)
      {
        MaximalIsStuck(d, s, v);
        var u :| HasEdge(d, u, v) && u !in s;
        assert u in r;
      }
      StuckSetIsCyclic(d, r);
    }
  }

  /** Here b waits for itself for ever, but the unknown target z takes its place in the order. */
  const COINCIDENCE := Definition(
    map["a" := Stage("a", 0, 0), "b" := Stage("b", 0, 0)],
    map["a" := [OutEdge("z", StdoutToStdin, Always)], "b" := [OutEdge("b", StdoutToStdin, Always)]],
    map["z" := ["a"], "b" := ["b"]])

  lemma CoincidenceEdges(u: StageId, v: StageId)
    ensures HasEdge(COINCIDENCE, u, v) <==> (u == "a" && v == "z") || (u == "b" && v == "b")
  {
    assert COINCIDENCE.edges["a"][0].target == "z" && COINCIDENCE.edges["b"][0].target == "b";
  }

  lemma CoincidenceSchedule()
    ensures IsMaximalSchedule(COINCIDENCE, ["a", "z"])
  {
    var d, s := COINCIDENCE, ["a", "z"];
    forall u, v
      ensures HasEdge(d, u, v) <==> (u == "a" && v == "z") || (u == "b" && v == "b")
    {
      CoincidenceEdges(u, v);
    }
    hide HasEdge;
    assert HasEdge(d, "a", "z") && HasEdge(d, "b", "b");
    assert s[..1] == ["a"];
    assert PredecessorsIn(d, s[0], s[..0]) && PredecessorsIn(d, s[1], s[..1]);
    assert WaitsOutside(d, s, "b");
    StuckIsMaximal(d, s);
  }

  /** On an ill-formed definition the count alone can come out right by coincidence. */
  lemma CountCanCoincide()
    ensures exists d, s :: IsMaximalSchedule(d, s) && |s| == |d.stages| && Cyclic(d) && !WellFormed(d)
  {
    hide IsMaximalSchedule;
    var d := COINCIDENCE;
    CoincidenceSchedule();
    CoincidenceEdges("b", "b");
    assert IsCycle(d, ["b", "b"]);
    assert d.edges["a"][0].target == "z" && "z" !in d.stages;
    assert d.stages.Keys == {"a", "b"};
  }
}
