/**
 * What "optimal" means for a layered plan. The critical path is the longest
 * chain of dependency edges among the ids that can be scheduled; no schedule
 * that runs every dependency in an earlier wave can use fewer waves than that
 * chain has ids; and the planner's layers use exactly that many. On the inputs
 * the planner's stress test generates, the validator therefore accepts the plan.
 */
module Optimality {
  import opened Collections
  import opened DependencyLevels
  import opened Scripts
  import ExecutionPlanner
  import PlanValidator

  /** A dependency chain: each id waits for the one before it. */
  ghost predicate IsChain(g: Graph, c: seq<int>)
    requires g.Valid()
  {
    && |c| >= 1
    && (forall i :: 0 <= i < |c| ==> c[i] in g.ids)
    && forall i :: 0 <= i < |c| - 1 ==> c[i] in g.parents[c[i + 1]]
  }

  /** A chain ending at a scheduled id is scheduled throughout and has at most that id's level in edges. */
  lemma {:induction false} ChainBound(g: Graph, c: seq<int>)
    requires g.Valid() && IsChain(g, c) && c[|c| - 1] in Scheduled(g)
    ensures forall i :: 0 <= i < |c| ==> c[i] in Scheduled(g)
    ensures |c| - 1 <= Level(g, c[|c| - 1])
    decreases |c|
  {
    var n := |c| - 1;
    if n > 0 {
      ParentsOnLowerLevel(g, c[n]);
      assert c[n - 1] in g.parents[c[n]];
      assert IsChain(g, c[..n]) && c[..n][n - 1] == c[n - 1];
      ChainBound(g, c[..n]);
      assert forall i :: 0 <= i < n ==> c[..n][i] == c[i];
    }
  }

  /** A chain of exactly `Level(g, v)` edges ending at v: follow a parent one level lower each time. */
  ghost function ChainTo(g: Graph, v: int): (c: seq<int>)
    requires g.Valid() && v in Scheduled(g)
    ensures IsChain(g, c) && c[|c| - 1] == v && |c| - 1 == Level(g, v)
    ensures forall i :: 0 <= i < |c| ==> c[i] in Scheduled(g)
    decreases Level(g, v)
  {
    ParentsOnLowerLevel(g, v);
    if Level(g, v) == 0 then [v]
    else
      ParentOneLevelLower(g, v);
      var d :| d in g.parents[v] && d in Scheduled(g) && Level(g, d) == Level(g, v) - 1;
      var c := ChainTo(g, d);
      assert forall i :: 0 <= i < |c| ==> (c + [v])[i] == c[i];
      c + [v]
  }

  /** The critical path is the longest chain, in edges, ending at a scheduled id. */
  lemma CriticalPathIsLongestChain(g: Graph)
    requires g.Valid()
    ensures forall c :: IsChain(g, c) && c[|c| - 1] in Scheduled(g) ==> |c| - 1 <= CriticalPath(g)
    ensures Scheduled(g) != {} ==>
              exists c :: IsChain(g, c) && c[|c| - 1] in Scheduled(g) && |c| - 1 == CriticalPath(g)
  {
    CriticalPathIsMaxLevel(g);
    forall c | IsChain(g, c) && c[|c| - 1] in Scheduled(g)
      ensures |c| - 1 <= CriticalPath(g)
    {
      ChainBound(g, c);
    }
    if Scheduled(g) != {} {
      var v :| v in Scheduled(g) && Level(g, v) == CriticalPath(g);
      var c := ChainTo(g, v);
      assert IsChain(g, c) && c[|c| - 1] in Scheduled(g);
    }
  }

  /**
   * The first layer is exactly the ids with no parent in the graph; there is
   * none exactly when every id has one. In the planner's graph a dependency on
   * an id no script has is no parent, so such a script still runs first.
   */
  lemma FirstLayerIsSources(g: Graph)
    requires g.Valid()
    ensures Layers(g) != [] ==> forall v :: v in Layers(g)[0] <==> v in g.ids && g.parents[v] == []
    ensures Layers(g) == [] <==> forall v :: v in g.ids ==> g.parents[v] != []
  {
    forall v | v in g.ids
      ensures v in Ready(g, {}) <==> g.parents[v] == []
    {
      if g.parents[v] != [] {
        var none: set<int> := {};
        var d := g.parents[v][0];
        assert d in g.parents[v] && d !in none;
        assert v !in Ready(g, none);
      } else {
        var none: set<int> := {};
        assert forall d :: d in g.parents[v] ==> d in none;
      }
    }
    if Ready(g, {}) != {} {
      PeelStep(g, {});
      NonEmpty(Ready(g, {}));
      var v :| v in Ready(g, {});
      assert v in g.ids && g.parents[v] == [];
    }
  }

  /** Without edges everything runs in one wave and the critical path is 0; with no ids there are no waves. */
  lemma CriticalPathWithoutEdges(g: Graph)
    requires g.Valid() && forall v :: v in g.ids ==> g.parents[v] == []
    ensures CriticalPath(g) == 0
    ensures g.ids != {} ==> Layers(g) == [g.ids]
    ensures g.ids == {} ==> Layers(g) == []
  {
    ReadyIs(g, {}, g.ids);
    if g.ids == {} {
      NothingReady(g);
    } else {
      PeelStep(g, {});
      assert {} + g.ids == g.ids;
      ReadyIs(g, g.ids, {});
      assert Peel(g, g.ids) == [];
    }
  }

  /** A dependency of an id in wave i runs in a wave before i. */
  lemma EarlierWave(g: Graph, ls: seq<set<int>>, i: int, v: int, d: int)
    requires g.Valid() && RespectsDependencies(g, ls) && 0 <= i < |ls| && v in ls[i] && v in g.ids && d in g.parents[v]
    ensures i > 0 && exists j :: 0 <= j < i && d in ls[j]
  {
  }

  /** In any schedule that runs every dependency in an earlier wave, a scheduled id sits no earlier than its level. */
  lemma WaveIndexAtLeastLevel(g: Graph, ls: seq<set<int>>, v: int, i: int)
    requires g.Valid() && RespectsDependencies(g, ls) && 0 <= i < |ls| && v in ls[i] && v in Scheduled(g)
    ensures i >= Level(g, v)
    decreases Level(g, v)
  {
    if Level(g, v) > 0 {
      ParentOneLevelLower(g, v);
      var d :| d in g.parents[v] && d in Scheduled(g) && Level(g, d) == Level(g, v) - 1;
      var j :| 0 <= j < i && d in ls[j];
      WaveIndexAtLeastLevel(g, ls, d, j);
    }
  }

  /**
   * No schedule that places every schedulable id and runs every dependency in an
   * earlier wave has fewer than critical path + 1 waves; the reference layers have
   * exactly that many, so they are a shortest such schedule.
   */
  lemma LayersAreShortest(g: Graph, ls: seq<set<int>>)
    requires g.Valid() && Scheduled(g) != {} && RespectsDependencies(g, ls)
    requires forall v :: v in Scheduled(g) ==> exists i :: 0 <= i < |ls| && v in ls[i]
    ensures |Layers(g)| == CriticalPath(g) + 1 <= |ls|
  {
    CriticalPathIsMaxLevel(g);
    var v :| v in Scheduled(g) && Level(g, v) == CriticalPath(g);
    var i :| 0 <= i < |ls| && v in ls[i];
    WaveIndexAtLeastLevel(g, ls, v, i);
  }

  /**
   * The headline theorem: on acyclic input without missing dependencies and with
   * at least one script, the planner's waves number exactly the validator's
   * critical path + 1.
   */
  lemma PlannerMeetsValidator(scripts: seq<Script>, waves: seq<seq<int>>)
    requires DistinctIds(scripts) && NoMissingDependencies(scripts) && scripts != []
    requires !HasCycle(KnownDependencyGraph(scripts))
    requires WaveSets(waves) == Layers(KnownDependencyGraph(scripts))
    ensures |waves| == CriticalPath(DeclaredDependencyGraph(scripts)) + 1
  {
    var g := KnownDependencyGraph(scripts);
    GraphsAgree(scripts);
    KnownGraphShape(scripts);
    CycleIffUnscheduled(g);
    DistinctIdsCount(scripts);
    assert Scheduled(g) != {};
    CriticalPathIsMaxLevel(g);
  }

  /** Every dependency names a smaller id: the shape of the stress test's generated input. */
  predicate DependsOnSmallerIds(scripts: seq<Script>)
  {
    forall i, d :: 0 <= i < |scripts| && d in scripts[i].deps ==> d < scripts[i].id
  }

  /**
   * When every dependency on a known id names a smaller id, the planner's graph
   * has no cycle: the least id of any set waits for nobody in it.
   */
  lemma SmallerIdsAcyclic(scripts: seq<Script>)
    requires forall i, d :: 0 <= i < |scripts| && d in scripts[i].deps && d in IdSet(scripts) ==> d < scripts[i].id
    ensures !HasCycle(KnownDependencyGraph(scripts))
  {
    var g := KnownDependencyGraph(scripts);
    var m := DependencyMap(scripts);
    forall c | c != {} && c <= g.ids
      ensures !Blocked(g, c)
    {
      var least := Min(c);
      forall d | d in g.parents[least]
        ensures d !in c
      {
        KnownOnlyOccurrences(m[least], g.ids);
        DependencyMapEntries(scripts, least, d);
      }
      assert !WaitsWithin(g, least, c);
    }
  }

  /**
   * The stress test as a proof: for every input shaped like its generator's
   * output (distinct ids, every dependency an existing smaller id, at least one
   * script), planning succeeds, places every script, warns about nothing, and
   * the validator accepts the plan as optimal.
   */
  method PlanAndValidate(scripts: seq<Script>)
    returns (result: Result<ExecutionPlan, PlanError>, optimal: bool)
    requires DistinctIds(scripts) && NoMissingDependencies(scripts) && DependsOnSmallerIds(scripts)
    requires scripts != []
    ensures result.Ok? && optimal
    ensures result.Ok? ==> result.value.TotalScripts() == |scripts| && result.value.warnings == []
  {
    SmallerIdsAcyclic(scripts);
    result := ExecutionPlanner.Plan(scripts);
    PlannerMeetsValidator(scripts, result.value.waves);
    NoWarningsIffNoMissing(scripts);
    optimal := PlanValidator.IsOptimal(result.value, scripts);
  }
}
