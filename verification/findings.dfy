/**
 * Two inputs on which the validator rejects a plan that is in fact shortest,
 * and a corrected validator that accepts every plan the planner produces.
 *
 * 1. No scripts: the planner returns no waves, the critical path is 0, and the
 *    validator demands 0 + 1 waves.
 * 2. A dependency on an unknown id: the planner drops the edge and schedules
 *    the script, but the validator still counts it, so that script and
 *    everything downstream never reach the ready queue and drop out of the
 *    critical path.
 */
module Findings {
  import opened Collections
  import opened DependencyLevels
  import opened Scripts
  import ExecutionPlanner
  import PlanValidator
  import Optimality

  /** The scripts with every dependency on an id outside `ids` removed. */
  function KnownScripts(scripts: seq<Script>, ids: set<int>): (r: seq<Script>)
    ensures |r| == |scripts|
    ensures forall i :: 0 <= i < |scripts| ==> r[i].id == scripts[i].id && r[i].deps == KnownOnly(scripts[i].deps, ids)
  {
    seq(|scripts|, i requires 0 <= i < |scripts| => Script(scripts[i].id, KnownOnly(scripts[i].deps, ids)))
  }

  lemma {:induction false} KnownOnlyAppend(a: seq<int>, b: seq<int>, ids: set<int>)
    ensures KnownOnly(a + b, ids) == KnownOnly(a, ids) + KnownOnly(b, ids)
    decreases |b|
  {
    if b == [] {
      assert a + b == a;
    } else {
      var n := |b| - 1;
      assert a + b == (a + b[..n]) + [b[n]];
      SnocDependency(0, a + b[..n], b[n], ids);
      SnocDependency(0, b[..n], b[n], ids);
      assert b == b[..n] + [b[n]];
      KnownOnlyAppend(a, b[..n], ids);
    }
  }

  /** Filtering each script's list and then joining per id is joining per id and then filtering. */
  lemma {:induction false} KnownScriptsMap(scripts: seq<Script>, ids: set<int>)
    ensures IdSet(KnownScripts(scripts, ids)) == IdSet(scripts)
    ensures forall v :: v in DependencyMap(scripts) ==>
              DependencyMap(KnownScripts(scripts, ids))[v] == KnownOnly(DependencyMap(scripts)[v], ids)
    decreases |scripts|
  {
    if scripts != [] {
      var n := |scripts| - 1;
      var k := KnownScripts(scripts, ids);
      assert k[..n] == KnownScripts(scripts[..n], ids);
      KnownScriptsMap(scripts[..n], ids);
      var m := DependencyMap(scripts[..n]);
      var s := scripts[n];
      forall v | v in DependencyMap(scripts)
        ensures DependencyMap(k)[v] == KnownOnly(DependencyMap(scripts)[v], ids)
      {
        if v == s.id {
          KnownOnlyAppend(if s.id in m then m[s.id] else [], s.deps, ids);
        }
      }
    }
  }

  /** Filtering the scripts first makes the validator's graph the planner's. */
  lemma KnownScriptsGraph(scripts: seq<Script>)
    ensures DeclaredDependencyGraph(KnownScripts(scripts, IdSet(scripts))) == KnownDependencyGraph(scripts)
  {
    var a := DeclaredDependencyGraph(KnownScripts(scripts, IdSet(scripts)));
    var b := KnownDependencyGraph(scripts);
    KnownScriptsMap(scripts, IdSet(scripts));
    assert a.ids == b.ids;
    assert a.parents.Keys == b.parents.Keys;
    assert forall v :: v in a.parents ==> a.parents[v] == b.parents[v];
    assert a.parents == b.parents;
  }

  /** The fewest waves a plan of these scripts can have: none for no scripts, critical path + 1 otherwise. */
  ghost function MinimalWaveCount(scripts: seq<Script>): nat
  {
    KnownGraphShape(scripts);
    if scripts == [] then 0 else CriticalPath(KnownDependencyGraph(scripts)) + 1
  }

  /**
   * The corrected validator: the exactly-once check as before, then the critical
   * path of the scripts with unknown dependencies removed, and no extra wave
   * demanded when there are no scripts.
   */
  method IsOptimalCorrected(plan: ExecutionPlan, scripts: seq<Script>) returns (r: bool)
    ensures r <==> && NoDuplicates(Flatten(plan.waves))
                   && Elems(Flatten(plan.waves)) == IdSet(scripts)
                   && |plan.waves| == MinimalWaveCount(scripts)
  {
    if !PlanValidator.ContainsEveryScriptExactlyOnce(plan, scripts) {
      return false;
    }
    var known := KnownScripts(scripts, IdSet(scripts));
    var criticalPathLen := PlanValidator.CriticalPathLength(known);
    KnownScriptsGraph(scripts);
    var minimalWaveCount := if |scripts| == 0 then 0 else criticalPathLen + 1;
    r := minimalWaveCount == |plan.waves|;
  }

  /** On any input without a cycle, the planner's waves number exactly the corrected minimum. */
  lemma PlannerMeetsCorrectedMinimum(scripts: seq<Script>, waves: seq<seq<int>>)
    requires DistinctIds(scripts) && !HasCycle(KnownDependencyGraph(scripts))
    requires WaveSets(waves) == Layers(KnownDependencyGraph(scripts))
    ensures |waves| == MinimalWaveCount(scripts)
  {
    var g := KnownDependencyGraph(scripts);
    KnownGraphShape(scripts);
    CycleIffUnscheduled(g);
    DistinctIdsCount(scripts);
    CriticalPathIsMaxLevel(g);
  }

  /**
   * Planning and then validating with the corrected validator: planning fails
   * exactly on a cycle, and every plan it returns is judged optimal, missing
   * dependencies and empty input included.
   */
  method PlanAndValidateCorrected(scripts: seq<Script>)
    returns (result: Result<ExecutionPlan, PlanError>, optimal: bool)
    requires DistinctIds(scripts)
    ensures KnownDependencyGraph(scripts).Valid()
    ensures result.Ok? <==> !HasCycle(KnownDependencyGraph(scripts))
    ensures result.Ok? ==> optimal
  {
    result := ExecutionPlanner.Plan(scripts);
    if result.Err? {
      return result, false;
    }
    PlannerMeetsCorrectedMinimum(scripts, result.value.waves);
    optimal := IsOptimalCorrected(result.value, scripts);
  }

  /** Finding 1 as written: with no scripts the planner returns no waves and the validator rejects them. */
  method EmptyInputJudgedSuboptimal() returns (result: Result<ExecutionPlan, PlanError>, optimal: bool)
    ensures result.Ok? && result.value.waves == [] && result.value.warnings == []
    ensures !optimal
  {
    Optimality.SmallerIdsAcyclic([]);
    result := ExecutionPlanner.Plan([]);
    TotalSizeAtLeastCount(result.value.waves);
    optimal := PlanValidator.IsOptimal(result.value, []);
  }

  /** Script 1 depends on the unknown id 99, script 2 on script 1. */
  predicate IsUnknownParentScripts(s: seq<Script>)
  {
    |s| == 2 && s[0] == Script(1, [99]) && s[1] == Script(2, [1])
  }

  lemma UnknownParentMap(s: seq<Script>)
    requires IsUnknownParentScripts(s)
    ensures IdSet(s) == {1, 2} && DistinctIds(s)
    ensures DependencyMap(s) == map[1 := [99], 2 := [1]]
  {
    assert s[..0] == [];
    PrefixStep(s, 1);
    PrefixStep(s, 2);
    assert s[..2] == s && [] + [99] == [99] && [] + [1] == [1];
  }

  lemma UnknownParentPlannerGraph(s: seq<Script>)
    requires IsUnknownParentScripts(s)
    ensures IdSet(s) == {1, 2} && DistinctIds(s)
    ensures MissingWarnings(s, {1, 2}) == [MissingDependency(1, 99)]
    ensures 1 in KnownDependencyGraph(s).parents[2]
    ensures forall i, d :: 0 <= i < |s| && d in s[i].deps && d in IdSet(s) ==> d < s[i].id
  {
    UnknownParentMap(s);
    UnknownParentWarnings(s);
    assert KnownOnly([1], {1, 2}) == [1] by {
      assert [1][..0] == [];
    }
  }

  lemma UnknownParentWarnings(s: seq<Script>)
    requires IsUnknownParentScripts(s)
    ensures MissingWarnings(s, {1, 2}) == [MissingDependency(1, 99)]
  {
    var first := s[..1];
    assert MissingOf(1, [99], {1, 2}) == [MissingDependency(1, 99)] by {
      assert [99][..0] == [];
    }
    assert MissingOf(2, [1], {1, 2}) == [] by {
      assert [1][..0] == [];
    }
    assert MissingWarnings(first, {1, 2}) == [MissingDependency(1, 99)] by {
      assert first[..0] == [] && first[0] == s[0];
    }
    assert s[..1] == first;
  }

  lemma UnknownParentValidatorGraph(s: seq<Script>)
    requires IsUnknownParentScripts(s)
    ensures DeclaredDependencyGraph(s).Valid()
    ensures CriticalPath(DeclaredDependencyGraph(s)) == 0
  {
    UnknownParentMap(s);
    var h := DeclaredDependencyGraph(s);
    assert 99 in h.parents[1] && 1 in h.parents[2];
    ReadyIs(h, {}, {});
    NothingReady(h);
  }

  /** A plan that respects the edge 1 -> 2 and places two scripts in non-empty waves has exactly two waves. */
  lemma TwoWavesForOneEdge(g: Graph, waves: seq<seq<int>>)
    requires g.Valid() && 2 in g.ids && 1 in g.parents[2]
    requires RespectsDependencies(g, WaveSets(waves))
    requires 2 in Flatten(waves) && TotalSize(waves) == 2
    requires forall i :: 0 <= i < |waves| ==> waves[i] != []
    ensures |waves| == 2
  {
    var ls := WaveSets(waves);
    TotalSizeAtLeastCount(waves);
    var i := WaveOf(waves, 2);
    assert 2 in ls[i];
    Optimality.EarlierWave(g, ls, i, 2, 1);
  }

  /**
   * Finding 2 as written: the planner warns once and schedules script 1 in an
   * earlier wave than script 2, so exactly two waves; the validator never
   * dequeues either script, finds a critical path of 0 and demands one wave.
   */
  method UnknownParentJudgedSuboptimal(scripts: seq<Script>)
    returns (result: Result<ExecutionPlan, PlanError>, optimal: bool)
    requires IsUnknownParentScripts(scripts)
    ensures result.Ok? && |result.value.waves| == 2
    ensures result.Ok? ==> result.value.warnings == [MissingDependency(1, 99)]
    ensures !optimal
  {
    UnknownParentPlannerGraph(scripts);
    Optimality.SmallerIdsAcyclic(scripts);
    result := ExecutionPlanner.Plan(scripts);
    assert result.Ok?;
    assert 2 in Elems(Flatten(result.value.waves));
    TwoWavesForOneEdge(KnownDependencyGraph(scripts), result.value.waves);
    UnknownParentValidatorGraph(scripts);
    optimal := PlanValidator.IsOptimal(result.value, scripts);
    assert !optimal;
  }
}
