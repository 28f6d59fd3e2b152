/**
 * Concrete inputs run through the model: the sample data the application
 * plans, a dependency on an unknown id, a two-script cycle and a script that
 * depends on itself. Each input is a parameter pinned down element by element.
 */
module Scenarios {
  import opened Collections
  import opened DependencyLevels
  import opened Scripts
  import ExecutionPlanner
  import PlanValidator
  import Optimality

  /** The application's sample scripts, listed in id order; the application holds them in an unordered set. */
  predicate IsAppScripts(s: seq<Script>)
  {
    && |s| == 5
    && s[0] == Script(1, [4, 5]) && s[1] == Script(2, [1]) && s[2] == Script(3, [4, 5, 1])
    && s[3] == Script(4, [5]) && s[4] == Script(5, [])
  }

  predicate IsAppGraph(g: Graph)
  {
    g.ids == {1, 2, 3, 4, 5} && g.parents == map[1 := [4, 5], 2 := [1], 3 := [4, 5, 1], 4 := [5], 5 := []]
  }

  lemma AppPrefix3(s: seq<Script>)
    requires IsAppScripts(s)
    ensures IdSet(s[..3]) == {1, 2, 3}
    ensures DependencyMap(s[..3]) == map[1 := [4, 5], 2 := [1], 3 := [4, 5, 1]]
  {
    assert s[..0] == [];
    PrefixStep(s, 1);
    assert IdSet(s[..1]) == {1} && DependencyMap(s[..1]) == map[1 := [4, 5]] by {
      assert [] + [4, 5] == [4, 5];
    }
    PrefixStep(s, 2);
    assert IdSet(s[..2]) == {1, 2} && DependencyMap(s[..2]) == map[1 := [4, 5], 2 := [1]] by {
      assert [] + [1] == [1];
    }
    PrefixStep(s, 3);
    assert [] + [4, 5, 1] == [4, 5, 1];
  }

  lemma AppPrefix4(s: seq<Script>)
    requires IsAppScripts(s)
    ensures IdSet(s[..4]) == {1, 2, 3, 4}
    ensures DependencyMap(s[..4]) == map[1 := [4, 5], 2 := [1], 3 := [4, 5, 1], 4 := [5]]
  {
    AppPrefix3(s);
    PrefixStep(s, 4);
    assert [] + [5] == [5];
  }

  lemma AppMap(s: seq<Script>)
    requires IsAppScripts(s)
    ensures IdSet(s) == {1, 2, 3, 4, 5}
    ensures DependencyMap(s) == map[1 := [4, 5], 2 := [1], 3 := [4, 5, 1], 4 := [5], 5 := []]
  {
    AppPrefix4(s);
    PrefixStep(s, 5);
    assert s[..5] == s;
  }

  /** Both graphs of the sample scripts are the sample graph: every dependency names a script. */
  lemma AppGraphs(s: seq<Script>)
    requires IsAppScripts(s)
    ensures DistinctIds(s) && NoMissingDependencies(s)
    ensures IdSet(s) == {1, 2, 3, 4, 5}
    ensures IsAppGraph(DeclaredDependencyGraph(s)) && IsAppGraph(KnownDependencyGraph(s))
  {
    AppMap(s);
    AppWellFormed(s);
    GraphsAgree(s);
  }

  /** The sample ids are distinct and every dependency names one of them. */
  lemma AppWellFormed(s: seq<Script>)
    requires IsAppScripts(s)
    ensures DistinctIds(s) && NoMissingDependencies(s)
  {
    AppMap(s);
    assert forall k :: 0 <= k < |s| ==> s[k].id == k + 1;
    forall i, d | 0 <= i < |s| && d in s[i].deps
      ensures d in IdSet(s)
    {
      if i == 0 {
        assert d in [4, 5];
      } else if i == 1 {
        assert d in [1];
      } else if i == 2 {
        assert d in [4, 5, 1];
      } else if i == 3 {
        assert d in [5];
      }
    }
  }

  lemma AppReady(g: Graph)
    requires IsAppGraph(g)
    ensures g.Valid()
    ensures Ready(g, {}) == {5} && Ready(g, {5}) == {4} && Ready(g, {4, 5}) == {1}
    ensures Ready(g, {1, 4, 5}) == {2, 3} && Ready(g, {1, 2, 3, 4, 5}) == {}
  {
    assert 5 in g.parents[1] && 5 in g.parents[3] && 5 in g.parents[4] && 4 in g.parents[1];
    assert 1 in g.parents[2] && 1 in g.parents[3];
    ReadyIs(g, {}, {5});
    ReadyIs(g, {5}, {4});
    ReadyIs(g, {4, 5}, {1});
    ReadyIs(g, {1, 4, 5}, {2, 3});
    ReadyIs(g, {1, 2, 3, 4, 5}, {});
  }

  /** The sample graph has four layers: 5, then 4, then 1, then 2 and 3 together. */
  lemma AppLayers(g: Graph)
    requires IsAppGraph(g)
    ensures g.Valid() && Layers(g) == [{5}, {4}, {1}, {2, 3}] && CriticalPath(g) == 3
    ensures Scheduled(g) == g.ids
  {
    AppReady(g);
    PeelStep(g, {});
    assert {} + {5} == {5};
    PeelStep(g, {5});
    assert {5} + {4} == {4, 5};
    PeelStep(g, {4, 5});
    assert {4, 5} + {1} == {1, 4, 5};
    PeelStep(g, {1, 4, 5});
    assert {1, 4, 5} + {2, 3} == {1, 2, 3, 4, 5};
    var ls := Layers(g);
    assert ls[1..][1..][1..][1..] == [];
    assert Union(ls[1..][1..][1..]) == {2, 3};
    assert Union(ls[1..][1..]) == {1, 2, 3};
    assert Union(ls[1..]) == {1, 2, 3, 4};
  }

  /** What planning and validating the sample scripts needs to know about them. */
  lemma AppFacts(s: seq<Script>)
    requires IsAppScripts(s)
    ensures DistinctIds(s) && KnownDependencyGraph(s).Valid() && !HasCycle(KnownDependencyGraph(s))
    ensures Layers(KnownDependencyGraph(s)) == [{5}, {4}, {1}, {2, 3}]
    ensures CriticalPath(DeclaredDependencyGraph(s)) == 3
    ensures MissingWarnings(s, IdSet(s)) == []
  {
    AppGraphs(s);
    AppLayers(KnownDependencyGraph(s));
    AppLayers(DeclaredDependencyGraph(s));
    KnownGraphShape(s);
    CycleIffUnscheduled(KnownDependencyGraph(s));
    NoWarningsIffNoMissing(s);
  }

  /**
   * The application's run: waves 5, 4, 1 and then 2 and 3 together, no
   * warnings, five scripts, a critical path of 3, and the validator accepts.
   */
  method AppScenario(scripts: seq<Script>)
    returns (result: Result<ExecutionPlan, PlanError>, criticalPath: int, optimal: bool)
    requires IsAppScripts(scripts)
    ensures result.Ok? && WaveSets(result.value.waves) == [{5}, {4}, {1}, {2, 3}]
    ensures result.Ok? ==> result.value.warnings == [] && result.value.TotalScripts() == 5
    ensures criticalPath == 3 && optimal
  {
    AppFacts(scripts);
    result := ExecutionPlanner.Plan(scripts);
    criticalPath := PlanValidator.CriticalPathLength(scripts);
    optimal := PlanValidator.IsOptimal(result.value, scripts);
  }

  /** Script 1 depends on the unknown id 99. */
  predicate IsMissingScripts(s: seq<Script>)
  {
    |s| == 1 && s[0] == Script(1, [99])
  }

  lemma MissingGraphs(s: seq<Script>)
    requires IsMissingScripts(s)
    ensures DistinctIds(s) && IdSet(s) == {1}
    ensures MissingWarnings(s, {1}) == [MissingDependency(1, 99)]
    ensures KnownDependencyGraph(s) == Graph({1}, map[1 := []])
    ensures DeclaredDependencyGraph(s) == Graph({1}, map[1 := [99]])
  {
    assert s[..0] == [];
    PrefixStep(s, 1);
    assert s[..1] == s && [] + [99] == [99] && [99][..0] == [];
  }

  /**
   * A dependency on an unknown id: one warning naming script 1 and id 99, and
   * the single wave [1]. The validator never dequeues script 1, so its critical
   * path is 0 and it accepts the one wave.
   */
  method MissingDependencyScenario(scripts: seq<Script>)
    returns (result: Result<ExecutionPlan, PlanError>, criticalPath: int, optimal: bool)
    requires IsMissingScripts(scripts)
    ensures result.Ok? && WaveSets(result.value.waves) == [{1}]
    ensures result.Ok? ==> result.value.warnings == [MissingDependency(1, 99)]
    ensures criticalPath == 0 && optimal
  {
    MissingGraphs(scripts);
    var g := KnownDependencyGraph(scripts);
    Optimality.CriticalPathWithoutEdges(g);
    var h := DeclaredDependencyGraph(scripts);
    ReadyIs(h, {}, {});
    NothingReady(h);
    KnownGraphShape(scripts);
    CycleIffUnscheduled(g);
    result := ExecutionPlanner.Plan(scripts);
    criticalPath := PlanValidator.CriticalPathLength(scripts);
    optimal := PlanValidator.IsOptimal(result.value, scripts);
  }

  /** Scripts 1 and 2 wait for each other. */
  predicate IsMutualScripts(s: seq<Script>)
  {
    |s| == 2 && s[0] == Script(1, [2]) && s[1] == Script(2, [1])
  }

  lemma MutualGraph(s: seq<Script>)
    requires IsMutualScripts(s)
    ensures DistinctIds(s) && IdSet(s) == {1, 2}
    ensures KnownDependencyGraph(s) == Graph({1, 2}, map[1 := [2], 2 := [1]])
  {
    assert s[..0] == [];
    PrefixStep(s, 1);
    PrefixStep(s, 2);
    assert s[..2] == s && [] + [2] == [2] && [] + [1] == [1];
    assert [2][..0] == [] && [1][..0] == [];
  }

  /** Two ids that wait for each other form a cycle and nothing is scheduled. */
  lemma MutualCycle(g: Graph)
    requires g.Valid() && g.ids == {1, 2} && 2 in g.parents[1] && 1 in g.parents[2]
    ensures HasCycle(g) && Scheduled(g) == {}
  {
    ReadyIs(g, {}, {});
    NothingReady(g);
    assert Blocked(g, {1, 2});
  }

  lemma MutualFacts(s: seq<Script>)
    requires IsMutualScripts(s)
    ensures DistinctIds(s) && IdSet(s) == {1, 2}
    ensures KnownDependencyGraph(s).Valid() && HasCycle(KnownDependencyGraph(s))
    ensures Scheduled(KnownDependencyGraph(s)) == {}
  {
    MutualGraph(s);
    var g := KnownDependencyGraph(s);
    assert g.parents[1] == [2] && g.parents[2] == [1];
    MutualCycle(g);
  }

  /** A two-script cycle: planning fails and reports both scripts. */
  method MutualCycleScenario(scripts: seq<Script>) returns (result: Result<ExecutionPlan, PlanError>)
    requires IsMutualScripts(scripts)
    ensures result == Err(CycleDetected(2))
  {
    MutualFacts(scripts);
    assert |{1, 2} - {}| == 2;
    result := ExecutionPlanner.Plan(scripts);
    assert result.Err?;
    assert result.error.unscheduled == 2;
  }

  /** Script 1 depends on itself. */
  predicate IsSelfScripts(s: seq<Script>)
  {
    |s| == 1 && s[0] == Script(1, [1])
  }

  /** An id that waits for itself forms a cycle and nothing is scheduled. */
  lemma SelfCycle(g: Graph)
    requires g.Valid() && g.ids == {1} && 1 in g.parents[1]
    ensures HasCycle(g) && Scheduled(g) == {}
  {
    ReadyIs(g, {}, {});
    NothingReady(g);
    assert Blocked(g, {1});
  }

  lemma SelfGraph(s: seq<Script>)
    requires IsSelfScripts(s)
    ensures DistinctIds(s) && IdSet(s) == {1}
    ensures KnownDependencyGraph(s) == Graph({1}, map[1 := [1]])
  {
    assert s[..0] == [];
    PrefixStep(s, 1);
    assert s[..1] == s && [] + [1] == [1] && [1][..0] == [];
  }

  lemma SelfFacts(s: seq<Script>)
    requires IsSelfScripts(s)
    ensures DistinctIds(s) && IdSet(s) == {1}
    ensures KnownDependencyGraph(s).Valid() && HasCycle(KnownDependencyGraph(s))
    ensures Scheduled(KnownDependencyGraph(s)) == {}
  {
    SelfGraph(s);
    var g := KnownDependencyGraph(s);
    assert g.parents[1] == [1];
    SelfCycle(g);
  }

  /** A self-dependency: planning fails and reports one script. */
  method SelfCycleScenario(scripts: seq<Script>) returns (result: Result<ExecutionPlan, PlanError>)
    requires IsSelfScripts(scripts)
    ensures result == Err(CycleDetected(1))
  {
    SelfFacts(scripts);
    assert |{1} - {}| == 1;
    result := ExecutionPlanner.Plan(scripts);
    assert result.Err?;
    assert result.error.unscheduled == 1;
  }
}
