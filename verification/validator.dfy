/**
 * The plan validator: an independent oracle that checks a plan holds every
 * script exactly once and recomputes the critical-path length with its own Kahn
 * traversal and a longest-path table. Its graph keeps every declared
 * dependency, so an id that waits for an unknown id never becomes ready.
 */
module PlanValidator {
  import opened Collections
  import opened DependencyLevels
  import opened KahnState
  import opened Scripts

  /**
   * The plan lists no id twice and lists exactly the scripts' ids: the id set of
   * the flattened plan is as large as the list and equals the set of script ids.
   */
  function ContainsEveryScriptExactlyOnce(plan: ExecutionPlan, scripts: seq<Script>): (r: bool)
    ensures r <==> NoDuplicates(Flatten(plan.waves)) && Elems(Flatten(plan.waves)) == IdSet(scripts)
  {
    var waveIds := Flatten(plan.waves);
    var uniqueWaveIds := Elems(waveIds);
    DistinctCardinality(waveIds);
    |uniqueWaveIds| == |waveIds| && uniqueWaveIds == IdSet(scripts)
  }

  /** Every id of `ids` occurs exactly once in `s`, and no other id occurs. */
  ghost predicate OnceEach(s: seq<int>, ids: set<int>)
  {
    forall x :: Count(s, x) == (if x in ids then 1 else 0)
  }

  /**
   * "Exactly once" read literally: the check holds iff every script id occurs
   * once in the flattened plan and no other id occurs at all.
   */
  lemma ExactlyOnceCounts(plan: ExecutionPlan, scripts: seq<Script>)
    ensures ContainsEveryScriptExactlyOnce(plan, scripts) <==> OnceEach(Flatten(plan.waves), IdSet(scripts))
  {
    var s, ids := Flatten(plan.waves), IdSet(scripts);
    if ContainsEveryScriptExactlyOnce(plan, scripts) {
      forall x ensures Count(s, x) == (if x in ids then 1 else 0) {
        NoDuplicatesCount(s, x);
      }
    }
    if OnceEach(s, ids) {
      forall i, j | 0 <= i < j < |s| ensures s[i] != s[j] {
        RepeatCountsTwice(s, i, j);
        assert Count(s, s[i]) <= 1;
      }
      forall x ensures x in Elems(s) <==> x in ids {
        CountMembership(s, x);
      }
    }
  }

  // ---------------------------------------------------------------------------
  // Graph building, with no filtering of unknown ids

  /**
   * The validator's build state agrees with a dependency map `m`: each id of `m`
   * counts all its declared dependencies, and each parent (known or not) lists
   * each child once per occurrence of the parent in the child's list.
   */
  ghost predicate DeclaredAgrees(m: map<int, seq<int>>, dependents: map<int, seq<int>>, remaining: map<int, int>)
  {
    && remaining.Keys == m.Keys
    && (forall v :: v in m ==> remaining[v] == |m[v]|)
    && forall p, c :: Count(Children(dependents, p), c) == (if c in m then Count(m[c], p) else 0)
  }

  /** An id seen for the first time gets a zero counter and no dependencies. */
  lemma DeclaredStart(m: map<int, seq<int>>, dependents: map<int, seq<int>>, remaining: map<int, int>, id: int)
    requires DeclaredAgrees(m, dependents, remaining) && id !in m
    ensures DeclaredAgrees(m[id := []], dependents, remaining[id := 0])
  {
    forall p, c
      ensures Count(Children(dependents, p), c) == (if c in m[id := []] then Count(m[id := []][c], p) else 0)
    {
      if c == id {
        assert c !in m;
      }
    }
  }

  /** Every declared dependency adds one reverse edge and one to the counter. */
  lemma DeclaredEdge(m: map<int, seq<int>>, dependents: map<int, seq<int>>, remaining: map<int, int>, id: int, d: int)
    requires DeclaredAgrees(m, dependents, remaining) && id in m
    ensures DeclaredAgrees(m[id := m[id] + [d]], dependents[d := Children(dependents, d) + [id]],
                           remaining[id := remaining[id] + 1])
  {
    var m' := m[id := m[id] + [d]];
    var dependents' := dependents[d := Children(dependents, d) + [id]];
    forall p, c
      ensures Count(Children(dependents', p), c) == (if c in m' then Count(m'[c], p) else 0)
    {
      var was := if c in m then Count(m[c], p) else 0;
      assert Count(Children(dependents, p), c) == was;
      if c == id {
        CountSnoc(m[id], d, p);
      } else {
        assert (if c in m' then Count(m'[c], p) else 0) == was;
      }
      if p == d {
        CountSnoc(Children(dependents, d), id, c);
      } else {
        assert Children(dependents', p) == Children(dependents, p);
      }
    }
  }

  /** Adding one more script to the prefix appends its list to its id's entry. */
  lemma DependencyMapStep(scripts: seq<Script>, i: nat)
    requires i < |scripts|
    ensures var m := DependencyMap(scripts[..i]);
            var s := scripts[i];
            DependencyMap(scripts[..i + 1]) == m[s.id := (if s.id in m then m[s.id] else []) + s.deps]
  {
    assert scripts[..i + 1][..i] == scripts[..i];
  }

  /** The `j`-th declared dependency of `id` extends its list in the map by one entry. */
  lemma DeclaredEdgeAt(m: map<int, seq<int>>, id: int, base: seq<int>, deps: seq<int>, j: nat,
                       dependents: map<int, seq<int>>, remaining: map<int, int>)
    requires j < |deps| && DeclaredAgrees(m[id := base + deps[..j]], dependents, remaining)
    ensures id in remaining
    ensures DeclaredAgrees(m[id := base + deps[..j + 1]], dependents[deps[j] := Children(dependents, deps[j]) + [id]],
                           remaining[id := remaining[id] + 1])
  {
    var current := m[id := base + deps[..j]];
    PrefixSnoc(deps, j);
    assert base + deps[..j + 1] == (base + deps[..j]) + [deps[j]];
    assert m[id := base + deps[..j + 1]] == current[id := current[id] + [deps[j]]];
    DeclaredEdge(current, dependents, remaining, id, deps[j]);
  }

  /**
   * The body of the build loop for one script: a counter at 0 unless the id has one,
   * then one reverse edge and one counter increment per declared dependency.
   */
  method AddDeclaredScript(ghost m: map<int, seq<int>>, s: Script, dependents: map<int, seq<int>>,
                           remainingDeps: map<int, int>)
    returns (dependents': map<int, seq<int>>, remaining: map<int, int>)
    requires DeclaredAgrees(m, dependents, remainingDeps)
    ensures DeclaredAgrees(m[s.id := (if s.id in m then m[s.id] else []) + s.deps], dependents', remaining)
  {
    ghost var base: seq<int> := if s.id in m then m[s.id] else [];
    dependents' := dependents;
    remaining := remainingDeps;
    if s.id !in remaining {
      DeclaredStart(m, dependents, remainingDeps, s.id);
      remaining := remaining[s.id := 0];
    }
    assert base + s.deps[..0] == base;
    if s.id in m {
      assert m[s.id := base] == m;
    }
    for j := 0 to |s.deps|
      invariant DeclaredAgrees(m[s.id := base + s.deps[..j]], dependents', remaining)
    {
      var parentId := s.deps[j];
      DeclaredEdgeAt(m, s.id, base, s.deps, j, dependents', remaining);
      dependents' := dependents'[parentId := Children(dependents', parentId) + [s.id]];
      remaining := remaining[s.id := remaining[s.id] + 1];
    }
    WholeSlice(s.deps);
  }

  /**
   * The validator's own build: every declared dependency, known or not, becomes a
   * reverse edge and counts towards the script's counter.
   */
  method BuildDependencyGraph(scripts: seq<Script>) returns (dependents: map<int, seq<int>>, remaining: map<int, int>)
    ensures DeclaredDependencyGraph(scripts).Valid()
    ensures CountsAgree(DeclaredDependencyGraph(scripts), remaining, {})
    ensures DependentsMatch(DeclaredDependencyGraph(scripts), dependents)
  {
    dependents := map[];
    remaining := map[];
    for i := 0 to |scripts|
      invariant DeclaredAgrees(DependencyMap(scripts[..i]), dependents, remaining)
    {
      DependencyMapStep(scripts, i);
      dependents, remaining := AddDeclaredScript(DependencyMap(scripts[..i]), scripts[i], dependents, remaining);
    }
    WholeSlice(scripts);
    ghost var g := DeclaredDependencyGraph(scripts);
    forall v | v in g.ids
      ensures remaining[v] == Pending(g.parents[v], {})
    {
      PendingNoneDone(g.parents[v]);
    }
  }

  // ---------------------------------------------------------------------------
  // The longest-path table

  /**
   * The depth a table entry should hold given the dequeued ids `done`: the
   * largest level + 1 over the entries of `ds` already dequeued, 0 if none.
   */
  ghost function ParentDepth(g: Graph, ds: seq<int>, done: set<int>): nat
    requires g.Valid() && done <= Scheduled(g)
  {
    if ds == [] then 0
    else
      var d := ds[|ds| - 1];
      Max(ParentDepth(g, ds[..|ds| - 1], done), if d in done then Level(g, d) + 1 else 0)
  }

  /** An id has a table entry once it is ready at the start, or once one of its parents is dequeued. */
  ghost predicate Touched(ds: seq<int>, done: set<int>)
  {
    ds == [] || exists d :: d in ds && d in done
  }

  /**
   * The table after dequeuing `done`: each dequeued id holds its level, and an id
   * not yet dequeued has an entry exactly when touched, holding its parent depth.
   */
  ghost predicate DepthAgrees(g: Graph, depth: map<int, int>, done: set<int>)
    requires g.Valid() && done <= Scheduled(g)
  {
    && depth.Keys <= g.ids
    && (forall v :: v in done ==> v in depth && depth[v] == Level(g, v))
    && forall v :: v in g.ids && v !in done ==>
         (v in depth <==> Touched(g.parents[v], done)) && (v in depth ==> depth[v] == ParentDepth(g, g.parents[v], done))
  }

  /** No dequeued parent: depth 0. */
  lemma {:induction false} ParentDepthUntouched(g: Graph, ds: seq<int>, done: set<int>)
    requires g.Valid() && done <= Scheduled(g)
    requires forall d :: d in ds ==> d !in done
    ensures ParentDepth(g, ds, done) == 0
    decreases |ds|
  {
    if ds != [] {
      ParentDepthUntouched(g, ds[..|ds| - 1], done);
    }
  }

  /** Dequeuing p raises the parent depth of its children to at least p's level + 1, and nobody else's. */
  lemma {:induction false} ParentDepthAdd(g: Graph, ds: seq<int>, done: set<int>, p: int)
    requires g.Valid() && done + {p} <= Scheduled(g) && p !in done
    ensures ParentDepth(g, ds, done + {p}) ==
            if p in ds then Max(ParentDepth(g, ds, done), Level(g, p) + 1) else ParentDepth(g, ds, done)
    decreases |ds|
  {
    if ds != [] {
      var n := |ds| - 1;
      assert ds == ds[..n] + [ds[n]];
      ParentDepthAdd(g, ds[..n], done, p);
    }
  }

  /** The parent depth is at most any bound every dequeued parent stays below. */
  lemma {:induction false} ParentDepthBound(g: Graph, ds: seq<int>, done: set<int>, b: nat)
    requires g.Valid() && done <= Scheduled(g)
    requires forall d :: d in ds && d in done ==> Level(g, d) + 1 <= b
    ensures ParentDepth(g, ds, done) <= b
    decreases |ds|
  {
    if ds != [] {
      var n := |ds| - 1;
      assert forall d :: d in ds[..n] ==> d in ds;
      ParentDepthBound(g, ds[..n], done, b);
    }
  }

  /** The parent depth is at least each dequeued parent's level + 1. */
  lemma {:induction false} ParentDepthAtLeast(g: Graph, ds: seq<int>, done: set<int>, d: int)
    requires g.Valid() && done <= Scheduled(g) && d in ds && d in done
    ensures ParentDepth(g, ds, done) >= Level(g, d) + 1
    decreases |ds|
  {
    var n := |ds| - 1;
    if ds[n] != d {
      assert d in ds[..n] by {
        assert ds == ds[..n] + [ds[n]];
      }
      ParentDepthAtLeast(g, ds[..n], done, d);
    }
  }

  /** When all of an id's parents are dequeued, its parent depth is its level: the DP is exact. */
  lemma DepthAtDequeue(g: Graph, v: int, done: set<int>)
    requires g.Valid() && done <= Scheduled(g) && v in Scheduled(g) && v in g.ids
    requires forall d :: d in g.parents[v] ==> d in done
    ensures ParentDepth(g, g.parents[v], done) == Level(g, v)
  {
    ParentsOnLowerLevel(g, v);
    ParentDepthBound(g, g.parents[v], done, Level(g, v));
    LevelZeroIffNoParents(g, v);
    if Level(g, v) > 0 {
      ParentOneLevelLower(g, v);
      var d :| d in g.parents[v] && d in Scheduled(g) && Level(g, d) == Level(g, v) - 1;
      ParentDepthAtLeast(g, g.parents[v], done, d);
    }
  }

  /** An id whose parents are all scheduled is scheduled. */
  lemma ReadyIsScheduled(g: Graph, done: set<int>, v: int)
    requires g.Valid() && done <= Scheduled(g) && v in Ready(g, done)
    ensures v in Scheduled(g)
  {
    ScheduledClosed(g);
  }

  // ---------------------------------------------------------------------------
  // The traversal

  /**
   * The ids whose counter is 0, each once, in the (unspecified) iteration order
   * of the counter map, each entered in the table at depth 0.
   */
  method InitDepths(ghost g: Graph, remainingDeps: map<int, int>) returns (readyQueue: seq<int>, depth: map<int, int>)
    requires CountsAgree(g, remainingDeps, {})
    ensures QueueAgrees(remainingDeps, {}, readyQueue)
    ensures {} <= Scheduled(g) && DepthAgrees(g, depth, {})
  {
    readyQueue := [];
    depth := map[];
    var unvisited := remainingDeps.Keys;
    while unvisited != {}
      invariant unvisited <= remainingDeps.Keys
      invariant NoDuplicates(readyQueue)
      invariant forall v :: v in readyQueue <==> v in remainingDeps && v !in unvisited && remainingDeps[v] == 0
      invariant depth.Keys == Elems(readyQueue) && forall v :: v in depth ==> depth[v] == 0
      decreases unvisited
    {
      NonEmpty(unvisited);
      var id :| id in unvisited;
      if remainingDeps[id] == 0 {
        NoDuplicatesSnoc(readyQueue, id);
        readyQueue := readyQueue + [id];
        depth := depth[id := 0];
      }
      unvisited := unvisited - {id};
    }
    forall v | v in g.ids
      ensures (v in depth <==> Touched(g.parents[v], {})) && (v in depth ==> depth[v] == ParentDepth(g, g.parents[v], {}))
    {
      PendingNoneDone(g.parents[v]);
      ParentDepthUntouched(g, g.parents[v], {});
    }
  }

  /**
   * The table part of the release loop: after the first j children of p, a child
   * already reached holds its new parent depth, and every other id is as before.
   */
  ghost predicate DepthMidRelease(g: Graph, depth: map<int, int>, done: set<int>, p: int, released: seq<int>)
    requires g.Valid() && done + {p} <= Scheduled(g)
  {
    && depth.Keys <= g.ids
    && (forall v :: v in done + {p} ==> v in depth && depth[v] == Level(g, v))
    && forall v :: v in g.ids && v !in done + {p} ==>
         if Count(released, v) > 0 then v in depth && depth[v] == ParentDepth(g, g.parents[v], done + {p})
         else (v in depth <==> Touched(g.parents[v], done)) && (v in depth ==> depth[v] == ParentDepth(g, g.parents[v], done))
  }

  /** Before the release loop: p holds its level and nobody has been reached yet. */
  lemma DepthReleaseStart(g: Graph, depth: map<int, int>, done: set<int>, p: int)
    requires g.Valid() && done + {p} <= Scheduled(g) && p !in done
    requires DepthAgrees(g, depth, done) && p in depth && depth[p] == Level(g, p)
    ensures DepthMidRelease(g, depth, done, p, [])
  {
  }

  /** Reaching the next child of p raises its depth to at least one more than p's. */
  lemma DepthReleaseAdvance(g: Graph, depth: map<int, int>, done: set<int>, p: int, children: seq<int>, j: nat,
                            parentDepth: int)
    requires g.Valid() && done + {p} <= Scheduled(g) && p !in done && j < |children|
    requires DepthMidRelease(g, depth, done, p, children[..j]) && parentDepth == Level(g, p)
    requires children[j] in g.ids && children[j] !in done + {p} && p in g.parents[children[j]]
    ensures DepthMidRelease(g, depth[children[j] := if children[j] in depth then Max(depth[children[j]], parentDepth + 1)
                                                    else parentDepth + 1], done, p, children[..j + 1])
  {
    var c := children[j];
    ParentDepthAdd(g, g.parents[c], done, p);
    forall v | v in g.ids && v !in done + {p}
      ensures Count(children[..j + 1], v) == Count(children[..j], v) + (if v == c then 1 else 0)
    {
      CountPrefixStep(children, j, v);
    }
    if Count(children[..j], c) == 0 && c !in depth {
      ParentDepthUntouched(g, g.parents[c], done);
    }
  }

  /** After the last child, the table agrees with p dequeued. */
  lemma DepthReleaseComplete(g: Graph, dependents: map<int, seq<int>>, depth: map<int, int>, done: set<int>, p: int)
    requires g.Valid() && DependentsMatch(g, dependents) && done + {p} <= Scheduled(g) && p !in done
    requires DepthMidRelease(g, depth, done, p, Children(dependents, p))
    ensures DepthAgrees(g, depth, done + {p})
  {
    forall v | v in g.ids && v !in done + {p}
      ensures (v in depth <==> Touched(g.parents[v], done + {p}))
      ensures (v in depth ==> depth[v] == ParentDepth(g, g.parents[v], done + {p}))
    {
      CountMembership(g.parents[v], p);
      CountMembership(Children(dependents, p), v);
      ParentDepthAdd(g, g.parents[v], done, p);
      if p !in g.parents[v] {
        assert Touched(g.parents[v], done + {p}) <==> Touched(g.parents[v], done);
      }
    }
  }

  /** Reaching the j-th child of p raises its depth to at least one more than p's. */
  method RaiseDepth(ghost g: Graph, ghost done: set<int>, p: int, children: seq<int>, j: nat, parentDepth: int,
                    depthIn: map<int, int>)
    returns (depth: map<int, int>)
    requires g.Valid() && done + {p} <= Scheduled(g) && p !in done && j < |children|
    requires DepthMidRelease(g, depthIn, done, p, children[..j]) && parentDepth == Level(g, p)
    requires children[j] in g.ids && children[j] !in done + {p} && p in g.parents[children[j]]
    ensures DepthMidRelease(g, depth, done, p, children[..j + 1])
  {
    var childId := children[j];
    DepthReleaseAdvance(g, depthIn, done, p, children, j, parentDepth);
    depth := depthIn[childId := if childId in depthIn then Max(depthIn[childId], parentDepth + 1) else parentDepth + 1];
  }

  /**
   * The inner loop of the traversal for a dequeued p at depth `parentDepth`:
   * raises each child's table entry to at least `parentDepth + 1`, decrements
   * its counter, and releases it when the counter reaches 0.
   */
  method ReleaseWithDepth(ghost g: Graph, dependents: map<int, seq<int>>, ghost done: set<int>, p: int,
                          parentDepth: int, remainingDeps: map<int, int>, ghost readyQueue: seq<int>,
                          depthIn: map<int, int>)
    returns (remaining: map<int, int>, released: seq<int>, depth: map<int, int>)
    requires CountsAgree(g, remainingDeps, done) && DownClosed(g, done) && DependentsMatch(g, dependents)
    requires p in g.ids && p !in done && forall d :: d in g.parents[p] ==> d in done
    requires QueueAgrees(remainingDeps, done + {p}, readyQueue)
    requires done + {p} <= Scheduled(g) && DepthAgrees(g, depthIn, done)
    requires p in depthIn && depthIn[p] == parentDepth == Level(g, p)
    ensures CountsAgree(g, remaining, done + {p})
    ensures QueueAgrees(remaining, done + {p}, readyQueue + released)
    ensures DepthAgrees(g, depth, done + {p})
  {
    var children := Children(dependents, p);
    remaining := remainingDeps;
    released := [];
    depth := depthIn;
    WholeSlice(readyQueue);
    DepthReleaseStart(g, depth, done, p);
    for j := 0 to |children|
      invariant remaining.Keys == g.ids
      invariant forall v :: v in g.ids ==>
                  remaining[v] == Pending(g.parents[v], done) - Count(children[..j], v)
      invariant QueueAgrees(remaining, done + {p}, readyQueue + released)
      invariant DepthMidRelease(g, depth, done, p, children[..j])
    {
      ReleaseStep(g, dependents, done, p, j, remaining);
      depth := RaiseDepth(g, done, p, children, j, parentDepth, depth);
      remaining, released := DecrementChild(g, dependents, done, p, j, remaining, readyQueue, released);
    }
    WholeSlice(children);
    ReleaseComplete(g, dependents, done, p, remaining);
    DepthReleaseComplete(g, dependents, depth, done, p);
  }

  /** `maxDepth` is the largest level among the dequeued ids, 0 before any. */
  ghost predicate MaxAgrees(g: Graph, maxDepth: int, done: set<int>)
    requires g.Valid() && done <= Scheduled(g)
  {
    && (forall v :: v in done ==> Level(g, v) <= maxDepth)
    && (done == {} ==> maxDepth == 0)
    && (done != {} ==> exists v :: v in done && Level(g, v) == maxDepth)
  }

  /** Once the queue runs dry the dequeued ids are exactly the scheduled ones, and the largest level is the critical path. */
  lemma TraversalComplete(g: Graph, done: set<int>, maxDepth: int)
    requires g.Valid() && done <= Scheduled(g) && Ready(g, done) == {} && MaxAgrees(g, maxDepth, done)
    ensures done == Scheduled(g)
    ensures maxDepth == CriticalPath(g)
  {
    forall v | v in g.ids && v !in done
      ensures !(forall d :: d in g.parents[v] ==> d in done)
    {
      assert v !in Ready(g, done);
    }
    assert Closed(g, done);
    ScheduledLeast(g, done);
    CriticalPathIsMaxLevel(g);
  }

  /**
   * One step of the traversal: dequeue the head, release its dependents with
   * their depths, and fold its depth into the running maximum.
   */
  method VisitNext(ghost g: Graph, dependents: map<int, seq<int>>, remainingDeps: map<int, int>, readyQueue: seq<int>,
                   depthIn: map<int, int>, maxDepthIn: int, ghost done: set<int>)
    returns (remaining: map<int, int>, queue: seq<int>, depth: map<int, int>, maxDepth: int)
    requires g.Valid() && DependentsMatch(g, dependents) && readyQueue != []
    requires CountsAgree(g, remainingDeps, done) && DownClosed(g, done) && QueueAgrees(remainingDeps, done, readyQueue)
    requires done <= Scheduled(g) && DepthAgrees(g, depthIn, done) && MaxAgrees(g, maxDepthIn, done)
    ensures readyQueue[0] in g.ids && readyQueue[0] !in done
    ensures CountsAgree(g, remaining, done + {readyQueue[0]}) && DownClosed(g, done + {readyQueue[0]})
    ensures QueueAgrees(remaining, done + {readyQueue[0]}, queue)
    ensures done + {readyQueue[0]} <= Scheduled(g) && DepthAgrees(g, depth, done + {readyQueue[0]})
    ensures MaxAgrees(g, maxDepth, done + {readyQueue[0]})
  {
    var parentId := readyQueue[0];
    Dequeue(g, remainingDeps, done, readyQueue, depthIn);
    var parentDepth := depthIn[parentId];
    var released;
    remaining, released, depth := ReleaseWithDepth(g, dependents, done, parentId, parentDepth, remainingDeps,
                                                   readyQueue[1..], depthIn);
    queue := readyQueue[1..] + released;
    maxDepth := Max(maxDepthIn, parentDepth);
    MaxStep(g, maxDepthIn, done, parentId);
  }

  /** The head of the queue is a scheduled id whose parents are all done, and its table entry is its level. */
  lemma Dequeue(g: Graph, remaining: map<int, int>, done: set<int>, readyQueue: seq<int>, depth: map<int, int>)
    requires g.Valid() && readyQueue != []
    requires CountsAgree(g, remaining, done) && DownClosed(g, done) && QueueAgrees(remaining, done, readyQueue)
    requires done <= Scheduled(g) && DepthAgrees(g, depth, done)
    ensures readyQueue[0] in g.ids && readyQueue[0] !in done
    ensures forall d :: d in g.parents[readyQueue[0]] ==> d in done
    ensures DownClosed(g, done + {readyQueue[0]}) && QueueAgrees(remaining, done + {readyQueue[0]}, readyQueue[1..])
    ensures done + {readyQueue[0]} <= Scheduled(g)
    ensures readyQueue[0] in depth && depth[readyQueue[0]] == Level(g, readyQueue[0])
  {
    var p := readyQueue[0];
    QueueIsReady(g, remaining, done, readyQueue);
    assert p in Ready(g, done);
    ReadyIsScheduled(g, done, p);
    DepthAtDequeue(g, p, done);
    assert Touched(g.parents[p], done) by {
      if g.parents[p] != [] {
        assert g.parents[p][0] in g.parents[p];
      }
    }
    QueuePop(g, remaining, done, readyQueue);
  }

  /** Folding one more dequeued id into the running maximum keeps it the largest level dequeued. */
  lemma MaxStep(g: Graph, maxDepth: int, done: set<int>, p: int)
    requires g.Valid() && done + {p} <= Scheduled(g) && MaxAgrees(g, maxDepth, done)
    ensures MaxAgrees(g, Max(maxDepth, Level(g, p)), done + {p})
  {
    if done == {} {
      assert done + {p} == {p};
    }
  }

  /**
   * The critical-path length of the declared graph: Kahn order with a longest-path
   * table; the largest depth among the dequeued ids. Ids that wait for an unknown
   * id, or sit in or behind a cycle, are never dequeued and add nothing.
   */
  method CriticalPathLength(scripts: seq<Script>) returns (r: int)
    ensures DeclaredDependencyGraph(scripts).Valid()
    ensures r == CriticalPath(DeclaredDependencyGraph(scripts))
  {
    ghost var g := DeclaredDependencyGraph(scripts);
    var dependents, remaining := BuildDependencyGraph(scripts);
    var readyQueue, depth := InitDepths(g, remaining);
    var maxDepth := 0;
    ghost var done: set<int> := {};
    while readyQueue != []
      invariant CountsAgree(g, remaining, done) && DownClosed(g, done) && QueueAgrees(remaining, done, readyQueue)
      invariant done <= Scheduled(g) && DepthAgrees(g, depth, done) && MaxAgrees(g, maxDepth, done)
      decreases g.ids - done
    {
      ghost var parentId := readyQueue[0];
      remaining, readyQueue, depth, maxDepth := VisitNext(g, dependents, remaining, readyQueue, depth, maxDepth, done);
      done := done + {parentId};
    }
    QueueIsReady(g, remaining, done, readyQueue);
    TraversalComplete(g, done, maxDepth);
    r := maxDepth;
  }

  /**
   * The plan is optimal iff it holds every script exactly once and has exactly
   * one wave more than the declared graph's critical path.
   */
  method IsOptimal(plan: ExecutionPlan, scripts: seq<Script>) returns (r: bool)
    ensures DeclaredDependencyGraph(scripts).Valid()
    ensures !ContainsEveryScriptExactlyOnce(plan, scripts) ==> !r
    ensures r <==> && NoDuplicates(Flatten(plan.waves))
                   && Elems(Flatten(plan.waves)) == IdSet(scripts)
                   && |plan.waves| == CriticalPath(DeclaredDependencyGraph(scripts)) + 1
  {
    if !ContainsEveryScriptExactlyOnce(plan, scripts) {
      return false;
    }
    var criticalPathLen := CriticalPathLength(scripts);
    var minimalWaveCount := criticalPathLen + 1;
    r := minimalWaveCount == |plan.waves|;
  }
}
