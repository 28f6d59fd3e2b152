/**
 * The execution planner: builds the reverse-edge map and the per-script count of
 * unmet dependencies, runs a layered Kahn sort whose wave boundaries are fixed by
 * the ready-queue size at the start of each wave, and fails with the number of
 * unscheduled scripts when a cycle leaves some of them behind.
 */
module ExecutionPlanner {
  import opened Collections
  import opened DependencyLevels
  import opened KahnState
  import opened Scripts

  /** Parent -> dependents (one entry per declared edge), unmet-dependency counts, warnings. */
  datatype GraphData = GraphData(dependents: map<int, seq<int>>, remainingDeps: map<int, int>, warnings: seq<Warning>)

  /**
   * The build state agrees with a dependency map `m` over the ids seen so far:
   * every id of `m` has a counter equal to its known dependencies, and each
   * parent lists each child once per known occurrence of the parent in its list.
   */
  ghost predicate BuildAgrees(ids: set<int>, m: map<int, seq<int>>, dependents: map<int, seq<int>>,
                              remaining: map<int, int>)
  {
    && remaining.Keys == m.Keys
    && (forall v :: v in m ==> remaining[v] == |KnownOnly(m[v], ids)|)
    && forall p, c :: Count(Children(dependents, p), c) == (if c in m then Count(KnownOnly(m[c], ids), p) else 0)
  }

  /** A new script starts with a zero counter and no dependencies. */
  lemma BuildStart(ids: set<int>, m: map<int, seq<int>>, dependents: map<int, seq<int>>,
                   remaining: map<int, int>, id: int)
    requires BuildAgrees(ids, m, dependents, remaining) && id !in m
    ensures BuildAgrees(ids, m[id := []], dependents, remaining[id := 0])
  {
    forall p, c
      ensures Count(Children(dependents, p), c) ==
              (if c in m[id := []] then Count(KnownOnly(m[id := []][c], ids), p) else 0)
    {
      if c == id {
        assert c !in m;
      }
    }
  }

  /** A known dependency adds one reverse edge and one to the script's counter. */
  lemma BuildEdge(ids: set<int>, m: map<int, seq<int>>, dependents: map<int, seq<int>>,
                  remaining: map<int, int>, id: int, d: int)
    requires BuildAgrees(ids, m, dependents, remaining) && id in m && d in ids
    ensures BuildAgrees(ids, m[id := m[id] + [d]], dependents[d := Children(dependents, d) + [id]],
                        remaining[id := remaining[id] + 1])
  {
    SnocDependency(id, m[id], d, ids);
    var m' := m[id := m[id] + [d]];
    var dependents' := dependents[d := Children(dependents, d) + [id]];
    forall p, c
      ensures Count(Children(dependents', p), c) == (if c in m' then Count(KnownOnly(m'[c], ids), p) else 0)
    {
      BuildEdgeEntry(ids, m, dependents, id, d, p, c);
    }
  }

  /** The edge count of one (parent, child) pair after a known dependency of `id` on `d`. */
  lemma BuildEdgeEntry(ids: set<int>, m: map<int, seq<int>>, dependents: map<int, seq<int>>, id: int, d: int,
                       p: int, c: int)
    requires id in m && d in ids
    requires Count(Children(dependents, p), c) == (if c in m then Count(KnownOnly(m[c], ids), p) else 0)
    ensures Count(Children(dependents[d := Children(dependents, d) + [id]], p), c) ==
            (if c in m[id := m[id] + [d]] then Count(KnownOnly(m[id := m[id] + [d]][c], ids), p) else 0)
  {
    var m' := m[id := m[id] + [d]];
    var dependents' := dependents[d := Children(dependents, d) + [id]];
    var was := if c in m then Count(KnownOnly(m[c], ids), p) else 0;
    if c == id {
      SnocDependency(id, m[id], d, ids);
      CountSnoc(KnownOnly(m[id], ids), d, p);
    } else {
      assert (if c in m' then Count(KnownOnly(m'[c], ids), p) else 0) == was;
    }
    if p == d {
      CountSnoc(Children(dependents, d), id, c);
    } else {
      assert Children(dependents', p) == Children(dependents, p);
    }
  }

  /** A dependency on an unknown id changes neither the edges nor the counters. */
  lemma BuildMissing(ids: set<int>, m: map<int, seq<int>>, dependents: map<int, seq<int>>,
                     remaining: map<int, int>, id: int, d: int)
    requires BuildAgrees(ids, m, dependents, remaining) && id in m && d !in ids
    ensures BuildAgrees(ids, m[id := m[id] + [d]], dependents, remaining)
  {
    SnocDependency(id, m[id], d, ids);
    var m' := m[id := m[id] + [d]];
    assert m'.Keys == m.Keys;
    forall c | c in m'
      ensures KnownOnly(m'[c], ids) == KnownOnly(m[c], ids)
    {
      if c == id {
        assert m'[c] == m[id] + [d];
      } else {
        assert m'[c] == m[c];
      }
    }
  }

  /** Adding a script with a fresh id to the prefix adds its whole list to the dependency map. */
  lemma DependencyMapSnoc(scripts: seq<Script>, i: nat)
    requires DistinctIds(scripts) && i < |scripts|
    ensures scripts[i].id !in DependencyMap(scripts[..i])
    ensures DependencyMap(scripts[..i + 1]) == DependencyMap(scripts[..i])[scripts[i].id := scripts[i].deps]
    ensures MissingWarnings(scripts[..i + 1], IdSet(scripts)) ==
            MissingWarnings(scripts[..i], IdSet(scripts)) + MissingOf(scripts[i].id, scripts[i].deps, IdSet(scripts))
  {
    var prefix := scripts[..i];
    forall k | 0 <= k < |prefix|
      ensures prefix[k].id != scripts[i].id
    {
      assert prefix[k] == scripts[k];
    }
    IdSetMembership(prefix, scripts[i].id);
    PrefixStep(scripts, i + 1);
    assert scripts[..i + 1][..i] == prefix;
    assert scripts[..i + 1][i] == scripts[i];
    assert [] + scripts[i].deps == scripts[i].deps;
  }

  /**
   * The body of the build loop for one script whose id is new: a zero counter,
   * then for each declared dependency in order either a warning (unknown id) or
   * a reverse edge plus one on the counter (known id).
   */
  method AddScript(ids: set<int>, ghost m: map<int, seq<int>>, s: Script, dependents: map<int, seq<int>>,
                   remainingDeps: map<int, int>, warnings: seq<Warning>)
    returns (dependents': map<int, seq<int>>, remaining: map<int, int>, warnings': seq<Warning>)
    requires BuildAgrees(ids, m, dependents, remainingDeps) && s.id !in m
    ensures BuildAgrees(ids, m[s.id := s.deps], dependents', remaining)
    ensures warnings' == warnings + MissingOf(s.id, s.deps, ids)
  {
    BuildStart(ids, m, dependents, remainingDeps, s.id);
    dependents' := dependents;
    remaining := remainingDeps[s.id := 0];
    warnings' := warnings;
    WholeSlice(warnings);
    for j := 0 to |s.deps|
      invariant BuildAgrees(ids, m[s.id := s.deps[..j]], dependents', remaining)
      invariant warnings' == warnings + MissingOf(s.id, s.deps[..j], ids)
    {
      var parentId := s.deps[j];
      ghost var current := m[s.id := s.deps[..j]];
      PrefixSnoc(s.deps, j);
      assert m[s.id := s.deps[..j + 1]] == current[s.id := current[s.id] + [parentId]];
      SnocDependency(s.id, s.deps[..j], parentId, ids);
      if parentId !in ids {
        BuildMissing(ids, current, dependents', remaining, s.id, parentId);
        warnings' := warnings' + [MissingDependency(s.id, parentId)];
      } else {
        BuildEdge(ids, current, dependents', remaining, s.id, parentId);
        dependents' := dependents'[parentId := Children(dependents', parentId) + [s.id]];
        remaining := remaining[s.id := remaining[s.id] + 1];
      }
    }
    WholeSlice(s.deps);
  }

  /** The finished build state agrees with the whole dependency map: the graph data of the planner's graph. */
  lemma BuildComplete(scripts: seq<Script>, dependents: map<int, seq<int>>, remaining: map<int, int>)
    requires BuildAgrees(IdSet(scripts), DependencyMap(scripts), dependents, remaining)
    ensures remaining.Keys == IdSet(scripts)
    ensures forall v :: v in IdSet(scripts) ==> remaining[v] == |KnownDependencyGraph(scripts).parents[v]|
    ensures DependentsMatch(KnownDependencyGraph(scripts), dependents)
  {
  }

  /** Indexing one more script: its id is either taken by an earlier script or extends the distinct prefix. */
  lemma IndexStep(scripts: seq<Script>, k: nat)
    requires k < |scripts| && DistinctIds(scripts[..k])
    ensures IdSet(scripts[..k + 1]) == IdSet(scripts[..k]) + {scripts[k].id}
    ensures scripts[k].id in IdSet(scripts[..k]) ==> exists i :: 0 <= i < k && scripts[i].id == scripts[k].id
    ensures scripts[k].id !in IdSet(scripts[..k]) ==> DistinctIds(scripts[..k + 1])
  {
    var prefix, next := scripts[..k], scripts[..k + 1];
    PrefixStep(scripts, k + 1);
    IdSetMembership(prefix, scripts[k].id);
    forall i | 0 <= i < k
      ensures prefix[i] == scripts[i] == next[i]
    {
    }
    assert next[k] == scripts[k];
  }

  /**
   * The id index the planner builds before anything else. Only membership is
   * ever asked of it, so it is the set of ids; a second script with an id
   * already indexed makes it fail with that id.
   */
  method IndexById(scripts: seq<Script>) returns (index: Result<set<int>, PlanError>)
    ensures index.Ok? <==> DistinctIds(scripts)
    ensures index.Ok? ==> index.value == IdSet(scripts)
    ensures index.Err? ==> index.error.DuplicateScriptId?
    ensures index.Err? ==> exists i, j :: 0 <= i < j < |scripts| && scripts[i].id == index.error.id && scripts[j].id == index.error.id
  {
    var seen: set<int> := {};
    for k := 0 to |scripts|
      invariant seen == IdSet(scripts[..k]) && DistinctIds(scripts[..k])
    {
      IndexStep(scripts, k);
      if scripts[k].id in seen {
        var i :| 0 <= i < k && scripts[i].id == scripts[k].id;
        return Err(DuplicateScriptId(scripts[k].id));
      }
      seen := seen + {scripts[k].id};
    }
    WholeSlice(scripts);
    index := Ok(seen);
  }

  /**
   * Builds the graph data in script order. Every script gets a counter starting
   * at 0; a dependency on an unknown id yields one warning and nothing else; a
   * known one adds the script under its parent and bumps the script's counter,
   * once per occurrence. Fails when two scripts share an id.
   */
  method BuildDirectedAcyclicGraph(scripts: seq<Script>) returns (result: Result<GraphData, PlanError>)
    ensures result.Ok? <==> DistinctIds(scripts)
    ensures result.Err? ==> result.error.DuplicateScriptId?
    ensures result.Err? ==> exists i, j :: 0 <= i < j < |scripts| && scripts[i].id == result.error.id && scripts[j].id == result.error.id
    ensures result.Ok? ==> result.value.remainingDeps.Keys == IdSet(scripts)
    ensures result.Ok? ==> forall v :: v in IdSet(scripts) ==>
              result.value.remainingDeps[v] == |KnownDependencyGraph(scripts).parents[v]|
    ensures result.Ok? ==> DependentsMatch(KnownDependencyGraph(scripts), result.value.dependents)
    ensures result.Ok? ==> result.value.warnings == MissingWarnings(scripts, IdSet(scripts))
  {
    var index := IndexById(scripts);
    if index.Err? {
      return Err(index.error);
    }
    var ids := index.value;
    var dependents: map<int, seq<int>> := map[];
    var remaining: map<int, int> := map[];
    var warnings: seq<Warning> := [];
    for i := 0 to |scripts|
      invariant BuildAgrees(ids, DependencyMap(scripts[..i]), dependents, remaining)
      invariant warnings == MissingWarnings(scripts[..i], ids)
    {
      DependencyMapSnoc(scripts, i);
      // the index holds distinct ids, so every script's counter starts fresh here
      dependents, remaining, warnings := AddScript(ids, DependencyMap(scripts[..i]), scripts[i], dependents, remaining, warnings);
    }
    WholeSlice(scripts);
    BuildComplete(scripts, dependents, remaining);
    result := Ok(GraphData(dependents, remaining, warnings));
  }

  /** The ids whose counter is 0, each once, in the (unspecified) iteration order of the counter map. */
  method InitReadyQueue(remainingDeps: map<int, int>) returns (readyQueue: seq<int>)
    ensures QueueAgrees(remainingDeps, {}, readyQueue)
  {
    readyQueue := [];
    var unvisited := remainingDeps.Keys;
    while unvisited != {}
      invariant unvisited <= remainingDeps.Keys
      invariant NoDuplicates(readyQueue)
      invariant forall v :: v in readyQueue <==> v in remainingDeps && v !in unvisited && remainingDeps[v] == 0
      decreases unvisited
    {
      NonEmpty(unvisited);
      var id :| id in unvisited;
      if remainingDeps[id] == 0 {
        NoDuplicatesSnoc(readyQueue, id);
        readyQueue := readyQueue + [id];
      }
      unvisited := unvisited - {id};
    }
  }

  /**
   * Having just taken p off the queue, decrements the counter of each of p's
   * dependents once per listed edge; a dependent whose counter reaches 0 is
   * released to the back of the queue. Returns the new counters and the released
   * ids in release order; with them appended, the counters and the queue agree
   * with p done.
   */
  method ReleaseDependents(ghost g: Graph, dependents: map<int, seq<int>>, ghost done: set<int>, p: int,
                           remainingDeps: map<int, int>, ghost readyQueue: seq<int>)
    returns (remaining: map<int, int>, released: seq<int>)
    requires CountsAgree(g, remainingDeps, done) && DownClosed(g, done) && DependentsMatch(g, dependents)
    requires p in g.ids && p !in done && forall d :: d in g.parents[p] ==> d in done
    requires QueueAgrees(remainingDeps, done + {p}, readyQueue)
    ensures CountsAgree(g, remaining, done + {p})
    ensures QueueAgrees(remaining, done + {p}, readyQueue + released)
  {
    var children := Children(dependents, p);
    remaining := remainingDeps;
    released := [];
    WholeSlice(readyQueue);
    for j := 0 to |children|
      invariant remaining.Keys == g.ids
      invariant forall v :: v in g.ids ==>
                  remaining[v] == Pending(g.parents[v], done) - Count(children[..j], v)
      invariant QueueAgrees(remaining, done + {p}, readyQueue + released)
    {
      remaining, released := DecrementChild(g, dependents, done, p, j, remaining, readyQueue, released);
    }
    WholeSlice(children);
    ReleaseComplete(g, dependents, done, p, remaining);
  }

  /**
   * One wave: takes exactly the ids that were in the queue when the wave began,
   * in queue order; ids released meanwhile stay queued for the next wave.
   */
  method EmitWave(ghost g: Graph, dependents: map<int, seq<int>>, ghost done: set<int>,
                  remainingDeps: map<int, int>, readyQueue: seq<int>)
    returns (wave: seq<int>, remaining: map<int, int>, queue: seq<int>)
    requires CountsAgree(g, remainingDeps, done) && DownClosed(g, done) && DependentsMatch(g, dependents)
    requires QueueAgrees(remainingDeps, done, readyQueue)
    ensures wave == readyQueue && NoDuplicates(wave) && Elems(wave) == Ready(g, done)
    ensures CountsAgree(g, remaining, done + Elems(wave)) && DownClosed(g, done + Elems(wave))
    ensures QueueAgrees(remaining, done + Elems(wave), queue)
    ensures Elems(queue) == Ready(g, done + Elems(wave)) && Elems(queue) !! Elems(wave)
  {
    QueueIsReady(g, remainingDeps, done, readyQueue);
    var waveSize := |readyQueue|;
    wave := [];
    remaining := remainingDeps;
    queue := readyQueue;
    ghost var finished := done;
    for i := 0 to waveSize
      invariant wave == readyQueue[..i]
      invariant finished == done + Elems(wave)
      invariant waveSize - i <= |queue| && queue[..waveSize - i] == readyQueue[i..]
      invariant CountsAgree(g, remaining, finished) && DownClosed(g, finished)
      invariant QueueAgrees(remaining, finished, queue)
    {
      assert queue[0] == readyQueue[i..][0];
      var scriptId := queue[0];
      QueuePop(g, remaining, finished, queue);
      queue := queue[1..];
      wave := wave + [scriptId];
      assert readyQueue[..i + 1] == readyQueue[..i] + [readyQueue[i]];
      var released;
      remaining, released := ReleaseDependents(g, dependents, finished, scriptId, remaining, queue);
      queue := queue + released;
      finished := finished + {scriptId};
      assert queue[..waveSize - (i + 1)] == readyQueue[i + 1..];
    }
    WholeSlice(readyQueue);
    QueueIsReady(g, remaining, finished, queue);
  }

  /** The waves emitted so far are the first reference layers and hold exactly the done ids, once each. */
  ghost predicate WavesSoFar(g: Graph, waves: seq<seq<int>>, done: set<int>)
    requires g.Valid()
  {
    && WaveSets(waves) + Peel(g, done) == Layers(g)
    && done + Union(Peel(g, done)) == Scheduled(g)
    && NoDuplicates(Flatten(waves)) && Elems(Flatten(waves)) == done
  }

  /** Emitting the current ready set as the next wave keeps the waves in step with the layers. */
  lemma WavesAdvance(g: Graph, waves: seq<seq<int>>, done: set<int>, wave: seq<int>)
    requires g.Valid() && WavesSoFar(g, waves, done)
    requires NoDuplicates(wave) && Elems(wave) == Ready(g, done) && wave != []
    ensures WavesSoFar(g, waves + [wave], done + Elems(wave))
  {
    assert wave[0] in Ready(g, done);
    PeelStep(g, done);
    LayersAdvance(g, waves, done, wave);
    AppendFreshWave(waves, wave);
  }

  /** The next wave is the head of the layers still to peel, so it moves from those layers to the emitted ones. */
  lemma LayersAdvance(g: Graph, waves: seq<seq<int>>, done: set<int>, wave: seq<int>)
    requires g.Valid() && WaveSets(waves) + Peel(g, done) == Layers(g)
    requires Ready(g, done) != {} && Elems(wave) == Ready(g, done)
    ensures WaveSets(waves + [wave]) + Peel(g, done + Elems(wave)) == Layers(g)
  {
    PeelStep(g, done);
    ShiftLayer(waves, wave, Peel(g, done + Elems(wave)), Layers(g));
  }

  /** Once nothing is ready the emitted waves are all the layers, and every scheduled id appears once. */
  lemma WavesComplete(g: Graph, waves: seq<seq<int>>, done: set<int>)
    requires g.Valid() && WavesSoFar(g, waves, done) && Ready(g, done) == {}
    ensures WaveSets(waves) == Layers(g)
    ensures NoDuplicates(Flatten(waves)) && Elems(Flatten(waves)) == Scheduled(g)
    ensures TotalSize(waves) == |Scheduled(g)|
  {
    assert Peel(g, done) == [];
    assert WaveSets(waves) + [] == WaveSets(waves);
    FlattenSize(waves);
    DistinctCardinality(Flatten(waves));
  }

  /**
   * Layered Kahn sort: while the queue is non-empty, its current contents form
   * the next wave. The waves are exactly the reference layers, no id appears
   * twice, and the ids placed are exactly the scheduled ones.
   */
  method GenerateExecutionWaves(ghost g: Graph, readyQueue: seq<int>, dependents: map<int, seq<int>>,
                                remainingDeps: map<int, int>)
    returns (waves: seq<seq<int>>)
    requires CountsAgree(g, remainingDeps, {}) && DependentsMatch(g, dependents)
    requires QueueAgrees(remainingDeps, {}, readyQueue)
    ensures WaveSets(waves) == Layers(g)
    ensures NoDuplicates(Flatten(waves)) && Elems(Flatten(waves)) == Scheduled(g)
    ensures TotalSize(waves) == |Scheduled(g)|
  {
    waves := [];
    var queue := readyQueue;
    var remaining := remainingDeps;
    ghost var done: set<int> := {};
    assert {} + Union(Peel(g, {})) == Scheduled(g);
    while queue != []
      invariant CountsAgree(g, remaining, done) && DownClosed(g, done) && QueueAgrees(remaining, done, queue)
      invariant WavesSoFar(g, waves, done)
      decreases g.ids - done
    {
      ghost var before := done;
      var wave;
      wave, remaining, queue := EmitWave(g, dependents, done, remaining, queue);
      WavesAdvance(g, waves, done, wave);
      waves := waves + [wave];
      done := done + Elems(wave);
      assert wave[0] in Elems(wave) && wave[0] !in before;
    }
    QueueIsReady(g, remaining, done, queue);
    WavesComplete(g, waves, done);
  }

  /** Fresh graph data: each counter is the whole known-dependency count, nothing done yet. */
  lemma StartAgrees(g: Graph, remaining: map<int, int>)
    requires g.Valid() && remaining.Keys == g.ids
    requires forall v :: v in g.ids ==> remaining[v] == |g.parents[v]|
    ensures CountsAgree(g, remaining, {})
  {
    forall v | v in g.ids
      ensures remaining[v] == Pending(g.parents[v], {})
    {
      PendingNoneDone(g.parents[v]);
    }
  }

  /** When every id got a place, the waves are a complete layered plan of the graph. */
  lemma AllScheduled(scripts: seq<Script>, waves: seq<seq<int>>)
    requires DistinctIds(scripts)
    requires WaveSets(waves) == Layers(KnownDependencyGraph(scripts))
    requires NoDuplicates(Flatten(waves)) && Elems(Flatten(waves)) == Scheduled(KnownDependencyGraph(scripts))
    requires TotalSize(waves) == |Scheduled(KnownDependencyGraph(scripts))| == |scripts|
    ensures !HasCycle(KnownDependencyGraph(scripts))
    ensures Elems(Flatten(waves)) == IdSet(scripts)
    ensures forall i :: 0 <= i < |waves| ==> waves[i] != []
    ensures RespectsDependencies(KnownDependencyGraph(scripts), WaveSets(waves))
  {
    var g := KnownDependencyGraph(scripts);
    KnownGraphShape(scripts);
    assert Scheduled(g) == IdSet(scripts) by {
      ScheduledClosed(g);
      DistinctIdsCount(scripts);
      assert |IdSet(scripts) - Scheduled(g)| == |IdSet(scripts)| - |Scheduled(g)|;
    }
    assert !HasCycle(g) by {
      CycleIffUnscheduled(g);
    }
    assert RespectsDependencies(g, WaveSets(waves)) by {
      LayersRespectDependencies(g);
    }
    forall i | 0 <= i < |waves|
      ensures waves[i] != []
    {
      PeelShape(g, {});
      assert Elems(waves[i]) == Layers(g)[i];
    }
  }

  /** When fewer ids got a place than there are scripts, a cycle blocks exactly the rest. */
  lemma SomeUnscheduled(scripts: seq<Script>, total: nat)
    requires DistinctIds(scripts)
    requires total == |Scheduled(KnownDependencyGraph(scripts))| != |scripts|
    ensures HasCycle(KnownDependencyGraph(scripts))
    ensures |scripts| - total == |IdSet(scripts) - Scheduled(KnownDependencyGraph(scripts))| > 0
    ensures Blocked(KnownDependencyGraph(scripts), IdSet(scripts) - Scheduled(KnownDependencyGraph(scripts)))
  {
    var g := KnownDependencyGraph(scripts);
    KnownGraphShape(scripts);
    ScheduledClosed(g);
    DistinctIdsCount(scripts);
    CycleIffUnscheduled(g);
    UnscheduledBlocked(g);
    assert |IdSet(scripts) - Scheduled(g)| == |IdSet(scripts)| - |Scheduled(g)|;
  }

  /**
   * When the waves list the scheduled ids once each and every parent is a known
   * id, the wave sizes fall short of the id count exactly when the graph has a
   * cycle, and the shortfall is the number of ids left unscheduled.
   */
  lemma CountDecidesCycle(g: Graph, waves: seq<seq<int>>)
    requires g.Valid() && ParentsKnown(g)
    requires NoDuplicates(Flatten(waves)) && Elems(Flatten(waves)) == Scheduled(g)
    ensures TotalSize(waves) <= |g.ids|
    ensures HasCycle(g) <==> TotalSize(waves) != |g.ids|
    ensures |g.ids - Scheduled(g)| == |g.ids| - TotalSize(waves)
  {
    FlattenSize(waves);
    DistinctCardinality(Flatten(waves));
    ScheduledClosed(g);
    CycleIffUnscheduled(g);
    assert |g.ids - Scheduled(g)| == |g.ids| - |Scheduled(g)|;
  }

  /**
   * The final count test: the plan stands exactly when its waves hold as many
   * entries as there are scripts, and otherwise fails with the shortfall. Given
   * the waves of a graph whose parents are all known ids, the test decides
   * whether that graph has a cycle and reports how many ids it left unscheduled.
   */
  method VerifyAcyclic(ghost g: Graph, waves: seq<seq<int>>, totalScripts: int) returns (check: Result<(), PlanError>)
    ensures check.Ok? <==> TotalSize(waves) == totalScripts
    ensures check.Err? ==> check.error == CycleDetected(totalScripts - TotalSize(waves))
    ensures g.Valid() && ParentsKnown(g) && |g.ids| == totalScripts &&
            NoDuplicates(Flatten(waves)) && Elems(Flatten(waves)) == Scheduled(g) ==>
              (check.Ok? <==> !HasCycle(g)) &&
              (check.Err? ==> check.error.unscheduled == |g.ids - Scheduled(g)| > 0)
  {
    if g.Valid() && ParentsKnown(g) && NoDuplicates(Flatten(waves)) && Elems(Flatten(waves)) == Scheduled(g) {
      CountDecidesCycle(g, waves);
    }
    var scheduled := TotalSize(waves);
    if scheduled != totalScripts {
      return Err(CycleDetected(totalScripts - scheduled));
    }
    check := Ok(());
  }

  /**
   * Plans the scripts. On success the waves are the reference layers of the graph
   * with missing dependencies dropped: each wave non-empty and duplicate-free,
   * every known dependency of an id in wave i placed in an earlier wave, every id
   * exactly once. Fails with the shared id when two scripts share one, and with
   * their number when a cycle leaves ids unscheduled.
   */
  method Plan(scripts: seq<Script>) returns (result: Result<ExecutionPlan, PlanError>)
    ensures (result.Err? && result.error.DuplicateScriptId?) <==> !DistinctIds(scripts)
    ensures result.Err? && result.error.DuplicateScriptId? ==>
              exists i, j :: 0 <= i < j < |scripts| && scripts[i].id == result.error.id && scripts[j].id == result.error.id
    ensures KnownDependencyGraph(scripts).Valid()
    ensures DistinctIds(scripts) ==> (result.Ok? <==> !HasCycle(KnownDependencyGraph(scripts)))
    ensures result.Ok? ==> WaveSets(result.value.waves) == Layers(KnownDependencyGraph(scripts))
    ensures result.Ok? ==> forall i :: 0 <= i < |result.value.waves| ==> result.value.waves[i] != []
    ensures result.Ok? ==> RespectsDependencies(KnownDependencyGraph(scripts), WaveSets(result.value.waves))
    ensures result.Ok? ==> NoDuplicates(Flatten(result.value.waves))
    ensures result.Ok? ==> Elems(Flatten(result.value.waves)) == IdSet(scripts)
    ensures result.Ok? ==> result.value.TotalScripts() == |scripts|
    ensures result.Ok? ==> result.value.warnings == MissingWarnings(scripts, IdSet(scripts))
    ensures result.Err? && result.error.CycleDetected? ==>
              result.error.unscheduled == |IdSet(scripts) - Scheduled(KnownDependencyGraph(scripts))| > 0
    ensures result.Err? && result.error.CycleDetected? ==>
              Blocked(KnownDependencyGraph(scripts), IdSet(scripts) - Scheduled(KnownDependencyGraph(scripts)))
  {
    ghost var g := KnownDependencyGraph(scripts);
    KnownGraphShape(scripts);
    var built := BuildDirectedAcyclicGraph(scripts);
    if built.Err? {
      return Err(built.error);
    }
    var graph := built.value;
    StartAgrees(g, graph.remainingDeps);
    var readyQueue := InitReadyQueue(graph.remainingDeps);
    var waves := GenerateExecutionWaves(g, readyQueue, graph.dependents, graph.remainingDeps);
    var check := VerifyAcyclic(g, waves, |scripts|);
    if check.Err? {
      SomeUnscheduled(scripts, TotalSize(waves));
      return Err(check.error);
    }
    AllScheduled(scripts, waves);
    result := Ok(ExecutionPlan(waves, graph.warnings));
  }
}
