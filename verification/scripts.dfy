/**
 * The scripts handed to the planner and the validator, the plan the planner
 * returns, and the two dependency graphs the scripts describe: the one the
 * planner schedules (dependencies on unknown ids dropped) and the one the
 * validator measures (dependencies exactly as declared).
 */
module Scripts {
  import opened Collections
  import opened DependencyLevels

  /** A script as planning sees it: its id and its declared dependency ids, in order. */
  datatype Script = Script(id: int, deps: seq<int>)

  /** A dependency on an id that names no script: the script and the missing id. */
  datatype Warning = MissingDependency(script: int, missing: int)

  /** The planner's result: waves in execution order and the missing-dependency warnings. */
  datatype ExecutionPlan = ExecutionPlan(waves: seq<seq<int>>, warnings: seq<Warning>) {
    /**
     * Sum of the wave sizes: the length of the plan read wave after wave, and so
     * the number of distinct ids it places when no id is listed twice.
     */
    function TotalScripts(): (n: nat)
      ensures n == |Flatten(waves)|
      ensures NoDuplicates(Flatten(waves)) ==> n == |Elems(Flatten(waves))|
    {
      FlattenSize(waves);
      DistinctCardinality(Flatten(waves));
      TotalSize(waves)
    }
  }

  /** Why planning failed: a cycle left this many scripts unscheduled, or two scripts share this id. */
  datatype PlanError = CycleDetected(unscheduled: int) | DuplicateScriptId(id: int)

  datatype Result<+T, +E> = Ok(value: T) | Err(error: E)

  function IdSet(scripts: seq<Script>): set<int>
  {
    if scripts == [] then {} else IdSet(scripts[..|scripts| - 1]) + {scripts[|scripts| - 1].id}
  }

  /** No two scripts share an id (the planner's id index refuses duplicates). */
  predicate DistinctIds(scripts: seq<Script>)
  {
    forall i, j :: 0 <= i < j < |scripts| ==> scripts[i].id != scripts[j].id
  }

  /** The declared dependencies of each id; scripts that share an id have their lists joined. */
  function DependencyMap(scripts: seq<Script>): (m: map<int, seq<int>>)
    ensures m.Keys == IdSet(scripts)
  {
    if scripts == [] then map[]
    else
      var m := DependencyMap(scripts[..|scripts| - 1]);
      var s := scripts[|scripts| - 1];
      m[s.id := (if s.id in m then m[s.id] else []) + s.deps]
  }

  /** The dependencies that name a known id, in order. */
  function KnownOnly(ds: seq<int>, ids: set<int>): seq<int>
  {
    if ds == [] then []
    else KnownOnly(ds[..|ds| - 1], ids) + (if ds[|ds| - 1] in ids then [ds[|ds| - 1]] else [])
  }

  /** One warning per dependency of `child` that names no known id, in order. */
  function MissingOf(child: int, ds: seq<int>, ids: set<int>): seq<Warning>
  {
    if ds == [] then []
    else
      MissingOf(child, ds[..|ds| - 1], ids)
      + (if ds[|ds| - 1] in ids then [] else [MissingDependency(child, ds[|ds| - 1])])
  }

  /** The warnings of all scripts, in script order. */
  function MissingWarnings(scripts: seq<Script>, ids: set<int>): seq<Warning>
  {
    if scripts == [] then []
    else
      var s := scripts[|scripts| - 1];
      MissingWarnings(scripts[..|scripts| - 1], ids) + MissingOf(s.id, s.deps, ids)
  }

  /** Every declared dependency names a script. */
  predicate NoMissingDependencies(scripts: seq<Script>)
  {
    forall i, d :: 0 <= i < |scripts| && d in scripts[i].deps ==> d in IdSet(scripts)
  }

  /** The graph the planner schedules: dependencies on unknown ids are dropped. */
  ghost function KnownDependencyGraph(scripts: seq<Script>): Graph
  {
    var ids := IdSet(scripts);
    var m := DependencyMap(scripts);
    Graph(ids, map v | v in m :: KnownOnly(m[v], ids))
  }

  /** The graph the validator measures: dependencies exactly as declared. */
  ghost function DeclaredDependencyGraph(scripts: seq<Script>): Graph
  {
    Graph(IdSet(scripts), DependencyMap(scripts))
  }

  /** One more script adds its id and joins its list onto the entry for that id. */
  lemma PrefixStep(scripts: seq<Script>, k: nat)
    requires 0 < k <= |scripts|
    ensures IdSet(scripts[..k]) == IdSet(scripts[..k - 1]) + {scripts[k - 1].id}
    ensures var m := DependencyMap(scripts[..k - 1]);
            var s := scripts[k - 1];
            DependencyMap(scripts[..k]) == m[s.id := (if s.id in m then m[s.id] else []) + s.deps]
  {
    assert scripts[..k][..k - 1] == scripts[..k - 1];
  }

  lemma {:induction false} IdSetMembership(scripts: seq<Script>, v: int)
    ensures v in IdSet(scripts) <==> exists i :: 0 <= i < |scripts| && scripts[i].id == v
    decreases |scripts|
  {
    if scripts != [] {
      var n := |scripts| - 1;
      IdSetMembership(scripts[..n], v);
      assert forall i :: 0 <= i < n ==> scripts[..n][i] == scripts[i];
    }
  }

  /** With distinct ids there are as many ids as scripts. */
  lemma {:induction false} DistinctIdsCount(scripts: seq<Script>)
    requires DistinctIds(scripts)
    ensures |IdSet(scripts)| == |scripts|
    decreases |scripts|
  {
    if scripts != [] {
      var n := |scripts| - 1;
      assert DistinctIds(scripts[..n]);
      DistinctIdsCount(scripts[..n]);
      IdSetMembership(scripts[..n], scripts[n].id);
      assert scripts[n].id !in IdSet(scripts[..n]);
    }
  }

  /** Each known dependency is kept, each unknown one dropped, multiplicities intact. */
  lemma {:induction false} KnownOnlyOccurrences(ds: seq<int>, ids: set<int>)
    ensures forall p :: Count(KnownOnly(ds, ids), p) == (if p in ids then Count(ds, p) else 0)
    ensures forall p :: p in KnownOnly(ds, ids) <==> p in ds && p in ids
    decreases |ds|
  {
    if ds != [] {
      var n := |ds| - 1;
      assert ds == ds[..n] + [ds[n]];
      KnownOnlyOccurrences(ds[..n], ids);
      forall p
        ensures Count(KnownOnly(ds, ids), p) == (if p in ids then Count(ds, p) else 0)
      {
        assert Count(ds, p) == Count(ds[..n], p) + (if ds[n] == p then 1 else 0);
        if ds[n] in ids {
          assert KnownOnly(ds, ids) == KnownOnly(ds[..n], ids) + [ds[n]];
          CountSnoc(KnownOnly(ds[..n], ids), ds[n], p);
        } else {
          assert KnownOnly(ds, ids) == KnownOnly(ds[..n], ids);
        }
        assert Count(KnownOnly(ds[..n], ids), p) == (if p in ids then Count(ds[..n], p) else 0);
      }
    }
  }

  /** Appending a dependency appends it to the kept list if known, to the warnings if not. */
  lemma SnocDependency(child: int, ds: seq<int>, d: int, ids: set<int>)
    ensures KnownOnly(ds + [d], ids) == KnownOnly(ds, ids) + (if d in ids then [d] else [])
    ensures MissingOf(child, ds + [d], ids) == MissingOf(child, ds, ids) + (if d in ids then [] else [MissingDependency(child, d)])
  {
    assert (ds + [d])[..|ds|] == ds;
  }

  /**
   * Every dependency either becomes an edge or a warning, never both: the kept
   * list and the warnings together account for the whole declared list, and
   * the warnings name exactly the unknown dependencies of the script.
   */
  lemma {:induction false} MissingOfPartition(child: int, ds: seq<int>, ids: set<int>)
    ensures |KnownOnly(ds, ids)| + |MissingOf(child, ds, ids)| == |ds|
    ensures forall w {:trigger w in MissingOf(child, ds, ids)} :: w in MissingOf(child, ds, ids) <==> w.script == child && w.missing in ds && w.missing !in ids
    decreases |ds|
  {
    if ds != [] {
      var n := |ds| - 1;
      assert ds == ds[..n] + [ds[n]];
      MissingOfPartition(child, ds[..n], ids);
    }
  }

  /** A warning names a script and one of its dependencies that is not an id. */
  lemma MissingWarningsMembership(scripts: seq<Script>, ids: set<int>, w: Warning)
    ensures w in MissingWarnings(scripts, ids) <==>
              exists i :: 0 <= i < |scripts| && w.script == scripts[i].id && w.missing in scripts[i].deps && w.missing !in ids
  {
    if w in MissingWarnings(scripts, ids) {
      MissingWarningsSound(scripts, ids, w);
    }
    if exists i :: 0 <= i < |scripts| && w.script == scripts[i].id && w.missing in scripts[i].deps && w.missing !in ids {
      var i :| 0 <= i < |scripts| && w.script == scripts[i].id && w.missing in scripts[i].deps && w.missing !in ids;
      MissingWarningsComplete(scripts, ids, i, w.missing);
    }
  }

  /** Every warning comes from a script and one of its unknown dependencies. */
  lemma {:induction false} MissingWarningsSound(scripts: seq<Script>, ids: set<int>, w: Warning)
    requires w in MissingWarnings(scripts, ids)
    ensures exists i :: 0 <= i < |scripts| && w.script == scripts[i].id && w.missing in scripts[i].deps && w.missing !in ids
    decreases |scripts|
  {
    assert scripts != [];
    var n := |scripts| - 1;
    var prefix, last := scripts[..n], scripts[n];
    assert MissingWarnings(scripts, ids) == MissingWarnings(prefix, ids) + MissingOf(last.id, last.deps, ids);
    if w in MissingWarnings(prefix, ids) {
      MissingWarningsSound(prefix, ids, w);
      var i :| 0 <= i < n && w.script == prefix[i].id && w.missing in prefix[i].deps && w.missing !in ids;
      assert prefix[i] == scripts[i];
    } else {
      MissingOfPartition(last.id, last.deps, ids);
      assert w in MissingOf(last.id, last.deps, ids);
    }
  }

  /** Every unknown dependency of every script yields its warning. */
  lemma {:induction false} MissingWarningsComplete(scripts: seq<Script>, ids: set<int>, i: nat, d: int)
    requires i < |scripts| && d in scripts[i].deps && d !in ids
    ensures MissingDependency(scripts[i].id, d) in MissingWarnings(scripts, ids)
    decreases |scripts|
  {
    var n := |scripts| - 1;
    var prefix, last := scripts[..n], scripts[n];
    assert MissingWarnings(scripts, ids) == MissingWarnings(prefix, ids) + MissingOf(last.id, last.deps, ids);
    if i < n {
      assert prefix[i] == scripts[i];
      MissingWarningsComplete(prefix, ids, i, d);
    } else {
      MissingOfPartition(last.id, last.deps, ids);
      assert MissingDependency(last.id, d) in MissingOf(last.id, last.deps, ids);
    }
  }

  /** There are no warnings iff every dependency names a script. */
  lemma NoWarningsIffNoMissing(scripts: seq<Script>)
    ensures MissingWarnings(scripts, IdSet(scripts)) == [] <==> NoMissingDependencies(scripts)
  {
    var ws := MissingWarnings(scripts, IdSet(scripts));
    if ws != [] {
      MissingWarningsMembership(scripts, IdSet(scripts), ws[0]);
      assert ws[0] in ws;
    }
    if !NoMissingDependencies(scripts) {
      var i, d :| 0 <= i < |scripts| && d in scripts[i].deps && d !in IdSet(scripts);
      MissingWarningsMembership(scripts, IdSet(scripts), MissingDependency(scripts[i].id, d));
    }
  }

  /** Every entry of the dependency map comes from the declared list of a script with that id. */
  lemma {:induction false} DependencyMapEntries(scripts: seq<Script>, v: int, d: int)
    requires v in DependencyMap(scripts) && d in DependencyMap(scripts)[v]
    ensures exists i :: 0 <= i < |scripts| && scripts[i].id == v && d in scripts[i].deps
    decreases |scripts|
  {
    var n := |scripts| - 1;
    var m := DependencyMap(scripts[..n]);
    var s := scripts[n];
    if v == s.id && d in s.deps {
    } else {
      assert v in m && d in m[v];
      DependencyMapEntries(scripts[..n], v, d);
      var i :| 0 <= i < n && scripts[..n][i].id == v && d in scripts[..n][i].deps;
      assert scripts[..n][i] == scripts[i];
    }
  }

  /** The planner's graph is well formed and mentions only known ids. */
  lemma KnownGraphShape(scripts: seq<Script>)
    ensures KnownDependencyGraph(scripts).Valid()
    ensures ParentsKnown(KnownDependencyGraph(scripts))
  {
    var g := KnownDependencyGraph(scripts);
    forall v | v in g.ids
      ensures forall d :: d in g.parents[v] ==> d in g.ids
    {
      KnownOnlyOccurrences(DependencyMap(scripts)[v], g.ids);
    }
  }

  /** Without missing dependencies the two graphs coincide. */
  lemma GraphsAgree(scripts: seq<Script>)
    requires NoMissingDependencies(scripts)
    ensures KnownDependencyGraph(scripts) == DeclaredDependencyGraph(scripts)
  {
    var ids := IdSet(scripts);
    var m := DependencyMap(scripts);
    forall v | v in m
      ensures KnownOnly(m[v], ids) == m[v]
    {
      forall d | d in m[v]
        ensures d in ids
      {
        DependencyMapEntries(scripts, v, d);
      }
      KnownOnlyKeepsAll(m[v], ids);
    }
  }

  lemma {:induction false} KnownOnlyKeepsAll(ds: seq<int>, ids: set<int>)
    requires forall i :: 0 <= i < |ds| ==> ds[i] in ids
    ensures KnownOnly(ds, ids) == ds
    decreases |ds|
  {
    if ds != [] {
      var n := |ds| - 1;
      KnownOnlyKeepsAll(ds[..n], ids);
      assert ds == ds[..n] + [ds[n]];
    }
  }
}
