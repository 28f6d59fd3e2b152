/**
 * The reference meaning of a layered schedule, independent of any queue or counter.
 *
 * A graph gives, for every id, the ids it waits for (repetitions allowed, and an
 * entry may name an id outside the graph, which is then never satisfied).
 * Peeling repeatedly removes every id whose parents are all done; the peeled
 * layers are the waves a layered Kahn sort must produce, the layer index of an
 * id is its depth, and the ids never peeled are those stuck in or behind a cycle.
 */
module DependencyLevels {
  import opened Collections

  datatype Graph = Graph(ids: set<int>, parents: map<int, seq<int>>) {
    predicate Valid()
    {
      parents.Keys == ids
    }
  }

  /** Every parent an id names is itself an id of the graph. */
  ghost predicate ParentsKnown(g: Graph)
    requires g.Valid()
  {
    forall v, d :: v in g.ids && d in g.parents[v] ==> d in g.ids
  }

  /** The ids not yet done whose parents are all done. */
  ghost function Ready(g: Graph, done: set<int>): set<int>
    requires g.Valid()
  {
    set v | v in g.ids && v !in done && (forall d :: d in g.parents[v] ==> d in done)
  }

  /** The layers peeled off after `done`, each one the ready set of the ids before it. */
  ghost function Peel(g: Graph, done: set<int>): seq<set<int>>
    requires g.Valid()
    decreases g.ids - done
  {
    var r := Ready(g, done);
    if r == {} then []
    else
      NonEmpty(r);
      var v :| v in r;
      assert v in g.ids - done && v !in g.ids - (done + r);
      [r] + Peel(g, done + r)
  }

  ghost function Layers(g: Graph): seq<set<int>>
    requires g.Valid()
  {
    Peel(g, {})
  }

  ghost function Union(ls: seq<set<int>>): set<int>
  {
    if ls == [] then {} else ls[0] + Union(ls[1..])
  }

  /** The ids some layer takes: all of them unless a cycle blocks some. */
  ghost function Scheduled(g: Graph): set<int>
    requires g.Valid()
  {
    Union(Layers(g))
  }

  /** Id `v` waits for some member of `c`. */
  ghost predicate WaitsWithin(g: Graph, v: int, c: set<int>)
    requires g.Valid() && v in g.ids
  {
    exists d :: d in g.parents[v] && d in c
  }

  /**
   * A set of ids every one of which waits for another member of the set: none of them can ever start.
   * The quantifier fires only on an explicit `WaitsWithin` term; triggered on `v in c`, each witness
   * would be a new member of `c` and fire it again without end.
   */
  ghost predicate Blocked(g: Graph, c: set<int>)
    requires g.Valid()
  {
    c != {} && c <= g.ids && forall v {:trigger WaitsWithin(g, v, c)} :: v in c ==> WaitsWithin(g, v, c)
  }

  ghost predicate HasCycle(g: Graph)
    requires g.Valid()
  {
    exists c :: Blocked(g, c)
  }

  /** Every parent of an id in layer i is in some earlier layer. */
  ghost predicate RespectsDependencies(g: Graph, ls: seq<set<int>>)
    requires g.Valid()
  {
    forall i, v, d :: 0 <= i < |ls| && v in ls[i] && v in g.ids && d in g.parents[v] ==>
      exists j :: 0 <= j < i && d in ls[j]
  }

  /** `s` is closed: an id whose parents are all in `s` is in `s`. */
  ghost predicate Closed(g: Graph, s: set<int>)
    requires g.Valid()
  {
    forall v :: v in g.ids && (forall d :: d in g.parents[v] ==> d in s) ==> v in s
  }

  lemma {:induction false} UnionMembership(ls: seq<set<int>>, x: int)
    ensures x in Union(ls) <==> exists k :: 0 <= k < |ls| && x in ls[k]
    decreases |ls|
  {
    if ls != [] {
      UnionMembership(ls[1..], x);
      if exists k :: 0 <= k < |ls| && x in ls[k] {
        var k :| 0 <= k < |ls| && x in ls[k];
        if k > 0 {
          assert x in ls[1..][k - 1];
        }
      }
      if x in Union(ls[1..]) {
        var k :| 0 <= k < |ls[1..]| && x in ls[1..][k];
        assert x in ls[k + 1];
      }
    }
  }

  lemma PeelStep(g: Graph, done: set<int>)
    requires g.Valid() && Ready(g, done) != {}
    ensures Peel(g, done) == [Ready(g, done)] + Peel(g, done + Ready(g, done))
    ensures Union(Peel(g, done)) == Ready(g, done) + Union(Peel(g, done + Ready(g, done)))
  {
    var p := Peel(g, done);
    assert p[1..] == Peel(g, done + Ready(g, done));
  }

  /** The ready set, checked id by id. */
  lemma ReadyIs(g: Graph, done: set<int>, r: set<int>)
    requires g.Valid() && r <= g.ids
    requires forall v :: v in g.ids ==> (v in r <==> v !in done && forall d :: d in g.parents[v] ==> d in done)
    ensures Ready(g, done) == r
  {
    forall v
      ensures v in Ready(g, done) <==> v in r
    {
      if v !in g.ids {
        assert v !in r && v !in Ready(g, done);
      }
    }
  }

  /** When no id is ready at the start, nothing is ever scheduled. */
  lemma NothingReady(g: Graph)
    requires g.Valid() && Ready(g, {}) == {}
    ensures Layers(g) == [] && Scheduled(g) == {} && CriticalPath(g) == 0
  {
  }

  /** Peeled layers are non-empty, inside the graph, new, and pairwise disjoint. */
  lemma {:induction false} PeelShape(g: Graph, done: set<int>)
    requires g.Valid()
    ensures forall k :: 0 <= k < |Peel(g, done)| ==>
              Peel(g, done)[k] != {} && Peel(g, done)[k] <= g.ids && Peel(g, done)[k] !! done
    ensures forall i, j :: 0 <= i < j < |Peel(g, done)| ==> Peel(g, done)[i] !! Peel(g, done)[j]
    ensures Union(Peel(g, done)) <= g.ids && Union(Peel(g, done)) !! done
    decreases g.ids - done
  {
    var r := Ready(g, done);
    if r != {} {
      NonEmpty(r);
      var v :| v in r;
      assert v in g.ids - done && v !in g.ids - (done + r);
      PeelStep(g, done);
      PeelShape(g, done + r);
      var p := Peel(g, done);
      var rest := Peel(g, done + r);
      forall k | 0 <= k < |p|
        ensures p[k] != {} && p[k] <= g.ids && p[k] !! done
      {
        if k > 0 {
          assert p[k] == rest[k - 1];
        }
      }
      forall i, j | 0 <= i < j < |p|
        ensures p[i] !! p[j]
      {
        assert p[j] == rest[j - 1];
        if i > 0 {
          assert p[i] == rest[i - 1];
        }
      }
    }
  }

  /** Layer k is exactly the ready set once `done` and the k earlier layers are done. */
  lemma {:induction false} PeelIndex(g: Graph, done: set<int>, k: nat)
    requires g.Valid() && k < |Peel(g, done)|
    ensures Peel(g, done)[k] == Ready(g, done + Union(Peel(g, done)[..k]))
    decreases k
  {
    var r := Ready(g, done);
    var p := Peel(g, done);
    PeelStep(g, done);
    if k == 0 {
      assert done + Union(p[..0]) == done;
    } else {
      var rest := Peel(g, done + r);
      PeelIndex(g, done + r, k - 1);
      assert p[..k][1..] == rest[..k - 1];
      assert Union(p[..k]) == r + Union(rest[..k - 1]);
      assert done + Union(p[..k]) == (done + r) + Union(rest[..k - 1]);
    }
  }

  lemma {:induction false} PeelCovers(g: Graph, done: set<int>)
    requires g.Valid()
    ensures Closed(g, done + Union(Peel(g, done)))
    decreases g.ids - done
  {
    var r := Ready(g, done);
    if r == {} {
      forall v | v in g.ids && (forall d :: d in g.parents[v] ==> d in done + Union(Peel(g, done)))
        ensures v in done + Union(Peel(g, done))
      {
        assert v in done || v in r;
      }
    } else {
      NonEmpty(r);
      var v :| v in r;
      assert v in g.ids - done && v !in g.ids - (done + r);
      PeelStep(g, done);
      PeelCovers(g, done + r);
      assert done + Union(Peel(g, done)) == (done + r) + Union(Peel(g, done + r));
    }
  }

  lemma {:induction false} PeelLeast(g: Graph, done: set<int>, s: set<int>)
    requires g.Valid() && Closed(g, s) && done <= s
    ensures Union(Peel(g, done)) <= s
    decreases g.ids - done
  {
    var r := Ready(g, done);
    if r != {} {
      NonEmpty(r);
      var v :| v in r;
      assert v in g.ids - done && v !in g.ids - (done + r);
      PeelStep(g, done);
      forall u | u in r
        ensures u in s
      {
        assert forall d :: d in g.parents[u] ==> d in s;
      }
      PeelLeast(g, done + r, s);
    }
  }

  /** The scheduled ids form a closed set: an id whose parents are all scheduled is scheduled. */
  lemma ScheduledClosed(g: Graph)
    requires g.Valid()
    ensures Closed(g, Scheduled(g))
    ensures Scheduled(g) <= g.ids
  {
    PeelCovers(g, {});
    PeelShape(g, {});
    assert {} + Scheduled(g) == Scheduled(g);
  }

  /** ... and the least one: every closed set contains the scheduled ids. */
  lemma ScheduledLeast(g: Graph, s: set<int>)
    requires g.Valid() && Closed(g, s)
    ensures Scheduled(g) <= s
  {
    PeelLeast(g, {}, s);
  }

  ghost function LevelIn(ls: seq<set<int>>, v: int): (k: nat)
    requires v in Union(ls)
    ensures k < |ls| && v in ls[k]
    decreases |ls|
  {
    if v in ls[0] then 0 else 1 + LevelIn(ls[1..], v)
  }

  /** The index of the layer holding a scheduled id. */
  ghost function Level(g: Graph, v: int): nat
    requires g.Valid() && v in Scheduled(g)
  {
    LevelIn(Layers(g), v)
  }

  /** The length, in edges, of the longest dependency chain: one less than the number of layers. */
  ghost function CriticalPath(g: Graph): nat
    requires g.Valid()
  {
    if Layers(g) == [] then 0 else |Layers(g)| - 1
  }

  /** An id lies in exactly one layer, the one its level names. */
  lemma LevelOf(g: Graph, v: int, k: int)
    requires g.Valid() && 0 <= k < |Layers(g)| && v in Layers(g)[k]
    ensures v in Scheduled(g) && Level(g, v) == k
  {
    UnionMembership(Layers(g), v);
    PeelShape(g, {});
  }

  /** Each id of a layer has that layer's index as its level. */
  lemma LevelsUnique(g: Graph)
    requires g.Valid()
    ensures forall v, j :: 0 <= j < |Layers(g)| && v in Layers(g)[j] ==> v in Scheduled(g) && Level(g, v) == j
  {
    forall v, j | 0 <= j < |Layers(g)| && v in Layers(g)[j]
      ensures v in Scheduled(g) && Level(g, v) == j
    {
      LevelOf(g, v, j);
    }
  }

  lemma UnionPrefix(ls: seq<set<int>>, n: nat, x: int)
    requires n <= |ls|
    ensures x in Union(ls[..n]) <==> exists j :: 0 <= j < n && x in ls[j]
  {
    UnionMembership(ls[..n], x);
    assert forall j :: 0 <= j < n ==> ls[..n][j] == ls[j];
  }

  /** Layer k is the set of ids that are ready once the layers before k are done. */
  lemma LayerIsReady(g: Graph, k: nat)
    requires g.Valid() && k < |Layers(g)|
    ensures Layers(g)[k] == Ready(g, Union(Layers(g)[..k]))
  {
    PeelIndex(g, {}, k);
    assert {} + Union(Layers(g)[..k]) == Union(Layers(g)[..k]);
  }

  /** The layers respect every dependency. */
  lemma LayersRespectDependencies(g: Graph)
    requires g.Valid()
    ensures RespectsDependencies(g, Layers(g))
  {
    var ls := Layers(g);
    forall i, v, d | 0 <= i < |ls| && v in ls[i] && v in g.ids && d in g.parents[v]
      ensures exists j :: 0 <= j < i && d in ls[j]
    {
      LayerIsReady(g, i);
      UnionPrefix(ls, i, d);
    }
  }

  /** Every parent of a scheduled id is scheduled, on a lower level. */
  lemma ParentsOnLowerLevel(g: Graph, v: int)
    requires g.Valid() && v in Scheduled(g)
    ensures v in g.ids
    ensures forall d :: d in g.parents[v] ==> d in Scheduled(g) && Level(g, d) < Level(g, v)
  {
    ScheduledClosed(g);
    var ls := Layers(g);
    var k := Level(g, v);
    LayerIsReady(g, k);
    forall d | d in g.parents[v]
      ensures d in Scheduled(g) && Level(g, d) < k
    {
      UnionMembership(ls[..k], d);
      var j :| 0 <= j < k && d in ls[..k][j];
      LevelOf(g, d, j);
    }
  }

  /** The first layer is exactly the ids with no parents. */
  lemma LevelZeroIffNoParents(g: Graph, v: int)
    requires g.Valid() && v in Scheduled(g)
    ensures v in g.ids
    ensures Level(g, v) == 0 <==> g.parents[v] == []
  {
    ParentsOnLowerLevel(g, v);
    if g.parents[v] == [] {
      LayerIsReady(g, 0);
      assert Union(Layers(g)[..0]) == {};
      assert v in Layers(g)[0];
      LevelOf(g, v, 0);
    } else {
      var d := g.parents[v][0];
      assert d in g.parents[v];
      assert Level(g, d) < Level(g, v);
    }
  }

  /**
   * An id above level 0 has a parent exactly one level lower: it became ready
   * only once that parent's layer was done, never in the same layer.
   */
  lemma ParentOneLevelLower(g: Graph, v: int)
    requires g.Valid() && v in Scheduled(g) && Level(g, v) > 0
    ensures v in g.ids
    ensures exists d :: d in g.parents[v] && d in Scheduled(g) && Level(g, d) == Level(g, v) - 1
  {
    var ls := Layers(g);
    var k := Level(g, v);
    ParentsOnLowerLevel(g, v);
    LevelsUnique(g);
    LayerIsReady(g, k - 1);
    UnionPrefix(ls, k - 1, v);
    assert v !in Union(ls[..k - 1]);
    assert v !in ls[k - 1];
    assert !(forall d :: d in g.parents[v] ==> d in Union(ls[..k - 1]));
    var d :| d in g.parents[v] && d !in Union(ls[..k - 1]);
    UnionPrefix(ls, k - 1, d);
    assert Level(g, d) == k - 1;
  }

  /** Every scheduled id has a level at most the critical path, and some scheduled id reaches it. */
  lemma CriticalPathIsMaxLevel(g: Graph)
    requires g.Valid()
    ensures forall v :: v in Scheduled(g) ==> Level(g, v) <= CriticalPath(g)
    ensures Scheduled(g) == {} <==> Layers(g) == []
    ensures Scheduled(g) != {} ==> exists v :: v in Scheduled(g) && Level(g, v) == CriticalPath(g)
  {
    var ls := Layers(g);
    PeelShape(g, {});
    if ls != [] {
      var n := |ls| - 1;
      NonEmpty(ls[n]);
      var v :| v in ls[n];
      LevelOf(g, v, n);
    } else {
      assert Scheduled(g) == {};
    }
  }

  /** A blocked set never gets scheduled: the complement of it is closed. */
  lemma BlockedNeverScheduled(g: Graph, c: set<int>)
    requires g.Valid() && Blocked(g, c)
    ensures c !! Scheduled(g)
  {
    var s := g.ids - c;
    forall v | v in c
      ensures !(forall d :: d in g.parents[v] ==> d in s)
    {
      assert WaitsWithin(g, v, c);
    }
    assert Closed(g, s);
    ScheduledLeast(g, s);
  }

  /** When every parent is a known id, the unscheduled ids block each other. */
  lemma UnscheduledBlocked(g: Graph)
    requires g.Valid() && ParentsKnown(g) && Scheduled(g) != g.ids
    ensures Blocked(g, g.ids - Scheduled(g))
  {
    ScheduledClosed(g);
    var c := g.ids - Scheduled(g);
    forall v | v in c
      ensures exists d :: d in g.parents[v] && d in c
    {
      assert !(forall d :: d in g.parents[v] ==> d in Scheduled(g));
      var d :| d in g.parents[v] && d !in Scheduled(g);
      assert d in c;
    }
  }

  /** With known parents, some id stays unscheduled iff the graph has a cycle. */
  lemma CycleIffUnscheduled(g: Graph)
    requires g.Valid() && ParentsKnown(g)
    ensures HasCycle(g) <==> Scheduled(g) != g.ids
  {
    ScheduledClosed(g);
    if HasCycle(g) {
      var c :| Blocked(g, c);
      BlockedNeverScheduled(g, c);
      NonEmpty(c);
      var v :| v in c;
      assert v in g.ids - Scheduled(g);
    }
    if Scheduled(g) != g.ids {
      UnscheduledBlocked(g);
    }
  }
}
