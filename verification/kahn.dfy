/**
 * The state a Kahn traversal keeps (a dependents list per parent, a count of
 * unmet dependencies per id, a FIFO ready queue) and how it must agree with a
 * dependency graph once a set of ids has been taken off the queue. The planner
 * and the validator each run their own traversal; both keep these invariants.
 */
module KahnState {
  import opened Collections
  import opened DependencyLevels

  /** The ids listed under parent `p`, or none when `p` has no entry. */
  function Children(dependents: map<int, seq<int>>, p: int): seq<int>
  {
    if p in dependents then dependents[p] else []
  }

  /** The reverse edges: id c is listed under p once per occurrence of p among c's parents. */
  ghost predicate DependentsMatch(g: Graph, dependents: map<int, seq<int>>)
    requires g.Valid()
  {
    forall p, c :: Count(Children(dependents, p), c) == (if c in g.ids then Count(g.parents[c], p) else 0)
  }

  /** How many entries of `s` are not yet done (repetitions counted). */
  function Pending(s: seq<int>, done: set<int>): nat
  {
    if s == [] then 0 else Pending(s[..|s| - 1], done) + (if s[|s| - 1] in done then 0 else 1)
  }

  /** Every id has a counter, equal to its parents that are not yet done. */
  ghost predicate CountsAgree(g: Graph, remaining: map<int, int>, done: set<int>)
  {
    && g.Valid()
    && remaining.Keys == g.ids
    && forall v :: v in g.ids ==> remaining[v] == Pending(g.parents[v], done)
  }

  /** The done ids are known ids whose parents are all done. */
  ghost predicate DownClosed(g: Graph, done: set<int>)
  {
    && g.Valid()
    && done <= g.ids
    && forall v, d :: v in done && d in g.parents[v] ==> d in done
  }

  /** The queue holds, once each, exactly the ids not yet done whose counter is zero. */
  ghost predicate QueueAgrees(remaining: map<int, int>, done: set<int>, queue: seq<int>)
  {
    && NoDuplicates(queue)
    && forall v :: v in queue <==> v in remaining && v !in done && remaining[v] == 0
  }

  lemma {:induction false} PendingZero(s: seq<int>, done: set<int>)
    ensures Pending(s, done) == 0 <==> forall d :: d in s ==> d in done
    decreases |s|
  {
    if s != [] {
      var n := |s| - 1;
      assert s == s[..n] + [s[n]];
      assert forall d :: d in s <==> d in s[..n] || d == s[n];
      PendingZero(s[..n], done);
    }
  }

  lemma {:induction false} PendingNoneDone(s: seq<int>)
    ensures Pending(s, {}) == |s|
    decreases |s|
  {
    if s != [] {
      PendingNoneDone(s[..|s| - 1]);
    }
  }

  /** Finishing p satisfies exactly the occurrences of p: the counter drops by that many. */
  lemma {:induction false} PendingFinish(s: seq<int>, done: set<int>, p: int)
    requires p !in done
    ensures Pending(s, done) >= Count(s, p)
    ensures Pending(s, done + {p}) == Pending(s, done) - Count(s, p)
    decreases |s|
  {
    if s != [] {
      PendingFinish(s[..|s| - 1], done, p);
    }
  }

  /** With the counters in step, the queue is the reference ready set. */
  lemma QueueIsReady(g: Graph, remaining: map<int, int>, done: set<int>, queue: seq<int>)
    requires CountsAgree(g, remaining, done) && QueueAgrees(remaining, done, queue)
    ensures Elems(queue) == Ready(g, done)
  {
    forall v
      ensures v in Elems(queue) <==> v in Ready(g, done)
    {
      if v in g.ids {
        PendingZero(g.parents[v], done);
      }
    }
  }

  /** Taking the head off the queue and marking it done keeps the queue in step. */
  lemma QueuePop(g: Graph, remaining: map<int, int>, done: set<int>, queue: seq<int>)
    requires CountsAgree(g, remaining, done) && DownClosed(g, done)
    requires QueueAgrees(remaining, done, queue) && queue != []
    ensures queue[0] in g.ids && queue[0] !in done
    ensures forall d :: d in g.parents[queue[0]] ==> d in done
    ensures DownClosed(g, done + {queue[0]})
    ensures QueueAgrees(remaining, done + {queue[0]}, queue[1..])
  {
    var p := queue[0];
    assert p in queue;
    PendingZero(g.parents[p], done);
    forall v | v in queue[1..]
      ensures v != p
    {
      var i :| 0 <= i < |queue[1..]| && queue[1..][i] == v;
      assert queue[i + 1] == v;
    }
  }

  /**
   * While the children of a freshly finished p are released one at a time, the
   * next child is a known, unfinished id other than p whose counter is still
   * positive, so the decrement never goes below zero.
   */
  lemma ReleaseStep(g: Graph, dependents: map<int, seq<int>>, done: set<int>, p: int,
                    j: nat, remaining: map<int, int>)
    requires g.Valid() && DependentsMatch(g, dependents) && DownClosed(g, done)
    requires p in g.ids && p !in done && forall d :: d in g.parents[p] ==> d in done
    requires j < |Children(dependents, p)| && remaining.Keys == g.ids
    requires forall v :: v in g.ids ==>
               remaining[v] == Pending(g.parents[v], done) - Count(Children(dependents, p)[..j], v)
    ensures Children(dependents, p)[j] in g.ids && Children(dependents, p)[j] != p
    ensures Children(dependents, p)[j] !in done && remaining[Children(dependents, p)[j]] >= 1
    ensures p in g.parents[Children(dependents, p)[j]]
  {
    var children := Children(dependents, p);
    var c := children[j];
    CountPrefixStep(children, j, c);
    CountPrefixBound(children, j + 1, c);
    assert Count(children, c) >= Count(children[..j], c) + 1;
    assert c in g.ids;
    CountMembership(g.parents[c], p);
    PendingFinish(g.parents[c], done, p);
  }

  /**
   * Releasing the next child: its counter drops by one, and it joins the queue
   * exactly when the counter reaches zero; the counters and the queue stay in step.
   */
  lemma ReleaseAdvance(g: Graph, dependents: map<int, seq<int>>, done: set<int>, p: int, j: nat,
                       remaining: map<int, int>, queue: seq<int>)
    requires g.Valid() && remaining.Keys == g.ids && j < |Children(dependents, p)|
    requires forall v :: v in g.ids ==>
               remaining[v] == Pending(g.parents[v], done) - Count(Children(dependents, p)[..j], v)
    requires QueueAgrees(remaining, done + {p}, queue)
    requires Children(dependents, p)[j] in g.ids && Children(dependents, p)[j] != p
    requires Children(dependents, p)[j] !in done && remaining[Children(dependents, p)[j]] >= 1
    ensures var c := Children(dependents, p)[j];
            var after := remaining[c := remaining[c] - 1];
            && after.Keys == g.ids
            && (forall v :: v in g.ids ==>
                  after[v] == Pending(g.parents[v], done) - Count(Children(dependents, p)[..j + 1], v))
            && QueueAgrees(after, done + {p}, if after[c] == 0 then queue + [c] else queue)
  {
    var children := Children(dependents, p);
    var c := children[j];
    var after := remaining[c := remaining[c] - 1];
    forall v | v in g.ids
      ensures after[v] == Pending(g.parents[v], done) - Count(children[..j + 1], v)
    {
      CountPrefixStep(children, j, v);
    }
    assert c !in queue;
    if after[c] == 0 {
      NoDuplicatesSnoc(queue, c);
    }
  }

  /**
   * One step of the release loop both traversals share: the j-th child of a
   * freshly finished p has its counter decremented, and is released (appended to
   * the queue) exactly when the counter reaches 0.
   */
  method DecrementChild(ghost g: Graph, dependents: map<int, seq<int>>, ghost done: set<int>, p: int, j: nat,
                        remainingIn: map<int, int>, ghost readyQueue: seq<int>, releasedIn: seq<int>)
    returns (remaining: map<int, int>, released: seq<int>)
    requires g.Valid() && DependentsMatch(g, dependents) && DownClosed(g, done)
    requires p in g.ids && p !in done && forall d :: d in g.parents[p] ==> d in done
    requires j < |Children(dependents, p)| && remainingIn.Keys == g.ids
    requires forall v :: v in g.ids ==>
               remainingIn[v] == Pending(g.parents[v], done) - Count(Children(dependents, p)[..j], v)
    requires QueueAgrees(remainingIn, done + {p}, readyQueue + releasedIn)
    ensures Children(dependents, p)[j] in g.ids && Children(dependents, p)[j] !in done + {p}
    ensures p in g.parents[Children(dependents, p)[j]]
    ensures remaining.Keys == g.ids
    ensures forall v :: v in g.ids ==>
              remaining[v] == Pending(g.parents[v], done) - Count(Children(dependents, p)[..j + 1], v)
    ensures QueueAgrees(remaining, done + {p}, readyQueue + released)
  {
    var childId := Children(dependents, p)[j];
    ReleaseStep(g, dependents, done, p, j, remainingIn);
    ReleaseAdvance(g, dependents, done, p, j, remainingIn, readyQueue + releasedIn);
    remaining := remainingIn[childId := remainingIn[childId] - 1];
    released := releasedIn;
    if remaining[childId] == 0 {
      AppendSnoc(readyQueue, releasedIn, childId);
      released := releasedIn + [childId];
    }
  }

  /** After all children of p are released, the counters are in step with p done. */
  lemma ReleaseComplete(g: Graph, dependents: map<int, seq<int>>, done: set<int>, p: int, remaining: map<int, int>)
    requires g.Valid() && DependentsMatch(g, dependents) && p !in done && remaining.Keys == g.ids
    requires forall v :: v in g.ids ==>
               remaining[v] == Pending(g.parents[v], done) - Count(Children(dependents, p), v)
    ensures CountsAgree(g, remaining, done + {p})
  {
    forall v | v in g.ids
      ensures remaining[v] == Pending(g.parents[v], done + {p})
    {
      PendingFinish(g.parents[v], done, p);
    }
  }
}
