/** Small sequence and set facts shared by the planner and the validator. */
module Collections {

  /** The set of ids a sequence mentions, forgetting order and repetition. */
  function Elems(s: seq<int>): set<int>
  {
    set x | x in s
  }

  /** A non-empty set has a member (the witness `:|` needs). */
  lemma NonEmpty(s: set<int>)
    requires s != {}
    ensures exists x :: x in s
  {
    assert (forall y :: y !in s) ==> s == {};
  }

  /** No id occurs twice. */
  predicate NoDuplicates(s: seq<int>)
  {
    forall i, j :: 0 <= i < j < |s| ==> s[i] != s[j]
  }

  function Max(a: int, b: int): int
  {
    if a >= b then a else b
  }

  /** The least element of a non-empty set. */
  ghost function Min(s: set<int>): (m: int)
    requires s != {}
    ensures m in s && forall z :: z in s ==> m <= z
    decreases s
  {
    NonEmpty(s);
    var x :| x in s;
    if forall y :: y in s ==> x <= y then x
    else
      var y :| y in s && y < x;
      assert y in s - {x};
      var r := Min(s - {x});
      assert forall z :: z in s ==> z == x || z in s - {x};
      r
  }

  /** All waves joined end to end, in wave order. */
  function Flatten(waves: seq<seq<int>>): seq<int>
  {
    if waves == [] then [] else Flatten(waves[..|waves| - 1]) + waves[|waves| - 1]
  }

  /** The number of entries over all waves. */
  function TotalSize(waves: seq<seq<int>>): nat
  {
    if waves == [] then 0 else TotalSize(waves[..|waves| - 1]) + |waves[|waves| - 1]|
  }

  /** Each wave read as a set: order inside a wave carries no meaning. */
  function WaveSets(waves: seq<seq<int>>): (r: seq<set<int>>)
    ensures |r| == |waves|
    ensures forall i :: 0 <= i < |waves| ==> r[i] == Elems(waves[i])
  {
    seq(|waves|, i requires 0 <= i < |waves| => Elems(waves[i]))
  }

  /** Moving the head of the remaining layers onto the emitted waves leaves the whole sequence unchanged. */
  lemma ShiftLayer(waves: seq<seq<int>>, wave: seq<int>, rest: seq<set<int>>, all: seq<set<int>>)
    requires WaveSets(waves) + ([Elems(wave)] + rest) == all
    ensures WaveSets(waves + [wave]) + rest == all
  {
    assert WaveSets(waves + [wave]) == WaveSets(waves) + [Elems(wave)];
  }

  lemma FlattenAppend(waves: seq<seq<int>>, w: seq<int>)
    ensures Flatten(waves + [w]) == Flatten(waves) + w
    ensures TotalSize(waves + [w]) == TotalSize(waves) + |w|
  {
    assert (waves + [w])[..|waves|] == waves;
  }

  lemma {:induction false} FlattenSize(waves: seq<seq<int>>)
    ensures |Flatten(waves)| == TotalSize(waves)
    decreases |waves|
  {
    if waves != [] {
      FlattenSize(waves[..|waves| - 1]);
    }
  }

  /** When no wave is empty there are at least as many scripts as waves. */
  lemma {:induction false} TotalSizeAtLeastCount(waves: seq<seq<int>>)
    requires forall i :: 0 <= i < |waves| ==> waves[i] != []
    ensures TotalSize(waves) >= |waves|
    decreases |waves|
  {
    if waves != [] {
      var n := |waves| - 1;
      assert forall i :: 0 <= i < n ==> waves[..n][i] == waves[i];
      TotalSizeAtLeastCount(waves[..n]);
    }
  }

  /** An id is in the flattened plan iff it is in one of the waves. */
  lemma {:induction false} FlattenMembership(waves: seq<seq<int>>, x: int)
    ensures x in Flatten(waves) <==> exists i :: 0 <= i < |waves| && x in waves[i]
    decreases |waves|
  {
    if waves != [] {
      var n := |waves| - 1;
      var front := waves[..n];
      FlattenMembership(front, x);
      assert Flatten(waves) == Flatten(front) + waves[n];
      if x in Flatten(front) {
        var i :| 0 <= i < n && x in front[i];
        assert front[i] == waves[i];
      }
      if exists i :: 0 <= i < |waves| && x in waves[i] {
        var i :| 0 <= i < |waves| && x in waves[i];
        if i < n {
          assert front[i] == waves[i];
        }
      }
    }
  }

  /** The index of a wave holding x. */
  lemma WaveOf(waves: seq<seq<int>>, x: int) returns (i: nat)
    requires x in Flatten(waves)
    ensures i < |waves| && x in waves[i]
  {
    FlattenMembership(waves, x);
    i :| 0 <= i < |waves| && x in waves[i];
  }

  lemma ElemsAppend(s: seq<int>, x: int)
    ensures Elems(s + [x]) == Elems(s) + {x}
  {
  }

  lemma {:induction false} ElemsBound(s: seq<int>)
    ensures |Elems(s)| <= |s|
    decreases |s|
  {
    if s != [] {
      var n := |s| - 1;
      assert s == s[..n] + [s[n]];
      ElemsAppend(s[..n], s[n]);
      ElemsBound(s[..n]);
    }
  }

  /** A list has no duplicates iff its set of ids is as large as the list: the test the validator uses. */
  lemma {:induction false} DistinctCardinality(s: seq<int>)
    ensures |Elems(s)| == |s| <==> NoDuplicates(s)
    decreases |s|
  {
    if s != [] {
      var n := |s| - 1;
      var prefix, x := s[..n], s[n];
      assert s == prefix + [x];
      ElemsAppend(prefix, x);
      DistinctCardinality(prefix);
      ElemsBound(prefix);
      NoDuplicatesSnocIff(prefix, x);
      if x in prefix {
        assert x in Elems(prefix);
        assert Elems(s) == Elems(prefix);
      } else {
        assert x !in Elems(prefix);
      }
    }
  }

  /** A list with one more id at the end is duplicate-free iff the list is and does not hold that id. */
  lemma NoDuplicatesSnocIff(s: seq<int>, x: int)
    ensures NoDuplicates(s + [x]) <==> NoDuplicates(s) && x !in s
  {
    var t := s + [x];
    if NoDuplicates(s) && x !in s {
      NoDuplicatesSnoc(s, x);
    }
    if NoDuplicates(t) {
      forall i, j | 0 <= i < j < |s|
        ensures s[i] != s[j]
      {
        assert t[i] == s[i] && t[j] == s[j];
      }
      forall k | 0 <= k < |s|
        ensures s[k] != x
      {
        assert t[k] == s[k] && t[|s|] == x;
      }
    }
  }

  lemma NoDuplicatesSnoc(s: seq<int>, x: int)
    requires NoDuplicates(s) && x !in s
    ensures NoDuplicates(s + [x])
  {
    forall i, j | 0 <= i < j < |s| + 1
      ensures (s + [x])[i] != (s + [x])[j]
    {
      if j == |s| {
        assert (s + [x])[i] == s[i];
      }
    }
  }

  /** Joining two duplicate-free lists with no common id gives a duplicate-free list. */
  lemma NoDuplicatesAppend(a: seq<int>, b: seq<int>)
    requires NoDuplicates(a) && NoDuplicates(b) && Elems(a) !! Elems(b)
    ensures NoDuplicates(a + b)
    ensures Elems(a + b) == Elems(a) + Elems(b)
  {
    var ab := a + b;
    forall i, j | 0 <= i < j < |ab|
      ensures ab[i] != ab[j]
    {
      if j < |a| {
      } else if i >= |a| {
        assert ab[i] == b[i - |a|] && ab[j] == b[j - |a|];
      } else {
        assert ab[i] in Elems(a) && ab[j] in Elems(b);
      }
    }
  }
  /** Appending a wave of new ids keeps the flattened waves duplicate-free and adds exactly its ids. */
  lemma AppendFreshWave(waves: seq<seq<int>>, wave: seq<int>)
    requires NoDuplicates(Flatten(waves)) && NoDuplicates(wave) && Elems(Flatten(waves)) !! Elems(wave)
    ensures NoDuplicates(Flatten(waves + [wave]))
    ensures Elems(Flatten(waves + [wave])) == Elems(Flatten(waves)) + Elems(wave)
  {
    NoDuplicatesAppend(Flatten(waves), wave);
    FlattenAppend(waves, wave);
  }


  lemma WholeSlice<T>(s: seq<T>)
    ensures s[..|s|] == s && s + [] == s
  {
  }

  lemma PrefixSnoc<T>(s: seq<T>, j: nat)
    requires j < |s|
    ensures s[..j + 1] == s[..j] + [s[j]]
  {
  }

  lemma AppendSnoc<T>(a: seq<T>, b: seq<T>, x: T)
    ensures (a + b) + [x] == a + (b + [x])
  {
  }

  /** How many times x occurs in s (what a multiset of s would hold for x). */
  function Count(s: seq<int>, x: int): nat
  {
    if s == [] then 0 else Count(s[..|s| - 1], x) + (if s[|s| - 1] == x then 1 else 0)
  }

  lemma CountSnoc(s: seq<int>, y: int, x: int)
    ensures Count(s + [y], x) == Count(s, x) + (if y == x then 1 else 0)
  {
    assert (s + [y])[..|s|] == s;
  }

  /** Extending a prefix by one element counts that element once more. */
  lemma CountPrefixStep(s: seq<int>, j: nat, x: int)
    requires j < |s|
    ensures Count(s[..j + 1], x) == Count(s[..j], x) + (if s[j] == x then 1 else 0)
  {
    assert s[..j + 1][..j] == s[..j];
  }

  lemma {:induction false} CountMembership(s: seq<int>, x: int)
    ensures Count(s, x) > 0 <==> x in s
    decreases |s|
  {
    if s != [] {
      var n := |s| - 1;
      assert s == s[..n] + [s[n]];
      CountMembership(s[..n], x);
    }
  }

  /** A prefix has no more occurrences than the whole list. */
  lemma {:induction false} CountPrefixBound(s: seq<int>, k: nat, x: int)
    requires k <= |s|
    ensures Count(s[..k], x) <= Count(s, x)
    decreases |s| - k
  {
    if k < |s| {
      CountPrefixStep(s, k, x);
      CountPrefixBound(s, k + 1, x);
    } else {
      assert s[..k] == s;
    }
  }

  /** For a duplicate-free list, every id occurs once if present and not at all otherwise. */
  lemma {:induction false} NoDuplicatesCount(s: seq<int>, x: int)
    requires NoDuplicates(s)
    ensures Count(s, x) == (if x in s then 1 else 0)
    decreases |s|
  {
    if s != [] {
      var n := |s| - 1;
      assert s == s[..n] + [s[n]];
      assert NoDuplicates(s[..n]);
      NoDuplicatesCount(s[..n], x);
      assert s[n] !in s[..n];
    }
  }

  /** An entry that appears again later in the list is counted at least twice. */
  lemma RepeatCountsTwice(s: seq<int>, i: nat, j: nat)
    requires i < j < |s|
    ensures s[i] == s[j] ==> Count(s, s[i]) >= 2
  {
    var x := s[i];
    assert s[..j][i] == x;
    CountMembership(s[..j], x);
    CountPrefixStep(s, j, x);
    CountPrefixBound(s, j + 1, x);
  }
}
