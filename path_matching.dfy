/**
 * Matching visitor paths against a query of location ids. The public node
 * counts visitors whose path contains the query as a contiguous run
 * (Collections.indexOfSubList > -1); the archive node counts visitors whose
 * path equals the query. Both are one matcher with an explicit policy.
 */
module PathMatching {

  datatype Policy = Exact | Contiguous

  /** query occurs in path starting at position i. */
  predicate RunAt(path: seq<int>, query: seq<int>, i: int)
  {
    0 <= i <= |path| - |query| && path[i..i + |query|] == query
  }

  /** query occurs somewhere in path as a contiguous, ordered run. */
  ghost predicate ContainsRun(path: seq<int>, query: seq<int>)
  {
    exists i :: RunAt(path, query, i)
  }

  /**
   * Collections.indexOfSubList: try each candidate position from `from`
   * upwards and return the first where the whole query matches, or -1.
   */
  function IndexOfSubListFrom(path: seq<int>, query: seq<int>, from: nat): (r: int)
    ensures r == -1 || (from <= r && RunAt(path, query, r))
    ensures r == -1 <==> forall i :: from <= i ==> !RunAt(path, query, i)
    ensures r >= 0 ==> forall i :: from <= i < r ==> !RunAt(path, query, i)
    decreases |path| - from
  {
    if from > |path| - |query| then -1
    else if path[from..from + |query|] == query then from
    else IndexOfSubListFrom(path, query, from + 1)
  }

  function IndexOfSubList(path: seq<int>, query: seq<int>): int
  {
    IndexOfSubListFrom(path, query, 0)
  }

  /** The public node's test. */
  function ContiguousMatch(path: seq<int>, query: seq<int>): (b: bool)
    ensures b <==> ContainsRun(path, query)
  {
    IndexOfSubList(path, query) > -1
  }

  /** The archive node's test (List.equals): same length, equal element by element. */
  function ExactMatch(path: seq<int>, query: seq<int>): (b: bool)
    ensures b <==> |path| == |query| && forall i :: 0 <= i < |path| ==> path[i] == query[i]
    ensures b ==> ContiguousMatch(path, query)
  {
    assert path == query ==> RunAt(path, query, 0) by {
      if path == query { assert path[0..|query|] == query; }
    }
    path == query
  }

  predicate Matches(policy: Policy, path: seq<int>, query: seq<int>)
  {
    match policy
    case Exact => ExactMatch(path, query)
    case Contiguous => ContiguousMatch(path, query)
  }

  /** The visitors a policy counts; map iteration order plays no part. */
  function MatchingVisitors(paths: map<int, seq<int>>, query: seq<int>, policy: Policy): set<int>
  {
    set v | v in paths && Matches(policy, paths[v], query)
  }

  /** No policy counts more visitors than the map holds. */
  function MatchCount(paths: map<int, seq<int>>, query: seq<int>, policy: Policy): (r: nat)
    ensures r <= |paths|
  {
    SubsetCardinality(MatchingVisitors(paths, query, policy), paths.Keys);
    |MatchingVisitors(paths, query, policy)|
  }

  /** The matching visitors among those already visited by the counting loop. */
  function MatchingAmong(paths: map<int, seq<int>>, query: seq<int>, policy: Policy, seen: set<int>): set<int>
  {
    set v | v in seen && v in paths && Matches(policy, paths[v], query)
  }

  /** Visiting one more visitor adds one match exactly when it matches. */
  lemma MatchingAmongStep(paths: map<int, seq<int>>, query: seq<int>, policy: Policy, seen: set<int>, v: int)
    requires v in paths && v !in seen
    ensures |MatchingAmong(paths, query, policy, seen + {v})| ==
      |MatchingAmong(paths, query, policy, seen)| + (if Matches(policy, paths[v], query) then 1 else 0)
  {
    var before, after := MatchingAmong(paths, query, policy, seen), MatchingAmong(paths, query, policy, seen + {v});
    assert v !in before;
    if Matches(policy, paths[v], query) {
      assert after == before + {v};
    } else {
      assert after == before;
    }
  }

  /** Once every visitor is visited, the matches among them are all the matches. */
  lemma MatchingAmongAll(paths: map<int, seq<int>>, query: seq<int>, policy: Policy)
    ensures MatchingAmong(paths, query, policy, paths.Keys) == MatchingVisitors(paths, query, policy)
  {
  }

  /** The counting loop over the map's entries, with a mutable counter. */
  method CountMatches(paths: map<int, seq<int>>, query: seq<int>, policy: Policy) returns (count: nat)
    ensures count == MatchCount(paths, query, policy)
  {
    count := 0;
    var remaining := paths.Keys;
    ghost var visited: set<int> := {};
    while remaining != {}
      invariant remaining <= paths.Keys && visited == paths.Keys - remaining
      invariant count == |MatchingAmong(paths, query, policy, visited)|
      decreases remaining
    {
      EmptyOrWitness(remaining);
      var v :| v in remaining;
      MatchingAmongStep(paths, query, policy, visited, v);
      if Matches(policy, paths[v], query) {
        count := count + 1;
      }
      remaining := remaining - {v};
      visited := visited + {v};
    }
    assert visited == paths.Keys;
    MatchingAmongAll(paths, query, policy);
  }

  // ---------------------------------------------------------------------------
  // Properties

  /** Contiguity and order both count: [2, 3] is in [1, 2, 3, 4] but not in [1, 3, 2, 4]. */
  lemma ContiguityExamples()
    ensures ContiguousMatch([1, 2, 3, 4], [2, 3])
    ensures !ContiguousMatch([1, 3, 2, 4], [2, 3])
    ensures ExactMatch([1, 2, 3], [1, 2, 3]) && !ExactMatch([1, 2, 3, 4], [1, 2, 3])
  {
    assert RunAt([1, 2, 3, 4], [2, 3], 1);
    var p := [1, 3, 2, 4];
    forall i | 0 <= i <= 2 ensures !RunAt(p, [2, 3], i) {
      assert p[i..i + 2][0] == p[i] && p[i..i + 2][1] == p[i + 1];
    }
  }

  /** A set is empty or has a member (stated so that no caller branch is vacuous). */
  lemma EmptyOrWitness(a: set<int>)
    ensures a == {} || exists x :: x in a
  {
    if forall x :: x !in a {
      assert a == {};
    }
  }

  lemma {:induction false} SubsetCardinality(a: set<int>, b: set<int>)
    requires a <= b
    ensures |a| <= |b|
  {
    if a != {} {
      EmptyOrWitness(a);
      var x :| x in a;
      SubsetCardinality(a - {x}, b - {x});
    }
  }

  /** Every path contains the empty run, so an empty query counts every visitor. */
  lemma EmptyQueryCountsAll(paths: map<int, seq<int>>)
    ensures MatchCount(paths, [], Contiguous) == |paths|
  {
    forall v | v in paths ensures Matches(Contiguous, paths[v], []) {
      assert RunAt(paths[v], [], 0);
    }
    assert MatchingVisitors(paths, [], Contiguous) == paths.Keys;
  }

  /** Paths built from positive region ids never match a query holding a negative id. */
  lemma NegativeIdCountsNone(paths: map<int, seq<int>>, query: seq<int>, policy: Policy, k: nat)
    requires forall v, j :: v in paths && 0 <= j < |paths[v]| ==> paths[v][j] > 0
    requires k < |query| && query[k] < 0
    ensures MatchCount(paths, query, policy) == 0
  {
    forall v | v in paths ensures !Matches(policy, paths[v], query) {
    }
    assert MatchingVisitors(paths, query, policy) == {};
  }

  /** Every visitor counted under Exact is also counted under Contiguous. */
  lemma ExactImpliesContiguous(paths: map<int, seq<int>>, query: seq<int>)
    ensures MatchingVisitors(paths, query, Exact) <= MatchingVisitors(paths, query, Contiguous)
    ensures MatchCount(paths, query, Exact) <= MatchCount(paths, query, Contiguous)
  {
    forall v | v in MatchingVisitors(paths, query, Exact)
      ensures v in MatchingVisitors(paths, query, Contiguous)
    {
    }
    SubsetCardinality(MatchingVisitors(paths, query, Exact), MatchingVisitors(paths, query, Contiguous));
  }
}
