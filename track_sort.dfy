/**
 * The order visitor tracks are sorted in before grouping: by visitorId, then
 * by firstTimeSeen compared as strings (String.compareTo). List.sort is a
 * stable sort; it is modelled as insertion sort, both as a function on
 * sequences and as the in-place algorithm on an array.
 */
module TrackSort {
  import opened VisitorTrack

  /** a.compareTo(b) <= 0: lexicographic order, a proper prefix first. */
  predicate StrLe(a: string, b: string)
  {
    if a == [] then true
    else if b == [] then false
    else if a[0] != b[0] then a[0] < b[0]
    else StrLe(a[1..], b[1..])
  }

  /** The comparator: visitorId, then firstTimeSeen. */
  predicate Le(x: Track, y: Track)
  {
    x.visitorId < y.visitorId || (x.visitorId == y.visitorId && StrLe(x.firstTimeSeen, y.firstTimeSeen))
  }

  /** Two tracks the comparator cannot tell apart. */
  predicate SameKey(x: Track, y: Track)
  {
    x.visitorId == y.visitorId && x.firstTimeSeen == y.firstTimeSeen
  }

  predicate Sorted(s: seq<Track>)
  {
    forall i, j :: 0 <= i < j < |s| ==> Le(s[i], s[j])
  }

  /** Insert x after the last element that is not greater than it, shifting from the right. */
  function Insert(s: seq<Track>, x: Track): seq<Track>
  {
    if s == [] then [x]
    else if Le(s[|s| - 1], x) then s + [x]
    else Insert(s[..|s| - 1], x) + [s[|s| - 1]]
  }

  /** Insertion sort: insert each element, left to right, into the sorted prefix. */
  function Sort(s: seq<Track>): seq<Track>
  {
    if s == [] then [] else Insert(Sort(s[..|s| - 1]), s[|s| - 1])
  }

  /** The elements of s that share the key (visitor, time), in their order in s. */
  function WithKey(s: seq<Track>, visitor: int, time: string): seq<Track>
  {
    if s == [] then []
    else
      var last := s[|s| - 1];
      WithKey(s[..|s| - 1], visitor, time) + (if last.visitorId == visitor && last.firstTimeSeen == time then [last] else [])
  }

  /** List.sort on the decoded tracks, in place. */
  method SortTracks(a: array<Track>)
    modifies a
    ensures a[..] == Sort(old(a[..]))
  {
    ghost var input := a[..];
    var i := 0;
    while i < a.Length
      invariant 0 <= i <= a.Length
      invariant a[..i] == Sort(input[..i])
      invariant a[i..] == input[i..]
    {
      ghost var before := a[..];
      InsertNext(a, i);
      SortStep(input, i, before, a[..]);
      i := i + 1;
    }
    assert input[..a.Length] == input;
  }

  /** One pass of the outer loop extends the sorted prefix by one element of the input. */
  lemma SortStep(input: seq<Track>, i: nat, before: seq<Track>, after: seq<Track>)
    requires i < |input| == |before| == |after|
    requires before[..i] == Sort(input[..i]) && before[i..] == input[i..]
    requires after[..i + 1] == Insert(before[..i], before[i]) && after[i + 1..] == before[i + 1..]
    ensures after[..i + 1] == Sort(input[..i + 1]) && after[i + 1..] == input[i + 1..]
  {
    assert before[i] == input[i];
    assert input[..i + 1][..i] == input[..i];
  }

  /** Insert a[i] into the sorted prefix a[..i], shifting greater elements one place right. */
  method InsertNext(a: array<Track>, i: nat)
    requires i < a.Length
    modifies a
    ensures a[..i + 1] == Insert(old(a[..i]), old(a[i]))
    ensures a[i + 1..] == old(a[i + 1..])
  {
    var x := a[i];
    ghost var prefix := a[..i];
    ghost var suffix := a[i + 1..];
    var j := i;
    assert a[..] == Layout(prefix, j, x, suffix) by {
      assert a[..] == a[..i] + [x] + a[i + 1..];
      assert prefix[..i] == prefix && prefix[i..] == [];
    }
    while j > 0 && !Le(a[j - 1], x)
      invariant 0 <= j <= i
      invariant a[..] == Layout(prefix, j, a[j], suffix)
      invariant Insert(prefix, x) == Insert(prefix[..j], x) + prefix[j..]
    {
      LayoutAt(prefix, j, a[j], suffix, j - 1);
      InsertShift(prefix, j, x);
      LayoutSet(prefix, j, a[j], suffix, prefix[j - 1]);
      LayoutShift(prefix, j, suffix);
      a[j] := a[j - 1];
      j := j - 1;
    }
    LayoutSet(prefix, j, a[j], suffix, x);
    a[j] := x;
    InsertStop(prefix, j, x);
    LayoutSplit(prefix, j, x, suffix);
  }

  /**
   * The array during an insertion: the sorted prefix with one slot at j
   * (holding y) opened up, followed by the untouched rest.
   */
  ghost function Layout(prefix: seq<Track>, j: nat, y: Track, suffix: seq<Track>): seq<Track>
    requires j <= |prefix|
  {
    prefix[..j] + [y] + prefix[j..] + suffix
  }

  lemma LayoutAt(prefix: seq<Track>, j: nat, y: Track, suffix: seq<Track>, k: nat)
    requires k < j <= |prefix|
    ensures Layout(prefix, j, y, suffix)[k] == prefix[k]
  {
  }

  lemma LayoutSet(prefix: seq<Track>, j: nat, y: Track, suffix: seq<Track>, z: Track)
    requires j <= |prefix|
    ensures Layout(prefix, j, y, suffix)[j := z] == Layout(prefix, j, z, suffix)
  {
  }

  /** Copying prefix[j - 1] into the open slot opens the slot at j - 1 instead. */
  lemma LayoutShift(prefix: seq<Track>, j: nat, suffix: seq<Track>)
    requires 0 < j <= |prefix|
    ensures Layout(prefix, j, prefix[j - 1], suffix) == Layout(prefix, j - 1, prefix[j - 1], suffix)
  {
    assert prefix[..j] == prefix[..j - 1] + [prefix[j - 1]];
    assert prefix[j - 1..] == [prefix[j - 1]] + prefix[j..];
  }

  lemma LayoutSplit(prefix: seq<Track>, j: nat, y: Track, suffix: seq<Track>)
    requires j <= |prefix|
    ensures Layout(prefix, j, y, suffix)[..|prefix| + 1] == prefix[..j] + [y] + prefix[j..]
    ensures Layout(prefix, j, y, suffix)[|prefix| + 1..] == suffix
  {
  }

  /** One step of the inner loop: shifting prefix[j - 1] right keeps the pending insertion's result. */
  lemma InsertShift(prefix: seq<Track>, j: nat, x: Track)
    requires 0 < j <= |prefix| && !Le(prefix[j - 1], x)
    requires Insert(prefix, x) == Insert(prefix[..j], x) + prefix[j..]
    ensures Insert(prefix, x) == Insert(prefix[..j - 1], x) + prefix[j - 1..]
  {
    assert prefix[..j][..j - 1] == prefix[..j - 1];
    assert prefix[j - 1..] == [prefix[j - 1]] + prefix[j..];
  }

  /** The inner loop stops at the front or after an element not greater than x. */
  lemma InsertStop(prefix: seq<Track>, j: nat, x: Track)
    requires j <= |prefix| && (j == 0 || Le(prefix[j - 1], x))
    ensures Insert(prefix[..j], x) == prefix[..j] + [x]
  {
  }

  // ---------------------------------------------------------------------------
  // The string order is a total preorder (in fact a total order)

  lemma StrLeRefl(a: string)
    ensures StrLe(a, a)
  {
  }

  lemma {:induction false} StrLeTotal(a: string, b: string)
    ensures StrLe(a, b) || StrLe(b, a)
  {
    if a != [] && b != [] && a[0] == b[0] {
      StrLeTotal(a[1..], b[1..]);
    }
  }

  lemma {:induction false} StrLeTrans(a: string, b: string, c: string)
    requires StrLe(a, b) && StrLe(b, c)
    ensures StrLe(a, c)
  {
    if a != [] && b != [] && c != [] && a[0] == b[0] && b[0] == c[0] {
      StrLeTrans(a[1..], b[1..], c[1..]);
    }
  }

  lemma {:induction false} StrLeAntisym(a: string, b: string)
    requires StrLe(a, b) && StrLe(b, a)
    ensures a == b
  {
    if a != [] && b != [] {
      StrLeAntisym(a[1..], b[1..]);
      assert a == [a[0]] + a[1..] && b == [b[0]] + b[1..];
    }
  }

  lemma LeTotal(x: Track, y: Track)
    ensures Le(x, y) || Le(y, x)
  {
    StrLeTotal(x.firstTimeSeen, y.firstTimeSeen);
  }

  lemma LeTrans(x: Track, y: Track, z: Track)
    requires Le(x, y) && Le(y, z)
    ensures Le(x, z)
  {
    if x.visitorId == y.visitorId == z.visitorId {
      StrLeTrans(x.firstTimeSeen, y.firstTimeSeen, z.firstTimeSeen);
    }
  }

  /** Only tracks with the same key are mutually ordered. */
  lemma LeBothWays(x: Track, y: Track)
    requires Le(x, y) && Le(y, x)
    ensures SameKey(x, y)
  {
    if x.visitorId == y.visitorId {
      StrLeAntisym(x.firstTimeSeen, y.firstTimeSeen);
    }
  }

  // ---------------------------------------------------------------------------
  // Properties of the sort

  /** Sorting only rearranges: the result is a permutation of the input. */
  lemma {:induction false} SortPermutes(s: seq<Track>)
    ensures multiset(Sort(s)) == multiset(s)
    ensures |Sort(s)| == |s|
  {
    if s != [] {
      var init := s[..|s| - 1];
      var x := s[|s| - 1];
      assert s == init + [x];
      SortPermutes(init);
      InsertPermutes(Sort(init), x);
    }
  }

  /** Inserting adds exactly x. */
  lemma {:induction false} InsertPermutes(s: seq<Track>, x: Track)
    ensures multiset(Insert(s, x)) == multiset(s) + multiset{x}
    ensures |Insert(s, x)| == |s| + 1
  {
    if s != [] && !Le(s[|s| - 1], x) {
      var init, last := s[..|s| - 1], s[|s| - 1];
      InsertPermutes(init, x);
      assert s == init + [last];
      assert multiset(Insert(init, x) + [last]) == multiset(Insert(init, x)) + multiset{last};
    }
  }

  /** The result of the sort is ordered by the comparator. */
  lemma {:induction false} SortSorts(s: seq<Track>)
    ensures Sorted(Sort(s))
  {
    if s != [] {
      SortSorts(s[..|s| - 1]);
      InsertSorted(Sort(s[..|s| - 1]), s[|s| - 1]);
    }
  }

  /** Inserting into a sorted sequence keeps it sorted. */
  lemma {:induction false} InsertSorted(s: seq<Track>, x: Track)
    requires Sorted(s)
    ensures Sorted(Insert(s, x))
  {
    if s == [] {
    } else if Le(s[|s| - 1], x) {
      var r := s + [x];
      forall i, j | 0 <= i < j < |r| ensures Le(r[i], r[j]) {
        if j == |s| && i < |s| - 1 {
          LeTrans(s[i], s[|s| - 1], x);
        }
      }
    } else {
      var init, last := s[..|s| - 1], s[|s| - 1];
      InsertSorted(init, x);
      InsertPermutes(init, x);
      LeTotal(last, x);
      var m := Insert(init, x);
      forall k | 0 <= k < |m| ensures Le(m[k], last) {
        assert m[k] in multiset(m);
        if m[k] != x {
          assert m[k] in multiset(init);
          var idx :| 0 <= idx < |init| && init[idx] == m[k];
          assert s[idx] == m[k];
        }
      }
      var r := m + [last];
      forall i, j | 0 <= i < j < |r| ensures Le(r[i], r[j]) {
        assert r[i] == m[i];
        if j < |m| {
          assert r[j] == m[j];
        }
      }
    }
  }

  lemma WithKeyAppend(a: seq<Track>, b: seq<Track>, visitor: int, time: string)
    ensures WithKey(a + b, visitor, time) == WithKey(a, visitor, time) + WithKey(b, visitor, time)
    decreases |b|
  {
    if b != [] {
      WithKeyAppend(a, b[..|b| - 1], visitor, time);
      assert (a + b)[..|a + b| - 1] == a + b[..|b| - 1];
    } else {
      assert a + b == a;
    }
  }

  /**
   * Inserting x adds x, if it has the key, after every element that has it:
   * Insert only moves x past elements strictly greater than it, and those
   * never share its key.
   */
  lemma {:induction false} InsertWithKey(s: seq<Track>, x: Track, visitor: int, time: string)
    ensures WithKey(Insert(s, x), visitor, time) == WithKey(s, visitor, time) + WithKey([x], visitor, time)
  {
    assert [x][..0] == [];
    if s == [] {
    } else if Le(s[|s| - 1], x) {
      assert (s + [x])[..|s|] == s;
    } else {
      var init, last := s[..|s| - 1], s[|s| - 1];
      InsertWithKey(init, x, visitor, time);
      var moved := Insert(init, x);
      assert (moved + [last])[..|moved|] == moved;
      if last.visitorId == visitor && last.firstTimeSeen == time {
        StrLeRefl(time);
      }
    }
  }

  /**
   * Stability: the tracks sharing one key (same visitor, same firstTimeSeen)
   * come out of the sort in the order they went in.
   */
  lemma {:induction false} SortStable(s: seq<Track>, visitor: int, time: string)
    ensures WithKey(Sort(s), visitor, time) == WithKey(s, visitor, time)
  {
    if s != [] {
      var init := s[..|s| - 1];
      var x := s[|s| - 1];
      assert s == init + [x];
      SortStable(init, visitor, time);
      InsertWithKey(Sort(init), x, visitor, time);
      WithKeyAppend(init, [x], visitor, time);
    }
  }


}
