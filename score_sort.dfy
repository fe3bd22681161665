/** The score records the solver ranks, and the two hand-written descending sorts
    over them: an insertion sort for component scores and a top-down merge sort
    for node scores. Both are stable: records with equal scores keep their order. */
module ScoreSort {
  import opened Board

  /** A record ranked by an integer score. */
  datatype Scored<T> = Scored(item: T, score: int)

  /** A room of EMPTY cells and its id. */
  datatype Room = Room(id: int, component: set<Point>)

  /** A room and its score (cells minus lit cells). */
  type ComponentScore = Scored<Room>

  /** A candidate cell and its score (the number of cells it sees). */
  type NodeScore = Scored<Point>

  /** `s` is non-increasing in score. */
  predicate SortedDesc<T>(s: seq<Scored<T>>)
  {
    forall i, j :: 0 <= i < j < |s| ==> s[i].score >= s[j].score
  }

  /** The elements of `s` whose score is `k`, in their order in `s`. */
  function WithScore<T>(s: seq<Scored<T>>, k: int): seq<Scored<T>>
  {
    if s == [] then []
    else (if s[0].score == k then [s[0]] else []) + WithScore(s[1..], k)
  }

  /** `t` reorders `s` keeping, for every score, the relative order of the elements
      with that score. */
  ghost predicate StablePermutation<T>(s: seq<Scored<T>>, t: seq<Scored<T>>)
  {
    forall k :: WithScore(t, k) == WithScore(s, k)
  }

  lemma {:induction false} WithScoreAppend<T>(s: seq<Scored<T>>, t: seq<Scored<T>>, k: int)
    ensures WithScore(s + t, k) == WithScore(s, k) + WithScore(t, k)
  {
    if s == [] {
      assert s + t == t;
    } else {
      var head := if s[0].score == k then [s[0]] else [];
      assert (s + t)[0] == s[0] && (s + t)[1..] == s[1..] + t;
      assert WithScore(s + t, k) == head + WithScore(s[1..] + t, k);
      WithScoreAppend(s[1..], t, k);
      assert WithScore(s, k) == head + WithScore(s[1..], k);
      assert head + (WithScore(s[1..], k) + WithScore(t, k)) == (head + WithScore(s[1..], k)) + WithScore(t, k);
    }
  }

  lemma WithScoreSingle<T>(x: Scored<T>, k: int)
    ensures WithScore([x], k) == if x.score == k then [x] else []
  {
    assert [x][1..] == [];
  }

  lemma {:induction false} WithScoreNone<T>(s: seq<Scored<T>>, k: int)
    requires forall m :: 0 <= m < |s| ==> s[m].score != k
    ensures WithScore(s, k) == []
  {
    if s != [] {
      WithScoreNone(s[1..], k);
    }
  }

  /** An element occurs in `s` as often as in the part of `s` sharing its score. */
  lemma {:induction false} CountWithinScore<T>(s: seq<Scored<T>>, x: Scored<T>)
    ensures multiset(s)[x] == multiset(WithScore(s, x.score))[x]
  {
    if s != [] {
      CountWithinScore(s[1..], x);
      assert s == [s[0]] + s[1..];
      assert multiset(s) == multiset([s[0]]) + multiset(s[1..]);
    }
  }

  /** A stable reordering is in particular a permutation. */
  lemma StableIsPermutation<T>(s: seq<Scored<T>>, t: seq<Scored<T>>)
    requires StablePermutation(s, t)
    ensures multiset(s) == multiset(t)
  {
    forall x
      ensures multiset(s)[x] == multiset(t)[x]
    {
      CountWithinScore(s, x);
      CountWithinScore(t, x);
      assert WithScore(t, x.score) == WithScore(s, x.score);
    }
  }

  /** A sequence without repeats holds each value at most once. */
  lemma {:induction false} DistinctCountsOne<T>(s: seq<T>, x: T)
    requires forall i, j :: 0 <= i < j < |s| ==> s[i] != s[j]
    ensures multiset(s)[x] <= 1
  {
    if s != [] {
      assert s == [s[0]] + s[1..];
      DistinctCountsOne(s[1..], x);
      if x == s[0] {
        assert x !in s[1..] by {
          forall k | 0 <= k < |s[1..]|
            ensures s[1..][k] != x
          {
            assert s[1..][k] == s[k + 1];
          }
        }
      }
    }
  }

  /** A permutation of a sequence without repeats has no repeats. */
  lemma PermutationKeepsDistinct<T>(s: seq<T>, t: seq<T>)
    requires multiset(s) == multiset(t)
    requires forall i, j :: 0 <= i < j < |s| ==> s[i] != s[j]
    ensures forall i, j :: 0 <= i < j < |t| ==> t[i] != t[j]
  {
    forall i, j | 0 <= i < j < |t|
      ensures t[i] != t[j]
    {
      if t[i] == t[j] {
        assert t == t[..j] + [t[j]] + t[j + 1..];
        assert t[i] in t[..j];
        assert multiset(t)[t[i]] >= 2;
        DistinctCountsOne(s, t[i]);
        assert false;
      }
    }
  }

  /** There is only one stable descending order of a sequence: any two sorted
      stable reorderings of the same input are equal. */
  lemma {:induction false} StableSortUnique<T>(s: seq<Scored<T>>, t: seq<Scored<T>>, u: seq<Scored<T>>)
    requires StablePermutation(s, t) && SortedDesc(t)
    requires StablePermutation(s, u) && SortedDesc(u)
    ensures t == u
    decreases |t|
  {
    StableIsPermutation(s, t);
    StableIsPermutation(s, u);
    assert |t| == |multiset(t)| == |multiset(u)| == |u|;
    if t != [] {
      SameHead(s, t, u);
      forall j
        ensures WithScore(u[1..], j) == WithScore(t[1..], j)
      {
        DropHead(t, u, j);
      }
      StableSortUnique(t[1..], t[1..], u[1..]);
      assert t == [t[0]] + t[1..] && u == [u[0]] + u[1..];
    }
  }

  /** Two sorted stable reorderings of the same input start with the same element:
      the first element of the highest score. */
  lemma SameHead<T>(s: seq<Scored<T>>, t: seq<Scored<T>>, u: seq<Scored<T>>)
    requires StablePermutation(s, t) && SortedDesc(t) && t != []
    requires StablePermutation(s, u) && SortedDesc(u) && u != []
    requires multiset(t) == multiset(u)
    ensures t[0] == u[0]
  {
    SortedHeadMax(t);
    SortedHeadMax(u);
    assert t[0] in multiset(u) && u[0] in multiset(t);
    var k := t[0].score;
    assert u[0].score == k;
    assert WithScore(t, k) == [t[0]] + WithScore(t[1..], k);
    assert WithScore(u, k) == [u[0]] + WithScore(u[1..], k);
    assert WithScore(t, k) == WithScore(s, k) == WithScore(u, k);
  }

  /** Equal heads and equal per-score subsequences leave equal per-score tails. */
  lemma DropHead<T>(t: seq<Scored<T>>, u: seq<Scored<T>>, j: int)
    requires t != [] && u != [] && t[0] == u[0] && WithScore(t, j) == WithScore(u, j)
    ensures WithScore(t[1..], j) == WithScore(u[1..], j)
  {
    var pre := if t[0].score == j then [t[0]] else [];
    assert WithScore(t[1..], j) == WithScore(t, j)[|pre|..];
    assert WithScore(u[1..], j) == WithScore(u, j)[|pre|..];
  }

  lemma SortedHeadMax<T>(s: seq<Scored<T>>)
    requires SortedDesc(s) && s != []
    ensures forall x :: x in multiset(s) ==> x.score <= s[0].score
  {
    forall x | x in multiset(s)
      ensures x.score <= s[0].score
    {
      var m :| 0 <= m < |s| && s[m] == x;
    }
  }

  /** Inserting `x` between `before`, whose scores are all at least x's, and `after`,
      whose scores are all smaller, keeps a sorted sequence sorted. */
  lemma InsertSorted<T>(before: seq<Scored<T>>, x: Scored<T>, after: seq<Scored<T>>)
    requires SortedDesc(before + after)
    requires before == [] || before[|before| - 1].score >= x.score
    requires forall m :: 0 <= m < |after| ==> after[m].score < x.score
    ensures SortedDesc(before + [x] + after)
  {
    var p, q := before + after, before + [x] + after;
    forall i, j | 0 <= i < j < |q|
      ensures q[i].score >= q[j].score
    {
      if i < |before| && j == |before| {
        assert p[i].score >= p[|before| - 1].score;
      } else if j < |before| {
        assert q[i] == p[i] && q[j] == p[j];
      } else if i < |before| {
        assert q[i] == p[i] && q[j] == p[j - 1];
      } else if i > |before| {
        assert q[i] == p[i - 1] && q[j] == p[j - 1];
      }
    }
  }

  /** ... and places `x` after every element of its score, as appending it would. */
  lemma InsertStable<T>(before: seq<Scored<T>>, x: Scored<T>, after: seq<Scored<T>>, k: int)
    requires forall m :: 0 <= m < |after| ==> after[m].score < x.score
    ensures WithScore(before + [x] + after, k) == WithScore(before + after + [x], k)
  {
    WithScoreAppend(before + [x], after, k);
    WithScoreAppend(before, [x], k);
    WithScoreAppend(before, after, k);
    WithScoreAppend(before + after, [x], k);
    WithScoreSingle(x, k);
    if x.score == k {
      WithScoreNone(after, k);
    }
  }

  /** The filter keeps exactly the elements of `s` with score `k`. */
  lemma {:induction false} WithScoreMembers<T>(s: seq<Scored<T>>, k: int)
    ensures forall x :: x in WithScore(s, k) <==> x in s && x.score == k
  {
    if s != [] {
      WithScoreMembers(s[1..], k);
      assert s == [s[0]] + s[1..];
    }
  }

  /** Room ids strictly increase along `s`. */
  predicate IdsIncreasing(s: seq<ComponentScore>)
  {
    forall i, j :: 0 <= i < j < |s| ==> s[i].item.id < s[j].item.id
  }

  lemma {:induction false} FilterKeepsIdOrder(s: seq<ComponentScore>, k: int)
    requires IdsIncreasing(s)
    ensures IdsIncreasing(WithScore(s, k))
  {
    if s != [] {
      FilterKeepsIdOrder(s[1..], k);
      WithScoreMembers(s[1..], k);
      var rest := WithScore(s[1..], k);
      forall x | x in rest
        ensures s[0].item.id < x.item.id
      {
        var j :| 0 <= j < |s[1..]| && s[1..][j] == x;
        assert s[j + 1] == x;
      }
    }
  }

  /** When every per-score filter of `t` is in id order, any two elements of `t`
      with equal scores are in id order. */
  lemma {:induction false} EqualScoresInIdOrder(t: seq<ComponentScore>)
    requires forall k :: IdsIncreasing(WithScore(t, k))
    ensures forall i, j :: 0 <= i < j < |t| && t[i].score == t[j].score ==> t[i].item.id < t[j].item.id
  {
    if t != [] {
      TailFiltersInIdOrder(t);
      EqualScoresInIdOrder(t[1..]);
      forall i, j | 0 <= i < j < |t| && t[i].score == t[j].score
        ensures t[i].item.id < t[j].item.id
      {
        if i == 0 {
          HeadBeforeEqualScore(t, j);
        } else {
          assert t[i] == t[1..][i - 1] && t[j] == t[1..][j - 1];
        }
      }
    }
  }

  /** Dropping the head keeps every per-score filter in id order. */
  lemma TailFiltersInIdOrder(t: seq<ComponentScore>)
    requires t != [] && forall k :: IdsIncreasing(WithScore(t, k))
    ensures forall k :: IdsIncreasing(WithScore(t[1..], k))
  {
    forall k
      ensures IdsIncreasing(WithScore(t[1..], k))
    {
      var w := WithScore(t, k);
      if t[0].score == k {
        assert w == [t[0]] + WithScore(t[1..], k);
        assert forall i :: 0 <= i < |w| - 1 ==> w[i + 1] == WithScore(t[1..], k)[i];
      } else {
        assert w == WithScore(t[1..], k);
      }
    }
  }

  /** The head of `t` comes before, in id order, every later element with its score. */
  lemma HeadBeforeEqualScore(t: seq<ComponentScore>, j: int)
    requires 0 < j < |t| && t[0].score == t[j].score
    requires IdsIncreasing(WithScore(t, t[0].score))
    ensures t[0].item.id < t[j].item.id
  {
    var k := t[0].score;
    var w := WithScore(t, k);
    WithScoreMembers(t[1..], k);
    assert t[j] == t[1..][j - 1];
    var m :| 0 <= m < |WithScore(t[1..], k)| && WithScore(t[1..], k)[m] == t[j];
    assert w == [t[0]] + WithScore(t[1..], k);
    assert w[0] == t[0] && w[m + 1] == t[j];
  }

  /** A stable reordering of a sequence in id order lists equal scores in id order. */
  lemma StableKeepsIdOrder(s: seq<ComponentScore>, t: seq<ComponentScore>)
    requires IdsIncreasing(s) && StablePermutation(s, t)
    ensures forall i, j :: 0 <= i < j < |t| && t[i].score == t[j].score ==> t[i].item.id < t[j].item.id
  {
    forall k
      ensures IdsIncreasing(WithScore(t, k))
    {
      FilterKeepsIdOrder(s, k);
    }
    EqualScoresInIdOrder(t);
  }

  /** Sorts by descending score, shifting each record left past the records with a
      strictly smaller score. */
  method InsertionSort(a: array<ComponentScore>)
    modifies a
    ensures SortedDesc(a[..])
    ensures StablePermutation(old(a[..]), a[..])
  {
    if a.Length == 0 {
      return;
    }
    for i := 1 to a.Length
      invariant SortedDesc(a[..i])
      invariant StablePermutation(old(a[..i]), a[..i])
      invariant a[i..] == old(a[i..])
    {
      ghost var before, input := a[..], old(a[..]);
      InsertNext(a, i);
      ghost var b0, b1, i0, i1, a1 := before[..i], before[..i + 1], input[..i], input[..i + 1], a[..i + 1];
      assert b1 == b0 + [before[i]] && i1 == i0 + [before[i]];
      forall k
        ensures WithScore(a1, k) == WithScore(i1, k)
      {
        WithScoreAppend(b0, [before[i]], k);
        WithScoreAppend(i0, [before[i]], k);
      }
    }
    assert a[..a.Length] == a[..] && old(a[..a.Length]) == old(a[..]);
  }

  /** Sorts a list of room records by descending score, keeping the list order among
      equal scores, on a scratch array. */
  method SortScores(scores: seq<ComponentScore>) returns (sorted: seq<ComponentScore>)
    ensures SortedDesc(sorted) && StablePermutation(scores, sorted)
  {
    var a := new ComponentScore[|scores|](i requires 0 <= i < |scores| => scores[i]);
    assert a[..] == scores;
    InsertionSort(a);
    sorted := a[..];
  }

  /** Moves a[i] left past the records of the sorted a[..i] whose score is strictly
      smaller, shifting them one place right. */
  method InsertNext(a: array<ComponentScore>, i: int)
    requires 0 < i < a.Length && SortedDesc(a[..i])
    modifies a
    ensures SortedDesc(a[..i + 1])
    ensures StablePermutation(old(a[..i + 1]), a[..i + 1])
    ensures a[i + 1..] == old(a[i + 1..])
  {
    ghost var p := a[..i];
    var current := a[i];
    assert old(a[..i + 1]) == p + [current];
    var j := ShiftSmaller(a, i, current, p);
    ghost var shifted := a[..];
    Inserted(shifted, p, current, j);
    a[j + 1] := current;
    assert a[..i + 1] == shifted[j + 1 := current][..i + 1];
    assert a[i + 1..] == old(a[i + 1..]);
  }

  /** Writing `x` into the gap left by the shift completes a stable, sorted insertion. */
  lemma Inserted(s: seq<ComponentScore>, p: seq<ComponentScore>, x: ComponentScore, j: int)
    requires SortedDesc(p) && -1 <= j < |p| < |s|
    requires forall m :: 0 <= m <= j ==> s[m] == p[m]
    requires forall m :: j + 2 <= m <= |p| ==> s[m] == p[m - 1]
    requires forall m :: j + 1 <= m < |p| ==> p[m].score < x.score
    requires j >= 0 ==> p[j].score >= x.score
    ensures SortedDesc(s[j + 1 := x][..|p| + 1])
    ensures StablePermutation(p + [x], s[j + 1 := x][..|p| + 1])
  {
    GapFilled(s, p, x, j);
    InsertStep(p, x, j);
  }

  /** Shifts one place right the records at the end of a[..i] (`p`) that score below
      `current`; returns the index just before the gap left. */
  method ShiftSmaller(a: array<ComponentScore>, i: int, current: ComponentScore, ghost p: seq<ComponentScore>)
    returns (j: int)
    requires 0 < i < a.Length && p == a[..i]
    modifies a
    ensures -1 <= j < i
    ensures forall m {:trigger a[m]} :: 0 <= m <= j ==> a[m] == p[m]
    ensures forall m {:trigger a[m]} :: j + 2 <= m <= i ==> a[m] == p[m - 1]
    ensures forall m :: i < m < a.Length ==> a[m] == old(a[m])
    ensures forall m :: j + 1 <= m < i ==> p[m].score < current.score
    ensures j >= 0 ==> p[j].score >= current.score
  {
    j := i - 1;
    while j >= 0 && a[j].score < current.score
      invariant -1 <= j < i
      invariant forall m {:trigger a[m]} :: 0 <= m <= j ==> a[m] == p[m]
      invariant forall m {:trigger a[m]} :: j + 2 <= m <= i ==> a[m] == p[m - 1]
      invariant forall m :: i < m < a.Length ==> a[m] == old(a[m])
      invariant forall m :: j + 1 <= m < i ==> p[m].score < current.score
    {
      a[j + 1] := a[j];
      j := j - 1;
    }
  }

  /** The insertion step on sequences: `x` written into the sorted `p` after its
      first j + 1 records, which score at least `x`, and before the rest, which
      score below it. */
  lemma InsertStep(p: seq<ComponentScore>, x: ComponentScore, j: int)
    requires SortedDesc(p) && -1 <= j < |p|
    requires forall m :: j + 1 <= m < |p| ==> p[m].score < x.score
    requires j >= 0 ==> p[j].score >= x.score
    ensures SortedDesc(p[..j + 1] + [x] + p[j + 1..])
    ensures StablePermutation(p + [x], p[..j + 1] + [x] + p[j + 1..])
  {
    SplitFacts(p, x, j + 1);
    InsertAfterSplit(p, x, j + 1);
    UnsplitStable(p, x, j + 1, p[..j + 1] + [x] + p[j + 1..]);
  }

  /** The facts about `p` that inserting `x` at position n needs, stated of the two
      parts p[..n] and p[n..]. */
  lemma SplitFacts(p: seq<ComponentScore>, x: ComponentScore, n: int)
    requires SortedDesc(p) && 0 <= n <= |p|
    requires forall m :: n <= m < |p| ==> p[m].score < x.score
    ensures SortedDesc(p[..n] + p[n..])
    ensures forall m :: 0 <= m < |p| - n ==> p[n..][m].score < x.score
  {
    SplitAt(p, n);
    forall m | 0 <= m < |p| - n
      ensures p[n..][m].score < x.score
    {
      assert p[n..][m] == p[n + m];
    }
  }

  lemma InsertAfterSplit(p: seq<ComponentScore>, x: ComponentScore, n: int)
    requires 0 <= n <= |p| && SortedDesc(p[..n] + p[n..])
    requires forall m :: 0 <= m < |p| - n ==> p[n..][m].score < x.score
    requires n > 0 ==> p[n - 1].score >= x.score
    ensures SortedDesc(p[..n] + [x] + p[n..])
    ensures StablePermutation(p[..n] + p[n..] + [x], p[..n] + [x] + p[n..])
  {
    InsertAfter(p[..n], x, p[n..]);
  }

  /** A stable reordering of p[..n] + p[n..] + [x] is one of p + [x]. */
  lemma UnsplitStable(p: seq<ComponentScore>, x: ComponentScore, n: int, t: seq<ComponentScore>)
    requires 0 <= n <= |p| && StablePermutation(p[..n] + p[n..] + [x], t)
    ensures StablePermutation(p + [x], t)
  {
    SplitAt(p, n);
  }

  /** After the shift, writing `x` at j + 1 leaves in s[..|p| + 1] the sequence `p`
      with `x` written after its first j + 1 records. */
  lemma GapFilled(s: seq<ComponentScore>, p: seq<ComponentScore>, x: ComponentScore, j: int)
    requires -1 <= j < |p| < |s|
    requires forall m :: 0 <= m <= j ==> s[m] == p[m]
    requires forall m :: j + 2 <= m <= |p| ==> s[m] == p[m - 1]
    ensures s[j + 1 := x][..|p| + 1] == p[..j + 1] + [x] + p[j + 1..]
  {
    var t, u := p[..j + 1] + [x] + p[j + 1..], s[j + 1 := x][..|p| + 1];
    assert |t| == |p| + 1 == |u|;
    forall m | 0 <= m <= |p|
      ensures u[m] == t[m]
    {
      if m > j + 1 {
        assert t[m] == p[j + 1..][m - j - 2];
      }
    }
  }

  /** Placing `x` between `before` and `after`, when exactly the records of `after`
      score below it, keeps a sorted sequence sorted and is a stable insertion. */
  lemma InsertAfter(before: seq<ComponentScore>, x: ComponentScore, after: seq<ComponentScore>)
    requires SortedDesc(before + after)
    requires before == [] || before[|before| - 1].score >= x.score
    requires forall m :: 0 <= m < |after| ==> after[m].score < x.score
    ensures SortedDesc(before + [x] + after)
    ensures StablePermutation(before + after + [x], before + [x] + after)
  {
    InsertSorted(before, x, after);
    forall k
      ensures WithScore(before + [x] + after, k) == WithScore(before + after + [x], k)
    {
      InsertStable(before, x, after, k);
    }
  }

  lemma SplitAt<T>(p: seq<T>, n: int)
    requires 0 <= n <= |p|
    ensures p == p[..n] + p[n..]
  {
  }

  /** Sorts a[left..right] (inclusive bounds) by descending score, splitting at the
      midpoint and merging the sorted halves. */
  method MergeSort(a: array<NodeScore>, left: int, right: int)
    requires 0 <= left <= right + 1 <= a.Length
    modifies a
    ensures SortedDesc(a[left..right + 1])
    ensures StablePermutation(old(a[left..right + 1]), a[left..right + 1])
    ensures a[..left] == old(a[..left]) && a[right + 1..] == old(a[right + 1..])
    decreases right - left
  {
    if left < right {
      var mid := (left + right) / 2;
      ghost var a0 := a[..];
      MergeSort(a, left, mid);
      ghost var a1 := a[..];
      MergeSort(a, mid + 1, right);
      ghost var a2 := a[..];
      assert a[left..mid + 1] == a1[left..mid + 1] by {
        assert a[..mid + 1] == a1[..mid + 1];
      }
      Merge(a, left, mid, right);
      SortMergeStable(a0, a1, a2, a[..], left, mid, right);
    }
  }

  /** Sorts a list of node records by descending score, keeping the list order among
      equal scores, on a scratch array. */
  method SortNodes(nodes: seq<NodeScore>) returns (sorted: seq<NodeScore>)
    ensures SortedDesc(sorted) && StablePermutation(nodes, sorted)
  {
    var a := new NodeScore[|nodes|](i requires 0 <= i < |nodes| => nodes[i]);
    assert a[0..a.Length] == nodes;
    MergeSort(a, 0, a.Length - 1);
    sorted := a[..];
    assert sorted == a[0..a.Length];
  }

  /** Sorting the two halves in turn reorders the whole range stably. */
  lemma SplitStable(s0: seq<NodeScore>, s1: seq<NodeScore>, s2: seq<NodeScore>, s3: seq<NodeScore>, h: int)
    requires 0 <= h <= |s0| == |s1| == |s2|
    requires StablePermutation(s0[..h], s1[..h]) && s1[h..] == s0[h..]
    requires StablePermutation(s1[h..], s2[h..]) && s2[..h] == s1[..h]
    requires StablePermutation(s2, s3)
    ensures StablePermutation(s0, s3)
  {
    forall k
      ensures WithScore(s3, k) == WithScore(s0, k)
    {
      assert s0 == s0[..h] + s0[h..] && s2 == s2[..h] + s2[h..];
      WithScoreAppend(s0[..h], s0[h..], k);
      WithScoreAppend(s2[..h], s2[h..], k);
    }
  }

  /** The three steps of one merge sort call, on snapshots of the whole array: the
      range ends a stable reordering of where it started, and nothing outside it moves. */
  lemma SortMergeStable(a0: seq<NodeScore>, a1: seq<NodeScore>, a2: seq<NodeScore>, a3: seq<NodeScore>,
                        left: int, mid: int, right: int)
    requires 0 <= left <= mid < right < |a0| == |a1| == |a2| == |a3|
    requires StablePermutation(a0[left..mid + 1], a1[left..mid + 1])
    requires a1[..left] == a0[..left] && a1[mid + 1..] == a0[mid + 1..]
    requires StablePermutation(a1[mid + 1..right + 1], a2[mid + 1..right + 1])
    requires a2[..mid + 1] == a1[..mid + 1] && a2[right + 1..] == a1[right + 1..]
    requires StablePermutation(a2[left..right + 1], a3[left..right + 1])
    requires a3[..left] == a2[..left] && a3[right + 1..] == a2[right + 1..]
    ensures StablePermutation(a0[left..right + 1], a3[left..right + 1])
    ensures a3[..left] == a0[..left] && a3[right + 1..] == a0[right + 1..]
  {
    var h := mid + 1 - left;
    var s0, s1, s2 := a0[left..right + 1], a1[left..right + 1], a2[left..right + 1];
    assert s0[..h] == a0[left..mid + 1] && s1[..h] == a1[left..mid + 1];
    assert s1[h..] == a1[mid + 1..][..right - mid] == a0[mid + 1..][..right - mid] == s0[h..];
    assert s1[h..] == a1[mid + 1..right + 1] && s2[h..] == a2[mid + 1..right + 1];
    assert s2[..h] == a2[..mid + 1][left..] == a1[..mid + 1][left..] == s1[..h];
    SplitStable(s0, s1, s2, a3[left..right + 1], h);
    assert a2[..left] == a2[..mid + 1][..left] == a1[..mid + 1][..left] == a1[..left];
    assert a2[right + 1..] == a1[right + 1..] == a1[mid + 1..][right - mid..] == a0[mid + 1..][right - mid..] == a0[right + 1..];
  }

  /** Merges the sorted runs a[left..mid] and a[mid+1..right] (inclusive bounds),
      taking from the left run while its head scores at least the right run's head. */
  method Merge(a: array<NodeScore>, left: int, mid: int, right: int)
    requires 0 <= left <= mid < right < a.Length
    requires SortedDesc(a[left..mid + 1]) && SortedDesc(a[mid + 1..right + 1])
    modifies a
    ensures SortedDesc(a[left..right + 1])
    ensures StablePermutation(old(a[left..right + 1]), a[left..right + 1])
    ensures a[..left] == old(a[..left]) && a[right + 1..] == old(a[right + 1..])
  {
    ghost var l := a[left..mid + 1];
    ghost var r := a[mid + 1..right + 1];
    var temp := MergeRuns(a, left, mid, right);
    assert old(a[left..right + 1]) == l + r;
    for k := 0 to |temp|
      invariant a[left..left + k] == temp[..k]
      invariant a[..left] == old(a[..left]) && a[left + |temp|..] == old(a[left + |temp|..])
    {
      a[left + k] := temp[k];
    }
    assert a[left..right + 1] == temp;
    forall k
      ensures WithScore(temp, k) == WithScore(l + r, k)
    {
      WithScoreAppend(l, r, k);
    }
  }

  /** The merged contents of the two runs, built in a temporary list. */
  method MergeRuns(a: array<NodeScore>, left: int, mid: int, right: int) returns (temp: seq<NodeScore>)
    requires 0 <= left <= mid < right < a.Length
    requires SortedDesc(a[left..mid + 1]) && SortedDesc(a[mid + 1..right + 1])
    ensures |temp| == right + 1 - left
    ensures SortedDesc(temp)
    ensures forall k :: WithScore(temp, k) == WithScore(a[left..mid + 1], k) + WithScore(a[mid + 1..right + 1], k)
  {
    ghost var l := a[left..mid + 1];
    ghost var r := a[mid + 1..right + 1];
    var i, j;
    ghost var taken, takenRight;
    temp, i, j, taken, takenRight := MergeHeads(a, left, mid, right);
    temp := DrainLeft(a, i, mid, temp, l, r, taken, takenRight);
    temp := DrainRight(a, j, right, temp, l, r, |l|, takenRight);
    MergeFinished(temp, l, r);
  }

  /** Repeatedly takes the higher-scoring head of the two runs, the left one on a tie,
      until one run is used up. */
  method MergeHeads(a: array<NodeScore>, left: int, mid: int, right: int)
    returns (temp: seq<NodeScore>, i: int, j: int, ghost taken: int, ghost takenRight: int)
    requires 0 <= left <= mid < right < a.Length
    requires SortedDesc(a[left..mid + 1]) && SortedDesc(a[mid + 1..right + 1])
    ensures left <= i <= mid + 1 && mid + 1 <= j <= right + 1 && (i <= mid ==> j == right + 1)
    ensures taken == i - left && takenRight == j - mid - 1
    ensures MergeProgress(temp, a[left..mid + 1], a[mid + 1..right + 1], taken, takenRight)
  {
    ghost var l := a[left..mid + 1];
    ghost var r := a[mid + 1..right + 1];
    temp := [];
    i, j := left, mid + 1;
    taken, takenRight := 0, 0;
    while i <= mid && j <= right
      invariant left <= i <= mid + 1 && mid + 1 <= j <= right + 1
      invariant taken == i - left && takenRight == j - mid - 1
      invariant MergeProgress(temp, l, r, taken, takenRight)
    {
      if a[i].score >= a[j].score {
        TakeLeft(temp, l, r, taken, takenRight, a[i]);
        temp, i, taken := temp + [a[i]], i + 1, taken + 1;
      } else {
        TakeRight(temp, l, r, taken, takenRight, a[j]);
        temp, j, takenRight := temp + [a[j]], j + 1, takenRight + 1;
      }
    }
  }

  /** Appends the rest a[i..mid] of the left run once the right run is used up. */
  method DrainLeft(a: array<NodeScore>, i: int, mid: int, temp: seq<NodeScore>, ghost l: seq<NodeScore>,
                   ghost r: seq<NodeScore>, ghost taken: int, ghost takenRight: int)
    returns (merged: seq<NodeScore>)
    requires 0 <= i <= mid + 1 <= a.Length && MergeProgress(temp, l, r, taken, takenRight)
    requires taken + (mid + 1 - i) == |l| && (i <= mid ==> takenRight == |r|)
    requires forall m :: i <= m <= mid ==> a[m] == l[taken + m - i]
    ensures MergeProgress(merged, l, r, |l|, takenRight)
  {
    merged := temp;
    var n := i;
    ghost var t := taken;
    while n <= mid
      invariant i <= n <= mid + 1 && t == taken + n - i
      invariant MergeProgress(merged, l, r, t, takenRight)
    {
      TakeLeft(merged, l, r, t, takenRight, a[n]);
      merged, n, t := merged + [a[n]], n + 1, t + 1;
    }
  }

  /** Appends the rest a[j..right] of the right run once the left run is used up. */
  method DrainRight(a: array<NodeScore>, j: int, right: int, temp: seq<NodeScore>, ghost l: seq<NodeScore>,
                    ghost r: seq<NodeScore>, ghost taken: int, ghost takenRight: int)
    returns (merged: seq<NodeScore>)
    requires 0 <= j <= right + 1 <= a.Length && MergeProgress(temp, l, r, taken, takenRight)
    requires takenRight + (right + 1 - j) == |r| && taken == |l|
    requires forall m :: j <= m <= right ==> a[m] == r[takenRight + m - j]
    ensures MergeProgress(merged, l, r, |l|, |r|)
  {
    merged := temp;
    var n := j;
    ghost var t := takenRight;
    while n <= right
      invariant j <= n <= right + 1 && t == takenRight + n - j
      invariant MergeProgress(merged, l, r, taken, t)
    {
      TakeRight(merged, l, r, taken, t, a[n]);
      merged, n, t := merged + [a[n]], n + 1, t + 1;
    }
  }

  lemma MergeFinished(temp: seq<NodeScore>, l: seq<NodeScore>, r: seq<NodeScore>)
    requires MergeProgress(temp, l, r, |l|, |r|)
    ensures |temp| == |l| + |r| && SortedDesc(temp)
    ensures forall k :: WithScore(temp, k) == WithScore(l, k) + WithScore(r, k)
  {
    assert l[..|l|] == l && r[..|r|] == r;
  }

  /** After taking the first `i` elements of `l` and the first `j` of `r`: `temp` is
      sorted, holds them stably (left run first within each score), and its last element
      scores at least every element still to come; every taken right element scores
      more than the next left element. */
  ghost predicate MergeProgress(temp: seq<NodeScore>, l: seq<NodeScore>, r: seq<NodeScore>, i: int, j: int)
  {
    && 0 <= i <= |l| && 0 <= j <= |r|
    && SortedDesc(l) && SortedDesc(r)
    && |temp| == i + j
    && SortedDesc(temp)
    && (forall k :: WithScore(temp, k) == WithScore(l[..i], k) + WithScore(r[..j], k))
    && (temp != [] && i < |l| ==> temp[|temp| - 1].score >= l[i].score)
    && (temp != [] && j < |r| ==> temp[|temp| - 1].score >= r[j].score)
    && (i < |l| ==> forall m :: 0 <= m < j ==> r[m].score > l[i].score)
  }

  lemma TakeLeft(temp: seq<NodeScore>, l: seq<NodeScore>, r: seq<NodeScore>, i: int, j: int, x: NodeScore)
    requires MergeProgress(temp, l, r, i, j) && i < |l| && x == l[i]
    requires j < |r| ==> l[i].score >= r[j].score
    ensures MergeProgress(temp + [x], l, r, i + 1, j)
  {
    forall k
      ensures WithScore(temp + [x], k) == WithScore(l[..i + 1], k) + WithScore(r[..j], k)
    {
      TakeLeftScore(temp, l, r, i, j, k);
    }
    AppendSorted(temp, x);
  }

  /** Taking the left head adds it to the records of its score after those of the
      left run, and no right record taken so far has its score. */
  lemma TakeLeftScore(temp: seq<NodeScore>, l: seq<NodeScore>, r: seq<NodeScore>, i: int, j: int, k: int)
    requires 0 <= i < |l| && 0 <= j <= |r|
    requires WithScore(temp, k) == WithScore(l[..i], k) + WithScore(r[..j], k)
    requires forall m :: 0 <= m < j ==> r[m].score > l[i].score
    ensures WithScore(temp + [l[i]], k) == WithScore(l[..i + 1], k) + WithScore(r[..j], k)
  {
    WithScoreAppend(temp, [l[i]], k);
    assert l[..i + 1] == l[..i] + [l[i]];
    WithScoreAppend(l[..i], [l[i]], k);
    WithScoreSingle(l[i], k);
    if l[i].score == k {
      WithScoreNone(r[..j], k);
    }
  }

  /** Appending a record that scores no more than the last one keeps a sequence sorted. */
  lemma AppendSorted(temp: seq<NodeScore>, x: NodeScore)
    requires SortedDesc(temp) && (temp != [] ==> temp[|temp| - 1].score >= x.score)
    ensures SortedDesc(temp + [x])
  {
    forall m | 0 <= m < |temp|
      ensures temp[m].score >= x.score
    {
    }
  }

  lemma TakeRight(temp: seq<NodeScore>, l: seq<NodeScore>, r: seq<NodeScore>, i: int, j: int, x: NodeScore)
    requires MergeProgress(temp, l, r, i, j) && j < |r| && x == r[j]
    requires i < |l| ==> l[i].score < r[j].score
    ensures MergeProgress(temp + [x], l, r, i, j + 1)
  {
    forall k
      ensures WithScore(temp + [x], k) == WithScore(l[..i], k) + WithScore(r[..j + 1], k)
    {
      TakeRightScore(temp, l, r, i, j, k);
    }
    AppendSorted(temp, x);
  }

  /** Taking the right head adds it to the records of its score after everything
      taken so far. */
  lemma TakeRightScore(temp: seq<NodeScore>, l: seq<NodeScore>, r: seq<NodeScore>, i: int, j: int, k: int)
    requires 0 <= i <= |l| && 0 <= j < |r|
    requires WithScore(temp, k) == WithScore(l[..i], k) + WithScore(r[..j], k)
    ensures WithScore(temp + [r[j]], k) == WithScore(l[..i], k) + WithScore(r[..j + 1], k)
  {
    WithScoreAppend(temp, [r[j]], k);
    assert r[..j + 1] == r[..j] + [r[j]];
    WithScoreAppend(r[..j], [r[j]], k);
  }
}
