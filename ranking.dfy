/**
 * index.js, the ranking step of `GET /news`: every item is copied with a `rankScore` attached
 * (`allNews.map(item => ({ ...item, rankScore }))`) and the copies are sorted in place by
 * descending score (`allNews.sort((a, b) => b.rankScore - a.rankScore)`). `Array.prototype.sort`
 * is stable, so items of equal score keep their order; the in-place sort is an insertion sort
 * proved equal to the functional specification `SortedByRank`.
 */
module Ranking {
  import opened News

  /** `{ ...item, rankScore }`: the item, unchanged, with its score beside it. */
  datatype Ranked = Ranked(item: NewsItem, rankScore: real)

  /** The ranking map: each item paired with its score, in the same order, no field altered. */
  function RankAll(items: seq<NewsItem>, userTags: seq<string>, now: int): (ranked: seq<Ranked>)
    ensures |ranked| == |items|
    ensures forall i :: 0 <= i < |items| ==>
      ranked[i].item == items[i] && ranked[i].rankScore == ComputeScore(items[i], userTags, now)
  {
    if items == [] then []
    else [Ranked(items[0], ComputeScore(items[0], userTags, now))] + RankAll(items[1..], userTags, now)
  }

  /** Ranking a concatenation ranks each part: stored items stay ahead of fetched ones until the sort. */
  lemma RankAllAppend(first: seq<NewsItem>, second: seq<NewsItem>, userTags: seq<string>, now: int)
    ensures RankAll(first + second, userTags, now) == RankAll(first, userTags, now) + RankAll(second, userTags, now)
  {
    var whole := RankAll(first + second, userTags, now);
    var parts := RankAll(first, userTags, now) + RankAll(second, userTags, now);
    assert |whole| == |parts|;
    forall i | 0 <= i < |whole| ensures whole[i] == parts[i] {
      if i < |first| {
        assert (first + second)[i] == first[i];
      } else {
        assert (first + second)[i] == second[i - |first|];
      }
    }
  }

  /** Scores never increase along the sequence. */
  predicate NonIncreasing(s: seq<Ranked>) {
    forall p, q :: 0 <= p < q < |s| ==> s[p].rankScore >= s[q].rankScore
  }

  /** Places `x` after every element scoring at least as much, as a stable sort does with a later element. */
  function Insert(x: Ranked, s: seq<Ranked>): (r: seq<Ranked>)
    ensures |r| == |s| + 1
  {
    if s == [] then [x]
    else if s[0].rankScore >= x.rankScore then [s[0]] + Insert(x, s[1..])
    else [x] + s
  }

  /** The stable descending sort by `rankScore`: insert each element, left to right, into the sorted prefix. */
  function SortedByRank(s: seq<Ranked>): (sorted: seq<Ranked>)
    ensures |sorted| == |s|
  {
    if s == [] then [] else Insert(s[|s| - 1], SortedByRank(s[..|s| - 1]))
  }

  // ---------------------------------------------------------------- the sort is a permutation

  lemma {:induction false} InsertPermutes(x: Ranked, s: seq<Ranked>)
    ensures multiset(Insert(x, s)) == multiset(s) + multiset{x}
  {
    if s != [] && s[0].rankScore >= x.rankScore {
      InsertPermutes(x, s[1..]);
      assert s == [s[0]] + s[1..];
    }
  }

  lemma {:induction false} SortedByRankPermutes(s: seq<Ranked>)
    ensures multiset(SortedByRank(s)) == multiset(s)
  {
    if s != [] {
      var n := |s| - 1;
      SortedByRankPermutes(s[..n]);
      InsertPermutes(s[n], SortedByRank(s[..n]));
      assert s == s[..n] + [s[n]];
    }
  }

  // ---------------------------------------------------------------- the sort orders by score

  lemma {:induction false} InsertSorted(x: Ranked, s: seq<Ranked>)
    requires NonIncreasing(s)
    ensures NonIncreasing(Insert(x, s))
  {
    if s != [] && s[0].rankScore >= x.rankScore {
      var rest := Insert(x, s[1..]);
      InsertSorted(x, s[1..]);
      InsertPermutes(x, s[1..]);
      forall q | 0 <= q < |rest| ensures s[0].rankScore >= rest[q].rankScore {
        assert rest[q] in multiset(rest);
        assert rest[q] == x || rest[q] in multiset(s[1..]);
        if rest[q] != x {
          var k :| 0 <= k < |s[1..]| && s[1..][k] == rest[q];
          assert s[k + 1] == rest[q];
        }
      }
    }
  }

  lemma {:induction false} SortedByRankSorted(s: seq<Ranked>)
    ensures NonIncreasing(SortedByRank(s))
  {
    if s != [] {
      SortedByRankSorted(s[..|s| - 1]);
      InsertSorted(s[|s| - 1], SortedByRank(s[..|s| - 1]));
    }
  }

  // ---------------------------------------------------------------- the sort is stable

  /** The elements scoring exactly `v`, in order. */
  function WithScore(s: seq<Ranked>, v: real): (r: seq<Ranked>)
    ensures |r| <= |s|
  {
    if s == [] then []
    else (if s[0].rankScore == v then [s[0]] else []) + WithScore(s[1..], v)
  }

  lemma {:induction false} WithScoreAppend(a: seq<Ranked>, b: seq<Ranked>, v: real)
    ensures WithScore(a + b, v) == WithScore(a, v) + WithScore(b, v)
  {
    if a != [] {
      assert (a + b)[0] == a[0];
      assert (a + b)[1..] == a[1..] + b;
      WithScoreAppend(a[1..], b, v);
    } else {
      assert a + b == b;
    }
  }

  lemma {:induction false} WithScoreBelow(s: seq<Ranked>, v: real)
    requires forall k :: 0 <= k < |s| ==> s[k].rankScore < v
    ensures WithScore(s, v) == []
  {
    if s != [] {
      WithScoreBelow(s[1..], v);
    }
  }

  lemma WithScoreCons(y: Ranked, t: seq<Ranked>, v: real)
    ensures WithScore([y] + t, v) == (if y.rankScore == v then [y] else []) + WithScore(t, v)
  {
    assert ([y] + t)[0] == y && ([y] + t)[1..] == t;
  }

  lemma NonIncreasingTail(s: seq<Ranked>)
    requires s != [] && NonIncreasing(s)
    ensures NonIncreasing(s[1..])
    ensures forall k :: 0 <= k < |s| ==> s[k].rankScore <= s[0].rankScore
  {
  }

  lemma {:induction false} InsertStable(x: Ranked, s: seq<Ranked>, v: real)
    requires NonIncreasing(s)
    ensures WithScore(Insert(x, s), v) == WithScore(s, v) + (if x.rankScore == v then [x] else [])
  {
    if s == [] {
    } else {
      NonIncreasingTail(s);
      if s[0].rankScore >= x.rankScore {
        InsertStable(x, s[1..], v);
        WithScoreCons(s[0], Insert(x, s[1..]), v);
        WithScoreCons(s[0], s[1..], v);
        assert [s[0]] + s[1..] == s;
      } else {
        if x.rankScore == v {
          WithScoreBelow(s, v);
        }
        WithScoreCons(x, s, v);
      }
    }
  }

  /**
   * Stability: for every score, the items with that score appear in the sorted feed in the same
   * order as before sorting.
   */
  lemma {:induction false} SortedByRankStable(s: seq<Ranked>, v: real)
    ensures WithScore(SortedByRank(s), v) == WithScore(s, v)
  {
    if s != [] {
      var n := |s| - 1;
      SortedByRankStable(s[..n], v);
      SortedByRankSorted(s[..n]);
      InsertStable(s[n], SortedByRank(s[..n]), v);
      assert s == s[..n] + [s[n]];
      WithScoreAppend(s[..n], [s[n]], v);
    }
  }

  // ---------------------------------------------------------------- sorting in place

  /** Where the inner loop of the insertion sort stops, inserting `x` gives the same as `Insert`. */
  lemma {:induction false} InsertAt(x: Ranked, s: seq<Ranked>, j: nat)
    requires NonIncreasing(s) && j <= |s|
    requires j > 0 ==> s[j - 1].rankScore >= x.rankScore
    requires forall k :: j <= k < |s| ==> s[k].rankScore < x.rankScore
    ensures Insert(x, s) == s[..j] + [x] + s[j..]
  {
    if j > 0 {
      assert s[0].rankScore >= s[j - 1].rankScore;
      InsertAt(x, s[1..], j - 1);
      assert s[1..][..j - 1] == s[1..j];
      assert s[1..][j - 1..] == s[j..];
      assert s[..j] == [s[0]] + s[1..j];
    }
  }

  /** The state the inner loop leaves behind is the prefix with `x` spliced in at `j`. */
  lemma Spliced(current: seq<Ranked>, sorted: seq<Ranked>, x: Ranked, j: nat)
    requires j <= |sorted| < |current| && current[j] == x
    requires forall k :: 0 <= k < j ==> current[k] == sorted[k]
    requires forall k :: j < k <= |sorted| ==> current[k] == sorted[k - 1]
    ensures current[..|sorted| + 1] == sorted[..j] + [x] + sorted[j..]
  {
    var spliced := sorted[..j] + [x] + sorted[j..];
    forall k | 0 <= k <= |sorted| ensures current[k] == spliced[k] {
      if k < j {
        assert spliced[k] == sorted[k];
      } else if k > j {
        assert spliced[k] == sorted[k - 1];
      }
    }
  }

  /** One step of the insertion sort: moves `a[i]` into the sorted prefix `a[..i]`. */
  method InsertInPlace(a: array<Ranked>, i: nat)
    requires i < a.Length && NonIncreasing(a[..i])
    modifies a
    ensures a[..i + 1] == Insert(old(a[i]), old(a[..i]))
    ensures a[i + 1..] == old(a[i + 1..])
  {
    ghost var sorted := a[..i];
    var x := a[i];
    var j := i;
    while j > 0 && a[j - 1].rankScore < x.rankScore
      invariant 0 <= j <= i
      invariant forall k :: 0 <= k < j ==> a[k] == sorted[k]
      invariant forall k :: j < k <= i ==> a[k] == sorted[k - 1]
      invariant forall k :: i < k < a.Length ==> a[k] == old(a[k])
      invariant forall k :: j <= k < i ==> sorted[k].rankScore < x.rankScore
    {
      a[j] := a[j - 1];
      j := j - 1;
    }
    a[j] := x;
    Spliced(a[..], sorted, x, j);
    InsertAt(x, sorted, j);
    assert a[..][..i + 1] == a[..i + 1];
  }

  /** `allNews.sort((a, b) => b.rankScore - a.rankScore)`: a stable in-place sort by descending score. */
  method SortByRank(a: array<Ranked>)
    modifies a
    ensures a[..] == SortedByRank(old(a[..]))
  {
    ghost var input := a[..];
    var i := 0;
    while i < a.Length
      invariant 0 <= i <= a.Length
      invariant a[..i] == SortedByRank(input[..i])
      invariant a[i..] == input[i..]
    {
      SortedByRankSorted(input[..i]);
      InsertInPlace(a, i);
      assert input[..i + 1][..i] == input[..i];
      assert input[..i + 1][i] == input[i];
      i := i + 1;
    }
    assert input[..a.Length] == input;
  }
}
