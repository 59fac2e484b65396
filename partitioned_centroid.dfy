/**
 * The partitioned-centroid placement of nodos/tec_enu_ite_jer.py: shuffle the
 * stored nodes, split them into `num_groups` nearly equal groups
 * (`np.array_split`) and place one new node at the plain mean of each group.
 */
module PartitionedCentroid {
  import opened Geometry
  import opened Shuffle

  /**
   * `calculate_centroid`: the column means of the `[lon, lat]` matrix, with
   * `lon` taken from column 0 and `lat` from column 1. No hull filtering.
   */
  function CalculateCentroid(points: seq<Row>): (c: Position)
    requires |points| > 0
    ensures c.lon * (|points| as real) == Sum(Column(points, 0))
    ensures c.lat * (|points| as real) == Sum(Column(points, 1))
  {
    var lons, lats := Column(points, 0), Column(points, 1);
    var lon, lat := Average(lons), Average(lats);
    assert lon * (|lons| as real) == Sum(lons);
    assert lat * (|lats| as real) == Sum(lats);
    Position(lon, lat)
  }

  /** The new node lies within the longitude and latitude ranges of its group. */
  lemma CentroidInBoundingBox(points: seq<Row>)
    requires |points| > 0
    ensures var c := CalculateCentroid(points); InBoundingBox((c.lon, c.lat), points)
  {
    MeanOfSelectionInBox(points, points);
  }

  /** When every point of the group is the same, the new node lands on it. */
  lemma CentroidOfIdenticalPoints(points: seq<Row>, p: Row)
    requires |points| > 0
    requires forall k :: 0 <= k < |points| ==> points[k] == p
    ensures CalculateCentroid(points) == Position(p.0, p.1)
  {
    MeanOfIdentical(points, p);
  }

  /**
   * Start index of section `i` when `n` items are split into `k` sections:
   * the first `n % k` sections hold `n / k + 1` items, the others `n / k`.
   */
  function SplitPoint(n: nat, k: nat, i: nat): nat
    requires k > 0 && i <= k
  {
    if i == 0 then 0 else SplitPoint(n, k, i - 1) + n / k + (if i - 1 < n % k then 1 else 0)
  }

  lemma {:induction false} SplitPointClosedForm(n: nat, k: nat, i: nat)
    requires k > 0 && i <= k
    ensures SplitPoint(n, k, i) == i * (n / k) + (if i < n % k then i else n % k)
  {
    if i > 0 {
      SplitPointClosedForm(n, k, i - 1);
      var q := n / k;
      assert i * q == (i - 1) * q + q;
    }
  }

  lemma {:induction false} SplitPointMonotone(n: nat, k: nat, i: nat, j: nat)
    requires k > 0 && i <= j <= k
    ensures SplitPoint(n, k, i) <= SplitPoint(n, k, j)
    decreases j - i
  {
    if i < j {
      SplitPointMonotone(n, k, i, j - 1);
    }
  }

  /** The last section ends at the end of the input. */
  lemma SplitPointEnd(n: nat, k: nat)
    requires k > 0
    ensures SplitPoint(n, k, k) == n
  {
    SplitPointClosedForm(n, k, k);
    assert n == k * (n / k) + n % k;
  }

  lemma SplitPointInRange(n: nat, k: nat, i: nat)
    requires k > 0 && i < k
    ensures SplitPoint(n, k, i) <= SplitPoint(n, k, i + 1) <= n
  {
    SplitPointMonotone(n, k, i + 1, k);
    SplitPointEnd(n, k);
  }

  /** `np.array_split(s, k)`: `k` consecutive sections whose sizes differ by at most one. */
  function ArraySplit<T>(s: seq<T>, k: nat): (groups: seq<seq<T>>)
    requires k > 0
    ensures |groups| == k
    ensures forall i :: 0 <= i < k ==> |groups[i]| == |s| / k + (if i < |s| % k then 1 else 0)
    ensures forall i, j :: 0 <= i < k && 0 <= j < k ==> |groups[i]| <= |groups[j]| + 1
  {
    var groups := seq(k, i requires 0 <= i < k =>
      SplitPointInRange(|s|, k, i);
      s[SplitPoint(|s|, k, i)..SplitPoint(|s|, k, i + 1)]);
    assert forall i :: 0 <= i < k ==> |groups[i]| == |s| / k + (if i < |s| % k then 1 else 0) by {
      forall i | 0 <= i < k
        ensures |groups[i]| == |s| / k + (if i < |s| % k then 1 else 0)
      {
        SplitPointInRange(|s|, k, i);
      }
    }
    groups
  }

  /** The items of the groups, one group after the other. */
  function Concat<T>(groups: seq<seq<T>>): seq<T>
  {
    if groups == [] then [] else Concat(groups[..|groups| - 1]) + groups[|groups| - 1]
  }

  lemma {:induction false} ConcatSplitPrefix<T>(s: seq<T>, k: nat, m: nat)
    requires k > 0 && m <= k
    ensures SplitPoint(|s|, k, m) <= |s|
    ensures Concat(ArraySplit(s, k)[..m]) == s[..SplitPoint(|s|, k, m)]
  {
    var groups := ArraySplit(s, k);
    SplitPointMonotone(|s|, k, m, k);
    SplitPointEnd(|s|, k);
    if m > 0 {
      ConcatSplitPrefix(s, k, m - 1);
      SplitPointInRange(|s|, k, m - 1);
      assert groups[..m][..m - 1] == groups[..m - 1];
      var lo, hi := SplitPoint(|s|, k, m - 1), SplitPoint(|s|, k, m);
      assert s[..lo] + s[lo..hi] == s[..hi];
    }
  }

  /** The sections, put back together, are the whole input in its order. */
  lemma ConcatArraySplit<T>(s: seq<T>, k: nat)
    requires k > 0
    ensures Concat(ArraySplit(s, k)) == s
  {
    ConcatSplitPrefix(s, k, k);
    SplitPointEnd(|s|, k);
    assert ArraySplit(s, k)[..k] == ArraySplit(s, k);
  }

  /** Every section is non-empty exactly when there are at least as many items as sections. */
  lemma SectionsNonEmptyIff<T>(s: seq<T>, k: nat)
    requires k > 0
    ensures (forall i :: 0 <= i < k ==> |ArraySplit(s, k)[i]| > 0) <==> |s| >= k
  {
    var n := |s|;
    if n < k {
      assert n / k == 0 && n % k == n;
      assert |ArraySplit(s, k)[k - 1]| == 0;
    } else {
      assert n / k >= 1;
    }
  }

  /**
   * `create_subgroups`: shuffles `nodes` in place with the drawn permutation
   * `p`, then splits the shuffled order into `numGroups` sections.
   */
  method CreateSubgroups<T>(nodes: array<T>, p: seq<nat>, numGroups: nat) returns (groups: seq<seq<T>>)
    requires IsPermutation(p, nodes.Length)
    requires numGroups > 0
    modifies nodes
    ensures nodes[..] == Permute(old(nodes[..]), p)
    ensures groups == ArraySplit(nodes[..], numGroups)
    ensures |groups| == numGroups
    ensures multiset(Concat(groups)) == multiset(old(nodes[..]))
  {
    ghost var before := nodes[..];
    ApplyShuffle(nodes, p);
    groups := ArraySplit(nodes[..], numGroups);
    ConcatArraySplit(nodes[..], numGroups);
    PermutePreservesMultiset(before, p);
  }
}
