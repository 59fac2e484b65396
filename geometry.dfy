/**
 * Coordinates and the numeric primitives the placement scripts build from numpy:
 * the n×2 matrix of `[lon, lat]` rows, its column means (`np.mean(points, axis=0)`)
 * and the per-coordinate bounding box of a point set.
 */
module Geometry {

  /** A stored node position as the scripts read it: a record with `lon` and `lat`. */
  datatype Position = Position(lon: real, lat: real)

  /** One row `[lon, lat]` of the coordinate matrix: component 0 is the longitude, component 1 the latitude. */
  type Row = (real, real)

  /** The matrix `np.array([[node['lon'], node['lat']] for node in nodes])`. */
  function ToRows(nodes: seq<Position>): (rows: seq<Row>)
    ensures |rows| == |nodes|
    ensures forall i :: 0 <= i < |nodes| ==> rows[i].0 == nodes[i].lon && rows[i].1 == nodes[i].lat
  {
    seq(|nodes|, i requires 0 <= i < |nodes| => (nodes[i].lon, nodes[i].lat))
  }

  /** Column `c` of the coordinate matrix (0 = longitudes, 1 = latitudes). */
  function Column(rows: seq<Row>, c: nat): (col: seq<real>)
    requires c < 2
    ensures |col| == |rows|
    ensures forall i :: 0 <= i < |rows| ==> col[i] == if c == 0 then rows[i].0 else rows[i].1
  {
    seq(|rows|, i requires 0 <= i < |rows| => if c == 0 then rows[i].0 else rows[i].1)
  }

  function Sum(xs: seq<real>): real
  {
    if xs == [] then 0.0 else xs[0] + Sum(xs[1..])
  }

  /** The arithmetic mean of a non-empty column. */
  function Average(xs: seq<real>): (m: real)
    requires |xs| > 0
    ensures m * (|xs| as real) == Sum(xs)
  {
    Sum(xs) / (|xs| as real)
  }

  /** `np.mean(points, axis=0)`: the mean of each column of a non-empty matrix. */
  function Mean(rows: seq<Row>): Row
    requires |rows| > 0
  {
    (Average(Column(rows, 0)), Average(Column(rows, 1)))
  }

  function MinOf(xs: seq<real>): (m: real)
    requires |xs| > 0
    ensures forall i :: 0 <= i < |xs| ==> m <= xs[i]
    ensures exists i :: 0 <= i < |xs| && m == xs[i]
  {
    if |xs| == 1 then xs[0]
    else
      var rest := MinOf(xs[1..]);
      assert forall i :: 1 <= i < |xs| ==> xs[i] == xs[1..][i - 1];
      if xs[0] <= rest then xs[0] else rest
  }

  function MaxOf(xs: seq<real>): (m: real)
    requires |xs| > 0
    ensures forall i :: 0 <= i < |xs| ==> xs[i] <= m
    ensures exists i :: 0 <= i < |xs| && m == xs[i]
  {
    if |xs| == 1 then xs[0]
    else
      var rest := MaxOf(xs[1..]);
      assert forall i :: 1 <= i < |xs| ==> xs[i] == xs[1..][i - 1];
      if rest <= xs[0] then xs[0] else rest
  }

  /** `p` lies in the per-coordinate bounding box of the non-empty point set `rows`. */
  predicate InBoundingBox(p: Row, rows: seq<Row>)
    requires |rows| > 0
  {
    MinOf(Column(rows, 0)) <= p.0 <= MaxOf(Column(rows, 0)) &&
    MinOf(Column(rows, 1)) <= p.1 <= MaxOf(Column(rows, 1))
  }

  lemma DivisionBounds(s: real, n: real, lo: real, hi: real)
    requires n > 0.0 && n * lo <= s <= n * hi
    ensures lo <= s / n <= hi
  {
  }

  lemma DivisionOfProduct(v: real, n: real)
    requires n > 0.0
    ensures (n * v) / n == v
  {
  }

  /** A sum of `n` values between `lo` and `hi` lies between `n * lo` and `n * hi`. */
  lemma {:induction false} SumBounds(xs: seq<real>, lo: real, hi: real)
    requires forall i :: 0 <= i < |xs| ==> lo <= xs[i] <= hi
    ensures (|xs| as real) * lo <= Sum(xs) <= (|xs| as real) * hi
  {
    if xs != [] {
      SumBounds(xs[1..], lo, hi);
    }
  }

  /** The mean of values between `lo` and `hi` lies between them. */
  lemma AverageBounded(xs: seq<real>, lo: real, hi: real)
    requires |xs| > 0
    requires forall i :: 0 <= i < |xs| ==> lo <= xs[i] <= hi
    ensures lo <= Average(xs) <= hi
  {
    SumBounds(xs, lo, hi);
    DivisionBounds(Sum(xs), |xs| as real, lo, hi);
  }

  /** A sum of `n` copies of `v` is `n * v`. */
  lemma {:induction false} SumConstant(xs: seq<real>, v: real)
    requires forall i :: 0 <= i < |xs| ==> xs[i] == v
    ensures Sum(xs) == (|xs| as real) * v
  {
    if xs != [] {
      SumConstant(xs[1..], v);
    }
  }

  /**
   * The mean of points taken from `rows` (all of them, or any non-empty
   * selection of them, repeats allowed) lies in the bounding box of `rows`.
   */
  lemma MeanOfSelectionInBox(rows: seq<Row>, sel: seq<Row>)
    requires |rows| > 0 && |sel| > 0
    requires forall k :: 0 <= k < |sel| ==> sel[k] in rows
    ensures InBoundingBox(Mean(sel), rows)
  {
    var lons, lats := Column(rows, 0), Column(rows, 1);
    forall k | 0 <= k < |sel|
      ensures MinOf(lons) <= Column(sel, 0)[k] <= MaxOf(lons)
      ensures MinOf(lats) <= Column(sel, 1)[k] <= MaxOf(lats)
    {
      var i :| 0 <= i < |rows| && rows[i] == sel[k];
      assert lons[i] == sel[k].0 && lats[i] == sel[k].1;
    }
    AverageBounded(Column(sel, 0), MinOf(lons), MaxOf(lons));
    AverageBounded(Column(sel, 1), MinOf(lats), MaxOf(lats));
  }

  /** The mean of copies of one point is that point. */
  lemma MeanOfIdentical(rows: seq<Row>, p: Row)
    requires |rows| > 0
    requires forall k :: 0 <= k < |rows| ==> rows[k] == p
    ensures Mean(rows) == p
  {
    var n := |rows| as real;
    var lons, lats := Column(rows, 0), Column(rows, 1);
    SumConstant(lons, p.0);
    SumConstant(lats, p.1);
    DivisionOfProduct(p.0, n);
    DivisionOfProduct(p.1, n);
    assert Average(lons) == Sum(lons) / n == p.0;
    assert Average(lats) == Sum(lats) / n == p.1;
  }
}
