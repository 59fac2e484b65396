/**
 * The hull-centroid placement of nodos/gna.py: the new node goes to the mean
 * of the convex-hull vertices of the stored nodes, or to the mean of all of
 * them when there are too few points, or too few distinct points, for a hull.
 *
 * `scipy.spatial.ConvexHull` is an oracle here: the caller passes what it
 * returns for the points, its vertex indices, or `None` when it raised.
 */
module HullCentroid {
  import opened Outcomes
  import opened Geometry

  /** The error `ConvexHull` raises when Qhull cannot build a hull (collinear points). */
  datatype HullError = QhullError

  /** An answer `ConvexHull` can give for `n` points: a non-empty list of indices into them, or a failure. */
  predicate IsHullAnswer(vertices: Option<seq<nat>>, n: nat)
  {
    vertices.Some? ==>
      |vertices.value| > 0 && forall k :: 0 <= k < |vertices.value| ==> vertices.value[k] < n
  }

  /** `len(np.unique(points, axis=0))`: the number of distinct rows. */
  function DistinctCount(rows: seq<Row>): nat
  {
    |set k | 0 <= k < |rows| :: rows[k]|
  }

  /** The guard `len(points) > 2 and len(np.unique(points, axis=0)) >= 3`. */
  predicate UsesHull(rows: seq<Row>)
  {
    |rows| > 2 && DistinctCount(rows) >= 3
  }

  /** `points[hull.vertices, :]`. */
  function SelectRows(rows: seq<Row>, indices: seq<nat>): (sel: seq<Row>)
    requires forall k :: 0 <= k < |indices| ==> indices[k] < |rows|
    ensures |sel| == |indices|
    ensures forall k :: 0 <= k < |indices| ==> sel[k] == rows[indices[k]]
  {
    seq(|indices|, k requires 0 <= k < |indices| => rows[indices[k]])
  }

  /**
   * `calculate_centroid`: component 0 of the result is a longitude and
   * component 1 a latitude. It fails only when the hull is needed and
   * `ConvexHull` raised.
   */
  function CalculateCentroid(nodes: seq<Position>, vertices: Option<seq<nat>>): (r: Result<Row, HullError>)
    requires |nodes| > 0
    requires IsHullAnswer(vertices, |nodes|)
    ensures r.Failure? <==> UsesHull(ToRows(nodes)) && vertices.None?
  {
    var points := ToRows(nodes);
    if UsesHull(points) then
      match vertices
      case None => Failure(QhullError)
      case Some(hull) => Success(Mean(SelectRows(points, hull)))
    else
      Success(Mean(points))
  }

  /** With fewer than three points the result is the mean of all of them. */
  lemma FewPointsGiveMeanOfAll(nodes: seq<Position>, vertices: Option<seq<nat>>)
    requires 0 < |nodes| < 3
    requires IsHullAnswer(vertices, |nodes|)
    ensures CalculateCentroid(nodes, vertices) == Success(Mean(ToRows(nodes)))
  {
  }

  /** With fewer than three distinct points the result is the mean of all of them, repeats counted. */
  lemma FewDistinctPointsGiveMeanOfAll(nodes: seq<Position>, vertices: Option<seq<nat>>)
    requires |nodes| > 0
    requires IsHullAnswer(vertices, |nodes|)
    requires DistinctCount(ToRows(nodes)) < 3
    ensures CalculateCentroid(nodes, vertices) == Success(Mean(ToRows(nodes)))
  {
  }

  /** Copies of one point have a single distinct row. */
  lemma IdenticalRowsCountOnce(rows: seq<Row>, p: Row)
    requires |rows| > 0
    requires forall k :: 0 <= k < |rows| ==> rows[k] == p
    ensures DistinctCount(rows) == 1
  {
    assert (set k | 0 <= k < |rows| :: rows[k]) == {p} by {
      assert rows[0] == p;
    }
  }

  /** When every stored node sits at the same position, the new node goes there. */
  lemma IdenticalPointsGiveThatPoint(nodes: seq<Position>, vertices: Option<seq<nat>>, q: Position)
    requires |nodes| > 0
    requires IsHullAnswer(vertices, |nodes|)
    requires forall k :: 0 <= k < |nodes| ==> nodes[k] == q
    ensures CalculateCentroid(nodes, vertices) == Success((q.lon, q.lat))
  {
    var rows := ToRows(nodes);
    IdenticalRowsCountOnce(rows, (q.lon, q.lat));
    MeanOfIdentical(rows, (q.lon, q.lat));
  }

  /**
   * When the hull is used, the result is the mean of the hull-vertex points
   * only: points off the hull do not contribute, so moving them (while the
   * guard and the hull stay the same) leaves the result unchanged.
   */
  lemma HullBranchIgnoresInteriorPoints(nodes: seq<Position>, others: seq<Position>, hull: seq<nat>)
    requires |nodes| == |others| > 0
    requires IsHullAnswer(Some(hull), |nodes|)
    requires UsesHull(ToRows(nodes)) && UsesHull(ToRows(others))
    requires forall k :: 0 <= k < |hull| ==> nodes[hull[k]] == others[hull[k]]
    ensures CalculateCentroid(nodes, Some(hull)) == Success(Mean(SelectRows(ToRows(nodes), hull)))
    ensures CalculateCentroid(nodes, Some(hull)) == CalculateCentroid(others, Some(hull))
  {
    assert SelectRows(ToRows(nodes), hull) == SelectRows(ToRows(others), hull);
  }

  /**
   * On either branch the result averages a non-empty selection of the input
   * points, so it lies within their longitude and latitude ranges.
   */
  lemma CentroidInBoundingBox(nodes: seq<Position>, vertices: Option<seq<nat>>)
    requires |nodes| > 0
    requires IsHullAnswer(vertices, |nodes|)
    ensures var r := CalculateCentroid(nodes, vertices);
      r.Success? ==> InBoundingBox(r.value, ToRows(nodes))
  {
    var points := ToRows(nodes);
    if UsesHull(points) && vertices.Some? {
      var sel := SelectRows(points, vertices.value);
      forall k | 0 <= k < |sel|
        ensures sel[k] in points
      {
        assert sel[k] == points[vertices.value[k]];
      }
      MeanOfSelectionInBox(points, sel);
    } else {
      MeanOfSelectionInBox(points, points);
    }
  }

  /** What `main` does with the fetched nodes. */
  datatype Placement =
    | NoNodes                        // "No nodes found in the topology."; nothing inserted
    | NewNode(lat: real, lon: real)  // insert_new_node(cursor, lat, lon) and commit
    | Failed(error: HullError)       // the exception handler: rollback, nothing inserted

  /**
   * The guard and the node insertion of `main`: the centroid is computed only
   * for a non-empty node list, and inserted with `centroid[1]` as latitude
   * and `centroid[0]` as longitude.
   */
  function PlaceCentroidNode(nodes: seq<Position>, vertices: Option<seq<nat>>): (out: Placement)
    requires IsHullAnswer(vertices, |nodes|)
    ensures out.NoNodes? <==> nodes == []
    ensures out.Failed? <==> nodes != [] && UsesHull(ToRows(nodes)) && vertices.None?
    ensures out.NewNode? ==>
      var rows := ToRows(nodes);
      MinOf(Column(rows, 1)) <= out.lat <= MaxOf(Column(rows, 1)) &&
      MinOf(Column(rows, 0)) <= out.lon <= MaxOf(Column(rows, 0))
    ensures out.NewNode? ==> nodes != [] && CalculateCentroid(nodes, vertices) == Success((out.lon, out.lat))
  {
    if nodes == [] then NoNodes
    else
      CentroidInBoundingBox(nodes, vertices);
      match CalculateCentroid(nodes, vertices)
      case Failure(e) => Failed(e)
      case Success(centroid) => NewNode(centroid.1, centroid.0)
  }
}
