/**
 * nodos/gna_enlace.py: the hull-centroid placement of nodos/gna.py, followed
 * by one link from a fixed existing node to the new node. Its
 * `calculate_centroid` is the same rule as gna.py's.
 */
module HullCentroidLink {
  import opened Outcomes
  import opened Geometry
  import HullCentroid

  /** `target_node_id`: the existing node every run links the new node to. */
  const TargetNodeId: int := 1

  /**
   * `calculate_centroid`: the mean of all points when there are fewer than
   * three of them or fewer than three distinct ones; otherwise the mean of
   * the hull vertices only, or the error `ConvexHull` raised. Either way the
   * result lies within the inputs' longitude and latitude ranges.
   */
  function CalculateCentroid(nodes: seq<Position>, vertices: Option<seq<nat>>): (r: Result<Row, HullCentroid.HullError>)
    requires |nodes| > 0
    requires HullCentroid.IsHullAnswer(vertices, |nodes|)
    ensures var rows := ToRows(nodes);
      !HullCentroid.UsesHull(rows) ==> r == Success(Mean(rows))
    ensures var rows := ToRows(nodes);
      HullCentroid.UsesHull(rows) ==>
        r == match vertices
             case None => Failure(HullCentroid.QhullError)
             case Some(hull) => Success(Mean(HullCentroid.SelectRows(rows, hull)))
    ensures r.Success? ==> InBoundingBox(r.value, ToRows(nodes))
    ensures (forall k :: 0 <= k < |nodes| ==> nodes[k] == nodes[0]) ==> r == Success((nodes[0].lon, nodes[0].lat))
  {
    var r := HullCentroid.CalculateCentroid(nodes, vertices);
    HullCentroid.CentroidInBoundingBox(nodes, vertices);
    assert (forall k :: 0 <= k < |nodes| ==> nodes[k] == nodes[0]) ==> r == Success((nodes[0].lon, nodes[0].lat)) by {
      if forall k :: 0 <= k < |nodes| ==> nodes[k] == nodes[0] {
        HullCentroid.IdenticalPointsGiveThatPoint(nodes, vertices, nodes[0]);
      }
    }
    r
  }

  /** What `main` does with the fetched nodes. */
  datatype Placement =
    | NoNodes                    // "No nodes found in the topology."; nothing inserted
    | NewLinkedNode(lat: real, lon: real, link: (int, int))
                                 // insert_new_node(cursor, lat, lon), then insert_new_link(cursor, source, new id)
    | Failed(error: HullCentroid.HullError)
                                 // the exception handler: rollback, nothing inserted

  /**
   * The guard and the two insertions of `main`: only a non-empty node list
   * gets a centroid, which is inserted with `centroid[1]` as latitude and
   * `centroid[0]` as longitude; the store returns `newNodeId` for it, and the
   * link goes from node `TargetNodeId` to it.
   */
  function PlaceAndLinkNode(nodes: seq<Position>, vertices: Option<seq<nat>>, newNodeId: int): (out: Placement)
    requires HullCentroid.IsHullAnswer(vertices, |nodes|)
    ensures out.NoNodes? <==> nodes == []
    ensures out.Failed? <==> nodes != [] && HullCentroid.UsesHull(ToRows(nodes)) && vertices.None?
    ensures out.NewLinkedNode? ==>
      var rows := ToRows(nodes);
      && out.link == (TargetNodeId, newNodeId)
      && MinOf(Column(rows, 1)) <= out.lat <= MaxOf(Column(rows, 1))
      && MinOf(Column(rows, 0)) <= out.lon <= MaxOf(Column(rows, 0))
    ensures out.NewLinkedNode? ==> nodes != [] && CalculateCentroid(nodes, vertices) == Success((out.lon, out.lat))
  {
    if nodes == [] then NoNodes
    else
      match CalculateCentroid(nodes, vertices)
      case Failure(e) => Failed(e)
      case Success(centroid) => NewLinkedNode(centroid.1, centroid.0, (TargetNodeId, newNodeId))
  }
}
