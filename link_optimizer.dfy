/**
 * The link optimizer of nodos/tec_enu_ite_jer.py: a keep-best randomized
 * search. Each iteration shuffles the nearby nodes in place, scores their
 * first five by the sum of their distances to the new node, and keeps that
 * trial set only if it scores strictly lower than the best so far. The
 * retained nodes are then linked to the new node.
 */
module LinkOptimizer {
  import opened Outcomes
  import opened Geometry
  import opened Shuffle

  /** How many nearby nodes one trial takes (`nearby_nodes[:5]`). */
  const LinkSetSize: nat := 5

  /**
   * A nearby node as the optimizer holds it: the stored record
   * `{id_node, lon, lat}`, to which the optimizer adds a `distance` key
   * (`None` while the key is absent).
   */
  datatype Candidate = Candidate(id: int, pos: Position, distance: Option<real>)

  /** A created link `(id_node, new_node_id)`. */
  type LinkPair = (int, int)

  /** `x**2`. */
  function Square(x: real): real
  {
    x * x
  }

  /** A square is non-negative, and zero only for zero. */
  lemma SquareSign(x: real)
    ensures 0.0 <= Square(x)
    ensures x != 0.0 ==> 0.0 < Square(x)
    ensures x == 0.0 ==> Square(x) == 0.0
  {
    if x > 0.0 {
      calc {
        Square(x);
        x * x;
        > 0.0 * x;
      }
    } else if x < 0.0 {
      var y := -x;
      calc {
        Square(x);
        == { assert x * x == y * y; }
        y * y;
        > { assert y > 0.0; }
        0.0 * y;
      }
    } else {
      assert x * x == 0.0 * x;
    }
  }

  /** The square root the distance uses, as an oracle: the non-negative root of every non-negative real. */
  ghost predicate IsSqrt(sqrt: real -> real)
  {
    forall x: real :: 0.0 <= x ==> 0.0 <= sqrt(x) && Square(sqrt(x)) == x
  }

  function SquaredDistance(a: Position, b: Position): real
  {
    Square(a.lon - b.lon) + Square(a.lat - b.lat)
  }

  /** `calculate_distance`: planar Euclidean distance between two positions. */
  function CalculateDistance(sqrt: real -> real, a: Position, b: Position): (d: real)
    ensures IsSqrt(sqrt) ==> 0.0 <= d && Square(d) == Square(a.lon - b.lon) + Square(a.lat - b.lat)
  {
    SquareSign(a.lon - b.lon);
    SquareSign(a.lat - b.lat);
    sqrt(SquaredDistance(a, b))
  }

  /** The distance is non-negative, symmetric, and zero exactly when the positions coincide. */
  lemma CalculateDistanceIsMetric(sqrt: real -> real, a: Position, b: Position)
    requires IsSqrt(sqrt)
    ensures 0.0 <= CalculateDistance(sqrt, a, b)
    ensures CalculateDistance(sqrt, a, b) == CalculateDistance(sqrt, b, a)
    ensures CalculateDistance(sqrt, a, b) == 0.0 <==> a == b
  {
    var dx, dy := a.lon - b.lon, a.lat - b.lat;
    assert Square(b.lon - a.lon) == Square(dx) && Square(b.lat - a.lat) == Square(dy);
    SquareSign(dx);
    SquareSign(dy);
    var d := CalculateDistance(sqrt, a, b);
    assert 0.0 <= d && Square(d) == Square(dx) + Square(dy);
    SquareSign(d);
    if a != b {
      assert dx != 0.0 || dy != 0.0;
    }
  }

  /** Every link of the list carries a `distance`. */
  predicate Scored(links: seq<Candidate>)
  {
    forall i :: 0 <= i < |links| ==> links[i].distance.Some?
  }

  /** `evaluate_links`: the total of the links' distances. */
  function EvaluateLinks(links: seq<Candidate>): (total: real)
    requires Scored(links)
    ensures links == [] ==> total == 0.0
    ensures (forall i :: 0 <= i < |links| ==> 0.0 <= links[i].distance.value) ==> 0.0 <= total
  {
    if links == [] then 0.0
    else
      assert forall i :: 1 <= i < |links| ==> links[1..][i - 1] == links[i];
      links[0].distance.value + EvaluateLinks(links[1..])
  }

  /** `link['distance'] = calculate_distance(new_node_position, link)`. */
  function WithDistance(sqrt: real -> real, newPosition: Position, c: Candidate): Candidate
  {
    c.(distance := Some(CalculateDistance(sqrt, newPosition, c.pos)))
  }

  /** The size of the slice `nearby_nodes[:5]` of a list of `n` nodes. */
  function TrialSize(n: nat): nat
  {
    if n < LinkSetSize then n else LinkSetSize
  }

  predicate AllPermutations(ps: seq<seq<nat>>, n: nat)
  {
    forall i :: 0 <= i < |ps| ==> IsPermutation(ps[i], n)
  }

  /** The records of `s` with the distance recorded on the first `k` of them. */
  function WithDistances(sqrt: real -> real, newPosition: Position, s: seq<Candidate>, k: nat): (t: seq<Candidate>)
    ensures |t| == |s|
  {
    seq(|s|, i requires 0 <= i < |s| => if i < k then WithDistance(sqrt, newPosition, s[i]) else s[i])
  }

  /**
   * What one iteration leaves in `nearby_nodes`: the shuffled order, with the
   * distance recorded on the first five records (the slice shares them).
   */
  function Step(sqrt: real -> real, newPosition: Position, s: seq<Candidate>, p: seq<nat>): (t: seq<Candidate>)
    requires IsPermutation(p, |s|)
    ensures |t| == |s|
  {
    WithDistances(sqrt, newPosition, Permute(s, p), TrialSize(|s|))
  }

  /** One more iteration appends its trial to the trials and applies its step to the list. */
  lemma IterationStep(sqrt: real -> real, newPosition: Position, s0: seq<Candidate>, ps: seq<seq<nat>>, i: nat)
    requires AllPermutations(ps, |s0|) && i < |ps|
    ensures StateAfter(sqrt, newPosition, s0, ps[..i + 1])
            == Step(sqrt, newPosition, StateAfter(sqrt, newPosition, s0, ps[..i]), ps[i])
    ensures Trials(sqrt, newPosition, s0, ps[..i + 1])
            == Trials(sqrt, newPosition, s0, ps[..i]) + [Trial(StateAfter(sqrt, newPosition, s0, ps[..i + 1]))]
  {
    var prefix := ps[..i + 1];
    assert prefix[..i] == ps[..i];
    assert prefix[..i + 1] == prefix;
    var ts := Trials(sqrt, newPosition, s0, prefix);
    var ts' := Trials(sqrt, newPosition, s0, ps[..i]);
    forall m | 0 <= m < i
      ensures ts[m] == ts'[m]
    {
      assert prefix[..m + 1] == ps[..i][..m + 1];
    }
    assert ts == ts' + [ts[i]];
  }

  /** `nearby_nodes` after the iterations that drew the shuffles `ps`. */
  function StateAfter(sqrt: real -> real, newPosition: Position, s0: seq<Candidate>, ps: seq<seq<nat>>): (s: seq<Candidate>)
    requires AllPermutations(ps, |s0|)
    ensures |s| == |s0|
    decreases |ps|
  {
    if ps == [] then s0
    else Step(sqrt, newPosition, StateAfter(sqrt, newPosition, s0, ps[..|ps| - 1]), ps[|ps| - 1])
  }

  /** The trial set of an iteration: the first five records, once their distances are recorded. */
  function Trial(state: seq<Candidate>): seq<Candidate>
  {
    state[..TrialSize(|state|)]
  }

  predicate AllScored(ts: seq<seq<Candidate>>)
  {
    forall i :: 0 <= i < |ts| ==> Scored(ts[i])
  }

  /** The trial set of every iteration, in order; each carries its distances. */
  function Trials(sqrt: real -> real, newPosition: Position, s0: seq<Candidate>, ps: seq<seq<nat>>): (ts: seq<seq<Candidate>>)
    requires AllPermutations(ps, |s0|)
    ensures |ts| == |ps|
    ensures AllScored(ts)
  {
    var ts := seq(|ps|, i requires 0 <= i < |ps| => Trial(StateAfter(sqrt, newPosition, s0, ps[..i + 1])));
    assert AllScored(ts) by {
      forall i | 0 <= i < |ps|
        ensures Scored(ts[i])
      {
        var prefix := ps[..i + 1];
        assert prefix[..|prefix| - 1] == ps[..i];
        assert prefix[|prefix| - 1] == ps[i];
      }
    }
    ts
  }

  /**
   * The retention rule `if score < best_score`, applied to the trials in
   * order; `None` stands for the initial `best_score = float('inf')`.
   */
  function KeepBest(ts: seq<seq<Candidate>>): (best: Option<seq<Candidate>>)
    requires AllScored(ts)
    ensures best.Some? ==> Scored(best.value)
  {
    if ts == [] then None
    else
      var best := KeepBest(ts[..|ts| - 1]);
      var last := ts[|ts| - 1];
      if best.None? || EvaluateLinks(last) < EvaluateLinks(best.value) then Some(last) else best
  }

  /** Scoring one more trial keeps it exactly when it beats the retained one. */
  lemma KeepBestAppend(ts: seq<seq<Candidate>>, t: seq<Candidate>)
    requires AllScored(ts) && Scored(t)
    ensures AllScored(ts + [t])
    ensures KeepBest(ts + [t]) == if KeepBest(ts).None? || EvaluateLinks(t) < EvaluateLinks(KeepBest(ts).value)
                                  then Some(t) else KeepBest(ts)
  {
    assert (ts + [t])[..|ts|] == ts;
  }

  /** Trial `j` scores no more than any trial, and strictly less than every earlier one. */
  predicate IsFirstMinimum(ts: seq<seq<Candidate>>, j: nat)
    requires AllScored(ts)
  {
    j < |ts| &&
    (forall k :: 0 <= k < |ts| ==> EvaluateLinks(ts[j]) <= EvaluateLinks(ts[k])) &&
    (forall k :: 0 <= k < j ==> EvaluateLinks(ts[j]) < EvaluateLinks(ts[k]))
  }

  /**
   * The retained trial is the earliest one of least score: its score is at
   * most that of every trial seen, and ties keep the first.
   */
  lemma {:induction false} KeepBestIsFirstMinimum(ts: seq<seq<Candidate>>)
    requires AllScored(ts)
    ensures KeepBest(ts).None? <==> ts == []
    ensures ts != [] ==> exists j: nat :: IsFirstMinimum(ts, j) && KeepBest(ts) == Some(ts[j])
  {
    if ts != [] {
      var n := |ts|;
      var init, last := ts[..n - 1], ts[n - 1];
      if init == [] {
        assert IsFirstMinimum(ts, 0);
      } else {
        KeepBestIsFirstMinimum(init);
        var j: nat :| IsFirstMinimum(init, j) && KeepBest(init) == Some(init[j]);
        var best := EvaluateLinks(init[j]);
        assert ts[j] == init[j];
        forall k | 0 <= k < n - 1
          ensures best <= EvaluateLinks(ts[k])
          ensures k < j ==> best < EvaluateLinks(ts[k])
        {
          assert ts[k] == init[k];
        }
        if EvaluateLinks(last) < best {
          assert IsFirstMinimum(ts, n - 1);
        } else {
          assert IsFirstMinimum(ts, j);
        }
      }
    }
  }

  /** `best_links` after the loop: the retained trial, or `[]` when there was none. */
  function BestLinks(sqrt: real -> real, newPosition: Position, s0: seq<Candidate>, ps: seq<seq<nat>>): seq<Candidate>
    requires AllPermutations(ps, |s0|)
  {
    match KeepBest(Trials(sqrt, newPosition, s0, ps))
    case None => []
    case Some(links) => links
  }

  /** The `(id_node, new_node_id)` pair of each retained node, in `best_links` order. */
  function LinkPairs(links: seq<Candidate>, newNodeId: int): (pairs: seq<LinkPair>)
    ensures |pairs| == |links|
    ensures forall i :: 0 <= i < |links| ==> pairs[i] == (links[i].id, newNodeId)
  {
    seq(|links|, i requires 0 <= i < |links| => (links[i].id, newNodeId))
  }

  /** The stored identity of a record: its id and position, whatever its `distance`. */
  function NodesOf(s: seq<Candidate>): (nodes: seq<(int, Position)>)
    ensures |nodes| == |s|
    ensures forall i :: 0 <= i < |s| ==> nodes[i] == (s[i].id, s[i].pos)
  {
    seq(|s|, i requires 0 <= i < |s| => (s[i].id, s[i].pos))
  }

  /** `nearby_nodes` ends as a reordering of the nodes it started with. */
  lemma {:induction false} StatePermutesNodes(sqrt: real -> real, newPosition: Position, s0: seq<Candidate>, ps: seq<seq<nat>>)
    requires AllPermutations(ps, |s0|)
    ensures multiset(NodesOf(StateAfter(sqrt, newPosition, s0, ps))) == multiset(NodesOf(s0))
    decreases |ps|
  {
    if ps != [] {
      var prev := StateAfter(sqrt, newPosition, s0, ps[..|ps| - 1]);
      var p := ps[|ps| - 1];
      StatePermutesNodes(sqrt, newPosition, s0, ps[..|ps| - 1]);
      assert NodesOf(Step(sqrt, newPosition, prev, p)) == Permute(NodesOf(prev), p);
      PermutePreservesMultiset(NodesOf(prev), p);
    }
  }

  /**
   * What `optimize_links` returns: nothing without iterations; otherwise one
   * pair per node of the earliest least-scoring trial, `min(5, n)` of them,
   * each pairing the id of a nearby node with the new node's id.
   */
  lemma OptimizedLinks(sqrt: real -> real, newPosition: Position, s0: seq<Candidate>, ps: seq<seq<nat>>, newNodeId: int)
    requires AllPermutations(ps, |s0|)
    ensures var created := LinkPairs(BestLinks(sqrt, newPosition, s0, ps), newNodeId);
      && |created| == (if ps == [] then 0 else TrialSize(|s0|))
      && (forall i :: 0 <= i < |created| ==> created[i].1 == newNodeId)
      && (forall i :: 0 <= i < |created| ==> exists k :: 0 <= k < |s0| && s0[k].id == created[i].0)
    ensures ps != [] ==>
      exists j: nat :: IsFirstMinimum(Trials(sqrt, newPosition, s0, ps), j)
        && BestLinks(sqrt, newPosition, s0, ps) == Trials(sqrt, newPosition, s0, ps)[j]
  {
    var ts := Trials(sqrt, newPosition, s0, ps);
    KeepBestIsFirstMinimum(ts);
    var best := BestLinks(sqrt, newPosition, s0, ps);
    if ps != [] {
      var j: nat :| IsFirstMinimum(ts, j) && KeepBest(ts) == Some(ts[j]);
      var state := StateAfter(sqrt, newPosition, s0, ps[..j + 1]);
      assert best == Trial(state);
      StatePermutesNodes(sqrt, newPosition, s0, ps[..j + 1]);
      forall i | 0 <= i < |best|
        ensures exists k :: 0 <= k < |s0| && s0[k].id == best[i].id
      {
        assert NodesOf(state)[i] in multiset(NodesOf(s0));
        var k :| 0 <= k < |s0| && NodesOf(s0)[k] == NodesOf(state)[i];
      }
    }
  }

  /** With a true square root every trial scores at least zero. */
  lemma TrialScoresNonNegative(sqrt: real -> real, newPosition: Position, s0: seq<Candidate>, ps: seq<seq<nat>>)
    requires IsSqrt(sqrt)
    requires AllPermutations(ps, |s0|)
    ensures forall i :: 0 <= i < |ps| ==> 0.0 <= EvaluateLinks(Trials(sqrt, newPosition, s0, ps)[i])
  {
    var ts := Trials(sqrt, newPosition, s0, ps);
    forall i | 0 <= i < |ps|
      ensures 0.0 <= EvaluateLinks(ts[i])
    {
      var prefix := ps[..i + 1];
      assert prefix[..|prefix| - 1] == ps[..i];
      var before := StateAfter(sqrt, newPosition, s0, ps[..i]);
      var shuffled := Permute(before, ps[i]);
      forall m | 0 <= m < |ts[i]|
        ensures 0.0 <= ts[i][m].distance.value
      {
        CalculateDistanceIsMetric(sqrt, newPosition, shuffled[m].pos);
      }
    }
  }

  /** The store's side of `insert_new_link`: the links inserted so far, in call order. */
  class Cursor {
    var insertedLinks: seq<LinkPair>

    constructor ()
      ensures insertedLinks == []
    {
      insertedLinks := [];
    }

    /** `insert_new_link(cursor, source_node_id, target_node_id)`. */
    method InsertNewLink(source: int, target: int)
      modifies this
      ensures insertedLinks == old(insertedLinks) + [(source, target)]
    {
      insertedLinks := insertedLinks + [(source, target)];
    }
  }

  /**
   * The inner loop of an iteration: `selected_links = nearby_nodes[:k]` and a
   * distance recorded on each selected link. The slice copies the list but
   * shares its records, so each distance is recorded in `nearby` as well.
   */
  method RecordDistances(nearby: array<Candidate>, k: nat, sqrt: real -> real, newPosition: Position)
    returns (selected: seq<Candidate>)
    requires k <= nearby.Length
    modifies nearby
    ensures nearby[..] == WithDistances(sqrt, newPosition, old(nearby[..]), k)
    ensures selected == nearby[..k]
  {
    selected := nearby[..k];
    for j := 0 to k
      invariant |selected| == k
      invariant forall m :: 0 <= m < j ==> selected[m] == WithDistance(sqrt, newPosition, old(nearby[m])) && nearby[m] == selected[m]
      invariant forall m :: j <= m < k ==> selected[m] == old(nearby[m])
      invariant forall m :: j <= m < nearby.Length ==> nearby[m] == old(nearby[m])
    {
      var link := selected[j].(distance := Some(CalculateDistance(sqrt, newPosition, selected[j].pos)));
      selected := selected[j := link];
      nearby[j] := link;
    }
  }

  /** The closing loop of `optimize_links`: insert and report one link per retained node. */
  method InsertLinks(cursor: Cursor, bestLinks: seq<Candidate>, newNodeId: int) returns (created: seq<LinkPair>)
    modifies cursor
    ensures created == LinkPairs(bestLinks, newNodeId)
    ensures cursor.insertedLinks == old(cursor.insertedLinks) + created
  {
    created := [];
    for j := 0 to |bestLinks|
      invariant created == LinkPairs(bestLinks[..j], newNodeId)
      invariant cursor.insertedLinks == old(cursor.insertedLinks) + created
    {
      cursor.InsertNewLink(bestLinks[j].id, newNodeId);
      created := created + [(bestLinks[j].id, newNodeId)];
    }
    assert bestLinks[..|bestLinks|] == bestLinks;
  }

  /**
   * `optimize_links`: runs `numIterations` iterations, iteration `i` shuffling
   * `nearby` in place with the drawn permutation `shuffles[i]`; then inserts
   * and returns one link per retained node. `newPosition` is the position the
   * store holds for the new node.
   */
  method OptimizeLinks(cursor: Cursor, newNodeId: int, newPosition: Position, nearby: array<Candidate>,
                       shuffles: seq<seq<nat>>, numIterations: nat, sqrt: real -> real)
    returns (created: seq<LinkPair>)
    requires |shuffles| == numIterations
    requires AllPermutations(shuffles, nearby.Length)
    modifies nearby, cursor
    ensures nearby[..] == StateAfter(sqrt, newPosition, old(nearby[..]), shuffles)
    ensures created == LinkPairs(BestLinks(sqrt, newPosition, old(nearby[..]), shuffles), newNodeId)
    ensures |created| == if numIterations == 0 then 0 else TrialSize(nearby.Length)
    ensures cursor.insertedLinks == old(cursor.insertedLinks) + created
  {
    ghost var s0 := nearby[..];
    var bestLinks: seq<Candidate> := [];
    var bestScore: Option<real> := None;
    for i := 0 to numIterations
      modifies nearby
      invariant AllPermutations(shuffles[..i], |s0|)
      invariant nearby[..] == StateAfter(sqrt, newPosition, s0, shuffles[..i])
      invariant bestScore.None? ==> bestLinks == []
      invariant bestScore.Some? ==> Scored(bestLinks) && bestScore.value == EvaluateLinks(bestLinks)
      invariant KeepBest(Trials(sqrt, newPosition, s0, shuffles[..i]))
                == if bestScore.None? then None else Some(bestLinks)
    {
      ApplyShuffle(nearby, shuffles[i]);
      var k := TrialSize(nearby.Length);
      var selected := RecordDistances(nearby, k, sqrt, newPosition);
      IterationStep(sqrt, newPosition, s0, shuffles, i);
      KeepBestAppend(Trials(sqrt, newPosition, s0, shuffles[..i]), selected);
      var score := EvaluateLinks(selected);
      if bestScore.None? || score < bestScore.value {
        bestScore := Some(score);
        bestLinks := selected;
      }
    }
    assert shuffles[..numIterations] == shuffles;
    OptimizedLinks(sqrt, newPosition, s0, shuffles, newNodeId);
    created := InsertLinks(cursor, bestLinks, newNodeId);
  }
}
